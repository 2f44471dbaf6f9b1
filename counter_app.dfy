/** The widget object: its three reactive properties are fields that the
    button handlers update in place. */
module CounterApp {
  import opened CounterModel

  class Counter {
    var counter: int
    var min: int
    var max: int

    /** The range invariant (kept by the handlers, not enforced on writes
        from outside). */
    ghost predicate Valid()
      reads this
    {
      InBounds(Snapshot())
    }

    /** The properties as a value of the model. */
    function Snapshot(): (s: State)
      reads this
    {
      State(counter, min, max)
    }

    constructor ()
      ensures counter == 0 && min == 0 && max == 10
      ensures Snapshot() == Initial() && Valid()
    {
      counter := DefaultCounter;
      min := DefaultMin;
      max := DefaultMax;
    }

    /** The update callback, reduced to its celebration check: given whether
        this update changed `counter`, report whether it starts the
        celebration. This is the method form of `Fires`, on the fields. */
    method Updated(counterChanged: bool) returns (celebrate: bool)
      ensures celebrate <==> counterChanged && counter == Celebration
    {
      celebrate := counterChanged && counter == Celebration;
    }

    /** The increment handler followed by the update it causes. */
    method Inc() returns (changed: bool, celebrate: bool)
      modifies this
      ensures Snapshot() == IncStep(old(Snapshot()))
      ensures min == old(min) && max == old(max)
      ensures changed <==> old(counter) < max
      ensures celebrate <==> Fires(old(Snapshot()), Snapshot())
      ensures old(Valid()) ==> Valid()
    {
      var before := counter;
      if counter < max {
        counter := counter + 1;
      }
      changed := counter != before;
      celebrate := Updated(changed);
    }

    /** The decrement handler followed by the update it causes. */
    method Dec() returns (changed: bool, celebrate: bool)
      modifies this
      ensures Snapshot() == DecStep(old(Snapshot()))
      ensures min == old(min) && max == old(max)
      ensures changed <==> old(counter) > min
      ensures celebrate <==> Fires(old(Snapshot()), Snapshot())
      ensures old(Valid()) ==> Valid()
    {
      var before := counter;
      if counter > min {
        counter := counter - 1;
      }
      changed := counter != before;
      celebrate := Updated(changed);
    }

    /** The colour the count is rendered in. */
    function DisplayColor(): (c: Color)
      reads this
      ensures c == Blue <==> DecDisabled(Snapshot()) || IncDisabled(Snapshot())
      ensures Valid() && max < AlertFrom ==> c != Red
    {
      ColorFor(counter, min, max)
    }
  }
}
