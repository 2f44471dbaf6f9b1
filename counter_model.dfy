/** The value-level model of the counter widget: its three numeric
    properties, the increment and decrement transitions, the celebration
    rule, the display colour classifier and the two button predicates,
    with the properties that hold over any sequence of button presses. */
module CounterModel {

  /** Value at which the celebration fires; a literal, independent of `max`. */
  const Celebration: int := 21
  /** First value shown in the alert colour (when not at a bound). */
  const AlertFrom: int := 21
  /** First value shown in the warning colour (when not at a bound). */
  const WarningFrom: int := 18

  const DefaultCounter: int := 0
  const DefaultMin: int := 0
  const DefaultMax: int := 10

  /** The widget's reactive properties `counter`, `min` and `max`. */
  datatype State = State(counter: int, min: int, max: int)

  /** The range invariant: the counter lies within the inclusive bounds.
      Nothing in the widget validates it against outside attribute writes. */
  predicate InBounds(s: State) {
    s.min <= s.counter <= s.max
  }

  /** The state a freshly constructed widget starts in. */
  function Initial(): (s: State)
    ensures s.counter == 0 && s.min == 0 && s.max == 10
    ensures InBounds(s)
  {
    State(DefaultCounter, DefaultMin, DefaultMax)
  }

  /** The two buttons of the widget. */
  datatype Op = Inc | Dec

  /** `inc`: one step up, refused at or above the upper bound. */
  function IncStep(s: State): (r: State)
    ensures r.min == s.min && r.max == s.max
    ensures s.counter < s.max ==> r.counter == s.counter + 1
    ensures s.counter >= s.max ==> r == s
    ensures InBounds(s) ==> InBounds(r)
  {
    if s.counter < s.max then s.(counter := s.counter + 1) else s
  }

  /** `dec`: one step down, refused at or below the lower bound. */
  function DecStep(s: State): (r: State)
    ensures r.min == s.min && r.max == s.max
    ensures s.counter > s.min ==> r.counter == s.counter - 1
    ensures s.counter <= s.min ==> r == s
    ensures InBounds(s) ==> InBounds(r)
  {
    if s.counter > s.min then s.(counter := s.counter - 1) else s
  }

  function Apply(s: State, op: Op): (r: State) {
    match op
    case Inc => IncStep(s)
    case Dec => DecStep(s)
  }

  /** The celebration rule of the update callback: the step changed the
      counter and the new value is exactly the celebration value. The rule
      looks at the value only, not at which button caused the change. */
  predicate Fires(before: State, after: State)
    ensures Fires(before, after) ==> before.counter != Celebration
    ensures after.counter == before.counter ==> !Fires(before, after)
  {
    after.counter != before.counter && after.counter == Celebration
  }

  /** Decrement button disabled; a disabled button's handler would do
      nothing even if it ran. */
  predicate DecDisabled(s: State)
    ensures DecDisabled(s) ==> DecStep(s) == s
  {
    s.counter == s.min
  }

  /** Increment button disabled; a disabled button's handler would do
      nothing even if it ran. */
  predicate IncDisabled(s: State)
    ensures IncDisabled(s) ==> IncStep(s) == s
  {
    s.counter == s.max
  }

  /** The four display colours of the count. */
  datatype Color = Blue | Red | Orange | Default {
    /** The CSS colour value the widget renders for this colour. */
    function Css(): (css: string)
      ensures |css| > 0 && css[0] == '#'
    {
      match this
      case Blue => "#3b82f6"
      case Red => "#ef4444"
      case Orange => "#f59e0b"
      case Default => "#222"
    }
  }

  /** `_colorFor`: first match wins, bounds before thresholds. */
  function ColorFor(v: int, min: int, max: int): (c: Color)
    ensures c == Blue <==> v == min || v == max
    ensures c == Red <==> v != min && v != max && v >= AlertFrom
    ensures c == Orange <==> v != min && v != max && WarningFrom <= v < AlertFrom
    ensures c == Default <==> v != min && v != max && v < WarningFrom
  {
    if v == min || v == max then Blue
    else if v >= AlertFrom then Red
    else if v >= WarningFrom then Orange
    else Default
  }

  /** The state after pressing the buttons `ops` in order. */
  function Run(s: State, ops: seq<Op>): (r: State)
    ensures r.min == s.min && r.max == s.max
    ensures s.counter - |ops| <= r.counter <= s.counter + |ops|
    decreases |ops|
  {
    if ops == [] then s else Run(Apply(s, ops[0]), ops[1..])
  }

  /** How many of the presses in `ops` fire the celebration. */
  function FireCount(s: State, ops: seq<Op>): (n: nat)
    decreases |ops|
  {
    if ops == [] then 0
    else
      var t := Apply(s, ops[0]);
      (if Fires(s, t) then 1 else 0) + FireCount(t, ops[1..])
  }

  /** `k` presses of the same button. */
  function Presses(op: Op, k: nat): (ops: seq<Op>)
    ensures |ops| == k
    ensures forall i :: 0 <= i < k ==> ops[i] == op
  {
    seq(k, _ => op)
  }

  function Min(a: int, b: int): (m: int) { if a <= b then a else b }
  function Max(a: int, b: int): (m: int) { if a >= b then a else b }

  // ---------------------------------------------------------------------
  // Single steps

  /** A press that leaves the counter alone never fires the celebration;
      one that fires it has moved the counter onto the celebration value,
      whichever button it was. */
  lemma FiresOnlyOnChange(s: State, op: Op)
    ensures Fires(s, Apply(s, op)) <==>
      Apply(s, op) != s && Apply(s, op).counter == Celebration
  {
  }

  /** A decrement landing on the celebration value fires it too. */
  lemma DecrementCanFire(s: State)
    requires s.counter == Celebration + 1 && s.min <= Celebration
    ensures Fires(s, DecStep(s))
  {
  }

  /** The celebration cannot fire on two presses in a row: once at the
      celebration value, the next press either does nothing or leaves it. */
  lemma NoConsecutiveFires(s: State, op1: Op, op2: Op)
    ensures var t := Apply(s, op1); Fires(s, t) ==> !Fires(t, Apply(t, op2))
  {
  }

  /** Within bounds, decrement undoes a successful increment. */
  lemma DecUndoesInc(s: State)
    requires s.min <= s.counter < s.max
    ensures DecStep(IncStep(s)) == s
  {
  }

  /** Within bounds, increment undoes a successful decrement. */
  lemma IncUndoesDec(s: State)
    requires s.min < s.counter <= s.max
    ensures IncStep(DecStep(s)) == s
  {
  }

  /** Within bounds, the decrement button is disabled exactly when its
      handler would do nothing. */
  lemma DecDisabledIffNoOp(s: State)
    requires InBounds(s)
    ensures DecDisabled(s) <==> DecStep(s) == s
  {
  }

  /** Within bounds, the increment button is disabled exactly when its
      handler would do nothing. */
  lemma IncDisabledIffNoOp(s: State)
    requires InBounds(s)
    ensures IncDisabled(s) <==> IncStep(s) == s
  {
  }

  /** A fresh widget: decrement disabled, increment enabled, count in blue. */
  lemma InitialControls()
    ensures DecDisabled(Initial()) && !IncDisabled(Initial())
    ensures ColorFor(Initial().counter, Initial().min, Initial().max) == Blue
  {
  }

  // ---------------------------------------------------------------------
  // Colours

  /** The bound check comes first: a value at a bound is blue even when it
      is at or past a threshold. */
  lemma BoundaryTakesPriority(v: int, min: int, max: int)
    requires v == min || v == max
    ensures ColorFor(v, min, max) == Blue
  {
  }

  /** The colour table for the default bounds 0..10. */
  lemma DefaultRangeColors()
    ensures ColorFor(0, 0, 10) == Blue && ColorFor(10, 0, 10) == Blue
    ensures ColorFor(5, 0, 10) == Default
    ensures ColorFor(18, 0, 10) == Orange && ColorFor(21, 0, 10) == Red
  {
  }

  /** The colours distinguish their CSS values. */
  lemma CssInjective(c1: Color, c2: Color)
    requires c1 != c2
    ensures c1.Css() != c2.Css()
  {
  }

  /** With the range invariant, the alert colour needs a maximum above the
      alert threshold and the warning colour one above the warning
      threshold. */
  lemma ThresholdColorsNeedRoom(s: State)
    requires InBounds(s)
    ensures ColorFor(s.counter, s.min, s.max) == Red ==> s.max > AlertFrom
    ensures ColorFor(s.counter, s.min, s.max) == Orange ==> s.max > WarningFrom
  {
  }

  // ---------------------------------------------------------------------
  // Sequences of presses

  /** The range invariant holds after any sequence of presses. */
  lemma {:induction false} RunPreservesBounds(s: State, ops: seq<Op>)
    requires InBounds(s)
    ensures InBounds(Run(s, ops))
    decreases |ops|
  {
    if ops != [] {
      RunPreservesBounds(Apply(s, ops[0]), ops[1..]);
    }
  }

  /** With a maximum below the celebration value, no sequence of presses
      from a state within bounds ever fires the celebration. */
  lemma {:induction false} NoCelebrationBelowThreshold(s: State, ops: seq<Op>)
    requires InBounds(s) && s.max < Celebration
    ensures FireCount(s, ops) == 0
    decreases |ops|
  {
    if ops != [] {
      NoCelebrationBelowThreshold(Apply(s, ops[0]), ops[1..]);
    }
  }

  /** A fresh widget never celebrates and only ever shows blue or the
      default colour, whatever the user presses. */
  lemma DefaultWidgetStaysCalm(ops: seq<Op>)
    ensures FireCount(Initial(), ops) == 0
    ensures ColorFor(Run(Initial(), ops).counter, DefaultMin, DefaultMax) in {Blue, Default}
  {
    NoCelebrationBelowThreshold(Initial(), ops);
    RunPreservesBounds(Initial(), ops);
  }

  /** Pressing increment `k` times from within bounds saturates at `max`. */
  lemma {:induction false} IncrementsSaturate(s: State, k: nat)
    requires InBounds(s)
    ensures Run(s, Presses(Inc, k)).counter == Min(s.counter + k, s.max)
    decreases k
  {
    if k > 0 {
      assert Presses(Inc, k)[1..] == Presses(Inc, k - 1);
      IncrementsSaturate(IncStep(s), k - 1);
    }
  }

  /** Pressing decrement `k` times from within bounds saturates at `min`. */
  lemma {:induction false} DecrementsSaturate(s: State, k: nat)
    requires InBounds(s)
    ensures Run(s, Presses(Dec, k)).counter == Max(s.counter - k, s.min)
    decreases k
  {
    if k > 0 {
      assert Presses(Dec, k)[1..] == Presses(Dec, k - 1);
      DecrementsSaturate(DecStep(s), k - 1);
    }
  }

  /** Climbing from below the celebration value up to it, with room under
      `max`, fires the celebration exactly once, on the last press. */
  lemma {:induction false} ClimbFiresOnce(s: State, k: nat)
    requires InBounds(s) && Celebration <= s.max
    requires s.counter + k <= Celebration
    ensures FireCount(s, Presses(Inc, k)) == if k > 0 && s.counter + k == Celebration then 1 else 0
    decreases k
  {
    if k > 0 {
      assert Presses(Inc, k)[1..] == Presses(Inc, k - 1);
      ClimbFiresOnce(IncStep(s), k - 1);
    }
  }

  /** Increments starting at or above the celebration value never fire it:
      the count only moves further away. */
  lemma {:induction false} ClimbFromAboveNeverFires(s: State, k: nat)
    requires s.counter >= Celebration
    ensures FireCount(s, Presses(Inc, k)) == 0
    decreases k
  {
    if k > 0 {
      assert Presses(Inc, k)[1..] == Presses(Inc, k - 1);
      ClimbFromAboveNeverFires(IncStep(s), k - 1);
    }
  }

  /** A climb by increments from below the celebration value that stays
      within `max` fires the celebration exactly once if it reaches or
      passes the celebration value, and never otherwise; going past it does
      not fire again. */
  lemma {:induction false} ClimbThroughFiresOnce(s: State, k: nat)
    requires InBounds(s) && s.counter < Celebration
    requires s.counter + k <= s.max
    ensures FireCount(s, Presses(Inc, k)) == if s.counter + k >= Celebration then 1 else 0
    decreases k
  {
    if k > 0 {
      assert Presses(Inc, k)[1..] == Presses(Inc, k - 1);
      var t := IncStep(s);
      if t.counter == Celebration {
        ClimbFromAboveNeverFires(t, k - 1);
      } else {
        ClimbThroughFiresOnce(t, k - 1);
      }
    }
  }
}
