# Counter widget — Dafny model

A model of the `counter-app` web component: a count with inclusive bounds
`min` and `max`, an increment and a decrement button, a display colour
chosen from the count, and a confetti celebration when the count reaches 21.

- `CounterModel` (counter_model.dfy) models the widget on values. `State` holds the three
  reactive properties. `IncStep` and `DecStep` are the two button handlers
  and `Fires` is the celebration rule of the update callback. `ColorFor`
  is the colour classifier, and `DecDisabled`/`IncDisabled` are the buttons'
  `?disabled` expressions. `Run` and `FireCount` follow a whole sequence of
  presses. Lemmas state the range invariant, the edge behaviour, the
  colour priorities and the celebration properties.
- `CounterApp` (counter_app.dfy) holds the widget object as a class
  `Counter`. Its fields `counter`, `min` and `max` are updated in place by
  `Inc` and `Dec`. Each handler runs the update callback `Updated` and
  returns whether the count changed and whether the celebration starts.
  Each method's contract ties the new fields to `IncStep`/`DecStep` of the
  old ones.

The range invariant `min <= counter <= max` is not enforced by the
widget: attributes written from outside can break it. The model
therefore states it as a hypothesis (`InBounds`, `Counter.Valid`) that the
handlers preserve. It is not a precondition of the handlers, which accept
any state, just as the source does.

The celebration rule checks only the new value, not which button produced
it. A decrement from 22 down to 21 (possible when `max > 21`) therefore
fires it too: the check at counter-app.js:110-113 ("when counter reaches
21") names no direction, and the model follows it (`DecrementCanFire`).

## Model

| member | source | states |
|---|---|---|
| `CounterModel.Initial` | counter-app.js:13-18 | a new widget starts at counter 0, min 0, max 10, which is within bounds |
| `CounterApp.Counter.constructor` | counter-app.js:13-18 | the constructor sets the fields to 0, 0 and 10, which satisfies the range invariant |
| `CounterModel.IncStep` | counter-app.js:92-96 | increment adds exactly 1 when counter < max and otherwise changes nothing; min and max are untouched and the range invariant is preserved |
| `CounterModel.DecStep` | counter-app.js:99-103 | decrement subtracts exactly 1 when counter > min and otherwise changes nothing; min and max are untouched and the range invariant is preserved |
| `CounterApp.Counter.Inc` | counter-app.js:92-96 | the in-place increment leaves the fields as `IncStep` of the old ones; it reports a change exactly when old counter < max and celebrates exactly when the step fires |
| `CounterApp.Counter.Dec` | counter-app.js:99-103 | the in-place decrement leaves the fields as `DecStep` of the old ones; it reports a change exactly when old counter > min and celebrates exactly when the step fires |
| `CounterApp.Counter.Updated` | counter-app.js:106-116 | the update callback starts the celebration exactly when counter changed in this update and now equals 21 |
| `CounterModel.Fires` | counter-app.js:111-112 | the celebration rule: the press changed `counter` and the new value equals 21; a firing press never starts from 21, and a press that leaves `counter` unchanged never fires |
| `CounterModel.FiresOnlyOnChange` | counter-app.js:111-113 | whichever button is pressed, the celebration fires exactly when the press changed the state and the new count is 21; a no-op press never fires it |
| `CounterModel.DecrementCanFire` | counter-app.js:111-113 | a decrement from 22 to 21 fires the celebration, because the rule checks the value and not the direction |
| `CounterModel.NoConsecutiveFires` | counter-app.js:111-113 | the celebration never fires on two presses in a row |
| `CounterModel.ClimbFiresOnce` | counter-app.js:111-113 | with max >= 21, climbing by increments from below 21 up to 21 fires the celebration exactly once (k presses ending on 21 fire once; a shorter climb fires zero times) |
| `CounterModel.ClimbThroughFiresOnce` | counter-app.js:111-113 | with room under max, k increments from below 21 fire the celebration exactly once if the climb reaches or passes 21 and never otherwise; passing 21 does not fire again |
| `CounterModel.ClimbFromAboveNeverFires` | counter-app.js:111-113 | increments starting at 21 or above never fire the celebration |
| `CounterModel.NoCelebrationBelowThreshold` | counter-app.js:111-113 | with max < 21 and the range invariant, no sequence of presses ever fires the celebration |
| `CounterModel.DecUndoesInc` | counter-app.js:92-103 | within bounds and below max, a decrement after an increment restores the state |
| `CounterModel.IncUndoesDec` | counter-app.js:92-103 | within bounds and above min, an increment after a decrement restores the state |
| `CounterModel.Run` | counter-app.js:92-103 | a sequence of n presses keeps min and max and moves the count by at most n |
| `CounterModel.RunPreservesBounds` | counter-app.js:92-103 | from a state within bounds, every finite sequence of presses ends within bounds |
| `CounterModel.IncrementsSaturate` | counter-app.js:92-96 | k increments from within bounds leave the count at min(counter + k, max) |
| `CounterModel.DecrementsSaturate` | counter-app.js:99-103 | k decrements from within bounds leave the count at max(counter - k, min) |
| `CounterModel.ColorFor` | counter-app.js:139-144 | exactly one colour is chosen: blue iff v is min or max; red iff not at a bound and v >= 21; orange iff not at a bound and 18 <= v < 21; the default colour otherwise |
| `CounterModel.BoundaryTakesPriority` | counter-app.js:140 | a value equal to min or max is blue even when it is at or past 18 or 21 |
| `CounterModel.ThresholdColorsNeedRoom` | counter-app.js:141-142 | within bounds, red can appear only when max > 21 and orange only when max > 18 |
| `CounterModel.DefaultRangeColors` | counter-app.js:139-144 | with bounds 0..10, 0 and 10 are blue, 5 is the default colour, 18 is orange and 21 is red |
| `CounterModel.Color.Css` | counter-app.js:140-143 | every colour's CSS value is non-empty and starts with '#' |
| `CounterModel.CssInjective` | counter-app.js:140-143 | distinct colours render as distinct CSS values |
| `CounterApp.Counter.DisplayColor` | counter-app.js:77 | the rendered count is blue exactly when one of the buttons is disabled; within bounds and with max < 21 it is never red |
| `CounterModel.DecDisabled` | counter-app.js:83 | the decrement button is disabled when `counter == min`, and in that state decrement changes nothing |
| `CounterModel.IncDisabled` | counter-app.js:84 | the increment button is disabled when `counter == max`, and in that state increment changes nothing |
| `CounterModel.DecDisabledIffNoOp` | counter-app.js:83 | within bounds, the decrement button is disabled exactly when decrement would change nothing |
| `CounterModel.IncDisabledIffNoOp` | counter-app.js:84 | within bounds, the increment button is disabled exactly when increment would change nothing |
| `CounterModel.InitialControls` | counter-app.js:83-84 | on a fresh widget, decrement is disabled, increment is enabled and the count is blue |
| `CounterModel.DefaultWidgetStaysCalm` | counter-app.js:13-18 | a widget with the default bounds never celebrates and only shows blue or the default colour, whatever is pressed |

## Left out

- Rendering: the HTML template, Lit's reactive property reflection and the `LitElement` base class are framework code. Only the two `?disabled` expressions (`DecDisabled`, `IncDisabled`) and the colour choice are kept.
- Styles: the static CSS block is cosmetic.
- `makeItRain`: it loads the confetti component through a dynamic-import fallback chain over three locations, with `setTimeout`, a shadow-DOM query and a console warning. This is asynchronous I/O. The model reduces it to the boolean `celebrate` that a press returns.
- Global registration with `customElements.define` is a side effect on a browser-wide registry.
- Outside writes to the `counter`, `min` and `max` attributes are not parsed or validated. The range invariant and `min <= max` are hypotheses instead.
- JavaScript numbers are floating point. The widget only assigns integer defaults and steps by one, so the model uses unbounded `int` and leaves out precision loss beyond 2^53.
- Lit's change detection and update batching: the framework decides when `updated` runs and which properties are in its changed set. The model runs the update once after every press and takes "counter changed" to mean the press gave it a different value. If several presses were batched into one update, only the last value would be checked. That case is not modelled.
