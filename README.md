# Prize wheel and three-step form

A Dafny model of the two pieces of logic in the 3stepform page. First, the
prize wheel widget that `wheelFactory` builds in `wheel/script.js`. Second,
the step navigation and submission of the multi-step form in `script.js`.

- `results.dfy` (module `Results`): `Option` for JavaScript's `undefined`,
  and `Result`/`Outcome` for a call that returns or throws (`Error("no mount
  element provided")`, or a `TypeError` from a property read on `undefined`).
- `wheel_geometry.dfy` (module `WheelGeometry`), the pure arithmetic:
  - the constants: `Math.PI` written out as the exact double value, `TAU`,
    the nine colours and the layout ratios;
  - `degToRad`;
  - JavaScript's `%` on numbers, a remainder truncated toward zero
    (`JsRem`);
  - the segment layout that `drawWheel` builds (arc rotation, span, fill,
    label direction, radius and centre);
  - the rule by which `getCurrentWord` picks a word.
- `wheel_widget.dfy` (module `WheelWidget`), the widget's state:
  - the class `Wheel` holds the closure variables of `wheelFactory`
    (`options`, `words`, `group` and its rotation, `isGroupActive`,
    `curPosArr`, `dirScalar`, `lastCurTime`, `speed`), whether `animateWheel`
    is bound to "update", and the calls made to `onWheelTick`;
  - its methods are `init`, `setWords`, `drawWheel`, the three cursor
    handlers, one animation frame, `spin`, `getCurrentWord` and `destroy`;
  - the inertial spin is also given as a function on a `Motion` value, and
    the lemma `ComesToRest` proves that every spin stops.
- `step_form.dfy` (module `StepForm`):
  - the class `MultiStepForm` keeps each step's `active` and `hide` classes
    as two boolean arrays, plus `currentStep`;
  - its members are the page-load initialisation, the click handler,
    `showCurrentStep` and the `animationend` handler;
  - the submitted record, and the FormData entries that `uploadData`
    builds from it.

Numbers are exact reals. Because `PI` is the exact double `Math.PI`, every
angle is a fixed rational and no trigonometric function appears.

The angles from `Math.atan2`, the hit test, the cursor positions, the
`performance.now()` timestamps, and the validity answers of
`reportValidity()` are all parameters of the methods.

The cursor handlers are modelled as written. In the repository they are
never attached, because the call to `initEvents()` at
`wheel/script.js:72` is commented out.

The selection follows `getCurrentWord`'s formula literally. For four words
`A, B, C, D` at rotation 0 the pointer angle is `3 * PI / 4`, in the second
segment, so the result is `"B"` (`FourWordsAtRest`). On a square surface
that is also the segment drawn under the ticker
(`SelectedSegmentFacesTicker`, `TickerOnTheRight`).

## Model

| member | source | states |
|---|---|---|
| WheelGeometry.DegToRad | wheel/script.js:19 | the result in radians times 180 equals the degrees times pi |
| WheelGeometry.JsRem | wheel/script.js:246 | the truncated remainder lies strictly within one modulus either way and keeps the dividend's sign, no farther from 0 than the dividend, so a rotation updated by `%` TAU stays in (-TAU, TAU) |
| WheelGeometry.JsRemQuotient | wheel/script.js:246 | the dividend is the remainder plus a whole number of moduli |
| WheelGeometry.JsRemOfRemainder | wheel/script.js:313 | a dividend already in [0, m) is its own remainder |
| WheelGeometry.JsRemOfSecondTurn | wheel/script.js:313 | a dividend in [m, 2m) has remainder dividend minus m |
| WheelGeometry.SegmentAngle | wheel/script.js:158 | the segment angle is positive and n segments make exactly one turn |
| WheelGeometry.SegmentsTileOneTurn | wheel/script.js:158-193 | every arc spans one segment angle, each arc starts where the one before ends, the last ends one turn after the first starts, and each label points along the middle of its segment |
| WheelGeometry.FillsCycle | wheel/script.js:179 | fills repeat with period 9 and segments with consecutive indices never share a fill |
| WheelGeometry.WrapAroundFill | wheel/script.js:179 | the last segment, which borders the first, shares its fill exactly when the number of words is 1 modulo 9 |
| WheelGeometry.ResizeScalesLayout | wheel/script.js:159-196 | scaling the surface width by k scales every centre, radius, label distance and text size by k and changes no angle, text or fill |
| WheelGeometry.PointerAngle | wheel/script.js:313 | `currAngle` is below TAU, and not negative when the rotation is below TAU |
| WheelGeometry.PointerAngleTurns | wheel/script.js:313 | `currAngle` is the unreduced angle less a whole number of turns |
| WheelGeometry.FindSegment | wheel/script.js:315 | the search returns the first index whose far edge is beyond the pointer angle, and none exactly when no index's is |
| WheelGeometry.FindSegmentExact | wheel/script.js:315 | for a pointer angle in [0, n*u) the search finds segment j exactly when the angle counted in segments lies in [j, j+1) |
| WheelGeometry.CurrentWord | wheel/script.js:310-316 | a returned word is one of the words, and one is returned exactly when an index is selected |
| WheelGeometry.SelectionExists | wheel/script.js:310-316 | with at least one word a segment is always selected, at any rotation |
| WheelGeometry.SelectionIsSegmentAtPointer | wheel/script.js:310-316 | segment j is selected if and only if the pointer angle counted in segments lies in [j, j+1), so the selection is unique |
| WheelGeometry.CurrentWordAtPointer | wheel/script.js:310-316 | the returned word is the word of the segment holding the pointer angle |
| WheelGeometry.SelectedSegmentFacesTicker | wheel/script.js:310-316 | the selected segment's drawn arc, turned by the rotation, covers direction 0 from the centre modulo whole turns |
| WheelGeometry.TickerOnTheRight | wheel/script.js:105-112 | the ticker circle lies right of the wheel's centre, and level with it (direction 0) exactly when height equals width |
| WheelGeometry.EachWordInTurn | wheel/script.js:310-316 | at rotation PI/2 - j*u the word returned is word j, so every word comes up once per turn, in order |
| WheelGeometry.FourWordsAtRest | wheel/script.js:310-316 | four words at rotation 0 give the second word |
| WheelWidget.MergeOptions | wheel/script.js:63 | the merged keys are the union, given options override and every other option is kept |
| WheelWidget.DefaultsKept | wheel/script.js:46-50 | width 360, height 360 and type "svg" survive the merge unless given |
| WheelWidget.CheckMount | wheel/script.js:29-31 | mounting passes exactly on an object with `nodeType`; a falsy value or an object without it gives the mount error, a primitive a TypeError |
| WheelWidget.WheelFactory | wheel/script.js:28-31 | the API object is returned exactly when the mount check passes, in its initial state; otherwise the check's exception is thrown |
| WheelWidget.TickCalls | wheel/script.js:293-297 | the tick callback is called once with the angle exactly when `onWheelTick` is a function, and not at all otherwise |
| WheelWidget.ReleaseSpeed | wheel/script.js:263 | the release speed is in [0, 0.5], at most distance over time, and equal to it whenever below 0.5 |
| WheelWidget.TickStep | wheel/script.js:282-291 | a tick sets the rotation to (rotation + speed * dirScalar) % TAU, so within (-TAU, TAU), multiplies the speed by 0.95, keeps the direction, and stays bound exactly when the new speed is at least 0.005 |
| WheelWidget.TicksToRest | wheel/script.js:284-290 | there is a first tick count after which the decayed speed is below 0.005, and the speed stays at or above it on every earlier tick |
| WheelWidget.ComesToRest | wheel/script.js:282-291 | from any bound tick the frames keep it bound for exactly the first TicksToRest(speed) frames, decaying the speed geometrically, and then it unbinds itself |
| WheelWidget.RestIsFinal | wheel/script.js:288-290 | once unbound, further frames change nothing |
| WheelWidget.Segments | wheel/script.js:167-197 | the first i words give 2i shapes, the arc of word j at 2j and its label at 2j+1 |
| WheelWidget.DrawnShapes | wheel/script.js:167-197 | the group holds exactly one arc and one label per word, in word order |
| WheelWidget.DrawSegments | wheel/script.js:167-197 | the `words.map` loop builds exactly the drawn shapes |
| WheelWidget.Wheel.constructor | wheel/script.js:46-61 | default options, no surface, no words, no group, empty drag buffer, direction 1, nothing bound |
| WheelWidget.Wheel.Init | wheel/script.js:62-66 | the options become the merge and the surface takes the merged width; every other field, the drag time included, is unchanged |
| WheelWidget.Wheel.SetWords | wheel/script.js:87-89 | the words are the given list |
| WheelWidget.Wheel.DrawWheel | wheel/script.js:151-206 | without a surface or without words it throws a TypeError (an old group is emptied first); otherwise the new group at rotation 0 holds exactly the drawn shapes of the words; the options, words, drag state and spin are unchanged |
| WheelWidget.Wheel.CursorDown | wheel/script.js:215-221 | without a group it throws; otherwise the drag is active exactly on a hit, the sample is appended only then, and the time is recorded |
| WheelWidget.Wheel.CursorMove | wheel/script.js:223-252 | nothing changes unless dragging with a non-empty buffer; otherwise exactly one sample is appended, the direction is 1 iff delta > 0, the rotation becomes (rotation + delta) % TAU and the tick callback fires with it |
| WheelWidget.Wheel.CursorUp | wheel/script.js:254-270 | the buffer is always emptied and the drag ended; after a drag of at least two samples the speed becomes the release speed and the tick is bound, otherwise speed and binding are unchanged |
| WheelWidget.Wheel.Spin | wheel/script.js:299-302 | the speed becomes the argument; the tick is bound when there is a surface, and a TypeError is thrown otherwise |
| WheelWidget.Wheel.Frame | wheel/script.js:282-291 | an unbound tick changes nothing; a bound tick without a group throws; otherwise the state becomes one TickStep and the callback fires with the new rotation |
| WheelWidget.Wheel.GetCurrentWord | wheel/script.js:310-316 | it throws without words or without a group; otherwise it is CurrentWord, which is one of the words whenever there is at least one |
| WheelWidget.Wheel.Destroy | wheel/script.js:326-346 | without a group it throws; otherwise the group is emptied, every update handler unbound, and it returns true |
| WheelWidget.DestroyTwice | wheel/script.js:341-346 | on a wheel that has been drawn, destroying twice returns true both times |
| StepForm.FindIndex | script.js:3-5 | the result is the first index satisfying the test, and -1 exactly when none does |
| StepForm.OnlyActiveCount | script.js:40-44 | when only the current step is active, exactly one step is active if it is a step, none otherwise |
| StepForm.OnlyActiveFound | script.js:3-5 | when only step k is active, the initial search finds k again, or -1 when k is out of range |
| StepForm.Incrementor | script.js:15-21 | next gives +1 (tested first), previous -1, anything else no increment |
| StepForm.MultiStepForm.constructor | script.js:3-12 | the current step is the first active step, with the flags untouched; with none active it is 0 and only step 0 is active |
| StepForm.Load | script.js:1-12 | a form with no steps throws a TypeError; otherwise a fresh form with one flag per step and the given hide flags, whose current step is the first active step with the flags kept, or, when none is active, step 0 made the only active one |
| StepForm.MultiStepForm.ShowCurrentStep | script.js:40-44 | afterwards a step is active if and only if its index is the current step |
| StepForm.MultiStepForm.Click | script.js:14-31 | a click on neither button changes nothing; a button click throws when the current step does not exist; with every input valid the step moves by exactly the increment and only it is active; otherwise nothing changes |
| StepForm.NextThenPrevious | script.js:24-30 | next then previous returns to the same step, except from the last step, where no step is left active and the second click throws |
| StepForm.MultiStepForm.AnimationEnd | script.js:33-38 | it throws when the current step does not exist; otherwise the current step loses `hide` and the target gets `hide` iff it is not active, so after navigation the current step is never hidden and every other target is |
| StepForm.FindValue | script.js:60-62 | the value is undefined exactly when no input has the id, and otherwise is the value of the first input with that id |
| StepForm.Submitted | script.js:58-64 | the record's name, email and phone are looked up among the inputs and its discount is the current word; an exception from `getCurrentWord` propagates |
| StepForm.FormDataEntries | script.js:79-83 | one entry per key, in the order name, email, phone, discount, each holding the field's string value |
| StepForm.EntriesHoldRecord | script.js:81-83 | each key's entry holds that field, with undefined as "undefined", and no other key has an entry |
| StepForm.EntriesHoldFields | script.js:81-83 | reading the entries back under name, email, phone and discount gives each field of the record, with undefined as "undefined" |
| StepForm.SubmissionPosted | script.js:59-64 | the posted entries carry the selected word as discount and the typed name, email and phone |

## Left out

- Two.js rendering is not modelled: the surface, `makeArcSegment`, `makeText`, `makePath`, `group.center()`, `update`, `clear`, `appendTo`, the viewBox and the style attribute. The model keeps only the surface's width, the group's shapes and rotation, and whether the tick is bound.
- The ticker (`drawTicker`, `drawTickerCircle`, `drawTickerArrow`) and `getCoordOnCircle` need cosine and sine. A label's position is kept in polar form instead.
- `Math.atan2` in the cursor move handler is not modelled. The handler takes the angle difference as a parameter.
- `getEvent`, `getEventPos`, the DOM hit test, `preventDefault`, event listeners and `performance.now()` are not modelled. They become parameters.
- `updateDims`, `handleResize` and the "resize" trigger are not modelled, because they only parse sizes and redraw. `ResizeScalesLayout` states what a redraw at a new width changes.
- The page wiring of the wheel (wheel/script.js:359-403) is not part of this model.
- Floating point is exact real arithmetic in the model: there is no rounding of the 0.95 decay or of the angles, no infinity and no NaN.
- WheelWidget.ReleaseSpeed: a zero elapsed time gives the maximum speed. In JavaScript, zero distance over zero time is NaN, and `Math.min` then gives NaN.
- WheelWidget.Wheel.Init: may be called only once, with a numeric width if one is given. A second `init` makes a second Two.js surface while the group stays on the first, and one surface is all the model has.
- WheelWidget.Wheel.Spin: binding is a flag, so repeated `spin` or cursor-up calls are not claimed to bind `animateWheel` only once. Two.js's `bind` semantics are not visible.
- WheelWidget.Wheel.constructor: `speed` and `lastCurTime` start at 0 rather than `undefined`. Neither is read before it is set: the tick is bound only by `spin` or by a cursor up after a cursor down.
- StepForm.MultiStepForm.AnimationEnd: the target is a step. An `animationend` bubbling up from inside a step toggles `hide` on an element the model does not have.
- The submit handler of script.js is not modelled, apart from the record it builds: the spin with `Math.random()`, hiding the buttons and the 3-second `setTimeout`.
- `fetch`, its `then`/`catch` and `wellDone` are not modelled, because they are network and DOM output.
- `reportValidity()` is given as one boolean per input. Its short-circuiting in `every`, which decides which inputs show a message, is not modelled.
