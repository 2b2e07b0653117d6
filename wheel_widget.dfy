/** The state of the prize wheel that `wheelFactory` in wheel/script.js
    returns: its options, its words, the drawn group and its rotation, the
    drag buffer of cursor samples, and the inertial spin that the tick
    handler `animateWheel` runs on every frame while it is registered.
    The Two.js surface is reduced to what the widget reads back from it:
    whether it exists, its width, the shapes in the group and whether the
    tick handler is bound. */
module WheelWidget {
  import opened Results
  import opened WheelGeometry

  // ---------------------------------------------------------------------
  // Options and mounting

  /** An option value as the widget tells them apart. */
  datatype OptValue = Num(num: real) | Str(str: string) | Callback | Other

  type Options = map<string, OptValue>

  /** The options before `init`: width 360, height 360, type "svg". */
  const DefaultOptions: Options :=
    map["width" := Num(360.0), "height" := Num(360.0), "type" := Str("svg")]

  /** `{ ...options, ...opts }`: every key given in `opts` overrides, and
      every other key keeps the value it had. */
  function MergeOptions(options: Options, opts: Options): (r: Options)
    ensures r.Keys == options.Keys + opts.Keys
    ensures forall k :: k in opts ==> r[k] == opts[k]
    ensures forall k :: k in options && k !in opts ==> r[k] == options[k]
  {
    options + opts
  }

  /** Merging into the defaults keeps width, height and type unless given. */
  lemma DefaultsKept(opts: Options)
    ensures "width" in MergeOptions(DefaultOptions, opts)
    ensures "width" !in opts ==> MergeOptions(DefaultOptions, opts)["width"] == Num(360.0)
    ensures "height" !in opts ==> MergeOptions(DefaultOptions, opts)["height"] == Num(360.0)
    ensures "type" !in opts ==> MergeOptions(DefaultOptions, opts)["type"] == Str("svg")
    ensures MergeOptions(DefaultOptions, opts).Keys == {"width", "height", "type"} + opts.Keys
  {
  }

  /** What `wheelFactory` is given to mount on: nothing (or any falsy
      value), a truthy primitive, or an object that may have `nodeType`. */
  datatype MountArg = Falsy | Primitive | Object(hasNodeType: bool)

  /** The check at the top of `wheelFactory`. `"nodeType" in x` throws a
      TypeError when `x` is a primitive. */
  function CheckMount(mount: MountArg): (r: Outcome)
    ensures r == Pass <==> mount == Object(true)
    ensures mount == Falsy || mount == Object(false) ==>
      r == Fail(MountError("no mount element provided"))
    ensures mount == Primitive ==> r == Fail(TypeError)
  {
    match mount
    case Falsy => Fail(MountError("no mount element provided"))
    case Primitive => Fail(TypeError)
    case Object(hasNodeType) =>
      if hasNodeType then Pass else Fail(MountError("no mount element provided"))
  }

  /** `wheelFactory(mountElem)`: the API object, or the exception. */
  method WheelFactory(mount: MountArg) returns (r: Result<Wheel>)
    ensures r.Ok? <==> CheckMount(mount) == Pass
    ensures r.Err? ==> Fail(r.error) == CheckMount(mount)
    ensures r.Ok? ==> fresh(r.value) && r.value.Valid() && r.value.Fresh()
  {
    var check := CheckMount(mount);
    if check.Fail? {
      return Err(check.error);
    }
    var w := new Wheel();
    return Ok(w);
  }

  // ---------------------------------------------------------------------
  // The tick callback

  /** `handleRotationChange(angle)`: the arguments `options.onWheelTick` is
      called with; it is called only when it is a function. */
  function TickCalls(options: Options, angle: real): (calls: seq<real>)
    ensures calls == [angle] <==> "onWheelTick" in options && options["onWheelTick"] == Callback
    ensures calls == [] <==> !("onWheelTick" in options && options["onWheelTick"] == Callback)
  {
    if "onWheelTick" in options && options["onWheelTick"].Callback? then [angle] else []
  }

  // ---------------------------------------------------------------------
  // Release speed and the inertial spin

  const Friction: real := 0.95
  const MaxSpeed: real := 0.5
  /** The tick unregisters itself once the speed drops below this. */
  const StopSpeed: real := 0.005

  /** `Math.min(distance / time, maxSpeed)`. A zero `time` makes the quotient
      infinite and the speed `maxSpeed`. */
  function ReleaseSpeed(distance: real, time: real): (speed: real)
    requires distance >= 0.0 && time >= 0.0
    ensures 0.0 <= speed <= MaxSpeed
    ensures time > 0.0 ==> speed <= distance / time
    ensures speed < MaxSpeed ==> time > 0.0 && speed == distance / time
  {
    if time == 0.0 then MaxSpeed
    else
      var v := distance / time;
      QuotientNonnegative(distance, time);
      if v < MaxSpeed then v else MaxSpeed
  }

  /** What one run of `animateWheel` reads and writes. */
  datatype Motion = Motion(rotation: real, speed: real, dirScalar: int, ticking: bool)

  /** One run of `animateWheel`: turn by `speed * dirScalar` modulo a turn,
      slow down by the friction, and unregister once below the stop speed. */
  function TickStep(m: Motion): (m': Motion)
    ensures m'.rotation == JsRem(m.rotation + m.speed * m.dirScalar as real, TAU)
    ensures -TAU < m'.rotation < TAU
    ensures m'.speed == m.speed * Friction && m'.dirScalar == m.dirScalar
    ensures m'.ticking <==> m'.speed >= StopSpeed
  {
    var speed := m.speed * Friction;
    Motion(JsRem(m.rotation + m.speed * m.dirScalar as real, TAU), speed, m.dirScalar,
           speed >= StopSpeed)
  }

  /** `k` animation frames: each runs the tick while it is registered. */
  function Frames(m: Motion, k: nat): Motion
    decreases k
  {
    if k == 0 || !m.ticking then m else Frames(TickStep(m), k - 1)
  }

  /** `speed` after `k` ticks. */
  function Decayed(speed: real, k: nat): real
  {
    if k == 0 then speed else Decayed(speed, k - 1) * Friction
  }

  /** How many ticks a spin at `speed` runs: the first `k` at which the
      decayed speed is below the stop speed. Each tick that keeps going
      takes away at least `0.05 * 0.005` of speed, so the count is finite. */
  function TicksToRest(speed: real): (k: nat)
    ensures k >= 1 && Decayed(speed, k) < StopSpeed
    ensures forall j :: 1 <= j < k ==> Decayed(speed, j) >= StopSpeed
    decreases (speed * 4000.0).Floor
  {
    if speed * Friction < StopSpeed then 1
    else
      var rest := TicksToRest(speed * Friction);
      DecayedShift(speed, rest);
      forall j | 1 <= j < 1 + rest
        ensures Decayed(speed, j) >= StopSpeed
      {
        DecayedShift(speed, j - 1);
      }
      1 + rest
  }

  /** `k + 1` ticks from `speed` are `k` ticks from the speed after one. */
  lemma {:induction false} DecayedShift(speed: real, k: nat)
    ensures Decayed(speed, k + 1) == Decayed(speed * Friction, k)
    decreases k
  {
    if k > 0 {
      DecayedShift(speed, k - 1);
    }
  }

  /** A spin always comes to rest: from a registered tick at any speed, the
      tick is still registered for the first `TicksToRest(speed)` frames,
      each of which multiplies the speed by the friction, and unregisters
      itself on the last of them. */
  lemma {:induction false} ComesToRest(m: Motion)
    requires m.ticking
    ensures var k := TicksToRest(m.speed);
      !Frames(m, k).ticking && Frames(m, k).speed == Decayed(m.speed, k) &&
      forall j :: 0 <= j < k ==> Frames(m, j).ticking && Frames(m, j).speed == Decayed(m.speed, j)
    decreases TicksToRest(m.speed)
  {
    var m1 := TickStep(m);
    var k := TicksToRest(m.speed);
    assert Frames(m, 1) == m1;
    if m.speed * Friction < StopSpeed {
      assert k == 1;
    } else {
      var rest := TicksToRest(m1.speed);
      assert k == 1 + rest;
      ComesToRest(m1);
      forall j | 0 <= j <= rest
        ensures Frames(m, j + 1) == Frames(m1, j)
        ensures Decayed(m.speed, j + 1) == Decayed(m1.speed, j)
      {
        DecayedShift(m.speed, j);
      }
    }
  }

  /** Once the tick has unregistered itself, further frames change nothing. */
  lemma RestIsFinal(m: Motion, k: nat)
    requires !m.ticking
    ensures Frames(m, k) == m
  {
  }

  // ---------------------------------------------------------------------
  // The drawn group

  /** The shapes `drawWheel` adds for segments `0 .. i - 1` of `words`:
      an arc and then a label for each word, in order. */
  function Segments(words: seq<string>, width: real, i: nat): (shapes: seq<Shape>)
    requires 0 < |words| && i <= |words|
    ensures |shapes| == 2 * i
    ensures forall j :: 0 <= j < i ==>
      shapes[2 * j] == SegmentArc(j, |words|, width) &&
      shapes[2 * j + 1] == SegmentLabel(words[j], j, |words|, width)
  {
    if i == 0 then []
    else
      Segments(words, width, i - 1) +
        [SegmentArc(i - 1, |words|, width), SegmentLabel(words[i - 1], i - 1, |words|, width)]
  }

  /** The whole group `drawWheel` makes for `words`: an arc and a label
      per word, in the order of the words. */
  function DrawnShapes(words: seq<string>, width: real): (shapes: seq<Shape>)
    ensures |shapes| == 2 * |words|
    ensures forall i :: 0 <= i < |words| ==>
      shapes[2 * i] == SegmentArc(i, |words|, width) &&
      shapes[2 * i + 1] == SegmentLabel(words[i], i, |words|, width)
  {
    if |words| == 0 then [] else Segments(words, width, |words|)
  }

  /** The `words.map` loop of `drawWheel`, adding an arc and a label to
      the group for each word in turn. */
  method DrawSegments(words: seq<string>, width: real) returns (drawn: seq<Shape>)
    ensures drawn == DrawnShapes(words, width)
  {
    var n := |words|;
    drawn := [];
    var i := 0;
    while i < n
      invariant 0 <= i <= n
      invariant n > 0 ==> drawn == Segments(words, width, i)
      invariant n == 0 ==> drawn == []
    {
      drawn := drawn + [SegmentArc(i, n, width), SegmentLabel(words[i], i, n, width)];
      i := i + 1;
    }
  }

  /** A cursor sample. */
  datatype Point = Point(x: real, y: real)

  function SquaredDistance(p: Point, q: Point): real
  {
    (p.x - q.x) * (p.x - q.x) + (p.y - q.y) * (p.y - q.y)
  }

  // ---------------------------------------------------------------------
  // The widget

  class Wheel {
    /** `options`, merged by `init`. */
    var options: Options
    /** Whether `init` has made the Two.js surface `two`. */
    var initialised: bool
    /** `two.width`. */
    var surfaceWidth: real
    /** `words`; `None` until `setWords` is called. */
    var words: Option<seq<string>>
    /** Whether `group` has been made by `drawWheel`. */
    var hasGroup: bool
    /** `group.children`. */
    var shapes: seq<Shape>
    /** `group.rotation`. */
    var rotation: real
    var isGroupActive: bool
    var curPosArr: seq<Point>
    var dirScalar: int
    var lastCurTime: real
    var speed: real
    /** Whether `animateWheel` is bound to the surface's "update" event. */
    var ticking: bool
    /** The angles `options.onWheelTick` has been called with, in order. */
    var tickLog: seq<real>

    ghost predicate Valid()
      reads this
    {
      (dirScalar == 1 || dirScalar == -1) &&
      -TAU < rotation < TAU &&
      ("width" in options && options["width"].Num?) &&
      (initialised ==> surfaceWidth == options["width"].num) &&
      (hasGroup ==> initialised) &&
      (ticking ==> initialised) &&
      (isGroupActive ==> hasGroup)
    }

    /** The state right after `wheelFactory` returns. */
    ghost predicate Fresh()
      reads this
    {
      options == DefaultOptions && !initialised && words == None && !hasGroup &&
      shapes == [] && rotation == 0.0 && !isGroupActive && curPosArr == [] &&
      dirScalar == 1 && !ticking && tickLog == []
    }

    /** The part of the state `animateWheel` reads and writes. */
    function Spinning(): Motion
      reads this
    {
      Motion(rotation, speed, dirScalar, ticking)
    }

    constructor ()
      ensures Valid() && Fresh()
    {
      options := DefaultOptions;
      initialised := false;
      surfaceWidth := 0.0;
      words := None;
      hasGroup := false;
      shapes := [];
      rotation := 0.0;
      isGroupActive := false;
      curPosArr := [];
      dirScalar := 1;
      lastCurTime := 0.0;
      speed := 0.0;
      ticking := false;
      tickLog := [];
    }

    /** `init(opts)`: merge the options and make the surface at the merged width. */
    method Init(opts: Options)
      requires Valid() && !initialised
      requires "width" in opts ==> opts["width"].Num?
      modifies this
      ensures Valid()
      ensures options == MergeOptions(old(options), opts)
      ensures initialised && surfaceWidth == options["width"].num
      ensures words == old(words) && hasGroup == old(hasGroup) && shapes == old(shapes)
      ensures Spinning() == old(Spinning()) && tickLog == old(tickLog)
      ensures isGroupActive == old(isGroupActive) && curPosArr == old(curPosArr)
      ensures lastCurTime == old(lastCurTime)
    {
      options := MergeOptions(options, opts);
      initialised := true;
      surfaceWidth := options["width"].num;
    }

    /** `setWords(wordsArr)`. */
    method SetWords(ws: seq<string>)
      requires Valid()
      modifies this`words
      ensures Valid() && words == Some(ws)
    {
      words := Some(ws);
    }

    /** `drawWheel()`: empty the old group if there is one, then make a new
        group, at rotation 0, holding an arc and a label per word. Without a
        surface, or without words, it throws. */
    method DrawWheel() returns (out: Outcome)
      requires Valid()
      modifies this
      ensures Valid()
      ensures out == Pass <==> old(initialised) && old(words).Some?
      ensures out.Fail? ==> out.error == TypeError
      ensures !old(initialised) ==> shapes == old(shapes)
      ensures old(initialised) && old(words).None? ==>
        shapes == (if old(hasGroup) then [] else old(shapes))
      ensures out == Pass ==>
        hasGroup && rotation == 0.0 && words.Some? && shapes == DrawnShapes(words.value, surfaceWidth)
      ensures out.Fail? ==> hasGroup == old(hasGroup) && rotation == old(rotation)
      ensures options == old(options) && initialised == old(initialised)
      ensures surfaceWidth == old(surfaceWidth) && words == old(words)
      ensures speed == old(speed) && dirScalar == old(dirScalar) && ticking == old(ticking)
      ensures isGroupActive == old(isGroupActive) && curPosArr == old(curPosArr)
      ensures lastCurTime == old(lastCurTime) && tickLog == old(tickLog)
    {
      if hasGroup {
        shapes := [];
      }
      if !initialised || words.None? {
        return Fail(TypeError);
      }
      shapes := DrawSegments(words.value, surfaceWidth);
      rotation := 0.0;
      hasGroup := true;
      return Pass;
    }

    /** `handleCursorDown`: the group is active when the event hit it, and
        then the sample is added to the buffer. `hit` is the DOM hit test. */
    method CursorDown(hit: bool, pos: Point, now: real) returns (out: Outcome)
      requires Valid()
      modifies this
      ensures Valid()
      ensures out == Pass <==> old(hasGroup)
      ensures out.Fail? ==> out.error == TypeError
      ensures out == Pass ==>
        isGroupActive == hit && lastCurTime == now &&
        curPosArr == (if hit then old(curPosArr) + [pos] else old(curPosArr))
      ensures out.Fail? ==>
        isGroupActive == old(isGroupActive) && curPosArr == old(curPosArr) &&
        lastCurTime == old(lastCurTime)
      ensures Spinning() == old(Spinning()) && tickLog == old(tickLog)
      ensures options == old(options) && initialised == old(initialised)
      ensures surfaceWidth == old(surfaceWidth) && words == old(words)
      ensures hasGroup == old(hasGroup) && shapes == old(shapes)
    {
      if !hasGroup {
        return Fail(TypeError);
      }
      isGroupActive := hit;
      curPosArr := if hit then curPosArr + [pos] else curPosArr;
      lastCurTime := now;
      return Pass;
    }

    /** `handleCursorMove`: while dragging, add the sample and turn the
        group by `delta`, the change in the cursor's angle about the centre
        between the last two samples. */
    method CursorMove(pos: Point, now: real, delta: real)
      requires Valid()
      modifies this
      ensures Valid()
      ensures !(old(isGroupActive) && |old(curPosArr)| > 0) ==>
        curPosArr == old(curPosArr) && Spinning() == old(Spinning()) &&
        lastCurTime == old(lastCurTime) && tickLog == old(tickLog)
      ensures old(isGroupActive) && |old(curPosArr)| > 0 ==>
        curPosArr == old(curPosArr) + [pos] && lastCurTime == now &&
        dirScalar == (if delta > 0.0 then 1 else -1) &&
        rotation == JsRem(old(rotation) + delta, TAU) &&
        tickLog == old(tickLog) + TickCalls(options, rotation) &&
        speed == old(speed) && ticking == old(ticking)
      ensures isGroupActive == old(isGroupActive)
      ensures options == old(options) && initialised == old(initialised)
      ensures surfaceWidth == old(surfaceWidth) && words == old(words)
      ensures hasGroup == old(hasGroup) && shapes == old(shapes)
    {
      if isGroupActive && |curPosArr| > 0 {
        lastCurTime := now;
        curPosArr := curPosArr + [pos];
        dirScalar := if delta > 0.0 then 1 else -1;
        rotation := JsRem(rotation + delta, TAU);
        tickLog := tickLog + TickCalls(options, rotation);
      }
    }

    /** `handleCursorUp`: after a drag of at least two samples, release
        the wheel at the speed of the last stretch (`distance` from the
        second-to-last sample, over the time since the last sample) and
        register the tick. The drag always ends. */
    method CursorUp(pos: Point, now: real, distance: real)
      requires Valid()
      requires now >= lastCurTime && distance >= 0.0
      requires |curPosArr| > 1 ==>
        distance * distance == SquaredDistance(pos, curPosArr[|curPosArr| - 2])
      modifies this
      ensures Valid()
      ensures curPosArr == [] && !isGroupActive
      ensures old(isGroupActive) && |old(curPosArr)| > 1 ==>
        speed == ReleaseSpeed(distance, now - old(lastCurTime)) && ticking
      ensures !(old(isGroupActive) && |old(curPosArr)| > 1) ==>
        speed == old(speed) && ticking == old(ticking)
      ensures speed <= MaxSpeed || speed == old(speed)
      ensures rotation == old(rotation) && dirScalar == old(dirScalar)
      ensures lastCurTime == old(lastCurTime) && tickLog == old(tickLog)
      ensures options == old(options) && initialised == old(initialised)
      ensures surfaceWidth == old(surfaceWidth) && words == old(words)
      ensures hasGroup == old(hasGroup) && shapes == old(shapes)
    {
      if isGroupActive && |curPosArr| > 1 {
        speed := ReleaseSpeed(distance, now - lastCurTime);
        ticking := true;
      }
      curPosArr := [];
      isGroupActive := false;
    }

    /** `spin(newSpeed)`: set the speed and register the tick. Before `init`
        there is no surface to bind to, and it throws after setting the speed. */
    method Spin(newSpeed: real) returns (out: Outcome)
      requires Valid()
      modifies this`speed, this`ticking
      ensures Valid()
      ensures speed == newSpeed
      ensures out == Pass <==> initialised
      ensures out.Fail? ==> out.error == TypeError && ticking == old(ticking)
      ensures out == Pass ==> ticking
    {
      speed := newSpeed;
      if !initialised {
        return Fail(TypeError);
      }
      ticking := true;
      return Pass;
    }

    /** One animation frame of the surface: it runs `animateWheel` while it
        is registered; that throws when there is no group to turn. */
    method Frame() returns (out: Outcome)
      requires Valid()
      modifies this`rotation, this`speed, this`ticking, this`tickLog
      ensures Valid()
      ensures out.Fail? <==> old(ticking) && !hasGroup
      ensures out.Fail? ==> out.error == TypeError
      ensures !old(ticking) || out.Fail? ==> Spinning() == old(Spinning()) && tickLog == old(tickLog)
      ensures out == Pass && old(ticking) ==>
        Spinning() == TickStep(old(Spinning())) &&
        tickLog == old(tickLog) + TickCalls(options, rotation)
      ensures Spinning() == Frames(old(Spinning()), 1) || out.Fail?
    {
      if !ticking {
        return Pass;
      }
      if !hasGroup {
        return Fail(TypeError);
      }
      var m := TickStep(Spinning());
      rotation, speed, ticking := m.rotation, m.speed, m.ticking;
      tickLog := tickLog + TickCalls(options, rotation);
      return Pass;
    }

    /** `getCurrentWord()`: the word under the pointer. With at least one
        word it is never `undefined`. */
    function GetCurrentWord(): (r: Result<Option<string>>)
      requires Valid()
      reads this
      ensures r.Err? <==> words.None? || !hasGroup
      ensures r.Err? ==> r.error == TypeError
      ensures r.Ok? ==> r.value == CurrentWord(words.value, rotation)
      ensures r.Ok? && |words.value| > 0 ==> r.value.Some? && r.value.value in words.value
    {
      if words.None? || !hasGroup then Err(TypeError)
      else
        var ws := words.value;
        if |ws| > 0 then SelectionExists(|ws|, rotation); Ok(CurrentWord(ws, rotation))
        else Ok(CurrentWord(ws, rotation))
    }

    /** `destroy()`: empty the group, clear the surface and unbind every
        "update" handler, then return true. Without a group it throws. */
    method Destroy() returns (r: Result<bool>)
      requires Valid()
      modifies this`shapes, this`ticking
      ensures Valid()
      ensures r.Ok? <==> hasGroup
      ensures r.Ok? ==> r.value && shapes == [] && !ticking
      ensures r.Err? ==> r.error == TypeError && shapes == old(shapes) && ticking == old(ticking)
    {
      if !hasGroup {
        return Err(TypeError);
      }
      shapes := [];
      ticking := false;
      return Ok(true);
    }
  }

  /** Destroying twice succeeds both times: `destroy` leaves `group` set. */
  method DestroyTwice(w: Wheel) returns (first: Result<bool>, second: Result<bool>)
    requires w.Valid() && w.hasGroup
    modifies w
    ensures first == Ok(true) && second == Ok(true)
  {
    first := w.Destroy();
    second := w.Destroy();
  }
}
