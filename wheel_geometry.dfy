/** Angle arithmetic of the prize wheel in wheel/script.js: its constants,
    JavaScript's `%` on numbers, the segment layout that `drawWheel` builds and
    the rule by which `getCurrentWord` picks the segment under the pointer.
    Numbers are exact reals: `Math.PI` is the double nearest to pi, and
    arithmetic on it is exact rather than rounded. */
module WheelGeometry {
  import opened Results

  /** `Math.PI`: the double nearest to pi, written out exactly. */
  const PI: real := 3.141592653589793115997963468544185161590576171875
  /** A full turn, `PI * 2`. */
  const TAU: real := PI * 2.0

  /** The fill palette; segment `i` is painted `COLORS[i % 9]`. */
  const COLORS: seq<string> := [
    "#f7d046", "#ff4c5a", "#f08cba", "#49c4d2", "#924e84",
    "#fd926f", "#245a65", "#ff6a76", "#633d89"
  ]

  const TickerRadiusRatio: real := 0.06  // of the surface width
  const TextSizeRatio: real := 0.12      // of the wheel radius
  const EdgeDistRatio: real := 0.14      // of the wheel radius

  /** `degToRad`: degrees to radians. */
  function DegToRad(deg: real): (rad: real)
    ensures rad * 180.0 == deg * PI
  {
    (deg / 180.0) * PI
  }

  // ---------------------------------------------------------------------
  // JavaScript's remainder operator

  lemma MulLe(x: real, y: real, m: real)
    requires x <= y && m > 0.0
    ensures x * m <= y * m
  {
    assert y * m - x * m == (y - x) * m;
  }

  lemma MulLt(x: real, y: real, m: real)
    requires x < y && m > 0.0
    ensures x * m < y * m
  {
    assert y * m - x * m == (y - x) * m;
  }

  /** Multiplication distributes over a sum `z = x + y`. */
  lemma MulSplits(x: real, y: real, z: real, m: real)
    requires z == x + y
    ensures z * m == x * m + y * m
  {
  }

  lemma DivCancels(x: real, m: real)
    requires m > 0.0
    ensures (x / m) * m == x && (x * m) / m == x
  {
  }

  lemma MulNegates(x: real, m: real)
    ensures (-x) * m == -(x * m)
  {
  }

  /** The remainder of `a` after taking away as many whole `m`s as fit. */
  function FloorRem(a: real, m: real): (r: real)
    requires a >= 0.0 && m > 0.0
    ensures 0.0 <= r < m && r <= a
  {
    var q := (a / m).Floor as real;
    FloorRemBounds(a, m, q);
    a - q * m
  }

  lemma FloorRemBounds(a: real, m: real, q: real)
    requires a >= 0.0 && m > 0.0 && q == (a / m).Floor as real
    ensures 0.0 <= q * m <= a < q * m + m
  {
    DivCancels(a, m);
    QuotientNonnegative(a, m);
    RemainderBounds(a, m, a / m, q);
  }

  lemma QuotientNonnegative(a: real, m: real)
    requires a >= 0.0 && m > 0.0
    ensures a / m >= 0.0
  {
    DivCancels(a, m);
    var x := a / m;
    if x < 0.0 {
      MulLt(x, 0.0, m);
    }
  }

  /** `q` whole `m`s fit in `a`, and `q + 1` do not, when `q <= a / m < q + 1`. */
  lemma RemainderBounds(a: real, m: real, x: real, q: real)
    requires m > 0.0 && x * m == a && 0.0 <= q <= x < q + 1.0
    ensures 0.0 <= q * m <= a < q * m + m
  {
    MulLe(0.0, q, m);
    MulLe(q, x, m);
    MulLt(x, q + 1.0, m);
    MulSplits(q, 1.0, q + 1.0, m);
  }

  /** JavaScript's `a % m` for a positive modulus `m`: the division is
      truncated toward zero, so the remainder takes the sign of `a`. */
  function JsRem(a: real, m: real): (r: real)
    requires m > 0.0
    ensures -m < r < m
    ensures a >= 0.0 ==> 0.0 <= r <= a
    ensures a <= 0.0 ==> a <= r <= 0.0
  {
    if a >= 0.0 then FloorRem(a, m) else -FloorRem(-a, m)
  }

  /** `a % m` is `a` less a whole number `q` of `m`s; with the bounds and the
      sign on JsRem this makes `q` the quotient `a / m` truncated toward zero. */
  lemma JsRemQuotient(a: real, m: real) returns (q: int)
    requires m > 0.0
    ensures a == q as real * m + JsRem(a, m)
  {
    if a >= 0.0 {
      q := (a / m).Floor;
    } else {
      var k := (-a / m).Floor;
      q := -k;
      MulNegates(k as real, m);
    }
  }

  /** Where `a / m` lies, from where `a` lies. */
  lemma QuotientBetween(a: real, m: real, lo: real, hi: real)
    requires m > 0.0 && lo * m <= a < hi * m
    ensures lo <= a / m < hi
  {
    DivCancels(a, m);
    if a / m < lo {
      MulLt(a / m, lo, m);
      assert false;
    }
    if a / m >= hi {
      MulLe(hi, a / m, m);
      assert false;
    }
  }

  lemma JsRemOfRemainder(a: real, m: real)
    requires 0.0 <= a < m
    ensures JsRem(a, m) == a
  {
    QuotientBetween(a, m, 0.0, 1.0);
  }

  lemma JsRemOfSecondTurn(a: real, m: real)
    requires m > 0.0 && m <= a < m + m
    ensures JsRem(a, m) == a - m
  {
    QuotientBetween(a, m, 1.0, 2.0);
    assert (a / m).Floor == 1;
    assert JsRem(a, m) == FloorRem(a, m) == a - 1.0 * m;
  }

  // ---------------------------------------------------------------------
  // Segment layout (drawWheel)

  /** The angle one segment subtends: `(2 * PI) / words.length` in
      `drawWheel`, `TAU / numWords` in `getCurrentWord`. */
  function SegmentAngle(n: nat): (u: real)
    requires n > 0
    ensures u > 0.0 && u * n as real == TAU
  {
    TAU / n as real
  }

  /** What `drawWheel` adds to the group. A label's position is kept in polar
      form about the wheel's centre (`distance` along `direction`), the form in
      which the source computes it before taking cosine and sine. */
  datatype Shape =
    | ArcSegment(cx: real, cy: real, innerRadius: real, outerRadius: real,
                 startAngle: real, endAngle: real, rotation: real, fill: string)
    | Label(text: string, cx: real, cy: real, distance: real, direction: real,
            rotation: real, alignment: string, fill: string, size: real)

  /** The wheel's radius and centre on a surface `width` wide. */
  datatype Disc = Disc(radius: real, cx: real, cy: real)

  function WheelDisc(width: real): Disc
  {
    var xOffset := width * TickerRadiusRatio * 2.0;
    var radius := (width - xOffset * 2.0) / 2.0;
    Disc(radius, width / 2.0, radius + xOffset)
  }

  /** The rotation given to the arc of segment `i` of `n`. */
  function SegmentStart(i: nat, n: nat): real
    requires n > 0
  {
    SegmentAngle(n) * i as real - (PI + SegmentAngle(n)) / 2.0
  }

  function SegmentFill(i: nat): string
  {
    COLORS[i % |COLORS|]
  }

  /** The arc `drawWheel` makes for segment `i` of `n`. */
  function SegmentArc(i: nat, n: nat, width: real): Shape
    requires n > 0
  {
    var d := WheelDisc(width);
    ArcSegment(d.cx, d.cy, 0.0, d.radius, 0.0, (2.0 * PI) / n as real,
               SegmentStart(i, n), SegmentFill(i))
  }

  /** The label `drawWheel` makes for `word`, segment `i` of `n`. */
  function SegmentLabel(word: string, i: nat, n: nat, width: real): Shape
    requires n > 0
  {
    var d := WheelDisc(width);
    var unit := SegmentAngle(n);
    Label(word, d.cx, d.cy, d.radius - d.radius * EdgeDistRatio,
          SegmentStart(i, n) + unit / 2.0, unit * i as real - PI / 2.0,
          "right", "#fff", d.radius * TextSizeRatio)
  }

  /** The segments tile one full turn: each spans `TAU / n`, each starts where
      the one before ends, the last ends one turn after the first starts, and
      every label points along the middle of its own segment. */
  lemma {:induction false} SegmentsTileOneTurn(n: nat, width: real)
    requires n > 0
    ensures forall i :: 0 <= i < n ==>
      SegmentArc(i, n, width).endAngle - SegmentArc(i, n, width).startAngle == SegmentAngle(n)
    ensures forall i :: 0 < i < n ==> SegmentStart(i, n) == SegmentStart(i - 1, n) + SegmentAngle(n)
    ensures SegmentStart(n - 1, n) + SegmentAngle(n) == SegmentStart(0, n) + TAU
    ensures forall word, i :: 0 <= i < n ==>
      SegmentLabel(word, i, n, width).direction == SegmentStart(i, n) + SegmentAngle(n) / 2.0 &&
      SegmentLabel(word, i, n, width).rotation == SegmentLabel(word, i, n, width).direction
  {
    var u := SegmentAngle(n);
    forall i | 0 < i < n
      ensures SegmentStart(i, n) == SegmentStart(i - 1, n) + u
    {
      MulSplits((i - 1) as real, 1.0, i as real, u);
    }
    MulSplits((n - 1) as real, 1.0, n as real, u);
  }

  /** Fills cycle through the palette with period 9, and segments with
      consecutive indices never share a fill. */
  lemma {:induction false} FillsCycle(i: nat)
    ensures SegmentFill(i + |COLORS|) == SegmentFill(i)
    ensures SegmentFill(i + 1) != SegmentFill(i)
  {
    assert (i + 9) % 9 == i % 9;
    if i % 9 == 8 {
      assert (i + 1) % 9 == 0;
    } else {
      assert (i + 1) % 9 == i % 9 + 1;
    }
  }

  /** The last segment of `n` borders the first one; they share a fill
      exactly when `n % 9 == 1`, so only then do two adjacent segments of
      the drawn wheel have the same colour. */
  lemma {:induction false} WrapAroundFill(n: nat)
    requires n >= 2
    ensures SegmentFill(n - 1) == SegmentFill(0) <==> n % |COLORS| == 1
  {
    assert SegmentFill(0) == COLORS[0];
    if (n - 1) % 9 != 0 {
      assert COLORS[(n - 1) % 9] != COLORS[0];
    }
  }

  /** Resizing the surface by a factor `k` scales every radius, centre,
      label distance and text size by `k`, and changes no angle, order,
      text or fill. */
  lemma {:induction false} ResizeScalesLayout(word: string, i: nat, n: nat, width: real, k: real)
    requires n > 0 && k > 0.0
    ensures var a, a' := SegmentArc(i, n, width), SegmentArc(i, n, k * width);
      a' == a.(cx := k * a.cx, cy := k * a.cy, outerRadius := k * a.outerRadius)
    ensures var l, l' := SegmentLabel(word, i, n, width), SegmentLabel(word, i, n, k * width);
      l' == l.(cx := k * l.cx, cy := k * l.cy, distance := k * l.distance, size := k * l.size)
  {
    var d, d' := WheelDisc(width), WheelDisc(k * width);
    assert d'.radius == k * d.radius;
    assert d'.cx == k * d.cx;
    assert d'.cy == k * d.cy;
    assert d'.radius - d'.radius * EdgeDistRatio == k * (d.radius - d.radius * EdgeDistRatio);
    assert d'.radius * TextSizeRatio == k * (d.radius * TextSizeRatio);
  }

  // ---------------------------------------------------------------------
  // Selection (getCurrentWord)

  /** `currAngle`: the pointer's position on the unrotated wheel, shifted by
      half a segment so that segment `i` covers `[u * i, u * (i + 1))`. */
  function PointerAngle(n: nat, rotation: real): (c: real)
    requires n > 0
    ensures c < TAU
    ensures rotation < TAU ==> 0.0 <= c
  {
    JsRem(TAU + PI / 2.0 - rotation + SegmentAngle(n) / 2.0, TAU)
  }

  /** `segmentAngle * (i + 1)`, the far edge of segment `i`. */
  function SegmentEnd(u: real, i: nat): real
  {
    u * (i + 1) as real
  }

  /** `c` lies on the arc `[u * i, u * (i + 1))` of segment `i`. */
  predicate OnArc(u: real, i: nat, c: real)
  {
    u * i as real <= c < u * i as real + u
  }

  lemma {:induction false} MulMonotone(u: real, a: nat, b: nat)
    requires u > 0.0 && a <= b
    ensures u * a as real <= u * b as real
  {
    MulLe(a as real, b as real, u);
  }

  /** `SegmentAngle`'s own turn fact, restated so that a caller gets the
      product as a plain fact to rewrite with. */
  lemma {:induction false} SegmentAngleTurn(n: nat)
    requires n > 0
    ensures SegmentAngle(n) * n as real == TAU
  {
  }

  /** The search of `words.find`, from index `i` on: the first index whose
      far edge lies beyond `c`. */
  function FindSegment(u: real, c: real, i: nat, n: nat): (r: Option<nat>)
    requires i <= n
    ensures r.Some? ==> i <= r.value < n && SegmentEnd(u, r.value) > c
    ensures r.Some? ==> forall j :: i <= j < r.value ==> SegmentEnd(u, j) <= c
    ensures r.None? <==> forall j :: i <= j < n ==> SegmentEnd(u, j) <= c
    decreases n - i
  {
    if i == n then None
    else if SegmentEnd(u, i) > c then Some(i)
    else FindSegment(u, c, i + 1, n)
  }

  /** The index `getCurrentWord` selects among `n` words at `rotation`. */
  function SelectedIndex(n: nat, rotation: real): Option<nat>
  {
    if n == 0 then None
    else FindSegment(SegmentAngle(n), PointerAngle(n, rotation), 0, n)
  }

  /** `getCurrentWord` on the word list and the group's rotation. */
  function CurrentWord(words: seq<string>, rotation: real): (r: Option<string>)
    ensures r.Some? ==> r.value in words
    ensures r.Some? <==> SelectedIndex(|words|, rotation).Some?
  {
    match SelectedIndex(|words|, rotation)
    case None => None
    case Some(i) => Some(words[i])
  }

  /** The far edge of segment `i` lies beyond `c` exactly when `c`, counted
      in segments, is below `i + 1`. */
  lemma {:induction false} EndBeyond(u: real, c: real, i: nat)
    requires u > 0.0
    ensures SegmentEnd(u, i) > c <==> (i + 1) as real > c / u
  {
    DivCancels(c, u);
    var k := (i + 1) as real;
    assert SegmentEnd(u, i) == k * u;
    if k > c / u {
      MulLt(c / u, k, u);
    } else {
      MulLe(k, c / u, u);
    }
  }

  /** The search over `n` segments of angle `u` finds one whenever `c` lies
      in `[0, u * n)`, and it finds segment `j` exactly when `c / u`, the
      pointer angle counted in segments, lies in `[j, j + 1)`. */
  lemma {:induction false} FindSegmentExact(u: real, c: real, n: nat, j: nat)
    requires u > 0.0 && 0.0 <= c < u * n as real && j < n
    ensures FindSegment(u, c, 0, n).Some?
    ensures FindSegment(u, c, 0, n) == Some(j) <==> j as real <= c / u < (j + 1) as real
  {
    QuotientBetween(c, u, 0.0, n as real);
    var r := FindSegment(u, c, 0, n);
    if r.None? {
      EndBeyond(u, c, n - 1);
      assert false;
    }
    var i := r.value;
    EndBeyond(u, c, i);
    if i > 0 {
      EndBeyond(u, c, i - 1);
    }
  }

  /** `currAngle / segmentAngle`: the pointer angle counted in segments. */
  function PointerSegment(n: nat, rotation: real): real
    requires n > 0
  {
    PointerAngle(n, rotation) / SegmentAngle(n)
  }

  /** With at least one word some segment is always selected, whatever the
      rotation: the pointer angle is below one turn, where the last
      segment ends. */
  lemma {:induction false} SelectionExists(n: nat, rotation: real)
    requires n > 0
    ensures SelectedIndex(n, rotation).Some?
  {
    SegmentAngleTurn(n);
    var u := SegmentAngle(n);
    assert SegmentEnd(u, n - 1) == TAU;
  }

  /** Segment `j` is selected exactly when the pointer angle, counted in
      segments, lies in `[j, j + 1)`; so the selected segment is unique. */
  lemma {:induction false} SelectionIsSegmentAtPointer(n: nat, rotation: real, j: nat)
    requires n > 0 && -TAU < rotation < TAU && j < n
    ensures SelectedIndex(n, rotation) == Some(j) <==>
      j as real <= PointerSegment(n, rotation) < (j + 1) as real
  {
    SegmentAngleTurn(n);
    FindSegmentExact(SegmentAngle(n), PointerAngle(n, rotation), n, j);
  }

  /** The word returned is the one whose segment holds the pointer angle. */
  lemma {:induction false} CurrentWordAtPointer(words: seq<string>, rotation: real) returns (i: nat)
    requires |words| > 0 && -TAU < rotation < TAU
    ensures i < |words| && CurrentWord(words, rotation) == Some(words[i])
    ensures i as real <= PointerSegment(|words|, rotation) < (i + 1) as real
  {
    SelectionExists(|words|, rotation);
    i := SelectedIndex(|words|, rotation).value;
    SelectionIsSegmentAtPointer(|words|, rotation, i);
  }

  /** For `c` in `[0, u * n)` the search finds a segment, and its arc holds `c`. */
  lemma {:induction false} FoundArc(u: real, c: real, n: nat) returns (i: nat)
    requires u > 0.0 && 0.0 <= c < u * n as real
    ensures FindSegment(u, c, 0, n) == Some(i) && OnArc(u, i, c)
  {
    FindSegmentExact(u, c, n, 0);
    i := FindSegment(u, c, 0, n).value;
    FindSegmentExact(u, c, n, i);
    ArcFromQuotient(u, c, i);
  }

  lemma {:induction false} ArcFromQuotient(u: real, c: real, i: nat)
    requires u > 0.0 && i as real <= c / u < (i + 1) as real
    ensures OnArc(u, i, c)
  {
    DivCancels(c, u);
    ArcLower(c, c / u, i as real, u);
    ArcUpper(c, c / u, i as real, u);
  }

  /** A `c` that is `x` times `u`, with `x` at least `k`, is at least `u * k`. */
  lemma ArcLower(c: real, x: real, k: real, u: real)
    requires u > 0.0 && x * u == c && k <= x
    ensures u * k <= c
  {
    MulLe(k, x, u);
  }

  /** A `c` that is `x` times `u`, with `x` below `k + 1`, is below `u * k + u`. */
  lemma ArcUpper(c: real, x: real, k: real, u: real)
    requires u > 0.0 && x * u == c && x < k + 1.0
    ensures c < u * k + u
  {
    MulLt(x, k + 1.0, u);
    assert (k + 1.0) * u == k * u + u;
  }

  /** `currAngle` is its unreduced value less a whole number of turns. */
  lemma {:induction false} PointerAngleTurns(n: nat, rotation: real) returns (q: int)
    requires n > 0
    ensures q as real * TAU == TAU + PI / 2.0 - rotation + SegmentAngle(n) / 2.0 - PointerAngle(n, rotation)
  {
    q := JsRemQuotient(TAU + PI / 2.0 - rotation + SegmentAngle(n) / 2.0, TAU);
  }

  /** The centre of the ticker circle `drawTicker` makes on a surface
      `width` by `height`: one ticker radius in from the right edge, half
      way down. */
  function TickerCentre(width: real, height: real): (real, real)
  {
    (width - TickerRadiusRatio * width, height / 2.0)
  }

  /** The ticker lies right of the wheel's centre, and level with it (so in
      direction `0` from it) exactly when the surface is square. */
  lemma TickerOnTheRight(width: real, height: real)
    requires width > 0.0
    ensures TickerCentre(width, height).0 > WheelDisc(width).cx
    ensures TickerCentre(width, height).1 == WheelDisc(width).cy <==> height == width
  {
    assert WheelDisc(width).cy == width / 2.0;
  }

  /** The selection agrees with the drawing: the arc of the selected segment,
      turned by `rotation`, covers the direction `0` (to the right of the
      centre) modulo whole turns. On a square surface that is where
      `drawTicker` puts the pointer (TickerOnTheRight). */
  lemma {:induction false} SelectedSegmentFacesTicker(n: nat, rotation: real) returns (i: nat, k: int)
    requires n > 0 && -TAU < rotation < TAU
    ensures SelectedIndex(n, rotation) == Some(i)
    ensures SegmentStart(i, n) + rotation <= k as real * TAU < SegmentStart(i, n) + rotation + SegmentAngle(n)
  {
    SegmentAngleTurn(n);
    i := FoundArc(SegmentAngle(n), PointerAngle(n, rotation), n);
    var q := PointerAngleTurns(n, rotation);
    k := TickerStep(n, i, PointerAngle(n, rotation), q, rotation);
  }

  /** The arithmetic of SelectedSegmentFacesTicker: if the arc of segment `i`
      holds `c`, and `c` is the unreduced pointer angle less `q` turns, then
      `1 - q` turns lies in that arc turned by `rotation`. */
  lemma {:induction false} TickerStep(n: nat, i: nat, c: real, q: int, rotation: real) returns (k: int)
    requires n > 0
    requires OnArc(SegmentAngle(n), i, c)
    requires q as real * TAU == TAU + PI / 2.0 - rotation + SegmentAngle(n) / 2.0 - c
    ensures SegmentStart(i, n) + rotation <= k as real * TAU < SegmentStart(i, n) + rotation + SegmentAngle(n)
  {
    k := 1 - q;
    MulSplits(1.0, -q as real, k as real, TAU);
  }

  /** The rotation `PI / 2 - j * u` that brings segment `j` under the pointer. */
  function WordRotation(n: nat, j: nat): real
    requires n > 0
  {
    PI / 2.0 - SegmentAngle(n) * j as real
  }

  /** At rotation `PI / 2 - j * u` the pointer angle is the middle of segment `j`. */
  lemma {:induction false} PointerAtWord(n: nat, j: nat, rotation: real)
    requires j < n && rotation == PI / 2.0 - SegmentAngle(n) * j as real
    ensures -TAU < rotation < TAU
    ensures PointerAngle(n, rotation) == SegmentAngle(n) * j as real + SegmentAngle(n) / 2.0
  {
    var u := SegmentAngle(n);
    SegmentAngleTurn(n);
    WordWithinTurn(u, j, n);
    var x := TAU + PI / 2.0 - rotation + u / 2.0;
    JsRemOfSecondTurn(x, TAU);
  }

  lemma {:induction false} WordWithinTurn(u: real, j: nat, n: nat)
    requires u > 0.0 && u * n as real == TAU && j < n
    ensures 0.0 <= u * j as real && u * j as real + u / 2.0 < TAU
  {
    MulLe(0.0, j as real, u);
    MulLe(j as real + 1.0, n as real, u);
    MulSplits(j as real, 1.0, j as real + 1.0, u);
  }

  lemma {:induction false} QuotientOfMidpoint(u: real, j: nat, c: real)
    requires u > 0.0 && c == u * j as real + u / 2.0
    ensures c / u == j as real + 0.5
  {
    DivCancels(c, u);
    MulSplits(j as real, 0.5, j as real + 0.5, u);
    MulCancels(c / u, j as real + 0.5, u);
  }

  lemma MulCancels(a: real, b: real, m: real)
    requires m > 0.0 && a * m == b * m
    ensures a == b
  {
    if a < b {
      MulLt(a, b, m);
    } else if b < a {
      MulLt(b, a, m);
    }
  }

  /** At rotation `PI / 2 - j * u` segment `j` is the one selected. */
  lemma {:induction false} SelectedAtWord(n: nat, j: nat)
    requires j < n
    ensures SelectedIndex(n, WordRotation(n, j)) == Some(j)
  {
    var rotation := WordRotation(n, j);
    SegmentAngleTurn(n);
    PointerAtWord(n, j, rotation);
    FoundAtMidpoint(SegmentAngle(n), PointerAngle(n, rotation), n, j);
  }

  /** A `c` half way into segment `j` is found in segment `j`. */
  lemma {:induction false} FoundAtMidpoint(u: real, c: real, n: nat, j: nat)
    requires u > 0.0 && 0.0 <= c < u * n as real && j < n
    requires c == u * j as real + u / 2.0
    ensures FindSegment(u, c, 0, n) == Some(j)
  {
    QuotientOfMidpoint(u, j, c);
    FindSegmentExact(u, c, n, j);
  }

  /** Turning the wheel to `PI / 2 - j * u` brings word `j` under the pointer:
      over one revolution in `n` equal steps every word comes up once, in order. */
  lemma {:induction false} EachWordInTurn(words: seq<string>, j: nat)
    requires j < |words|
    ensures CurrentWord(words, WordRotation(|words|, j)) == Some(words[j])
  {
    SelectedAtWord(|words|, j);
    WordOfSelectedIndex(words, WordRotation(|words|, j), j);
  }

  lemma {:induction false} WordOfSelectedIndex(words: seq<string>, rotation: real, j: nat)
    requires SelectedIndex(|words|, rotation) == Some(j)
    ensures j < |words| && CurrentWord(words, rotation) == Some(words[j])
  {
  }

  /** Four words at rotation 0: the pointer angle is `3 * PI / 4`, which falls
      in the second segment, so the second word is returned. */
  lemma FourWordsAtRest()
    ensures CurrentWord(["A", "B", "C", "D"], 0.0) == Some("B")
  {
    var u := SegmentAngle(4);
    assert u == PI / 2.0;
    JsRemOfSecondTurn(TAU + PI / 2.0 + u / 2.0, TAU);
    assert PointerAngle(4, 0.0) == 3.0 * PI / 4.0;
    SelectionIsSegmentAtPointer(4, 0.0, 1);
  }
}
