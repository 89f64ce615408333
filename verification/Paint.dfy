/** The line drawing of user/paint.c:107-174. */
module Paint {
  import opened Arithmetic

  const BRUSH_SIZE: int := 10
  const SCREEN: int := 0x8000_0000 // coordinates and sizes stay below 2^31, so differences fit an int

  datatype Rect = Rect(x: int, y: int, width: int, height: int)

  function Abs(a: int): nat { if a < 0 then -a else a }

  function Sign(a: int): int { if a < 0 then -1 else if a == 0 then 0 else 1 }

  /** Division as in C: the quotient is cut off towards zero. */
  function Div(a: int, b: int): (q: int)
    requires b > 0
    ensures Abs(q) == Abs(a) / b && (q == 0 || Sign(q) == Sign(a))
  {
    if a >= 0 then a / b else -((-a) / b)
  }

  lemma QuotientBounds(a: nat, b: nat)
    requires b > 0
    ensures a / b <= a && (a >= b ==> a / b >= 1)
  {
    Division(a, b);
    TimesAtLeast(b, a / b);
    Commute(b, a / b);
    QuotientBelow(a, b, 1);
  }

  /** A step of s towards a difference of d: in its direction, not past it, and at most a brush. */
  predicate Towards(s: int, d: int) {
    (s == 0 || Sign(s) == Sign(d)) && Abs(s) <= Abs(d) && Abs(s) <= BRUSH_SIZE
  }

  /** How far a step goes along the longer of two distances: as far as the straight line goes for one unit
      of the shorter, but a brush less one if that is more than a brush. */
  predicate Stretch(step: nat, long: nat, short: nat) {
    if short == 0 then step == (if long > BRUSH_SIZE then BRUSH_SIZE - 1 else long)
    else if (BRUSH_SIZE + 1) * short <= long then step == BRUSH_SIZE - 1
    else step * short <= long < (step + 1) * short
  }

  lemma QuotientStretch(long: nat, short: nat)
    requires short > 0
    ensures long / short * short <= long < (long / short + 1) * short
    ensures long / short > BRUSH_SIZE <==> (BRUSH_SIZE + 1) * short <= long
  {
    Division(long, short);
    OneMore(long / short, short);
    QuotientBelow(long, short, BRUSH_SIZE + 1);
  }

  method StepTowards(run0: int, rise0: int) returns (run: int, rise: int)
    requires run0 != 0 || rise0 != 0
    ensures Abs(rise0) > Abs(run0) ==> Stretch(Abs(rise), Abs(rise0), Abs(run0))
    ensures Abs(run0) >= Abs(rise0) ==> Stretch(Abs(run), Abs(run0), Abs(rise0))
    ensures Towards(run, run0) && Towards(rise, rise0)
    ensures (run0 != 0 ==> run != 0) && (rise0 != 0 ==> rise != 0)
    ensures Abs(run) <= 1 || Abs(rise) <= 1
  {
    run, rise := run0, rise0;
    var absRise, absRun := Abs(rise), Abs(run);
    if absRise > absRun && absRun != 0 {
      QuotientBounds(absRise, absRun);
      QuotientStretch(absRise, absRun);
      run := Sign(run); // run / abs_run
      rise := Div(rise, absRun);
      absRise := absRise / absRun;
      absRun := 1;
    } else if absRun >= absRise && absRise != 0 {
      QuotientBounds(absRun, absRise);
      QuotientStretch(absRun, absRise);
      run := Div(run, absRise);
      rise := Sign(rise); // rise / abs_rise
      absRun := absRun / absRise;
      absRise := 1;
    }
    assert absRise == Abs(rise) && absRun == Abs(run);
    if absRise > BRUSH_SIZE {
      OwnSign(rise);
      rise := Div(rise, absRise) * (BRUSH_SIZE - 1);
    }
    if absRun > BRUSH_SIZE {
      OwnSign(run);
      run := Div(run, absRun) * (BRUSH_SIZE - 1);
    }
  }

  lemma OwnSign(a: int)
    requires a != 0
    ensures Div(a, Abs(a)) == Sign(a)
  {
  }

  predicate Between(a: int, b: int, c: int) {
    a <= b <= c || c <= b <= a
  }

  predicate SameSize(a: Rect, b: Rect) {
    a.width == b.width && a.height == b.height
  }

  /** The rectangles overlap or share a piece of an edge, not just a corner. */
  predicate Touch(a: Rect, b: Rect) {
    && a.x <= b.x + b.width && b.x <= a.x + a.width && a.y <= b.y + b.height && b.y <= a.y + a.height
    && ((a.x < b.x + b.width && b.x < a.x + a.width) || (a.y < b.y + b.height && b.y < a.y + a.height))
  }

  predicate Inside(a: Rect, b: Rect) {
    b.x <= a.x && a.x + a.width <= b.x + b.width && b.y <= a.y && a.y + a.height <= b.y + b.height
  }

  predicate OnScreen(r: Rect) {
    0 <= r.x && 0 <= r.y && 0 < r.width && 0 < r.height && r.x + r.width < SCREEN && r.y + r.height < SCREEN
  }

  function Distance(a: Rect, b: Rect): nat {
    Abs(b.x - a.x) + Abs(b.y - a.y)
  }

  ghost predicate InSpan(r: Rect, a: Rect, b: Rect) {
    SameSize(r, a) && Between(a.x, r.x, b.x) && Between(a.y, r.y, b.y)
  }

  /** A connected chain of rectangles of one size that starts at a and never leaves the span between a
      and b nor turns back from b. */
  ghost predicate Chain(fills: seq<Rect>, a: Rect, b: Rect) {
    && |fills| > 0 && fills[0] == a
    && (forall i :: 0 <= i < |fills| ==> InSpan(fills[i], a, b))
    && forall i, j :: 0 <= i && j == i + 1 && j < |fills| ==> Closer(fills[i], fills[j], b)
  }

  lemma ChainOn(fills: seq<Rect>, r: Rect, r': Rect, a: Rect, b: Rect)
    requires Chain(fills + [r], a, b) && Closer(r, r', b) && InSpan(r', a, b)
    ensures Chain(fills + [r] + [r'], a, b)
  {
    var was, now := fills + [r], fills + [r] + [r'];
    forall i, j | 0 <= i && j == i + 1 && j < |now| ensures Closer(now[i], now[j], b) {
      if j < |was| { assert Closer(was[i], was[j], b); }
    }
  }

  lemma ChainInside(fills: seq<Rect>, a: Rect, b: Rect, flush: Rect)
    requires Chain(fills, a, b) && SameSize(a, b) && flush == FlushRect(a, b)
    ensures forall i :: 0 <= i < |fills| ==> Inside(fills[i], flush)
  {
    forall i | 0 <= i < |fills| ensures Inside(fills[i], flush) {
      assert InSpan(fills[i], a, b);
    }
  }

  /** From r the line goes on to r', which touches it and lies between r and the end on both axes. */
  ghost predicate Closer(r: Rect, r': Rect, b: Rect) {
    && Distance(r', b) < Distance(r, b) && Between(r.x, r'.x, b.x) && Between(r.y, r'.y, b.y)
    && (r.width >= BRUSH_SIZE && r.height >= BRUSH_SIZE ==> Touch(r, r'))
  }

  function FlushRect(from: Rect, to: Rect): Rect {
    Rect(if from.x < to.x then from.x else to.x, if from.y < to.y then from.y else to.y,
         if from.x < to.x then to.x - from.x + to.width else from.x - to.x + from.width,
         if from.y < to.y then to.y - from.y + to.height else from.y - to.y + from.height)
  }

  lemma StepIsCloser(r: Rect, to: Rect, run: int, rise: int)
    requires Distance(r, to) > 0 && Towards(run, to.x - r.x) && Towards(rise, to.y - r.y) && r.width > 0 && r.height > 0
    requires (to.x != r.x ==> run != 0) && (to.y != r.y ==> rise != 0) && (Abs(run) <= 1 || Abs(rise) <= 1)
    ensures Closer(r, Rect(r.x + run, r.y + rise, r.width, r.height), to)
  {
  }

  /** draw_line ends, since the distance to the end strictly decreases; what it fills is a line from
      one rectangle to the other, all inside the rectangle it flushes, which is the smallest around the
      two. */
  method DrawLine(from: Rect, to: Rect) returns (fills: seq<Rect>, flush: Rect)
    requires OnScreen(from) && OnScreen(to) && SameSize(from, to)
    ensures Chain(fills, from, to) && fills[|fills| - 1] == to && |fills| <= Distance(from, to) + 1
    ensures forall i :: 0 <= i < |fills| ==> Inside(fills[i], flush)
    ensures forall r: Rect :: Inside(from, r) && Inside(to, r) ==> Inside(flush, r)
  {
    var x, y, width, height;
    if from.x < to.x {
      x := from.x;
      width := to.x - from.x + to.width;
    } else {
      x := to.x;
      width := from.x - to.x + from.width;
    }
    if from.y < to.y {
      y := from.y;
      height := to.y - from.y + to.height;
    } else {
      y := to.y;
      height := from.y - to.y + from.height;
    }
    flush := Rect(x, y, width, height);
    var at := from;
    fills := [];
    while at.x != to.x || at.y != to.y
      invariant |fills| + Distance(at, to) <= Distance(from, to) && InSpan(at, from, to)
      invariant Chain(fills + [at], from, to)
      decreases Distance(at, to)
    {
      var run, rise := StepTowards(to.x - at.x, to.y - at.y);
      StepIsCloser(at, to, run, rise);
      var next := at.(x := at.x + run, y := at.y + rise);
      ChainOn(fills, at, next, from, to);
      fills := fills + [at];
      at := next;
    }
    fills := fills + [to];
    ChainInside(fills, from, to, flush);
  }
}
