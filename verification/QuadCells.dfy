/** The rectangles of quadtree cells in geogridcoder/UGGeoHash.cpp: decoding a key, and the cell of a
    point. */
module QuadCells {
  import opened Arith
  import opened QuadKeys

  const EP := 0.0000000001

  datatype Rect = Rect(left: real, bottom: real, right: real, top: real) {
    function Width(): real { right - left }
    function Height(): real { top - bottom }
    ghost predicate Positive() { left < right && bottom < top }
  }

  datatype Pt = Pt(x: real, y: real)

  ghost predicate In(p: Pt, r: Rect) {
    r.left <= p.x <= r.right && r.bottom <= p.y <= r.top
  }

  ghost predicate Within(r: Rect, s: Rect) {
    s.left <= r.left && r.right <= s.right && s.bottom <= r.bottom && r.top <= s.top
  }

  /** No interior point in common. */
  ghost predicate Apart(r: Rect, s: Rect) {
    r.right <= s.left || s.right <= r.left || r.top <= s.bottom || s.top <= r.bottom
  }

  /** The quarter for a digit: 0 left bottom, 1 left top, 2 right bottom, 3 right top. */
  function Quarter(r: Rect, digit: int): Rect {
    var cx, cy := (r.left + r.right) / 2.0, (r.top + r.bottom) / 2.0;
    if digit == 0 then Rect(r.left, r.bottom, cx, cy)
    else if digit == 1 then Rect(r.left, cy, cx, r.top)
    else if digit == 2 then Rect(cx, r.bottom, r.right, cy)
    else Rect(cx, cy, r.right, r.top)
  }

  lemma QuarterFits(r: Rect, d: int, e: int)
    requires r.Positive() && 0 <= d < 4 && 0 <= e < 4
    ensures Quarter(r, d).Positive() && Within(Quarter(r, d), r)
    ensures d != e ==> Apart(Quarter(r, d), Quarter(r, e))
  {
  }

  /** The rectangle of a cell, split by split. */
  function RectOf(bounds: Rect, c: Cell): Rect
    decreases c.level
  {
    if c.level == 0 then bounds
    else Quarter(RectOf(bounds, Cell(c.number / 4, c.level - 1)), c.number % 4)
  }

  lemma {:induction false} RectPositive(bounds: Rect, c: Cell)
    requires bounds.Positive()
    ensures RectOf(bounds, c).Positive() && Within(RectOf(bounds, c), bounds)
    decreases c.level
  {
    if 0 < c.level {
      RectPositive(bounds, Cell(c.number / 4, c.level - 1));
      QuarterFits(RectOf(bounds, Cell(c.number / 4, c.level - 1)), c.number % 4, 0);
    }
  }

  lemma ParentBelow(d: Cell, c: Cell)
    requires IsCell(d) && c.level < d.level
    ensures var up := Cell(d.number / 4, d.level - 1);
            IsCell(up) && (Below(d, c) <==> Below(up, c))
  {
    DivDiv(d.number, 4, Pow4(d.level - 1 - c.level));
  }

  lemma WithinTrans(r: Rect, s: Rect, t: Rect)
    requires Within(r, s)
    ensures Within(s, t) ==> Within(r, t)
    ensures r.Positive() && s.Positive() && Apart(t, s) ==> Apart(t, r)
  {
  }

  /** Cells are nested as their numbers say, and otherwise have no interior point in common. */
  lemma {:induction false} NestedOrApart(bounds: Rect, c: Cell, d: Cell)
    requires bounds.Positive() && IsCell(c) && IsCell(d) && c.level <= d.level
    ensures if Below(d, c) then Within(RectOf(bounds, d), RectOf(bounds, c))
            else Apart(RectOf(bounds, c), RectOf(bounds, d))
    decreases d.level
  {
    if c.level < d.level {
      hide Quarter, Below, Pow4, IsCell, Within, Apart;
      var up := Cell(d.number / 4, d.level - 1);
      ParentBelow(d, c);
      NestedOrApart(bounds, c, up);
      RectPositive(bounds, up);
      RectPositive(bounds, d);
      QuarterFits(RectOf(bounds, up), d.number % 4, 0);
      WithinTrans(RectOf(bounds, d), RectOf(bounds, up), RectOf(bounds, c));
    } else {
      SameLevel(bounds, c, d);
    }
  }

  lemma {:induction false} SameLevel(bounds: Rect, c: Cell, d: Cell)
    requires bounds.Positive() && IsCell(c) && IsCell(d) && c.level == d.level
    ensures Below(d, c) <==> d == c
    ensures c == d || Apart(RectOf(bounds, c), RectOf(bounds, d))
    decreases d.level
  {
    hide Quarter, Apart, Within, Pow4, IsCell;
    BelowOwnLevel(d, c);
    if c != d {
      Parent(c);
      Parent(d);
      var e, f := Cell(c.number / 4, c.level - 1), Cell(d.number / 4, d.level - 1);
      RectPositive(bounds, e);
      RectPositive(bounds, f);
      QuarterFits(RectOf(bounds, e), c.number % 4, d.number % 4);
      QuarterFits(RectOf(bounds, f), d.number % 4, c.number % 4);
      SameLevel(bounds, e, f);
      ApartInside(RectOf(bounds, c), RectOf(bounds, e), RectOf(bounds, d), RectOf(bounds, f));
    }
  }

  lemma BelowOwnLevel(d: Cell, c: Cell)
    requires c.level == d.level && IsCell(c) && IsCell(d)
    ensures Below(d, c) <==> d == c
    ensures c != d ==> 0 < c.level
  {
    assert Pow4(0) == 1;
  }

  lemma Parent(c: Cell)
    requires IsCell(c) && 0 < c.level
    ensures IsCell(Cell(c.number / 4, c.level - 1)) && c.number == 4 * (c.number / 4) + c.number % 4
  {
  }

  lemma ApartInside(r: Rect, s: Rect, t: Rect, u: Rect)
    requires Within(r, s) && Within(t, u)
    ensures Apart(s, u) && r.Positive() && t.Positive() ==> Apart(r, t)
  {
  }

  // ----- GetBoundsByKey -----

  /** The digit of split x, read off the key. */
  lemma DigitOfKey(c: Cell, x: nat)
    requires IsCell(c) && x < c.level
    ensures Packed(c) / Pow4(30 - x) == c.number / Pow4(c.level - 1 - x)
  {
    hide Pow4, Packed;
    PackedParts(c);
    Pow4Add(31 - c.level, c.level - 1 - x);
    DivDiv(Packed(c), Pow4(31 - c.level), Pow4(c.level - 1 - x));
  }

  lemma NextLevel(bounds: Rect, c: Cell, x: nat)
    requires IsCell(c) && x < c.level
    ensures 0 <= c.number / Pow4(c.level - x) && 0 <= c.number / Pow4(c.level - 1 - x)
    ensures RectOf(bounds, Cell(c.number / Pow4(c.level - 1 - x), x + 1)) ==
            Quarter(RectOf(bounds, Cell(c.number / Pow4(c.level - x), x)), Packed(c) / Pow4(30 - x) % 4)
  {
    hide Quarter, Packed;
    QuotientNonNegative(c.number, Pow4(c.level - x));
    QuotientNonNegative(c.number, Pow4(c.level - 1 - x));
    DigitOfKey(c, x);
    DivDiv(c.number, Pow4(c.level - 1 - x), 4);
  }

  lemma WholeNumber(c: Cell)
    requires IsCell(c)
    ensures c.number / Pow4(c.level) == 0 && c.number / Pow4(0) == c.number
  {
    DivModOf(c.number, 0, c.number, Pow4(c.level));
  }

  /** Decoding the key of a cell gives its rectangle. */
  method GetBoundsByKey(bounds: Rect, key: nat, ghost c: Cell) returns (rc: Rect)
    requires IsCell(c) && key == Packed(c)
    ensures rc == RectOf(bounds, c)
  {
    hide Pow4, Packed, RectOf;
    rc := bounds;
    PackedParts(c);
    WholeNumber(c);
    RootRect(bounds);
    var n := key % 64;
    for x := 0 to n
      invariant 0 <= c.number / Pow4(n - x)
      invariant rc == RectOf(bounds, Cell(c.number / Pow4(n - x), x))
    {
      NextLevel(bounds, c, x);
      var cx, cy := (rc.left + rc.right) / 2.0, (rc.top + rc.bottom) / 2.0;
      var digit := key / Pow4(30 - x) % 4;
      if digit == 0 {
        rc := rc.(top := cy, right := cx);
      } else if digit == 1 {
        rc := rc.(bottom := cy, right := cx);
      } else if digit == 2 {
        rc := rc.(left := cx, top := cy);
      } else {
        rc := rc.(left := cx, bottom := cy);
      }
    }
  }

  lemma RootRect(bounds: Rect)
    ensures RectOf(bounds, Cell(0, 0)) == bounds
  {
  }

  // ----- the cell of a point -----

  /** The length after n halvings. */
  function Halved(w: real, n: nat): real {
    if n == 0 then w else Halved(w, n - 1) / 2.0
  }

  lemma {:induction false} HalvedTimes(w: real, n: nat)
    ensures Halved(w, n) * (Pow2(n) as real) == w
  {
    if 0 < n {
      HalvedTimes(w, n - 1);
      assert Pow2(n) as real == 2.0 * (Pow2(n - 1) as real);
      HalfTwice(Halved(w, n - 1), Pow2(n - 1) as real);
    }
  }

  lemma HalfTwice(h: real, p: real)
    ensures h / 2.0 * (2.0 * p) == h * p
  {
  }

  /** Grid line k of the given spacing. */
  function Line(origin: real, k: int, step: real): real {
    origin + k as real * step
  }

  /** The rectangle of the cell in column x and row y of a level. */
  function GridRect(bounds: Rect, x: nat, y: nat, level: nat): Rect {
    var dx, dy := Halved(bounds.Width(), level), Halved(bounds.Height(), level);
    Rect(Line(bounds.left, x, dx), Line(bounds.bottom, y, dy),
         Line(bounds.left, x + 1, dx), Line(bounds.bottom, y + 1, dy))
  }

  /** Halving the spacing keeps every other line and adds the ones in the middle. */
  lemma EvenLine(o: real, k: int, h: real)
    ensures Line(o, 2 * k, h / 2.0) == Line(o, k, h)
  {
    assert (2 * k) as real == 2.0 * k as real;
    TwiceHalf(k as real, h);
  }

  lemma TwiceHalf(k: real, h: real)
    ensures (2.0 * k) * (h / 2.0) == k * h
  {
  }

  lemma OddLine(o: real, k: int, h: real)
    ensures Line(o, 2 * k + 1, h / 2.0) == (Line(o, k, h) + Line(o, k + 1, h)) / 2.0
  {
    assert (2 * k + 1) as real == 2.0 * k as real + 1.0 && (k + 1) as real == k as real + 1.0;
    MiddleLine(k as real, h);
  }

  lemma MiddleLine(k: real, h: real)
    ensures (2.0 * k + 1.0) * (h / 2.0) == (k * h + (k + 1.0) * h) / 2.0
  {
  }

  lemma HalfInterval(o: real, x: nat, h: real)
    ensures var l, r := Line(o, x / 2, h), Line(o, x / 2 + 1, h);
            && Line(o, x, h / 2.0) == (if x % 2 == 0 then l else (l + r) / 2.0)
            && Line(o, x + 1, h / 2.0) == (if x % 2 == 0 then (l + r) / 2.0 else r)
  {
    hide Line;
    EvenLine(o, x / 2, h);
    OddLine(o, x / 2, h);
    EvenLine(o, x / 2 + 1, h);
  }

  lemma QuarterBits(r: Rect, digit: int, xbit: int, ybit: int)
    requires 0 <= xbit < 2 && 0 <= ybit < 2 && digit == 2 * xbit + ybit
    ensures var cx, cy := (r.left + r.right) / 2.0, (r.top + r.bottom) / 2.0;
            Quarter(r, digit) == Rect(if xbit == 0 then r.left else cx, if ybit == 0 then r.bottom else cy,
                                      if xbit == 0 then cx else r.right, if ybit == 0 then cy else r.top)
  {
  }

  /** Interleaving column and row gives the number of the cell with that rectangle. */
  lemma {:induction false} InterleavedCell(bounds: Rect, x: nat, y: nat, level: nat)
    requires x < Pow2(level) && y < Pow2(level)
    ensures RectOf(bounds, Cell(Interleave(x, y, level), level)) == GridRect(bounds, x, y, level)
  {
    if level == 0 {
      GridRoot(bounds);
    } else {
      hide Line, Quarter, Interleave;
      InterleavedCell(bounds, x / 2, y / 2, level - 1);
      InterleaveDigits(x, y, level);
      HalfInterval(bounds.left, x, Halved(bounds.Width(), level - 1));
      HalfInterval(bounds.bottom, y, Halved(bounds.Height(), level - 1));
      QuarterBits(GridRect(bounds, x / 2, y / 2, level - 1), 2 * (x % 2) + y % 2, x % 2, y % 2);
    }
  }

  lemma GridRoot(bounds: Rect)
    ensures GridRect(bounds, 0, 0, 0) == bounds
  {
    assert 0 as real * bounds.Width() == 0.0 && 1 as real * bounds.Width() == bounds.Width();
    assert 0 as real * bounds.Height() == 0.0 && 1 as real * bounds.Height() == bounds.Height();
  }

  lemma InterleaveDigits(x: nat, y: nat, n: nat)
    requires 0 < n
    ensures Interleave(x, y, n) / 4 == Interleave(x / 2, y / 2, n - 1)
    ensures Interleave(x, y, n) % 4 == 2 * (x % 2) + y % 2
  {
    DivModOf(Interleave(x, y, n), Interleave(x / 2, y / 2, n - 1), 2 * (x % 2) + y % 2, 4);
  }

  /** floor((v - left) / step), once v at or beyond the far end has been moved back by EP. */
  function Position(v: real, left: real, right: real, step: real): int
    requires 0.0 < step
  {
    var w := if v >= right then v - EP else v;
    ((w - left) / step).Floor
  }

  lemma FloorBounds(q: real)
    ensures q.Floor as real <= q < (q.Floor + 1) as real
  {
  }

  lemma FloorTimes(q: real, k: int, step: real)
    requires k as real <= q < (k + 1) as real && 0.0 < step
    ensures k as real * step <= q * step < (k + 1) as real * step
  {
    MulMonotone(k as real, q, step);
    MulStrict(q, (k + 1) as real, step);
  }

  lemma FloorOf(u: real, step: real, k: int)
    requires 0.0 < step && k == (u / step).Floor
    ensures k as real * step <= u < (k + 1) as real * step
  {
    var q := u / step;
    FloorBounds(q);
    DivideTimes(u, step);
    FloorTimes(q, k, step);
    assert q * step == u;
    assert q * step < (k + 1) as real * step;
  }

  lemma MulMonotone(a: real, b: real, h: real)
    requires a <= b && 0.0 < h
    ensures a * h <= b * h
  {
    assert (b - a) * h >= 0.0;
  }

  lemma MulStrict(a: real, b: real, h: real)
    requires a < b && 0.0 < h
    ensures a * h < b * h
  {
    assert (b - a) * h > 0.0;
  }

  lemma {:induction false} HalvedPositive(w: real, n: nat)
    requires 0.0 < w
    ensures 0.0 < Halved(w, n)
  {
    if 0 < n { HalvedPositive(w, n - 1); }
  }

  lemma ColumnOf(u: real, w: real, step: real, m: nat)
    requires 0.0 < step && step * (m as real) == w && 0.0 <= u < w
    ensures var k := (u / step).Floor; 0 <= k < m && k as real * step <= u < (k + 1) as real * step
  {
    var k := (u / step).Floor;
    FloorOf(u, step, k);
    if k < 0 {
      MulMonotone((k + 1) as real, 0.0, step);
    }
    if m <= k {
      MulMonotone(m as real, k as real, step);
    }
  }

  /** A value between the ends lies in the column computed for it, unless it is the far end and the
      columns are narrower than EP. */
  lemma PositionContains(v: real, left: real, right: real, n: nat)
    requires left < right && left <= v <= right && (v < right || EP <= right - left)
    ensures 0.0 < Halved(right - left, n)
    ensures var step := Halved(right - left, n);
            var k := Position(v, left, right, step);
            && 0 <= k < Pow2(n) && Line(left, k, step) <= v
            && (v <= Line(left, k + 1, step) <==> v < right || EP <= step)
  {
    hide Halved, Pow2;
    var w := right - left;
    HalvedPositive(w, n);
    HalvedTimes(w, n);
    var step := Halved(w, n);
    if v < right {
      ColumnOf(v - left, w, step, Pow2(n));
    } else if EP <= step {
      LastColumn(v - EP - left, w, step, Pow2(n));
    } else {
      EarlierColumn(v - EP - left, w, step, Pow2(n));
    }
  }

  lemma EarlierColumn(u: real, w: real, step: real, m: nat)
    requires 0.0 < step < EP && step * (m as real) == w && u == w - EP && 0.0 <= u
    ensures var k := (u / step).Floor; 0 <= k < m && k as real * step <= u && (k + 1) as real * step < w
  {
    ColumnOf(u, w, step, m);
    var k := (u / step).Floor;
    assert (k + 1) as real * step == k as real * step + step by { OneStep(k, step); }
  }

  lemma OneStep(k: int, step: real)
    ensures (k + 1) as real * step == k as real * step + step
  {
    assert (k + 1) as real == k as real + 1.0;
  }

  lemma LastColumn(u: real, w: real, step: real, m: nat)
    requires 1 <= m && 0.0 < step && step * (m as real) == w && u == w - EP && EP <= step
    ensures (u / step).Floor == m - 1
    ensures (m - 1) as real * step <= w == (m - 1 + 1) as real * step
  {
    assert (m - 1) as real == m as real - 1.0;
    assert (m as real - 1.0) * step == w - step;
    if m > 1 { MulMonotone(1.0, m as real - 1.0, step); }
    ColumnOf(u, w, step, m);
    var k := (u / step).Floor;
    if k + 1 < m {
      MulMonotone((k + 1) as real, (m - 1) as real, step);
    }
  }

  /** ComputerPointGeoHash: the key of a cell, which contains the point unless the point lies on a far
      edge and the cells are narrower there than EP. */
  method ComputerPointGeoHash(bounds: Rect, pnt: Pt, level: nat) returns (key: nat, ghost c: Cell)
    requires bounds.Positive() && In(pnt, bounds) && level <= MAXHASHLEVEL
    requires (pnt.x < bounds.right || EP <= bounds.Width()) && (pnt.y < bounds.top || EP <= bounds.Height())
    ensures IsCell(c) && c.level == level && key == Packed(c)
    ensures In(pnt, RectOf(bounds, c)) <==>
              && (pnt.x < bounds.right || EP <= Halved(bounds.Width(), level))
              && (pnt.y < bounds.top || EP <= Halved(bounds.Height(), level))
    ensures exists x: nat, y: nat :: x < Pow2(level) && y < Pow2(level) && key == KeyOf(x, y, level)
  {
    hide Pow2, Pow4, Halved, Interleave, Position, Line, KeyOf, RectOf, Packed;
    PositionContains(pnt.x, bounds.left, bounds.right, level);
    PositionContains(pnt.y, bounds.bottom, bounds.top, level);
    var xPos: nat := Position(pnt.x, bounds.left, bounds.right, Halved(bounds.Width(), level));
    var yPos: nat := Position(pnt.y, bounds.bottom, bounds.top, Halved(bounds.Height(), level));
    InterleaveFits(xPos, yPos, level);
    InterleavedCell(bounds, xPos, yPos, level);
    c := Cell(Interleave(xPos, yPos, level), level);
    key := PackFromBelow(xPos, yPos, level);
    KeyIsPacked(xPos, yPos, level);
  }

  lemma KeyIsPacked(x: nat, y: nat, level: nat)
    requires level <= MAXHASHLEVEL
    ensures KeyOf(x, y, level) == Packed(Cell(Interleave(x, y, level), level))
  {
  }
}
