/** The packed keys of the quadtree in geogridcoder/UGGeoHash.cpp and RasterizeHash.cpp. A cell of
    level L has a number with L base-four digits, the digit of the first split on top. The key keeps
    the number in bits 61 down to 62 - 2L and the level in the lowest six bits. */
module QuadKeys {
  import opened Arith

  const MAXHASHLEVEL := 28

  function Pow4(n: nat): (p: nat)
    ensures 1 <= p
  {
    if n == 0 then 1 else 4 * Pow4(n - 1)
  }

  lemma {:induction false} Pow4Add(m: nat, n: nat)
    ensures Pow4(m + n) == Pow4(m) * Pow4(n)
  {
    if m > 0 {
      Pow4Add(m - 1, n);
      MulAssoc(4, Pow4(m - 1), Pow4(n));
    }
  }

  lemma {:induction false} Pow4Big(n: nat)
    requires 3 <= n
    ensures 64 <= Pow4(n)
  {
    if n > 3 { Pow4Big(n - 1); }
  }

  datatype Cell = Cell(number: nat, level: nat)

  ghost predicate IsCell(c: Cell) {
    c.level <= MAXHASHLEVEL && c.number < Pow4(c.level)
  }

  /** d is c or lies below it: the upper digits of its number are those of c. */
  ghost predicate Below(d: Cell, c: Cell) {
    c.level <= d.level && d.number / Pow4(d.level - c.level) == c.number
  }

  /** lGeoKey << (64 - level * 2 - 2), plus the level. */
  function Packed(c: Cell): nat
    requires c.level <= MAXHASHLEVEL
  {
    PackedAt(c.number, c.level)
  }

  /** The packing of a number at any level that leaves the shift non-negative. */
  function PackedAt(number: nat, level: nat): nat
    requires level <= 31
  {
    number * Pow4(31 - level) + level
  }

  /** The level can be read back from the lowest six bits for every cell exactly up to level 28. */
  lemma LevelsWithRoom(level: nat)
    requires level <= 31
    ensures level <= MAXHASHLEVEL <==> forall number: nat :: PackedAt(number, level) % 64 == level
  {
    if level <= MAXHASHLEVEL {
      forall number: nat ensures PackedAt(number, level) % 64 == level {
        LevelRead(number, level);
      }
    } else {
      assert Pow4(0) == 1 && Pow4(1) == 4 && Pow4(2) == 16;
      assert PackedAt(1, level) == Pow4(31 - level) + level;
      assert PackedAt(1, level) % 64 != level;
    }
  }

  lemma LevelRead(number: nat, level: nat)
    requires level <= MAXHASHLEVEL
    ensures PackedAt(number, level) % 64 == level
  {
    hide Pow4;
    Pow4Add(3, 28 - level);
    assert Pow4(3) == 64 by { Cube(); }
    MulSwap(number, 64, Pow4(28 - level));
    DivModOf(PackedAt(number, level), number * Pow4(28 - level), level, 64);
  }

  lemma PackedParts(c: Cell)
    requires IsCell(c)
    ensures Packed(c) % 64 == c.level
    ensures Packed(c) / Pow4(31 - c.level) == c.number && Packed(c) % Pow4(31 - c.level) == c.level
    ensures Packed(c) < Pow4(31)
  {
    hide Pow4;
    var p := Pow4(31 - c.level);
    Pow4Big(31 - c.level);
    DivModOf(Packed(c), c.number, c.level, p);
    LevelRead(c.number, c.level);
    Pow4Add(c.level, 31 - c.level);
    ProductsApart(c.number, Pow4(c.level), p);
  }

  lemma Cube()
    ensures Pow4(3) == 64
  {
    assert Pow4(1) == 4 && Pow4(2) == 16;
  }

  /** A key decodes to one cell only. */
  lemma PackedInjective(c: Cell, d: Cell)
    requires IsCell(c) && IsCell(d) && Packed(c) == Packed(d)
    ensures c == d
  {
    hide Pow4, Packed;
    PackedParts(c);
    PackedParts(d);
  }

  // ----- GetBetweenFilter1 -----

  /** The bounds of the range condition. Or-ing a key with n ones sets its n lowest bits. */
  method GetBetweenFilter1(key: nat) returns (lower: nat, upper: nat)
    requires key % 64 <= MAXHASHLEVEL
    ensures lower == key && upper == LastBelow(key)
  {
    hide Pow4;
    var n := key % 64;
    var lTemp := 1;
    assert Pow2(1) == 2;
    for x := 0 to 64 - n * 2 - 4 + 1
      invariant lTemp == Pow2(x + 1) - 1
    {
      lTemp := lTemp * 2;
      lTemp := lTemp + 1;
    }
    TwosAreFours(31 - n);
    lower := key;
    upper := key - key % (lTemp + 1) + lTemp;
  }

  lemma {:induction false} TwosAreFours(n: nat)
    ensures Pow2(2 * n) == Pow4(n)
  {
    if 0 < n {
      TwosAreFours(n - 1);
      assert Pow2(2 * n) == 2 * (2 * Pow2(2 * (n - 1)));
    }
  }

  /** The largest number with the same upper digits. */
  function LastBelow(key: nat): int
    requires key % 64 <= MAXHASHLEVEL
  {
    var w := Pow4(31 - key % 64);
    key - key % w + (w - 1)
  }

  lemma CoarserBelow(d: Cell, c: Cell)
    requires IsCell(c) && IsCell(d) && c.level <= d.level
    ensures Packed(d) / Pow4(31 - c.level) == d.number / Pow4(d.level - c.level)
    ensures d.level <= Packed(d) % Pow4(31 - c.level)
  {
    hide Pow4, Packed;
    PackedParts(d);
    var v, w := Pow4(31 - d.level), Pow4(d.level - c.level);
    Pow4Add(31 - d.level, d.level - c.level);
    DivDiv(Packed(d), v, w);
    RemainderOfFiner(Packed(d), v, w);
  }

  /** A remainder by a finer divisor is at most that by a multiple of it. */
  lemma RemainderOfFiner(x: nat, v: nat, w: nat)
    requires 1 <= v && 1 <= w
    ensures 1 <= v * w && x % v <= x % (v * w)
  {
    MulAtLeast(v, w);
    var q, r := x / v, x % v;
    var q2, r2 := q / w, q % w;
    SmallRemainder(r, r2, v, w);
    TwoRemainders(x, q, r, q2, r2, v, w);
    DivModOf(x, q2, r2 * v + r, v * w);
    if 0 < r2 { MulAtLeast(r2, v); }
  }

  lemma FinerKey(d: Cell, c: Cell)
    requires IsCell(c) && IsCell(d) && d.level < c.level
    ensures Packed(d) % Pow4(31 - c.level) == d.level
  {
    hide Pow4;
    Pow4Add(31 - c.level, c.level - d.level);
    var w, k := Pow4(31 - c.level), Pow4(c.level - d.level);
    Pow4Big(31 - c.level);
    assert Packed(d) == d.number * (w * k) + d.level;
    MulSwap(d.number, w, k);
    DivModOf(Packed(d), d.number * k, d.level, w);
  }

  /** The range condition selects exactly the keys of the cell and of the cells below it. */
  lemma RangeIsSubtree(c: Cell, d: Cell)
    requires IsCell(c) && IsCell(d)
    ensures Packed(c) % 64 == c.level
    ensures Packed(c) <= Packed(d) <= LastBelow(Packed(c)) <==> Below(d, c)
  {
    hide Pow4, Packed;
    PackedParts(c);
    var w := Pow4(31 - c.level);
    var k := Packed(d);
    Window(Packed(c), k, w);
    if c.level <= d.level {
      CoarserBelow(d, c);
    } else {
      FinerKey(d, c);
    }
  }

  /** Between key and the end of its window of width w: the same quotient and no smaller remainder. */
  lemma Window(key: nat, k: nat, w: nat)
    requires 1 <= w
    ensures key <= k <= key - key % w + (w - 1) <==> k / w == key / w && key % w <= k % w
  {
    var p, q := key / w, k / w;
    assert key == p * w + key % w && k == q * w + k % w;
    if q < p { ProductsApart(q, p, w); }
    if p < q { ProductsApart(p, q, w); }
  }

  // ----- points to keys -----

  /** The digits of the lowest n bits of two coordinates, x giving the higher bit. */
  function Interleave(x: nat, y: nat, n: nat): nat {
    if n == 0 then 0 else 4 * Interleave(x / 2, y / 2, n - 1) + 2 * (x % 2) + y % 2
  }

  lemma {:induction false} InterleaveFits(x: nat, y: nat, n: nat)
    ensures Interleave(x, y, n) < Pow4(n)
  {
    if 0 < n { InterleaveFits(x / 2, y / 2, n - 1); }
  }

  /** The key of the cell in column x and row y. */
  function KeyOf(x: nat, y: nat, level: nat): nat
    requires level <= MAXHASHLEVEL
  {
    Packed(Cell(Interleave(x, y, level), level))
  }

  /** Keys of the first level, written out: the column is the upper bit of a digit, the first digit stands in
      bits 61 and 60, the level in the lowest bits. */
  lemma KeysOfFirstLevel()
    ensures KeyOf(0, 0, 1) == 1 && KeyOf(0, 1, 1) == 0x1000_0000_0000_0001
    ensures KeyOf(1, 0, 1) == 0x2000_0000_0000_0001 && KeyOf(1, 1, 1) == 0x3000_0000_0000_0001
  {
    assert Pow4(5) == 0x400;
    Pow4Add(5, 5);
    Pow4Add(10, 10);
    Pow4Add(20, 10);
    assert Interleave(0, 0, 1) == 0 && Interleave(0, 1, 1) == 1;
    assert Interleave(1, 0, 1) == 2 && Interleave(1, 1, 1) == 3;
  }

  /** The loop of ComputerPointGeoHash: digits from the last one up; the or-ed bits do not meet. */
  method PackFromBelow(x: nat, y: nat, level: nat) returns (key: nat)
    requires level <= MAXHASHLEVEL
    ensures key == KeyOf(x, y, level)
  {
    hide Pow4;
    var xPos: nat, yPos: nat := x, y;
    key := 0;
    var n: nat := level;
    while n > 0
      invariant n <= level
      invariant Interleave(x, y, level) * Pow4(31 - level) == Interleave(xPos, yPos, n) * Pow4(31 - n) + key
    {
      var xlast, ylast := xPos % 2, yPos % 2;
      var digit := xlast * 2 + ylast;
      OneDigit(Interleave(xPos / 2, yPos / 2, n - 1), digit, 31 - n);
      key := key + digit * Pow4(31 - n);
      xPos := xPos / 2;
      yPos := yPos / 2;
      n := n - 1;
    }
    key := key + level;
  }

  lemma OneDigit(upper: nat, digit: nat, k: nat)
    ensures (4 * upper + digit) * Pow4(k) == upper * Pow4(k + 1) + digit * Pow4(k)
  {
    Distribute(upper, digit, Pow4(k));
  }

  lemma Distribute(u: nat, d: nat, p: nat)
    ensures (4 * u + d) * p == u * (4 * p) + d * p
  {
  }

  // ----- HashCode: the same key bit by bit -----

  /** The number of a bit string, bit 0 first. */
  function Number(bits: seq<bool>): nat {
    if bits == [] then 0 else (if bits[0] then 1 else 0) + 2 * Number(bits[1..])
  }

  lemma {:induction false} NoBits(bits: seq<bool>)
    requires forall k :: 0 <= k < |bits| ==> !bits[k]
    ensures Number(bits) == 0
  {
    if bits != [] { NoBits(bits[1..]); }
  }

  lemma {:induction false} SetBit(bits: seq<bool>, k: nat, v: bool)
    requires k < |bits| && !bits[k]
    ensures Number(bits[k := v]) == Number(bits) + if v then Pow2(k) else 0
    decreases k
  {
    var next := bits[k := v];
    if k == 0 {
      assert next[1..] == bits[1..];
    } else {
      SetBit(bits[1..], k - 1, v);
      assert next[1..] == bits[1..][k - 1 := v];
    }
  }

  /** x >> j. */
  function Shift(x: nat, j: nat): nat {
    QuotientNonNegative(x, Pow2(j));
    x / Pow2(j)
  }

  /** Bit j of a number. */
  predicate BitOf(x: nat, j: nat) {
    Shift(x, j) % 2 == 1
  }

  lemma HalfOf(x: nat, j: nat)
    ensures Shift(x, j + 1) == Shift(x, j) / 2
  {
    DivDiv(x, Pow2(j), 2);
  }

  lemma ShiftNothing(x: nat)
    ensures Shift(x, 0) == x
  {
  }

  lemma InterleaveAbove(x: nat, y: nat, m: nat, n: nat)
    requires 0 < n
    ensures Interleave(Shift(x, m), Shift(y, m), n) ==
            4 * Interleave(Shift(x, m + 1), Shift(y, m + 1), n - 1) + 2 * (Shift(x, m) % 2) + Shift(y, m) % 2
  {
    hide Shift;
    HalfOf(x, m);
    HalfOf(y, m);
  }

  /** A coordinate equal to 2^n passes the range check of HashCode and gives the digits of 0. */
  lemma {:induction false} UpperBitIsLost(x: nat, y: nat, n: nat)
    ensures Interleave(x + Pow2(n), y, n) == Interleave(x, y, n) == Interleave(x, y + Pow2(n), n)
    decreases n
  {
    if 0 < n {
      UpperBitIsLost(x / 2, y / 2, n - 1);
      HalfPlus(x, Pow2(n - 1));
      HalfPlus(y, Pow2(n - 1));
    }
  }

  lemma HalfPlus(x: nat, p: nat)
    ensures (x + 2 * p) / 2 == x / 2 + p && (x + 2 * p) % 2 == x % 2
  {
  }

  method HashCode(x: nat, y: nat, level: nat) returns (key: nat)
    requires level <= MAXHASHLEVEL
    ensures key == if x > Pow2(level) || y > Pow2(level) then 0 else KeyOf(x, y, level)
  {
    hide Pow2, Pow4, Number, BitOf, Shift, UpperDigits, KeyOf;
    if x > Pow2(level) || y > Pow2(level) { return 0; }
    var code := new bool[64](_ => false);
    NoBits(code[..]);
    NoDigits(x, y, level);
    var i, j := 0, level - 1;
    while i < 56 && j >= 0
      invariant -1 <= j < level && i == 2 * (level - 1 - j)
      invariant forall k :: 0 <= k < 62 - i ==> !code[k]
      invariant Number(code[..]) == UpperDigits(x, y, j + 1, level)
      decreases j
    {
      var xj, yj := BitOf(x, j), BitOf(y, j);
      ghost var was := code[..];
      SetBit(was, 61 - i, xj);
      SetBit(was[61 - i := xj], 60 - i, yj);
      code[61 - i] := xj;
      code[61 - i - 1] := yj;
      assert code[..] == was[61 - i := xj][60 - i := yj];
      NextDigit(x, y, j, level);
      i := i + 2;
      j := j - 1;
    }
    ghost var upper := Number(code[..]);
    AllDigits(x, y, level);
    var b := 5;
    Bits6(level);
    while b >= 0
      invariant -1 <= b <= 5
      invariant forall k :: 0 <= k <= b ==> !code[k]
      invariant Number(code[..]) == upper + Shift(level, b + 1) * Pow2(b + 1)
    {
      ghost var was := code[..];
      SetBit(was, b, BitOf(level, b));
      code[b] := BitOf(level, b);
      assert code[..] == was[b := BitOf(level, b)];
      LowerBit(level, b);
      b := b - 1;
    }
    ShiftNothing(level);
    OnePow();
    key := Bits64(code);
  }

  /** The key bits that the digits from position m up make. */
  ghost function UpperDigits(x: nat, y: nat, m: nat, level: nat): nat
    requires m <= level <= MAXHASHLEVEL
  {
    Interleave(Shift(x, m), Shift(y, m), level - m) * Pow4(31 - level + m)
  }

  lemma NoDigits(x: nat, y: nat, level: nat)
    requires level <= MAXHASHLEVEL
    ensures UpperDigits(x, y, level, level) == 0
  {
    hide Pow4, Shift;
  }

  lemma AllDigits(x: nat, y: nat, level: nat)
    requires level <= MAXHASHLEVEL
    ensures UpperDigits(x, y, 0, level) + level == KeyOf(x, y, level)
  {
    hide Pow4, Shift, Interleave;
    ShiftNothing(x);
    ShiftNothing(y);
  }

  /** to_ulong. */
  method Bits64(code: array<bool>) returns (v: nat)
    requires code.Length == 64
    ensures v == Number(code[..])
  {
    hide Pow2;
    v := 0;
    var k := 64;
    assert code[64..] == [];
    while k > 0
      invariant 0 <= k <= 64 && v == Number(code[k..])
    {
      k := k - 1;
      assert code[k..][1..] == code[k + 1..];
      v := 2 * v + if code[k] then 1 else 0;
    }
    assert code[0..] == code[..];
  }

  lemma OnePow()
    ensures Pow2(0) == 1
  {
  }

  lemma Bits6(level: nat)
    requires level < 64
    ensures Shift(level, 6) * Pow2(6) == 0
  {
    assert Pow2(2) == 4 && Pow2(4) == 16;
    assert Pow2(6) == 64;
  }

  lemma LowerBit(level: nat, b: nat)
    ensures Shift(level, b) * Pow2(b) == Shift(level, b + 1) * Pow2(b + 1) + if BitOf(level, b) then Pow2(b) else 0
  {
    hide Shift;
    HalfOf(level, b);
    var q, p := Shift(level, b), Pow2(b);
    HalvesBack(q, p);
  }

  lemma HalvesBack(q: nat, p: nat)
    ensures q * p == q / 2 * (2 * p) + if q % 2 == 1 then p else 0
  {
    assert q == q / 2 * 2 + q % 2;
    MulAssoc(q / 2, 2, p);
  }

  lemma NextDigit(x: nat, y: nat, j: nat, level: nat)
    requires j < level <= MAXHASHLEVEL
    ensures UpperDigits(x, y, j, level) ==
            UpperDigits(x, y, j + 1, level) + (if BitOf(x, j) then Pow2(61 - 2 * (level - 1 - j)) else 0)
            + (if BitOf(y, j) then Pow2(60 - 2 * (level - 1 - j)) else 0)
  {
    hide Pow4, Interleave, Shift, Pow2;
    var k := 31 - level + j;
    InterleaveAbove(x, y, j, level - j);
    var digit := 2 * (Shift(x, j) % 2) + Shift(y, j) % 2;
    OneDigit(Interleave(Shift(x, j + 1), Shift(y, j + 1), level - 1 - j), digit, k);
    assert 60 - 2 * (level - 1 - j) == 2 * k;
    DigitBits(digit, BitOf(x, j), BitOf(y, j), k);
  }

  lemma DigitBits(digit: nat, xj: bool, yj: bool, k: nat)
    requires digit == (if xj then 2 else 0) + (if yj then 1 else 0)
    ensures digit * Pow4(k) == (if xj then Pow2(2 * k + 1) else 0) + (if yj then Pow2(2 * k) else 0)
  {
    TwosAreFours(k);
    assert Pow2(2 * k + 1) == 2 * Pow2(2 * k);
  }
}
