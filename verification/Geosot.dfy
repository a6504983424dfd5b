/** Morton codes and their text form in geogridcoder/geosot.cpp. A machine word, like a bitset, is the
    sequence of its bits, bit 0 first. */
module Geosot {
  import opened Arith

  type Bits = seq<bool>

  // ----- word operations -----

  function Bit(x: Bits, i: int): bool {
    0 <= i < |x| && x[i]
  }

  function And(x: Bits, y: Bits): (r: Bits)
    ensures |r| == |x| && forall i :: 0 <= i < |x| ==> r[i] == (x[i] && Bit(y, i))
  {
    seq(|x|, i requires 0 <= i < |x| => x[i] && Bit(y, i))
  }

  function Or(x: Bits, y: Bits): (r: Bits)
    ensures |r| == |x| && forall i :: 0 <= i < |x| ==> r[i] == (x[i] || Bit(y, i))
  {
    seq(|x|, i requires 0 <= i < |x| => x[i] || Bit(y, i))
  }

  function Xor(x: Bits, y: Bits): (r: Bits)
    ensures |r| == |x| && forall i :: 0 <= i < |x| ==> r[i] == (x[i] != Bit(y, i))
  {
    seq(|x|, i requires 0 <= i < |x| => x[i] != Bit(y, i))
  }

  function Shl(x: Bits, k: nat): (r: Bits)
    ensures |r| == |x| && forall i :: 0 <= i < |x| ==> r[i] == Bit(x, i - k)
  {
    seq(|x|, i requires 0 <= i < |x| => Bit(x, i - k))
  }

  function Shr(x: Bits, k: nat): (r: Bits)
    ensures |r| == |x| && forall i :: 0 <= i < |x| ==> r[i] == Bit(x, i + k)
  {
    seq(|x|, i requires 0 <= i < |x| => Bit(x, i + k))
  }

  /** The value in a word of n bits, cut off or filled with zeros. */
  function Resize(x: Bits, n: nat): (r: Bits)
    ensures |r| == n && forall i :: 0 <= i < n ==> r[i] == Bit(x, i)
  {
    seq(n, i requires 0 <= i < n => Bit(x, i))
  }

  /** The masks: runs of g ones with b - 1 times as many zeros between them. For b == 2 and 64 bits
      these are 0x5555555555555555 (g == 1) to 0x00000000FFFFFFFF (g == 32), for b == 3 and 96 bits
      one_thirty_two (g == 1) to half (g == 16) and all (g == 32). */
  function Mask(n: nat, b: nat, g: nat): (r: Bits)
    requires 1 <= b && 1 <= g
    ensures |r| == n && forall i :: 0 <= i < n ==> r[i] == (i / g % b == 0)
  {
    seq(n, i requires 0 <= i < n => i / g % b == 0)
  }

  /** The bits of a in runs of g, with b - 1 times as much room between the runs. */
  function Spread(a: Bits, n: nat, b: nat, g: nat): (r: Bits)
    requires 1 <= b && 1 <= g
    ensures |r| == n && forall i :: 0 <= i < n ==> r[i] == SpreadBit(a, b, g, i)
  {
    seq(n, i requires 0 <= i < n => SpreadBit(a, b, g, i))
  }

  predicate SpreadBit(a: Bits, b: nat, g: nat, i: nat)
    requires 1 <= b && 1 <= g
  {
    i / g % b == 0 && Bit(a, i / g / b * g + i % g)
  }

  // ----- one step -----

  /** SpreadBit at run q, place r. */
  lemma SpreadAt(a: Bits, b: nat, g: nat, q: nat, r: nat)
    requires 1 <= b && 1 <= g && r < g
    ensures 0 <= q * g
    ensures SpreadBit(a, b, g, q * g + r) <==> q % b == 0 && Bit(a, q / b * g + r)
  {
    if 0 < q { MulAtLeast(q, g); }
    DivModOf(q * g + r, q, r, g);
  }

  /** The same place seen in runs of twice the length. */
  lemma SpreadAtDouble(a: Bits, b: nat, g: nat, q: nat, r: nat)
    requires 1 <= b && 1 <= g && r < g
    ensures 0 <= q * g
    ensures SpreadBit(a, b, 2 * g, q * g + r) <==> q / 2 % b == 0 && Bit(a, (2 * (q / 2 / b) + q % 2) * g + r)
  {
    hide SpreadBit, Bit;
    var u, v := q / 2, q % 2;
    assert q == 2 * u + v;
    Regroup(q, u, v, g, r);
    if 0 < q { MulAtLeast(q, g); }
    QuotientNonNegative(u, b);
    Regroup(2 * (u / b) + v, u / b, v, g, r);
    if v == 0 {
      SpreadAt(a, b, 2 * g, u, r);
    } else {
      SpreadAt(a, b, 2 * g, u, g + r);
    }
  }

  lemma Regroup(q: nat, u: nat, v: nat, g: nat, r: nat)
    requires q == 2 * u + v
    ensures q * g + r == u * (2 * g) + (v * g + r)
  {
    Distribute(u, v, g);
  }

  lemma Distribute(u: int, v: int, g: int)
    ensures (2 * u + v) * g == u * (2 * g) + v * g
  {
  }

  /** Halving the runs: what lies b - 1 short runs below moves up. */
  lemma SplitBit(a: Bits, n: nat, b: nat, g: nat, i: nat)
    requires (b == 2 || b == 3) && 1 <= g && i < n
    ensures SpreadBit(a, b, g, i) <==>
            && i / g % b == 0
            && (SpreadBit(a, b, 2 * g, i) || (0 <= i - (b - 1) * g && SpreadBit(a, b, 2 * g, i - (b - 1) * g)))
  {
    hide SpreadBit;
    var q, r := i / g, i % g;
    DivNonNegative(i, g);
    assert i == q * g + r;
    SpreadAt(a, b, g, q, r);
    SpreadAtDouble(a, b, g, q, r);
    if b - 1 <= q {
      Lower(q, b - 1, g);
      SpreadAtDouble(a, b, g, q - (b - 1), r);
    } else {
      ProductsApart(q, b - 1, g);
    }
    RunsSplit(q, b);
  }

  lemma DivNonNegative(i: nat, g: nat)
    requires 1 <= g
    ensures 0 <= i / g && 0 <= i % g < g && i == i / g * g + i % g
  {
    QuotientNonNegative(i, g);
  }

  lemma Lower(q: nat, k: nat, g: nat)
    requires k <= q
    ensures (q - k) * g == q * g - k * g
  {
  }

  /** The run numbers: of a run at a multiple of b, either itself or the one b - 1 before it is the
      lower or upper half of a long run at a multiple of b, and never both. */
  lemma RunsSplit(q: nat, b: nat)
    requires b == 2 || b == 3
    ensures q % b == 0 && q / b % 2 == 0 ==> q / 2 % b == 0 && 2 * (q / 2 / b) + q % 2 == q / b
    ensures q % b == 0 && q / b % 2 == 1 ==> q / 2 % b != 0
    ensures q % b == 0 && b - 1 <= q && q / b % 2 == 0 ==> (q - (b - 1)) / 2 % b != 0
    ensures q % b == 0 && q / b % 2 == 1 ==> b - 1 <= q && (q - (b - 1)) / 2 % b == 0
    ensures q % b == 0 && q / b % 2 == 1 ==> 2 * ((q - (b - 1)) / 2 / b) + (q - (b - 1)) % 2 == q / b
  {
    if b == 2 { RunsSplit2(q); } else { RunsSplit3(q); }
  }

  lemma RunsSplit2(q: nat)
    ensures q % 2 == 0 && q / 2 % 2 == 0 ==> q / 2 % 2 == 0 && 2 * (q / 2 / 2) + q % 2 == q / 2
    ensures q % 2 == 0 && 1 <= q && q / 2 % 2 == 0 ==> (q - 1) / 2 % 2 != 0
    ensures q % 2 == 0 && q / 2 % 2 == 1 ==>
              && q / 2 % 2 != 0 && 1 <= q && (q - 1) / 2 % 2 == 0
              && 2 * ((q - 1) / 2 / 2) + (q - 1) % 2 == q / 2
  {
    var t, r := q / 4, q % 4;
    assert q == 4 * t + r;
  }

  lemma RunsSplit3(q: nat)
    ensures q % 3 == 0 && q / 3 % 2 == 0 ==> q / 2 % 3 == 0 && 2 * (q / 2 / 3) + q % 2 == q / 3
    ensures q % 3 == 0 && 2 <= q && q / 3 % 2 == 0 ==> (q - 2) / 2 % 3 != 0
    ensures q % 3 == 0 && q / 3 % 2 == 1 ==>
              && q / 2 % 3 != 0 && 2 <= q && (q - 2) / 2 % 3 == 0
              && 2 * ((q - 2) / 2 / 3) + (q - 2) % 2 == q / 3
  {
    var t, r := q / 6, q % 6;
    assert q == 6 * t + r;
  }

  /** Doubling the runs: what lies b - 1 short runs above moves down, onto places that are free. */
  lemma MergeBit(a: Bits, n: nat, b: nat, g: nat, i: nat)
    requires (b == 2 || b == 3) && 1 <= g && i < n
    ensures SpreadBit(a, b, 2 * g, i) <==>
            i / (2 * g) % b == 0 && (SpreadBit(a, b, g, i) || SpreadBit(a, b, g, i + (b - 1) * g))
    ensures i / (2 * g) % b == 0 ==> !(SpreadBit(a, b, g, i) && SpreadBit(a, b, g, i + (b - 1) * g))
  {
    hide SpreadBit;
    var q, r := i / g, i % g;
    DivNonNegative(i, g);
    SpreadAt(a, b, g, q, r);
    SpreadAtDouble(a, b, g, q, r);
    Higher(q, b - 1, g);
    SpreadAt(a, b, g, q + (b - 1), r);
    DivDiv(i, g, 2);
    assert g * 2 == 2 * g;
    RunsMerge(q, b);
  }

  lemma Higher(q: nat, k: nat, g: nat)
    ensures (q + k) * g == q * g + k * g
  {
  }

  lemma RunsMerge(q: nat, b: nat)
    requires b == 2 || b == 3
    ensures q / 2 % b == 0 && q % 2 == 0 ==> q % b == 0 && (q + (b - 1)) % b != 0 && 2 * (q / 2 / b) + q % 2 == q / b
    ensures q / 2 % b == 0 && q % 2 == 1 ==> q % b != 0 && (q + (b - 1)) % b == 0
    ensures q / 2 % b == 0 && q % 2 == 1 ==> 2 * (q / 2 / b) + q % 2 == (q + (b - 1)) / b
  {
    var p := q / 2 / b;
    if q / 2 % b == 0 {
      if b == 2 {
        if q % 2 == 0 { assert q == 4 * p; } else { assert q == 4 * p + 1; }
      } else {
        if q % 2 == 0 { assert q == 6 * p; } else { assert q == 6 * p + 1; }
      }
    }
  }

  /** (x | x << s) & mask, from runs of 2g to runs of g. */
  lemma SplitStep(a: Bits, n: nat, b: nat, g: nat)
    requires (b == 2 || b == 3) && 1 <= g
    ensures var x := Spread(a, n, b, 2 * g);
            And(Or(x, Shl(x, (b - 1) * g)), Mask(n, b, g)) == Spread(a, n, b, g)
  {
    hide SpreadBit;
    var x := Spread(a, n, b, 2 * g);
    var y := And(Or(x, Shl(x, (b - 1) * g)), Mask(n, b, g));
    forall i | 0 <= i < n ensures y[i] == Spread(a, n, b, g)[i] {
      SplitBit(a, n, b, g, i);
    }
  }

  /** Beyond n bits a spread value has no bits, as long as its 32 bits fit. */
  lemma NoBitsAbove(a: Bits, b: nat, g: nat, i: nat)
    requires |a| == 32 && (b == 2 || b == 3) && 1 <= g && 32 * b <= i
    ensures !SpreadBit(a, b, g, i)
  {
    var q, r := i / g, i % g;
    DivNonNegative(i, g);
    if q % b == 0 {
      var p := q / b;
      assert q == p * b;
      MulAssoc(p, b, g);
      assert p * (b * g) == p * g * b by { MulSwap(p, b, g); }
      assert i == p * g * b + r;
      assert b * (p * g + r) >= i;
    }
  }

  /** (x ^ x >> s) & mask or (x | x >> s) & mask, from runs of g to runs of 2g. */
  lemma MergeStep(a: Bits, b: nat, g: nat)
    requires |a| == 32 && (b == 2 || b == 3) && 1 <= g
    ensures var x := Spread(a, 32 * b, b, g);
            && And(Or(x, Shr(x, (b - 1) * g)), Mask(32 * b, b, 2 * g)) == Spread(a, 32 * b, b, 2 * g)
            && And(Xor(x, Shr(x, (b - 1) * g)), Mask(32 * b, b, 2 * g)) == Spread(a, 32 * b, b, 2 * g)
  {
    hide SpreadBit;
    var n := 32 * b;
    var x := Spread(a, n, b, g);
    var s := (b - 1) * g;
    var y := And(Or(x, Shr(x, s)), Mask(n, b, 2 * g));
    var z := And(Xor(x, Shr(x, s)), Mask(n, b, 2 * g));
    forall i | 0 <= i < n ensures y[i] == Spread(a, n, b, 2 * g)[i] && z[i] == y[i] {
      MergeBit(a, n, b, g, i);
      if n <= i + s { NoBitsAbove(a, b, g, i + s); }
    }
  }

  // ----- splitting and merging -----

  /** A value as it is: one run. */
  lemma OneRun(a: Bits, n: nat, b: nat, g: nat)
    requires |a| == 32 <= g && 1 <= b && n <= b * g
    ensures Spread(a, n, b, g) == Resize(a, n)
  {
    forall i | 0 <= i < n ensures Spread(a, n, b, g)[i] == Resize(a, n)[i] {
      var q, r := i / g, i % g;
      DivNonNegative(i, g);
      if b <= q { ProductsAtLeast(b, q, g); }
      if q == 0 {
      } else {
        MulAtLeast(q, g);
        DivModOf(q, 0, q, b);
      }
    }
  }

  function SplitByBits(a: Bits): (x: Bits)
    ensures |x| == 64
  {
    var x := Resize(a, 64);
    var x := And(Or(x, Shl(x, 32)), Mask(64, 2, 32));
    var x := And(Or(x, Shl(x, 16)), Mask(64, 2, 16));
    var x := And(Or(x, Shl(x, 8)), Mask(64, 2, 8));
    var x := And(Or(x, Shl(x, 4)), Mask(64, 2, 4));
    var x := And(Or(x, Shl(x, 2)), Mask(64, 2, 2));
    And(Or(x, Shl(x, 1)), Mask(64, 2, 1))
  }

  function SplitByBitset(a: Bits): (x: Bits)
    ensures |x| == 96
  {
    var x := Resize(a, 96);
    var x := And(Or(x, Shl(x, 32)), Mask(96, 3, 16));
    var x := And(Or(x, Shl(x, 16)), Mask(96, 3, 8));
    var x := And(Or(x, Shl(x, 8)), Mask(96, 3, 4));
    var x := And(Or(x, Shl(x, 4)), Mask(96, 3, 2));
    And(Or(x, Shl(x, 2)), Mask(96, 3, 1))
  }

  function MergeByBits(m: Bits): (a: Bits)
    ensures |a| == 32
  {
    var x := And(m, Mask(64, 2, 1));
    var x := And(Xor(x, Shr(x, 1)), Mask(64, 2, 2));
    var x := And(Xor(x, Shr(x, 2)), Mask(64, 2, 4));
    var x := And(Xor(x, Shr(x, 4)), Mask(64, 2, 8));
    var x := And(Xor(x, Shr(x, 8)), Mask(64, 2, 16));
    var x := And(Xor(x, Shr(x, 16)), Mask(64, 2, 32));
    Resize(x, 32)
  }

  function MergeByBitset(m: Bits): (a: Bits)
    ensures |a| == 32
  {
    var x := And(m, Mask(96, 3, 1));
    var x := And(Or(x, Shr(x, 2)), Mask(96, 3, 2));
    var x := And(Or(x, Shr(x, 4)), Mask(96, 3, 4));
    var x := And(Or(x, Shr(x, 8)), Mask(96, 3, 8));
    var x := And(Or(x, Shr(x, 16)), Mask(96, 3, 16));
    var x := And(Or(x, Shr(x, 32)), Mask(96, 3, 32));
    Resize(x, 32)
  }

  /** Every b-th bit of m. */
  function Gather(m: Bits, b: nat): (a: Bits)
    ensures |a| == 32 && forall j :: 0 <= j < 32 ==> a[j] == Bit(m, b * j)
  {
    seq(32, j requires 0 <= j < 32 => Bit(m, b * j))
  }

  /** Splitting puts bit j of the value at position 2j, or 3j, and zeros in between. */
  lemma SplitIsSpread(a: Bits)
    requires |a| == 32
    ensures SplitByBits(a) == Spread(a, 64, 2, 1) && SplitByBitset(a) == Spread(a, 96, 3, 1)
  {
    hide Spread, And, Or, Shl, Mask;
    OneRun(a, 64, 2, 64);
    SplitStep(a, 64, 2, 32);
    SplitStep(a, 64, 2, 16);
    SplitStep(a, 64, 2, 8);
    SplitStep(a, 64, 2, 4);
    SplitStep(a, 64, 2, 2);
    SplitStep(a, 64, 2, 1);
    OneRun(a, 96, 3, 32);
    SplitStep(a, 96, 3, 16);
    SplitStep(a, 96, 3, 8);
    SplitStep(a, 96, 3, 4);
    SplitStep(a, 96, 3, 2);
    SplitStep(a, 96, 3, 1);
  }

  lemma MaskedIsSpread(m: Bits, b: nat)
    requires |m| == 32 * b && (b == 2 || b == 3)
    ensures And(m, Mask(32 * b, b, 1)) == Spread(Gather(m, b), 32 * b, b, 1)
  {
    var s := Spread(Gather(m, b), 32 * b, b, 1);
    forall i | 0 <= i < 32 * b ensures And(m, Mask(32 * b, b, 1))[i] == s[i] {
      assert i / 1 == i && i % 1 == 0;
      if i % b == 0 { assert i == b * (i / b); }
    }
  }

  lemma MergeIsGather2(m: Bits)
    requires |m| == 64
    ensures MergeByBits(m) == Gather(m, 2)
  {
    hide Spread, And, Xor, Or, Shr, Mask, Gather;
    var c := Gather(m, 2);
    MaskedIsSpread(m, 2);
    MergeStep(c, 2, 1);
    MergeStep(c, 2, 2);
    MergeStep(c, 2, 4);
    MergeStep(c, 2, 8);
    MergeStep(c, 2, 16);
    OneRun(c, 64, 2, 32);
    assert Resize(Resize(c, 64), 32) == c;
  }

  lemma MergeIsGather3(m: Bits)
    requires |m| == 96
    ensures MergeByBitset(m) == Gather(m, 3)
  {
    hide Spread, And, Xor, Or, Shr, Mask, Gather;
    var c := Gather(m, 3);
    MaskedIsSpread(m, 3);
    MergeStep(c, 3, 1);
    MergeStep(c, 3, 2);
    MergeStep(c, 3, 4);
    MergeStep(c, 3, 8);
    MergeStep(c, 3, 16);
    OneRun(c, 96, 3, 32);
    assert Resize(Resize(c, 96), 32) == c;
  }

  // ----- interleaving -----

  function MagicBits(lng: Bits, lat: Bits): (m: Bits)
    ensures |m| == 64
  {
    Or(SplitByBits(lng), Shl(SplitByBits(lat), 1))
  }

  function MagicBitset(lng: Bits, lat: Bits, hig: Bits): (m: Bits)
    ensures |m| == 96
  {
    Or(Or(SplitByBitset(lng), Shl(SplitByBitset(lat), 1)), Shl(SplitByBitset(hig), 2))
  }

  lemma SpreadOnce(a: Bits, b: nat, i: nat)
    requires 1 <= b
    ensures SpreadBit(a, b, 1, i) <==> i % b == 0 && Bit(a, i / b)
  {
    assert i / 1 == i && i % 1 == 0 && i / b * 1 == i / b;
  }

  lemma SplitAt(a: Bits, i: int)
    requires |a| == 32
    ensures Bit(SplitByBits(a), i) <==> 0 <= i < 64 && i % 2 == 0 && Bit(a, i / 2)
    ensures Bit(SplitByBitset(a), i) <==> 0 <= i < 96 && i % 3 == 0 && Bit(a, i / 3)
  {
    hide SplitByBits, SplitByBitset, SpreadBit;
    SplitIsSpread(a);
    if 0 <= i {
      SpreadOnce(a, 2, i);
      SpreadOnce(a, 3, i);
    }
  }

  /** Bit i of the interleaved value. */
  lemma MagicBit(lng: Bits, lat: Bits, i: nat)
    requires |lng| == 32 == |lat| && i < 64
    ensures MagicBits(lng, lat)[i] == if i % 2 == 0 then lng[i / 2] else lat[i / 2]
  {
    hide SplitByBits, SplitByBitset;
    SplitAt(lng, i);
    SplitAt(lat, i - 1);
  }

  lemma MagicBit3(lng: Bits, lat: Bits, hig: Bits, i: nat)
    requires |lng| == 32 == |lat| && |hig| == 32 && i < 96
    ensures MagicBitset(lng, lat, hig)[i] ==
            if i % 3 == 0 then lng[i / 3] else if i % 3 == 1 then lat[i / 3] else hig[i / 3]
  {
    hide SplitByBits, SplitByBitset;
    SplitAt(lng, i);
    SplitAt(lat, i - 1);
    SplitAt(hig, i - 2);
  }

  /** De-interleaving undoes interleaving. */
  lemma UnMagicAfterMagic(lng: Bits, lat: Bits)
    requires |lng| == 32 == |lat|
    ensures MergeByBits(MagicBits(lng, lat)) == lng && MergeByBits(Shr(MagicBits(lng, lat), 1)) == lat
  {
    hide MagicBits, MergeByBits;
    var m := MagicBits(lng, lat);
    MergeIsGather2(m);
    MergeIsGather2(Shr(m, 1));
    forall j | 0 <= j < 32 ensures Gather(m, 2)[j] == lng[j] && Gather(Shr(m, 1), 2)[j] == lat[j] {
      MagicBit(lng, lat, 2 * j);
      MagicBit(lng, lat, 2 * j + 1);
    }
  }

  /** Interleaving undoes de-interleaving. */
  lemma MagicAfterUnMagic(m: Bits)
    requires |m| == 64
    ensures MagicBits(MergeByBits(m), MergeByBits(Shr(m, 1))) == m
  {
    hide MagicBits, MergeByBits;
    var lng, lat := MergeByBits(m), MergeByBits(Shr(m, 1));
    MergeIsGather2(m);
    MergeIsGather2(Shr(m, 1));
    forall i | 0 <= i < 64 ensures MagicBits(lng, lat)[i] == m[i] {
      MagicBit(lng, lat, i);
    }
  }

  lemma UnMagicAfterMagic3(lng: Bits, lat: Bits, hig: Bits)
    requires |lng| == 32 == |lat| && |hig| == 32
    ensures var m := MagicBitset(lng, lat, hig);
            MergeByBitset(m) == lng && MergeByBitset(Shr(m, 1)) == lat && MergeByBitset(Shr(m, 2)) == hig
  {
    hide MagicBitset, MergeByBitset;
    var m := MagicBitset(lng, lat, hig);
    MergeIsGather3(m);
    MergeIsGather3(Shr(m, 1));
    MergeIsGather3(Shr(m, 2));
    forall j | 0 <= j < 32
      ensures Gather(m, 3)[j] == lng[j] && Gather(Shr(m, 1), 3)[j] == lat[j] && Gather(Shr(m, 2), 3)[j] == hig[j]
    {
      MagicBit3(lng, lat, hig, 3 * j);
      MagicBit3(lng, lat, hig, 3 * j + 1);
      MagicBit3(lng, lat, hig, 3 * j + 2);
    }
  }

  lemma MagicAfterUnMagic3(m: Bits)
    requires |m| == 96
    ensures MagicBitset(MergeByBitset(m), MergeByBitset(Shr(m, 1)), MergeByBitset(Shr(m, 2))) == m
  {
    hide MagicBitset, MergeByBitset;
    var lng, lat, hig := MergeByBitset(m), MergeByBitset(Shr(m, 1)), MergeByBitset(Shr(m, 2));
    MergeIsGather3(m);
    MergeIsGather3(Shr(m, 1));
    MergeIsGather3(Shr(m, 2));
    forall i | 0 <= i < 96 ensures MagicBitset(lng, lat, hig)[i] == m[i] {
      MagicBit3(lng, lat, hig, i);
    }
  }

  // ----- levels -----

  /** code & (ones << (64 - 2 * level)), for words of any length: all but the highest k bits cleared. */
  function Keep(x: Bits, k: int): (r: Bits)
    ensures |r| == |x| && forall i :: 0 <= i < |x| ==> r[i] == (x[i] && |x| - k <= i)
  {
    seq(|x|, i requires 0 <= i < |x| => x[i] && |x| - k <= i)
  }

  /** Cutting a code to a level is interleaving the coordinates cut to that many bits. */
  lemma LevelOfCode(lng: Bits, lat: Bits, level: nat)
    requires |lng| == 32 == |lat| && level <= 32
    ensures Keep(MagicBits(lng, lat), 2 * level) == MagicBits(Keep(lng, level), Keep(lat, level))
  {
    hide MagicBits;
    var a, b := Keep(lng, level), Keep(lat, level);
    forall i | 0 <= i < 64 ensures Keep(MagicBits(lng, lat), 2 * level)[i] == MagicBits(a, b)[i] {
      MagicBit(lng, lat, i);
      MagicBit(a, b, i);
    }
  }

  // ----- text -----

  /** The digit of the two bits at 2i. */
  function DigitAt(code: Bits, i: int): (d: nat)
    ensures d < 4
  {
    (if Bit(code, 2 * i + 1) then 2 else 0) + if Bit(code, 2 * i) then 1 else 0
  }

  /** The text after n digits: a separator follows the 9th, 15th and 21st, unless it is the last one. */
  function Text(code: Bits, level: nat, n: nat): string {
    if n == 0 then "G"
    else
      Text(code, level, n - 1) + ['0' + DigitAt(code, 32 - n) as char]
      + (if n < level && (n == 9 || n == 15) then "-" else if n < level && n == 21 then "." else "")
  }

  /** Where the dth digit stands: after the letter and the separators before it. */
  function Place(d: nat): nat {
    d + (if d > 9 then 1 else 0) + (if d > 15 then 1 else 0) + if d > 21 then 1 else 0
  }

  /** A letter, the digits of the pairs of bits from the highest on, separators at 10, 17 and 24 when a digit
      follows them, and nothing else. */
  predicate IsLaidOut(text: string, code: Bits, level: nat)
    requires |code| == 64 && level <= 32
  {
    && |text| == Place(level) + 1
    && text[0] == 'G'
    && (level > 9 ==> text[10] == '-')
    && (level > 15 ==> text[17] == '-')
    && (level > 21 ==> text[24] == '.')
    && forall d :: 1 <= d <= level ==>
         text[Place(d)] == DigitOf(code[65 - 2 * d], code[64 - 2 * d])
  }

  function DigitOf(high: bool, low: bool): char {
    if high then if low then '3' else '2' else if low then '1' else '0'
  }

  lemma DigitBoth(code: Bits, d: nat)
    requires |code| == 64 && 1 <= d <= 32
    ensures '0' + DigitAt(code, 32 - d) as char == DigitOf(code[65 - 2 * d], code[64 - 2 * d])
  {
  }

  /** The text so far, with the separator after it if a digit follows. */
  predicate IsStarted(t: string, code: Bits, n: nat)
    requires |code| == 64 && n <= 32
  {
    if n in {9, 15, 21} then
      |t| == Place(n) + 2 && IsLaidOut(t[..|t| - 1], code, n) && t[|t| - 1] == if n == 21 then '.' else '-'
    else IsLaidOut(t, code, n)
  }

  lemma LayoutNext(t: string, code: Bits, n: nat)
    requires |code| == 64 && n < 32 && IsStarted(t, code, n)
    ensures IsLaidOut(t + ['0' + DigitAt(code, 31 - n) as char], code, n + 1)
  {
    hide DigitAt, DigitOf;
    DigitBoth(code, n + 1);
  }

  lemma {:induction false} TextLayout(code: Bits, level: nat, n: nat)
    requires |code| == 64 && n <= level <= 32
    ensures if n < level then IsStarted(Text(code, level, n), code, n) else IsLaidOut(Text(code, level, n), code, n)
  {
    hide DigitAt, IsLaidOut;
    if n == 0 {
      NoDigits(code);
    } else {
      var t := Text(code, level, n - 1);
      TextLayout(code, level, n - 1);
      LayoutNext(t, code, n - 1);
      var u := t + ['0' + DigitAt(code, 32 - n) as char];
      LayoutLength(u, code, n);
      var sep := if n < level && (n == 9 || n == 15) then "-" else if n < level && n == 21 then "." else "";
      assert Text(code, level, n) == u + sep;
      assert (u + sep)[..|u|] == u && (sep == "" ==> u + sep == u);
    }
  }

  lemma LayoutLength(t: string, code: Bits, n: nat)
    requires |code| == 64 && n <= 32 && IsLaidOut(t, code, n)
    ensures |t| == Place(n) + 1
  {
  }

  lemma NoDigits(code: Bits)
    requires |code| == 64
    ensures IsLaidOut("G", code, 0)
  {
  }

  /** ToString. The text, read from the left, gives the level and the code cut to it. */
  method ToString(code: Bits, level: nat) returns (text: string)
    requires |code| == 64 && level <= 32
    ensures text == Text(code, level, level) && IsLaidOut(text, code, level)
    ensures Decode(text) == Decoded(level, Keep(code, 2 * level))
  {
    hide Decode, Keep, DigitAt, Step, IsLaidOut;
    TextLayout(code, level, level);
    text := "G";
    DecodeStart(code);
    var i := 31;
    while i > 31 - level
      invariant 31 - level <= i <= 31
      invariant text == Text(code, level, 31 - i)
      invariant Decode(text) == Decoded(31 - i, Keep(code, 2 * (31 - i)))
    {
      var digit := DigitAt(code, i);
      NextDigit(text, code, i);
      text := text + ['0' + digit as char];
      if i > 32 - level {
        if i == 23 || i == 17 {
          SkipSeparator(text, '-');
          text := text + "-";
        }
        if i == 11 {
          SkipSeparator(text, '.');
          text := text + ".";
        }
      }
      i := i - 1;
    }
  }

  /** What has been read: the number of digits and the code they make. */
  datatype Decoded = Decoded(level: nat, code: Bits)

  predicate IsDigit(c: char) {
    '0' <= c <= '9'
  }

  /** DeCodeChar. */
  function DigitCode(c: char): nat {
    if c == '1' then 1 else if c == '2' then 2 else if c == '3' then 3 else 0
  }

  /** id | v << 2i. */
  function OrDigit(id: Bits, v: nat, i: nat): (r: Bits)
    ensures |r| == |id|
    ensures forall k :: 0 <= k < |id| ==>
              r[k] == (id[k] || (k == 2 * i && v % 2 == 1) || (k == 2 * i + 1 && v / 2 % 2 == 1))
  {
    seq(|id|, k requires 0 <= k < |id| => id[k] || (k == 2 * i && v % 2 == 1) || (k == 2 * i + 1 && v / 2 % 2 == 1))
  }

  /** One character: anything but a digit is skipped; the 33rd digit would be shifted out of the word. */
  function Step(d: Decoded, c: char): Decoded {
    if !IsDigit(c) then d
    else Decoded(d.level + 1, if d.level < 32 then OrDigit(d.code, DigitCode(c), 31 - d.level) else d.code)
  }

  function Zeros(): Bits {
    seq(64, _ => false)
  }

  /** Reading a text from the left. */
  function Decode(s: string): Decoded {
    if s == "" then Decoded(0, Zeros()) else Step(Decode(s[..|s| - 1]), s[|s| - 1])
  }

  lemma DecodeNext(s: string, c: char)
    ensures Decode(s + [c]) == Step(Decode(s), c)
  {
    assert (s + [c])[..|s|] == s;
  }

  lemma SkipSeparator(s: string, c: char)
    requires !IsDigit(c)
    ensures Decode(s + [c]) == Decode(s)
  {
    DecodeNext(s, c);
  }

  lemma DecodeStart(code: Bits)
    requires |code| == 64
    ensures Decode("G") == Decoded(0, Keep(code, 0))
  {
    assert "G" == "" + ['G'];
    DecodeNext("", 'G');
    assert Keep(code, 0) == Zeros();
  }

  lemma NextDigit(s: string, code: Bits, i: nat)
    requires |code| == 64 && i <= 31 && Decode(s) == Decoded(31 - i, Keep(code, 2 * (31 - i)))
    ensures Decode(s + ['0' + DigitAt(code, i) as char]) == Decoded(32 - i, Keep(code, 2 * (32 - i)))
  {
    hide Decode, OrDigit, Keep;
    var v := DigitAt(code, i);
    var c := '0' + v as char;
    DecodeNext(s, c);
    assert DigitCode(c) == v;
    OrNext(code, i);
  }

  lemma OrNext(code: Bits, i: nat)
    requires |code| == 64 && i <= 31
    ensures OrDigit(Keep(code, 2 * (31 - i)), DigitAt(code, i), i) == Keep(code, 2 * (32 - i))
  {
    DigitBits(code, i);
    var v := DigitAt(code, i);
    var x, y := OrDigit(Keep(code, 2 * (31 - i)), v, i), Keep(code, 2 * (32 - i));
    hide DigitAt;
    forall k | 0 <= k < 64 ensures x[k] == y[k] {
    }
  }

  lemma DigitBits(code: Bits, i: nat)
    requires |code| == 64 && i <= 31
    ensures (DigitAt(code, i) % 2 == 1 <==> code[2 * i]) && (DigitAt(code, i) / 2 % 2 == 1 <==> code[2 * i + 1])
  {
  }

  /** ToCode; a text with more than 32 digits would shift by a negative amount. */
  method ToCode(grid: string) returns (level: nat, code: Bits)
    requires Decode(grid).level <= 32
    ensures level == Decode(grid).level && code == Decode(grid).code
  {
    hide Decode, OrDigit;
    code := Zeros();
    level := 0;
    DecodeNothing(grid);
    for k := 0 to |grid|
      invariant Decode(grid[..k]) == Decoded(level, code)
    {
      var c := grid[k];
      assert grid[..k + 1] == grid[..k] + [c];
      DecodeNext(grid[..k], c);
      LevelGrows(grid, k + 1);
      if IsDigit(c) {
        var v := DigitCode(c);
        code := OrDigit(code, v, 31 - level);
        level := level + 1;
      }
    }
    assert grid[..|grid|] == grid;
  }

  lemma DecodeNothing(s: string)
    ensures Decode(s[..0]) == Decoded(0, Zeros())
  {
  }

  lemma {:induction false} LevelGrows(s: string, k: nat)
    requires k <= |s|
    ensures Decode(s[..k]).level <= Decode(s).level
    decreases |s| - k
  {
    if k < |s| {
      assert s[..k + 1] == s[..k] + [s[k]];
      DecodeNext(s[..k], s[k]);
      LevelGrows(s, k + 1);
    } else {
      assert s[..k] == s;
    }
  }

  /** The text of a code at a level reads back as that level and the code cut to it. */
  method TextRoundTrip(code: Bits, level: nat) returns (level': nat, code': Bits)
    requires |code| == 64 && level <= 32
    ensures level' == level && code' == Keep(code, 2 * level)
  {
    hide Decode, Keep;
    var text := ToString(code, level);
    level', code' := ToCode(text);
  }
}
