/** Geohashes of liblwgeom/lwalgorithm.c: encoding a point, decoding a cell, and the precision that a
    box allows. */
module Geohash {
  import opened Arith

  datatype Box = Box(lonMin: real, lonMax: real, latMin: real, latMax: real)

  const WORLD := Box(-180.0, 180.0, -90.0, 90.0)

  ghost predicate Contains(b: Box, lon: real, lat: real) {
    b.lonMin <= lon <= b.lonMax && b.latMin <= lat <= b.latMax
  }

  /** Without the upper edges. */
  ghost predicate HalfOpen(b: Box, lon: real, lat: real) {
    b.lonMin <= lon < b.lonMax && b.latMin <= lat < b.latMax
  }

  ghost predicate Within(b: Box, c: Box) {
    c.lonMin <= b.lonMin && b.lonMax <= c.lonMax && c.latMin <= b.latMin && b.latMax <= c.latMax
  }

  ghost predicate Proper(b: Box) {
    b.lonMin < b.lonMax && b.latMin < b.latMax
  }

  function LonMid(b: Box): real { (b.lonMin + b.lonMax) / 2.0 }

  function LatMid(b: Box): real { (b.latMin + b.latMax) / 2.0 }

  predicate Even(t: nat) { t % 2 == 0 }

  lemma EvenNext(t: nat)
    ensures Even(t + 1) == !Even(t) && Even(0)
  {
  }

  /** One half of a box: split in longitude at even bits, in latitude at odd ones. */
  function Half(b: Box, even: bool, upper: bool): Box {
    if even then (if upper then b.(lonMin := LonMid(b)) else b.(lonMax := LonMid(b)))
    else (if upper then b.(latMin := LatMid(b)) else b.(latMax := LatMid(b)))
  }

  /** The cell that a bit string leads to. */
  function CellOf(bits: seq<bool>): Box {
    if bits == [] then WORLD
    else
      var n := |bits| - 1;
      Half(CellOf(bits[..n]), n % 2 == 0, bits[n])
  }

  function BitFor(lon: real, lat: real, b: Box, even: bool): bool {
    if even then lon >= LonMid(b) else lat >= LatMid(b)
  }

  /** The first k bits for a point. */
  function BitsOf(lon: real, lat: real, k: nat): (bits: seq<bool>)
    ensures |bits| == k
  {
    if k == 0 then []
    else
      var bits := BitsOf(lon, lat, k - 1);
      bits + [BitFor(lon, lat, CellOf(bits), (k - 1) % 2 == 0)]
  }

  lemma CellNext(bits: seq<bool>, bit: bool)
    ensures CellOf(bits + [bit]) == Half(CellOf(bits), Even(|bits|), bit)
  {
    assert (bits + [bit])[..|bits|] == bits;
  }

  lemma {:induction false} CellProper(bits: seq<bool>)
    ensures Proper(CellOf(bits))
  {
    if bits != [] { CellProper(bits[..|bits| - 1]); }
  }

  /** A point of the world lies in the cell of its bits. */
  lemma {:induction false} CellContains(lon: real, lat: real, k: nat)
    requires Contains(WORLD, lon, lat)
    ensures Contains(CellOf(BitsOf(lon, lat, k)), lon, lat)
  {
    if 0 < k {
      CellContains(lon, lat, k - 1);
      var bits := BitsOf(lon, lat, k - 1);
      CellNext(bits, BitFor(lon, lat, CellOf(bits), (k - 1) % 2 == 0));
    }
  }

  /** A cell of k bits is one of 2 to the power (k + 1) / 2 columns and one of 2 to the power k / 2 rows. */
  ghost predicate SizedFor(b: Box, k: nat) {
    && (b.lonMax - b.lonMin) * Pow2((k + 1) / 2) as real == 360.0
    && (b.latMax - b.latMin) * Pow2(k / 2) as real == 180.0
  }

  lemma {:induction false} CellSize(bits: seq<bool>)
    ensures SizedFor(CellOf(bits), |bits|)
  {
    hide Half, SizedFor;
    if bits == [] {
      WorldSize();
    } else {
      var n := |bits| - 1;
      CellSize(bits[..n]);
      HalfSize(CellOf(bits[..n]), n, bits[n]);
    }
  }

  lemma WorldSize()
    ensures SizedFor(WORLD, 0)
  {
    assert Pow2(0) as real == 1.0;
  }

  lemma HalfSize(b: Box, n: nat, upper: bool)
    requires SizedFor(b, n)
    ensures SizedFor(Half(b, n % 2 == 0, upper), n + 1)
  {
    if n % 2 == 0 {
      assert (n + 2) / 2 == n / 2 + 1 && (n + 1) / 2 == n / 2;
      HalfTimesTwice(b.lonMax - b.lonMin, Pow2(n / 2));
    } else {
      assert (n + 1) / 2 == n / 2 + 1 && (n + 2) / 2 == (n + 1) / 2;
      HalfTimesTwice(b.latMax - b.latMin, Pow2(n / 2));
    }
  }

  lemma HalfTimesTwice(w: real, p: nat)
    ensures w / 2.0 * (2 * p) as real == w * p as real
  {
    assert (2 * p) as real == 2.0 * p as real;
  }

  /** The only bit string whose half-open cell has the point is that of the point. */
  lemma {:induction false} BitsAreUnique(lon: real, lat: real, bits: seq<bool>)
    requires HalfOpen(CellOf(bits), lon, lat)
    ensures BitsOf(lon, lat, |bits|) == bits
  {
    if bits != [] {
      var n := |bits| - 1;
      CellProper(bits[..n]);
      BitsAreUnique(lon, lat, bits[..n]);
      assert bits == bits[..n] + [bits[n]];
    }
  }

  // ----- the alphabet -----

  const BASE32 := "0123456789bcdefghjkmnpqrstuvwxyz"

  /** The character for five bits: digits, then letters without a, i, l and o. */
  function Digit(d: nat): char
    requires d < 32
  {
    if d < 10 then '0' + d as char
    else if d < 17 then 'b' + (d - 10) as char
    else if d < 19 then 'j' + (d - 17) as char
    else if d < 21 then 'm' + (d - 19) as char
    else 'p' + (d - 21) as char
  }

  /** tolower, then the position found by strchr; 32 if there is none. */
  function DigitValue(c: char): (d: nat)
    ensures d <= 32
  {
    var l := if 'A' <= c <= 'Z' then c - 'A' + 'a' else c;
    if '0' <= l <= '9' then (l - '0') as nat
    else if 'b' <= l <= 'h' then 10 + (l - 'b') as nat
    else if 'j' <= l <= 'k' then 17 + (l - 'j') as nat
    else if 'm' <= l <= 'n' then 19 + (l - 'm') as nat
    else if 'p' <= l <= 'z' then 21 + (l - 'p') as nat
    else 32
  }

  lemma AlphabetIsTable(d: nat)
    requires d < 32
    ensures Digit(d) == BASE32[d]
  {
    if d < 10 {
    } else if d < 17 {
    } else if d < 21 {
    } else {
    }
  }

  lemma ValueOfDigit(d: nat)
    requires d < 32
    ensures DigitValue(Digit(d)) == d
  {
  }

  // ----- five bits to a character -----

  /** The number whose upper bits are given, out of five. */
  function Upper(bits: seq<bool>): nat
    requires |bits| <= 5
  {
    (if |bits| > 0 && bits[0] then 16 else 0) + (if |bits| > 1 && bits[1] then 8 else 0)
    + (if |bits| > 2 && bits[2] then 4 else 0) + (if |bits| > 3 && bits[3] then 2 else 0)
    + (if |bits| > 4 && bits[4] then 1 else 0)
  }

  function FiveBits(d: nat): (bits: seq<bool>)
    ensures |bits| == 5
  {
    [d / 16 % 2 == 1, d / 8 % 2 == 1, d / 4 % 2 == 1, d / 2 % 2 == 1, d % 2 == 1]
  }

  lemma FiveBitsBack(bits: seq<bool>)
    requires |bits| == 5
    ensures Upper(bits) < 32 && FiveBits(Upper(bits)) == bits
  {
  }

  lemma FiveDigits(d: nat, d2: nat, d4: nat, d8: nat, d16: nat)
    requires d < 32 && d2 == d / 2 && d4 == d / 4 && d8 == d / 8 && d16 == d / 16
    ensures d == 16 * (d16 % 2) + 8 * (d8 % 2) + 4 * (d4 % 2) + 2 * (d2 % 2) + d % 2
  {
    assert d4 == d2 / 2 && d8 == d4 / 2 && d16 == d8 / 2;
  }

  lemma UpperBack(d: nat)
    requires d < 32
    ensures Upper(FiveBits(d)) == d
  {
    var b := FiveBits(d);
    FiveDigits(d, d / 2, d / 4, d / 8, d / 16);
  }

  /** The bits of the characters of a string. */
  function StringBits(s: string): (bits: seq<bool>)
    ensures |bits| == 5 * |s|
  {
    if s == "" then [] else StringBits(s[..|s| - 1]) + FiveBits(DigitValue(s[|s| - 1]))
  }

  ghost predicate Valid(s: string) {
    forall i :: 0 <= i < |s| ==> DigitValue(s[i]) < 32
  }

  lemma BitsPrefix(lon: real, lat: real, j: nat, k: nat)
    requires j <= k
    ensures BitsOf(lon, lat, k)[..j] == BitsOf(lon, lat, j)
  {
    if j < k {
      BitsPrefix(lon, lat, j, k - 1);
      assert BitsOf(lon, lat, k)[..k - 1] == BitsOf(lon, lat, k - 1);
      assert BitsOf(lon, lat, k)[..j] == BitsOf(lon, lat, k)[..k - 1][..j];
    }
  }

  // ----- encoding -----

  /** The geohash of a point, as characters of its bits. */
  ghost predicate IsHash(s: string, lon: real, lat: real) {
    && Valid(s) && StringBits(s) == BitsOf(lon, lat, 5 * |s|)
    && forall i :: 0 <= i < |s| ==> s[i] == Digit(DigitValue(s[i]))
  }

  lemma HashNext(s: string, lon: real, lat: real, ch: nat)
    requires IsHash(s, lon, lat) && ch == Upper(BitsOf(lon, lat, 5 * |s| + 5)[5 * |s|..])
    ensures ch < 32 && IsHash(s + [Digit(ch)], lon, lat)
  {
    hide Digit, DigitValue, FiveBits, Upper;
    var bits := BitsOf(lon, lat, 5 * |s| + 5);
    FiveBitsBack(bits[5 * |s|..]);
    var t := s + [Digit(ch)];
    ValueOfDigit(ch);
    BitsPrefix(lon, lat, 5 * |s|, 5 * |s| + 5);
    assert bits == bits[..5 * |s|] + bits[5 * |s|..];
    assert t[..|s|] == s;
  }

  /** After t bits the cell is b, and ch holds the bits from start on. */
  ghost predicate AtBit(lon: real, lat: real, start: nat, t: nat, b: Box, ch: nat) {
    start <= t <= start + 5 && b == CellOf(BitsOf(lon, lat, t)) && ch == Upper(BitsOf(lon, lat, t)[start..])
  }

  lemma NextAt(lon: real, lat: real, start: nat, t: nat, b: Box, ch: nat)
    requires AtBit(lon, lat, start, t, b, ch) && t < start + 5
    ensures var upper := BitFor(lon, lat, b, Even(t));
            AtBit(lon, lat, start, t + 1, Half(b, Even(t), upper), ch + (if upper then Weight(t - start) else 0))
  {
    hide BitFor, Half, CellOf, Upper, Weight;
    var done := BitsOf(lon, lat, t);
    var next := BitFor(lon, lat, b, t % 2 == 0);
    CellNext(done, next);
    assert (done + [next])[start..] == done[start..] + [next];
    UpperNext(done[start..], next);
  }

  lemma Restart(lon: real, lat: real, start: nat, b: Box, ch: nat)
    requires AtBit(lon, lat, start, start + 5, b, ch)
    ensures AtBit(lon, lat, start + 5, start + 5, b, 0) && ch == Upper(BitsOf(lon, lat, start + 5)[start..])
  {
    hide CellOf;
  }

  lemma UpperNext(bits: seq<bool>, bit: bool)
    requires |bits| < 5
    ensures Upper(bits + [bit]) == Upper(bits) + (if bit then Weight(|bits|) else 0)
  {
  }

  /** bits[] = {16, 8, 4, 2, 1}; or-ing one in, when it is not there yet, adds it. */
  function Weight(bit: nat): nat
    requires bit < 5
  {
    [16, 8, 4, 2, 1][bit]
  }

  /** One turn of the loop: the half of the cell on the side of the point. */
  method HalveCell(longitude: real, latitude: real, b: Box, isEven: bool) returns (upper: bool, c: Box)
    ensures upper == BitFor(longitude, latitude, b, isEven) && c == Half(b, isEven, upper)
  {
    if isEven {
      var mid := (b.lonMin + b.lonMax) / 2.0;
      if longitude >= mid {
        upper, c := true, b.(lonMin := mid);
      } else {
        upper, c := false, b.(lonMax := mid);
      }
    } else {
      var mid := (b.latMin + b.latMax) / 2.0;
      if latitude >= mid {
        upper, c := true, b.(latMin := mid);
      } else {
        upper, c := false, b.(latMax := mid);
      }
    }
  }

  method GeohashPoint(longitude: real, latitude: real, precision: nat) returns (geohash: string)
    ensures |geohash| == precision && IsHash(geohash, longitude, latitude)
  {
    hide IsHash, Digit, BitFor, Half, AtBit, Weight, Upper, BitsOf, Even;
    var isEven: bool, i: nat := true, 0;
    var bit: nat, ch: nat := 0, 0;
    var cell := WORLD;
    geohash := "";
    EmptyHash(longitude, latitude);
    EvenNext(0);
    while i < precision
      invariant 0 <= bit < 5 && i == |geohash| <= precision && isEven == Even(5 * i + bit)
      invariant AtBit(longitude, latitude, 5 * i, 5 * i + bit, cell, ch)
      invariant IsHash(geohash, longitude, latitude)
      decreases precision - i, 5 - bit
    {
      NextAt(longitude, latitude, 5 * i, 5 * i + bit, cell, ch);
      EvenNext(5 * i + bit);
      var upper;
      upper, cell := HalveCell(longitude, latitude, cell, isEven);
      if upper {
        ch := ch + Weight(bit);
      }
      isEven := !isEven;
      if bit < 4 {
        bit := bit + 1;
      } else {
        Restart(longitude, latitude, 5 * i, cell, ch);
        HashNext(geohash, longitude, latitude, ch);
        geohash := geohash + [Digit(ch)];
        i := i + 1;
        bit := 0;
        ch := 0;
      }
    }
  }

  /** A geohash written out: of 126 degrees west and 48 north, the bits 0, 1, 0, 1, 1. */
  lemma FirstCharacter(s: string)
    requires |s| == 1 && IsHash(s, -126.0, 48.0)
    ensures s == "c"
  {
    hide CellOf, FiveBits, Digit, DigitValue;
    FirstQuarters();
    var d := DigitValue(s[0]);
    assert s[..0] == "" && StringBits("") == [];
    assert StringBits(s) == [] + FiveBits(d);
    assert FiveBits(d) == [false, true, false, true, true];
    UpperBack(d);
    assert d == 11;
    AlphabetIsTable(11);
    assert s == [s[0]];
  }

  lemma FirstQuarters()
    ensures BitsOf(-126.0, 48.0, 5) == [false, true, false, true, true]
  {
    hide CellOf, BitsOf;
    WholeWorld(-126.0, 48.0);
    OneBit(-126.0, 48.0, [], WORLD);
    OneBit(-126.0, 48.0, [false], Box(-180.0, 0.0, -90.0, 90.0));
    OneBit(-126.0, 48.0, [false, true], Box(-180.0, 0.0, 0.0, 90.0));
    OneBit(-126.0, 48.0, [false, true, false], Box(-180.0, -90.0, 0.0, 90.0));
    OneBit(-126.0, 48.0, [false, true, false, true], Box(-180.0, -90.0, 45.0, 90.0));
  }

  lemma OneBit(lon: real, lat: real, bits: seq<bool>, b: Box)
    requires BitsOf(lon, lat, |bits|) == bits && CellOf(bits) == b
    ensures var bit := BitFor(lon, lat, b, |bits| % 2 == 0);
            && BitsOf(lon, lat, |bits| + 1) == bits + [bit]
            && CellOf(bits + [bit]) == Half(b, |bits| % 2 == 0, bit)
  {
    CellNext(bits, BitFor(lon, lat, b, |bits| % 2 == 0));
  }

  lemma WholeWorld(lon: real, lat: real)
    ensures CellOf([]) == WORLD && BitsOf(lon, lat, 0) == []
  {
  }

  lemma EmptyHash(lon: real, lat: real)
    ensures IsHash("", lon, lat) && AtBit(lon, lat, 0, 0, WORLD, 0)
  {
  }

  // ----- decoding -----

  /** decode_geohash_bbox: the cell of the first characters, all of them when the precision is negative
      or too large; an invalid character is an error. */
  method DecodeGeohashBbox(geohash: string, precision: int) returns (ok: bool, b: Box)
    ensures var n := if precision < 0 || precision > |geohash| then |geohash| else precision;
            ok == Valid(geohash[..n]) && (ok ==> b == CellOf(StringBits(geohash[..n])))
  {
    hide DigitValue, CellOf, FiveBits, Half, Even;
    var isEven := true;
    EvenNext(0);
    var lat, lon := new real[2](_ => 0.0), new real[2](_ => 0.0);
    lat[0], lat[1], lon[0], lon[1] := -90.0, 90.0, -180.0, 180.0;
    var n := if precision < 0 || precision > |geohash| then |geohash| else precision;
    EmptyString(geohash);
    for i := 0 to n
      invariant Valid(geohash[..i]) && isEven == Even(5 * i)
      invariant Box(lon[0], lon[1], lat[0], lat[1]) == CellOf(StringBits(geohash[..i]))
    {
      NextCharacter(geohash, i);
      var cd := DigitValue(geohash[i]);
      if cd == 32 {
        InvalidPrefix(geohash, i, n);
        return false, Box(lon[0], lon[1], lat[0], lat[1]);
      }
      isEven := DecodeDigit(cd, isEven, lat, lon, StringBits(geohash[..i]));
    }
    ok := true;
    b := Box(lon[0], lon[1], lat[0], lat[1]);
  }

  /** cd & bits[j]. */
  method MaskedBit(cd: nat, j: nat) returns (on: bool)
    requires j < 5
    ensures on == FiveBits(cd)[j]
  {
    on := cd / Weight(j) % 2 == 1;
  }

  /** The five bits of a character halve the ranges. */
  method DecodeDigit(cd: nat, even: bool, lat: array<real>, lon: array<real>, ghost bits: seq<bool>)
    returns (isEven: bool)
    requires cd < 32 && lat != lon && lat.Length == 2 && lon.Length == 2 && even == Even(|bits|)
    requires Box(lon[0], lon[1], lat[0], lat[1]) == CellOf(bits)
    modifies lat, lon
    ensures isEven == Even(|bits| + 5)
    ensures Box(lon[0], lon[1], lat[0], lat[1]) == CellOf(bits + FiveBits(cd))
  {
    hide CellOf, FiveBits, Half, Even;
    isEven := even;
    ghost var five := FiveBits(cd);
    assert bits + five[..0] == bits;
    for j := 0 to 5
      invariant isEven == Even(|bits| + j)
      invariant Box(lon[0], lon[1], lat[0], lat[1]) == CellOf(bits + five[..j])
    {
      var upper := MaskedBit(cd, j);
      ghost var was := CellOf(bits + five[..j]);
      var k := if upper then 0 else 1;
      if isEven {
        lon[k] := (lon[0] + lon[1]) / 2.0;
      } else {
        lat[k] := (lat[0] + lat[1]) / 2.0;
      }
      HalfParts(was, isEven, upper, Box(lon[0], lon[1], lat[0], lat[1]));
      assert bits + five[..j + 1] == (bits + five[..j]) + [five[j]];
      CellNext(bits + five[..j], five[j]);
      isEven := !isEven;
      EvenNext(|bits| + j);
    }
    assert five[..5] == five;
  }

  lemma EmptyString(s: string)
    ensures Valid(s[..0]) && CellOf(StringBits(s[..0])) == WORLD
  {
  }

  lemma NextCharacter(s: string, i: nat)
    requires i < |s| && Valid(s[..i])
    ensures StringBits(s[..i + 1]) == StringBits(s[..i]) + FiveBits(DigitValue(s[i]))
    ensures Valid(s[..i + 1]) <==> DigitValue(s[i]) < 32
  {
    hide DigitValue, FiveBits;
    assert s[..i + 1][..i] == s[..i];
    if DigitValue(s[i]) < 32 {
      var t := s[..i + 1];
      forall k | 0 <= k < |t| ensures DigitValue(t[k]) < 32 {
        if k < i { assert s[..i][k] == s[k]; }
      }
    } else {
      assert s[..i + 1][i] == s[i];
    }
  }

  lemma InvalidPrefix(s: string, i: nat, n: nat)
    requires i < n <= |s| && DigitValue(s[i]) == 32
    ensures !Valid(s[..n])
  {
    hide DigitValue;
    assert s[..n][i] == s[i];
  }

  lemma HalfParts(b: Box, even: bool, upper: bool, c: Box)
    requires even ==> c == if upper then b.(lonMin := LonMid(b)) else b.(lonMax := LonMid(b))
    requires !even ==> c == if upper then b.(latMin := LatMid(b)) else b.(latMax := LatMid(b))
    ensures c == Half(b, even, upper)
  {
  }

  /** Decoding the geohash of a point of the world gives a cell that contains it. */
  lemma DecodedCellContains(s: string, lon: real, lat: real)
    requires IsHash(s, lon, lat) && Contains(WORLD, lon, lat)
    ensures Contains(CellOf(StringBits(s)), lon, lat)
  {
    CellContains(lon, lat, 5 * |s|);
  }

  lemma {:induction false} SameBitsSameString(s: string, t: string)
    requires |s| == |t| && StringBits(s) == StringBits(t) && Valid(s) && Valid(t)
    requires forall i :: 0 <= i < |s| ==> s[i] == Digit(DigitValue(s[i])) && t[i] == Digit(DigitValue(t[i]))
    ensures s == t
  {
    hide Digit, DigitValue, FiveBits;
    if s != "" {
      var n := |s| - 1;
      var a, b := StringBits(s[..n]), StringBits(t[..n]);
      var c, d := FiveBits(DigitValue(s[n])), FiveBits(DigitValue(t[n]));
      assert a == (a + c)[..5 * n] && c == (a + c)[5 * n..];
      assert b == (b + d)[..5 * n] && d == (b + d)[5 * n..];
      UpperBack(DigitValue(s[n]));
      UpperBack(DigitValue(t[n]));
      SameBitsSameString(s[..n], t[..n]);
      assert s == s[..n] + [s[n]] && t == t[..n] + [t[n]];
    }
  }

  /** Encoding any point of the cell of a lower-case geohash, upper edges aside, gives it back. */
  lemma EncodeAfterDecode(s: string, lon: real, lat: real, h: string)
    requires Valid(s) && forall i :: 0 <= i < |s| ==> s[i] == Digit(DigitValue(s[i]))
    requires HalfOpen(CellOf(StringBits(s)), lon, lat) && IsHash(h, lon, lat) && |h| == |s|
    ensures h == s
  {
    hide CellOf, Digit, DigitValue, BitFor;
    BitsAreUnique(lon, lat, StringBits(s));
    SameBitsSameString(s, h);
  }

  // ----- the precision of a box -----

  /** A box that is not upside down, inside the world. */
  ghost predicate Legal(b: Box) {
    b.lonMin <= b.lonMax && b.latMin <= b.latMax && Within(b, WORLD)
  }

  predicate IsPoint(b: Box) {
    b.lonMin == b.lonMax && b.latMin == b.latMax
  }

  /** The box reaches the line on which the cell would be split next. */
  ghost predicate Straddles(box: Box, b: Box, even: bool) {
    if even then box.lonMin <= LonMid(b) <= box.lonMax else box.latMin <= LatMid(b) <= box.latMax
  }

  /** How many more halvings the sizes allow: the measure of the loop. */
  function Halvings(width: real, size: real): nat
    requires 0.0 < size <= width
  {
    assert width / size * size == width;
    RatioPositive(width, size);
    (width / size).Floor
  }

  lemma RatioPositive(width: real, size: real)
    requires 0.0 < size <= width
    ensures 1.0 <= width / size
  {
    var r := width / size;
    DivideTimes(width, size);
    if r < 1.0 { Smaller(r, size); }
  }

  lemma Smaller(r: real, size: real)
    requires r < 1.0 && 0.0 < size
    ensures r * size < size
  {
    assert (1.0 - r) * size > 0.0;
  }

  lemma HalvingsDrop(width: real, size: real)
    requires 0.0 < size <= width / 2.0
    ensures Halvings(width / 2.0, size) < Halvings(width, size)
  {
    var r := width / size;
    RatioPositive(width / 2.0, size);
    HalfRatio(width, size);
    assert (r / 2.0).Floor as real <= r / 2.0;
    assert (r / 2.0) + 1.0 <= r;
  }

  lemma HalfRatio(width: real, size: real)
    requires 0.0 < size
    ensures width / 2.0 / size == width / size / 2.0
  {
    var a, b := width / 2.0 / size, width / size / 2.0;
    DivideTimes(width / 2.0, size);
    DivideTimes(width, size);
    assert a * size == b * size;
    SameFactor(a, b, size);
  }

  lemma SameFactor(a: real, b: real, size: real)
    requires 0.0 < size && a * size == b * size
    ensures a == b
  {
    if a != b { DifferentProducts(a, b, size); }
  }

  lemma DifferentProducts(a: real, b: real, size: real)
    requires 0.0 < size && a != b
    ensures a * size != b * size
  {
    if a < b { assert (b - a) * size > 0.0; } else { assert (a - b) * size > 0.0; }
  }

  /** Half the box around its centre lies on the side of the line that the box lies on. */
  lemma CentreSide(lo: real, hi: real, mid: real)
    requires lo <= hi
    ensures lo > mid ==> lo + (hi - lo) / 2.0 >= mid
    ensures hi < mid ==> lo + (hi - lo) / 2.0 < mid
  {
  }

  function CentreLon(b: Box): real { b.lonMin + (b.lonMax - b.lonMin) / 2.0 }

  function CentreLat(b: Box): real { b.latMin + (b.latMax - b.latMin) / 2.0 }

  /** The measure in the dimension in which the box has a size. */
  ghost function Room(box: Box, b: Box): nat
    requires Legal(box) && !IsPoint(box) && Within(box, b)
  {
    if box.latMin < box.latMax then Halvings(b.latMax - b.latMin, box.latMax - box.latMin)
    else Halvings(b.lonMax - b.lonMin, box.lonMax - box.lonMin)
  }

  lemma RoomDrops(box: Box, b: Box, c: Box)
    requires Legal(box) && !IsPoint(box) && Within(box, b) && Within(box, c)
    requires c.lonMax - c.lonMin == (b.lonMax - b.lonMin) / 2.0 && c.latMax - c.latMin == (b.latMax - b.latMin) / 2.0
    ensures Room(box, c) < Room(box, b)
  {
    hide Halvings;
    if box.latMin < box.latMax {
      HalvingsDrop(b.latMax - b.latMin, box.latMax - box.latMin);
    } else {
      HalvingsDrop(b.lonMax - b.lonMin, box.lonMax - box.lonMin);
    }
  }

  /** One halving towards the box, or none where the box straddles the line. */
  lemma HalvedTowards(box: Box, b: Box, k: nat)
    requires Legal(box) && b == CellOf(BitsOf(CentreLon(box), CentreLat(box), k)) && Within(box, b)
    requires !Straddles(box, b, k % 2 == 0)
    ensures !StraddlesAt(box, k)
    ensures var c := CellOf(BitsOf(CentreLon(box), CentreLat(box), k + 1));
            && c == Half(b, k % 2 == 0, if k % 2 == 0 then box.lonMin > LonMid(b) else box.latMin > LatMid(b))
            && Within(box, c)
  {
    var bits := BitsOf(CentreLon(box), CentreLat(box), k);
    CentreSide(box.lonMin, box.lonMax, LonMid(b));
    CentreSide(box.latMin, box.latMax, LatMid(b));
    CellNext(bits, BitFor(CentreLon(box), CentreLat(box), b, k % 2 == 0));
  }

  /** The box reaches the line on which the cell of the first k bits of its centre would be split next. */
  ghost predicate StraddlesAt(box: Box, k: nat) {
    Straddles(box, CellOf(BitsOf(CentreLon(box), CentreLat(box), k)), k % 2 == 0)
  }

  /** The cell of the first k bits contains the box, and k is the first number at which the box reaches the
      next line, so that no further bit is known to hold for all of it. */
  ghost predicate Fits(box: Box, k: nat) {
    && Within(box, CellOf(BitsOf(CentreLon(box), CentreLat(box), k)))
    && StraddlesAt(box, k) && forall j: nat :: j < k ==> !StraddlesAt(box, j)
  }

  lemma FitsOnce(box: Box, j: nat, k: nat)
    requires Fits(box, j) && Fits(box, k)
    ensures j == k
  {
  }

  /** lwgeom_geohash_precision: the world is halved towards the box until the box reaches the next
      line. The bounds contain the box and are the cell of the bits of its centre. */
  method GeohashPrecision(box: Box) returns (precision: nat, bounds: Box, ghost bits: nat)
    requires Legal(box)
    ensures IsPoint(box) ==> precision == 20
    ensures !IsPoint(box) ==> precision == bits / 5 && Within(box, bounds)
    ensures !IsPoint(box) ==> bounds == CellOf(BitsOf(CentreLon(box), CentreLat(box), bits))
    ensures !IsPoint(box) ==> Fits(box, bits)
  {
    hide CellOf, BitFor, Room;
    bounds, bits := WORLD, 0;
    if IsPoint(box) { return 20, WORLD, 0; }
    var lonMin, latMin, lonMax, latMax := -180.0, -90.0, 180.0, 90.0;
    precision := 0;
    StartCell(box);
    while true
      invariant precision % 2 == 0 && Within(box, Box(lonMin, lonMax, latMin, latMax))
      invariant Box(lonMin, lonMax, latMin, latMax) == CellOf(BitsOf(CentreLon(box), CentreLat(box), precision))
      invariant forall j: nat :: j < precision ==> !StraddlesAt(box, j)
      decreases Room(box, Box(lonMin, lonMax, latMin, latMax))
    {
      ghost var was := Box(lonMin, lonMax, latMin, latMax);
      var lonWidth, latWidth := lonMax - lonMin, latMax - latMin;
      CellProper(BitsOf(CentreLon(box), CentreLat(box), precision));
      var latMaxAdjust, lonMaxAdjust, latMinAdjust, lonMinAdjust := 0.0, 0.0, 0.0, 0.0;
      if box.lonMin > lonMin + lonWidth / 2.0 {
        lonMinAdjust := lonWidth / 2.0;
      } else if box.lonMax < lonMax - lonWidth / 2.0 {
        lonMaxAdjust := -1.0 * lonWidth / 2.0;
      }
      if lonMinAdjust != 0.0 || lonMaxAdjust != 0.0 {
        HalvedTowards(box, was, precision);
        lonMin := lonMin + lonMinAdjust;
        lonMax := lonMax + lonMaxAdjust;
        precision := precision + 1;
      } else {
        break;
      }
      ghost var mid := Box(lonMin, lonMax, latMin, latMax);
      if box.latMin > latMin + latWidth / 2.0 {
        latMinAdjust := latWidth / 2.0;
      } else if box.latMax < latMax - latWidth / 2.0 {
        latMaxAdjust := -1.0 * latWidth / 2.0;
      }
      if latMinAdjust != 0.0 || latMaxAdjust != 0.0 {
        HalvedTowards(box, mid, precision);
        latMin := latMin + latMinAdjust;
        latMax := latMax + latMaxAdjust;
        precision := precision + 1;
        RoomDrops(box, was, Box(lonMin, lonMax, latMin, latMax));
      } else {
        break;
      }
    }
    bits := precision;
    bounds := Box(lonMin, lonMax, latMin, latMax);
    precision := precision / 5;
  }

  lemma StartCell(box: Box)
    ensures CellOf(BitsOf(CentreLon(box), CentreLat(box), 0)) == WORLD
  {
  }

  lemma CellStep(lon: real, lat: real, k: nat)
    ensures Within(CellOf(BitsOf(lon, lat, k + 1)), CellOf(BitsOf(lon, lat, k)))
  {
    hide CellOf, BitFor, Half;
    var bits := BitsOf(lon, lat, k);
    var bit := BitFor(lon, lat, CellOf(bits), k % 2 == 0);
    CellProper(bits);
    CellNext(bits, bit);
    HalfWithin(CellOf(bits), k % 2 == 0, bit);
  }

  lemma {:induction false} CellsShrink(lon: real, lat: real, j: nat, k: nat)
    requires j <= k
    ensures Within(CellOf(BitsOf(lon, lat, k)), CellOf(BitsOf(lon, lat, j)))
    decreases k
  {
    hide CellOf, BitsOf, Within;
    if j < k {
      CellsShrink(lon, lat, j, k - 1);
      CellStep(lon, lat, k - 1);
      WithinTrans(CellOf(BitsOf(lon, lat, k)), CellOf(BitsOf(lon, lat, k - 1)), CellOf(BitsOf(lon, lat, j)));
    } else {
      WithinItself(CellOf(BitsOf(lon, lat, k)));
    }
  }

  lemma WithinItself(b: Box)
    ensures Within(b, b)
  {
  }

  lemma HalfWithin(b: Box, even: bool, upper: bool)
    requires Proper(b)
    ensures Within(Half(b, even, upper), b)
  {
  }

  lemma WithinTrans(a: Box, b: Box, c: Box)
    requires Within(a, b) && Within(b, c)
    ensures Within(a, c)
  {
  }

  /** The geohash of the centre, cut to the precision found, decodes to a cell around the whole box. */
  lemma PrecisionIsSafe(box: Box, precision: nat, bits: nat, s: string)
    requires Legal(box) && precision == bits / 5 && IsHash(s, CentreLon(box), CentreLat(box)) && |s| == precision
    requires Within(box, CellOf(BitsOf(CentreLon(box), CentreLat(box), bits)))
    ensures Within(box, CellOf(StringBits(s)))
  {
    hide CellOf, BitFor;
    CellsShrink(CentreLon(box), CentreLat(box), 5 * precision, bits);
    WithinTrans(box, CellOf(BitsOf(CentreLon(box), CentreLat(box), bits)), CellOf(StringBits(s)));
  }

  lemma FitsWithin(box: Box, k: nat)
    requires Fits(box, k)
    ensures Within(box, CellOf(BitsOf(CentreLon(box), CentreLat(box), k)))
  {
  }

  /** lwgeom_geohash on the box of a geometry: an error outside the world; with no precision asked for,
      the cell of the result contains the whole box, and the result has as many characters as the bits
      up to the first line that the box reaches fill, or twenty for a point. */
  method LwgeomGeohash(box: Box, precision: int) returns (ok: bool, geohash: string)
    requires box.lonMin <= box.lonMax && box.latMin <= box.latMax
    ensures ok <==> Within(box, WORLD)
    ensures ok ==> IsHash(geohash, CentreLon(box), CentreLat(box)) && (precision > 0 ==> |geohash| == precision)
    ensures ok && precision <= 0 ==> Within(box, CellOf(StringBits(geohash)))
    ensures ok && precision <= 0 && IsPoint(box) ==> |geohash| == 20
    ensures ok && precision <= 0 && !IsPoint(box) ==> exists k: nat :: Fits(box, k) && |geohash| == k / 5
  {
    hide CellOf, IsHash, BitFor, Fits;
    geohash := "";
    if box.lonMin < -180.0 || box.latMin < -90.0 || box.lonMax > 180.0 || box.latMax > 90.0 {
      return false, "";
    }
    var lon, lat := CentreLon(box), CentreLat(box);
    var n := precision;
    if n <= 0 {
      var fitting, bounds, bits := GeohashPrecision(box);
      n := fitting;
      geohash := GeohashPoint(lon, lat, n);
      if IsPoint(box) {
        DecodedCellContains(geohash, lon, lat);
      } else {
        FitsWithin(box, bits);
        PrecisionIsSafe(box, n, bits, geohash);
      }
    } else {
      geohash := GeohashPoint(lon, lat, n);
    }
    ok := true;
  }
}
