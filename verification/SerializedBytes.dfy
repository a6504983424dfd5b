/** Serialized values byte by byte, as the comment at the head of liblwgeom/gserialized2.c lays them out: this
    fixes the numbers that writing and reading only have to agree on. */
module SerializedBytes {
  import opened Arith
  import opened ByteOrder
  import opened Serialized
  import opened SerializedBox
  import opened SerializedRecord
  import Lookup3

  /** Byte i of a number in k bytes, the lowest first. */
  lemma {:induction false} LittleDigit(v: nat, k: nat, i: nat)
    requires i < k
    ensures Little(v, k)[i] == v / Pow256(i) % 256
  {
    if i > 0 {
      LittleDigit(v / 256, k - 1, i - 1);
      DivDiv(v, 256, Pow256(i - 1));
    }
  }

  /** A number below 256 in four or eight bytes. */
  lemma SmallNumber(n: byte)
    ensures Little(n, 4) == [n, 0, 0, 0] && Little(n, 8) == [n, 0, 0, 0, 0, 0, 0, 0]
  {
    assert Little(0, 3) == [0, 0, 0];
    assert Little(0, 7) == [0, 0, 0] + Little(0, 4);
  }

  /** The bits of the flag byte, beside that of the version. */
  lemma FlagNumbers()
    ensures GFlags(Flags(false, false, false, false, false, false)) == 0x40
    ensures GFlags(Flags(true, false, false, false, false, false)) == 0x41
    ensures GFlags(Flags(false, true, false, false, false, false)) == 0x42
    ensures GFlags(Flags(false, false, true, false, false, false)) == 0x44
    ensures GFlags(Flags(false, false, false, true, false, false)) == 0x48
    ensures GFlags(Flags(false, false, false, false, true, false)) == 0x50
    ensures GFlags(Flags(false, false, false, false, false, true)) == 0x50
  {
  }

  /** A point of the plane: four times its 32 bytes, the srid, the flags, type 1, one point, x and y. */
  lemma PointRecord(x: Ordinate, y: Ordinate, srid: nat)
    requires srid <= 999999
    ensures Record(Lwgeom(Point([[x, y]]), Flags(false, false, false, false, false, false), srid, [])) ==
            [128, 0, 0, 0, srid / 0x1_0000, srid / 0x100 % 0x100, srid % 0x100, 0x40]
            + ([1, 0, 0, 0, 1, 0, 0, 0] + (Little(x, 8) + Little(y, 8)))
  {
    hide Little, Front, Bytes, GFlags;
    var g := Point([[x, y]]);
    var flags := Flags(false, false, false, false, false, false);
    PointBytes(x, y);
    FlagNumbers();
    FrontBytes(32, srid, 0x40);
    var front, none: seq<byte> := Front(32, srid, 0x40), [];
    assert none + (none + Bytes(g)) == Bytes(g);
    assert Record(Lwgeom(g, flags, srid, [])) == front + Bytes(g);
  }

  lemma FrontBytes(total: nat, srid: nat, flags: byte)
    requires total < 64 && srid <= 999999
    ensures Front(total, srid, flags) ==
            [4 * total, 0, 0, 0, srid / 0x1_0000, srid / 0x100 % 0x100, srid % 0x100, flags]
  {
    hide Little;
    SmallNumber(4 * total);
    assert srid / 0x1_0000 % 32 == srid / 0x1_0000;
  }

  lemma PointBytes(x: Ordinate, y: Ordinate)
    ensures Bytes(Point([[x, y]])) == [1, 0, 0, 0, 1, 0, 0, 0] + (Little(x, 8) + Little(y, 8))
  {
    hide Little;
    SmallNumber(1);
    OneCoordinate(x, y);
  }

  lemma OneCoordinate(x: Ordinate, y: Ordinate)
    ensures PointsBytes([[x, y]]) == CoordinateBytes([x, y]) == Little(x, 8) + Little(y, 8)
  {
    hide Little;
    assert [x, y][1..] == [y] && [y][1..] == [];
    assert [[x, y]][1..] == [];
    assert CoordinateBytes([y]) == Little(y, 8) + [];
    assert CoordinateBytes([x, y]) == Little(x, 8) + CoordinateBytes([y]);
    assert PointsBytes([[x, y]]) == CoordinateBytes([x, y]) + [];
  }

  /** A polygon with one ring is padded, one with two rings is not; the counts come before all points. */
  lemma PolygonBytes(c: Coordinate, d: Coordinate)
    ensures Bytes(Polygon([[c]])) == [3, 0, 0, 0, 1, 0, 0, 0, 1, 0, 0, 0, 0, 0, 0, 0] + CoordinateBytes(c)
    ensures Bytes(Polygon([[c, d], [d]])) ==
            [3, 0, 0, 0, 2, 0, 0, 0, 2, 0, 0, 0, 1, 0, 0, 0]
            + (CoordinateBytes(c) + CoordinateBytes(d) + CoordinateBytes(d))
  {
    hide Little, CoordinateBytes, RingCounts, RingsBytes, PointsBytes;
    OnePoint(c);
    RingBytes([c]);
    SmallNumber(0);
    SmallNumber(1);
    SmallNumber(2);
    SmallNumber(3);
    assert Padding(1) == [0, 0, 0, 0] && Padding(2) == [];
    TwoRings(c, d);
  }

  lemma OnePoint(c: Coordinate)
    ensures PointsBytes([c]) == CoordinateBytes(c)
  {
    hide CoordinateBytes;
    assert [c][1..] == [];
    assert PointsBytes([c]) == CoordinateBytes(c) + PointsBytes([]);
  }

  lemma TwoRings(c: Coordinate, d: Coordinate)
    ensures RingCounts([[c, d], [d]]) == Little(2, 4) + Little(1, 4)
    ensures RingsBytes([[c, d], [d]]) == CoordinateBytes(c) + CoordinateBytes(d) + CoordinateBytes(d)
  {
    hide Little, CoordinateBytes;
    RingBytes([d]);
    OnePoint(d);
    assert [c, d][1..] == [d] && [[c, d], [d]][1..] == [[d]];
    assert PointsBytes([c, d]) == CoordinateBytes(c) + PointsBytes([d]);
    assert RingCounts([[c, d], [d]]) == Little(2, 4) + RingCounts([[d]]);
    assert RingsBytes([[c, d], [d]]) == PointsBytes([c, d]) + RingsBytes([[d]]);
  }

  lemma RingBytes(ring: PointArray)
    ensures RingCounts([ring]) == Little(|ring|, 4) && RingsBytes([ring]) == PointsBytes(ring)
  {
    hide Little, PointsBytes;
    assert [ring][1..] == [];
    assert RingCounts([ring]) == Little(|ring|, 4) + [];
    assert RingsBytes([ring]) == PointsBytes(ring) + [];
  }

  /** The members of a collection follow its type and their number. */
  lemma CollectionBytes(kind: byte, g: Geometry, h: Geometry)
    ensures Bytes(Collection(kind, [g, h])) == [kind, 0, 0, 0, 2, 0, 0, 0] + (Bytes(g) + Bytes(h))
  {
    hide Little;
    SmallNumber(kind);
    SmallNumber(2);
    assert [g, h][1..] == [h] && [h][1..] == [];
    assert AllBytes([h]) == Bytes(h) + [];
    assert AllBytes([g, h]) == Bytes(g) + AllBytes([h]);
  }

  /** In front of the geometry stand the extended flags, of which the lowest bit says solid, and the box: for
      each dimension the lower and then the upper end. */
  lemma BoxedRecord(near: real -> Float, g: Geometry, x: Range, y: Range, total: nat)
    requires total == 32 + |Bytes(g)|
    ensures Record(Lwgeom(g, Flags(false, false, true, false, false, true), 0, FloatsOf(near, [x, y]))) ==
            Little(4 * total, 4) + [0, 0, 0, 0x54, 1, 0, 0, 0, 0, 0, 0, 0]
            + (Little(near(x.min), 4) + Little(near(x.max), 4) + Little(near(y.min), 4) + Little(near(y.max), 4)
               + Bytes(g))
  {
    hide Little, Bytes;
    var flags := Flags(false, false, true, false, false, true);
    var box := [near(x.min), near(x.max), near(y.min), near(y.max)];
    BoxFloats(near, x, y);
    SmallNumber(1);
    FourFloats(near(x.min), near(x.max), near(y.min), near(y.max));
    assert GFlags(flags) == 0x54;
    assert Front(total, 0, 0x54) == Little(4 * total, 4) + [0, 0, 0, 0x54];
    assert ExtendedBytes(flags) == [1, 0, 0, 0, 0, 0, 0, 0];
  }

  /** The hash is that of the srid in four bytes and the geometry, flags and box left out. */
  lemma KeyOfRecord(w: Lwgeom)
    requires Consistent(w) && Total(w) < SIZE_LIMIT
    ensures var rec := Record(w);
            && 8 <= |rec| && HeaderSize(rec[7]) <= |rec|
            && HashKey(rec) == Little(w.srid, 4) + Bytes(w.geom)
            && var h := Lookup3.Hash(Little(w.srid, 4) + Bytes(w.geom), 0, 0);
               GHash(rec) == Lookup3.Xor(h.b, h.c)
  {
    hide Record, Bytes, HasBox, HasExtended, WellFormed, Little, Lookup3.Hash, Lookup3.Xor;
    RecordIsSized(w);
    SridRead(Record(w), w.srid);
  }

  lemma BoxFloats(near: real -> Float, x: Range, y: Range)
    ensures FloatsOf(near, [x, y]) == [near(x.min), near(x.max), near(y.min), near(y.max)]
  {
    assert [x, y][1..] == [y] && [y][1..] == [];
    assert FloatsOf(near, [y]) == Ends(near, y) + FloatsOf(near, []);
  }

  lemma FourFloats(a: Float, b: Float, c: Float, d: Float)
    ensures FloatBytes([a, b, c, d]) == Little(a, 4) + Little(b, 4) + Little(c, 4) + Little(d, 4)
  {
    hide Little;
    assert [a, b, c, d][1..] == [b, c, d] && [b, c, d][1..] == [c, d] && [c, d][1..] == [d] && [d][1..] == [];
    assert FloatBytes([d]) == Little(d, 4) + [];
    assert FloatBytes([c, d]) == Little(c, 4) + FloatBytes([d]);
    assert FloatBytes([b, c, d]) == Little(b, 4) + FloatBytes([c, d]);
    assert FloatBytes([a, b, c, d]) == Little(a, 4) + FloatBytes([b, c, d]);
  }
}
