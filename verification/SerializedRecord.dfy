/** Whole serialized values: header, optional extended flags, optional box and geometry. Writing and
    reading them, storing and dropping the box, and the hash (liblwgeom/gserialized2.c). */
module SerializedRecord {
  import opened ByteOrder
  import opened Serialized
  import opened SerializedCode
  import opened SerializedScan
  import opened SerializedBox
  import Lookup3

  /** The flags of a geometry in memory. */
  datatype Flags = Flags(z: bool, m: bool, bbox: bool, geodetic: bool, readonly: bool, solid: bool)

  /** A float, as the number its four bytes stand for. */
  type Float = x: int | 0 <= x < 0x1_0000_0000

  /** A geometry with its srid and, when it has one, its box, already rounded to floats. */
  datatype Lwgeom = Lwgeom(geom: Geometry, flags: Flags, srid: int, box: seq<Float>)

  function Bit(on: bool, v: nat): nat {
    if on then v else 0
  }

  predicate UsesExtended(f: Flags) {
    f.readonly || f.solid
  }

  /** The flag byte, with the version bit set. */
  function GFlags(f: Flags): byte {
    Bit(f.z, 1) + Bit(f.m, 2) + Bit(f.bbox, 4) + Bit(f.geodetic, 8) + Bit(UsesExtended(f), 16) + 64
  }

  predicate HasZ(b: byte) { b % 2 == 1 }
  predicate HasM(b: byte) { b / 2 % 2 == 1 }
  predicate HasBox(b: byte) { b / 4 % 2 == 1 }
  predicate HasGeodetic(b: byte) { b / 8 % 2 == 1 }
  predicate HasExtended(b: byte) { b / 16 % 2 == 1 }

  lemma FlagsRead(f: Flags)
    ensures var b := GFlags(f);
            && HasZ(b) == f.z && HasM(b) == f.m && HasBox(b) == f.bbox && HasGeodetic(b) == f.geodetic
            && HasExtended(b) == UsesExtended(f)
  {
  }

  /** The number of dimensions of a box: a geodetic box is always geocentric. */
  function BoxDims(b: byte): (n: nat)
    ensures 2 <= n <= 4
  {
    if HasGeodetic(b) then 3 else Dims(HasZ(b), HasM(b))
  }

  function BoxSize(b: byte): nat {
    2 * BoxDims(b) * 4
  }

  /** Where the box, or else the geometry, starts: after the extended flags, if there are any. */
  function DataStart(b: byte): nat {
    if HasExtended(b) then 16 else 8
  }

  function HeaderSize(b: byte): nat {
    DataStart(b) + if HasBox(b) then BoxSize(b) else 0
  }

  function FloatBytes(fs: seq<Float>): (s: seq<byte>)
    ensures |s| == 4 * |fs|
  {
    if fs == [] then [] else Little(fs[0], 4) + FloatBytes(fs[1..])
  }

  function ReadFloats(buf: seq<byte>, at: nat, n: nat): (fs: seq<Float>)
    requires at + 4 * n <= |buf|
    ensures |fs| == n
    decreases n
  {
    if n == 0 then [] else [Uint32(buf, at)] + ReadFloats(buf, at + 4, n - 1)
  }

  lemma {:induction false} ReadsFloats(buf: seq<byte>, at: nat, fs: seq<Float>)
    requires At(buf, at, FloatBytes(fs))
    ensures at + 4 * |fs| <= |buf| && ReadFloats(buf, at, |fs|) == fs
    decreases fs
  {
    hide Uint32;
    if fs != [] {
      AtSplit(buf, at, Little(fs[0], 4), FloatBytes(fs[1..]));
      ReadsUint32(buf, at, fs[0]);
      ReadsFloats(buf, at + 4, fs[1..]);
    }
  }

  // ----- size and srid -----

  /** Three bytes of the srid in two's complement, the highest with five bits. */
  function SridBytes(srid: int): (s: seq<byte>)
    ensures |s| == 3
  {
    [srid / 0x1_0000 % 32, srid / 0x100 % 256, srid % 256]
  }

  /** The 21 bits as a signed number. */
  function Srid(rec: seq<byte>): int
    requires 8 <= |rec|
  {
    var v := (0x1_0000 * (rec[4] as int) + 0x100 * (rec[5] as int) + rec[6] as int) % 0x20_0000;
    if v < 0x10_0000 then v else v - 0x20_0000
  }

  lemma SridRead(rec: seq<byte>, srid: int)
    requires 8 <= |rec| && rec[4..7] == SridBytes(srid) && -0x10_0000 <= srid < 0x10_0000
    ensures Srid(rec) == srid
  {
    assert rec[4] == rec[4..7][0] && rec[5] == rec[4..7][1] && rec[6] == rec[4..7][2];
    SridDigits(srid);
  }

  lemma SridDigits(srid: int)
    requires -0x10_0000 <= srid < 0x10_0000
    ensures srid / 0x1_0000 % 32 * 0x1_0000 + srid / 0x100 % 256 * 0x100 + srid % 256 ==
            if srid < 0 then srid + 0x20_0000 else srid
  {
    var q := srid / 0x100;
    assert q / 0x100 == srid / 0x1_0000;
    assert q == q / 0x100 * 0x100 + q % 0x100 && srid == q * 0x100 + srid % 0x100;
    assert -16 <= srid / 0x1_0000 < 16;
  }

  /** LWSIZE_GET. */
  function StoredSize(rec: seq<byte>): nat
    requires 4 <= |rec|
  {
    Uint32(rec, 0) / 4 % SIZE_LIMIT
  }

  lemma SizeRead(rec: seq<byte>, n: nat)
    requires At(rec, 0, Little(4 * n, 4)) && n < SIZE_LIMIT
    ensures 4 <= |rec| && StoredSize(rec) == n
  {
    ReadsUint32(rec, 0, 4 * n);
  }

  // ----- a whole value -----

  /** The first eight bytes. */
  function Front(total: nat, srid: int, flags: byte): (s: seq<byte>)
    ensures |s| == 8
  {
    Little(4 * total, 4) + SridBytes(srid) + [flags]
  }

  function ExtendedBytes(f: Flags): (s: seq<byte>)
    ensures |s| == if UsesExtended(f) then 8 else 0
  {
    if UsesExtended(f) then Little(Bit(f.solid, 1), 8) else []
  }

  /** One dimensionality in flags, geometry and box; the srid is one that clamp_srid can produce. */
  predicate Consistent(w: Lwgeom) {
    && WellFormed(w.geom, Dims(w.flags.z, w.flags.m))
    && 0 <= w.srid <= 999999
    && |w.box| == (if w.flags.bbox then 2 * BoxDims(GFlags(w.flags)) else 0)
  }

  function Total(w: Lwgeom): nat {
    8 + |ExtendedBytes(w.flags)| + 4 * |w.box| + |Bytes(w.geom)|
  }

  function Record(w: Lwgeom): (s: seq<byte>)
    ensures |s| == Total(w)
  {
    Front(Total(w), w.srid, GFlags(w.flags)) + (ExtendedBytes(w.flags) + (FloatBytes(w.box) + Bytes(w.geom)))
  }

  lemma RecordParts(w: Lwgeom, buf: seq<byte>)
    requires buf == Record(w)
    ensures var e := 8 + |ExtendedBytes(w.flags)|;
            && At(buf, 0, Front(Total(w), w.srid, GFlags(w.flags))) && At(buf, 8, ExtendedBytes(w.flags))
            && At(buf, e, FloatBytes(w.box)) && At(buf, e + 4 * |w.box|, Bytes(w.geom))
  {
    hide Front, ExtendedBytes, FloatBytes, Bytes, At, GFlags;
    AtWhole(buf);
    AtSplit(buf, 0, Front(Total(w), w.srid, GFlags(w.flags)),
            ExtendedBytes(w.flags) + (FloatBytes(w.box) + Bytes(w.geom)));
    AtSplit(buf, 8, ExtendedBytes(w.flags), FloatBytes(w.box) + Bytes(w.geom));
    AtSplit(buf, 8 + |ExtendedBytes(w.flags)|, FloatBytes(w.box), Bytes(w.geom));
  }

  lemma AtWhole(buf: seq<byte>)
    ensures At(buf, 0, buf)
  {
  }

  lemma FrontRead(buf: seq<byte>, total: nat, srid: int, flags: byte)
    requires At(buf, 0, Front(total, srid, flags)) && total < SIZE_LIMIT && 0 <= srid < 0x10_0000
    ensures 8 <= |buf| && StoredSize(buf) == total && Srid(buf) == srid && buf[7] == flags
  {
    hide StoredSize, Srid, SridBytes, At, Little;
    AtSplit(buf, 0, Little(4 * total, 4) + SridBytes(srid), [flags]);
    AtSplit(buf, 0, Little(4 * total, 4), SridBytes(srid));
    SizeRead(buf, total);
    PartsAt(buf, srid, flags);
    SridRead(buf, srid);
  }

  lemma PartsAt(buf: seq<byte>, srid: int, flags: byte)
    requires At(buf, 4, SridBytes(srid)) && At(buf, 7, [flags])
    ensures 8 <= |buf| && buf[4..7] == SridBytes(srid) && buf[7] == flags
  {
    assert buf[7..8][0] == buf[7];
  }

  /** The writing part of gserialized2_from_lwgeom: the bytes, and a length equal to the size computed
      beforehand. */
  method FromLwgeom(w: Lwgeom) returns (g: array<byte>, returnSize: nat)
    requires Consistent(w) && Total(w) < SIZE_LIMIT
    ensures fresh(g) && g[..] == Record(w) && returnSize == g.Length
  {
    hide Wrote, Bytes, Front, ExtendedBytes, FloatBytes, GFlags, WellFormed;
    var dims := Dims(w.flags.z, w.flags.m);
    var expectedSize := 8;
    if UsesExtended(w.flags) { expectedSize := expectedSize + 8; }
    if w.flags.bbox { expectedSize := expectedSize + 4 * |w.box|; }
    var size := SizeOf(w.geom, dims);
    expectedSize := expectedSize + size;
    assert expectedSize == Total(w);
    g := new byte[expectedSize];
    ghost var s0 := g[..];
    var ptr := 0;
    Copy(g, ptr, Front(expectedSize, w.srid, GFlags(w.flags)));
    ghost var s1 := g[..];
    ptr := ptr + 8;
    Copy(g, ptr, ExtendedBytes(w.flags));
    ghost var s2 := g[..];
    ptr := ptr + |ExtendedBytes(w.flags)|;
    Copy(g, ptr, FloatBytes(w.box));
    ghost var s3 := g[..];
    ptr := ptr + 4 * |w.box|;
    size := WriteAny(w.geom, dims, g, ptr);
    ptr := ptr + size;
    returnSize := ptr;
    assert expectedSize == returnSize;
    RecordAssembled(w, s0, s1, s2, s3, g[..]);
  }

  lemma RecordAssembled(w: Lwgeom, s0: seq<byte>, s1: seq<byte>, s2: seq<byte>, s3: seq<byte>, s4: seq<byte>)
    requires |s0| == Total(w) == |s4|
    requires Wrote(s0, s1, 0, Front(Total(w), w.srid, GFlags(w.flags))) && Wrote(s1, s2, 8, ExtendedBytes(w.flags))
    requires Wrote(s2, s3, 8 + |ExtendedBytes(w.flags)|, FloatBytes(w.box))
    requires Wrote(s3, s4, 8 + |ExtendedBytes(w.flags)| + 4 * |w.box|, Bytes(w.geom))
    ensures s4 == Record(w)
  {
    hide Wrote, Front, ExtendedBytes, FloatBytes, Bytes, GFlags;
    var e := 8 + |ExtendedBytes(w.flags)|;
    WroteMore(s2, s3, s4, e, FloatBytes(w.box), Bytes(w.geom));
    WroteMore(s1, s2, s4, 8, ExtendedBytes(w.flags), FloatBytes(w.box) + Bytes(w.geom));
    WroteMore(s0, s1, s4, 0, Front(Total(w), w.srid, GFlags(w.flags)),
              ExtendedBytes(w.flags) + (FloatBytes(w.box) + Bytes(w.geom)));
    WroteAll(s0, s4, Record(w));
  }

  lemma WroteAll(was: seq<byte>, now: seq<byte>, s: seq<byte>)
    requires Wrote(was, now, 0, s) && |was| == |s|
    ensures now == s
  {
  }

  datatype Loaded = Loaded(value: Lwgeom) | Broken

  /** lwgeom_from_gserialized2 up to the calculation of a missing box. */
  method ToLwgeom(buf: seq<byte>) returns (r: Loaded)
    ensures r == Load(buf)
  {
    hide Uint32, Parse, Srid, ReadFloats, HasZ, HasM, HasBox, HasGeodetic, HasExtended;
    if |buf| < 8 { return Broken; }
    var srid := Srid(buf);
    var flags := buf[7];
    var solid := false;
    var dataPtr := 8;
    if HasExtended(flags) {
      if |buf| < 16 { return Broken; }
      solid := Uint32(buf, 8) % 2 == 1;
      dataPtr := dataPtr + 8;
    }
    var fbox: seq<Float> := [];
    if HasBox(flags) {
      if dataPtr + BoxSize(flags) > |buf| { return Broken; }
      fbox := ReadFloats(buf, dataPtr, 2 * BoxDims(flags));
      dataPtr := dataPtr + BoxSize(flags);
    }
    var parsed := ReadAny(buf, dataPtr, Dims(HasZ(flags), HasM(flags)));
    if parsed.Bad? { return Broken; }
    var lwflags := Flags(HasZ(flags), HasM(flags), HasBox(flags), HasGeodetic(flags), false, solid);
    r := Loaded(Lwgeom(parsed.geom, lwflags, srid, fbox));
  }

  function Load(buf: seq<byte>): Loaded {
    if |buf| < 8 || |buf| < HeaderSize(buf[7]) then Broken
    else
      var flags := buf[7];
      var e := if HasExtended(flags) then 16 else 8;
      var parsed := Parse(buf, HeaderSize(flags), Dims(HasZ(flags), HasM(flags)));
      if parsed.Bad? then Broken
      else
        var solid := HasExtended(flags) && Uint32(buf, 8) % 2 == 1;
        var fbox := if HasBox(flags) then ReadFloats(buf, e, 2 * BoxDims(flags)) else [];
        Loaded(Lwgeom(parsed.geom, Flags(HasZ(flags), HasM(flags), HasBox(flags), HasGeodetic(flags), false, solid),
                      Srid(buf), fbox))
  }

  /** lwgeom_from_gserialized2 on a written value: the value and, where none is stored and one is
      needed, the box calculated for it. */
  method LoadWithBox(fl: Floats, buf: seq<byte>, box: SerializedBox.Box, ghost w: Lwgeom)
    returns (r: Loaded, calculated: bool)
    requires Consistent(w) && Total(w) < SIZE_LIMIT && SubtypesAllowed(w.geom) && buf == Record(w)
    requires !w.flags.geodetic
    modifies box
    ensures r == Loaded(w.(flags := w.flags.(readonly := false)))
    ensures var spans := BoxSpans(fl, w.geom, Dims(w.flags.z, w.flags.m));
            && (calculated <==> !w.flags.bbox && NeedsBbox(w.geom) && spans != [])
            && (calculated ==> box.ShowsHull(spans, w.flags.z, w.flags.m))
  {
    hide Record, Load, NeedsBbox, BoxSpans, WellFormed;
    WholeRoundTrip(w);
    r := ToLwgeom(buf);
    var value := r.value;
    calculated := false;
    if !value.flags.bbox && NeedsBbox(value.geom) {
      box.hasZ, box.hasM := value.flags.z, value.flags.m;
      calculated := CalculateGbox(fl, value.geom, value.flags.z, value.flags.m, box);
    }
  }

  /** Loading a written value gives it back, except that the read-only flag is not stored; it is
      refused exactly when a collection holds a member it does not allow. */
  lemma WholeRoundTrip(w: Lwgeom)
    requires Consistent(w) && Total(w) < SIZE_LIMIT
    ensures Load(Record(w)) ==
            if SubtypesAllowed(w.geom) then Loaded(w.(flags := w.flags.(readonly := false))) else Broken
  {
    hide At, Front, FloatBytes, Bytes, Uint32, Parse, Srid, StoredSize, ReadFloats, SubtypesAllowed, WellFormed, GFlags;
    hide HasZ, HasM, HasBox, HasGeodetic, HasExtended, ExtendedBytes;
    var buf := Record(w);
    var flags := GFlags(w.flags);
    RecordParts(w, buf);
    FrontRead(buf, Total(w), w.srid, flags);
    FlagsRead(w.flags);
    SolidRead(w.flags, buf);
    ReadsFloats(buf, 8 + |ExtendedBytes(w.flags)|, w.box);
    RoundTrip(w.geom, Dims(w.flags.z, w.flags.m), buf, HeaderSize(flags));
  }

  lemma SolidRead(f: Flags, buf: seq<byte>)
    requires At(buf, 8, ExtendedBytes(f))
    ensures UsesExtended(f) ==> 16 <= |buf| && (Uint32(buf, 8) % 2 == 1 <==> f.solid)
  {
    hide Little, At, Uint32, Bit;
    if UsesExtended(f) {
      BitIs(f.solid);
      SolidWord(buf, Bit(f.solid, 1));
    }
  }

  lemma BitIs(on: bool)
    ensures Bit(on, 1) == if on then 1 else 0
  {
  }

  lemma SolidWord(buf: seq<byte>, v: nat)
    requires v < 2 && At(buf, 8, Little(v, 8))
    ensures 16 <= |buf| && Uint32(buf, 8) == v
  {
    hide Little, Uint32, Zeros;
    LittleBit(v, 4);
    AtSplit(buf, 8, Little(v, 4), Zeros(4));
    ReadsUint32(buf, 8, v);
  }

  function Zeros(n: nat): (s: seq<byte>)
    ensures |s| == n
  {
    seq(n, _ => 0)
  }

  lemma LittleBit(v: nat, n: nat)
    requires v < 2 && 0 < n
    ensures Little(v, 4 + n) == Little(v, 4) + Zeros(n)
  {
    hide Little;
    LittleUnfold(v, 4 + n);
    LittleUnfold(v, 4);
  }

  lemma LittleUnfold(v: nat, n: nat)
    requires v < 2 && 0 < n
    ensures Little(v, n) == [v] + Zeros(n - 1)
  {
    NoBits(n - 1);
  }

  lemma {:induction false} NoBits(n: nat)
    ensures Little(0, n) == Zeros(n)
  {
    if 0 < n { NoBits(n - 1); }
  }

  // ----- storing and dropping the box, and the hash -----

  /** A value whose stored size is its length and which has room for its extended flags and its box. */
  ghost predicate Sized(rec: seq<byte>) {
    8 <= |rec| < SIZE_LIMIT && HeaderSize(rec[7]) <= |rec| && At(rec, 0, Little(4 * |rec|, 4))
  }

  lemma SizeIsLength(rec: seq<byte>)
    requires Sized(rec)
    ensures StoredSize(rec) == |rec|
  {
    SizeRead(rec, |rec|);
  }

  function Body(rec: seq<byte>): seq<byte>
    requires 8 <= |rec| && HeaderSize(rec[7]) <= |rec|
  {
    rec[HeaderSize(rec[7])..]
  }

  function Box(rec: seq<byte>): seq<Float>
    requires 8 <= |rec| && HeaderSize(rec[7]) <= |rec| && HasBox(rec[7])
  {
    ReadFloats(rec, DataStart(rec[7]), 2 * BoxDims(rec[7]))
  }

  /** An int32 seen as four bytes. */
  function IntBytes(v: int): (s: seq<byte>)
    requires -0x8000_0000 <= v < 0x8000_0000
    ensures |s| == 4
  {
    Little(if v < 0 then v + 0x1_0000_0000 else v, 4)
  }

  function WithBoxBit(b: byte): byte {
    if HasBox(b) then b else b + 4
  }

  function WithoutBoxBit(b: byte): byte {
    if HasBox(b) then b - 4 else b
  }

  lemma AddFour(b: byte)
    requires !HasBox(b)
    ensures b + 4 < 256 && (b + 4) % 2 == b % 2 && (b + 4) / 2 % 2 == b / 2 % 2 && (b + 4) / 4 % 2 == 1
    ensures (b + 4) / 8 == b / 8 && (b + 4) / 16 == b / 16
  {
    var q := b / 8;
    assert b == 8 * q + b % 8 && b % 8 < 4;
    assert b + 4 == 8 * q + (b % 8 + 4);
    assert (b + 4) / 8 == q;
    assert b / 8 / 2 == b / 16 && (b + 4) / 8 / 2 == (b + 4) / 16;
  }

  lemma WithBoxBitAlone(b: byte)
    ensures var c := WithBoxBit(b);
            HasBox(c) && HasZ(c) == HasZ(b) && HasM(c) == HasM(b) && HasGeodetic(c) == HasGeodetic(b)
            && HasExtended(c) == HasExtended(b)
    ensures !HasBox(b) ==> WithoutBoxBit(WithBoxBit(b)) == b
  {
    if !HasBox(b) { AddFour(b); }
  }

  lemma WithoutBoxBitAlone(b: byte)
    ensures var c := WithoutBoxBit(b);
            !HasBox(c) && HasZ(c) == HasZ(b) && HasM(c) == HasM(b) && HasGeodetic(c) == HasGeodetic(b)
            && HasExtended(c) == HasExtended(b)
  {
    if HasBox(b) {
      assert (b - 4) / 4 == b / 4 - 1;
      AddFour(b - 4);
    }
  }

  /** gserialized2_hash: the srid and the geometry, but not the box. */
  function HashKey(rec: seq<byte>): seq<byte>
    requires 8 <= |rec| && HeaderSize(rec[7]) <= |rec|
  {
    IntBytes(Srid(rec)) + Body(rec)
  }

  function GHash(rec: seq<byte>): Lookup3.word
    requires 8 <= |rec| && HeaderSize(rec[7]) <= |rec|
  {
    var h := Lookup3.Hash(HashKey(rec), 0, 0);
    Lookup3.Xor(h.b, h.c)
  }

  /** The key is copied to a buffer of its own, at any address and with any bytes after it. */
  method Hash(rec: seq<byte>, address: nat, after: seq<byte>) returns (hval: Lookup3.word)
    requires Sized(rec) && 4 <= |after|
    ensures hval == GHash(rec)
  {
    hide Lookup3.Hash, Lookup3.Xor, HasExtended, HasBox, BoxSize, At;
    SizeIsLength(rec);
    var hsz1 := HeaderSize(rec[7]);
    var sz1 := StoredSize(rec);
    var bsz1 := sz1 - hsz1;
    var bsz2 := bsz1 + 4;
    var b2 := IntBytes(Srid(rec)) + rec[hsz1..hsz1 + bsz1];
    assert (b2 + after)[..bsz2] == b2 == HashKey(rec);
    var pb, pc := Lookup3.HashLittle2(b2 + after, address, bsz2, 0, 0);
    hval := Lookup3.Xor(pc, pb);
  }

  /** What storing the floats of a box leaves: they stand right after the first eight bytes, there is
      room for a box, and srid and geometry are the same. */
  ghost predicate Stored(rec: seq<byte>, out: seq<byte>, fs: seq<Float>)
    requires Sized(rec)
  {
    && Sized(out) && out[7] == WithBoxBit(rec[7]) && out[4..7] == rec[4..7] && Body(out) == Body(rec)
    && |fs| == 2 * BoxDims(rec[7]) && At(out, 8, FloatBytes(fs))
  }

  /** rec with the box fs in front of its geometry. */
  ghost predicate Boxed(rec: seq<byte>, out: seq<byte>, fs: seq<Float>)
    requires Sized(rec)
  {
    && Sized(out) && out[7] == WithBoxBit(rec[7]) && out[4..7] == rec[4..7]
    && out[8..DataStart(out[7])] == rec[8..DataStart(rec[7])] && Box(out) == fs && Body(out) == Body(rec)
  }

  lemma SameKey(rec: seq<byte>, out: seq<byte>)
    requires Sized(rec) && Sized(out) && out[4..7] == rec[4..7] && Body(out) == Body(rec)
    ensures Srid(out) == Srid(rec) && GHash(out) == GHash(rec)
  {
    hide Body, Lookup3.Hash, Lookup3.Xor, HasExtended, StoredSize, HeaderSize;
    assert out[4] == out[4..7][0] && out[5] == out[4..7][1] && out[6] == out[4..7][2];
    assert rec[4] == rec[4..7][0] && rec[5] == rec[4..7][1] && rec[6] == rec[4..7][2];
  }

  /** The floats of every box end up where they are read exactly when there are no extended flags. */
  lemma BoxedWithoutExtended(rec: seq<byte>)
    requires Sized(rec) && DataStart(rec[7]) + 8 * BoxDims(rec[7]) + |rec| - HeaderSize(rec[7]) < SIZE_LIMIT
    ensures !HasExtended(rec[7]) <==> forall out, fs :: Stored(rec, out, fs) ==> Boxed(rec, out, fs)
  {
    hide Stored, Boxed, HasExtended, HasBox, WithFloats;
    if HasExtended(rec[7]) {
      var fs: seq<Float> := seq(2 * BoxDims(rec[7]), k => if k < 2 then 0 else 1);
      FloatsCanBeStored(rec, fs);
      ExtendedFlagsLost(rec, WithFloats(rec, fs), fs);
      assert fs[0] != fs[0 + 2];
      assert !Boxed(rec, WithFloats(rec, fs), fs);
    } else {
      forall out, fs | Stored(rec, out, fs) ensures Boxed(rec, out, fs) {
        StoredIsBoxed(rec, out, fs);
      }
    }
  }

  // ----- written values -----

  /** Nothing in the geometry makes a box: no vertex that counts, and no circular string of three points. */
  ghost predicate Boxless(g: Geometry) {
    match g
    case Polygon(rings) => rings == [] || rings[0] == []
    case CircString(points) => |points| < 3
    case Collection(_, geoms) => forall i :: 0 <= i < |geoms| ==> Boxless(geoms[i])
    case _ => g.points == []
  }

  /** The calculation fails exactly on such geometries. Empty ones are among them. */
  lemma {:induction false} BoxlessHasNoSpans(fl: Floats, g: Geometry, dims: nat)
    requires WellFormed(g, dims)
    ensures Boxless(g) <==> BoxSpans(fl, g, dims) == []
    ensures IsEmpty(g) ==> Boxless(g)
    decreases g, 0
  {
    if g.Collection? { AllBoxless(fl, g.geoms, dims); }
  }

  lemma {:induction false} AllBoxless(fl: Floats, geoms: seq<Geometry>, dims: nat)
    requires forall i :: 0 <= i < |geoms| ==> WellFormed(geoms[i], dims)
    ensures (forall i :: 0 <= i < |geoms| ==> Boxless(geoms[i])) <==> AllSpans(fl, geoms, dims) == []
    ensures forall i :: 0 <= i < |geoms| && IsEmpty(geoms[i]) ==> Boxless(geoms[i])
    decreases geoms, 1
  {
    if geoms != [] {
      hide WellFormed, BoxSpans, IsEmpty, Boxless;
      var n := |geoms| - 1;
      AllBoxless(fl, geoms[..n], dims);
      BoxlessHasNoSpans(fl, geoms[n], dims);
      assert forall i :: 0 <= i < n ==> geoms[..n][i] == geoms[i];
    }
  }

  /** A circular string of one point is not empty, needs a box, and has none. */
  lemma ShortArcHasNoBox(fl: Floats)
    ensures var g := CircString([[0, 0]]);
            WellFormed(g, 2) && !IsEmpty(g) && NeedsBbox(g) && BoxSpans(fl, g, 2) == []
  {
    BoxlessHasNoSpans(fl, CircString([[0, 0]]), 2);
  }

  function FloatsOf(near: real -> Float, box: seq<Range>): (fs: seq<Float>)
    ensures |fs| == 2 * |box|
  {
    if box == [] then [] else Ends(near, box[0]) + FloatsOf(near, box[1..])
  }

  /** The box that is added: the smallest one, or zeros where the calculation fails. */
  ghost function AddedBox(fl: Floats, w: Lwgeom): (r: seq<Range>)
    requires WellFormed(w.geom, Dims(w.flags.z, w.flags.m))
    ensures |r| == Dims(w.flags.z, w.flags.m)
  {
    var dims := Dims(w.flags.z, w.flags.m);
    var spans := BoxSpans(fl, w.geom, dims);
    if spans == [] then seq(dims, _ => Range(0.0, 0.0)) else Hull(spans, dims)
  }

  /** The value that is written: one that needs a box and has none gets one, rounded outwards, unless it
      is empty. */
  ghost predicate BoxAdded(fl: Floats, near: real -> Float, w: Lwgeom, saved: Lwgeom)
    requires WellFormed(w.geom, Dims(w.flags.z, w.flags.m))
  {
    saved ==
    if w.flags.bbox || !NeedsBbox(w.geom) || IsEmpty(w.geom) then w
    else w.(flags := w.flags.(bbox := true), box := FloatsOf(near, Rounded(fl, AddedBox(fl, w))))
  }

  /** gserialized2_from_lwgeom: a box is added where one is needed, and then the bytes are written. */
  method SaveLwgeom(fl: Floats, near: real -> Float, w: Lwgeom)
    returns (g: array<byte>, returnSize: nat, ghost saved: Lwgeom)
    requires Consistent(w) && Total(w) + 32 < SIZE_LIMIT && !w.flags.geodetic
    ensures BoxAdded(fl, near, w, saved) && Consistent(saved) && Total(saved) < SIZE_LIMIT
    ensures fresh(g) && g[..] == Record(saved) && returnSize == g.Length
  {
    hide Record, WellFormed, NeedsBbox, BoxSpans, IsEmpty, FloatsOf, Rounded, Hull;
    hide HasZ, HasM, HasGeodetic, GFlags, FloatBytes, ExtendedBytes;
    var value := w;
    if !w.flags.bbox && NeedsBbox(w.geom) && !IsEmpty(w.geom) {
      var box := new SerializedBox.Box();
      box.hasZ, box.hasM := w.flags.z, w.flags.m;
      var _ := CalculateGbox(fl, w.geom, w.flags.z, w.flags.m, box);
      assert box.Contents() == AddedBox(fl, w);
      box.FloatRound(fl);
      value := w.(flags := w.flags.(bbox := true), box := FloatsOf(near, box.Contents()));
      FlagsRead(value.flags);
    }
    saved := value;
    g, returnSize := FromLwgeom(value);
  }

  /** What FromLwgeom writes is sized, and its parts are those of the value. */
  lemma RecordIsSized(w: Lwgeom)
    requires Consistent(w) && Total(w) < SIZE_LIMIT
    ensures var rec := Record(w);
            && Sized(rec) && rec[4..7] == SridBytes(w.srid) && rec[7] == GFlags(w.flags) && Body(rec) == Bytes(w.geom)
            && (w.flags.bbox ==> HasBox(rec[7]) && Box(rec) == w.box)
  {
    hide At, Front, FloatBytes, Bytes, WellFormed, GFlags, ReadFloats, SridBytes, Little;
    hide HasZ, HasM, HasBox, HasGeodetic, HasExtended, ExtendedBytes;
    var rec := Record(w);
    RecordParts(w, rec);
    FlagsRead(w.flags);
    FrontParts(rec, Total(w), w.srid, GFlags(w.flags));
    ReadsFloats(rec, 8 + |ExtendedBytes(w.flags)|, w.box);
    AtEnd(rec, 8 + |ExtendedBytes(w.flags)| + 4 * |w.box|, Bytes(w.geom));
  }

  lemma FrontParts(buf: seq<byte>, total: nat, srid: int, flags: byte)
    requires At(buf, 0, Front(total, srid, flags))
    ensures 8 <= |buf| && At(buf, 0, Little(4 * total, 4)) && buf[4..7] == SridBytes(srid) && buf[7] == flags
  {
    hide Little;
    AtSplit(buf, 0, Little(4 * total, 4) + SridBytes(srid), [flags]);
    AtSplit(buf, 0, Little(4 * total, 4), SridBytes(srid));
    PartsAt(buf, srid, flags);
  }

  lemma AtEnd(buf: seq<byte>, i: nat, s: seq<byte>)
    requires At(buf, i, s) && i + |s| == |buf|
    ensures buf[i..] == s
  {
  }

  /** A value with the parts of w and, where it has one, the box fs, loads as w with that box. */
  lemma LoadsParts(w: Lwgeom, out: seq<byte>, boxed: bool, fs: seq<Float>)
    requires Consistent(w) && SubtypesAllowed(w.geom) && |Bytes(w.geom)| < SIZE_LIMIT && !UsesExtended(w.flags)
    requires Sized(out) && out[4..7] == SridBytes(w.srid) && Body(out) == Bytes(w.geom)
    requires out[7] == (if boxed then WithBoxBit(GFlags(w.flags)) else WithoutBoxBit(GFlags(w.flags)))
    requires if boxed then HasBox(out[7]) && Box(out) == fs else fs == []
    ensures Load(out) == Loaded(w.(flags := w.flags.(bbox := boxed), box := fs))
  {
    hide At, Bytes, WellFormed, GFlags, ReadFloats, SridBytes, Little, Srid, Parse, WithBoxBit, WithoutBoxBit;
    hide HasZ, HasM, HasBox, HasGeodetic, HasExtended;
    FlagsRead(w.flags);
    WithBoxBitAlone(GFlags(w.flags));
    WithoutBoxBitAlone(GFlags(w.flags));
    SridRead(out, w.srid);
    AtTail(out, HeaderSize(out[7]), Bytes(w.geom));
    RoundTrip(w.geom, Dims(w.flags.z, w.flags.m), out, HeaderSize(out[7]));
  }

  lemma AtTail(buf: seq<byte>, i: nat, s: seq<byte>)
    requires i <= |buf| && buf[i..] == s
    ensures At(buf, i, s)
  {
  }

  /** A written value loads back with the box stored in it. */
  lemma BoxedLoads(w: Lwgeom, out: seq<byte>, fs: seq<Float>)
    requires Consistent(w) && Total(w) < SIZE_LIMIT && SubtypesAllowed(w.geom) && !UsesExtended(w.flags)
    requires Sized(Record(w)) && Boxed(Record(w), out, fs)
    ensures Load(out) == Loaded(w.(flags := w.flags.(bbox := true), box := fs))
  {
    hide Record, Load, SubtypesAllowed, Sized, Body, Box, WithBoxBit, SridBytes;
    RecordIsSized(w);
    WithBoxBitAlone(Record(w)[7]);
    LoadsParts(w, out, true, fs);
  }

  /** A written value loads back without the box dropped from it. */
  lemma UnboxedLoads(w: Lwgeom, out: seq<byte>)
    requires Consistent(w) && Total(w) < SIZE_LIMIT && SubtypesAllowed(w.geom) && !UsesExtended(w.flags)
    requires Sized(Record(w)) && Unboxed(Record(w), out)
    ensures Load(out) == Loaded(w.(flags := w.flags.(bbox := false), box := []))
  {
    hide Record, Load, SubtypesAllowed, Sized, Body, WithoutBoxBit, SridBytes;
    RecordIsSized(w);
    LoadsParts(w, out, false, []);
  }

  lemma WroteKeeps(was: seq<byte>, now: seq<byte>, i: int, s: seq<byte>)
    requires Wrote(was, now, i, s)
    ensures |now| == |was| && now[..i] == was[..i] && now[i + |s|..] == was[i + |s|..] && At(now, i, s)
  {
  }

  /** Without extended flags the box stands where it is read. */
  lemma StoredIsBoxed(rec: seq<byte>, out: seq<byte>, fs: seq<Float>)
    requires Sized(rec) && Stored(rec, out, fs) && !HasExtended(rec[7])
    ensures Boxed(rec, out, fs)
  {
    hide At, FloatBytes, HasZ, HasM, HasGeodetic, HasBox, HasExtended, WithBoxBit;
    WithBoxBitAlone(rec[7]);
    ReadsFloats(out, 8, fs);
  }

  /** With extended flags the floats stand eight bytes before the place where the box is read: the
      first range replaces the flags, and each float is read as the one two places before it. */
  lemma ExtendedFlagsLost(rec: seq<byte>, out: seq<byte>, fs: seq<Float>)
    requires Sized(rec) && Stored(rec, out, fs) && HasExtended(rec[7])
    ensures Uint32(out, 8) == fs[0] && Uint32(out, 12) == fs[1]
    ensures HasBox(out[7]) && |Box(out)| == |fs| && forall k :: 0 <= k < |fs| - 2 ==> Box(out)[k] == fs[k + 2]
    ensures Boxed(rec, out, fs) <==>
              && rec[8..16] == out[8..16] && Box(out)[|fs| - 2..] == fs[|fs| - 2..]
              && forall k :: 0 <= k < |fs| - 2 ==> fs[k] == fs[k + 2]
  {
    hide At, FloatBytes, HasZ, HasM, HasGeodetic, HasBox, HasExtended, WithBoxBit, Uint32, Little;
    WithBoxBitAlone(rec[7]);
    ReadsFloats(out, 8, fs);
    FloatsFromTwo(out, 8, fs, Box(out));
    ShiftedTwice(Box(out), fs);
  }

  /** A list read two places later is the list itself when all pairs are the same. */
  lemma ShiftedTwice(read: seq<Float>, fs: seq<Float>)
    requires |read| == |fs| && 2 <= |fs| && forall k :: 0 <= k < |fs| - 2 ==> read[k] == fs[k + 2]
    ensures read == fs <==> read[|fs| - 2..] == fs[|fs| - 2..] && forall k :: 0 <= k < |fs| - 2 ==> fs[k] == fs[k + 2]
  {
    var n := |fs| - 2;
    if read[n..] == fs[n..] && forall k :: 0 <= k < n ==> fs[k] == fs[k + 2] {
      forall k | 0 <= k < |fs| ensures read[k] == fs[k] {
        if n <= k { assert read[n..][k - n] == fs[n..][k - n]; }
      }
    }
  }

  /** In a stored box, the last range read after overwriting is still the old one. */
  lemma LastRangeStays(rec: seq<byte>, out: seq<byte>, fs: seq<Float>)
    requires Sized(rec) && Stored(rec, out, fs) && HasExtended(rec[7]) && HasBox(rec[7])
    requires Wrote(rec, out, 8, FloatBytes(fs))
    ensures HasBox(out[7]) && |Box(out)| == |Box(rec)| == |fs| && Box(out)[|fs| - 2..] == Box(rec)[|fs| - 2..]
  {
    hide At, FloatBytes, HasZ, HasM, HasGeodetic, HasBox, HasExtended, WithBoxBit, Little, Wrote, ReadFloats;
    WithBoxBitAlone(rec[7]);
    WroteKeeps(rec, out, 8, FloatBytes(fs));
    SameFloats(rec, out, |fs|);
  }

  lemma SameFloats(s: seq<byte>, t: seq<byte>, n: nat)
    requires 2 <= n && 16 + 4 * n <= |s| == |t| && s[8 + 4 * n..] == t[8 + 4 * n..]
    ensures ReadFloats(s, 16, n)[n - 2..] == ReadFloats(t, 16, n)[n - 2..]
  {
    hide Uint32, ReadFloats;
    forall k | n - 2 <= k < n ensures ReadFloats(s, 16, n)[k] == ReadFloats(t, 16, n)[k] {
      FloatAt(s, 16, n, k);
      FloatAt(t, 16, n, k);
      SameWord(s, t, 8 + 4 * n, 16 + 4 * k);
    }
    var a, b := ReadFloats(s, 16, n), ReadFloats(t, 16, n);
    assert a[n - 2..] == [a[n - 2], a[n - 1]] && b[n - 2..] == [b[n - 2], b[n - 1]];
  }

  lemma SameWord(s: seq<byte>, t: seq<byte>, i: nat, j: nat)
    requires |s| == |t| && i <= j <= j + 4 <= |s| && s[i..] == t[i..]
    ensures Uint32(s, j) == Uint32(t, j)
  {
    assert s[j..j + 4] == s[i..][j - i..j - i + 4] && t[j..j + 4] == t[i..][j - i..j - i + 4];
  }

  /** A record in which the floats stand right after the first eight bytes, with a gap after them where
      there are extended flags. */
  function WithFloats(rec: seq<byte>, fs: seq<Float>): seq<byte>
    requires 8 <= |rec| && HeaderSize(rec[7]) <= |rec|
  {
    var start, n := DataStart(rec[7]), HeaderSize(rec[7]);
    Little(4 * (start + 4 * |fs| + |rec| - n), 4) + rec[4..7] + [WithBoxBit(rec[7])]
    + (FloatBytes(fs) + (Zeros(start - 8) + rec[n..]))
  }

  lemma FloatsCanBeStored(rec: seq<byte>, fs: seq<Float>)
    requires Sized(rec) && |fs| == 2 * BoxDims(rec[7])
    requires DataStart(rec[7]) + 4 * |fs| + |rec| - HeaderSize(rec[7]) < SIZE_LIMIT
    ensures Stored(rec, WithFloats(rec, fs), fs)
  {
    hide FloatBytes, HasZ, HasM, HasGeodetic, HasBox, HasExtended, WithBoxBit, Little;
    var start, n := DataStart(rec[7]), HeaderSize(rec[7]);
    var out := WithFloats(rec, fs);
    var size := Little(4 * (start + 4 * |fs| + |rec| - n), 4);
    var rest := Zeros(start - 8) + rec[n..];
    AtWhole(out);
    AtSplit(out, 0, size + rec[4..7] + [WithBoxBit(rec[7])], FloatBytes(fs) + rest);
    AtSplit(out, 0, size + rec[4..7], [WithBoxBit(rec[7])]);
    AtSplit(out, 0, size, rec[4..7]);
    AtSplit(out, 8, FloatBytes(fs), rest);
    AtSplit(out, 8 + 4 * |fs|, Zeros(start - 8), rec[n..]);
    assert out[7..8][0] == out[7];
    MakesStored(rec, out, fs, n);
  }

  lemma FloatsFromTwo(buf: seq<byte>, at: nat, fs: seq<Float>, later: seq<Float>)
    requires 2 <= |fs| && at + 4 * |fs| + 8 <= |buf| && ReadFloats(buf, at, |fs|) == fs
    requires later == ReadFloats(buf, at + 8, |fs|)
    ensures Uint32(buf, at) == fs[0] && Uint32(buf, at + 4) == fs[1]
    ensures forall k :: 0 <= k < |fs| - 2 ==> later[k] == fs[k + 2]
  {
    hide Uint32;
    FloatAt(buf, at, |fs|, 0);
    FloatAt(buf, at, |fs|, 1);
    forall k | 0 <= k < |fs| - 2 ensures later[k] == fs[k + 2] {
      FloatAt(buf, at, |fs|, k + 2);
      FloatAt(buf, at + 8, |fs|, k);
    }
  }

  lemma {:induction false} FloatAt(buf: seq<byte>, at: nat, n: nat, k: nat)
    requires at + 4 * n <= |buf| && k < n
    ensures ReadFloats(buf, at, n)[k] == Uint32(buf, at + 4 * k)
    decreases n
  {
    hide Uint32;
    if 0 < k {
      FloatAt(buf, at + 4, n - 1, k - 1);
      assert at + 4 + 4 * (k - 1) == at + 4 * k;
    }
  }

  /** What makes out the stored form of rec. */
  lemma MakesStored(rec: seq<byte>, out: seq<byte>, fs: seq<Float>, n: nat)
    requires Sized(rec) && |fs| == 2 * BoxDims(rec[7]) && n == HeaderSize(rec[7])
    requires |out| == |rec| - n + DataStart(rec[7]) + 4 * |fs| < SIZE_LIMIT
    requires At(out, 0, Little(4 * |out|, 4)) && out[4..7] == rec[4..7] && out[7] == WithBoxBit(rec[7])
    requires At(out, 8, FloatBytes(fs)) && out[DataStart(rec[7]) + 4 * |fs|..] == rec[n..]
    ensures Stored(rec, out, fs)
  {
    hide At, FloatBytes, HasZ, HasM, HasGeodetic, HasBox, HasExtended, WithBoxBit;
    WithBoxBitAlone(rec[7]);
  }

  lemma TailOfTail(s: seq<byte>, t: seq<byte>, i: nat, j: nat)
    requires |s| == |t| && i <= j <= |s| && s[i..] == t[i..]
    ensures s[j..] == t[j..]
  {
    assert s[i..][j - i..] == s[j..] && t[i..][j - i..] == t[j..];
  }

  lemma Overwritten(was: seq<byte>, now: seq<byte>, fs: seq<Float>)
    requires Sized(was) && HasBox(was[7]) && |fs| == 2 * BoxDims(was[7]) && Wrote(was, now, 8, FloatBytes(fs))
    ensures Stored(was, now, fs)
  {
    hide FloatBytes, Wrote, HasZ, HasM, HasGeodetic, HasBox, HasExtended, Stored, Little;
    WroteKeeps(was, now, 8, FloatBytes(fs));
    SameStart(was, now);
    AtPrefix(was, now, Little(4 * |was|, 4));
    TailOfTail(was, now, 8 + 4 * |fs|, HeaderSize(was[7]));
    MakesStored(was, now, fs, HeaderSize(was[7]));
  }

  lemma SameStart(was: seq<byte>, now: seq<byte>)
    requires 8 <= |was| && 8 <= |now| && now[..8] == was[..8]
    ensures now[..4] == was[..4] && now[4..7] == was[4..7] && now[7] == was[7]
  {
    assert now[..8][..4] == now[..4] && was[..8][..4] == was[..4];
    assert now[..8][4..7] == now[4..7] && was[..8][4..7] == was[4..7];
    assert now[..8][7] == now[7] && was[..8][7] == was[7];
  }

  lemma AtPrefix(was: seq<byte>, now: seq<byte>, s: seq<byte>)
    requires |s| == 4 <= |was| && 4 <= |now| && now[..4] == was[..4]
    ensures At(was, 0, s) <==> At(now, 0, s)
  {
    assert now[0..4] == now[..4] && was[0..4] == was[..4];
  }

  lemma Inserted(was: seq<byte>, s1: seq<byte>, s2: seq<byte>, now: seq<byte>, fs: seq<Float>)
    requires Sized(was) && !HasBox(was[7]) && |fs| == 2 * BoxDims(was[7]) && |s1| == |was| + 4 * |fs| < SIZE_LIMIT
    requires s1[4..7] == was[4..7] && s1[7] == WithBoxBit(was[7])
    requires DataStart(was[7]) <= |was| && s1[DataStart(was[7]) + 4 * |fs|..] == was[DataStart(was[7])..]
    requires Wrote(s1, s2, 0, Little(4 * |s1|, 4)) && Wrote(s2, now, 8, FloatBytes(fs))
    ensures Stored(was, now, fs)
  {
    hide FloatBytes, Wrote, HasZ, HasM, HasGeodetic, HasBox, HasExtended, Stored, Little, At, Sized;
    NoBoxHeader(was);
    var room := DataStart(was[7]) + 4 * |fs|;
    WroteKeeps(s1, s2, 0, Little(4 * |s1|, 4));
    AfterSize(s1, s2, room);
    WroteKeeps(s2, now, 8, FloatBytes(fs));
    SameStart(s2, now);
    AtPrefix(s2, now, Little(4 * |s1|, 4));
    TailOfTail(s2, now, 8 + 4 * |fs|, room);
    MakesStored(was, now, fs, DataStart(was[7]));
  }

  lemma AfterSize(s1: seq<byte>, s2: seq<byte>, n: nat)
    requires |s1| == |s2| && 8 <= n <= |s1| && s2[4..] == s1[4..]
    ensures s2[4..7] == s1[4..7] && s2[7] == s1[7] && s2[n..] == s1[n..]
  {
    assert s2[4..][..3] == s2[4..7] && s1[4..][..3] == s1[4..7];
    assert s2[4..][3] == s2[7] && s1[4..][3] == s1[7];
    assert s2[4..][n - 4..] == s2[n..] && s1[4..][n - 4..] == s1[n..];
  }

  lemma NoBoxHeader(rec: seq<byte>)
    requires Sized(rec) && !HasBox(rec[7])
    ensures HeaderSize(rec[7]) == DataStart(rec[7]) <= |rec|
  {
  }

  /** A copied front and a copied tail, with a byte of the front replaced. */
  lemma FrontAndTail(was: seq<byte>, t: seq<byte>, u: seq<byte>, v: byte, n: nat, room: nat)
    requires 8 <= n <= |was| && 8 <= room && |t| == room + |was| - n
    requires t[..8] == was[..8] && Wrote(t, u, room, was[n..])
    ensures var w := u[7 := v]; w[4..7] == was[4..7] && w[7] == v && w[room..] == was[n..] && |w| == |t|
    ensures u[7] == was[7]
  {
    WroteKeeps(t, u, room, was[n..]);
    FirstEight(was, t, u, room);
    var w := u[7 := v];
    assert w[..7] == u[..7] && w[room..] == u[room..];
    assert w[..7][4..7] == w[4..7] && u[..7][4..7] == u[4..7];
    assert u[room..room + |was[n..]|] == u[room..];
  }

  lemma FirstEight(was: seq<byte>, t: seq<byte>, u: seq<byte>, room: nat)
    requires 8 <= |was| && 8 <= room <= |t| == |u| && u[..room] == t[..room] && t[..8] == was[..8]
    ensures u[4..7] == was[4..7] && u[7] == was[7]
  {
    assert u[..8] == u[..room][..8] && t[..8] == t[..room][..8];
    SameStart(was, u);
  }

  lemma CopiedFront(was: seq<byte>, s: seq<byte>, t: seq<byte>)
    requires 8 <= |was| && Wrote(s, t, 0, was[..8])
    ensures t[..8] == was[..8]
  {
    WroteKeeps(s, t, 0, was[..8]);
  }

  lemma FrontStays(t: seq<byte>, u: seq<byte>, s: seq<byte>)
    requires 8 <= |t| && Wrote(t, u, 8, s)
    ensures u[..8] == t[..8]
  {
    WroteKeeps(t, u, 8, s);
  }

  /** A GBOX: its flags and the ranges of all four dimensions. */
  datatype GBox = GBox(z: bool, m: bool, geodetic: bool, xs: Range, ys: Range, zs: Range, ms: Range)

  /** FLAGS_NDIMS_BOX. */
  function NdimsBox(box: GBox): (n: nat)
    ensures 2 <= n <= 4
  {
    if box.geodetic then 3 else Dims(box.z, box.m)
  }

  function Outward(fl: Floats, r: Range): Range {
    Range(fl.down(r.min), fl.up(r.max))
  }

  /** gbox_float_round. */
  function FloatRound(fl: Floats, box: GBox): GBox {
    box.(xs := Outward(fl, box.xs), ys := Outward(fl, box.ys),
         zs := if box.z then Outward(fl, box.zs) else box.zs, ms := if box.m then Outward(fl, box.ms) else box.ms)
  }

  /** A range as two floats; near is the conversion to float, which rounds to the nearest one. */
  function Ends(near: real -> Float, r: Range): (fs: seq<Float>)
    ensures |fs| == 2
  {
    [near(r.min), near(r.max)]
  }

  predicate StoresZ(b: byte) { HasZ(b) || HasGeodetic(b) }
  predicate StoresM(b: byte) { HasM(b) && !HasGeodetic(b) }

  /** What is written for a value with flag byte b, given the rounded box. */
  function FloatsWritten(b: byte, box: GBox, near: real -> Float): (fs: seq<Float>)
    ensures |fs| == 2 * BoxDims(b)
  {
    Ends(near, box.xs) + Ends(near, box.ys) + (if StoresZ(b) then Ends(near, box.zs) else [])
    + if StoresM(b) then Ends(near, box.ms) else []
  }

  /** The ranges that a box declares, rounded outwards. */
  function Declared(fl: Floats, box: GBox, near: real -> Float): (fs: seq<Float>)
    ensures |fs| == 2 * NdimsBox(box)
  {
    Ends(near, Outward(fl, box.xs)) + Ends(near, Outward(fl, box.ys))
    + (if box.z || box.geodetic then Ends(near, Outward(fl, box.zs)) else [])
    + if box.m && !box.geodetic then Ends(near, Outward(fl, box.ms)) else []
  }

  ghost predicate WritesDeclared(b: byte, fl: Floats, box: GBox, near: real -> Float) {
    FloatsWritten(b, FloatRound(fl, box), near) == Declared(fl, box, near)
  }

  /** The flags of the box fit those of the value: both have a z range or neither, and the z flag of
      the box is set when there is one. */
  predicate FlagsFit(b: byte, box: GBox) {
    StoresZ(b) == (box.z || box.geodetic) && (StoresZ(b) ==> box.z)
  }

  predicate SameFlags(box: GBox, other: GBox) {
    box.z == other.z && box.m == other.m && box.geodetic == other.geodetic
  }

  /** Only the numbers of dimensions are compared: what is written is what the box declares, for all
      ranges and roundings, exactly when the flags fit. */
  lemma WrittenAsDeclared(b: byte, box: GBox)
    requires NdimsBox(box) == BoxDims(b)
    ensures FlagsFit(b, box) <==>
            forall fl: Floats, other: GBox, near: real -> Float ::
              SameFlags(box, other) ==> WritesDeclared(b, fl, other, near)
  {
    hide HasZ, HasM, HasGeodetic;
    if !FlagsFit(b, box) {
      var fl := Floats(o => 0.0, v => v - 1.0, v => v, v => v);
      var near: real -> Float := v => if v < 0.0 then 0 else 1;
      var nil, five := Range(0.0, 0.0), Range(5.0, 5.0);
      var other := box.(zs := nil, ms := if StoresZ(b) then nil else five);
      var was, now := FloatsWritten(b, FloatRound(fl, other), near), Declared(fl, other, near);
      assert was[4] == 1 && now[4] == 0;
      assert !WritesDeclared(b, fl, other, near);
    }
  }

  /** The box of a line with measures, handed over for one with heights: its z range is stored. */
  lemma OtherDimensionStored(x: Range, zs: Range, ms: Range, near: real -> Float)
    ensures var box := GBox(false, true, false, x, x, zs, ms);
            var b := GFlags(Flags(true, false, false, false, false, false));
            && NdimsBox(box) == BoxDims(b) && !FlagsFit(b, box)
            && forall fl: Floats :: FloatsWritten(b, FloatRound(fl, box), near)[4..] == Ends(near, zs)
  {
  }

  /** gserialized2_set_gbox: refuses a box of another number of dimensions, overwrites a stored box in
      place, and otherwise moves the geometry to make room. The box passed in is rounded. Geometry,
      srid and hash stay the same. */
  method SetGbox(g: array<byte>, gbox: GBox, fl: Floats, near: real -> Float)
    returns (ok: bool, out: array<byte>, rounded: GBox)
    requires Sized(g[..]) && g.Length + BoxSize(g[7]) < SIZE_LIMIT
    modifies g
    ensures ok <==> NdimsBox(gbox) == BoxDims(old(g[7]))
    ensures rounded == if ok then FloatRound(fl, gbox) else gbox
    ensures !ok ==> g[..] == old(g[..])
    ensures ok ==> Stored(old(g[..]), out[..], FloatsWritten(old(g[7]), rounded, near))
    ensures ok && !HasExtended(old(g[7])) ==> Boxed(old(g[..]), out[..], FloatsWritten(old(g[7]), rounded, near))
    ensures ok && HasBox(old(g[7])) ==>
              Wrote(old(g[..]), out[..], 8, FloatBytes(FloatsWritten(old(g[7]), rounded, near)))
    ensures ok ==> GHash(out[..]) == GHash(old(g[..]))
    ensures ok ==> if HasBox(old(g[7])) then out == g else fresh(out) && g[..] == old(g[..])
  {
    hide Wrote, Lookup3.Hash, Lookup3.Xor, HasExtended, HasBox, HasZ, HasM, HasGeodetic;
    hide FloatBytes, StoredSize, GHash, Boxed, Stored;
    hide FloatRound;
    ghost var was := g[..];
    rounded := gbox;
    if NdimsBox(gbox) != BoxDims(g[7]) { return false, g, gbox; }
    ok := true;
    rounded := FloatRound(fl, gbox);
    var fs := FloatsWritten(g[7], rounded, near);
    if HasBox(g[7]) {
      out := g;
      Copy(out, 8, FloatBytes(fs));
      Overwritten(was, out[..], fs);
    } else {
      out := InsertFloats(g, fs);
    }
    StoredEffect(was, out[..], fs);
  }

  /** The branch for a value without a box: a copy with a gap in front of the geometry, and the floats. */
  method InsertFloats(g: array<byte>, fs: seq<Float>) returns (out: array<byte>)
    requires Sized(g[..]) && !HasBox(g[7]) && |fs| == 2 * BoxDims(g[7]) && g.Length + 4 * |fs| < SIZE_LIMIT
    ensures fresh(out) && Stored(g[..], out[..], fs)
  {
    hide Wrote, HasExtended, HasBox, HasZ, HasM, HasGeodetic, FloatBytes, StoredSize, Stored;
    ghost var was := g[..];
    SizeIsLength(was);
    NoBoxHeader(was);
    var varsizeIn := StoredSize(g[..]);
    var varsizeOut := varsizeIn + 4 * |fs|;
    out := new byte[varsizeOut];
    ghost var fresh0 := out[..];
    var ptrIn := 8;
    Copy(out, 0, g[..8]);
    CopiedFront(was, fresh0, out[..]);
    if HasExtended(g[7]) {
      ghost var fresh1 := out[..];
      Copy(out, 8, g[8..16]);
      FrontStays(fresh1, out[..], g[8..16]);
      ptrIn := 16;
    }
    var room := ptrIn + 4 * |fs|;
    ghost var fresh2 := out[..];
    Copy(out, room, g[ptrIn..]);
    ghost var s0 := out[..];
    FrontAndTail(was, fresh2, s0, WithBoxBit(was[7]), ptrIn, room);
    out[7] := WithBoxBit(out[7]);
    ghost var s1 := out[..];
    assert s1 == s0[7 := WithBoxBit(was[7])];
    Copy(out, 0, Little(4 * varsizeOut, 4));
    ghost var s2 := out[..];
    Copy(out, 8, FloatBytes(fs));
    Inserted(was, s1, s2, out[..], fs);
  }

  lemma StoredEffect(rec: seq<byte>, out: seq<byte>, fs: seq<Float>)
    requires Sized(rec) && Stored(rec, out, fs)
    ensures GHash(out) == GHash(rec) && (!HasExtended(rec[7]) ==> Boxed(rec, out, fs))
  {
    hide GHash, Boxed;
    SameKey(rec, out);
    if !HasExtended(rec[7]) { StoredIsBoxed(rec, out, fs); }
  }

  /** rec without its box. */
  ghost predicate Unboxed(rec: seq<byte>, out: seq<byte>)
    requires Sized(rec)
  {
    Sized(out) && out[7] == WithoutBoxBit(rec[7]) && out[4..7] == rec[4..7] && Body(out) == Body(rec)
  }

  /** gserialized2_drop_gbox: the value without its box. A value that has none is copied as well, but
      in the size it would have after losing a box, so that the end of its geometry is missing. */
  method DropGbox(g: array<byte>) returns (out: array<byte>)
    requires Sized(g[..]) && if HasBox(g[7]) then !HasExtended(g[7]) else BoxSize(g[7]) <= g.Length
    ensures fresh(out)
    ensures HasBox(g[7]) ==> Unboxed(g[..], out[..]) && GHash(out[..]) == GHash(g[..])
    ensures !HasBox(g[7]) ==> out[..] == g[..g.Length - BoxSize(g[7])] && !Sized(out[..])
  {
    hide Wrote, Lookup3.Hash, Lookup3.Xor, HasExtended, HasBox, HasZ, HasM, HasGeodetic, StoredSize, GHash, Unboxed;
    SizeIsLength(g[..]);
    var boxSize := BoxSize(g[7]);
    var outSize := StoredSize(g[..]) - boxSize;
    if !HasBox(g[7]) {
      out := new byte[outSize];
      ghost var fresh0 := out[..];
      Copy(out, 0, g[..outSize]);
      Shortened(g[..], fresh0, out[..], outSize);
      return;
    }
    BoxedHeader(g[..]);
    out := new byte[outSize];
    ghost var fresh0 := out[..];
    Copy(out, 0, g[..8]);
    ghost var fresh1 := out[..];
    CopiedFront(g[..], fresh0, fresh1);
    Copy(out, 8, g[8 + boxSize..]);
    ghost var s0 := out[..];
    FrontAndTail(g[..], fresh1, s0, WithoutBoxBit(g[7]), 8 + boxSize, 8);
    out[7] := WithoutBoxBit(out[7]);
    ghost var s1 := out[..];
    assert s1 == s0[7 := WithoutBoxBit(g[7])];
    Copy(out, 0, Little(4 * outSize, 4));
    Removed(g[..], s1, out[..]);
  }

  /** The size written in a shortened copy is not its own. */
  lemma Shortened(rec: seq<byte>, was: seq<byte>, now: seq<byte>, n: nat)
    requires Sized(rec) && n < |rec| && |was| == n && Wrote(was, now, 0, rec[..n])
    ensures now == rec[..n] && !Sized(now)
  {
    hide HasZ, HasM, HasGeodetic, HasBox, HasExtended, StoredSize;
    WroteAll(was, now, rec[..n]);
    if Sized(now) {
      SizeIsLength(rec);
      SizeIsLength(now);
      assert now[..4] == rec[..4];
      SameStoredSize(rec, now);
    }
  }

  lemma SameStoredSize(rec: seq<byte>, now: seq<byte>)
    requires 4 <= |rec| && 4 <= |now| && now[..4] == rec[..4]
    ensures StoredSize(now) == StoredSize(rec)
  {
    assert forall i :: 0 <= i < 4 ==> now[i] == now[..4][i] && rec[i] == rec[..4][i];
  }

  lemma BoxedHeader(rec: seq<byte>)
    requires Sized(rec) && HasBox(rec[7]) && !HasExtended(rec[7])
    ensures HeaderSize(rec[7]) == 8 + BoxSize(rec[7]) <= |rec|
  {
  }

  lemma Removed(was: seq<byte>, s1: seq<byte>, now: seq<byte>)
    requires Sized(was) && HasBox(was[7]) && !HasExtended(was[7]) && |s1| == |was| - BoxSize(was[7])
    requires s1[4..7] == was[4..7] && s1[7] == WithoutBoxBit(was[7]) && s1[8..] == Body(was)
    requires Wrote(s1, now, 0, Little(4 * |s1|, 4))
    ensures Unboxed(was, now) && GHash(now) == GHash(was)
  {
    hide Wrote, HasZ, HasM, HasGeodetic, HasBox, HasExtended, Little, At, GHash, WithoutBoxBit;
    BoxedHeader(was);
    WroteKeeps(s1, now, 0, Little(4 * |s1|, 4));
    AfterSize(s1, now, 8);
    WithoutBoxBitAlone(was[7]);
    SameKey(was, now);
  }

  /** Storing a box and dropping it again gives the same bytes. */
  lemma DropAfterSet(rec: seq<byte>, boxed: seq<byte>, fs: seq<Float>, back: seq<byte>)
    requires Sized(rec) && !HasBox(rec[7]) && !HasExtended(rec[7]) && Boxed(rec, boxed, fs) && Unboxed(boxed, back)
    ensures back == rec
  {
    hide HasZ, HasM, HasGeodetic, HasBox, HasExtended, WithBoxBit, WithoutBoxBit, Little, At;
    WithBoxBitAlone(rec[7]);
    NoBoxHeader(rec);
    NoBoxHeader(back);
    WithoutBoxBitAlone(boxed[7]);
    SameParts(rec, back);
  }

  lemma SameParts(rec: seq<byte>, back: seq<byte>)
    requires 8 <= |rec| < SIZE_LIMIT && 8 <= |back| && rec[8..] == back[8..] && rec[7] == back[7]
    requires rec[4..7] == back[4..7]
    requires At(rec, 0, Little(4 * |rec|, 4)) && At(back, 0, Little(4 * |back|, 4))
    ensures rec == back
  {
    hide Little;
    assert |rec[8..]| == |back[8..]|;
    assert rec == rec[0..4] + rec[4..7] + [rec[7]] + rec[8..];
    assert back == back[0..4] + back[4..7] + [back[7]] + back[8..];
  }
}
