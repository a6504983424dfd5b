/** The size functions, writers and readers of liblwgeom/gserialized2.c. */
module SerializedCode {
  import opened Arith
  import opened ByteOrder
  import opened GeomTypes
  import opened Serialized

  // ----- one more ring or member -----

  lemma Associative(a: seq<byte>, b: seq<byte>, c: seq<byte>)
    ensures a + (b + c) == (a + b) + c
  {
  }

  lemma {:induction false} OneMoreRing(rings: seq<PointArray>, r: PointArray)
    ensures RingsBytes(rings + [r]) == RingsBytes(rings) + PointsBytes(r)
  {
    hide PointsBytes;
    var more := rings + [r];
    if rings == [] {
      assert more == [r] && more[1..] == [];
    } else {
      OneMoreRing(rings[1..], r);
      assert more[1..] == rings[1..] + [r] && more[0] == rings[0];
      Associative(PointsBytes(rings[0]), RingsBytes(rings[1..]), PointsBytes(r));
    }
  }

  lemma {:induction false} OneMoreCount(rings: seq<PointArray>, r: PointArray)
    ensures RingCounts(rings + [r]) == RingCounts(rings) + Little(|r|, 4)
  {
    hide Little;
    var more := rings + [r];
    if rings == [] {
      assert more == [r] && more[1..] == [];
    } else {
      OneMoreCount(rings[1..], r);
      assert more[1..] == rings[1..] + [r] && more[0] == rings[0];
      Associative(Little(|rings[0]|, 4), RingCounts(rings[1..]), Little(|r|, 4));
    }
  }

  lemma {:induction false} OneMoreMember(geoms: seq<Geometry>, g: Geometry)
    ensures AllBytes(geoms + [g]) == AllBytes(geoms) + Bytes(g)
  {
    hide Bytes;
    if geoms == [] {
      assert geoms + [g] == [g];
      assert [g][1..] == [];
      assert AllBytes([g]) == Bytes(g) + AllBytes([]);
    } else {
      OneMoreMember(geoms[1..], g);
      assert (geoms + [g])[1..] == geoms[1..] + [g];
    }
  }

  lemma NextRing(rings: seq<PointArray>, i: nat)
    requires i < |rings|
    ensures RingsBytes(rings[..i + 1]) == RingsBytes(rings[..i]) + PointsBytes(rings[i])
    ensures RingCounts(rings[..i + 1]) == RingCounts(rings[..i]) + Little(|rings[i]|, 4)
  {
    hide PointsBytes, Little, RingsBytes, RingCounts;
    assert rings[..i + 1] == rings[..i] + [rings[i]];
    OneMoreRing(rings[..i], rings[i]);
    OneMoreCount(rings[..i], rings[i]);
  }

  lemma NextMember(geoms: seq<Geometry>, i: nat)
    requires i < |geoms|
    ensures AllBytes(geoms[..i + 1]) == AllBytes(geoms[..i]) + Bytes(geoms[i])
  {
    hide Bytes, AllBytes;
    assert geoms[..i + 1] == geoms[..i] + [geoms[i]];
    OneMoreMember(geoms[..i], geoms[i]);
  }

  // ----- the size functions -----

  /** Point, line, triangle and circular string. */
  method SimpleSize(g: Geometry, dims: nat) returns (size: nat)
    requires WellFormed(g, dims) && !g.Polygon? && !g.Collection?
    ensures size == |Bytes(g)|
  {
    PointsBytesLength(g.points, dims);
    size := 4;
    size := size + 4;
    size := size + |g.points| * dims * 8;
  }

  method PolygonSize(rings: seq<PointArray>, dims: nat) returns (size: nat)
    requires WellFormed(Polygon(rings), dims)
    ensures size == |Bytes(Polygon(rings))|
  {
    hide Bytes, PointsBytes, RingsBytes, Uniform;
    size := 4;
    var pointSize := dims * 8;
    size := size + 4;
    if |rings| % 2 == 1 {
      size := size + 4;
    }
    NoRings(rings);
    for i := 0 to |rings|
      invariant size == 8 + |Padding(|rings|)| + 4 * i + |RingsBytes(rings[..i])|
    {
      NextRing(rings, i);
      PointsBytesLength(rings[i], dims);
      MulAssoc(|rings[i]|, dims, 8);
      size := size + 4;
      size := size + |rings[i]| * pointSize;
    }
    assert rings[..|rings|] == rings;
    PolygonLength(rings);
  }

  lemma NoRings(rings: seq<PointArray>)
    ensures RingsBytes(rings[..0]) == [] && RingCounts(rings[..0]) == []
  {
  }

  lemma PolygonLength(rings: seq<PointArray>)
    ensures |Bytes(Polygon(rings))| == 8 + 4 * |rings| + |Padding(|rings|)| + |RingsBytes(rings)|
  {
  }

  /** The size computed beforehand is the number of bytes written. */
  method SizeOf(g: Geometry, dims: nat) returns (size: nat)
    requires WellFormed(g, dims)
    ensures size == |Bytes(g)|
    decreases g
  {
    match g {
      case Polygon(rings) =>
        size := PolygonSize(rings, dims);
      case Collection(kind, geoms) =>
        size := 4;
        size := size + 4;
        for i := 0 to |geoms|
          invariant size == 8 + |AllBytes(geoms[..i])|
        {
          NextMember(geoms, i);
          var subsize := SizeOf(geoms[i], dims);
          size := size + subsize;
        }
        assert geoms[..|geoms|] == geoms;
      case _ =>
        size := SimpleSize(g, dims);
    }
  }

  // ----- the writers -----

  method WriteHead(kind: nat, count: nat, buf: array<byte>, at: nat) returns (loc: nat)
    requires at + 8 <= buf.Length
    modifies buf
    ensures Wrote(old(buf[..]), buf[..], at, Head(kind, count)) && loc == at + 8
  {
    hide Wrote;
    ghost var was := buf[..];
    loc := at;
    Copy(buf, loc, Little(kind, 4));
    ghost var mid := buf[..];
    loc := loc + 4;
    Copy(buf, loc, Little(count, 4));
    loc := loc + 4;
    WroteMore(was, mid, buf[..], at, Little(kind, 4), Little(count, 4));
  }

  /** A point writes its first coordinate only, the other kinds all of theirs. */
  method WriteSimple(g: Geometry, dims: nat, buf: array<byte>, at: nat) returns (size: nat)
    requires WellFormed(g, dims) && !g.Polygon? && !g.Collection? && at + |Bytes(g)| <= buf.Length
    modifies buf
    ensures Wrote(old(buf[..]), buf[..], at, Bytes(g)) && size == |Bytes(g)|
  {
    hide Wrote, PointsBytes, Head;
    ghost var was := buf[..];
    SimpleParts(g);
    var loc := WriteHead(TypeOf(g), |g.points|, buf, at);
    ghost var mid := buf[..];
    if |g.points| > 0 {
      var pointlist := if g.Point? then PointsBytes(g.points[..1]) else PointsBytes(g.points);
      assert g.Point? ==> g.points[..1] == g.points;
      Copy(buf, loc, pointlist);
      loc := loc + |pointlist|;
      WroteMore(was, mid, buf[..], at, Head(TypeOf(g), |g.points|), PointsBytes(g.points));
    } else {
      assert PointsBytes(g.points) == [] by { NoPoints(g.points); }
      assert Bytes(g) == Head(TypeOf(g), |g.points|);
    }
    size := loc - at;
  }

  lemma SimpleParts(g: Geometry)
    requires !g.Polygon? && !g.Collection?
    ensures Bytes(g) == Head(TypeOf(g), |g.points|) + PointsBytes(g.points)
  {
  }

  lemma NoPoints(points: PointArray)
    requires points == []
    ensures PointsBytes(points) == []
  {
  }

  method WriteCounts(rings: seq<PointArray>, buf: array<byte>, at: nat) returns (loc: nat)
    requires at + 4 * |rings| <= buf.Length
    modifies buf
    ensures Wrote(old(buf[..]), buf[..], at, RingCounts(rings)) && loc == at + 4 * |rings|
  {
    hide Wrote;
    ghost var was := buf[..];
    loc := at;
    NoRings(rings);
    WroteNothing(was, at);
    for i := 0 to |rings|
      invariant loc == at + 4 * i && Wrote(was, buf[..], at, RingCounts(rings[..i]))
    {
      ghost var mid := buf[..];
      Copy(buf, loc, Little(|rings[i]|, 4));
      loc := loc + 4;
      WroteMore(was, mid, buf[..], at, RingCounts(rings[..i]), Little(|rings[i]|, 4));
      NextRing(rings, i);
    }
    assert rings[..|rings|] == rings;
  }

  method WriteRings(rings: seq<PointArray>, dims: nat, buf: array<byte>, at: nat) returns (loc: nat)
    requires at + |RingsBytes(rings)| <= buf.Length
    modifies buf
    ensures Wrote(old(buf[..]), buf[..], at, RingsBytes(rings)) && loc == at + |RingsBytes(rings)|
  {
    hide Wrote, PointsBytes, RingsBytes, RingCounts;
    ghost var was := buf[..];
    loc := at;
    NoRings(rings);
    WroteNothing(was, at);
    for i := 0 to |rings|
      invariant loc == at + |RingsBytes(rings[..i])| && Wrote(was, buf[..], at, RingsBytes(rings[..i]))
    {
      ghost var mid := buf[..];
      NextRing(rings, i);
      RingsPrefix(rings, i + 1);
      if |rings[i]| > 0 {
        Copy(buf, loc, PointsBytes(rings[i]));
      } else {
        NoPoints(rings[i]);
        WroteNothing(mid, loc);
      }
      loc := loc + |PointsBytes(rings[i])|;
      WroteMore(was, mid, buf[..], at, RingsBytes(rings[..i]), PointsBytes(rings[i]));
    }
    assert rings[..|rings|] == rings;
  }

  lemma {:induction false} RingsPrefix(rings: seq<PointArray>, i: nat)
    requires i <= |rings|
    ensures |RingsBytes(rings[..i])| <= |RingsBytes(rings)|
    decreases |rings| - i
  {
    if i < |rings| {
      NextRing(rings, i);
      RingsPrefix(rings, i + 1);
    } else {
      assert rings[..i] == rings;
    }
  }

  method WritePolygon(rings: seq<PointArray>, dims: nat, buf: array<byte>, at: nat) returns (size: nat)
    requires WellFormed(Polygon(rings), dims) && at + |Bytes(Polygon(rings))| <= buf.Length
    modifies buf
    ensures Wrote(old(buf[..]), buf[..], at, Bytes(Polygon(rings))) && size == |Bytes(Polygon(rings))|
  {
    hide Wrote, RingsBytes, RingCounts, Head, Bytes, Padding, Little, WellFormed;
    ghost var was := buf[..];
    PolygonLength(rings);
    PaddingIs(|rings|);
    var loc := WriteHead(POLYGONTYPE, |rings|, buf, at);
    ghost var s1 := buf[..];
    loc := WriteCounts(rings, buf, loc);
    ghost var s2 := buf[..];
    if |rings| % 2 == 1 {
      Copy(buf, loc, Little(0, 4));
      loc := loc + 4;
    } else {
      WroteNothing(s2, loc);
    }
    ghost var s3 := buf[..];
    loc := WriteRings(rings, dims, buf, loc);
    PolygonAssembled(rings, at, was, s1, s2, s3, buf[..]);
    size := loc - at;
  }

  lemma PaddingIs(n: nat)
    ensures Padding(n) == if n % 2 == 1 then Little(0, 4) else []
  {
  }

  lemma PolygonAssembled(rings: seq<PointArray>, at: nat, was: seq<byte>, s1: seq<byte>, s2: seq<byte>, s3: seq<byte>,
                         now: seq<byte>)
    requires Wrote(was, s1, at, Head(POLYGONTYPE, |rings|)) && Wrote(s1, s2, at + 8, RingCounts(rings))
    requires Wrote(s2, s3, at + 8 + 4 * |rings|, Padding(|rings|))
    requires Wrote(s3, now, at + 8 + 4 * |rings| + |Padding(|rings|)|, RingsBytes(rings))
    ensures Wrote(was, now, at, Bytes(Polygon(rings)))
  {
    hide Wrote, RingsBytes, RingCounts, Head, Padding;
    WroteMore(s1, s2, s3, at + 8, RingCounts(rings), Padding(|rings|));
    WroteMore(s1, s3, now, at + 8, RingCounts(rings) + Padding(|rings|), RingsBytes(rings));
    WroteMore(was, s1, now, at, Head(POLYGONTYPE, |rings|), RingCounts(rings) + Padding(|rings|) + RingsBytes(rings));
  }

  /** The writer overwrites exactly its stretch of the buffer, with the bytes of the geometry. */
  method WriteAny(g: Geometry, dims: nat, buf: array<byte>, at: nat) returns (size: nat)
    requires WellFormed(g, dims) && at + |Bytes(g)| <= buf.Length
    modifies buf
    ensures Wrote(old(buf[..]), buf[..], at, Bytes(g)) && size == |Bytes(g)|
    decreases g, 0
  {
    match g {
      case Polygon(rings) =>
        size := WritePolygon(rings, dims, buf, at);
      case Collection(kind, geoms) =>
        size := WriteCollection(kind, geoms, dims, buf, at);
      case _ =>
        size := WriteSimple(g, dims, buf, at);
    }
  }

  method WriteCollection(kind: nat, geoms: seq<Geometry>, dims: nat, buf: array<byte>, at: nat) returns (size: nat)
    requires AllWellFormed(geoms, dims) && at + |Bytes(Collection(kind, geoms))| <= buf.Length
    modifies buf
    ensures Wrote(old(buf[..]), buf[..], at, Bytes(Collection(kind, geoms))) && size == |Bytes(Collection(kind, geoms))|
    decreases geoms, 1
  {
    hide Wrote, Head, Bytes, AllBytes;
    ghost var was := buf[..];
    CollectionParts(kind, geoms);
    var loc := WriteHead(kind, |geoms|, buf, at);
    ghost var head := buf[..];
    WroteNothing(head, loc);
    for i := 0 to |geoms|
      invariant loc == at + 8 + |AllBytes(geoms[..i])| && Wrote(head, buf[..], at + 8, AllBytes(geoms[..i]))
    {
      ghost var mid := buf[..];
      NextMember(geoms, i);
      MembersPrefix(geoms, i + 1);
      var subsize := WriteAny(geoms[i], dims, buf, loc);
      loc := loc + subsize;
      WroteMore(head, mid, buf[..], at + 8, AllBytes(geoms[..i]), Bytes(geoms[i]));
    }
    assert geoms[..|geoms|] == geoms;
    WroteMore(was, head, buf[..], at, Head(kind, |geoms|), AllBytes(geoms));
    size := loc - at;
  }

  lemma CollectionParts(kind: nat, geoms: seq<Geometry>)
    ensures Bytes(Collection(kind, geoms)) == Head(kind, |geoms|) + AllBytes(geoms)
    ensures AllBytes(geoms[..0]) == []
  {
  }

  lemma {:induction false} MembersPrefix(geoms: seq<Geometry>, i: nat)
    requires i <= |geoms|
    ensures |AllBytes(geoms[..i])| <= |AllBytes(geoms)|
    decreases |geoms| - i
  {
    if i < |geoms| {
      NextMember(geoms, i);
      MembersPrefix(geoms, i + 1);
    } else {
      assert geoms[..i] == geoms;
    }
  }

  // ----- the readers -----

  /** The reader for polygons: one pointer walks the counts, another one the ordinates. */
  method ReadPolygon(buf: seq<byte>, at: nat, dims: nat) returns (r: Parsed)
    requires at + 8 <= |buf|
    ensures r == ParsePolygon(buf, at + 8, Uint32(buf, at + 4), dims)
  {
    hide Uint32, RunLength, ReadPoints, Prepend;
    var dataPtr := at + 4;
    var nrings := Uint32(buf, dataPtr);
    dataPtr := dataPtr + 4;
    var ordinatePtr: nat := dataPtr;
    if nrings > 0 {
      ordinatePtr := ordinatePtr + nrings * 4;
      if nrings % 2 == 1 {
        ordinatePtr := ordinatePtr + 4;
      }
    }
    if ordinatePtr > |buf| { return Bad; }
    ghost var whole := ReadRings(buf, dataPtr, ordinatePtr, nrings, dims);
    var rings: seq<PointArray> := [];
    var i: nat := 0;
    PrependNothing(whole, BadMember);
    while i < nrings
      invariant 0 <= i <= nrings && dataPtr == at + 8 + 4 * i && dataPtr + 4 * (nrings - i) <= |buf|
      invariant ordinatePtr <= |buf| && whole == Prepend(rings, ReadRings(buf, dataPtr, ordinatePtr, nrings - i, dims))
    {
      var npoints := Uint32(buf, dataPtr);
      ReadRingsNext(buf, dataPtr, ordinatePtr, nrings - i, dims);
      if ordinatePtr + RunLength(npoints, dims) > |buf| {
        PrependBad(rings, []);
        return Bad;
      }
      dataPtr := dataPtr + 4;
      var ring := ReadPoints(buf, ordinatePtr, npoints, dims);
      ordinatePtr := ordinatePtr + RunLength(npoints, dims);
      PrependMore(rings, ring, ReadRings(buf, dataPtr, ordinatePtr, nrings - i - 1, dims));
      rings := rings + [ring];
      i := i + 1;
    }
    PrependAll(rings, [], ordinatePtr);
    r := Parsed(Polygon(rings), ordinatePtr);
  }

  lemma ReadRingsNext(buf: seq<byte>, at: nat, ord: nat, n: nat, dims: nat)
    requires 0 < n && at + 4 * n <= |buf| && ord <= |buf|
    ensures var npoints := Uint32(buf, at);
            ReadRings(buf, at, ord, n, dims) ==
            if ord + RunLength(npoints, dims) > |buf| then BadRing
            else Prepend([ReadPoints(buf, ord, npoints, dims)],
                         ReadRings(buf, at + 4, ord + RunLength(npoints, dims), n - 1, dims))
  {
    hide Uint32, RunLength, ReadPoints;
  }

  lemma PrependBad(rings: seq<PointArray>, geoms: seq<Geometry>)
    ensures Prepend(rings, BadRing) == BadRing && PrependMembers(geoms, BadMember) == BadMember
  {
  }

  function Prepend(rings: seq<PointArray>, rest: Rings): Rings {
    if rest.BadRing? then BadRing else Rings(rings + rest.rings, rest.after)
  }

  lemma PrependNothing(rest: Rings, several: Several)
    ensures Prepend([], rest) == rest && PrependMembers([], several) == several
  {
    if rest.Rings? { assert [] + rest.rings == rest.rings; }
    if several.Several? { assert [] + several.geoms == several.geoms; }
  }

  lemma PrependAll(rings: seq<PointArray>, geoms: seq<Geometry>, after: nat)
    ensures Prepend(rings, Rings([], after)) == Rings(rings, after)
    ensures PrependMembers(geoms, Several([], after)) == Several(geoms, after)
  {
  }

  lemma PrependMore(rings: seq<PointArray>, ring: PointArray, rest: Rings)
    ensures Prepend(rings, Prepend([ring], rest)) == Prepend(rings + [ring], rest)
  {
    if rest.Rings? { assert rings + ([ring] + rest.rings) == rings + [ring] + rest.rings; }
  }

  function PrependMembers(geoms: seq<Geometry>, rest: Several): Several {
    if rest.BadMember? then BadMember else Several(geoms + rest.geoms, rest.after)
  }

  lemma PrependMoreMembers(geoms: seq<Geometry>, g: Geometry, rest: Several)
    ensures PrependMembers(geoms, PrependMembers([g], rest)) == PrependMembers(geoms + [g], rest)
  {
    if rest.Several? { assert geoms + ([g] + rest.geoms) == geoms + [g] + rest.geoms; }
  }

  method ReadCollection(buf: seq<byte>, at: nat, dims: nat) returns (r: Parsed)
    requires at + 8 <= |buf| && IsCollectionType(Uint32(buf, at))
    ensures r == Parse(buf, at, dims)
    decreases |buf| - at, 0
  {
    hide Uint32, AllowsSubtype, Parse, ParseMembers, PrependMembers;
    var dataPtr := at;
    var kind := Uint32(buf, dataPtr);
    dataPtr := dataPtr + 4;
    var ngeoms := Uint32(buf, dataPtr);
    dataPtr := dataPtr + 4;
    ParseCollectionIs(buf, at, dims);
    ghost var whole := ParseMembers(buf, dataPtr, kind, ngeoms, dims);
    var geoms: seq<Geometry> := [];
    var i: nat := 0;
    PrependNothing(BadRing, whole);
    while i < ngeoms
      invariant 0 <= i <= ngeoms && at + 8 <= dataPtr <= |buf|
      invariant whole == PrependMembers(geoms, ParseMembers(buf, dataPtr, kind, ngeoms - i, dims))
    {
      PrependBad([], geoms);
      if dataPtr + 4 > |buf| {
        ParseMembersLeaves(buf, dataPtr, kind, ngeoms - i, dims);
        return Bad;
      }
      var subtype := Uint32(buf, dataPtr);
      if !AllowsSubtype(kind, subtype) {
        ParseMembersRefuses(buf, dataPtr, kind, ngeoms - i, dims);
        return Bad;
      }
      var sub := ReadAny(buf, dataPtr, dims);
      ParseMembersNext(buf, dataPtr, kind, ngeoms - i, dims);
      if sub.Bad? { return Bad; }
      PrependMoreMembers(geoms, sub.geom, ParseMembers(buf, sub.next, kind, ngeoms - i - 1, dims));
      PrependOne(sub.geom, ParseMembers(buf, sub.next, kind, ngeoms - i - 1, dims));
      geoms := geoms + [sub.geom];
      dataPtr := sub.next;
      i := i + 1;
    }
    PrependAll([], geoms, dataPtr);
    ParseMembersEnds(buf, dataPtr, kind, dims);
    r := Parsed(Collection(kind, geoms), dataPtr);
  }

  lemma ParseMembersLeaves(buf: seq<byte>, at: nat, kind: nat, n: nat, dims: nat)
    requires 0 < n && at <= |buf| < at + 4
    ensures ParseMembers(buf, at, kind, n, dims) == BadMember
  {
  }

  lemma PrependOne(g: Geometry, rest: Several)
    ensures PrependMembers([g], rest) == if rest.BadMember? then BadMember else Several([g] + rest.geoms, rest.after)
  {
  }

  lemma ParseCollectionIs(buf: seq<byte>, at: nat, dims: nat)
    requires at + 8 <= |buf| && IsCollectionType(Uint32(buf, at))
    ensures var kind := Uint32(buf, at);
            var members := ParseMembers(buf, at + 8, kind, Uint32(buf, at + 4), dims);
            Parse(buf, at, dims) ==
              if members.BadMember? then Bad else Parsed(Collection(kind, members.geoms), members.after)
  {
    hide Uint32, ParseMembers;
  }

  /** Reads one geometry and computes the position after it as the parser does. */
  method ReadAny(buf: seq<byte>, at: nat, dims: nat) returns (r: Parsed)
    requires at <= |buf|
    ensures r == Parse(buf, at, dims)
    decreases |buf| - at, 1
  {
    hide Uint32, ParseMembers, ParseSimple, ParsePolygon;
    if at + 8 > |buf| { return Bad; }
    var kind := Uint32(buf, at);
    if kind in {POINTTYPE, LINETYPE, TRIANGLETYPE, CIRCSTRINGTYPE} {
      r := ReadSimple(buf, at, dims);
    } else if kind == POLYGONTYPE {
      r := ReadPolygon(buf, at, dims);
    } else if IsCollectionType(kind) {
      r := ReadCollection(buf, at, dims);
    } else {
      r := Bad;
    }
  }

  method ReadSimple(buf: seq<byte>, at: nat, dims: nat) returns (r: Parsed)
    requires at + 8 <= |buf| && Uint32(buf, at) in {POINTTYPE, LINETYPE, TRIANGLETYPE, CIRCSTRINGTYPE}
    ensures r == ParseSimple(buf, at + 8, Uint32(buf, at), Uint32(buf, at + 4), dims)
  {
    hide Uint32, RunLength;
    var dataPtr := at;
    var kind := Uint32(buf, dataPtr);
    dataPtr := dataPtr + 4;
    var npoints := Uint32(buf, dataPtr);
    dataPtr := dataPtr + 4;
    if dataPtr + RunLength(npoints, dims) > |buf| { return Bad; }
    var points: PointArray := [];
    if npoints > 0 {
      points := ReadPoints(buf, dataPtr, npoints, dims);
      if kind == POINTTYPE {
        points := points[..1];
        assert npoints == 1 ==> points == ReadPoints(buf, dataPtr, npoints, dims);
      }
    }
    dataPtr := dataPtr + RunLength(npoints, dims);
    r := Parsed(WithPoints(kind, points), dataPtr);
  }

  /** Writing a geometry anywhere into a buffer and reading there gives it back. */
  method WriteThenRead(g: Geometry, dims: nat, buf: array<byte>, at: nat) returns (r: Parsed)
    requires WellFormed(g, dims) && SubtypesAllowed(g) && |Bytes(g)| < SIZE_LIMIT && at + |Bytes(g)| <= buf.Length
    modifies buf
    ensures r == Parsed(g, at + |Bytes(g)|)
  {
    hide Wrote, At, WellFormed, Bytes, Parse;
    ghost var was := buf[..];
    var size := WriteAny(g, dims, buf, at);
    WroteAt(was, buf[..], at, Bytes(g));
    RoundTrip(g, dims, buf[..], at);
    r := ReadAny(buf[..], at, dims);
  }
}
