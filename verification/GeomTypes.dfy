/** The types of geometries: their numbers in liblwgeom/liblwgeom.h.in, collections in liblwgeom/lwgeom.c
    and liblwgeom/lwcollection.c. */
module GeomTypes {

  const POINTTYPE := 1
  const LINETYPE := 2
  const POLYGONTYPE := 3
  const MULTIPOINTTYPE := 4
  const MULTILINETYPE := 5
  const MULTIPOLYGONTYPE := 6
  const COLLECTIONTYPE := 7
  const CIRCSTRINGTYPE := 8
  const COMPOUNDTYPE := 9
  const CURVEPOLYTYPE := 10
  const MULTICURVETYPE := 11
  const MULTISURFACETYPE := 12
  const POLYHEDRALSURFACETYPE := 13
  const TRIANGLETYPE := 14
  const TINTYPE := 15

  /** lwtype_is_collection. */
  predicate IsCollectionType(t: int) {
    t in {MULTIPOINTTYPE, MULTILINETYPE, MULTIPOLYGONTYPE, COLLECTIONTYPE, CURVEPOLYTYPE, COMPOUNDTYPE,
          MULTICURVETYPE, MULTISURFACETYPE, POLYHEDRALSURFACETYPE, TINTYPE}
  }

  /** lwtype_get_collectiontype: the homogeneous collection that can hold a type. */
  function CollectionTypeOf(t: nat): nat {
    if t == POINTTYPE then MULTIPOINTTYPE
    else if t == LINETYPE then MULTILINETYPE
    else if t == POLYGONTYPE then MULTIPOLYGONTYPE
    else if t == CIRCSTRINGTYPE || t == COMPOUNDTYPE then MULTICURVETYPE
    else if t == CURVEPOLYTYPE then MULTISURFACETYPE
    else if t == TRIANGLETYPE then TINTYPE
    else COLLECTIONTYPE
  }

  /** lwcollection_allows_subtype. */
  predicate AllowsSubtype(kind: int, subtype: int) {
    || kind == COLLECTIONTYPE
    || (kind == MULTIPOINTTYPE && subtype == POINTTYPE)
    || (kind == MULTILINETYPE && subtype == LINETYPE)
    || (kind == MULTIPOLYGONTYPE && subtype == POLYGONTYPE)
    || (kind == COMPOUNDTYPE && subtype in {LINETYPE, CIRCSTRINGTYPE})
    || (kind == CURVEPOLYTYPE && subtype in {CIRCSTRINGTYPE, LINETYPE, COMPOUNDTYPE})
    || (kind == MULTICURVETYPE && subtype in {CIRCSTRINGTYPE, LINETYPE, COMPOUNDTYPE})
    || (kind == MULTISURFACETYPE && subtype in {POLYGONTYPE, CURVEPOLYTYPE})
    || (kind == POLYHEDRALSURFACETYPE && subtype == POLYGONTYPE)
    || (kind == TINTYPE && subtype == TRIANGLETYPE)
  }

  /** The types in numbers. */
  lemma TypeNumbers(t: nat)
    ensures IsCollectionType(t) <==> t in {4, 5, 6, 7, 9, 10, 11, 12, 13, 15}
    ensures CollectionTypeOf(1) == 4 && CollectionTypeOf(2) == 5 && CollectionTypeOf(3) == 6
    ensures CollectionTypeOf(8) == CollectionTypeOf(9) == 11 && CollectionTypeOf(10) == 12 && CollectionTypeOf(14) == 15
    ensures t !in {1, 2, 3, 8, 9, 10, 14} ==> CollectionTypeOf(t) == 7
  {
  }

  /** Which collection may hold which member, in numbers: any in 7, and otherwise these pairs. */
  lemma SubtypeNumbers(kind: nat, t: nat)
    ensures AllowsSubtype(kind, t) <==>
              || kind == 7
              || (kind, t) in {(4, 1), (5, 2), (6, 3), (9, 2), (9, 8), (10, 2), (10, 8), (10, 9), (11, 2), (11, 8),
                               (11, 9), (12, 3), (12, 10), (13, 3), (15, 14)}
  {
  }

  /** The collection for a type is a collection and may hold it. */
  lemma CollectionHoldsType(t: nat)
    ensures IsCollectionType(CollectionTypeOf(t)) && AllowsSubtype(CollectionTypeOf(t), t)
  {
  }
}
