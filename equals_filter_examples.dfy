/** Worked instances of the equality filter on a three-document collection,
    with the collaborators fixed to simple stand-ins: field lookup by name
    (an absent field reads as null), structural equality of values, and
    identifiers that wrap the number they are created from. */
module EqualsFilterExamples {
  import opened Nitrite
  import opened Filters
  import LinkedSet

  function NameDocument(name: string): Document {
    map["name" := Text(name)]
  }

  /** `{1: {name: "a"}, 2: {name: "b"}, 3: {name: "a"}}` in key order. */
  function People(): (m: DocumentMap)
    ensures |m| == 3
  {
    [(NitriteId(1), NameDocument("a")), (NitriteId(2), NameDocument("b")), (NitriteId(3), NameDocument("a"))]
  }

  /** A catalog with no index at all. */
  function Unindexed(): QueryContext {
    QueryContext(
      hasIndex := _ => false,
      isIndexing := _ => false,
      indexType := _ => NonSpatial,
      findEqual := (_, _) => [],
      getFieldValue := (document: Document, field: string) => if field in document then document[field] else Null,
      deepEquals := (x: Value, y: Value) => x == y,
      createId := (n: int64) => NitriteId(n))
  }

  /** The same collaborators, with a finished spatial index on `name`. */
  function SpatialOnName(): QueryContext {
    Unindexed().(hasIndex := (field: string) => field == "name", indexType := _ => Spatial)
  }

  /** Without an index, `name == "a"` scans the collection and finds 1 and 3,
      in that order. */
  lemma ScanFindsMatchesInOrder()
    ensures Evaluate(EqualsFilter("name", Text("a")), People(), Unindexed()) == Ok([NitriteId(1), NitriteId(3)])
  {
    var m, ctx := People(), Unindexed();
    assert Matches(m[0].1, "name", Text("a"), ctx) && !Matches(m[1].1, "name", Text("a"), ctx);
    assert Matches(m[2].1, "name", Text("a"), ctx);
    assert m[..1][..0] == [] && m[..2][..1] == m[..1] && m[..3] == m;
    assert Matching(m[..1], "name", Text("a"), ctx) == [NitriteId(1)];
    assert Matching(m[..2], "name", Text("a"), ctx) == [NitriteId(1)];
    assert Matching(m, "name", Text("a"), ctx) == LinkedSet.Add([NitriteId(1)], NitriteId(3));
    assert LinkedSet.Add([NitriteId(1)], NitriteId(3)) == [NitriteId(1), NitriteId(3)];
    assert "name" != DOC_ID;
    assert !UsesIndex(EqualsFilter("name", Text("a")), ctx);
  }

  /** On the primary key, the `Long` 2 finds document 2, the `Long` 99 finds
      nothing, and neither a string nor an `Integer` 2 is looked up at all. */
  lemma PrimaryKeyExamples()
    ensures Evaluate(EqualsFilter(DOC_ID, Long(2)), People(), Unindexed()) == Ok([NitriteId(2)])
    ensures Evaluate(EqualsFilter(DOC_ID, Long(99)), People(), Unindexed()) == Ok([])
    ensures Evaluate(EqualsFilter(DOC_ID, Text("x")), People(), Unindexed()) == Ok([])
    ensures Evaluate(EqualsFilter(DOC_ID, Integer(2)), People(), Unindexed()) == Ok([])
  {
    assert People()[1].0 == NitriteId(2);
  }

  /** With a spatial index on `name`, an equality filter on it throws, while a
      null value on the same field still falls back to the scan. */
  lemma SpatialIndexExamples()
    ensures Evaluate(EqualsFilter("name", Text("a")), People(), SpatialOnName()) == Err(EqNotSpatial)
    ensures Evaluate(EqualsFilter("name", Null), People(), SpatialOnName()) == Ok([])
  {
    var m, ctx := People(), SpatialOnName();
    assert !Matches(m[0].1, "name", Null, ctx) && !Matches(m[1].1, "name", Null, ctx);
    assert !Matches(m[2].1, "name", Null, ctx);
    assert m[..1][..0] == [] && m[..2][..1] == m[..1] && m[..3] == m;
    assert Matching(m[..1], "name", Null, ctx) == [];
    assert Matching(m[..2], "name", Null, ctx) == [];
  }
}
