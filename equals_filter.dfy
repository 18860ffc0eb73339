/** The single-field equality filter (`EqualsFilter`) and the collaborators it
    consults: the document map, the index catalog of its indexed-query
    template, and the static helpers it calls. */
module Filters {
  import opened Nitrite
  import opened LinkedSet

  /** The reserved field that holds a document's identifier. */
  const DOC_ID: string := "_id"

  /** Distinct entries have distinct keys. */
  ghost predicate DistinctKeys(entries: seq<(NitriteId, Document)>) {
    forall i, j :: 0 <= i < j < |entries| ==> entries[i].0 != entries[j].0
  }

  /** The document map as the filter sees it: its entries in iteration order,
      each key once. */
  type DocumentMap = entries: seq<(NitriteId, Document)> | DistinctKeys(entries)

  /** `documentMap.containsKey(id)` */
  predicate ContainsKey(entries: seq<(NitriteId, Document)>, id: NitriteId) {
    exists i :: 0 <= i < |entries| && entries[i].0 == id
  }

  /** Everything the filter asks of code outside it:
      the index catalog (`hasIndex`, `isIndexing`, `findIndex(..).getIndexType()`),
      the comparable indexer's `findEqual`, `DocumentUtils.getFieldValue`,
      `EqualsUtils.deepEquals` and `NitriteId.createId`.
      Each is an arbitrary function: the model relies on no property of it. */
  datatype QueryContext = QueryContext(
    hasIndex: string -> bool,
    isIndexing: string -> bool,
    indexType: string -> IndexType,
    findEqual: (string, Value) -> seq<NitriteId>,
    getFieldValue: (Document, string) -> Value,
    deepEquals: (Value, Value) -> bool,
    createId: int64 -> NitriteId)

  /** An equality predicate `field == value`; both are fixed at construction. */
  datatype EqualsFilter = EqualsFilter(field: string, value: Value)

  /** The index fast path applies: the field has an index, the index is not
      being built, and the value is not null. */
  predicate UsesIndex(filter: EqualsFilter, ctx: QueryContext) {
    ctx.hasIndex(filter.field) && !ctx.isIndexing(filter.field) && !filter.value.Null?
  }

  /** The full-scan test of one document. */
  predicate Matches(document: Document, field: string, value: Value, ctx: QueryContext) {
    ctx.deepEquals(ctx.getFieldValue(document, field), value)
  }

  /** The full scan as a specification: the keys of the matching entries,
      added one after another to an insertion-ordered set. */
  function Matching(entries: seq<(NitriteId, Document)>, field: string, value: Value, ctx: QueryContext): (r: seq<NitriteId>)
    ensures NoDuplicates(r)
    ensures forall id :: id in r ==> ContainsKey(entries, id)
    decreases |entries|
  {
    if entries == [] then []
    else
      var prefix := Matching(entries[..|entries| - 1], field, value, ctx);
      var (id, document) := entries[|entries| - 1];
      if Matches(document, field, value, ctx) then Add(prefix, id) else prefix
  }

  /** What `apply` returns or throws, in the order the source decides it:
      the primary-key path, then the index path, then the full scan. */
  function Evaluate(filter: EqualsFilter, documentMap: DocumentMap, ctx: QueryContext): Result<seq<NitriteId>> {
    if filter.field == DOC_ID then
      if filter.value.IsLong() && ContainsKey(documentMap, ctx.createId(filter.value.n))
      then Ok([ctx.createId(filter.value.n)])
      else Ok([])
    else if UsesIndex(filter, ctx) then
      if ctx.indexType(filter.field) == Spatial then Err(EqNotSpatial)
      else if filter.value.IsComparable() then Ok(ctx.findEqual(filter.field, filter.value))
      else Err(EqualNotComparable(filter.value))
    else
      Ok(Matching(documentMap, filter.field, filter.value, ctx))
  }

  /** `matchedSet`: walk the entries in order and add the key of every entry
      whose field value deep-equals the filter's value. */
  method MatchedSet(filter: EqualsFilter, documentMap: DocumentMap, ctx: QueryContext) returns (nitriteIdSet: seq<NitriteId>)
    ensures nitriteIdSet == Matching(documentMap, filter.field, filter.value, ctx)
  {
    nitriteIdSet := [];
    for k := 0 to |documentMap|
      invariant nitriteIdSet == Matching(documentMap[..k], filter.field, filter.value, ctx)
    {
      var (id, document) := documentMap[k];
      var fieldValue := ctx.getFieldValue(document, filter.field);
      if ctx.deepEquals(fieldValue, filter.value) {
        nitriteIdSet := Add(nitriteIdSet, id);
      }
      assert documentMap[..k + 1][..k] == documentMap[..k];
    }
    assert documentMap[..|documentMap|] == documentMap;
  }

  /** `apply`: the three-way dispatch. */
  method Apply(filter: EqualsFilter, documentMap: DocumentMap, ctx: QueryContext) returns (r: Result<seq<NitriteId>>)
    ensures r == Evaluate(filter, documentMap, ctx)
  {
    if filter.field == DOC_ID {
      var nitriteIdSet: seq<NitriteId> := [];
      var nitriteId: Option<NitriteId> := None;
      if filter.value.IsLong() {
        nitriteId := Some(ctx.createId(filter.value.n));
      }
      if nitriteId.Some? {
        if ContainsKey(documentMap, nitriteId.value) {
          nitriteIdSet := Add(nitriteIdSet, nitriteId.value);
        }
      }
      return Ok(nitriteIdSet);
    } else if UsesIndex(filter, ctx) {
      if ctx.indexType(filter.field) == Spatial {
        return Err(EqNotSpatial);
      }
      if filter.value.IsComparable() {
        return Ok(ctx.findEqual(filter.field, filter.value));
      } else {
        return Err(EqualNotComparable(filter.value));
      }
    } else {
      var matched := MatchedSet(filter, documentMap, ctx);
      return Ok(matched);
    }
  }
}
