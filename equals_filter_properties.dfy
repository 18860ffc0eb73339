/** What `EqualsFilter.apply` promises, stated over its specification
    `Filters.Evaluate` and the full scan `Filters.Matching`. */
module EqualsFilterProperties {
  import opened Nitrite
  import opened LinkedSet
  import opened Filters

  // ---------------------------------------------------------------------
  // The full scan

  /** An id is in the scan's result exactly when some entry has that key and
      its document's field value deep-equals the filter's value. */
  lemma {:induction false} MatchingMembership(entries: seq<(NitriteId, Document)>, field: string, value: Value, ctx: QueryContext, id: NitriteId)
    ensures id in Matching(entries, field, value, ctx) <==>
            exists i :: 0 <= i < |entries| && entries[i].0 == id && Matches(entries[i].1, field, value, ctx)
    decreases |entries|
  {
    if entries != [] {
      var n := |entries| - 1;
      var prefix := entries[..n];
      MatchingMembership(prefix, field, value, ctx, id);
      if id in Matching(entries, field, value, ctx) {
        if id in Matching(prefix, field, value, ctx) {
          var i :| 0 <= i < |prefix| && prefix[i].0 == id && Matches(prefix[i].1, field, value, ctx);
          assert entries[i] == prefix[i];
        } else {
          assert entries[n].0 == id && Matches(entries[n].1, field, value, ctx);
        }
      }
      if exists i :: 0 <= i < |entries| && entries[i].0 == id && Matches(entries[i].1, field, value, ctx) {
        var i :| 0 <= i < |entries| && entries[i].0 == id && Matches(entries[i].1, field, value, ctx);
        if i < n {
          assert prefix[i] == entries[i];
        }
      }
    }
  }

  /** Scanning two stretches of the map one after the other gives the matches
      of the first stretch followed by those of the second: the result keeps
      the map's iteration order. */
  lemma {:induction false} MatchingSplit(a: seq<(NitriteId, Document)>, b: seq<(NitriteId, Document)>, field: string, value: Value, ctx: QueryContext)
    requires DistinctKeys(a + b)
    ensures Matching(a + b, field, value, ctx) == Matching(a, field, value, ctx) + Matching(b, field, value, ctx)
    decreases |b|
  {
    if b == [] {
      assert a + b == a;
    } else {
      var n := |b| - 1;
      assert (a + b)[..|a + b| - 1] == a + b[..n];
      assert (a + b)[|a + b| - 1] == b[n];
      DistinctKeysPrefix(a + b, |a + b| - 1);
      MatchingSplit(a, b[..n], field, value, ctx);
      LastKeyIsNew(a, b, field, value, ctx);
    }
  }

  /** A prefix of a map has distinct keys too. */
  lemma DistinctKeysPrefix(entries: seq<(NitriteId, Document)>, k: nat)
    requires DistinctKeys(entries) && k <= |entries|
    ensures DistinctKeys(entries[..k])
  {
  }

  /** The last key of a map is not among the matches of the entries before it. */
  lemma LastKeyIsNew(a: seq<(NitriteId, Document)>, b: seq<(NitriteId, Document)>, field: string, value: Value, ctx: QueryContext)
    requires DistinctKeys(a + b) && b != []
    ensures b[|b| - 1].0 !in Matching(a, field, value, ctx)
    ensures b[|b| - 1].0 !in Matching(b[..|b| - 1], field, value, ctx)
  {
    var n := |b| - 1;
    var id := b[n].0;
    assert (a + b)[|a| + n] == b[n];
    forall x | x in Matching(a, field, value, ctx) ensures x != id {
      var i :| 0 <= i < |a| && a[i].0 == x;
      assert (a + b)[i] == a[i];
    }
    forall x | x in Matching(b[..n], field, value, ctx) ensures x != id {
      var j :| 0 <= j < |b[..n]| && b[..n][j].0 == x;
      assert (a + b)[|a| + j] == b[j];
    }
  }

  /** When an earlier entry and a later entry both match, the earlier key comes
      first in the result. */
  lemma MatchingKeepsMapOrder(entries: DocumentMap, field: string, value: Value, ctx: QueryContext, i: nat, j: nat)
    requires i < j < |entries|
    requires Matches(entries[i].1, field, value, ctx) && Matches(entries[j].1, field, value, ctx)
    ensures exists p, q :: 0 <= p < q < |Matching(entries, field, value, ctx)| &&
                           Matching(entries, field, value, ctx)[p] == entries[i].0 &&
                           Matching(entries, field, value, ctx)[q] == entries[j].0
  {
    var a, b := entries[..j], entries[j..];
    assert a + b == entries;
    MatchingSplit(a, b, field, value, ctx);
    var left := Matching(a, field, value, ctx);
    MatchingMembership(a, field, value, ctx, entries[i].0);
    assert a[i] == entries[i];
    var p :| 0 <= p < |left| && left[p] == entries[i].0;
    MatchingMembership(b, field, value, ctx, entries[j].0);
    assert b[0] == entries[j];
    var right := Matching(b, field, value, ctx);
    assert entries[j].0 in right;
    var q :| 0 <= q < |right| && right[q] == entries[j].0;
    var r := Matching(entries, field, value, ctx);
    assert r == left + right;
    assert r[p] == entries[i].0 && r[|left| + q] == entries[j].0;
  }

  // ---------------------------------------------------------------------
  // The primary-key path

  /** On `DOC_ID`, a value that is not a `Long` (null included) gives an empty
      result and no error. */
  lemma PrimaryKeyNonLong(filter: EqualsFilter, documentMap: DocumentMap, ctx: QueryContext)
    requires filter.field == DOC_ID && !filter.value.IsLong()
    ensures Evaluate(filter, documentMap, ctx) == Ok([])
  {
  }

  /** On `DOC_ID` with a `Long` n, the result holds at most one id, and holds
      `createId(n)` exactly when the map contains that key. */
  lemma PrimaryKeyLookup(filter: EqualsFilter, documentMap: DocumentMap, ctx: QueryContext)
    requires filter.field == DOC_ID && filter.value.IsLong()
    ensures Evaluate(filter, documentMap, ctx).Ok?
    ensures |Evaluate(filter, documentMap, ctx).value| <= 1
    ensures forall id :: id in Evaluate(filter, documentMap, ctx).value <==>
                         id == ctx.createId(filter.value.n) && ContainsKey(documentMap, id)
  {
  }

  /** The primary-key path takes precedence: on `DOC_ID` nothing is thrown,
      whatever the catalog says about an index on that name. */
  lemma PrimaryKeyNeverThrows(filter: EqualsFilter, documentMap: DocumentMap, ctx: QueryContext)
    requires filter.field == DOC_ID
    ensures Evaluate(filter, documentMap, ctx).Ok?
  {
  }

  /** The primary-key path does not consult the index catalog, the indexer or
      the scan helpers: two contexts that agree on `createId` give the same
      result. */
  lemma PrimaryKeyIgnoresCatalog(filter: EqualsFilter, documentMap: DocumentMap, ctx1: QueryContext, ctx2: QueryContext)
    requires filter.field == DOC_ID
    requires forall n :: ctx1.createId(n) == ctx2.createId(n)
    ensures Evaluate(filter, documentMap, ctx1) == Evaluate(filter, documentMap, ctx2)
  {
  }

  // ---------------------------------------------------------------------
  // The index path

  /** A usable spatial index is rejected with `FE_EQ_NOT_SPATIAL`, before the
      value's comparability is looked at. */
  lemma SpatialIndexRejected(filter: EqualsFilter, documentMap: DocumentMap, ctx: QueryContext)
    requires filter.field != DOC_ID && UsesIndex(filter, ctx)
    requires ctx.indexType(filter.field) == Spatial
    ensures Evaluate(filter, documentMap, ctx) == Err(EqNotSpatial)
  {
  }

  /** On a usable non-spatial index, a value that is not `Comparable` is
      rejected with `FE_EQUAL_NOT_COMPARABLE`, naming the value. */
  lemma NotComparableRejected(filter: EqualsFilter, documentMap: DocumentMap, ctx: QueryContext)
    requires filter.field != DOC_ID && UsesIndex(filter, ctx)
    requires ctx.indexType(filter.field) == NonSpatial && !filter.value.IsComparable()
    ensures Evaluate(filter, documentMap, ctx) == Err(EqualNotComparable(filter.value))
  {
  }

  /** On a usable non-spatial index, a `Comparable` value gets the indexer's
      `findEqual` result unchanged, whatever the map holds. */
  lemma IndexResultVerbatim(filter: EqualsFilter, documentMap: DocumentMap, ctx: QueryContext)
    requires filter.field != DOC_ID && UsesIndex(filter, ctx)
    requires ctx.indexType(filter.field) == NonSpatial && filter.value.IsComparable()
    ensures Evaluate(filter, documentMap, ctx) == Ok(ctx.findEqual(filter.field, filter.value))
  {
  }

  // ---------------------------------------------------------------------
  // The full-scan fallback and the error cases overall

  /** Without a usable index (no index, an index being built, or a null value,
      even when an index exists) the result is the full scan: the keys whose
      document matches, each once. */
  lemma {:induction false} FullScanFallback(filter: EqualsFilter, documentMap: DocumentMap, ctx: QueryContext)
    requires filter.field != DOC_ID && !UsesIndex(filter, ctx)
    ensures Evaluate(filter, documentMap, ctx) == Ok(Matching(documentMap, filter.field, filter.value, ctx))
    ensures NoDuplicates(Evaluate(filter, documentMap, ctx).value)
    ensures forall id :: id in Evaluate(filter, documentMap, ctx).value <==>
                         exists i :: 0 <= i < |documentMap| && documentMap[i].0 == id &&
                                     Matches(documentMap[i].1, filter.field, filter.value, ctx)
  {
    forall id {
      MatchingMembership(documentMap, filter.field, filter.value, ctx, id);
    }
  }

  /** `apply` throws exactly when the field is not `DOC_ID`, the index path is
      taken, and the index is spatial or the value is not `Comparable`. */
  lemma ErrorConditions(filter: EqualsFilter, documentMap: DocumentMap, ctx: QueryContext)
    ensures Evaluate(filter, documentMap, ctx).Err? <==>
            filter.field != DOC_ID && UsesIndex(filter, ctx) &&
            (ctx.indexType(filter.field) == Spatial || !filter.value.IsComparable())
  {
  }
}
