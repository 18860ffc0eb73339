# Nitrite equality filter, modelled in Dafny

This project models `EqualsFilter`, the single-field equality predicate of
Nitrite's filter layer. Given a document map, `apply` returns the ids of the
documents whose field `field` equals `value`. It takes the first of three
paths that applies:

1. **Primary key.** The field is `DOC_ID`. A `Long` value becomes an id
   through `NitriteId.createId`, and the result is that id if the map holds it.
   Any other value, `null` included, gives the empty set without an error.
2. **Index.** The field has an index, the index is not being built, and the
   value is not null. A spatial index throws `FE_EQ_NOT_SPATIAL`. Otherwise a
   value that is not `Comparable` throws `FE_EQUAL_NOT_COMPARABLE`. Otherwise
   the comparable indexer's `findEqual` result is returned as it is.
3. **Full scan** (`matchedSet`). The map's entries are walked in iteration
   order. The key of every entry whose field value `deepEquals` the value is
   added to a `LinkedHashSet`.

Layout:

- `nitrite.dfy` (module `Nitrite`): `NitriteId`, field values (`Value`,
  with `IsLong` and `IsComparable` in place of Java's `instanceof` tests),
  documents, index kinds, the two filter errors, and `Result`.
- `linked_set.dfy` (module `LinkedSet`): a `LinkedHashSet` as a sequence
  without duplicates. `Add` is its `add`.
- `equals_filter.dfy` (module `Filters`):
  - `DOC_ID` and the document map (`DocumentMap`, entries in iteration order
    with distinct keys).
  - `QueryContext`: the collaborators `apply` consults, as function-valued
    fields with nothing assumed about them. They are the catalog's `hasIndex`,
    `isIndexing` and index type, the indexer's `findEqual`,
    `DocumentUtils.getFieldValue`, `EqualsUtils.deepEquals` and
    `NitriteId.createId`.
  - The filter (`EqualsFilter`, a datatype whose constructor is the Java
    constructor; its fields never change).
  - The specification functions `Matching` (the full scan) and `Evaluate`
    (all of `apply`).
  - The methods `MatchedSet` (the scan loop) and `Apply` (the dispatch),
    each proved equal to its specification.
- `equals_filter_properties.dfy` (module `EqualsFilterProperties`): the
  promises of each path, as lemmas over `Evaluate` and `Matching`.
- `equals_filter_examples.dfy` (module `EqualsFilterExamples`): worked
  instances on a three-document collection, with simple stand-ins for the
  collaborators.

Two details of the source decide results that might be expected otherwise:

- **Primary-key values.** Only a `java.lang.Long` is turned into an id
  (`value instanceof Long`, EqualsFilter.java:57). An `Integer` 2 therefore
  finds nothing (`EqualsFilterExamples.PrimaryKeyExamples`).
- **Scan order.** The scan follows the map's `entrySet()` iteration order
  (EqualsFilter.java:90). The model keeps that order and proves the result
  follows it (`EqualsFilterProperties.MatchingSplit`,
  `EqualsFilterProperties.MatchingKeepsMapOrder`).

## Model

| member | source | states |
|---|---|---|
| `Filters.Apply` | nitrite/src/main/java/org/dizitart/no2/filters/EqualsFilter.java:53-86 | `apply` returns or throws exactly what the specification `Evaluate` gives: primary-key path first, then the index path with its two errors, then the full scan |
| `Filters.MatchedSet` | nitrite/src/main/java/org/dizitart/no2/filters/EqualsFilter.java:88-98 | the scan loop builds exactly `Matching` of the whole map; its invariant says the set built so far is the scan of the entries visited so far |
| `Filters.Matching` | nitrite/src/main/java/org/dizitart/no2/filters/EqualsFilter.java:89-96 | the scan result holds no id twice, and every id in it is a key of the map |
| `LinkedSet.Add` | nitrite/src/main/java/org/dizitart/no2/filters/EqualsFilter.java:94 | `LinkedHashSet.add`: afterwards the set holds exactly the old elements and the new one; no element is duplicated; the old elements keep their order and at most one element is appended |
| `EqualsFilterProperties.MatchingMembership` | nitrite/src/main/java/org/dizitart/no2/filters/EqualsFilter.java:90-95 | an id is in the scan result if and only if some entry has that key and `deepEquals(getFieldValue(document, field), value)` holds for its document |
| `EqualsFilterProperties.MatchingSplit` | nitrite/src/main/java/org/dizitart/no2/filters/EqualsFilter.java:90-96 | for a map with distinct keys, scanning entries `a` then `b` gives the matches of `a` followed by the matches of `b`, so results come in the map's iteration order |
| `EqualsFilterProperties.MatchingKeepsMapOrder` | nitrite/src/main/java/org/dizitart/no2/filters/EqualsFilter.java:90-96 | if an earlier entry and a later entry both match, the earlier key comes before the later key in the result |
| `EqualsFilterProperties.PrimaryKeyNonLong` | nitrite/src/main/java/org/dizitart/no2/filters/EqualsFilter.java:54-66 | on `DOC_ID`, a value that is not a `Long` (null included) gives the empty result and no error |
| `EqualsFilterProperties.PrimaryKeyLookup` | nitrite/src/main/java/org/dizitart/no2/filters/EqualsFilter.java:57-65 | on `DOC_ID` with a `Long` n, nothing is thrown, the result has at most one id, and an id is in it exactly when it is `createId(n)` and the map contains it |
| `EqualsFilterProperties.PrimaryKeyNeverThrows` | nitrite/src/main/java/org/dizitart/no2/filters/EqualsFilter.java:54-67 | a `DOC_ID` filter never throws, whatever the catalog reports about an index on that name: the primary-key branch is tested first |
| `EqualsFilterProperties.PrimaryKeyIgnoresCatalog` | nitrite/src/main/java/org/dizitart/no2/filters/EqualsFilter.java:54-66 | on `DOC_ID` the result depends on `createId` and the map only: two contexts that agree on `createId` give the same result |
| `EqualsFilterProperties.SpatialIndexRejected` | nitrite/src/main/java/org/dizitart/no2/filters/EqualsFilter.java:67-74 | on the index path a spatial index throws `FE_EQ_NOT_SPATIAL`, whether or not the value is `Comparable` |
| `EqualsFilterProperties.NotComparableRejected` | nitrite/src/main/java/org/dizitart/no2/filters/EqualsFilter.java:76-82 | on the index path with a non-spatial index, a value that is not `Comparable` throws `FE_EQUAL_NOT_COMPARABLE`, naming that value |
| `EqualsFilterProperties.IndexResultVerbatim` | nitrite/src/main/java/org/dizitart/no2/filters/EqualsFilter.java:76-78 | on the index path with a non-spatial index, a `Comparable` value returns `findEqual(field, value)` unchanged |
| `EqualsFilterProperties.FullScanFallback` | nitrite/src/main/java/org/dizitart/no2/filters/EqualsFilter.java:67-85 | without a usable index (no index, an index being built, or a null value even when an index exists), a non-`DOC_ID` filter returns the full scan: no error, no duplicates, and exactly the keys whose document matches |
| `EqualsFilterProperties.ErrorConditions` | nitrite/src/main/java/org/dizitart/no2/filters/EqualsFilter.java:54-82 | `apply` throws if and only if the field is not `DOC_ID`, the index path is taken, and the index is spatial or the value is not `Comparable` |
| `EqualsFilterExamples.ScanFindsMatchesInOrder` | nitrite/src/main/java/org/dizitart/no2/filters/EqualsFilter.java:88-97 | with no index, `name == "a"` on `{1: a, 2: b, 3: a}` gives ids 1 and 3, in that order |
| `EqualsFilterExamples.PrimaryKeyExamples` | nitrite/src/main/java/org/dizitart/no2/filters/EqualsFilter.java:54-66 | on the same collection, `_id == 2L` gives id 2; `_id == 99L`, `_id == "x"` and `_id == 2` (an `Integer`) give nothing |
| `EqualsFilterExamples.SpatialIndexExamples` | nitrite/src/main/java/org/dizitart/no2/filters/EqualsFilter.java:67-85 | with a spatial index on `name`, `name == "a"` throws `FE_EQ_NOT_SPATIAL`, while `name == null` still falls back to the scan |

## Left out

- The document map (`NitriteMap`) is an immutable sequence of entries in iteration order. Persistence and iteration under concurrent writes are not modelled. Because the map is a value, "`apply` never modifies the map" holds by construction; `apply` only asks whether a key is present and walks the entries.
- `ComparableIndexer.findEqual`, and the building and upkeep of indexes, are not part of this model. `findEqual` is an arbitrary function whose result `apply` returns unchanged.
- `DocumentUtils.getFieldValue` and `EqualsUtils.deepEquals` are not part of this model. They are arbitrary functions. No reflexivity, symmetry or numeric-width behaviour of `deepEquals` is assumed or proved, because the filter itself does not depend on any of it.
- `NitriteId.createId` is an arbitrary function from a 64-bit number to an id. Its validation is not part of this model.
- `IndexType` is reduced to `Spatial` and `NonSpatial`, because the filter only tests for `Spatial`.
- `DOC_ID` is taken to be `"_id"`. The constants file that defines it is not part of this model, and no property depends on the particular string.
- The wiring of the indexed-query template through `BaseFilter` is replaced by an explicit `QueryContext` parameter.
- A `null` field name, which makes `field.equals(DOC_ID)` throw a `NullPointerException` in Java, cannot occur: field names are strings.
- The text of the exception messages, and the Lombok getters and `toString`, are not modelled. Errors carry their error code, and the not-comparable error carries the offending value.
- Java's runtime type tests are replaced by the `Value` datatype and its `IsLong` and `IsComparable` predicates. `Other(comparable, tag)` stands for every other class.
- Calling `apply` twice on the same map gives the same result. This holds because `Apply`'s result is the function `Evaluate` of its inputs, so there is no separate lemma for it.
