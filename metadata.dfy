/**
 * `PDFComparisonTool.compare_metadata`: the metadata of a PDF is a dictionary
 * from property name to value (a string, or `None`), and the diff pairs up
 * both sides for every key whose `.get` values differ.
 */
module Metadata {
  import opened Wrappers

  /** A document's metadata dictionary; a key may be present with the value `None`. */
  type Properties = map<string, Option<string>>

  /** The two sides of a differing key: `(metadata1.get(key), metadata2.get(key))`. */
  type ValuePair = (Option<string>, Option<string>)

  /** `dict.get(key)`: the stored value, or `None` for an absent key. */
  function Get(m: Properties, key: string): Option<string> {
    if key in m then m[key] else None
  }

  /**
   * The reference definition of the diff: every key of either document whose
   * `.get` values differ, paired with both values.
   */
  function MetadataDiff(m1: Properties, m2: Properties): map<string, ValuePair> {
    map key | key in m1.Keys + m2.Keys && Get(m1, key) != Get(m2, key) :: (Get(m1, key), Get(m2, key))
  }

  /**
   * `compare_metadata` as the source writes it: a loop over the union of the
   * key sets, in whatever order the set yields them, filling `diff`.
   */
  method CompareMetadata(m1: Properties, m2: Properties) returns (diff: map<string, ValuePair>)
    ensures diff == MetadataDiff(m1, m2)
  {
    diff := map[];
    var allKeys := m1.Keys + m2.Keys;
    var remaining := allKeys;
    while remaining != {}
      invariant remaining <= allKeys
      invariant diff.Keys <= allKeys - remaining
      invariant forall key :: key in allKeys - remaining && Get(m1, key) != Get(m2, key) ==> key in diff
      invariant forall key :: key in diff ==> Get(m1, key) != Get(m2, key) && diff[key] == (Get(m1, key), Get(m2, key))
      decreases remaining
    {
      var key :| key in remaining;
      if Get(m1, key) != Get(m2, key) {
        diff := diff[key := (Get(m1, key), Get(m2, key))];
      }
      remaining := remaining - {key};
    }
  }

  /**
   * A key is in the diff exactly when it is a key of either document and the
   * two `.get` values differ; its entry holds both values, absence read as `None`.
   */
  lemma DiffCharacterization(m1: Properties, m2: Properties, key: string)
    ensures key in MetadataDiff(m1, m2) <==> (key in m1 || key in m2) && Get(m1, key) != Get(m2, key)
    ensures key in MetadataDiff(m1, m2) ==> MetadataDiff(m1, m2)[key] == (Get(m1, key), Get(m2, key))
  {
  }

  /** A document compared with itself has no metadata differences. */
  lemma DiffWithItselfIsEmpty(m: Properties)
    ensures MetadataDiff(m, m) == map[]
  {
  }

  /** Swapping the documents swaps each pair and keeps the key set. */
  lemma DiffSwapped(m1: Properties, m2: Properties)
    ensures MetadataDiff(m2, m1).Keys == MetadataDiff(m1, m2).Keys
    ensures forall key :: key in MetadataDiff(m1, m2) ==>
              MetadataDiff(m2, m1)[key] == (MetadataDiff(m1, m2)[key].1, MetadataDiff(m1, m2)[key].0)
  {
    var d, d' := MetadataDiff(m1, m2), MetadataDiff(m2, m1);
    forall key ensures key in d' <==> key in d {
      DiffCharacterization(m1, m2, key);
      DiffCharacterization(m2, m1, key);
    }
  }

  /**
   * A key stored with the value `None` is indistinguishable from an absent
   * key: adding one to a document adds nothing to the diff.
   */
  lemma NoneValueMeansAbsent(m1: Properties, m2: Properties, key: string)
    requires key !in m1
    ensures MetadataDiff(m1[key := None], m2) == MetadataDiff(m1, m2)
  {
    assert forall k :: Get(m1[key := None], k) == Get(m1, k);
  }
}
