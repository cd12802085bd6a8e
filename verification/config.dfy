/** The pipeline's shared constants (scripts/config.py) and the static
    invariants they are meant to satisfy. */
module Config {
  import opened Wrappers
  import opened Text
  import opened Sorting

  /** Earliest ceremony year kept by the cleaning step. */
  const MinYear: int := 1993

  /** TARGET_CATEGORIES: raw category name -> canonical name, in the order the
      dictionary literal lists them. Categories not listed are dropped. */
  const TargetCategories: seq<(string, string)> := [
    ("Best Picture", "Best Picture"),
    ("Best Motion Picture", "Best Picture"),
    ("Outstanding Motion Picture", "Best Picture"),
    ("Directing", "Directing"),
    ("Actor in a Leading Role", "Actor in a Leading Role"),
    ("Actor", "Actor in a Leading Role"),
    ("Actress in a Leading Role", "Actress in a Leading Role"),
    ("Actress", "Actress in a Leading Role"),
    ("Actor in a Supporting Role", "Actor in a Supporting Role"),
    ("Actress in a Supporting Role", "Actress in a Supporting Role"),
    ("Writing (Original Screenplay)", "Writing (Original Screenplay)"),
    ("Writing (Screenplay Written Directly for the Screen)", "Writing (Original Screenplay)"),
    ("Writing (Story and Screenplay--written directly for the screen)", "Writing (Original Screenplay)"),
    ("Writing (Story and Screenplay)", "Writing (Original Screenplay)"),
    ("Writing (Adapted Screenplay)", "Writing (Adapted Screenplay)"),
    ("Writing (Screenplay Based on Material Previously Produced or Published)", "Writing (Adapted Screenplay)"),
    ("Writing (Screenplay--based on material from another medium)", "Writing (Adapted Screenplay)"),
    ("Writing (Screenplay Based on Material from Another Medium)", "Writing (Adapted Screenplay)"),
    ("Writing (Screenplay Adapted from Other Material)", "Writing (Adapted Screenplay)")
  ]

  /** Dictionary lookup in a list of pairs: the value paired with the first
      occurrence of `k`, as `dict.get` / `Series.map(dict)` give it. */
  function Lookup(pairs: seq<(string, string)>, k: string): (r: Option<string>)
    ensures r.Some? ==> exists i :: 0 <= i < |pairs| && pairs[i] == (k, r.value)
    ensures r.None? ==> forall i :: 0 <= i < |pairs| ==> pairs[i].0 != k
  {
    if |pairs| == 0 then None
    else if pairs[0].0 == k then Some(pairs[0].1)
    else
      var r := Lookup(pairs[1..], k);
      assert r.Some? ==> exists i :: 0 <= i < |pairs| && pairs[i] == (k, r.value) by {
        if r.Some? {
          var j :| 0 <= j < |pairs| - 1 && pairs[1..][j] == (k, r.value);
          assert pairs[j + 1] == (k, r.value);
        }
      }
      r
  }

  /** `TARGET_CATEGORIES.get(raw)`: the canonical name of a raw category. */
  function NormaliseCategory(raw: string): (r: Option<string>)
    ensures r.Some? <==> exists i :: 0 <= i < |TargetCategories| && TargetCategories[i].0 == raw
    ensures r.Some? ==> exists i :: 0 <= i < |TargetCategories| && TargetCategories[i] == (raw, r.value)
  {
    Lookup(TargetCategories, raw)
  }

  /** The values of TARGET_CATEGORIES, with repeats, in dictionary order. */
  function CategoryValues(): seq<string> {
    seq(|TargetCategories|, i requires 0 <= i < |TargetCategories| => TargetCategories[i].1)
  }

  /** CANONICAL_CATEGORIES, written out; `CanonicalCategoriesSortedValueSet`
      proves it is `sorted(set(TARGET_CATEGORIES.values()))`. */
  const CanonicalCategories: seq<string> := [
    "Actor in a Leading Role",
    "Actor in a Supporting Role",
    "Actress in a Leading Role",
    "Actress in a Supporting Role",
    "Best Picture",
    "Directing",
    "Writing (Adapted Screenplay)",
    "Writing (Original Screenplay)"
  ]

  /** TASKS, in execution order. */
  const Tasks: seq<string> := [
    "distinctiveness",
    "redaction",
    "plot_hint",
    "snippet_selection",
    "snippet_grading"
  ]

  /** TASK_DEPENDENCIES: the label columns a task needs from earlier tasks. */
  const TaskDependencies: map<string, seq<string>> := map[
    "snippet_selection" := ["redacted_speech"],
    "snippet_grading" := ["golden_snippet"]
  ]

  /** LABELS_KEY_COLUMNS: the composite key joining speeches with labels. */
  const LabelsKeyColumns: seq<string> := ["year", "category"]

  /** OUTPUT_COLUMNS: the cleaned speech table's columns. */
  const OutputColumns: seq<string> := [
    "year",
    "ceremony",
    "category",
    "film_title",
    "winner_raw",
    "winner_clean",
    "speech_clean"
  ]

  // ---------------------------------------------------------------------------
  // Static invariants
  // ---------------------------------------------------------------------------

  /** No raw name is listed twice in the dictionary literal. */
  lemma TargetCategoryKeysDistinct()
    ensures forall i, j :: 0 <= i < j < |TargetCategories| ==> TargetCategories[i].0 != TargetCategories[j].0
  {
  }

  /** With distinct keys, a lookup finds exactly the pairs that are listed. */
  lemma {:induction false} LookupListed(pairs: seq<(string, string)>, i: nat)
    requires forall a, b :: 0 <= a < b < |pairs| ==> pairs[a].0 != pairs[b].0
    requires i < |pairs|
    ensures Lookup(pairs, pairs[i].0) == Some(pairs[i].1)
  {
    if i > 0 {
      LookupListed(pairs[1..], i - 1);
    }
  }

  /** Every canonical value is itself a key that maps to itself. */
  lemma CanonicalValuesAreFixedPoints()
    ensures forall i :: 0 <= i < |TargetCategories| ==>
      NormaliseCategory(TargetCategories[i].1) == Some(TargetCategories[i].1)
  {
    TargetCategoryKeysDistinct();
    var tc := TargetCategories;
    // The index at which each canonical name is listed as a key of its own.
    var self := [0, 0, 0, 3, 4, 4, 6, 6, 8, 9, 10, 10, 10, 10, 14, 14, 14, 14, 14];
    forall i | 0 <= i < |tc|
      ensures NormaliseCategory(tc[i].1) == Some(tc[i].1)
    {
      assert tc[self[i]] == (tc[i].1, tc[i].1);
      LookupListed(tc, self[i]);
    }
  }

  /** Normalising twice is normalising once. */
  lemma NormaliseIdempotent(raw: string)
    ensures NormaliseCategory(raw).Some? ==>
      NormaliseCategory(NormaliseCategory(raw).value) == NormaliseCategory(raw)
  {
    CanonicalValuesAreFixedPoints();
  }

  /** `a < b` when the two agree on a prefix of length `k` and differ at `k`. */
  lemma {:induction false} StrLessAt(a: string, b: string, k: nat)
    requires k < |a| && k < |b| && a[..k] == b[..k] && a[k] < b[k]
    ensures StrLess(a, b)
  {
    if k > 0 {
      assert a[0] == a[..k][0] && b[0] == b[..k][0];
      assert a[1..][..k - 1] == b[1..][..k - 1];
      StrLessAt(a[1..], b[1..], k - 1);
    }
  }

  lemma SortedFromAdjacent(xs: seq<string>)
    requires forall i :: 0 <= i < |xs| - 1 ==> StrLess(xs[i], xs[i + 1])
    ensures Sorted(xs, StrLess)
  {
    forall i, j | 0 <= i < j < |xs|
      ensures StrLess(xs[i], xs[j])
    {
      var k := i + 1;
      while k < j
        invariant i < k <= j
        invariant StrLess(xs[i], xs[k])
      {
        StrLessTransitive(xs[i], xs[k], xs[k + 1]);
        k := k + 1;
      }
    }
  }

  lemma CanonicalCategoriesSorted()
    ensures Sorted(CanonicalCategories, StrLess)
  {
    var cc := CanonicalCategories;
    var firstDifference := [11, 3, 13, 0, 0, 0, 9];
    forall i | 0 <= i < |cc| - 1
      ensures StrLess(cc[i], cc[i + 1])
    {
      AdjacentCanonical(i, firstDifference[i]);
    }
    SortedFromAdjacent(cc);
  }

  lemma AdjacentCanonical(i: nat, k: nat)
    requires i < 7
    requires k == [11, 3, 13, 0, 0, 0, 9][i]
    ensures StrLess(CanonicalCategories[i], CanonicalCategories[i + 1])
  {
    var a, b := CanonicalCategories[i], CanonicalCategories[i + 1];
    assert k < |a| && k < |b| && a[..k] == b[..k] && a[k] < b[k];
    StrLessAt(a, b, k);
  }

  lemma CanonicalCategoriesAreValues()
    ensures Elements(CanonicalCategories) == Elements(CategoryValues())
  {
    var cc := CanonicalCategories;
    var values := CategoryValues();
    assert forall i :: 0 <= i < |values| ==> values[i] in cc;
    var where := [4, 8, 6, 9, 0, 3, 14, 10];
    assert forall j :: 0 <= j < |cc| ==> values[where[j]] == cc[j];
  }

  /** CANONICAL_CATEGORIES is the strictly increasing (so duplicate-free)
      listing of the dictionary's values, and there are eight of them. */
  lemma CanonicalCategoriesSortedValueSet()
    ensures Sorted(CanonicalCategories, StrLess)
    ensures Elements(CanonicalCategories) == Elements(CategoryValues())
    ensures |CanonicalCategories| == 8
  {
    CanonicalCategoriesSorted();
    CanonicalCategoriesAreValues();
  }

  /** A raw category survives normalisation exactly when it is a dictionary
      key, and what it becomes is one of CANONICAL_CATEGORIES. */
  lemma NormaliseIntoCanonical(raw: string)
    ensures NormaliseCategory(raw).Some? <==> exists i :: 0 <= i < |TargetCategories| && TargetCategories[i].0 == raw
    ensures NormaliseCategory(raw).Some? ==> NormaliseCategory(raw).value in CanonicalCategories
  {
    CanonicalCategoriesSortedValueSet();
    var r := NormaliseCategory(raw);
    if r.Some? {
      var i :| 0 <= i < |TargetCategories| && TargetCategories[i] == (raw, r.value);
      assert CategoryValues()[i] == r.value;
      assert r.value in Elements(CategoryValues());
    }
  }

  /** Both key columns are columns of the cleaned table. */
  lemma KeyColumnsAreOutputColumns()
    ensures LabelsKeyColumns == ["year", "category"]
    ensures forall c :: c in LabelsKeyColumns ==> c in OutputColumns
  {
  }
}
