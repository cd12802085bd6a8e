/** The label-store algebra of the labelling pipeline: finding the rows that
    still need a label (find_unlabeled), merging one task's batch into the
    store (save_labels) and joining labels onto speeches (merge_for_output). */
module Store {
  import opened Wrappers
  import opened Sorting
  import opened Table

  // ---------------------------------------------------------------------------
  // find_unlabeled
  // ---------------------------------------------------------------------------

  /** The speech's cell in the column is missing after the left join. */
  predicate Unlabeled(labels: LabelStore, s: Speech, col: string) {
    Cell(labels, KeyOf(s), col).None?
  }

  /** The speeches whose joined cell is missing, in speech order. */
  function MissingRows(speeches: seq<Speech>, labels: LabelStore, col: string): (r: seq<Speech>)
    ensures IsSubsequence(r, speeches)
    ensures forall s :: s in r <==> s in speeches && Unlabeled(labels, s, col)
  {
    if |speeches| == 0 then []
    else
      var rest := MissingRows(speeches[1..], labels, col);
      assert speeches == [speeches[0]] + speeches[1..];
      if Unlabeled(labels, speeches[0], col) then
        assert ([speeches[0]] + rest)[1..] == rest;
        [speeches[0]] + rest
      else
        SubsequenceCons(rest, speeches[0], speeches[1..]);
        rest
  }

  /** find_unlabeled: every speech when the label table has no such column,
      otherwise the speeches whose value for the column is missing. */
  function FindUnlabeled(speeches: seq<Speech>, labels: LabelStore, col: string): (r: seq<Speech>)
    ensures col !in labels.columns ==> r == speeches
    ensures IsSubsequence(r, speeches)
    ensures WellFormed(labels) ==> forall s :: s in r <==> s in speeches && Unlabeled(labels, s, col)
  {
    if col !in labels.columns then
      assert WellFormed(labels) ==> forall s :: s in speeches ==> Unlabeled(labels, s, col) by {
        if WellFormed(labels) {
          forall s | s in speeches ensures Unlabeled(labels, s, col) {
            CellOutsideColumns(labels, KeyOf(s), col);
          }
        }
      }
      SubsequenceReflexive(speeches);
      speeches
    else MissingRows(speeches, labels, col)
  }

  lemma {:induction false} SubsequenceReflexive<T>(xs: seq<T>)
    ensures IsSubsequence(xs, xs)
  {
    if |xs| > 0 {
      SubsequenceReflexive(xs[1..]);
    }
  }

  /** A well-formed store has no filled cell outside its columns. */
  lemma CellOutsideColumns(labels: LabelStore, key: Key, col: string)
    requires WellFormed(labels) && col !in labels.columns
    ensures Cell(labels, key, col).None?
  {
    var found := FirstWithKey(labels.rows, RowKey, key);
    if found.Some? {
      var i :| 0 <= i < |labels.rows| && labels.rows[i] == found.value;
      assert labels.rows[i].cells.Keys <= labels.columns;
    }
  }

  // ---------------------------------------------------------------------------
  // merge_for_output
  // ---------------------------------------------------------------------------

  /** One row of the merged output: the speech and its label cells. */
  datatype MergedRow = MergedRow(speech: Speech, labels: map<string, Value>)

  /** The merged table: the label columns it gained and its rows. */
  datatype Merged = Merged(labelColumns: set<string>, rows: seq<MergedRow>)

  function MapCell(m: map<string, Value>, col: string): Option<Value> {
    if col in m then Some(m[col]) else None
  }

  /** The label cells joined onto the speech with this key (none if unmatched). */
  function JoinedCells(labels: LabelStore, key: Key): map<string, Value> {
    match FirstWithKey(labels.rows, RowKey, key)
    case Some(row) => row.cells
    case None => map[]
  }

  /** merge_for_output: a left join of the labels onto the speeches, on the key. */
  function MergeForOutput(speeches: seq<Speech>, labels: LabelStore): (m: Merged)
    ensures |m.rows| == |speeches|
    ensures m.labelColumns == labels.columns
    ensures forall i :: 0 <= i < |speeches| ==> m.rows[i].speech == speeches[i]
    ensures forall i, c :: 0 <= i < |speeches| ==>
      MapCell(m.rows[i].labels, c) == Cell(labels, KeyOf(speeches[i]), c)
  {
    Merged(labels.columns,
      seq(|speeches|, i requires 0 <= i < |speeches| => MergedRow(speeches[i], JoinedCells(labels, KeyOf(speeches[i])))))
  }

  /** The rows find_unlabeled returns are exactly those whose merged output
      lacks the column. */
  lemma UnlabeledIffMergedMissing(speeches: seq<Speech>, labels: LabelStore, col: string, i: nat)
    requires WellFormed(labels) && i < |speeches|
    ensures speeches[i] in FindUnlabeled(speeches, labels, col) <==>
      MapCell(MergeForOutput(speeches, labels).rows[i].labels, col).None?
  {
  }

  // ---------------------------------------------------------------------------
  // save_labels
  // ---------------------------------------------------------------------------

  /** The value the batch gives a key: that of its first record for the key. */
  function BatchValue(batch: seq<Record>, key: Key): (v: Option<Value>)
    ensures v.Some? <==> key in KeySet(batch, RecordKey)
  {
    match FirstWithKey(batch, RecordKey, key)
    case Some(rec) => Some(rec.value)
    case None => None
  }

  lemma BatchValueCons(rec: Record, rest: seq<Record>, key: Key)
    ensures BatchValue([rec] + rest, key) == if rec.key == key then Some(rec.value) else BatchValue(rest, key)
  {
    assert ([rec] + rest)[1..] == rest;
  }

  /** Setting one cell: the row with the key gets the cell, or a new row is
      appended with that cell only. */
  function Upsert(rows: seq<LabelRow>, col: string, rec: Record): (r: seq<LabelRow>)
    ensures KeySet(r, RowKey) == KeySet(rows, RowKey) + {rec.key}
    ensures DistinctBy(rows, RowKey) ==> DistinctBy(r, RowKey)
    ensures forall k, c ::
              RowCell(r, k, c) == (if k == rec.key && c == col then Some(rec.value) else RowCell(rows, k, c))
  {
    var added := LabelRow(rec.key, map[col := rec.value]);
    if |rows| == 0 then
      assert [added] == [added] + [];
      forall k, c ensures RowCell([added], k, c) ==
        if k == rec.key && c == col then Some(rec.value) else RowCell(rows, k, c)
      {
        RowCellCons(added, [], k, c);
      }
      KeySetCons(added, [], RowKey);
      [added]
    else
      var head := rows[0];
      var tail := rows[1..];
      assert rows == [head] + tail;
      KeySetCons(head, tail, RowKey);
      if head.key == rec.key then
        var updated := LabelRow(rec.key, head.cells[col := rec.value]);
        forall k, c ensures RowCell([updated] + tail, k, c) ==
          if k == rec.key && c == col then Some(rec.value) else RowCell(rows, k, c)
        {
          RowCellCons(updated, tail, k, c);
          RowCellCons(head, tail, k, c);
        }
        KeySetCons(updated, tail, RowKey);
        assert DistinctBy(rows, RowKey) ==> DistinctBy([updated] + tail, RowKey) by {
          if DistinctBy(rows, RowKey) {
            DistinctTail(head, tail);
            DedupeCons(updated, tail, RowKey);
          }
        }
        [updated] + tail
      else
        var rest := Upsert(tail, col, rec);
        forall k, c ensures RowCell([head] + rest, k, c) ==
          if k == rec.key && c == col then Some(rec.value) else RowCell(rows, k, c)
        {
          RowCellCons(head, rest, k, c);
          RowCellCons(head, tail, k, c);
        }
        KeySetCons(head, rest, RowKey);
        assert DistinctBy(rows, RowKey) ==> DistinctBy([head] + rest, RowKey) by {
          if DistinctBy(rows, RowKey) {
            DistinctTail(head, tail);
            DedupeCons(head, rest, RowKey);
          }
        }
        [head] + rest
  }

  /** With unique keys, the head's key does not recur in the tail, which keeps
      unique keys. */
  lemma DistinctTail(head: LabelRow, tail: seq<LabelRow>)
    requires DistinctBy([head] + tail, RowKey)
    ensures DistinctBy(tail, RowKey)
    ensures head.key !in KeySet(tail, RowKey)
  {
    var rows := [head] + tail;
    forall i, j | 0 <= i < j < |tail| ensures tail[i].key != tail[j].key {
      assert tail[i] == rows[i + 1] && tail[j] == rows[j + 1];
    }
    forall x | x in tail ensures x.key != head.key {
      var j :| 0 <= j < |tail| && tail[j] == x;
      assert rows[0] == head && rows[j + 1] == x;
    }
  }

  /** Every record of the batch applied in turn; where two records share a key
      the earlier one wins. */
  function UpsertAll(rows: seq<LabelRow>, col: string, batch: seq<Record>): (r: seq<LabelRow>)
    ensures KeySet(r, RowKey) == KeySet(rows, RowKey) + KeySet(batch, RecordKey)
    ensures DistinctBy(rows, RowKey) ==> DistinctBy(r, RowKey)
    ensures forall k, c ::
              RowCell(r, k, c) == (if c == col && BatchValue(batch, k).Some? then BatchValue(batch, k) else RowCell(rows, k, c))
  {
    if |batch| == 0 then rows
    else
      assert batch == [batch[0]] + batch[1..];
      KeySetCons(batch[0], batch[1..], RecordKey);
      Upsert(UpsertAll(rows, col, batch[1..]), col, batch[0])
  }

  lemma {:induction false} UpsertWithin(rows: seq<LabelRow>, col: string, rec: Record, columns: set<string>)
    requires CellsWithin(rows, columns) && col in columns
    ensures CellsWithin(Upsert(rows, col, rec), columns)
    decreases |rows|
  {
    if |rows| > 0 && rows[0].key != rec.key {
      UpsertWithin(rows[1..], col, rec, columns);
      var r := Upsert(rows, col, rec);
      assert r == [rows[0]] + Upsert(rows[1..], col, rec);
      forall i | 0 <= i < |r| ensures r[i].cells.Keys <= columns {
        if i > 0 {
          assert r[i] == Upsert(rows[1..], col, rec)[i - 1];
        }
      }
    }
  }

  lemma {:induction false} UpsertAllWithin(rows: seq<LabelRow>, col: string, batch: seq<Record>, columns: set<string>)
    requires CellsWithin(rows, columns) && col in columns
    ensures CellsWithin(UpsertAll(rows, col, batch), columns)
    decreases |batch|
  {
    if |batch| > 0 {
      UpsertAllWithin(rows, col, batch[1..], columns);
      UpsertWithin(UpsertAll(rows, col, batch[1..]), col, batch[0], columns);
    }
  }

  /** The label columns after a save: the batch alone replaces an empty store
      (its other columns are dropped), otherwise the column is added. */
  function SavedColumns(existing: LabelStore, col: string): set<string> {
    if |existing.rows| == 0 then {col} else existing.columns + {col}
  }

  /** save_labels: an empty batch leaves the store as it is; otherwise each
      record's cell is set (the batch wins over the store), every other cell is
      kept, and the rows are ordered by key. */
  function SaveLabels(existing: LabelStore, col: string, batch: seq<Record>): (r: LabelStore)
    requires WellFormed(existing)
    requires DistinctBy(batch, RecordKey)
    ensures |batch| == 0 ==> r == existing
    ensures WellFormed(r)
    ensures |batch| > 0 ==> r.columns == SavedColumns(existing, col)
    ensures |batch| > 0 ==> Sorted(r.rows, RowLess)
    ensures |batch| > 0 ==> StoreKeys(r) == StoreKeys(existing) + KeySet(batch, RecordKey)
    ensures |batch| > 0 ==> forall k, c ::
              Cell(r, k, c) == (if c == col && BatchValue(batch, k).Some? then BatchValue(batch, k) else Cell(existing, k, c))
  {
    if |batch| == 0 then existing
    else
      var columns := SavedColumns(existing, col);
      var rows := UpsertAll(existing.rows, col, batch);
      UpsertAllWithin(existing.rows, col, batch, columns);
      SortedStore(columns, rows)
  }

  /** `sort_values` on the key: the same rows in key order. */
  function SortedStore(columns: set<string>, rows: seq<LabelRow>): (r: LabelStore)
    requires DistinctBy(rows, RowKey) && CellsWithin(rows, columns)
    ensures r.columns == columns
    ensures WellFormed(r) && Sorted(r.rows, RowLess)
    ensures KeySet(r.rows, RowKey) == KeySet(rows, RowKey)
    ensures forall k, c :: RowCell(r.rows, k, c) == RowCell(rows, k, c)
  {
    RowLessTransitive();
    RowsComparable(rows);
    var sorted := Sort(rows, RowLess);
    SortedRowsDistinct(sorted);
    forall k, c ensures RowCell(sorted, k, c) == RowCell(rows, k, c) {
      PermutedRowsSameLookup(sorted, rows, k);
    }
    SameElements(sorted, rows);
    LabelStore(columns, sorted)
  }

  lemma SameElements(a: seq<LabelRow>, b: seq<LabelRow>)
    requires multiset(a) == multiset(b)
    ensures forall x :: x in a <==> x in b
    ensures KeySet(a, RowKey) == KeySet(b, RowKey)
    ensures forall columns :: CellsWithin(b, columns) ==> CellsWithin(a, columns)
  {
    forall x ensures x in a <==> x in b {
      assert x in a <==> x in multiset(a);
      assert x in b <==> x in multiset(b);
    }
    forall columns | CellsWithin(b, columns) ensures CellsWithin(a, columns) {
      forall i | 0 <= i < |a| ensures a[i].cells.Keys <= columns {
        assert a[i] in b;
        var j :| 0 <= j < |b| && b[j] == a[i];
      }
    }
  }

  // ---------------------------------------------------------------------------
  // Properties relating the operations
  // ---------------------------------------------------------------------------

  /** A save never empties a filled cell, and a cell the batch does not touch
      keeps its value. */
  lemma SaveKeepsFilledCells(existing: LabelStore, col: string, batch: seq<Record>, k: Key, c: string)
    requires WellFormed(existing) && DistinctBy(batch, RecordKey)
    requires Cell(existing, k, c).Some?
    ensures Cell(SaveLabels(existing, col, batch), k, c).Some?
    ensures c != col || k !in KeySet(batch, RecordKey) ==>
      Cell(SaveLabels(existing, col, batch), k, c) == Cell(existing, k, c)
  {
  }

  /** Each record of the batch is found in the saved store under the column. */
  lemma SavedRecordsReadBack(existing: LabelStore, col: string, batch: seq<Record>, i: nat)
    requires WellFormed(existing) && DistinctBy(batch, RecordKey)
    requires i < |batch|
    ensures Cell(SaveLabels(existing, col, batch), batch[i].key, col) == Some(batch[i].value)
  {
    var found := FirstWithKey(batch, RecordKey, batch[i].key);
    var j :| 0 <= j < |batch| && batch[j] == found.value;
    assert j == i;
  }

  /** After a save, the rows still missing the column are the ones that were
      missing it and got no record. */
  lemma SaveShrinksUnlabeled(speeches: seq<Speech>, existing: LabelStore, col: string, batch: seq<Record>, s: Speech)
    requires WellFormed(existing) && DistinctBy(batch, RecordKey) && |batch| > 0
    ensures s in FindUnlabeled(speeches, SaveLabels(existing, col, batch), col) <==>
      s in speeches && Unlabeled(existing, s, col) && KeyOf(s) !in KeySet(batch, RecordKey)
  {
  }
}
