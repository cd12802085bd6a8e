/** The two tables of the labelling pipeline: the cleaned speech table (one
    row per award category and year) and the sparse label table keyed the
    same way. A pandas "missing" cell is a column absent from a row's map. */
module Table {
  import opened Wrappers
  import opened Text
  import opened Sorting

  /** LABELS_KEY_COLUMNS = (year, category). */
  datatype Key = Key(year: int, category: string)

  /** `sort_values(["year", "category"])` order. */
  predicate KeyLess(a: Key, b: Key) {
    a.year < b.year || (a.year == b.year && StrLess(a.category, b.category))
  }

  lemma KeyLessIrreflexive(a: Key)
    ensures !KeyLess(a, a)
  {
    StrLessIrreflexive(a.category);
  }

  lemma KeyLessTransitive(a: Key, b: Key, c: Key)
    requires KeyLess(a, b) && KeyLess(b, c)
    ensures KeyLess(a, c)
  {
    if a.year == b.year == c.year {
      StrLessTransitive(a.category, b.category, c.category);
    }
  }

  lemma KeyLessTotal(a: Key, b: Key)
    requires a != b
    ensures KeyLess(a, b) || KeyLess(b, a)
  {
    if a.year == b.year {
      StrLessTotal(a.category, b.category);
    }
  }

  /** One row of the cleaned speech table (OUTPUT_COLUMNS). */
  datatype Speech = Speech(
    year: int,
    ceremony: Option<int>,
    category: string,
    filmTitle: string,
    winnerRaw: string,
    winnerClean: string,
    speechClean: string)

  function KeyOf(s: Speech): Key {
    Key(s.year, s.category)
  }

  /** A label value: an integer score or a text. */
  datatype Value = IntVal(n: int) | TextVal(text: string)

  /** One row of the label table: its key and its non-missing cells. */
  datatype LabelRow = LabelRow(key: Key, cells: map<string, Value>)

  function RowKey(r: LabelRow): Key {
    r.key
  }

  /** The label table: its label columns (a column may exist with every cell
      missing) and its rows. */
  datatype LabelStore = LabelStore(columns: set<string>, rows: seq<LabelRow>)

  /** What `load_existing_labels` returns when no label file exists: only the
      key columns and no rows. */
  const EmptyStore: LabelStore := LabelStore({}, [])

  /** Every filled cell of `rows` lies in one of `columns`. */
  predicate CellsWithin(rows: seq<LabelRow>, columns: set<string>) {
    forall i :: 0 <= i < |rows| ==> rows[i].cells.Keys <= columns
  }

  /** Keys are unique and every filled cell belongs to a column of the table. */
  predicate WellFormed(store: LabelStore) {
    DistinctBy(store.rows, RowKey) && CellsWithin(store.rows, store.columns)
  }

  function StoreKeys(store: LabelStore): set<Key> {
    KeySet(store.rows, RowKey)
  }

  /** The label cell (key, col); `None` when the row or the column is missing,
      or the cell is empty. */
  function Cell(store: LabelStore, key: Key, col: string): Option<Value> {
    RowCell(store.rows, key, col)
  }

  /** The cell (key, col) of the first row of `rows` carrying `key`. */
  function RowCell(rows: seq<LabelRow>, key: Key, col: string): Option<Value> {
    match FirstWithKey(rows, RowKey, key)
    case Some(row) => if col in row.cells then Some(row.cells[col]) else None
    case None => None
  }

  lemma RowCellCons(x: LabelRow, t: seq<LabelRow>, key: Key, col: string)
    ensures RowCell([x] + t, key, col) ==
      if x.key == key then (if col in x.cells then Some(x.cells[col]) else None)
      else RowCell(t, key, col)
  {
    assert ([x] + t)[1..] == t;
  }

  /** One label produced for one row: the row's key and the parsed value. */
  datatype Record = Record(key: Key, value: Value)

  function RecordKey(r: Record): Key {
    r.key
  }

  predicate RowLess(a: LabelRow, b: LabelRow) {
    KeyLess(a.key, b.key)
  }

  lemma RowLessTransitive()
    ensures Transitive(RowLess)
  {
    forall a, b, c | RowLess(a, b) && RowLess(b, c)
      ensures RowLess(a, c)
    {
      KeyLessTransitive(a.key, b.key, c.key);
    }
  }

  lemma RowsComparable(rows: seq<LabelRow>)
    requires DistinctBy(rows, RowKey)
    ensures Comparable(rows, RowLess)
  {
    forall i, j | 0 <= i < |rows| && 0 <= j < |rows| && i != j
      ensures RowLess(rows[i], rows[j]) || RowLess(rows[j], rows[i])
    {
      KeyLessTotal(rows[i].key, rows[j].key);
    }
  }

  /** With unique keys, the row found for a key is the one row carrying it. */
  lemma FindRowIff(rows: seq<LabelRow>, row: LabelRow)
    requires DistinctBy(rows, RowKey)
    ensures FirstWithKey(rows, RowKey, row.key) == Some(row) <==> row in rows
  {
    if row in rows {
      var r := FirstWithKey(rows, RowKey, row.key);
      assert row.key in KeySet(rows, RowKey);
      var i :| 0 <= i < |rows| && rows[i] == row;
      var j :| 0 <= j < |rows| && rows[j] == r.value;
      assert i == j;
    }
  }

  /** Reordering rows with unique keys changes no lookup. */
  lemma PermutedRowsSameLookup(a: seq<LabelRow>, b: seq<LabelRow>, k: Key)
    requires DistinctBy(a, RowKey) && DistinctBy(b, RowKey)
    requires multiset(a) == multiset(b)
    ensures FirstWithKey(a, RowKey, k) == FirstWithKey(b, RowKey, k)
  {
    var ra := FirstWithKey(a, RowKey, k);
    var rb := FirstWithKey(b, RowKey, k);
    assert forall x :: x in a <==> x in b by {
      forall x ensures x in a <==> x in b {
        assert x in a <==> x in multiset(a);
        assert x in b <==> x in multiset(b);
      }
    }
    assert KeySet(a, RowKey) == KeySet(b, RowKey);
    if ra.Some? {
      FindRowIff(a, ra.value);
      FindRowIff(b, ra.value);
    }
  }

  /** Rows strictly increasing by key have unique keys. */
  lemma SortedRowsDistinct(b: seq<LabelRow>)
    requires Sorted(b, RowLess)
    ensures DistinctBy(b, RowKey)
  {
    forall i, j | 0 <= i < j < |b|
      ensures b[i].key != b[j].key
    {
      KeyLessIrreflexive(b[i].key);
    }
  }
}
