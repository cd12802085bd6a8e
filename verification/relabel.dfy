/** The single-speech correction tool: find one speech by a case-insensitive
    film (and optional category) query, clear its label for one task, obtain
    a new value (a manual override, or one fresh service call with an
    optional reviewer note), save it and re-export the merged table. */
module Relabel {
  import opened Wrappers
  import opened Sorting
  import opened Text
  import opened Table
  import opened Parsers
  import opened Registry
  import opened Store
  import opened Pipeline

  /** The ways a relabel stops without saving; each is a SystemExit. */
  datatype RelabelError =
    | UnknownTask(task: string)
    | NoMatch
    | Multiple(candidates: seq<Speech>)
    | PromptFailed
    | ServiceFailed
    | Unparsable(raw: string)

  // ---------------------------------------------------------------------------
  // find_speech
  // ---------------------------------------------------------------------------

  /** The row filter of find_speech: the lower-cased film title contains the
      lower-cased film query and, when a category query is given (non-empty),
      the lower-cased category contains it too. */
  predicate MatchesQuery(s: Speech, film: string, category: string) {
    && Contains(Lower(s.filmTitle), Lower(film))
    && (|category| == 0 || Contains(Lower(s.category), Lower(category)))
  }

  /** `speeches[mask]`: the matching rows in table order. */
  function Matching(speeches: seq<Speech>, film: string, category: string): (r: seq<Speech>)
    ensures IsSubsequence(r, speeches)
    ensures forall s :: s in r <==> s in speeches && MatchesQuery(s, film, category)
  {
    if |speeches| == 0 then []
    else
      var rest := Matching(speeches[1..], film, category);
      assert speeches == [speeches[0]] + speeches[1..];
      if MatchesQuery(speeches[0], film, category) then
        assert ([speeches[0]] + rest)[1..] == rest;
        [speeches[0]] + rest
      else
        SubsequenceCons(rest, speeches[0], speeches[1..]);
        rest
  }

  /** find_speech: the one matching row; no match and several matches are
      errors, the latter listing every candidate. */
  function FindSpeech(speeches: seq<Speech>, film: string, category: string): (r: Result<Speech, RelabelError>)
    ensures r.Success? ==> r.value in speeches && MatchesQuery(r.value, film, category)
    ensures r == Failure(NoMatch) <==> forall s :: s in speeches ==> !MatchesQuery(s, film, category)
    ensures r.Failure? ==> r.error.NoMatch? || r.error.Multiple?
    ensures r.Failure? && r.error.Multiple? ==>
              |r.error.candidates| > 1 && IsSubsequence(r.error.candidates, speeches)
              && forall s :: s in r.error.candidates <==> s in speeches && MatchesQuery(s, film, category)
  {
    var matches := Matching(speeches, film, category);
    if |matches| == 0 then Failure(NoMatch)
    else
      assert matches[0] in matches;
      if |matches| > 1 then Failure(Multiple(matches))
      else Success(matches[0])
  }

  /** When find_speech succeeds, exactly one row of the table matches: the
      query identifies a single position, not merely a single value. */
  lemma FindSpeechUnique(speeches: seq<Speech>, film: string, category: string)
    requires FindSpeech(speeches, film, category).Success?
    ensures exists i :: 0 <= i < |speeches| && speeches[i] == FindSpeech(speeches, film, category).value
              && forall j :: 0 <= j < |speeches| && j != i ==> !MatchesQuery(speeches[j], film, category)
  {
    SingleMatch(speeches, film, category);
  }

  lemma {:induction false} SingleMatch(speeches: seq<Speech>, film: string, category: string)
    requires |Matching(speeches, film, category)| == 1
    ensures exists i :: 0 <= i < |speeches| && speeches[i] == Matching(speeches, film, category)[0]
              && forall j :: 0 <= j < |speeches| && j != i ==> !MatchesQuery(speeches[j], film, category)
  {
    var rest := Matching(speeches[1..], film, category);
    var m := Matching(speeches, film, category);
    if MatchesQuery(speeches[0], film, category) {
      assert |rest| == 0;
      forall j | 0 < j < |speeches| ensures !MatchesQuery(speeches[j], film, category) {
        assert speeches[j] == speeches[1..][j - 1];
      }
      assert speeches[0] == m[0];
    } else {
      SingleMatch(speeches[1..], film, category);
      var i :| 0 <= i < |speeches[1..]| && speeches[1..][i] == rest[0]
                && forall j :: 0 <= j < |speeches[1..]| && j != i ==> !MatchesQuery(speeches[1..][j], film, category);
      forall j | 0 <= j < |speeches| && j != i + 1 ensures !MatchesQuery(speeches[j], film, category) {
        if j > 0 {
          assert speeches[j] == speeches[1..][j - 1];
        }
      }
      assert speeches[i + 1] == m[0];
    }
  }

  // ---------------------------------------------------------------------------
  // relabel
  // ---------------------------------------------------------------------------

  /** `labels.loc[mask, col] = pd.NA`, done only when the key has a row and the
      column exists. */
  function ClearCell(labels: LabelStore, key: Key, col: string): (r: LabelStore)
    requires WellFormed(labels)
    ensures WellFormed(r) && r.columns == labels.columns && |r.rows| == |labels.rows|
    ensures Cell(r, key, col).None?
    ensures forall k, c :: (k, c) != (key, col) ==> Cell(r, k, c) == Cell(labels, k, c)
  {
    if key in StoreKeys(labels) && col in labels.columns then
      var rows := ClearRows(labels.rows, key, col);
      LabelStore(labels.columns, rows)
    else
      CellOutsideOrMissing(labels, key, col);
      labels
  }

  function ClearRows(rows: seq<LabelRow>, key: Key, col: string): (r: seq<LabelRow>)
    ensures |r| == |rows|
    ensures forall i :: 0 <= i < |rows| ==> r[i].key == rows[i].key && r[i].cells.Keys <= rows[i].cells.Keys
    ensures KeySet(r, RowKey) == KeySet(rows, RowKey)
    ensures DistinctBy(rows, RowKey) ==> DistinctBy(r, RowKey)
    ensures RowCell(r, key, col).None?
    ensures forall k, c :: (k, c) != (key, col) ==> RowCell(r, k, c) == RowCell(rows, k, c)
  {
    var r := seq(|rows|, i requires 0 <= i < |rows| =>
      if rows[i].key == key then LabelRow(key, rows[i].cells - {col}) else rows[i]);
    forall x | x in r ensures RowKey(x) in KeySet(rows, RowKey) {
      var i :| 0 <= i < |r| && r[i] == x;
      assert rows[i] in rows;
    }
    forall x | x in rows ensures RowKey(x) in KeySet(r, RowKey) {
      var i :| 0 <= i < |rows| && rows[i] == x;
      assert r[i] in r;
    }
    ClearedLookups(rows, r, key, col);
    r
  }

  /** Lookups through the cleared rows: the first row with a key is at the same
      position, and only its `col` cell at `key` is gone. */
  lemma {:induction false} ClearedLookups(rows: seq<LabelRow>, r: seq<LabelRow>, key: Key, col: string)
    requires |r| == |rows|
    requires forall i :: 0 <= i < |rows| ==>
               r[i] == if rows[i].key == key then LabelRow(key, rows[i].cells - {col}) else rows[i]
    ensures RowCell(r, key, col).None?
    ensures forall k, c :: (k, c) != (key, col) ==> RowCell(r, k, c) == RowCell(rows, k, c)
  {
    if |rows| > 0 {
      ClearedLookups(rows[1..], r[1..], key, col);
      assert rows == [rows[0]] + rows[1..] && r == [r[0]] + r[1..];
      RowCellCons(r[0], r[1..], key, col);
      forall k, c | (k, c) != (key, col) ensures RowCell(r, k, c) == RowCell(rows, k, c) {
        RowCellCons(r[0], r[1..], k, c);
        RowCellCons(rows[0], rows[1..], k, c);
      }
    }
  }

  /** Without a row for the key, or without the column, the cell is missing. */
  lemma CellOutsideOrMissing(labels: LabelStore, key: Key, col: string)
    requires WellFormed(labels)
    requires key !in StoreKeys(labels) || col !in labels.columns
    ensures Cell(labels, key, col).None?
  {
    if col !in labels.columns {
      CellOutsideColumns(labels, key, col);
    }
  }

  /** The prompt row of relabel: the speech, plus each dependency column that
      exists in the (cleared) label table when the speech has a label row.
      A dependency left out is a column the prompt template will not find. */
  function RelabelPromptRow(s: Speech, labels: LabelStore, task: string): (row: PromptRow)
    ensures row.speech == s
    ensures forall d :: d in row.deps <==>
              d in Dependencies(task) && KeyOf(s) in StoreKeys(labels) && d in labels.columns
    ensures forall d :: d in row.deps ==> row.deps[d] == Cell(labels, KeyOf(s), d)
  {
    PromptRow(s, map d | d in Dependencies(task) && KeyOf(s) in StoreKeys(labels) && d in labels.columns
                         :: Cell(labels, KeyOf(s), d))
  }

  /** The prompt of one relabel call: the labelling prompt, followed by the
      reviewer's note when one is given. */
  function WithNote(prompt: string, note: string): (r: string)
    ensures |note| == 0 ==> r == prompt
    ensures |note| > 0 ==> |r| == |prompt| + |NoteHeader| + |note|
    ensures |note| > 0 ==> r[..|prompt|] == prompt && r[|prompt|..] == NoteHeader + note
  {
    if |note| == 0 then prompt else prompt + NoteHeader + note
  }

  const NoteHeader: string := "\n\nNote from reviewer: "

  /** The new label: the override verbatim when one is given (it bypasses the
      parser), otherwise the parse of one service response. */
  function NewValue(task: string, parse: ParseFn, row: PromptRow, note: string, override: string,
                    service: Service, render: Renderer): (r: Result<Value, RelabelError>)
    ensures |override| > 0 ==> r == Success(TextVal(override))
    ensures |override| == 0 ==> (r == Failure(PromptFailed) <==> render(task, row).None?)
    ensures |override| == 0 && render(task, row).Some? ==>
              var prompt := WithNote(render(task, row).value, note);
              match service(0, prompt)
              case None => r == Failure(ServiceFailed)
              case Some(raw) =>
                if parse(raw).Some? then r == Success(parse(raw).value) else r == Failure(Unparsable(raw))
  {
    if |override| > 0 then Success(TextVal(override))
    else
      match render(task, row)
      case None => Failure(PromptFailed)
      case Some(prompt) =>
        match service(0, WithNote(prompt, note))
        case None => Failure(ServiceFailed)
        case Some(raw) =>
          match parse(raw)
          case None => Failure(Unparsable(raw))
          case Some(v) => Success(v)
  }

  /** What a successful relabel reports and leaves behind. */
  datatype Relabelled = Relabelled(
    speech: Speech,
    oldValue: Option<Value>,
    newValue: Value,
    labels: LabelStore,
    merged: Merged)

  /** relabel: check the task name, find the speech, clear its cell, get the new
      value, save the one-record batch and rebuild the merged table. */
  function Relabel(speeches: seq<Speech>, labels: LabelStore, film: string, category: string,
                   task: string, note: string, override: string,
                   service: Service, render: Renderer): (r: Result<Relabelled, RelabelError>)
    requires WellFormed(labels)
    ensures ParserOf(task).None? ==> r == Failure(UnknownTask(task))
    ensures ParserOf(task).Some? && FindSpeech(speeches, film, category).Failure? ==>
              r == Failure(FindSpeech(speeches, film, category).error)
    ensures r.Success? ==>
              var key := KeyOf(r.value.speech);
              && ParserOf(task).Some?
              && FindSpeech(speeches, film, category) == Success(r.value.speech)
              && r.value.oldValue == Cell(labels, key, LabelColumn(task))
              && WellFormed(r.value.labels)
              && Cell(r.value.labels, key, LabelColumn(task)) == Some(r.value.newValue)
              && (forall k, c :: (k, c) != (key, LabelColumn(task)) ==> Cell(r.value.labels, k, c) == Cell(labels, k, c))
              && r.value.merged == MergeForOutput(speeches, r.value.labels)
  {
    if ParserOf(task).None? then Failure(UnknownTask(task))
    else
      var s :- FindSpeech(speeches, film, category);
      var col := LabelColumn(task);
      var key := KeyOf(s);
      var oldValue := Cell(labels, key, col);
      var cleared := ClearCell(labels, key, col);
      var row := RelabelPromptRow(s, cleared, task);
      var v :- NewValue(task, ParserFunction(ParserOf(task).value), row, note, override, service, render);
      var saved := SaveLabels(cleared, col, [Record(key, v)]);
      assert BatchValue([Record(key, v)], key) == Some(v);
      Success(Relabelled(s, oldValue, v, saved, MergeForOutput(speeches, saved)))
  }

  /** With an override, neither the prompt nor the service is involved: once
      the labelling task is known and the speech found, the relabel succeeds and stores
      the override text as it was given. */
  lemma RelabelOverride(speeches: seq<Speech>, labels: LabelStore, film: string, category: string,
                       task: string, note: string, override: string,
                       service: Service, render: Renderer)
    requires WellFormed(labels)
    ensures var r := Relabel(speeches, labels, film, category, task, note, override, service, render);
            |override| > 0 && ParserOf(task).Some? && FindSpeech(speeches, film, category).Success? ==>
              r.Success? && r.value.newValue == TextVal(override)
  {
  }

  /** The new value as relabel obtains it for a found speech: from the prompt
      row built on the cleared table, by NewValue. */
  function RelabelValue(labels: LabelStore, s: Speech, task: string,
                        note: string, override: string, service: Service, render: Renderer): Result<Value, RelabelError>
    requires WellFormed(labels) && ParserOf(task).Some?
  {
    var cleared := ClearCell(labels, KeyOf(s), LabelColumn(task));
    NewValue(task, ParserFunction(ParserOf(task).value), RelabelPromptRow(s, cleared, task),
             note, override, service, render)
  }

  /** Once the task is known and the speech found, relabel succeeds exactly
      when a new value is obtained; a failed prompt, a failed call or an
      unparsable response ends it with that error and nothing saved, and on
      success the stored value is the one obtained. */
  lemma RelabelGenerated(speeches: seq<Speech>, labels: LabelStore, film: string, category: string,
                         task: string, note: string, override: string,
                         service: Service, render: Renderer)
    requires WellFormed(labels) && ParserOf(task).Some?
    requires FindSpeech(speeches, film, category).Success?
    ensures var s := FindSpeech(speeches, film, category).value;
            var v := RelabelValue(labels, s, task, note, override, service, render);
            var r := Relabel(speeches, labels, film, category, task, note, override, service, render);
            && (r.Success? <==> v.Success?)
            && (v.Failure? ==> r == Failure(v.error))
            && (r.Success? ==> r.value.speech == s && r.value.newValue == v.value)
  {
  }
}
