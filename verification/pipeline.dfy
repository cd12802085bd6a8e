/** The incremental labelling run: label_task over the unlabelled rows of one
    task, and the labelling loop of run_pipeline. The generation service and the
    prompt renderer are parameters. */
module Pipeline {
  import opened Wrappers
  import opened Sorting
  import opened Config
  import opened Table
  import opened Parsers
  import opened Registry
  import opened Store

  /** The generation service: the response to the `n`-th call of a run, given
      its prompt; `None` for an API error (call_gemini returns None). */
  type Service = (nat, string) -> Option<string>

  /** A speech row as the prompt sees it: its columns plus the dependency
      columns merged in from the label table (missing cells as `None`). */
  datatype PromptRow = PromptRow(speech: Speech, deps: map<string, Option<Value>>)

  function PromptKey(r: PromptRow): Key {
    KeyOf(r.speech)
  }

  /** build_prompt: that task's template filled from the row; `None` when
      loading or formatting raises, which nothing catches. */
  type Renderer = (string, PromptRow) -> Option<string>

  /** One request sent to the service, and the label its response parsed to. */
  datatype Call = Call(task: string, row: PromptRow, prompt: string, outcome: Option<Value>)

  function CallKey(c: Call): Key {
    PromptKey(c.row)
  }

  /** What label_task produced: the new label records, the calls it made, and
      whether a prompt failed to render (the exception ends the run). */
  datatype Batch = Batch(records: seq<Record>, calls: seq<Call>, failed: bool)

  /** A response parser as label_task receives it: `PARSERS[task]`. */
  type ParseFn = string -> Option<Value>

  function ParserFunction(p: Parser): ParseFn {
    raw => Apply(p, raw)
  }

  /** The parsed label of one call, or `None` when the service or the parser
      gave nothing. */
  function Outcome(service: Service, n: nat, prompt: string, parse: ParseFn): Option<Value> {
    match service(n, prompt)
    case Some(raw) => parse(raw)
    case None => None
  }

  function RecordKeys(records: seq<Record>): seq<Key> {
    seq(|records|, i requires 0 <= i < |records| => records[i].key)
  }

  function CallKeys(calls: seq<Call>): seq<Key> {
    seq(|calls|, i requires 0 <= i < |calls| => CallKey(calls[i]))
  }

  /** The rows of new_labels: one record per call whose response parsed, in
      call order. */
  function NewLabels(calls: seq<Call>): (r: seq<Record>)
    ensures |r| <= |calls|
    ensures KeySet(r, RecordKey) <= KeySet(calls, CallKey)
    ensures IsSubsequence(RecordKeys(r), CallKeys(calls))
    ensures DistinctBy(calls, CallKey) ==> DistinctBy(r, RecordKey)
  {
    if |calls| == 0 then []
    else
      var rest := NewLabels(calls[1..]);
      assert calls == [calls[0]] + calls[1..];
      match calls[0].outcome
      case Some(v) =>
        KeepCall(calls[0], calls[1..], rest, v);
        [Record(CallKey(calls[0]), v)] + rest
      case None =>
        SkipCall(calls[0], calls[1..], rest);
        rest
  }

  /** The shape NewLabels promises of `r` against `calls`. */
  predicate RecordsOf(r: seq<Record>, calls: seq<Call>) {
    && |r| <= |calls|
    && KeySet(r, RecordKey) <= KeySet(calls, CallKey)
    && IsSubsequence(RecordKeys(r), CallKeys(calls))
    && (DistinctBy(calls, CallKey) ==> DistinctBy(r, RecordKey))
  }

  /** A call whose response parsed adds its record in front. */
  lemma KeepCall(c: Call, tail: seq<Call>, rest: seq<Record>, v: Value)
    requires RecordsOf(rest, tail)
    ensures RecordsOf([Record(CallKey(c), v)] + rest, [c] + tail)
  {
    var rec := Record(CallKey(c), v);
    var calls := [c] + tail;
    KeySetCons(c, tail, CallKey);
    KeySetCons(rec, rest, RecordKey);
    assert CallKeys(calls) == [CallKey(c)] + CallKeys(tail);
    assert RecordKeys([rec] + rest) == [rec.key] + RecordKeys(rest);
    SubsequenceBothCons(rec.key, RecordKeys(rest), CallKeys(tail));
    if DistinctBy(calls, CallKey) {
      DistinctTailBy(c, tail, CallKey);
      DedupeCons(rec, rest, RecordKey);
    }
  }

  /** A call whose response did not parse adds nothing. */
  lemma SkipCall(c: Call, tail: seq<Call>, rest: seq<Record>)
    requires RecordsOf(rest, tail)
    ensures RecordsOf(rest, [c] + tail)
  {
    var calls := [c] + tail;
    KeySetCons(c, tail, CallKey);
    assert CallKeys(calls) == [CallKey(c)] + CallKeys(tail);
    SubsequenceCons(RecordKeys(rest), CallKey(c), CallKeys(tail));
    if DistinctBy(calls, CallKey) {
      DistinctTailBy(c, tail, CallKey);
    }
  }

  /** With unique keys, the value new_labels holds for the row of a call is
      exactly what that call's response parsed to. */
  lemma {:induction false} NewLabelsValue(calls: seq<Call>, i: nat)
    requires DistinctBy(calls, CallKey) && i < |calls|
    ensures BatchValue(NewLabels(calls), CallKey(calls[i])) == calls[i].outcome
    decreases |calls|
  {
    var c := calls[0];
    var rest := NewLabels(calls[1..]);
    var k := CallKey(calls[i]);
    assert calls == [c] + calls[1..];
    DistinctTailBy(c, calls[1..], CallKey);
    if i == 0 {
      assert BatchValue(rest, k).None?;
    } else {
      NewLabelsValue(calls[1..], i - 1);
      assert calls[1..][i - 1] == calls[i];
      assert k != CallKey(c);
    }
    if c.outcome.Some? {
      BatchValueCons(Record(CallKey(c), c.outcome.value), rest, k);
    }
  }

  /** The calls of label_task: one per row in order, numbered from `start`,
      stopping at the first row whose prompt cannot be rendered. */
  function Attempt(service: Service, start: nat, task: string, parse: ParseFn,
                   render: Renderer, rows: seq<PromptRow>): (a: (seq<Call>, bool))
    ensures |a.0| <= |rows|
    ensures !a.1 ==> |a.0| == |rows|
    ensures forall i :: 0 <= i < |a.0| ==> CallFor(a.0[i], task, rows[i], render, service, start + i, parse)
    decreases |rows|
  {
    if |rows| == 0 then ([], false)
    else if render(task, rows[0]).None? then ([], true)
    else
      var prompt := render(task, rows[0]).value;
      var rest := Attempt(service, start + 1, task, parse, render, rows[1..]);
      var call := Call(task, rows[0], prompt, Outcome(service, start, prompt, parse));
      AttemptCons(service, start, task, parse, render, rows, call, rest.0);
      ([call] + rest.0, rest.1)
  }

  /** The call made for the row at position `i`, the `n`-th of the run. */
  predicate CallFor(c: Call, task: string, row: PromptRow, render: Renderer, service: Service, n: nat, parse: ParseFn) {
    && c.task == task && c.row == row
    && render(task, row) == Some(c.prompt)
    && c.outcome == Outcome(service, n, c.prompt, parse)
  }

  /** The first row's call in front of the calls for the rest. */
  lemma AttemptCons(service: Service, start: nat, task: string, parse: ParseFn, render: Renderer,
                    rows: seq<PromptRow>, call: Call, rest: seq<Call>)
    requires |rows| > 0 && CallFor(call, task, rows[0], render, service, start, parse)
    requires |rest| <= |rows| - 1
    requires forall i :: 0 <= i < |rest| ==> CallFor(rest[i], task, rows[1..][i], render, service, start + 1 + i, parse)
    ensures forall i :: 0 <= i < |[call] + rest| ==>
              CallFor(([call] + rest)[i], task, rows[i], render, service, start + i, parse)
  {
    forall i | 0 <= i < |[call] + rest|
      ensures CallFor(([call] + rest)[i], task, rows[i], render, service, start + i, parse)
    {
      if i > 0 {
        assert ([call] + rest)[i] == rest[i - 1] && rows[i] == rows[1..][i - 1];
      }
    }
  }


  /** Calls made for a prefix of the rows carry keys of those rows, distinct
      when the rows' keys are. */
  lemma CallKeysOfRows(calls: seq<Call>, rows: seq<PromptRow>)
    requires |calls| <= |rows|
    requires forall i :: 0 <= i < |calls| ==> calls[i].row == rows[i]
    ensures KeySet(calls, CallKey) <= KeySet(rows, PromptKey)
    ensures DistinctBy(rows, PromptKey) ==> DistinctBy(calls, CallKey)
  {
    forall c | c in calls ensures CallKey(c) in KeySet(rows, PromptKey) {
      var i :| 0 <= i < |calls| && calls[i] == c;
      assert rows[i] in rows;
    }
    if DistinctBy(rows, PromptKey) {
      forall i, j | 0 <= i < j < |calls| ensures CallKey(calls[i]) != CallKey(calls[j]) {
        assert calls[i].row == rows[i] && calls[j].row == rows[j];
      }
    }
  }

  /** label_task: a call per row, and the records of the calls that parsed. */
  function LabelTask(service: Service, start: nat, task: string, parse: ParseFn,
                     render: Renderer, rows: seq<PromptRow>): (b: Batch)
    ensures |b.records| <= |b.calls| <= |rows|
    ensures !b.failed ==> |b.calls| == |rows|
    ensures forall i :: 0 <= i < |b.calls| ==>
              && b.calls[i].task == task && b.calls[i].row == rows[i]
              && render(task, rows[i]) == Some(b.calls[i].prompt)
              && b.calls[i].outcome == Outcome(service, start + i, b.calls[i].prompt, parse)
    ensures IsSubsequence(RecordKeys(b.records), CallKeys(b.calls))
    ensures KeySet(b.records, RecordKey) <= KeySet(rows, PromptKey)
    ensures DistinctBy(rows, PromptKey) ==> DistinctBy(b.records, RecordKey)
    ensures DistinctBy(rows, PromptKey) ==>
              forall i :: 0 <= i < |b.calls| ==> BatchValue(b.records, PromptKey(rows[i])) == b.calls[i].outcome
  {
    var (calls, failed) := Attempt(service, start, task, parse, render, rows);
    var records := NewLabels(calls);
    CallKeysOfRows(calls, rows);
    assert DistinctBy(rows, PromptKey) ==>
             forall i :: 0 <= i < |calls| ==> BatchValue(records, PromptKey(rows[i])) == calls[i].outcome by {
      if DistinctBy(rows, PromptKey) {
        forall i | 0 <= i < |calls| ensures BatchValue(records, PromptKey(rows[i])) == calls[i].outcome {
          NewLabelsValue(calls, i);
        }
      }
    }
    Batch(records, calls, failed)
  }

  /** label_task fails exactly when some row's prompt cannot be rendered, and
      then it stops at the first such row. */
  lemma {:induction false} LabelTaskFailure(service: Service, start: nat, task: string, parse: ParseFn,
                                            render: Renderer, rows: seq<PromptRow>)
    ensures var a := Attempt(service, start, task, parse, render, rows);
            && (a.1 <==> exists i :: 0 <= i < |rows| && render(task, rows[i]).None?)
            && (a.1 ==> |a.0| < |rows| && render(task, rows[|a.0|]).None?)
    decreases |rows|
  {
    if |rows| > 0 && render(task, rows[0]).Some? {
      var rest := Attempt(service, start + 1, task, parse, render, rows[1..]);
      LabelTaskFailure(service, start + 1, task, parse, render, rows[1..]);
      if rest.1 {
        assert rows[1..][|rest.0|] == rows[|rest.0| + 1];
      }
      if exists i :: 0 <= i < |rows| && render(task, rows[i]).None? {
        var i :| 0 <= i < |rows| && render(task, rows[i]).None?;
        assert rows[1..][i - 1] == rows[i];
      }
      forall i | 0 <= i < |rows[1..]| && render(task, rows[1..][i]).None?
        ensures exists j :: 0 <= j < |rows| && render(task, rows[j]).None?
      {
        assert rows[1..][i] == rows[i + 1];
      }
    }
  }

  lemma DistinctTailBy<T, K>(head: T, tail: seq<T>, key: T -> K)
    requires DistinctBy([head] + tail, key)
    ensures DistinctBy(tail, key)
    ensures key(head) !in KeySet(tail, key)
  {
    var xs := [head] + tail;
    forall i, j | 0 <= i < j < |tail| ensures key(tail[i]) != key(tail[j]) {
      assert tail[i] == xs[i + 1] && tail[j] == xs[j + 1];
    }
    forall x | x in tail ensures key(x) != key(head) {
      var j :| 0 <= j < |tail| && tail[j] == x;
      assert xs[0] == head && xs[j + 1] == x;
    }
  }

  // ---------------------------------------------------------------------------
  // One task of the run
  // ---------------------------------------------------------------------------

  /** The result of one task: the store after it, the calls it made, and
      whether a prompt error ended the run. */
  datatype Step = Step(labels: LabelStore, calls: seq<Call>, aborted: bool)

  predicate MissingDependency(labels: LabelStore, task: string) {
    exists d :: d in Dependencies(task) && d !in labels.columns
  }

  /** The unlabelled rows with their dependency cells merged in. */
  function PromptRows(unlabeled: seq<Speech>, labels: LabelStore, task: string): (rows: seq<PromptRow>)
    ensures |rows| == |unlabeled|
    ensures forall i :: 0 <= i < |rows| ==> rows[i].speech == unlabeled[i]
    ensures forall i, d :: 0 <= i < |rows| && d in Dependencies(task) ==>
              d in rows[i].deps && rows[i].deps[d] == Cell(labels, KeyOf(unlabeled[i]), d)
  {
    seq(|unlabeled|, i requires 0 <= i < |unlabeled| =>
      PromptRow(unlabeled[i], map d | d in Dependencies(task) :: Cell(labels, KeyOf(unlabeled[i]), d)))
  }

  /** Prompt rows carry the keys of their speeches, so they stay distinct. */
  lemma PromptRowsDistinct(rows: seq<PromptRow>, unlabeled: seq<Speech>)
    requires |rows| == |unlabeled| && forall i :: 0 <= i < |rows| ==> rows[i].speech == unlabeled[i]
    requires DistinctBy(unlabeled, KeyOf)
    ensures DistinctBy(rows, PromptKey)
  {
    forall i, j | 0 <= i < j < |rows| ensures PromptKey(rows[i]) != PromptKey(rows[j]) {
      assert rows[i].speech == unlabeled[i] && rows[j].speech == unlabeled[j];
    }
  }

  /** Every key drawn from the prompt rows is a key whose cell is missing. */
  lemma PromptKeysUnlabeled(rows: seq<PromptRow>, unlabeled: seq<Speech>, labels: LabelStore,
                            col: string, keys: set<Key>)
    requires |rows| == |unlabeled| && forall i :: 0 <= i < |rows| ==> rows[i].speech == unlabeled[i]
    requires forall x :: x in unlabeled ==> Unlabeled(labels, x, col)
    requires keys <= KeySet(rows, PromptKey)
    ensures forall k :: k in keys ==> Cell(labels, k, col).None?
  {
    forall k | k in keys ensures Cell(labels, k, col).None? {
      var r :| r in rows && PromptKey(r) == k;
      var j :| 0 <= j < |rows| && rows[j] == r;
      assert unlabeled[j] in unlabeled;
    }
  }

  /** The labelling half of one task: prompt every unlabelled row, then save
      the records unless a prompt failed to render. */
  function LabelAndSave(labels: LabelStore, task: string, parse: ParseFn, unlabeled: seq<Speech>,
                        service: Service, start: nat, render: Renderer): (s: Step)
    requires WellFormed(labels) && DistinctBy(unlabeled, KeyOf)
    requires forall x :: x in unlabeled ==> Unlabeled(labels, x, LabelColumn(task))
    ensures WellFormed(s.labels)
    ensures s.aborted ==> s.labels == labels
    ensures forall i :: 0 <= i < |s.calls| ==> s.calls[i].task == task && s.calls[i].row.speech in unlabeled
    ensures forall i, d :: 0 <= i < |s.calls| && d in Dependencies(task) ==>
              d in s.calls[i].row.deps && s.calls[i].row.deps[d] == Cell(labels, KeyOf(s.calls[i].row.speech), d)
    ensures forall k, c :: Cell(labels, k, c).Some? ==> Cell(s.labels, k, c) == Cell(labels, k, c)
    ensures forall k, c :: c != LabelColumn(task) ==> Cell(s.labels, k, c) == Cell(labels, k, c)
  {
    var col := LabelColumn(task);
    var rows := PromptRows(unlabeled, labels, task);
    PromptRowsDistinct(rows, unlabeled);
    var batch := LabelTask(service, start, task, parse, render, rows);
    assert forall i :: 0 <= i < |batch.calls| ==> batch.calls[i].row == rows[i];
    if batch.failed then
      Step(labels, batch.calls, true)
    else
      PromptKeysUnlabeled(rows, unlabeled, labels, col, KeySet(batch.records, RecordKey));
      Step(SaveLabels(labels, col, batch.records), batch.calls, false)
  }

  /** After a task that was not aborted, every unlabelled row was sent once,
      in order, and its cell now holds exactly what its response parsed to:
      the label, or still nothing when the service or the parser failed. */
  lemma LabelAndSaveStoresOutcomes(labels: LabelStore, task: string, parse: ParseFn, unlabeled: seq<Speech>,
                                   service: Service, start: nat, render: Renderer)
    requires WellFormed(labels) && DistinctBy(unlabeled, KeyOf)
    requires forall x :: x in unlabeled ==> Unlabeled(labels, x, LabelColumn(task))
    ensures var s := LabelAndSave(labels, task, parse, unlabeled, service, start, render);
            !s.aborted ==>
              && |s.calls| == |unlabeled|
              && forall i :: 0 <= i < |s.calls| ==>
                   && s.calls[i].row.speech == unlabeled[i]
                   && s.calls[i].outcome == Outcome(service, start + i, s.calls[i].prompt, parse)
                   && Cell(s.labels, KeyOf(unlabeled[i]), LabelColumn(task)) == s.calls[i].outcome
  {
    var col := LabelColumn(task);
    var rows := PromptRows(unlabeled, labels, task);
    PromptRowsDistinct(rows, unlabeled);
    var batch := LabelTask(service, start, task, parse, render, rows);
    if !batch.failed {
      PromptKeysUnlabeled(rows, unlabeled, labels, col, KeySet(batch.records, RecordKey));
      var saved := SaveLabels(labels, col, batch.records);
      forall i | 0 <= i < |batch.calls|
        ensures Cell(saved, KeyOf(unlabeled[i]), col) == batch.calls[i].outcome
      {
        assert PromptKey(rows[i]) == KeyOf(unlabeled[i]);
        assert unlabeled[i] in unlabeled;
      }
    }
  }

  /** One iteration of the labelling loop: skipped (store unchanged) when that task
      has no parser, nothing is unlabelled, or a dependency column is missing;
      otherwise every unlabelled row is sent once, in order, and unless a
      prompt failed its cell holds what the response parsed to. */
  function RunTask(speeches: seq<Speech>, labels: LabelStore, task: string,
                   service: Service, start: nat, render: Renderer): (s: Step)
    requires WellFormed(labels) && DistinctBy(speeches, KeyOf)
    ensures WellFormed(s.labels)
    ensures ParserOf(task).None? ==> s == Step(labels, [], false)
    ensures |FindUnlabeled(speeches, labels, LabelColumn(task))| == 0 ==> s == Step(labels, [], false)
    ensures MissingDependency(labels, task) ==> s == Step(labels, [], false)
    ensures s.aborted ==> s.labels == labels
    ensures forall i :: 0 <= i < |s.calls| ==>
              s.calls[i].task == task && s.calls[i].row.speech in speeches
              && Unlabeled(labels, s.calls[i].row.speech, LabelColumn(task))
    ensures forall i, d :: 0 <= i < |s.calls| && d in Dependencies(task) ==>
              d in labels.columns && d in s.calls[i].row.deps
              && s.calls[i].row.deps[d] == Cell(labels, KeyOf(s.calls[i].row.speech), d)
    ensures forall k, c :: Cell(labels, k, c).Some? ==> Cell(s.labels, k, c) == Cell(labels, k, c)
    ensures forall k, c :: c != LabelColumn(task) ==> Cell(s.labels, k, c) == Cell(labels, k, c)
    ensures ParserOf(task).Some? && !MissingDependency(labels, task) && !s.aborted ==>
              var unlabeled := FindUnlabeled(speeches, labels, LabelColumn(task));
              && |s.calls| == |unlabeled|
              && forall i :: 0 <= i < |unlabeled| ==>
                   && s.calls[i].row.speech == unlabeled[i]
                   && s.calls[i].outcome == Outcome(service, start + i, s.calls[i].prompt, ParserFunction(ParserOf(task).value))
                   && Cell(s.labels, KeyOf(unlabeled[i]), LabelColumn(task)) == s.calls[i].outcome
  {
    var col := LabelColumn(task);
    var unlabeled := FindUnlabeled(speeches, labels, col);
    if ParserOf(task).None? || |unlabeled| == 0 || MissingDependency(labels, task) then
      Step(labels, [], false)
    else
      SubsequenceDistinctBy(unlabeled, speeches, KeyOf);
      SubsequenceMembers(unlabeled, speeches);
      LabelAndSaveStoresOutcomes(labels, task, ParserFunction(ParserOf(task).value), unlabeled, service, start, render);
      LabelAndSave(labels, task, ParserFunction(ParserOf(task).value), unlabeled, service, start, render)
  }

  // ---------------------------------------------------------------------------
  // The task loop
  // ---------------------------------------------------------------------------

  /** One task's step as run_pipeline sees it: the store before, the labelling task name
      and the number of the first call, to the step. */
  type Runner = (LabelStore, string, nat) --> Step

  /** What the loop relies on about one step of `task` from `labels`: the store
      stays well formed, an aborted step keeps it, every call is for an
      unlabelled speech of the table, filled cells and other columns are kept,
      and a task whose column is already full makes no call. */
  ghost predicate StepWithin(speeches: seq<Speech>, labels: LabelStore, task: string, s: Step) {
    && WellFormed(s.labels)
    && (s.aborted ==> s.labels == labels)
    && (forall i :: 0 <= i < |s.calls| ==>
          s.calls[i].task == task && s.calls[i].row.speech in speeches
          && Unlabeled(labels, s.calls[i].row.speech, LabelColumn(task)))
    && (forall k, c :: Cell(labels, k, c).Some? ==> Cell(s.labels, k, c) == Cell(labels, k, c))
    && (forall k, c :: c != LabelColumn(task) ==> Cell(s.labels, k, c) == Cell(labels, k, c))
    && ((forall sp :: sp in speeches ==> Cell(labels, KeyOf(sp), LabelColumn(task)).Some?) ==>
          s == Step(labels, [], false))
  }

  /** A runner defined on every well-formed store whose every step is within bounds. */
  ghost predicate GoodRunner(speeches: seq<Speech>, run: Runner) {
    forall labels: LabelStore, task: string, n: nat :: WellFormed(labels) ==>
      run.requires(labels, task, n) && StepWithin(speeches, labels, task, run(labels, task, n))
  }

  /** RunTask keeps within bounds. */
  lemma RunTaskWithin(speeches: seq<Speech>, labels: LabelStore, task: string,
                      service: Service, start: nat, render: Renderer)
    requires WellFormed(labels) && DistinctBy(speeches, KeyOf)
    ensures StepWithin(speeches, labels, task, RunTask(speeches, labels, task, service, start, render))
  {
    if forall sp :: sp in speeches ==> Cell(labels, KeyOf(sp), LabelColumn(task)).Some? {
      CompleteTaskIsSkipped(speeches, labels, task, service, start, render);
    }
  }

  /** The runner of run_pipeline: RunTask against one service and one renderer. */
  function TaskRunner(speeches: seq<Speech>, service: Service, render: Renderer): (run: Runner)
    requires DistinctBy(speeches, KeyOf)
    ensures GoodRunner(speeches, run)
    ensures forall labels, task, n :: WellFormed(labels) ==>
              run(labels, task, n) == RunTask(speeches, labels, task, service, n, render)
  {
    var run := (labels: LabelStore, task: string, n: nat) requires WellFormed(labels) =>
      RunTask(speeches, labels, task, service, n, render);
    assert GoodRunner(speeches, run) by {
      forall labels: LabelStore, task: string, n: nat | WellFormed(labels)
        ensures StepWithin(speeches, labels, task, run(labels, task, n))
      {
        RunTaskWithin(speeches, labels, task, service, n, render);
      }
    }
    run
  }

  /** The outcome of a run: the last persisted store, every call in order, and
      whether a prompt error ended it early. */
  datatype Run = Run(labels: LabelStore, calls: seq<Call>, aborted: bool)

  /** The task loop of run_pipeline over `tasks`, call numbers from `start`. */
  function RunTasks(speeches: seq<Speech>, labels: LabelStore, tasks: seq<string>,
                    run: Runner, start: nat): (r: Run)
    requires WellFormed(labels) && GoodRunner(speeches, run)
    ensures WellFormed(r.labels)
    ensures forall i :: 0 <= i < |r.calls| ==> r.calls[i].task in tasks
    ensures forall i :: 0 <= i < |r.calls| ==>
              r.calls[i].row.speech in speeches
              && Unlabeled(labels, r.calls[i].row.speech, LabelColumn(r.calls[i].task))
    ensures forall k, c :: Cell(labels, k, c).Some? ==> Cell(r.labels, k, c) == Cell(labels, k, c)
    ensures forall k, c :: (forall t :: t in tasks ==> c != LabelColumn(t)) ==> Cell(r.labels, k, c) == Cell(labels, k, c)
    decreases |tasks|
  {
    if |tasks| == 0 then Run(labels, [], false)
    else
      var step := run(labels, tasks[0], start);
      if step.aborted then Run(step.labels, step.calls, true)
      else
        var rest := RunTasks(speeches, step.labels, tasks[1..], run, start + |step.calls|);
        assert forall t :: t in tasks[1..] ==> t in tasks;
        var calls := step.calls + rest.calls;
        assert forall i :: 0 <= i < |calls| ==>
                 calls[i].row.speech in speeches && Unlabeled(labels, calls[i].row.speech, LabelColumn(calls[i].task)) by {
          forall i | 0 <= i < |calls|
            ensures calls[i].row.speech in speeches && Unlabeled(labels, calls[i].row.speech, LabelColumn(calls[i].task))
          {
            if i >= |step.calls| {
              assert calls[i] == rest.calls[i - |step.calls|];
            }
          }
        }
        Run(rest.labels, calls, rest.aborted)
  }

  /** run_pipeline: the labelling loop over TASKS from the loaded store, then, when
      it completes, the merged output. */
  function RunPipeline(speeches: seq<Speech>, labels: LabelStore, service: Service, render: Renderer): (r: (Run, Option<Merged>))
    requires WellFormed(labels) && DistinctBy(speeches, KeyOf)
    ensures r.0 == RunTasks(speeches, labels, Tasks, TaskRunner(speeches, service, render), 0)
    ensures r.1.Some? <==> !r.0.aborted
    ensures r.1.Some? ==> |r.1.value.rows| == |speeches| && r.1.value.labelColumns == r.0.labels.columns
    ensures r.1.Some? ==> forall i, c :: 0 <= i < |speeches| ==>
              && r.1.value.rows[i].speech == speeches[i]
              && MapCell(r.1.value.rows[i].labels, c) == Cell(r.0.labels, KeyOf(speeches[i]), c)
    ensures r.1.Some? ==> r.1.value == MergeForOutput(speeches, r.0.labels)
  {
    var run := RunTasks(speeches, labels, Tasks, TaskRunner(speeches, service, render), 0);
    (run, if run.aborted then None else Some(MergeForOutput(speeches, run.labels)))
  }

  // ---------------------------------------------------------------------------
  // Resumption
  // ---------------------------------------------------------------------------

  predicate FullyLabelled(speeches: seq<Speech>, labels: LabelStore, tasks: seq<string>) {
    forall s, t :: s in speeches && t in tasks ==> Cell(labels, KeyOf(s), LabelColumn(t)).Some?
  }

  /** A task whose column is already filled for every speech makes no call. */
  lemma CompleteTaskIsSkipped(speeches: seq<Speech>, labels: LabelStore, task: string,
                              service: Service, start: nat, render: Renderer)
    requires WellFormed(labels) && DistinctBy(speeches, KeyOf)
    requires forall s :: s in speeches ==> Cell(labels, KeyOf(s), LabelColumn(task)).Some?
    ensures RunTask(speeches, labels, task, service, start, render) == Step(labels, [], false)
  {
    var unlabeled := FindUnlabeled(speeches, labels, LabelColumn(task));
    assert forall i :: 0 <= i < |unlabeled| ==> unlabeled[i] in unlabeled;
    assert |unlabeled| == 0;
  }

  /** Re-running over a store in which every task column is filled for every
      speech makes no call and changes nothing. */
  lemma {:induction false} ResumeIsNoOp(speeches: seq<Speech>, labels: LabelStore, tasks: seq<string>,
                                        run: Runner, start: nat)
    requires WellFormed(labels) && GoodRunner(speeches, run)
    requires FullyLabelled(speeches, labels, tasks)
    ensures RunTasks(speeches, labels, tasks, run, start) == Run(labels, [], false)
    decreases |tasks|
  {
    if |tasks| > 0 {
      assert tasks[0] in tasks;
      assert StepWithin(speeches, labels, tasks[0], run(labels, tasks[0], start));
      assert run(labels, tasks[0], start) == Step(labels, [], false);
      assert forall t :: t in tasks[1..] ==> t in tasks;
      ResumeIsNoOp(speeches, labels, tasks[1..], run, start);
    }
  }
}
