/** The task registry: which parser each task uses (PARSERS), which label
    column it fills (TASK_LABEL_COLUMNS), and which earlier columns it reads
    (TASK_DEPENDENCIES). */
module Registry {
  import opened Wrappers
  import opened Config
  import opened Parsers

  /** PARSERS. */
  const ParserTable: map<string, Parser> := map[
    "distinctiveness" := IntScore,
    "redaction" := RedactedSpeech,
    "plot_hint" := QuotedSentence,
    "snippet_selection" := PlainText,
    "snippet_grading" := IntScore
  ]

  /** TASK_LABEL_COLUMNS: the tasks whose column is not named after their task. */
  const TaskLabelColumns: map<string, string> := map[
    "redaction" := "redacted_speech",
    "snippet_selection" := "golden_snippet"
  ]

  /** `PARSERS.get(task)`: a parser exactly for the tasks of TASKS; the two
      scoring tasks read an integer score, the others text. */
  function ParserOf(task: string): (r: Option<Parser>)
    ensures r.Some? <==> task in Tasks
    ensures r.Some? ==> (r.value == IntScore <==> task == "distinctiveness" || task == "snippet_grading")
  {
    if task in ParserTable then Some(ParserTable[task]) else None
  }

  /** `TASK_LABEL_COLUMNS.get(task, task)`: a task of TASKS writes its own
      entry of LabelColumns; any other name is its own column. */
  function LabelColumn(task: string): (r: string)
    ensures forall i :: 0 <= i < |Tasks| && task == Tasks[i] ==> r == LabelColumns[i]
    ensures task !in Tasks ==> r == task
  {
    if task in TaskLabelColumns then TaskLabelColumns[task] else task
  }

  /** `TASK_DEPENDENCIES.get(task, [])`: every column a task reads is a label
      column, and a name outside TASKS reads none. */
  function Dependencies(task: string): (r: seq<string>)
    ensures forall d :: d in r ==> d in LabelColumns
    ensures task !in Tasks ==> r == []
  {
    if task in TaskDependencies then TaskDependencies[task] else []
  }

  /** The registry covers exactly the labelling tasks, in the fixed order. */
  lemma RegistryConsistent()
    ensures Tasks == ["distinctiveness", "redaction", "plot_hint", "snippet_selection", "snippet_grading"]
    ensures forall t :: t in ParserTable <==> t in Tasks
    ensures forall t :: t in TaskDependencies ==> t in Tasks
  {
    assert ParserTable.Keys == {"distinctiveness", "redaction", "plot_hint", "snippet_selection", "snippet_grading"};
  }

  /** The label column of each task, in task order. */
  const LabelColumns: seq<string> :=
    ["distinctiveness", "redacted_speech", "plot_hint", "golden_snippet", "snippet_grading"]

  /** Each task writes a column of its own. */
  lemma LabelColumnsDistinct()
    ensures forall i, j :: 0 <= i < j < |Tasks| ==> LabelColumn(Tasks[i]) != LabelColumn(Tasks[j])
  {
    assert forall i :: 0 <= i < |Tasks| ==> LabelColumn(Tasks[i]) == LabelColumns[i];
    forall i, j | 0 <= i < j < |Tasks| ensures LabelColumns[i] != LabelColumns[j] {
      // The five columns start with five different letters.
      assert LabelColumns[i][0] != LabelColumns[j][0];
    }
  }

  /** No label column collides with a column of the speech table, so the join
      never renames one. */
  lemma LabelColumnsNew()
    ensures forall i :: 0 <= i < |Tasks| ==> LabelColumn(Tasks[i]) !in OutputColumns
  {
    assert forall i :: 0 <= i < |Tasks| ==> LabelColumn(Tasks[i]) == LabelColumns[i];
    forall i | 0 <= i < |Tasks| ensures LabelColumns[i] !in OutputColumns {
      // Label columns are 9, 14 or 15 characters long; speech columns 4, 8, 10 or 12.
      assert |LabelColumns[i]| in {9, 14, 15};
    }
  }

  /** Dependencies only point backwards: each column a task reads is written by
      a strictly earlier task. */
  lemma DependenciesForwardOnly()
    ensures forall i, d :: 0 <= i < |Tasks| && d in Dependencies(Tasks[i]) ==>
              exists j :: 0 <= j < i && LabelColumn(Tasks[j]) == d
  {
    forall i, d | 0 <= i < |Tasks| && d in Dependencies(Tasks[i])
      ensures exists j :: 0 <= j < i && LabelColumn(Tasks[j]) == d
    {
      // snippet_selection reads redaction's column; snippet_grading reads
      // snippet_selection's.
      var writer := if i == 3 then 1 else 3;
      assert LabelColumn(Tasks[writer]) == d;
    }
  }
}
