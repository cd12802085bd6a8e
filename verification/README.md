# Oscars acceptance-speech labelling pipeline, modelled in Dafny

The project models the data core of a small pipeline around Academy Award
acceptance speeches. Its four stages are:

- Cleaning: two raw sources (a Kaggle table and a scraped Academy table) are
  normalised to one schema, filtered by year and category, de-duplicated on the
  `(year, category)` key with the Academy row winning, and sorted.
- Labelling: a chain of tasks (distinctiveness, redaction, plot hint, snippet
  selection, snippet grading) asks a language-model service for one label per
  speech. The response is parsed per task. The label table is updated
  incrementally, so a second run only asks for what is still missing.
- Relabelling: one speech is found by film and category. One label is cleared
  and set again, either from the service or from a manual override.
- Export: the labelled speeches become game rounds. Each round has a
  `[REDACT: ...]` mark-up that is blanked for display, the list of hidden words,
  and six film options drawn in two clusters.

Modules, one per concern:

- `Wrappers`: `Option` and `Result`.
- `Text`: Python's `str.strip`, `int()`, ASCII `lower()`, substring search and
  string order.
- `Sorting`: insertion sort, keyed de-duplication and subsequences.
- `Table`: the speech row, the `(year, category)` key and the label table.
- `Config`: the shared constants.
- `Parsers`: the response parsers.
- `Registry`: `PARSERS`, `TASK_LABEL_COLUMNS` and `TASK_DEPENDENCIES`.
- `Store`: `find_unlabeled`, `save_labels` and `merge_for_output`.
- `Redaction`: the redaction regex, `render_redacted` and `extract_redactions`.
- `Pipeline`: `label_task` and the labelling loop of `run_pipeline`.
- `Relabel`: `find_speech` and `relabel`.
- `Clean`: the loaders and `merge_sources`.
- `Export`: `strip_outer_quotes`, the option sampling and `build_game_data`.

A pandas data frame is a sequence of rows. A missing cell is an absent map
entry. The label table keeps its column set explicitly, because a column can
exist with every cell missing.

Effects become parameters:

- The language-model service is `Service = (nat, string) -> Option<string>`,
  indexed by the number of the call within the run. `None` is an API error.
- Prompt templating is `Renderer = (string, PromptRow) -> Option<string>`.
  `None` is the exception a missing template or placeholder raises. Nothing
  catches it, so it ends the run.
- The random generator is a stream of draws, `Rng = nat -> nat`, threaded by
  position.
- The speech-header regex of the cleaning script is a parameter
  `HeaderStrip = string -> string`.

## Model

| member | source | states |
|---|---|---|
| Text.Strip | scripts/label_speeches.py:111 | `str.strip()`: the result has no whitespace at either end, is no longer than the input, and is the input with a whitespace run removed from each side |
| Text.ParseInt | scripts/label_speeches.py:113 | whatever `int()` accepts starts with a digit or a sign and continues with digits and underscores only |
| Text.Lower | scripts/relabel.py:38-40 | `str.lower()` keeps the length and lower-cases each character on its own |
| Sorting.Sort | scripts/clean_speeches.py:145 | `sort_values` on a key order with no ties gives a sorted permutation of the rows |
| Sorting.DedupeBy | scripts/clean_speeches.py:138 | `drop_duplicates(keep="first")` keeps an order-preserving subsequence with distinct keys, covering every key, and for each key its first row |
| Text.StripByPadded | scripts/label_speeches.py:111 | `strip` removes exactly the surrounding run: a text padded on both sides by characters of the class, whose own ends are outside it, strips back to itself |
| Text.ParseShowInt | scripts/label_speeches.py:113 | `int()` reads back every integer's decimal rendering, sign included |
| Config.NormaliseCategory | scripts/config.py:7-33 | `TARGET_CATEGORIES.get(raw)` has a value exactly when `raw` is a listed key, and the value is the one listed with it |
| Config.TargetCategoryKeysDistinct | scripts/config.py:7-33 | no raw category name is listed twice in TARGET_CATEGORIES, so the map literal loses no entry |
| Config.CanonicalValuesAreFixedPoints | scripts/config.py:7-33 | every canonical name is itself a key of TARGET_CATEGORIES and maps to itself |
| Config.NormaliseIdempotent | scripts/config.py:7-33 | normalising a normalised category changes nothing |
| Config.CanonicalCategoriesSortedValueSet | scripts/config.py:62 | the written-out CANONICAL_CATEGORIES is strictly sorted, has eight entries and has exactly the value set of TARGET_CATEGORIES |
| Config.NormaliseIntoCanonical | scripts/config.py:7-33 | a raw category is kept exactly when it is a key of TARGET_CATEGORIES, and then it lands in CANONICAL_CATEGORIES |
| Config.KeyColumnsAreOutputColumns | scripts/config.py:59-73 | the label key columns are `year` and `category`, and both are columns of the cleaned table |
| Parsers.ParseIntScore | scripts/label_speeches.py:109-120 | a score is returned exactly when the stripped text parses as an integer between 1 and 5, and it is that integer |
| Parsers.ParseIntScoreOfNumeral | scripts/label_speeches.py:109-120 | a numeral with surrounding whitespace parses to its value when 1 to 5, and to nothing otherwise |
| Parsers.ParseText | scripts/label_speeches.py:123-126 | nothing exactly for an all-whitespace response; otherwise the response without its surrounding whitespace, non-empty and trimmed |
| Parsers.ParseRedactedSpeech | scripts/label_speeches.py:129-132 | the same contract as parse_text, since a speech without markers is valid |
| Parsers.ParseTextOfPadded | scripts/label_speeches.py:123-132 | a trimmed text with any whitespace around it parses back to itself |
| Parsers.ParseQuotedSentence | scripts/label_speeches.py:135-138 | a result is non-empty, trimmed and no longer than the response |
| Parsers.ParseQuotedSentenceOfQuoted | scripts/label_speeches.py:135-138 | a double-quoted sentence with whitespace around it parses to the sentence when its ends are neither whitespace nor quote characters |
| Parsers.Apply | scripts/label_speeches.py:154-160 | every parsed value fits its parser: an integer score from 1 to 5, or a trimmed non-empty text |
| Registry.ParserOf | scripts/label_speeches.py:154-160 | a parser exists exactly for the five tasks of TASKS, and it is the integer-score parser exactly for distinctiveness and snippet grading |
| Registry.LabelColumn | scripts/label_speeches.py:164-167 | each task of TASKS writes its own listed column; any other name is its own column |
| Registry.Dependencies | scripts/config.py:53-56 | every column a task reads is a label column, and a name outside TASKS reads none |
| Registry.RegistryConsistent | scripts/label_speeches.py:154-160 | TASKS is the five tasks in order, PARSERS has a parser for exactly those tasks, and every dependency entry names a task |
| Registry.LabelColumnsDistinct | scripts/label_speeches.py:164-167 | no two tasks write the same label column |
| Registry.LabelColumnsNew | scripts/config.py:65-73 | no label column clashes with a column of the cleaned speech table |
| Registry.DependenciesForwardOnly | scripts/config.py:37-56 | every dependency of a task is the label column of an earlier task |
| Store.MissingRows | scripts/label_speeches.py:74-78 | the rows kept are a subsequence of the speeches, and a speech is kept exactly when its joined cell is missing |
| Store.FindUnlabeled | scripts/label_speeches.py:68-81 | all speeches when the column does not exist; otherwise an order-preserving subsequence holding exactly the speeches whose cell is missing |
| Store.MergeForOutput | scripts/label_speeches.py:251-260 | one merged row per speech, in order, whose label cells are the cells of the label row with the same key |
| Store.UnlabeledIffMergedMissing | scripts/label_speeches.py:74-78 | a speech is unlabelled exactly when its cell in the merged output is missing |
| Store.Upsert | scripts/label_speeches.py:241-243 | one record sets its own cell and leaves every other cell as it was, adding its key when new and keeping keys distinct |
| Store.UpsertAll | scripts/label_speeches.py:241-243 | every cell the batch names takes the batch value, every other cell is kept, and the key set is the union |
| Store.SaveLabels | scripts/label_speeches.py:218-248 | an empty batch changes nothing; otherwise the batch wins its own cells, every other cell is kept, the keys are the union and the rows are sorted by key |
| Store.SortedStore | scripts/label_speeches.py:245 | sorting by key reorders the rows without changing any lookup |
| Store.SaveKeepsFilledCells | scripts/label_speeches.py:223-226 | a filled cell stays filled after a save, and is unchanged unless the batch names it |
| Store.SavedRecordsReadBack | scripts/label_speeches.py:228-245 | every record of the batch reads back from the saved table |
| Store.SaveShrinksUnlabeled | scripts/label_speeches.py:68-81 | after saving a non-empty batch, a speech is still unlabelled exactly when it was before and the batch had no record for it |
| Redaction.MatchMarker | scripts/label_speeches.py:106 | a match starts with `[REDACT:`, ends at a `]`, and captures a group holding neither `]` nor a newline |
| Redaction.Render | scripts/label_speeches.py:143-145 | `render_redacted` never lengthens the text; its partners RenderBlanksEachMatch and MarkupRoundTrip fix what it is |
| Redaction.Extract | scripts/label_speeches.py:148-150 | no captured group holds `]` or a newline |
| Redaction.RenderShrinks | scripts/label_speeches.py:143-150 | each blanked marker shortens the text by at least three characters, and a text with no match renders unchanged |
| Redaction.RenderBlanksEachMatch | scripts/label_speeches.py:143-150 | rendering splits the text into one more gap than there are matches and puts a blank between consecutive gaps |
| Redaction.RenderIdentityIff | scripts/label_speeches.py:143-150 | rendering leaves a text unchanged exactly when there is nothing to extract |
| Redaction.NoOpenerIdentity | scripts/label_speeches.py:143-150 | a text without `[REDACT:` renders to itself and extracts nothing |
| Redaction.MatchWellFormed | scripts/label_speeches.py:106 | a well-formed marker matches with its own length and captures exactly its hidden words |
| Redaction.MarkerPrefix | scripts/label_speeches.py:143-150 | a leading marker renders as a blank and extracts its hidden words in front of the rest |
| Redaction.PlainPrefix | scripts/label_speeches.py:143-150 | text without `[` passes through rendering and extraction untouched |
| Redaction.MarkupRoundTrip | scripts/export_game_data.py:28-40 | marking up chunks and hidden words, then extracting, gives back the hidden words; rendering gives the chunks joined by blanks |
| Pipeline.NewLabels | scripts/label_speeches.py:196-211 | the records are the parsed calls in call order, keyed by the call rows, and distinct when the rows are |
| Pipeline.NewLabelsValue | scripts/label_speeches.py:200-208 | with distinct rows, each call's key reads back in new_labels as that call's parsed outcome, or is absent when the outcome is missing |
| Pipeline.Attempt | scripts/label_speeches.py:197-210 | the calls go through the rows in order, numbered from the start, each rendering its prompt and parsing the service's response; all rows are covered unless a prompt fails |
| Pipeline.LabelTaskFailure | scripts/label_speeches.py:200 | the loop stops exactly when some row's prompt fails to render, and it stops at the first such row |
| Pipeline.LabelTask | scripts/label_speeches.py:187-213 | each call is for its row, in order, with the rendered prompt and the parsed response; records are a keyed subsequence of the calls and carry each call's outcome |
| Pipeline.PromptRows | scripts/label_speeches.py:293-305 | one prompt row per unlabelled speech, in order, carrying each dependency's cell for that speech |
| Pipeline.LabelAndSave | scripts/label_speeches.py:307-308 | the store stays well-formed, an abort leaves it untouched, and only that task's missing cells can change |
| Pipeline.LabelAndSaveStoresOutcomes | scripts/label_speeches.py:307-308 | without an abort, every unlabelled speech gets one call and its cell becomes that call's parsed outcome |
| Pipeline.RunTask | scripts/label_speeches.py:281-308 | an unknown task, a complete column or a missing dependency column makes no call; otherwise, unless a prompt failed, every unlabelled speech is sent once in order and its cell becomes what its response parsed to; every call is for an unlabelled speech with its dependencies filled in; filled cells and other columns never change |
| Pipeline.RunTaskWithin | scripts/label_speeches.py:281-308 | one task's step stays within the bounds the labelling loop relies on |
| Pipeline.TaskRunner | scripts/label_speeches.py:281-308 | the per-task step of the loop is defined on every well-formed store and keeps within those bounds |
| Pipeline.RunTasks | scripts/label_speeches.py:281-308 | across the labelling tasks, the store stays well-formed, every call is for a listed task and an unlabelled speech, filled cells are never overwritten, and columns of no listed task are untouched |
| Pipeline.RunPipeline | scripts/label_speeches.py:265-311 | the merged output exists exactly when no prompt failed; it is the left merge of the speeches with the final store: one row per speech in order, each cell the store's cell for that speech's key, and the final label columns |
| Pipeline.CompleteTaskIsSkipped | scripts/label_speeches.py:286-291 | a task whose column is filled for every speech makes no call and changes nothing |
| Pipeline.ResumeIsNoOp | scripts/label_speeches.py:281-308 | re-running on a fully labelled table makes no call and changes nothing |
| Relabel.Matching | scripts/relabel.py:36-41 | the matches are a subsequence holding exactly the speeches whose lower-cased film title, and category when given, contain the lower-cased query |
| Relabel.FindSpeech | scripts/relabel.py:36-52 | a found speech matches the query; no match is reported exactly when nothing matches; several matches list every match, in order |
| Relabel.FindSpeechUnique | scripts/relabel.py:42-52 | a found speech is the only one in the table that matches |
| Relabel.ClearCell | scripts/relabel.py:86-88 | the one cell becomes missing and every other cell and the columns stay as they were |
| Relabel.RelabelPromptRow | scripts/relabel.py:90-96 | a dependency enters the prompt row exactly when the speech has a label row and the column exists, and it carries that cell |
| Relabel.WithNote | scripts/relabel.py:103-105 | without a note the prompt is unchanged; with one, the prompt is followed by the reviewer header and the note |
| Relabel.NewValue | scripts/relabel.py:98-117 | an override is used as given; otherwise a failed prompt, a failed call or an unparsable response is reported, and a parsed response becomes the value |
| Relabel.Relabel | scripts/relabel.py:55-128 | an unknown task or a failed search is reported; on success only the speech's task cell changes, to the new value, the old value is the previous cell, and the output is re-merged (what the new value is: RelabelOverride and RelabelGenerated) |
| Relabel.RelabelOverride | scripts/relabel.py:98-101 | with an override, a known task and a unique match, relabelling succeeds with the override as the new value |
| Relabel.RelabelGenerated | scripts/relabel.py:102-125 | once the task is known and the speech found, relabel succeeds exactly when a new value is obtained, fails with the prompt, call or parse error otherwise, and stores the obtained value |
| Clean.ParseKaggleYear | scripts/clean_speeches.py:26 | a parse result is the year and ceremony read from a `YYYY (Nth)` prefix of the field |
| Clean.ParseKaggleYearMatches | scripts/clean_speeches.py:48-58 | every field with a `YYYY (Nth)` prefix parses to its year and ceremony |
| Clean.ParseKaggleYearShown | scripts/clean_speeches.py:48-58 | a field written as year, ceremony and ordinal suffix parses back to that year and ceremony |
| Clean.StripParenNote | scripts/clean_speeches.py:29 | the result is a prefix of the text; it is the whole text exactly when no trailing note matches, and otherwise ends where the leftmost match starts |
| Clean.NoteStart | scripts/clean_speeches.py:29 | the start of the leftmost match of the trailing-note pattern, or none exactly when no position matches |
| Clean.StripParenNoteOfNamed | scripts/clean_speeches.py:69-71 | a name followed by whitespace, a one-line parenthetical note and trailing whitespace comes back as the name |
| Clean.WinnerClean | scripts/clean_speeches.py:68-71 | the cleaned winner is trimmed and no longer than the raw one |
| Clean.WinnerCleanOfNamed | scripts/clean_speeches.py:68-71 | `Name (note)` cleans to `Name` |
| Clean.LoadKaggleRow | scripts/clean_speeches.py:39-83 | a Kaggle row is kept exactly when its year field parses to at least MIN_YEAR and its category is listed; the kept row has the canonical category, the stripped winner and the film title as given |
| Clean.LoadAcademyRow | scripts/clean_speeches.py:90-125 | an Academy row is kept exactly when it has a year of at least MIN_YEAR and a listed category; the kept row has the canonical category and the stripped winner and title |
| Clean.FilterMap | scripts/clean_speeches.py:61-65 | the kept rows, converted: no more rows than the input, each from some kept input row, and every kept input row present |
| Clean.FilterMapAppend | scripts/clean_speeches.py:61-65 | filtering keeps file order and multiplicity: the table of two parts is the two tables one after the other |
| Clean.FilterMapOne | scripts/clean_speeches.py:61-65 | a single row contributes its conversion exactly when it is kept |
| Clean.LoadKaggle | scripts/clean_speeches.py:39-83 | the loaded rows are exactly the kept Kaggle rows, each within the year and category filter |
| Clean.LoadAcademy | scripts/clean_speeches.py:90-125 | the loaded rows are exactly the kept Academy rows, each within the year and category filter |
| Clean.LoadKaggleInOrder | scripts/clean_speeches.py:39-83 | load_kaggle goes row by row in file order: the table of two parts is their tables in order, and one row gives its conversion exactly when kept |
| Clean.LoadAcademyInOrder | scripts/clean_speeches.py:90-125 | load_academy goes row by row in file order, in the same way |
| Clean.MergeSources | scripts/clean_speeches.py:132-146 | keys are distinct and sorted, every key of either source appears, a key present in the Academy rows takes the first Academy row, and otherwise the first Kaggle row |
| Clean.MergedRows | scripts/clean_speeches.py:134-138 | any reordering of the de-duplicated concatenation keeps the key union and the Academy-first choice |
| Clean.CleanedTable | scripts/clean_speeches.py:153-163 | the cleaned table has distinct sorted keys, years of at least MIN_YEAR and canonical categories only |
| Export.Unquote | scripts/export_game_data.py:56-57 | one round of the quote loop never lengthens the text and keeps a trimmed text trimmed |
| Export.StripOuterQuotes | scripts/export_game_data.py:52-58 | the result is trimmed and no longer than the input |
| Export.StripOuterQuotesOfQuoted | scripts/export_game_data.py:52-58 | a trimmed text wrapped in one of the four quote marks comes back without the wrapping, when its own ends are not quote characters |
| Export.StripOuterQuotesKeepsBarePair | scripts/export_game_data.py:55-57 | a bare pair of quotes is kept, because the length guard needs something between the marks |
| Export.Sample | scripts/export_game_data.py:74-81 | `random.sample` draws exactly k elements of the population without repetition and consumes k draws |
| Export.Shuffle | scripts/export_game_data.py:125 | `random.shuffle` permutes the options |
| Export.SampleTitles | scripts/export_game_data.py:61-81 | distinct candidate titles, as many as asked or as exist; with a year, nearby titles come first and far ones only make up the number |
| Export.SampleNearFirst | scripts/export_game_data.py:69-79 | enough nearby titles are sampled among themselves; too few are all taken and topped up |
| Export.FillFromFar | scripts/export_game_data.py:75-79 | all nearby titles are kept and the rest come from the far candidates up to the number asked |
| Export.NearFirst | scripts/export_game_data.py:79 | the nearby titles followed by a sample of far ones, distinct, of the right size |
| Export.SameCluster | scripts/export_game_data.py:93-99 | the correct film first, then up to two other titles of its category, all distinct, and exactly `min(2, other titles of the category)` of them |
| Export.DecoySeed | scripts/export_game_data.py:101-106 | a seed film from another category when any is unused, otherwise any unused film, and none only when every film is used |
| Export.DecoyCluster | scripts/export_game_data.py:101-117 | up to three distinct unused titles, empty exactly when every film is used; the first is from another category whenever such a film is unused, and the rest are unused films of the category of that film's first row, `min(2, available)` of them |
| Export.SeedCluster | scripts/export_game_data.py:107-115 | the seed film first, then distinct unused films of the category of the seed's first row in the pool, `min(2, available)` of them |
| Export.Pad | scripts/export_game_data.py:119-123 | the options keep their order and are topped up with distinct unused pool titles to six, or as far as the pool allows |
| Export.PickFilmOptions | scripts/export_game_data.py:84-126 | the correct film is among at most six distinct titles from the pool, and there are exactly six when the pool has five other titles |
| Export.PickFilmOptionsGood | scripts/export_game_data.py:155 | every draw of options for a round keeps the film among at most six distinct titles |
| Export.GradedRows | scripts/export_game_data.py:132-133 | the kept rows are a subsequence that keeps every row graded at least 3, as often as it occurs, and no other row |
| Export.GradedMembers | scripts/export_game_data.py:132 | a row is kept exactly when it is graded at least 3 |
| Export.MakeRound | scripts/export_game_data.py:137-156 | a round carries its row's film, category, year, winner, speech and plot hint, the row's own grade (at least 3), the unquoted snippet with its display `Render` and redactions `Extract`, the unquoted redacted speech rendered, and good options |
| Export.MakeRoundSnippet | scripts/export_game_data.py:138-150 | the snippet is unquoted and trimmed, its display equals it exactly when it has no redactions, and the display is the snippet's gaps joined by one blank per listed redaction |
| Export.OptionLists | scripts/export_game_data.py:137-155 | one good option list per kept row |
| Export.Rounds | scripts/export_game_data.py:136-156 | one round per kept row, numbered from 0 in order |
| Export.SortedCategories | scripts/export_game_data.py:158 | the categories of the rounds, each once, in increasing order |
| Export.BuildGameData | scripts/export_game_data.py:129-163 | one numbered round per row graded at least 3, in order, and the sorted distinct categories of exactly those rows |

## Left out

- Reading and writing CSV and JSON, file paths, test-mode switches, command-line parsing and every `print`: these are I/O with no effect on the data.
- The verification report at the end of `run_pipeline` and of the cleaning script: it only prints.
- `load_existing_labels` and `load_prompt`: file I/O. The label table is a parameter, and a missing template is one of the `None` results of the `Renderer`.
- The Gemini client and `call_gemini`: modelled as the `Service` oracle. Its exceptions are the `None` result.
- `time.sleep` between calls: it has no effect on the data.
- `scrape_academy.py`: the Academy table is an input.
- `_SPEECH_HEADER_RE`: the header removal is the `HeaderStrip` parameter. Its regex is not modelled.
- Text.Lower: only ASCII letters are lower-cased, unlike Python's full Unicode `str.lower()`.
- Clean.ParseKaggleYear: `\d` in the year pattern matches any Unicode decimal digit and `int()` converts it; the model reads ASCII digits only.
- Text.ParseInt: only ASCII digits are read, while Python's `int()` also accepts other Unicode decimal digits.
- Relabel.Matching: `str.contains` interprets the query as a regular expression by default; the model matches it as a literal substring.
- pandas dtypes, `NaN` and nullable `Int64`: a missing value is an absent cell or `None`. The `_safe` conversion of `NaN` to JSON `null` is the `Option` of `plot_hint`.
- `dropna(how="all")` in the loaders: an all-empty row has no year, so the year filter drops it anyway.
- `astype(str)` of a missing winner or speech (the text `nan`): loader rows carry strings.
- Export.TextOf: a float cell is not modelled; an integer cell prints as its decimal digits and a missing one as `nan`.
- Store.SaveLabels: requires the batch keys to be distinct. `label_task` produces at most one record per row, and with the key unique per speech that always holds.
- Pipeline.RunTask: requires the speeches to have distinct `(year, category)` keys. The cleaned table guarantees this, as Clean.CleanedTable states.
- Pipeline.RunTasks: takes the per-task step as a function value (Pipeline.TaskRunner builds it from RunTask), so its contract is stated for any step within RunTask's bounds.
- Export.GradedRows: a `snippet_grading` cell holding text is treated as not graded. The source compares a numeric column.
- Randomness: `random.sample` and `random.shuffle` draw from the `Rng` stream. The model fixes how the draws are used, not CPython's exact algorithm.
