/** The cleaning step: each source's rows are normalised into the speech
    table's schema (year parsed, category mapped, old years dropped, winner
    names cleaned), then the two sources are merged with the Academy rows
    winning on a shared key, and the result is sorted by key. */
module Clean {
  import opened Wrappers
  import opened Text
  import opened Sorting
  import opened Config
  import opened Table

  // ---------------------------------------------------------------------------
  // The Kaggle year field: "2016 (89th) Academy Awards"
  // ---------------------------------------------------------------------------

  /** The ordinal endings the year pattern accepts after the ceremony number. */
  const OrdinalSuffixes: seq<string> := ["st", "nd", "rd", "th"]

  /** Length of the run of characters satisfying `p` that starts at `i`. */
  function SpanFrom(s: string, i: nat, p: char -> bool): (n: nat)
    requires i <= |s|
    ensures i + n <= |s|
    ensures forall j :: i <= j < i + n ==> p(s[j])
    ensures i + n < |s| ==> !p(s[i + n])
    decreases |s| - i
  {
    if i == |s| || !p(s[i]) then 0 else 1 + SpanFrom(s, i + 1, p)
  }

  /** `s` starts with four digits, `w` whitespace characters, "(", `d` digits,
      an ordinal ending and ")"; whatever follows is not looked at. */
  predicate YearFieldAt(s: string, w: nat, d: nat) {
    && w > 0 && d > 0 && 8 + w + d <= |s|
    && (forall j :: 0 <= j < 4 ==> IsDigit(s[j]))
    && (forall j :: 4 <= j < 4 + w ==> IsSpace(s[j]))
    && s[4 + w] == '('
    && (forall j :: 5 + w <= j < 5 + w + d ==> IsDigit(s[j]))
    && s[5 + w + d..7 + w + d] in OrdinalSuffixes
    && s[7 + w + d] == ')'
  }

  function YearOf(s: string): nat
    requires |s| >= 4 && forall j :: 0 <= j < 4 ==> IsDigit(s[j])
  {
    DigitsValue(s[..4])
  }

  function CeremonyOf(s: string, w: nat, d: nat): nat
    requires YearFieldAt(s, w, d)
  {
    DigitsValue(s[5 + w..5 + w + d])
  }

  /** A match of the year pattern at the start of the field gives (year,
      ceremony); any other field gives `None` (both become missing). */
  function ParseKaggleYear(s: string): (r: Option<(int, int)>)
    ensures r.Some? ==> exists w, d :: YearFieldAt(s, w, d) && r.value == (YearOf(s), CeremonyOf(s, w, d))
  {
    if |s| < 4 || exists j :: 0 <= j < 4 && !IsDigit(s[j]) then None
    else
      var w := SpanFrom(s, 4, IsSpace);
      if w == 0 || 4 + w >= |s| || s[4 + w] != '(' then None
      else
        var d := SpanFrom(s, 5 + w, IsDigit);
        if d == 0 || |s| < 8 + w + d || s[5 + w + d..7 + w + d] !in OrdinalSuffixes || s[7 + w + d] != ')' then None
        else
          assert YearFieldAt(s, w, d);
          Some((YearOf(s), CeremonyOf(s, w, d)))
  }

  /** Every field of the expected shape parses to its year and ceremony
      number: with the function's own contract, a field parses exactly when
      it has this shape. */
  lemma ParseKaggleYearMatches(s: string, w: nat, d: nat)
    requires YearFieldAt(s, w, d)
    ensures ParseKaggleYear(s) == Some((YearOf(s), CeremonyOf(s, w, d)))
  {
    assert SpanFrom(s, 4, IsSpace) == w;
    var suffix := s[5 + w + d..7 + w + d];
    assert !IsDigit(suffix[0]);
    assert SpanFrom(s, 5 + w, IsDigit) == d;
  }

  /** `int(m.group(1)), int(m.group(2))` read back the numbers printed into
      the field: "2016 (89th) Academy Awards" gives (2016, 89). */
  lemma ParseKaggleYearShown(year: nat, ceremony: nat, suffix: string, tail: string)
    requires 1000 <= year <= 9999 && suffix in OrdinalSuffixes
    ensures ParseKaggleYear(ShowNat(year) + " (" + ShowNat(ceremony) + suffix + ")" + tail) == Some((year, ceremony))
  {
    var yd, cd := ShowNat(year), ShowNat(ceremony);
    ShowNatLength(year);
    ShowNatValue(year);
    ShowNatValue(ceremony);
    var s := yd + " (" + cd + suffix + ")" + tail;
    YearFieldOfParts(yd, cd, suffix, tail);
    ParseKaggleYearMatches(s, 1, |cd|);
  }

  lemma YearFieldOfParts(yd: string, cd: string, suffix: string, tail: string)
    requires |yd| == 4 && AllSatisfy(yd, IsDigit)
    requires |cd| > 0 && AllSatisfy(cd, IsDigit)
    requires suffix in OrdinalSuffixes
    ensures var s := yd + " (" + cd + suffix + ")" + tail;
            YearFieldAt(s, 1, |cd|) && s[..4] == yd && s[6..6 + |cd|] == cd
  {
    var s := yd + " (" + cd + suffix + ")" + tail;
    var d := |cd|;
    assert s == yd + " (" + (cd + (suffix + (")" + tail)));
    assert s[..4] == yd;
    assert s[4] == ' ' && s[5] == '(';
    assert s[6..6 + d] == cd;
    assert s[6 + d..8 + d] == suffix;
    assert s[8 + d] == ')';
  }

  // ---------------------------------------------------------------------------
  // Winner names: dropping a trailing parenthetical note
  // ---------------------------------------------------------------------------

  /** Length of `s` without its trailing whitespace. */
  function ContentEnd(s: string): (z: nat)
    ensures z <= |s|
    ensures forall j :: z <= j < |s| ==> IsSpace(s[j])
    ensures z > 0 ==> !IsSpace(s[z - 1])
  {
    |s| - TrailingSpanLength(s, IsSpace)
  }

  /** The note pattern (whitespace, "(", any characters but a newline, ")",
      whitespace, end of text) matches at `p`, with its "(" at `q`. */
  predicate ParenNoteAt(s: string, p: nat, q: nat) {
    var z := ContentEnd(s);
    && p <= q && q + 1 < z && s[z - 1] == ')'
    && (forall j :: p <= j < q ==> IsSpace(s[j]))
    && s[q] == '('
    && (forall j :: q < j < z - 1 ==> s[j] != '\n')
  }

  /** Index of the last `c` in `s[..end]`. */
  function LastIndexOf(s: string, c: char, end: nat): (r: Option<nat>)
    requires end <= |s|
    ensures r.Some? ==> r.value < end && s[r.value] == c && forall j :: r.value < j < end ==> s[j] != c
    ensures r.None? ==> forall j :: 0 <= j < end ==> s[j] != c
  {
    if end == 0 then None
    else if s[end - 1] == c then Some(end - 1)
    else LastIndexOf(s, c, end - 1)
  }

  /** Index of the first `c` in `s[from..end]`. */
  function FirstIndexFrom(s: string, c: char, from: nat, end: nat): (r: Option<nat>)
    requires from <= end <= |s|
    ensures r.Some? ==> from <= r.value < end && s[r.value] == c && forall j :: from <= j < r.value ==> s[j] != c
    ensures r.None? ==> forall j :: from <= j < end ==> s[j] != c
    decreases end - from
  {
    if from == end then None
    else if s[from] == c then Some(from)
    else FirstIndexFrom(s, c, from + 1, end)
  }

  /** `_PAREN_NOTE_RE.sub("", s)`: the text before the leftmost match of the
      note pattern, or the text itself when the pattern does not match. The
      pattern can match only once, as it runs to the end of the text. */
  function StripParenNote(s: string): (r: string)
    ensures |r| <= |s| && r == s[..|r|]
    ensures r == s <==> forall p: nat, q: nat :: !ParenNoteAt(s, p, q)
    ensures r != s ==> (exists q: nat :: ParenNoteAt(s, |r|, q)) && forall p: nat, q: nat :: p < |r| ==> !ParenNoteAt(s, p, q)
  {
    match NoteStart(s)
    case None => s
    case Some(start) => s[..start]
  }

  /** Where the leftmost match of the note pattern starts, if it matches. */
  function NoteStart(s: string): (r: Option<nat>)
    ensures r.None? ==> forall p: nat, q: nat :: !ParenNoteAt(s, p, q)
    ensures r.Some? ==> r.value < |s| && (exists q: nat :: ParenNoteAt(s, r.value, q))
                        && forall p: nat, q: nat :: p < r.value ==> !ParenNoteAt(s, p, q)
  {
    var z := ContentEnd(s);
    if z == 0 || s[z - 1] != ')' then
      None
    else
      var close := z - 1;
      var lineStart := match LastIndexOf(s, '\n', close) case Some(i) => i + 1 case None => 0;
      NoteOnLastLine(s, lineStart, close);
      match FirstIndexFrom(s, '(', lineStart, close)
      case None =>
        None
      case Some(open) =>
        var start := open - TrailingSpanLength(s[..open], IsSpace);
        FirstNote(s, lineStart, close, open, start);
        Some(start)
  }

  /** A note ending at the last ")" opens on the line that ")" is on. */
  lemma NoteOnLastLine(s: string, lineStart: nat, close: nat)
    requires close + 1 == ContentEnd(s) && s[close] == ')' && lineStart <= close
    requires lineStart == 0 || s[lineStart - 1] == '\n'
    ensures forall p: nat, q: nat :: ParenNoteAt(s, p, q) ==> lineStart <= q < close && s[q] == '('
  {
  }

  /** The first "(" of that line, with the whitespace before it, starts the
      leftmost note. */
  lemma FirstNote(s: string, lineStart: nat, close: nat, open: nat, start: nat)
    requires close + 1 == ContentEnd(s) && s[close] == ')' && lineStart <= open < close
    requires forall j :: lineStart <= j < close ==> s[j] != '\n'
    requires s[open] == '(' && forall j :: lineStart <= j < open ==> s[j] != '('
    requires start <= open && (forall j :: start <= j < open ==> IsSpace(s[j]))
    requires start > 0 ==> !IsSpace(s[start - 1])
    requires forall p: nat, q: nat :: ParenNoteAt(s, p, q) ==> lineStart <= q < close && s[q] == '('
    ensures ParenNoteAt(s, start, open)
    ensures forall p: nat, q: nat :: p < start ==> !ParenNoteAt(s, p, q)
  {
  }

  /** A name followed by a parenthetical note loses the note and the
      whitespace before it: "Jane Doe (posthumous)" becomes "Jane Doe". */
  lemma StripParenNoteOfNamed(name: string, ws: string, note: string, trail: string)
    requires |name| > 0 && !IsSpace(name[|name| - 1]) && forall j :: 0 <= j < |name| ==> name[j] != '('
    requires AllSatisfy(ws, IsSpace) && AllSatisfy(trail, IsSpace)
    requires forall j :: 0 <= j < |note| ==> note[j] != '\n'
    ensures StripParenNote(name + ws + "(" + note + ")" + trail) == name
  {
    var s := name + ws + "(" + note + ")" + trail;
    var q := |name| + |ws|;
    NamedNoteLayout(name, ws, note, trail);
    assert ParenNoteAt(s, |name|, q);
    var r := StripParenNote(s);
    assert r != s;
    var q': nat :| ParenNoteAt(s, |r|, q');
    assert |r| >= |name|;
    assert s[..|name|] == name;
  }

  /** Where the parts of a name-and-note text sit. */
  lemma NamedNoteLayout(name: string, ws: string, note: string, trail: string)
    requires AllSatisfy(trail, IsSpace)
    requires forall j :: 0 <= j < |name| ==> name[j] != '('
    requires AllSatisfy(ws, IsSpace)
    requires forall j :: 0 <= j < |note| ==> note[j] != '\n'
    ensures var s := name + ws + "(" + note + ")" + trail;
            var q := |name| + |ws|;
            && ContentEnd(s) == q + |note| + 2
            && s[q] == '(' && s[q + |note| + 1] == ')'
            && (forall j :: q < j < q + |note| + 1 ==> s[j] == note[j - q - 1])
            && (forall j :: |name| <= j < q ==> s[j] == ws[j - |name|])
            && (forall j :: 0 <= j < |name| ==> s[j] == name[j])
            && (forall j :: 0 <= j < q ==> s[j] != '(')
  {
    var s := name + ws + "(" + note + ")" + trail;
    var body := name + ws + "(" + note + ")";
    assert s == body + trail;
    assert !IsSpace(')');
    TrailingSpanOfSuffix(body, trail, IsSpace);
  }

  /** winner_clean: the stripped winner field without its trailing note. */
  function WinnerClean(raw: string): (r: string)
    ensures |r| <= |raw|
    ensures r == [] || (!IsSpace(r[0]) && !IsSpace(r[|r| - 1]))
  {
    Strip(StripParenNote(raw))
  }

  /** A stripped name with a note attached cleans back to the name. */
  lemma WinnerCleanOfNamed(name: string, note: string)
    requires |name| > 0 && !IsSpace(name[0]) && !IsSpace(name[|name| - 1])
    requires forall j :: 0 <= j < |name| ==> name[j] != '('
    requires forall j :: 0 <= j < |note| ==> note[j] != '\n'
    ensures WinnerClean(name + " (" + note + ")") == name
  {
    assert name + " (" + note + ")" == name + " " + "(" + note + ")" + "";
    assert IsSpace(' ');
    StripParenNoteOfNamed(name, " ", note, "");
    StripByPadded("", name, "", IsSpace);
    assert "" + name + "" == name;
  }

  // ---------------------------------------------------------------------------
  // The two loaders
  // ---------------------------------------------------------------------------

  /** A row of the Kaggle file, by the columns the loader reads. */
  datatype KaggleRow = KaggleRow(yearField: string, category: string, winner: string, speech: string, filmTitle: string)

  /** A row of the scraped Academy file: year and ceremony are already numbers
      (possibly missing). */
  datatype AcademyRow = AcademyRow(year: Option<int>, ceremony: Option<int>, category: string,
                                   winner: string, speech: string, filmTitle: string)

  /** The speech-header substitution (`_SPEECH_HEADER_RE.sub("", s)`), which the
      model takes as given. */
  type HeaderStrip = string -> string

  /** The speech column: stripped, header removed, stripped again. */
  function SpeechClean(speech: string, header: HeaderStrip): string {
    Strip(header(Strip(speech)))
  }

  /** The schema row both loaders build once a row has survived both filters. */
  function Normalised(year: int, ceremony: Option<int>, category: string, winner: string,
                      speech: string, filmTitle: string, header: HeaderStrip): Speech {
    var winnerRaw := Strip(winner);
    Speech(year, ceremony, category, filmTitle, winnerRaw, WinnerClean(winnerRaw), SpeechClean(speech, header))
  }

  /** One Kaggle row through load_kaggle: kept exactly when its year field
      parses to a year of at least MIN_YEAR and its category is listed in
      TARGET_CATEGORIES; the kept row carries the canonical category. */
  function LoadKaggleRow(row: KaggleRow, header: HeaderStrip): (r: Option<Speech>)
    ensures r.Some? <==> && ParseKaggleYear(row.yearField).Some?
                         && ParseKaggleYear(row.yearField).value.0 >= MinYear
                         && NormaliseCategory(row.category).Some?
    ensures r.Some? ==> && r.value.year == ParseKaggleYear(row.yearField).value.0 >= MinYear
                        && r.value.ceremony == Some(ParseKaggleYear(row.yearField).value.1)
                        && r.value.category in CanonicalCategories
                        && NormaliseCategory(r.value.category) == Some(r.value.category)
                        && r.value.filmTitle == row.filmTitle
                        && r.value.winnerRaw == Strip(row.winner)
                        && r.value.winnerClean == WinnerClean(r.value.winnerRaw)
  {
    match ParseKaggleYear(row.yearField)
    case None => None
    case Some((year, ceremony)) =>
      match NormaliseCategory(row.category)
      case None => None
      case Some(category) =>
        if year < MinYear then None
        else
          NormaliseIntoCanonical(row.category);
          NormaliseIdempotent(row.category);
          Some(Normalised(year, Some(ceremony), category, row.winner, row.speech, row.filmTitle, header))
  }

  /** One Academy row through load_academy: kept exactly when its year is
      present and at least MIN_YEAR and its category is listed; the film
      title is stripped too. */
  function LoadAcademyRow(row: AcademyRow, header: HeaderStrip): (r: Option<Speech>)
    ensures r.Some? <==> row.year.Some? && row.year.value >= MinYear && NormaliseCategory(row.category).Some?
    ensures r.Some? ==> && r.value.year == row.year.value >= MinYear
                        && r.value.ceremony == row.ceremony
                        && r.value.category in CanonicalCategories
                        && NormaliseCategory(r.value.category) == Some(r.value.category)
                        && r.value.filmTitle == Strip(row.filmTitle)
                        && r.value.winnerRaw == Strip(row.winner)
                        && r.value.winnerClean == WinnerClean(r.value.winnerRaw)
  {
    match NormaliseCategory(row.category)
    case None => None
    case Some(category) =>
      if row.year.None? || row.year.value < MinYear then None
      else
        NormaliseIntoCanonical(row.category);
        NormaliseIdempotent(row.category);
        Some(Normalised(row.year.value, row.ceremony, category, row.winner, row.speech, Strip(row.filmTitle), header))
  }

  /** The rows a loader keeps, in file order. */
  predicate Kept(s: Speech) {
    s.year >= MinYear && s.category in CanonicalCategories
  }

  /** The rows `f` keeps, converted, in order. */
  function FilterMap<A, B>(rows: seq<A>, f: A -> Option<B>): (r: seq<B>)
    ensures |r| <= |rows|
    ensures forall b :: b in r ==> exists i :: 0 <= i < |rows| && f(rows[i]) == Some(b)
    ensures forall i :: 0 <= i < |rows| && f(rows[i]).Some? ==> f(rows[i]).value in r
  {
    if |rows| == 0 then []
    else
      var rest := FilterMap(rows[1..], f);
      assert forall i :: 1 <= i < |rows| ==> rows[i] == rows[1..][i - 1];
      assert forall b :: b in rest ==> exists i :: 0 <= i < |rows| && f(rows[i]) == Some(b) by {
        forall b | b in rest ensures exists i :: 0 <= i < |rows| && f(rows[i]) == Some(b) {
          var i :| 0 <= i < |rows[1..]| && f(rows[1..][i]) == Some(b);
          assert rows[i + 1] == rows[1..][i];
        }
      }
      match f(rows[0])
      case None => rest
      case Some(b) => [b] + rest
  }

  /** A batch of rows converts as its two halves do, one after the other:
      the rows keep their file order and their multiplicity. */
  lemma {:induction false} FilterMapAppend<A, B>(a: seq<A>, b: seq<A>, f: A -> Option<B>)
    ensures FilterMap(a + b, f) == FilterMap(a, f) + FilterMap(b, f)
    decreases |a|
  {
    if |a| == 0 {
      assert a + b == b;
    } else {
      assert (a + b)[0] == a[0];
      assert (a + b)[1..] == a[1..] + b;
      FilterMapAppend(a[1..], b, f);
    }
  }

  /** A single row is kept, converted, exactly when `f` keeps it. */
  lemma FilterMapOne<A, B>(x: A, f: A -> Option<B>)
    ensures FilterMap([x], f) == if f(x).Some? then [f(x).value] else []
  {
    assert [x][1..] == [];
  }

  /** The row conversion of load_kaggle. */
  function KaggleLoader(header: HeaderStrip): KaggleRow -> Option<Speech> {
    row => LoadKaggleRow(row, header)
  }

  /** The row conversion of load_academy. */
  function AcademyLoader(header: HeaderStrip): AcademyRow -> Option<Speech> {
    row => LoadAcademyRow(row, header)
  }

  /** load_kaggle: the surviving rows, in file order. */
  function LoadKaggle(rows: seq<KaggleRow>, header: HeaderStrip): (r: seq<Speech>)
    ensures |r| <= |rows|
    ensures forall s :: s in r ==> Kept(s) && exists i :: 0 <= i < |rows| && LoadKaggleRow(rows[i], header) == Some(s)
    ensures forall i :: 0 <= i < |rows| && LoadKaggleRow(rows[i], header).Some? ==> LoadKaggleRow(rows[i], header).value in r
  {
    var f := KaggleLoader(header);
    var r := FilterMap(rows, f);
    forall s | s in r ensures Kept(s) {
      var i :| 0 <= i < |rows| && f(rows[i]) == Some(s);
    }
    r
  }

  /** load_academy: the surviving rows, in file order. */
  function LoadAcademy(rows: seq<AcademyRow>, header: HeaderStrip): (r: seq<Speech>)
    ensures |r| <= |rows|
    ensures forall s :: s in r ==> Kept(s) && exists i :: 0 <= i < |rows| && LoadAcademyRow(rows[i], header) == Some(s)
    ensures forall i :: 0 <= i < |rows| && LoadAcademyRow(rows[i], header).Some? ==> LoadAcademyRow(rows[i], header).value in r
  {
    var f := AcademyLoader(header);
    var r := FilterMap(rows, f);
    forall s | s in r ensures Kept(s) {
      var i :| 0 <= i < |rows| && f(rows[i]) == Some(s);
    }
    r
  }

  /** load_kaggle goes through the file row by row: the table of a file is
      the tables of its parts in order, and one row contributes its
      conversion exactly when it is kept. */
  lemma LoadKaggleInOrder(a: seq<KaggleRow>, b: seq<KaggleRow>, row: KaggleRow, header: HeaderStrip)
    ensures LoadKaggle(a + b, header) == LoadKaggle(a, header) + LoadKaggle(b, header)
    ensures LoadKaggle([row], header) ==
              if LoadKaggleRow(row, header).Some? then [LoadKaggleRow(row, header).value] else []
  {
    FilterMapAppend(a, b, KaggleLoader(header));
    FilterMapOne(row, KaggleLoader(header));
  }

  /** load_academy goes through the file row by row, in the same way. */
  lemma LoadAcademyInOrder(a: seq<AcademyRow>, b: seq<AcademyRow>, row: AcademyRow, header: HeaderStrip)
    ensures LoadAcademy(a + b, header) == LoadAcademy(a, header) + LoadAcademy(b, header)
    ensures LoadAcademy([row], header) ==
              if LoadAcademyRow(row, header).Some? then [LoadAcademyRow(row, header).value] else []
  {
    FilterMapAppend(a, b, AcademyLoader(header));
    FilterMapOne(row, AcademyLoader(header));
  }

  // ---------------------------------------------------------------------------
  // merge_sources
  // ---------------------------------------------------------------------------

  predicate SpeechLess(a: Speech, b: Speech) {
    KeyLess(KeyOf(a), KeyOf(b))
  }

  lemma SpeechLessTransitive()
    ensures Transitive(SpeechLess)
  {
    forall a, b, c | SpeechLess(a, b) && SpeechLess(b, c) ensures SpeechLess(a, c) {
      KeyLessTransitive(KeyOf(a), KeyOf(b), KeyOf(c));
    }
  }

  /** The first row with a key in `a + b` comes from `a` when `a` has the key. */
  lemma {:induction false} FirstWithKeyAppend<T, K>(a: seq<T>, b: seq<T>, key: T -> K, k: K)
    ensures FirstWithKey(a + b, key, k) ==
              if k in KeySet(a, key) then FirstWithKey(a, key, k) else FirstWithKey(b, key, k)
  {
    if |a| == 0 {
      assert a + b == b;
    } else {
      assert (a + b)[1..] == a[1..] + b;
      KeySetCons(a[0], a[1..], key);
      assert a == [a[0]] + a[1..];
      FirstWithKeyAppend(a[1..], b, key, k);
    }
  }

  /** merge_sources: Academy rows first, keep the first row per key, sort by
      key. Each key of either source appears once; a shared key keeps the
      Academy row, and a Kaggle-only key keeps the first Kaggle row. */
  function MergeSources(kaggle: seq<Speech>, academy: seq<Speech>): (r: seq<Speech>)
    ensures DistinctBy(r, KeyOf) && Sorted(r, SpeechLess)
    ensures KeySet(r, KeyOf) == KeySet(academy, KeyOf) + KeySet(kaggle, KeyOf)
    ensures forall s :: s in r && KeyOf(s) in KeySet(academy, KeyOf) ==> FirstWithKey(academy, KeyOf, KeyOf(s)) == Some(s)
    ensures forall s :: s in r && KeyOf(s) !in KeySet(academy, KeyOf) ==> FirstWithKey(kaggle, KeyOf, KeyOf(s)) == Some(s)
    ensures forall s :: s in r ==> s in academy || s in kaggle
  {
    var combined := DedupeBy(academy + kaggle, KeyOf);
    SpeechLessTransitive();
    KeyedComparable(combined);
    var r := Sort(combined, SpeechLess);
    SortedKeyedDistinct(r);
    MergedRows(academy, kaggle, r);
    r
  }

  lemma SameMembers(a: seq<Speech>, b: seq<Speech>)
    requires multiset(a) == multiset(b)
    ensures forall s :: s in a <==> s in b
  {
    forall s ensures s in a <==> s in b {
      assert s in a <==> s in multiset(a);
    }
  }

  /** Any reordering of the first-per-key rows of `academy + kaggle` covers
      the keys of both, each row being the first of its key in the source it
      came from, Academy before Kaggle. */
  lemma MergedRows(academy: seq<Speech>, kaggle: seq<Speech>, r: seq<Speech>)
    requires multiset(r) == multiset(DedupeBy(academy + kaggle, KeyOf))
    ensures KeySet(r, KeyOf) == KeySet(academy, KeyOf) + KeySet(kaggle, KeyOf)
    ensures forall s :: s in r && KeyOf(s) in KeySet(academy, KeyOf) ==> FirstWithKey(academy, KeyOf, KeyOf(s)) == Some(s)
    ensures forall s :: s in r && KeyOf(s) !in KeySet(academy, KeyOf) ==> FirstWithKey(kaggle, KeyOf, KeyOf(s)) == Some(s)
    ensures forall s :: s in r ==> s in academy || s in kaggle
  {
    var combined := DedupeBy(academy + kaggle, KeyOf);
    SameMembers(r, combined);
    assert KeySet(r, KeyOf) == KeySet(combined, KeyOf);
    forall s | s in r ensures
      (KeyOf(s) in KeySet(academy, KeyOf) ==> FirstWithKey(academy, KeyOf, KeyOf(s)) == Some(s))
      && (KeyOf(s) !in KeySet(academy, KeyOf) ==> FirstWithKey(kaggle, KeyOf, KeyOf(s)) == Some(s))
    {
      FirstWithKeyAppend(academy, kaggle, KeyOf, KeyOf(s));
    }
    assert KeySet(academy + kaggle, KeyOf) == KeySet(academy, KeyOf) + KeySet(kaggle, KeyOf) by {
      assert forall x :: x in academy + kaggle <==> x in academy || x in kaggle;
    }
  }

  /** Speeches with distinct keys are totally ordered by key. */
  lemma KeyedComparable(xs: seq<Speech>)
    requires DistinctBy(xs, KeyOf)
    ensures Comparable(xs, SpeechLess)
  {
    forall i, j | 0 <= i < |xs| && 0 <= j < |xs| && i != j
      ensures SpeechLess(xs[i], xs[j]) || SpeechLess(xs[j], xs[i])
    {
      KeyLessTotal(KeyOf(xs[i]), KeyOf(xs[j]));
    }
  }

  /** Speeches strictly sorted by key have distinct keys. */
  lemma SortedKeyedDistinct(xs: seq<Speech>)
    requires Sorted(xs, SpeechLess)
    ensures DistinctBy(xs, KeyOf)
  {
    forall i, j | 0 <= i < j < |xs| ensures KeyOf(xs[i]) != KeyOf(xs[j]) {
      KeyLessIrreflexive(KeyOf(xs[i]));
    }
  }

  /** clean_speeches' pipeline: both loaders, then the merge. The table it
      writes has unique keys in key order, every year at least MIN_YEAR and
      every category canonical, which is what its verification report checks. */
  lemma CleanedTable(kaggle: seq<KaggleRow>, academy: seq<AcademyRow>, header: HeaderStrip)
    ensures var t := MergeSources(LoadKaggle(kaggle, header), LoadAcademy(academy, header));
            && DistinctBy(t, KeyOf) && Sorted(t, SpeechLess)
            && forall s :: s in t ==> s.year >= MinYear && s.category in CanonicalCategories
  {
    var k := LoadKaggle(kaggle, header);
    var a := LoadAcademy(academy, header);
    var t := MergeSources(k, a);
    forall s | s in t ensures s.year >= MinYear && s.category in CanonicalCategories {
      assert Kept(s);
    }
  }
}
