/** The response parsers of the labelling pipeline (PARSERS): each turns the
    generation service's raw text into a label value or rejects it. */
module Parsers {
  import opened Wrappers
  import opened Text
  import opened Table

  /** The parsers registered for tasks. */
  datatype Parser = IntScore | PlainText | RedactedSpeech | QuotedSentence

  /** parse_int_score: the stripped text as an integer, accepted only in 1..5. */
  function ParseIntScore(text: string): (r: Option<int>)
    ensures r.Some? ==> 1 <= r.value <= 5
    ensures r.Some? ==> ParseInt(Strip(text)) == Some(r.value)
    ensures ParseInt(Strip(text)).Some? && 1 <= ParseInt(Strip(text)).value <= 5 ==> r.Some?
  {
    match ParseInt(Strip(text))
    case Some(n) => if 1 <= n <= 5 then Some(n) else None
    case None => None
  }

  /** parse_text: the stripped text, rejected when blank. */
  function ParseText(text: string): (r: Option<string>)
    ensures r.None? <==> AllSatisfy(text, IsSpace)
    ensures r.Some? ==> r.value != [] && !IsSpace(r.value[0]) && !IsSpace(r.value[|r.value| - 1])
    ensures r.Some? ==> PaddedBy(text, r.value, IsSpace)
  {
    var t := Strip(text);
    BlankIffStripsToEmpty(text);
    if t == [] then None else Some(t)
  }

  /** parse_redacted_speech: the same rule as parse_text (a speech without any
      marker is a valid redaction). */
  function ParseRedactedSpeech(text: string): (r: Option<string>)
    ensures r.None? <==> AllSatisfy(text, IsSpace)
    ensures r.Some? ==> r.value != [] && !IsSpace(r.value[0]) && !IsSpace(r.value[|r.value| - 1])
    ensures r.Some? ==> PaddedBy(text, r.value, IsSpace)
  {
    ParseText(text)
  }

  predicate IsDoubleQuote(c: char) {
    c == '"'
  }

  predicate IsSingleQuote(c: char) {
    c == '\''
  }

  /** parse_quoted_sentence: strip whitespace, then every surrounding double
      quote, then every surrounding single quote, then whitespace again. */
  function ParseQuotedSentence(text: string): (r: Option<string>)
    ensures r.Some? ==> r.value != [] && !IsSpace(r.value[0]) && !IsSpace(r.value[|r.value| - 1])
    ensures r.Some? ==> |r.value| <= |text|
  {
    var a := Strip(text);
    var b := StripBy(a, IsDoubleQuote);
    var c := StripBy(b, IsSingleQuote);
    var t := Strip(c);
    assert |t| <= |c| <= |b| <= |a| <= |text|;
    if t == [] then None else Some(t)
  }

  /** The values a parser can produce: scores 1..5, or non-empty trimmed texts. */
  predicate Accepts(p: Parser, v: Value) {
    match p
    case IntScore => v.IntVal? && 1 <= v.n <= 5
    case _ => v.TextVal? && Trimmed(v.text)
  }

  predicate Trimmed(t: string) {
    t != [] && !IsSpace(t[0]) && !IsSpace(t[|t| - 1])
  }

  function TextValue(t: Option<string>): (r: Option<Value>)
    requires t.Some? ==> Trimmed(t.value)
    ensures r.Some? ==> r.value.TextVal? && Trimmed(r.value.text)
  {
    if t.Some? then Some(TextVal(t.value)) else None
  }

  /** A parser applied to a raw response, giving the label value it stores. */
  function Apply(p: Parser, raw: string): (r: Option<Value>)
    ensures r.Some? ==> Accepts(p, r.value)
  {
    match p
    case IntScore =>
      var n := ParseIntScore(raw);
      if n.Some? then Some(IntVal(n.value)) else None
    case PlainText => TextValue(ParseText(raw))
    case RedactedSpeech => TextValue(ParseRedactedSpeech(raw))
    case QuotedSentence => TextValue(ParseQuotedSentence(raw))
  }

  // ---------------------------------------------------------------------------
  // Round trips
  // ---------------------------------------------------------------------------

  lemma BlankIffStripsToEmpty(text: string)
    ensures Strip(text) == [] <==> AllSatisfy(text, IsSpace)
  {
    if AllSatisfy(text, IsSpace) {
      SpanOfPrefix(text, [], IsSpace);
      assert text + [] == text;
    } else {
      var i :| 0 <= i < |text| && !IsSpace(text[i]);
      var n := SpanLength(text, IsSpace);
      assert n <= i;
      var rest := text[n..];
      assert !IsSpace(rest[i - n]);
    }
  }

  /** A number written with any surrounding whitespace is read back as a score
      exactly when it lies in 1..5. */
  lemma ParseIntScoreOfNumeral(before: string, n: int, after: string)
    requires AllSatisfy(before, IsSpace) && AllSatisfy(after, IsSpace)
    ensures ParseIntScore(before + ShowInt(n) + after) == if 1 <= n <= 5 then Some(n) else None
  {
    var s := ShowInt(n);
    assert s == (if n < 0 then "-" + ShowNat(-n) else ShowNat(n));
    if n < 0 {
      assert s[|s| - 1] == ShowNat(-n)[|ShowNat(-n)| - 1];
    }
    StripByPadded(before, s, after, IsSpace);
    ParseShowInt(n);
  }

  /** A non-blank text with any surrounding whitespace parses to itself. */
  lemma ParseTextOfPadded(before: string, t: string, after: string)
    requires AllSatisfy(before, IsSpace) && AllSatisfy(after, IsSpace)
    requires t != [] && !IsSpace(t[0]) && !IsSpace(t[|t| - 1])
    ensures ParseText(before + t + after) == Some(t)
    ensures ParseRedactedSpeech(before + t + after) == Some(t)
  {
    StripByPadded(before, t, after, IsSpace);
  }

  /** A sentence wrapped in double quotes and whitespace parses to the bare
      sentence, provided the sentence itself neither starts nor ends with a
      quote or whitespace. */
  lemma ParseQuotedSentenceOfQuoted(before: string, t: string, after: string)
    requires AllSatisfy(before, IsSpace) && AllSatisfy(after, IsSpace)
    requires t != []
    requires !IsSpace(t[0]) && !IsDoubleQuote(t[0]) && !IsSingleQuote(t[0])
    requires !IsSpace(t[|t| - 1]) && !IsDoubleQuote(t[|t| - 1]) && !IsSingleQuote(t[|t| - 1])
    ensures ParseQuotedSentence(before + "\"" + t + "\"" + after) == Some(t)
  {
    QuotedStrips(before, t, after);
    BareSentenceFixed(t);
  }

  lemma QuotedStrips(before: string, t: string, after: string)
    requires AllSatisfy(before, IsSpace) && AllSatisfy(after, IsSpace)
    requires t != [] && !IsSpace(t[0]) && !IsSpace(t[|t| - 1])
    ensures Strip(before + "\"" + t + "\"" + after) == "\"" + t + "\""
  {
    var quoted := "\"" + t + "\"";
    assert before + "\"" + t + "\"" + after == before + quoted + after;
    StripByPadded(before, quoted, after, IsSpace);
  }

  lemma BareSentenceFixed(t: string)
    requires t != []
    requires !IsSpace(t[0]) && !IsDoubleQuote(t[0]) && !IsSingleQuote(t[0])
    requires !IsSpace(t[|t| - 1]) && !IsDoubleQuote(t[|t| - 1]) && !IsSingleQuote(t[|t| - 1])
    ensures StripBy("\"" + t + "\"", IsDoubleQuote) == t
    ensures StripBy(t, IsSingleQuote) == t && Strip(t) == t
  {
    StripByPadded("\"", t, "\"", IsDoubleQuote);
    assert [] + t + [] == t;
    StripByPadded([], t, [], IsSingleQuote);
    StripByPadded([], t, [], IsSpace);
  }
}
