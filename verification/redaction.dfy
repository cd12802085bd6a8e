/** The redaction mark-up `[REDACT: hidden words]` and the two utilities
    built on the pattern `\[REDACT:\s*(.*?)\]`: replacing every marker with a
    blank, and listing the hidden words. Both scripts define the same pair. */
module Redaction {
  import opened Wrappers
  import opened Text

  const Opener: string := "[REDACT:"

  /** What a rendered marker becomes. */
  const Blank: string := "______"

  /** Characters the lazy `.*?` may cross before the closing `]`. */
  predicate InBody(c: char) {
    c != ']' && c != '\n'
  }

  /** A match of the pattern anchored at the start of `s`: its length and its
      captured group. `\s*` takes every leading whitespace character; the lazy
      group then stops at the first `]`, and `.` cannot cross a newline.
      Backtracking into `\s*` never helps: it only hands back whitespace,
      which contains no `]`. */
  function MatchMarker(s: string): (m: Option<(nat, string)>)
    ensures m.Some? ==> |Opener| + 1 <= m.value.0 <= |s|
    ensures m.Some? ==> s[..|Opener|] == Opener && s[m.value.0 - 1] == ']'
    ensures m.Some? ==> forall i :: 0 <= i < |m.value.1| ==> InBody(m.value.1[i])
  {
    if |s| < |Opener| || s[..|Opener|] != Opener then None
    else
      var rest := s[|Opener|..];
      var w := SpanLength(rest, IsSpace);
      var body := rest[w..];
      var k := SpanLength(body, InBody);
      if k < |body| && body[k] == ']' then
        assert s[|Opener| + w + k] == body[k];
        Some((|Opener| + w + k + 1, body[..k]))
      else None
  }

  /** render_redacted: `REDACT_PATTERN.sub("______", s)`, matches taken left to
      right without overlap. */
  function Render(s: string): (r: string)
    ensures |r| <= |s|
    decreases |s|
  {
    if |s| == 0 then []
    else match MatchMarker(s)
      case Some(m) => Blank + Render(s[m.0..])
      case None => [s[0]] + Render(s[1..])
  }

  /** extract_redactions: `REDACT_PATTERN.findall(s)`, the captured groups in order. */
  function Extract(s: string): (r: seq<string>)
    ensures forall i, j :: 0 <= i < |r| && 0 <= j < |r[i]| ==> InBody(r[i][j])
    decreases |s|
  {
    if |s| == 0 then []
    else match MatchMarker(s)
      case Some(m) => [m.1] + Extract(s[m.0..])
      case None => Extract(s[1..])
  }

  // ---------------------------------------------------------------------------
  // Properties
  // ---------------------------------------------------------------------------

  /** Every replaced marker is at least three characters longer than its blank,
      so a text comes back unchanged from rendering exactly when it holds no
      marker. */
  lemma {:induction false} RenderShrinks(s: string)
    ensures |Render(s)| + 3 * |Extract(s)| <= |s|
    ensures Extract(s) == [] ==> Render(s) == s
    decreases |s|
  {
    if |s| > 0 {
      match MatchMarker(s)
      case Some(m) => RenderShrinks(s[m.0..]);
      case None =>
        RenderShrinks(s[1..]);
        assert s == [s[0]] + s[1..];
    }
  }

  /** The text between the matches, left to right: one more piece than
      there are matches. */
  function Gaps(s: string): (r: seq<string>)
    ensures |r| > 0
    decreases |s|
  {
    if |s| == 0 then [[]]
    else match MatchMarker(s)
      case Some(m) => [[]] + Gaps(s[m.0..])
      case None =>
        var g := Gaps(s[1..]);
        [[s[0]] + g[0]] + g[1..]
  }

  /** Both utilities see the same matches: rendering puts exactly one blank
      between consecutive gaps for each word extraction returns. */
  lemma {:induction false} RenderBlanksEachMatch(s: string)
    ensures |Gaps(s)| == |Extract(s)| + 1
    ensures Render(s) == Blanked(Gaps(s))
    decreases |s|
  {
    if |s| > 0 {
      match MatchMarker(s)
      case Some(m) =>
        RenderBlanksEachMatch(s[m.0..]);
        assert ([[]] + Gaps(s[m.0..]))[1..] == Gaps(s[m.0..]);
      case None =>
        RenderBlanksEachMatch(s[1..]);
        var g := Gaps(s[1..]);
        var r := [[s[0]] + g[0]] + g[1..];
        assert r[1..] == g[1..];
        if |g| > 1 {
          assert Blanked(g) == g[0] + (Blank + Blanked(g[1..]));
        }
    }
  }

  lemma RenderIdentityIff(s: string)
    ensures Render(s) == s <==> Extract(s) == []
  {
    RenderShrinks(s);
  }

  /** A text in which `[REDACT:` never occurs is left as it is and yields no
      hidden words. */
  lemma {:induction false} NoOpenerIdentity(s: string)
    requires !Contains(s, Opener)
    ensures Render(s) == s
    ensures Extract(s) == []
    decreases |s|
  {
    if |s| > 0 {
      assert !OccursAt(s, 0, Opener);
      assert MatchMarker(s).None?;
      forall i | 0 <= i <= |s[1..]| - |Opener|
        ensures !OccursAt(s[1..], i, Opener)
      {
        assert !OccursAt(s, i + 1, Opener);
        assert s[1..][i..i + |Opener|] == s[i + 1..i + 1 + |Opener|];
      }
      NoOpenerIdentity(s[1..]);
      assert s == [s[0]] + s[1..];
    }
  }

  /** A hidden word the pattern captures whole: no `]`, no newline, and no
      leading whitespace (which `\s*` would swallow). */
  predicate Hideable(h: string) {
    && (forall i :: 0 <= i < |h| ==> InBody(h[i]))
    && (|h| == 0 || !IsSpace(h[0]))
  }

  predicate NoBracket(c: string) {
    forall i :: 0 <= i < |c| ==> c[i] != '['
  }

  /** A marked-up text: `chunks[0] [REDACT: hidden[0]] chunks[1] ...`. */
  function Markup(chunks: seq<string>, hidden: seq<string>): (r: string)
    requires |chunks| == |hidden| + 1
  {
    if |hidden| == 0 then chunks[0]
    else chunks[0] + (Opener + hidden[0] + "]" + Markup(chunks[1..], hidden[1..]))
  }

  /** The same text with every marker replaced by a blank. */
  function Blanked(chunks: seq<string>): (r: string)
    requires |chunks| > 0
  {
    if |chunks| == 1 then chunks[0] else chunks[0] + (Blank + Blanked(chunks[1..]))
  }

  /** Plain text without `[` passes through rendering and extraction untouched. */
  lemma PlainPrefix(c: string, t: string)
    requires NoBracket(c)
    ensures Render(c + t) == c + Render(t)
    ensures Extract(c + t) == Extract(t)
  {
    PlainPrefixRender(c, t);
    PlainPrefixExtract(c, t);
  }

  lemma {:induction false} PlainPrefixRender(c: string, t: string)
    requires NoBracket(c)
    ensures Render(c + t) == c + Render(t)
    decreases |c|
  {
    if |c| == 0 {
      assert c + t == t;
    } else {
      var s := c + t;
      var u := c[1..] + t;
      assert Render(s) == [c[0]] + Render(u) by {
        assert s[0] == c[0] && s[1..] == u;
        PlainStep(s);
      }
      assert NoBracket(c[1..]);
      PlainPrefixRender(c[1..], t);
      ConsAssoc(c, Render(t));
    }
  }

  lemma ConsAssoc(c: string, r: string)
    requires |c| > 0
    ensures c + r == [c[0]] + (c[1..] + r)
  {
    assert c == [c[0]] + c[1..];
  }

  lemma {:induction false} PlainPrefixExtract(c: string, t: string)
    requires NoBracket(c)
    ensures Extract(c + t) == Extract(t)
    decreases |c|
  {
    if |c| == 0 {
      assert c + t == t;
    } else {
      var s := c + t;
      assert Extract(s) == Extract(c[1..] + t) by {
        assert s[0] == c[0] && s[1..] == c[1..] + t;
        PlainStep(s);
      }
      assert NoBracket(c[1..]);
      PlainPrefixExtract(c[1..], t);
    }
  }

  /** A text not starting with `[` keeps its first character and is scanned
      on from the second. */
  lemma PlainStep(s: string)
    requires |s| > 0 && s[0] != '['
    ensures Render(s) == [s[0]] + Render(s[1..])
    ensures Extract(s) == Extract(s[1..])
  {
    if |s| >= |Opener| {
      assert s[..|Opener|][0] == s[0];
    }
    assert MatchMarker(s).None?;
  }

  /** The pattern matches a well-formed marker exactly, capturing its word. */
  lemma MatchWellFormed(h: string, t: string)
    requires Hideable(h)
    ensures MatchMarker(Opener + h + "]" + t) == Some((|Opener| + |h| + 1, h))
  {
    var s := Opener + h + "]" + t;
    var rest := h + "]" + t;
    assert s == Opener + rest;
    assert s[..|Opener|] == Opener && s[|Opener|..] == rest;
    MarkerBody(h, t);
  }

  /** After the opener: no whitespace to skip, and the lazy group stops right
      at the closing bracket. */
  lemma MarkerBody(h: string, t: string)
    requires Hideable(h)
    ensures SpanLength(h + "]" + t, IsSpace) == 0
    ensures SpanLength(h + "]" + t, InBody) == |h|
    ensures (h + "]" + t)[|h|] == ']' && (h + "]" + t)[..|h|] == h
  {
    var rest := h + "]" + t;
    SpanOfPrefix([], rest, IsSpace);
    assert [] + rest == rest;
    assert rest == h + ("]" + t);
    SpanOfPrefix(h, "]" + t, InBody);
  }

  /** One well-formed marker is replaced by one blank and contributes its word. */
  lemma MarkerPrefix(h: string, t: string)
    requires Hideable(h)
    ensures Render(Opener + h + "]" + t) == Blank + Render(t)
    ensures Extract(Opener + h + "]" + t) == [h] + Extract(t)
  {
    var s := Opener + h + "]" + t;
    MatchWellFormed(h, t);
    var n := |Opener| + |h| + 1;
    assert s[n..] == t;
    assert Render(s) == Blank + Render(s[n..]);
    assert Extract(s) == [h] + Extract(s[n..]);
  }

  /** The mark-up round trip: extraction recovers exactly the hidden words, in
      order, and rendering leaves the surrounding text with one blank per word. */
  lemma {:induction false} MarkupRoundTrip(chunks: seq<string>, hidden: seq<string>)
    requires |chunks| == |hidden| + 1
    requires forall i :: 0 <= i < |chunks| ==> NoBracket(chunks[i])
    requires forall i :: 0 <= i < |hidden| ==> Hideable(hidden[i])
    ensures Extract(Markup(chunks, hidden)) == hidden
    ensures Render(Markup(chunks, hidden)) == Blanked(chunks)
    decreases |hidden|
  {
    if |hidden| == 0 {
      PlainPrefix(chunks[0], []);
      assert chunks[0] + [] == chunks[0];
    } else {
      var tail := Markup(chunks[1..], hidden[1..]);
      var marked := Opener + hidden[0] + "]" + tail;
      MarkupRoundTrip(chunks[1..], hidden[1..]);
      MarkerPrefix(hidden[0], tail);
      PlainPrefix(chunks[0], marked);
      assert [hidden[0]] + hidden[1..] == hidden;
    }
  }
}
