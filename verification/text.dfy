/** String primitives the scripts rely on through Python's `str` methods:
    whitespace stripping, lower-casing, substring search, lexicographic
    comparison and the decimal integer syntax accepted by `int()`. */
module Text {
  import opened Wrappers

  /** The code points for which Python's `str.isspace()` holds; they are also
      exactly what `\s` matches in a `str` regular expression. */
  predicate IsSpace(c: char) {
    var n := c as int;
    (9 <= n <= 13) || (28 <= n <= 32) || n == 0x85 || n == 0xA0 || n == 0x1680
    || (0x2000 <= n <= 0x200A) || n == 0x2028 || n == 0x2029 || n == 0x202F
    || n == 0x205F || n == 0x3000
  }

  predicate IsDigit(c: char) {
    '0' <= c <= '9'
  }

  function DigitValue(c: char): (d: nat)
    requires IsDigit(c)
    ensures d < 10
  {
    c as int - '0' as int
  }

  function DigitChar(d: nat): (c: char)
    requires d < 10
    ensures IsDigit(c) && DigitValue(c) == d
  {
    ('0' as int + d) as char
  }

  // ---------------------------------------------------------------------------
  // Spans and stripping
  // ---------------------------------------------------------------------------

  /** Length of the longest prefix of `s` whose characters all satisfy `p`. */
  function SpanLength(s: string, p: char -> bool): (n: nat)
    ensures n <= |s|
    ensures forall i :: 0 <= i < n ==> p(s[i])
    ensures n < |s| ==> !p(s[n])
  {
    if |s| == 0 || !p(s[0]) then 0 else 1 + SpanLength(s[1..], p)
  }

  /** Length of the longest suffix of `s` whose characters all satisfy `p`. */
  function TrailingSpanLength(s: string, p: char -> bool): (n: nat)
    ensures n <= |s|
    ensures forall i :: |s| - n <= i < |s| ==> p(s[i])
    ensures n < |s| ==> !p(s[|s| - n - 1])
  {
    if |s| == 0 || !p(s[|s| - 1]) then 0 else 1 + TrailingSpanLength(s[..|s| - 1], p)
  }

  /** `s` is `r` with characters satisfying `p` added on both sides. */
  ghost predicate PaddedBy(s: string, r: string, p: char -> bool) {
    exists lead :: 0 <= lead <= |s| - |r| && Surrounds(s, lead, r, p)
  }

  ghost predicate Surrounds(s: string, lead: nat, r: string, p: char -> bool)
    requires lead + |r| <= |s|
  {
    && s[lead..lead + |r|] == r
    && (forall i :: 0 <= i < lead ==> p(s[i]))
    && (forall i :: lead + |r| <= i < |s| ==> p(s[i]))
  }

  /** Python's `s.strip(chars)`, with `p` deciding membership in `chars`:
      removes the longest leading and the longest trailing run of such characters. */
  function StripBy(s: string, p: char -> bool): (r: string)
    ensures |r| <= |s|
    ensures r == [] || (!p(r[0]) && !p(r[|r| - 1]))
    ensures PaddedBy(s, r, p)
  {
    var lead := SpanLength(s, p);
    var rest := s[lead..];
    var r := rest[..|rest| - TrailingSpanLength(rest, p)];
    assert Surrounds(s, lead, r, p);
    r
  }

  /** Python's argument-less `s.strip()`. */
  function Strip(s: string): (r: string)
    ensures |r| <= |s|
    ensures r == [] || (!IsSpace(r[0]) && !IsSpace(r[|r| - 1]))
    ensures PaddedBy(s, r, IsSpace)
  {
    StripBy(s, IsSpace)
  }

  predicate AllSatisfy(s: string, p: char -> bool) {
    forall i :: 0 <= i < |s| ==> p(s[i])
  }

  /** Stripping undoes padding: whatever run of `p` characters surrounds a text
      whose ends do not satisfy `p`, stripping returns exactly that text. */
  lemma StripByPadded(a: string, t: string, b: string, p: char -> bool)
    requires AllSatisfy(a, p) && AllSatisfy(b, p)
    requires t == [] || (!p(t[0]) && !p(t[|t| - 1]))
    requires t != [] || a + b == []
    ensures StripBy(a + t + b, p) == t
  {
    var s := a + t + b;
    SpanOfPrefix(a, t + b, p);
    assert s == a + (t + b);
    var rest := s[|a|..];
    assert rest == t + b;
    TrailingSpanOfSuffix(t, b, p);
  }

  lemma SpanOfPrefix(a: string, b: string, p: char -> bool)
    requires AllSatisfy(a, p)
    requires b == [] || !p(b[0])
    ensures SpanLength(a + b, p) == |a|
  {
    if |a| > 0 {
      assert (a + b)[1..] == a[1..] + b;
      SpanOfPrefix(a[1..], b, p);
    } else {
      assert a + b == b;
    }
  }

  lemma TrailingSpanOfSuffix(a: string, b: string, p: char -> bool)
    requires AllSatisfy(b, p)
    requires a == [] || !p(a[|a| - 1])
    requires a != [] || b == []
    ensures TrailingSpanLength(a + b, p) == |b|
  {
    if |b| > 0 {
      assert (a + b)[..|a + b| - 1] == a + b[..|b| - 1];
      TrailingSpanOfSuffix(a, b[..|b| - 1], p);
    } else {
      assert a + b == a;
    }
  }

  // ---------------------------------------------------------------------------
  // Case and substrings
  // ---------------------------------------------------------------------------

  function LowerChar(c: char): char {
    if 'A' <= c <= 'Z' then (c as int + 32) as char else c
  }

  /** `str.lower()` restricted to ASCII letters. */
  function Lower(s: string): (r: string)
    ensures |r| == |s|
    ensures forall i :: 0 <= i < |s| ==> r[i] == LowerChar(s[i])
  {
    seq(|s|, i requires 0 <= i < |s| => LowerChar(s[i]))
  }

  /** Python's `needle in hay` for strings. */
  predicate Contains(hay: string, needle: string) {
    exists i :: 0 <= i <= |hay| - |needle| && OccursAt(hay, i, needle)
  }

  predicate OccursAt(hay: string, i: int, needle: string) {
    0 <= i <= |hay| - |needle| && hay[i..i + |needle|] == needle
  }

  // ---------------------------------------------------------------------------
  // Lexicographic order (Python's `<` on str, by code point)
  // ---------------------------------------------------------------------------

  predicate StrLess(a: string, b: string)
    decreases |a|
  {
    if |a| == 0 then |b| > 0
    else if |b| == 0 then false
    else if a[0] != b[0] then a[0] < b[0]
    else StrLess(a[1..], b[1..])
  }

  lemma {:induction false} StrLessIrreflexive(a: string)
    ensures !StrLess(a, a)
    decreases |a|
  {
    if |a| > 0 {
      StrLessIrreflexive(a[1..]);
    }
  }

  lemma {:induction false} StrLessTransitive(a: string, b: string, c: string)
    requires StrLess(a, b) && StrLess(b, c)
    ensures StrLess(a, c)
    decreases |a|
  {
    if |a| > 0 && a[0] == b[0] && b[0] == c[0] {
      StrLessTransitive(a[1..], b[1..], c[1..]);
    }
  }

  lemma {:induction false} StrLessTotal(a: string, b: string)
    requires a != b
    ensures StrLess(a, b) || StrLess(b, a)
    decreases |a|
  {
    if |a| > 0 && |b| > 0 && a[0] == b[0] {
      assert a == [a[0]] + a[1..] && b == [b[0]] + b[1..];
      StrLessTotal(a[1..], b[1..]);
    }
  }

  // ---------------------------------------------------------------------------
  // Decimal integers as read by Python's int(str)
  // ---------------------------------------------------------------------------

  /** Digits with single underscores allowed between them, as `int()` accepts. */
  predicate IsDigitRun(s: string) {
    && |s| > 0
    && IsDigit(s[0])
    && IsDigit(s[|s| - 1])
    && (forall i :: 0 <= i < |s| ==> IsDigit(s[i]) || s[i] == '_')
    && (forall i :: 0 <= i < |s| - 1 ==> s[i] != '_' || s[i + 1] != '_')
  }

  /** Value of a digit string, skipping underscores. */
  function DigitsValue(s: string): nat
    requires forall i :: 0 <= i < |s| ==> IsDigit(s[i]) || s[i] == '_'
  {
    if |s| == 0 then 0
    else if s[|s| - 1] == '_' then DigitsValue(s[..|s| - 1])
    else 10 * DigitsValue(s[..|s| - 1]) + DigitValue(s[|s| - 1])
  }

  predicate IsSign(c: char) {
    c == '+' || c == '-'
  }

  /** `int(s)` for a string already stripped of whitespace; `None` stands for
      the `ValueError` it raises. Accepts an optional sign followed by a digit run. */
  function ParseInt(s: string): (r: Option<int>)
    ensures r.Some? ==> |s| > 0 && (IsDigit(s[0]) || IsSign(s[0]))
    ensures r.Some? ==> forall i :: 0 < i < |s| ==> IsDigit(s[i]) || s[i] == '_'
  {
    if |s| > 0 && IsSign(s[0]) then
      if IsDigitRun(s[1..]) then
        var magnitude: int := DigitsValue(s[1..]);
        Some(if s[0] == '-' then -magnitude else magnitude)
      else None
    else if IsDigitRun(s) then Some(DigitsValue(s))
    else None
  }

  /** Python's `str(n)` for a natural number. */
  function ShowNat(n: nat): (r: string)
    ensures |r| > 0
    ensures forall i :: 0 <= i < |r| ==> IsDigit(r[i])
  {
    if n < 10 then [DigitChar(n)] else ShowNat(n / 10) + [DigitChar(n % 10)]
  }

  /** Python's `str(n)` for any integer. */
  function ShowInt(n: int): string {
    if n < 0 then "-" + ShowNat(-n) else ShowNat(n)
  }

  lemma {:induction false} ShowNatValue(n: nat)
    ensures DigitsValue(ShowNat(n)) == n
  {
    var s := ShowNat(n);
    if n >= 10 {
      assert s[..|s| - 1] == ShowNat(n / 10);
      ShowNatValue(n / 10);
    }
  }

  /** `int(str(n)) == n`: the integer syntax round-trips every integer. */
  lemma ParseShowInt(n: int)
    ensures ParseInt(ShowInt(n)) == Some(n)
  {
    var s := ShowInt(n);
    if n < 0 {
      assert s[1..] == ShowNat(-n);
      ShowNatValue(-n);
      assert IsDigitRun(s[1..]);
    } else {
      ShowNatValue(n);
      assert !IsSign(s[0]);
      assert IsDigitRun(s);
    }
  }

  /** The decimal rendering of a number of at least four digits has at least
      four characters; four-digit years render in exactly four. */
  lemma {:induction false} ShowNatLength(n: nat)
    ensures n < 10 ==> |ShowNat(n)| == 1
    ensures 10 <= n ==> |ShowNat(n)| == |ShowNat(n / 10)| + 1
    ensures 1000 <= n <= 9999 ==> |ShowNat(n)| == 4
  {
    if n >= 10 {
      ShowNatLength(n / 10);
    }
  }
}
