/** The game export: speeches whose snippet grade is good enough become game
    rounds, each with its snippet and speech rendered with blanks, the hidden
    words in order, and six film titles to choose from; the category list is
    sorted and duplicate-free. Randomness is a stream of draws. */
module Export {
  import opened Wrappers
  import opened Text
  import opened Sorting
  import opened Table
  import opened Store
  import opened Redaction

  // ---------------------------------------------------------------------------
  // strip_outer_quotes
  // ---------------------------------------------------------------------------

  /** The quote marks tried, in order: triple quotes before single ones. */
  const QuoteMarks: seq<string> := ["\"\"\"", "'''", "\"", "'"]

  /** No leading or trailing whitespace. */
  predicate Stripped(t: string) {
    t == [] || (!IsSpace(t[0]) && !IsSpace(t[|t| - 1]))
  }

  /** One round of the loop: remove `q` from both ends when the text starts
      and ends with it and is longer than the two marks, then strip. */
  function Unquote(text: string, q: string): (r: string)
    ensures |r| <= |text|
    ensures Stripped(text) ==> Stripped(r)
  {
    if |text| > 2 * |q| && text[..|q|] == q && text[|text| - |q|..] == q then
      Strip(text[|q|..|text| - |q|])
    else text
  }

  /** The loop of strip_outer_quotes over `marks`. */
  function UnquoteAll(text: string, marks: seq<string>): (r: string)
    ensures |r| <= |text|
    ensures Stripped(text) ==> Stripped(r)
    decreases |marks|
  {
    if |marks| == 0 then text else UnquoteAll(Unquote(text, marks[0]), marks[1..])
  }

  /** strip_outer_quotes: strip, then each quote mark in turn. */
  function StripOuterQuotes(text: string): (r: string)
    ensures |r| <= |text|
    ensures Stripped(r)
  {
    UnquoteAll(Strip(text), QuoteMarks)
  }

  predicate IsQuoteChar(c: char) {
    c == '"' || c == '\''
  }

  /** Text the model wrapped in quotes comes back as it was: for each quote
      mark, a stripped text that neither starts nor ends with a quote
      character loses exactly the wrapping. */
  lemma StripOuterQuotesOfQuoted(q: string, t: string)
    requires q in QuoteMarks
    requires |t| > 0 && Stripped(t) && !IsQuoteChar(t[0]) && !IsQuoteChar(t[|t| - 1])
    ensures StripOuterQuotes(q + t + q) == t
  {
    var s := q + t + q;
    var m := QuoteMarks;
    StrippedIsFixed(s);
    var k :| 0 <= k < |m| && m[k] == q;
    EarlierRoundsSkip(t, k);
    UnquoteRounds(s, m, k);
    UnquoteOwnMark(q, t);
    LaterRoundsSkip(t, k);
    assert m[k..][1..] == m[k + 1..];
  }

  /** The rounds before the wrapping mark's own do nothing: the text differs
      from each earlier mark in its first or second character. */
  lemma EarlierRoundsSkip(t: string, k: nat)
    requires k < |QuoteMarks|
    requires |t| > 0 && !IsQuoteChar(t[0])
    ensures var s := QuoteMarks[k] + t + QuoteMarks[k];
            forall j :: 0 <= j < k ==> Unquote(s, QuoteMarks[j]) == s
  {
    var q := QuoteMarks[k];
    var s := q + t + q;
    QuoteMarksStartWithQuotes();
    assert s[0] == q[0];
    assert |q| == 1 ==> s[1] == t[0];
    forall j | 0 <= j < k ensures Unquote(s, QuoteMarks[j]) == s {
      var at := if QuoteMarks[j][0] != q[0] then 0 else 1;
      UnquoteMismatch(s, QuoteMarks[j], at);
    }
  }

  /** The rounds after the wrapping mark's own leave the unwrapped text alone. */
  lemma LaterRoundsSkip(t: string, k: nat)
    requires k < |QuoteMarks|
    requires |t| > 0 && !IsQuoteChar(t[0])
    ensures UnquoteAll(t, QuoteMarks[k + 1..]) == t
  {
    var m := QuoteMarks[k + 1..];
    QuoteMarksStartWithQuotes();
    forall j | 0 <= j < |m| ensures Unquote(t, m[j]) == t {
      assert m[j] == QuoteMarks[k + 1 + j];
      UnquoteMismatch(t, m[j], 0);
    }
    UnquoteLater(t, m);
  }

  /** The rounds before `k` leave `s` as it is. */
  lemma {:induction false} UnquoteRounds(s: string, m: seq<string>, k: nat)
    requires k < |m|
    requires forall j :: 0 <= j < k ==> Unquote(s, m[j]) == s
    ensures UnquoteAll(s, m) == UnquoteAll(s, m[k..])
  {
    if k > 0 {
      assert m[1..][k - 1..] == m[k..];
      UnquoteRounds(s, m[1..], k - 1);
    }
  }

  /** Rounds that each leave `t` alone leave it alone together. */
  lemma {:induction false} UnquoteLater(t: string, m: seq<string>)
    requires forall j :: 0 <= j < |m| ==> Unquote(t, m[j]) == t
    ensures UnquoteAll(t, m) == t
    decreases |m|
  {
    if |m| > 0 {
      UnquoteLater(t, m[1..]);
    }
  }

  lemma QuoteMarksStartWithQuotes()
    ensures forall j :: 0 <= j < |QuoteMarks| ==> |QuoteMarks[j]| > 0 && IsQuoteChar(QuoteMarks[j][0])
    ensures forall j :: 0 <= j < |QuoteMarks| ==> |QuoteMarks[j]| == 1 || (|QuoteMarks[j]| == 3 && QuoteMarks[j][1] == QuoteMarks[j][0])
  {
  }

  lemma StrippedIsFixed(s: string)
    requires Stripped(s)
    ensures Strip(s) == s
  {
    StripByPadded("", s, "", IsSpace);
    assert "" + s + "" == s;
  }

  /** The round for the wrapping mark removes exactly the wrapping. */
  lemma UnquoteOwnMark(q: string, t: string)
    requires |t| > 0 && Stripped(t)
    ensures Unquote(q + t + q, q) == t
  {
    var s := q + t + q;
    assert s[..|q|] == q && s[|s| - |q|..] == q;
    assert s[|q|..|s| - |q|] == t;
    StrippedIsFixed(t);
  }

  /** A round whose mark differs from the text at position `k` does nothing. */
  lemma UnquoteMismatch(s: string, p: string, k: nat)
    requires k < |p| && k < |s| && s[k] != p[k]
    ensures Unquote(s, p) == s
  {
    if |s| > 2 * |p| {
      assert s[..|p|][k] == s[k];
    }
  }

  /** A bare pair of quotes is not longer than its two marks, so it stays. */
  lemma StripOuterQuotesKeepsBarePair()
    ensures StripOuterQuotes("\"\"") == "\"\""
    ensures StripOuterQuotes("''") == "''"
  {
    StripByPadded("", "\"\"", "", IsSpace);
    assert "" + "\"\"" + "" == "\"\"";
    StripByPadded("", "''", "", IsSpace);
    assert "" + "''" + "" == "''";
  }

  // ---------------------------------------------------------------------------
  // Random choice
  // ---------------------------------------------------------------------------

  /** A stream of random draws: `rng(n)` is the n-th draw of the run. */
  type Rng = nat -> nat

  predicate NoDup<T(==)>(xs: seq<T>) {
    forall i, j :: 0 <= i < j < |xs| ==> xs[i] != xs[j]
  }

  /** Two duplicate-free lists with no common element join into one. */
  lemma NoDupConcat(a: seq<string>, b: seq<string>)
    requires NoDup(a) && NoDup(b)
    requires forall t :: t in b ==> t !in a
    ensures NoDup(a + b)
  {
    var c := a + b;
    forall i, j | 0 <= i < j < |c| ensures c[i] != c[j] {
      if j >= |a| {
        assert c[j] == b[j - |a|];
        assert b[j - |a|] in b;
        if i < |a| {
          assert c[i] == a[i] && a[i] in a;
        } else {
          assert c[i] == b[i - |a|];
        }
      }
    }
  }

  /** `random.sample(xs, k)`: `k` picks without replacement, each draw choosing
      among the elements not yet picked; also returns the next draw's number. */
  function Sample(xs: seq<string>, k: nat, rng: Rng, pos: nat): (r: (seq<string>, nat))
    requires k <= |xs|
    ensures |r.0| == k && r.1 == pos + k
    ensures multiset(r.0) <= multiset(xs)
    ensures k == |xs| ==> multiset(r.0) == multiset(xs)
    ensures forall x :: x in r.0 ==> x in xs
    ensures NoDup(xs) ==> NoDup(r.0)
    decreases k
  {
    if k == 0 then ([], pos)
    else
      var i := rng(pos) % |xs|;
      var more := Sample(xs[..i] + xs[i + 1..], k - 1, rng, pos + 1);
      SampleStep(xs, i, more.0);
      ([xs[i]] + more.0, more.1)
  }

  /** One draw of `random.sample`: the element at `i` in front of a sample
      of the others is a sample of the whole. */
  lemma SampleStep(xs: seq<string>, i: nat, more: seq<string>)
    requires i < |xs|
    requires multiset(more) <= multiset(xs[..i] + xs[i + 1..])
    requires NoDup(xs[..i] + xs[i + 1..]) ==> NoDup(more)
    ensures multiset([xs[i]] + more) <= multiset(xs)
    ensures |more| == |xs| - 1 && multiset(more) == multiset(xs[..i] + xs[i + 1..]) ==>
              multiset([xs[i]] + more) == multiset(xs)
    ensures forall x :: x in [xs[i]] + more ==> x in xs
    ensures NoDup(xs) ==> NoDup([xs[i]] + more)
  {
    RemoveAt(xs, i);
    MultisetMembers(more, xs[..i] + xs[i + 1..]);
    if NoDup(xs) {
      NoDupConcat([xs[i]], more);
    }
  }

  /** Taking out the element at `i` takes one copy of it out of the multiset. */
  lemma RemoveAt(xs: seq<string>, i: nat)
    requires i < |xs|
    ensures multiset(xs) == multiset(xs[..i] + xs[i + 1..]) + multiset{xs[i]}
    ensures NoDup(xs) ==> NoDup(xs[..i] + xs[i + 1..]) && xs[i] !in xs[..i] + xs[i + 1..]
  {
    assert xs == xs[..i] + [xs[i]] + xs[i + 1..];
    if NoDup(xs) {
      RemoveAtNoDup(xs, i);
    }
  }

  lemma RemoveAtNoDup(xs: seq<string>, i: nat)
    requires i < |xs| && NoDup(xs)
    ensures NoDup(xs[..i] + xs[i + 1..]) && xs[i] !in xs[..i] + xs[i + 1..]
  {
    var rest := xs[..i] + xs[i + 1..];
    forall a, b | 0 <= a < b < |rest| ensures rest[a] != rest[b] {
      var a' := if a < i then a else a + 1;
      var b' := if b < i then b else b + 1;
      assert rest[a] == xs[a'] && rest[b] == xs[b'];
    }
    forall a | 0 <= a < |rest| ensures rest[a] != xs[i] {
      assert rest[a] == xs[if a < i then a else a + 1];
    }
  }

  lemma MultisetMembers(a: seq<string>, b: seq<string>)
    requires multiset(a) <= multiset(b)
    ensures forall x :: x in a ==> x in b
  {
    forall x | x in a ensures x in b {
      assert x in multiset(a);
    }
  }

  /** `random.shuffle(xs)`: a reordering of `xs`. */
  function Shuffle(xs: seq<string>, rng: Rng, pos: nat): (r: (seq<string>, nat))
    ensures multiset(r.0) == multiset(xs) && |r.0| == |xs|
    ensures NoDup(xs) ==> NoDup(r.0)
    ensures forall x :: x in r.0 <==> x in xs
  {
    var r := Sample(xs, |xs|, rng, pos);
    assert forall x :: x in xs ==> x in multiset(r.0) by {
      forall x | x in xs ensures x in multiset(r.0) {
        assert x in multiset(xs);
      }
    }
    r
  }

  // ---------------------------------------------------------------------------
  // _sample_titles
  // ---------------------------------------------------------------------------

  /** The `year_range` default: films within five years count as nearby. */
  const YearRange: int := 5

  function Title(s: Speech): string {
    s.filmTitle
  }

  /** The distinct film titles of some rows. */
  function TitleSet(rows: seq<Speech>): set<string> {
    KeySet(rows, Title)
  }

  function Min(a: int, b: int): int {
    if a <= b then a else b
  }

  /** The rows satisfying `p`, in order. */
  function Filter(xs: seq<Speech>, p: Speech -> bool): (r: seq<Speech>)
    ensures forall x :: x in r <==> x in xs && p(x)
  {
    if |xs| == 0 then []
    else
      var rest := Filter(xs[1..], p);
      assert xs == [xs[0]] + xs[1..];
      if p(xs[0]) then [xs[0]] + rest else rest
  }

  /** `rows["film_title"].unique()`: each title once, in order of appearance. */
  function UniqueTitles(rows: seq<Speech>): (r: seq<string>)
    ensures NoDup(r) && Elements(r) == TitleSet(rows) && |r| == |TitleSet(rows)|
  {
    var titles := seq(|rows|, i requires 0 <= i < |rows| => rows[i].filmTitle);
    assert Elements(titles) == TitleSet(rows) by {
      forall i | 0 <= i < |rows| ensures titles[i] in TitleSet(rows) {
        assert rows[i] in rows;
      }
      forall t | t in TitleSet(rows) ensures t in Elements(titles) {
        var s :| s in rows && Title(s) == t;
        var i :| 0 <= i < |rows| && rows[i] == s;
        assert titles[i] == t;
      }
    }
    Distinct(titles)
  }

  /** `pool[~pool["film_title"].isin(exclude)]`. */
  function Candidates(pool: seq<Speech>, exclude: set<string>): (r: seq<Speech>)
    ensures forall x :: x in r <==> x in pool && x.filmTitle !in exclude
  {
    Filter(pool, (s: Speech) => s.filmTitle !in exclude)
  }

  /** The rows within YearRange of `year`. */
  function InRange(rows: seq<Speech>, year: int): (r: seq<Speech>)
    ensures forall x :: x in r <==> x in rows && year - YearRange <= x.year <= year + YearRange
  {
    Filter(rows, (s: Speech) => year - YearRange <= s.year <= year + YearRange)
  }

  /** The titles a pool offers once `exclude` is taken out. */
  function CandidateSet(pool: seq<Speech>, exclude: set<string>): set<string> {
    TitleSet(pool) - exclude
  }

  /** Candidate titles with a row within YearRange of `year`. */
  function NearbySet(pool: seq<Speech>, exclude: set<string>, year: int): set<string> {
    TitleSet(InRange(Candidates(pool, exclude), year))
  }

  /** _sample_titles: up to `n` distinct candidate titles, as many as there
      are; with a year, the nearby titles come first and the rest of the pool
      is used only to make up the number. */
  function SampleTitles(pool: seq<Speech>, n: nat, exclude: set<string>, year: Option<int>,
                        rng: Rng, pos: nat): (r: (seq<string>, nat))
    ensures NoDup(r.0)
    ensures forall t :: t in r.0 ==> t in CandidateSet(pool, exclude)
    ensures |r.0| == Min(n, |CandidateSet(pool, exclude)|)
    ensures year.Some? && |NearbySet(pool, exclude, year.value)| >= n ==>
              Elements(r.0) <= NearbySet(pool, exclude, year.value)
    ensures year.Some? && |NearbySet(pool, exclude, year.value)| < n ==>
              NearbySet(pool, exclude, year.value) <= Elements(r.0)
  {
    var candidates := Candidates(pool, exclude);
    assert TitleSet(candidates) == CandidateSet(pool, exclude);
    match year
    case None =>
      var titles := UniqueTitles(candidates);
      Sample(titles, Min(n, |titles|), rng, pos)
    case Some(y) =>
      SampleNearFirst(candidates, n, y, rng, pos)
  }

  /** The year branch of _sample_titles, over the candidate rows. */
  function SampleNearFirst(candidates: seq<Speech>, n: nat, y: int, rng: Rng, pos: nat): (r: (seq<string>, nat))
    ensures NoDup(r.0)
    ensures Elements(r.0) <= TitleSet(candidates)
    ensures |r.0| == Min(n, |TitleSet(candidates)|)
    ensures |TitleSet(InRange(candidates, y))| >= n ==> Elements(r.0) <= TitleSet(InRange(candidates, y))
    ensures |TitleSet(InRange(candidates, y))| < n ==> TitleSet(InRange(candidates, y)) <= Elements(r.0)
  {
    var nearby := UniqueTitles(InRange(candidates, y));
    NearbyWithin(candidates, y);
    if |nearby| >= n then
      Sample(nearby, n, rng, pos)
    else
      FillFromFar(candidates, nearby, n, rng, pos)
  }

  /** Nearby titles are candidate titles. */
  lemma NearbyWithin(candidates: seq<Speech>, y: int)
    ensures TitleSet(InRange(candidates, y)) <= TitleSet(candidates)
    ensures |TitleSet(InRange(candidates, y))| <= |TitleSet(candidates)|
  {
    SubsetCard(TitleSet(InRange(candidates, y)), TitleSet(candidates));
  }

  /** The nearby titles, then a sample of the other candidate titles making
      up the number. */
  function FillFromFar(candidates: seq<Speech>, nearby: seq<string>, n: nat, rng: Rng, pos: nat): (r: (seq<string>, nat))
    requires NoDup(nearby) && |nearby| < n && Elements(nearby) <= TitleSet(candidates)
    ensures NoDup(r.0)
    ensures Elements(nearby) <= Elements(r.0) <= TitleSet(candidates)
    ensures |r.0| == Min(n, |TitleSet(candidates)|)
  {
    var farRows := Filter(candidates, (s: Speech) => s.filmTitle !in Elements(nearby));
    FarSplit(candidates, nearby, farRows);
    NearFirst(nearby, UniqueTitles(farRows), n, rng, pos)
  }

  /** The nearby titles, then a sample of the far ones making up the number. */
  function NearFirst(nearby: seq<string>, far: seq<string>, n: nat, rng: Rng, pos: nat): (r: (seq<string>, nat))
    requires NoDup(nearby) && NoDup(far) && |nearby| < n
    requires forall t :: t in far ==> t !in nearby
    ensures NoDup(r.0)
    ensures |r.0| == Min(n, |nearby| + |far|)
    ensures Elements(nearby) <= Elements(r.0) <= Elements(nearby) + Elements(far)
  {
    var extra := Sample(far, Min(n - |nearby|, |far|), rng, pos);
    NoDupConcat(nearby, extra.0);
    assert Elements(nearby + extra.0) == Elements(nearby) + Elements(extra.0);
    (nearby + extra.0, extra.1)
  }

  /** The far titles are the candidate titles that are not near, so the two
      counts add up to the candidates'. */
  lemma FarSplit(candidates: seq<Speech>, nearby: seq<string>, farRows: seq<Speech>)
    requires NoDup(nearby) && Elements(nearby) <= TitleSet(candidates)
    requires forall x :: x in farRows <==> x in candidates && x.filmTitle !in Elements(nearby)
    ensures TitleSet(farRows) == TitleSet(candidates) - Elements(nearby)
    ensures |TitleSet(candidates)| == |nearby| + |TitleSet(farRows)|
  {
    var near := Elements(nearby);
    assert TitleSet(farRows) == TitleSet(candidates) - near;
    DisjointCard(near, TitleSet(farRows));
    assert near + TitleSet(farRows) == TitleSet(candidates);
    DistinctCardinality(nearby);
  }

  lemma SubsetCard(a: set<string>, b: set<string>)
    requires a <= b
    ensures |a| <= |b|
  {
    assert b == a + (b - a);
    DisjointCard(a, b - a);
  }

  lemma DisjointCard(a: set<string>, b: set<string>)
    requires a !! b
    ensures |a + b| == |a| + |b|
  {
  }

  // ---------------------------------------------------------------------------
  // pick_film_options
  // ---------------------------------------------------------------------------

  /** The number of film titles a round offers. */
  const OptionCount: nat := 6

  /** `pool[pool["category"] == category]`. */
  function SameCategory(pool: seq<Speech>, category: string): (r: seq<Speech>)
    ensures forall x :: x in r <==> x in pool && x.category == category
  {
    Filter(pool, (s: Speech) => s.category == category)
  }

  /** `pool[pool["category"] != category]`. */
  function OtherCategories(pool: seq<Speech>, category: string): (r: seq<Speech>)
    ensures forall x :: x in r <==> x in pool && x.category != category
  {
    Filter(pool, (s: Speech) => s.category != category)
  }

  /** Titles of a sub-table are titles of the whole table. */
  lemma SubTableTitles(sub: seq<Speech>, pool: seq<Speech>)
    requires forall x :: x in sub ==> x in pool
    ensures TitleSet(sub) <= TitleSet(pool)
  {
  }

  /** The same-category cluster: the correct film and up to two unused films
      of its category, nearby years first. */
  function SameCluster(pool: seq<Speech>, row: Speech, rng: Rng, pos: nat): (r: (seq<string>, nat))
    ensures |r.0| >= 1 && r.0[0] == row.filmTitle && |r.0| <= 3
    ensures NoDup(r.0)
    ensures forall t :: t in r.0[1..] ==> t in TitleSet(SameCategory(pool, row.category))
    ensures |r.0| == 1 + Min(2, |CandidateSet(SameCategory(pool, row.category), {row.filmTitle})|)
  {
    var picks := SampleTitles(SameCategory(pool, row.category), 2, {row.filmTitle}, Some(row.year), rng, pos);
    var cluster := [row.filmTitle] + picks.0;
    assert cluster[1..] == picks.0;
    NoDupConcat([row.filmTitle], picks.0);
    (cluster, picks.1)
  }

  /** The seed of the decoy cluster: an unused film of another category,
      nearby years first; failing that, any unused film of the pool. */
  function DecoySeed(pool: seq<Speech>, category: string, year: int, used: set<string>,
                     rng: Rng, pos: nat): (r: (seq<string>, nat))
    ensures |r.0| <= 1
    ensures forall t :: t in r.0 ==> t in TitleSet(pool) && t !in used
    ensures |r.0| == 0 <==> TitleSet(pool) <= used
    ensures CandidateSet(OtherCategories(pool, category), used) != {} ==>
              |r.0| == 1 && r.0[0] in CandidateSet(OtherCategories(pool, category), used)
  {
    var other := OtherCategories(pool, category);
    SubTableTitles(other, pool);
    var seed := SampleTitles(other, 1, used, Some(year), rng, pos);
    if |seed.0| == 0 then
      SampleTitles(pool, 1, used, None, rng, seed.1)
    else
      assert seed.0[0] in seed.0;
      seed
  }

  /** The decoy cluster: the seed film and up to two unused films of the
      category of the seed's first row, nearby years to that row first. */
  function DecoyCluster(pool: seq<Speech>, category: string, year: int, used: set<string>,
                        rng: Rng, pos: nat): (r: (seq<string>, nat))
    ensures |r.0| <= 3
    ensures NoDup(r.0)
    ensures forall t :: t in r.0 ==> t in TitleSet(pool) && t !in used
    ensures |r.0| == 0 <==> TitleSet(pool) <= used
    ensures CandidateSet(OtherCategories(pool, category), used) != {} ==>
              |r.0| >= 1 && r.0[0] in CandidateSet(OtherCategories(pool, category), used)
    ensures |r.0| >= 1 ==> r.0[0] in TitleSet(pool) && r.0[0] !in used && PeersOfSeed(pool, r.0, used)
  {
    var seed := DecoySeed(pool, category, year, used, rng, pos);
    if |seed.0| == 0 then ([], seed.1)
    else
      assert seed.0[0] in seed.0;
      SeedCluster(pool, seed.0[0], used, rng, seed.1)
  }

  /** `pool[pool["film_title"] == film].iloc[0]`: the first row of a film. */
  function SeedRow(pool: seq<Speech>, film: string): (r: Speech)
    requires film in TitleSet(pool)
    ensures r in pool && r.filmTitle == film
  {
    FirstWithKey(pool, Title, film).value
  }

  /** The titles after the seed of a decoy cluster are up to two unused films
      of the category of the seed's first row, as many as that category has. */
  predicate PeersOfSeed(pool: seq<Speech>, cluster: seq<string>, used: set<string>)
    requires |cluster| >= 1 && cluster[0] in TitleSet(pool)
  {
    var peerPool := SameCategory(pool, SeedRow(pool, cluster[0]).category);
    && (forall t :: t in cluster[1..] ==> t in CandidateSet(peerPool, used + {cluster[0]}))
    && |cluster| == 1 + Min(2, |CandidateSet(peerPool, used + {cluster[0]})|)
  }

  /** The seed film followed by up to two unused films of the category of the
      seed's first row in the pool, nearby years to that row first. */
  function SeedCluster(pool: seq<Speech>, film: string, used: set<string>, rng: Rng, pos: nat): (r: (seq<string>, nat))
    requires film in TitleSet(pool) && film !in used
    ensures 1 <= |r.0| <= 3 && r.0[0] == film
    ensures NoDup(r.0)
    ensures forall t :: t in r.0 ==> t in TitleSet(pool) && t !in used
    ensures forall t :: t in r.0[1..] ==> t in TitleSet(SameCategory(pool, SeedRow(pool, film).category))
    ensures PeersOfSeed(pool, r.0, used)
  {
    var seedRow := SeedRow(pool, film);
    var peersOf := SameCategory(pool, seedRow.category);
    SubTableTitles(peersOf, pool);
    var peers := SampleTitles(peersOf, 2, used + {film}, Some(seedRow.year), rng, pos);
    NoDupConcat([film], peers.0);
    ([film] + peers.0, peers.1)
  }

  /** Tops `options` up to six with unused titles of the whole pool. */
  function Pad(pool: seq<Speech>, options: seq<string>, rng: Rng, pos: nat): (r: (seq<string>, nat))
    requires NoDup(options)
    ensures NoDup(r.0)
    ensures options <= r.0
    ensures forall t :: t in r.0[|options|..] ==> t in TitleSet(pool)
    ensures |options| < OptionCount ==>
              |r.0| == |options| + Min(OptionCount - |options|, |TitleSet(pool) - Elements(options)|)
    ensures |options| >= OptionCount ==> r.0 == options
  {
    if |options| < OptionCount then
      var extra := SampleTitles(pool, OptionCount - |options|, Elements(options), None, rng, pos);
      var padded := options + extra.0;
      assert padded[|options|..] == extra.0;
      NoDupConcat(options, extra.0);
      (padded, extra.1)
    else
      (options, pos)
  }

  /** pick_film_options: the correct film, up to two films of its category,
      a decoy film of another category with up to two peers, padded from the
      whole pool and shuffled. */
  function PickFilmOptions(pool: seq<Speech>, row: Speech, rng: Rng, pos: nat): (r: (seq<string>, nat))
    ensures row.filmTitle in r.0
    ensures NoDup(r.0)
    ensures |r.0| <= OptionCount
    ensures forall t :: t in r.0 ==> t == row.filmTitle || t in TitleSet(pool)
    ensures |TitleSet(pool) - {row.filmTitle}| >= OptionCount - 1 ==> |r.0| == OptionCount
  {
    var options := Clusters(pool, row, rng, pos);
    var padded := Pad(pool, options.0, rng, options.1);
    PaddedShape(pool, row.filmTitle, options.0, padded.0);
    Shuffle(padded.0, rng, padded.1)
  }

  /** The same-category cluster followed by the decoy cluster. */
  function Clusters(pool: seq<Speech>, row: Speech, rng: Rng, pos: nat): (r: (seq<string>, nat))
    ensures NoDup(r.0) && row.filmTitle in r.0 && |r.0| <= OptionCount
    ensures forall t :: t in r.0 ==> t == row.filmTitle || t in TitleSet(pool)
  {
    var same := SameCluster(pool, row, rng, pos);
    SubTableTitles(SameCategory(pool, row.category), pool);
    var decoy := DecoyCluster(pool, row.category, row.year, Elements(same.0), rng, same.1);
    OptionsShape(pool, row.filmTitle, same.0, decoy.0);
    (same.0 + decoy.0, decoy.1)
  }

  /** The two clusters together: no title twice, every title from the pool
      except the correct film, and at most six. */
  lemma OptionsShape(pool: seq<Speech>, correct: string, same: seq<string>, decoy: seq<string>)
    requires |same| >= 1 && same[0] == correct && |same| <= 3 && NoDup(same)
    requires forall t :: t in same[1..] ==> t in TitleSet(pool)
    requires |decoy| <= 3 && NoDup(decoy)
    requires forall t :: t in decoy ==> t in TitleSet(pool) && t !in Elements(same)
    ensures NoDup(same + decoy) && correct in same + decoy && |same + decoy| <= OptionCount
    ensures forall t :: t in same + decoy ==> t == correct || t in TitleSet(pool)
  {
    var options := same + decoy;
    assert options[0] == correct;
    NoDupConcat(same, decoy);
    forall t | t in options ensures t == correct || t in TitleSet(pool) {
      if t in same && t != correct {
        var i :| 0 <= i < |same| && same[i] == t;
        assert same[1..][i - 1] == t;
      }
    }
  }

  /** Padding keeps the options' shape, and reaches six whenever the pool has
      five titles besides the correct film. */
  lemma PaddedShape(pool: seq<Speech>, correct: string, options: seq<string>, padded: seq<string>)
    requires NoDup(options) && correct in options && |options| <= OptionCount
    requires forall t :: t in options ==> t == correct || t in TitleSet(pool)
    requires NoDup(padded) && options <= padded
    requires forall t :: t in padded[|options|..] ==> t in TitleSet(pool)
    requires |options| < OptionCount ==>
               |padded| == |options| + Min(OptionCount - |options|, |TitleSet(pool) - Elements(options)|)
    requires |options| >= OptionCount ==> padded == options
    ensures correct in padded && |padded| <= OptionCount
    ensures forall t :: t in padded ==> t == correct || t in TitleSet(pool)
    ensures |TitleSet(pool) - {correct}| >= OptionCount - 1 ==> |padded| == OptionCount
  {
    assert padded == options + padded[|options|..];
    if |TitleSet(pool) - {correct}| >= OptionCount - 1 && |options| < OptionCount {
      var others := Elements(options) - {correct};
      DistinctCardinality(options);
      assert |others| == |options| - 1;
      assert (TitleSet(pool) - {correct}) - others <= TitleSet(pool) - Elements(options);
      SubsetCard((TitleSet(pool) - {correct}) - others, TitleSet(pool) - Elements(options));
      DifferenceCard(TitleSet(pool) - {correct}, others);
    }
  }

  /** Taking `b` out of `a` removes at most `|b|` elements. */
  lemma DifferenceCard(a: set<string>, b: set<string>)
    ensures |a - b| >= |a| - |b|
  {
    assert a == (a - b) + (a * b);
    DisjointCard(a - b, a * b);
    SubsetCard(a * b, b);
  }

  // ---------------------------------------------------------------------------
  // build_game_data
  // ---------------------------------------------------------------------------

  /** Only speeches whose snippet grade reaches this become game rounds. */
  const MinSnippetGrade: int := 3

  const SnippetGradingColumn: string := "snippet_grading"
  const GoldenSnippetColumn: string := "golden_snippet"
  const RedactedSpeechColumn: string := "redacted_speech"
  const PlotHintColumn: string := "plot_hint"

  /** `df["snippet_grading"] >= MIN_SNIPPET_GRADE`; a missing grade compares false. */
  predicate WellGraded(row: MergedRow) {
    match MapCell(row.labels, SnippetGradingColumn)
    case Some(IntVal(n)) => n >= MinSnippetGrade
    case _ => false
  }

  /** `str(value)` of a cell: a missing cell reads "nan". */
  function TextOf(v: Option<Value>): string {
    match v
    case None => "nan"
    case Some(IntVal(n)) => ShowInt(n)
    case Some(TextVal(t)) => t
  }

  /** One round of the game. */
  datatype GameSpeech = GameSpeech(
    id: nat,
    year: int,
    category: string,
    filmTitle: string,
    winnerClean: string,
    goldenSnippet: string,
    snippetDisplay: string,
    redactions: seq<string>,
    fullSpeechDisplay: string,
    fullSpeechRaw: string,
    plotHint: Option<Value>,
    snippetGrading: int,
    filmOptions: seq<string>)

  datatype GameData = GameData(speeches: seq<GameSpeech>, categories: seq<string>)

  /** The rows kept by the grade filter, in their order. */
  function GradedRows(df: seq<MergedRow>): (r: seq<MergedRow>)
    ensures IsSubsequence(r, df)
    ensures forall x :: multiset(r)[x] == if WellGraded(x) then multiset(df)[x] else 0
  {
    if |df| == 0 then []
    else
      var rest := GradedRows(df[1..]);
      assert df == [df[0]] + df[1..];
      if WellGraded(df[0]) then
        SubsequenceBothCons(df[0], rest, df[1..]);
        [df[0]] + rest
      else
        SubsequenceCons(rest, df[0], df[1..]);
        rest
  }

  /** What a round promises about the row it came from: the row's film,
      category, year, winner, speech and plot hint; the row's own grade, which
      passed the filter; the golden snippet unquoted, shown with its hidden
      words blanked and listed; the redacted speech unquoted and blanked; and
      a duplicate-free list of at most six options holding the row's film. */
  predicate RoundOf(row: MergedRow, g: GameSpeech) {
    && g.filmTitle == row.speech.filmTitle
    && g.category == row.speech.category
    && g.year == row.speech.year
    && g.winnerClean == row.speech.winnerClean
    && g.fullSpeechRaw == row.speech.speechClean
    && g.plotHint == MapCell(row.labels, PlotHintColumn)
    && MapCell(row.labels, SnippetGradingColumn) == Some(IntVal(g.snippetGrading))
    && g.snippetGrading >= MinSnippetGrade
    && g.goldenSnippet == StripOuterQuotes(TextOf(MapCell(row.labels, GoldenSnippetColumn)))
    && g.snippetDisplay == Render(g.goldenSnippet)
    && g.redactions == Extract(g.goldenSnippet)
    && g.fullSpeechDisplay == Render(StripOuterQuotes(TextOf(MapCell(row.labels, RedactedSpeechColumn))))
    && GoodOptions(g.filmTitle, g.filmOptions)
  }

  /** A round's options: the film itself among at most six distinct titles. */
  predicate GoodOptions(film: string, options: seq<string>) {
    film in options && NoDup(options) && |options| <= OptionCount
  }

  /** How a round's options are drawn: from a speech and the next draw's
      number, the options and the number of the draw after them. */
  type Picker = (Speech, nat) -> (seq<string>, nat)

  /** Every draw of options keeps the film among at most six distinct titles. */
  ghost predicate GoodPicker(pick: Picker) {
    forall s: Speech, p: nat :: GoodOptions(s.filmTitle, pick(s, p).0)
  }

  /** pick_film_options against a fixed pool and random stream is a good picker. */
  lemma PickFilmOptionsGood(pool: seq<Speech>, rng: Rng)
    ensures GoodPicker((s: Speech, p: nat) => PickFilmOptions(pool, s, rng, p))
  {
    forall s: Speech, p: nat ensures GoodOptions(s.filmTitle, PickFilmOptions(pool, s, rng, p).0) {
      var r := PickFilmOptions(pool, s, rng, p);
    }
  }

  /** A row's round: its fields, the golden snippet and redacted speech with
      their outer quotes removed and the hidden words blanked, and the film
      options drawn for it. */
  function MakeRound(row: MergedRow, id: nat, options: seq<string>): (r: GameSpeech)
    requires WellGraded(row) && GoodOptions(row.speech.filmTitle, options)
    ensures r.id == id && RoundOf(row, r)
  {
    var golden := StripOuterQuotes(TextOf(MapCell(row.labels, GoldenSnippetColumn)));
    var redacted := StripOuterQuotes(TextOf(MapCell(row.labels, RedactedSpeechColumn)));
    GameSpeech(
      id, row.speech.year, row.speech.category, row.speech.filmTitle, row.speech.winnerClean,
      golden, Render(golden), Extract(golden), Render(redacted), row.speech.speechClean,
      MapCell(row.labels, PlotHintColumn), MapCell(row.labels, SnippetGradingColumn).value.n,
      options)
  }

  /** A round's snippet has no surrounding whitespace; its display differs
      from it exactly when some word is hidden, and it is the snippet's text
      between the markers with one blank for each listed redaction. */
  lemma MakeRoundSnippet(row: MergedRow, id: nat, options: seq<string>)
    requires WellGraded(row) && GoodOptions(row.speech.filmTitle, options)
    ensures var g := MakeRound(row, id, options);
      && Stripped(g.goldenSnippet)
      && |g.goldenSnippet| <= |TextOf(MapCell(row.labels, GoldenSnippetColumn))|
      && (g.snippetDisplay == g.goldenSnippet <==> g.redactions == [])
      && |Gaps(g.goldenSnippet)| == |g.redactions| + 1
      && g.snippetDisplay == Blanked(Gaps(g.goldenSnippet))
  {
    var g := MakeRound(row, id, options);
    RenderIdentityIff(g.goldenSnippet);
    RenderBlanksEachMatch(g.goldenSnippet);
  }

  /** The film options of each row in turn, each draw continuing the stream
      where the previous one stopped. */
  function OptionLists(rows: seq<MergedRow>, pick: Picker, pos: nat): (r: (seq<seq<string>>, nat))
    requires GoodPicker(pick)
    ensures |r.0| == |rows|
    ensures forall i :: 0 <= i < |rows| ==> GoodOptions(rows[i].speech.filmTitle, r.0[i])
  {
    if |rows| == 0 then ([], pos)
    else
      var head := pick(rows[0].speech, pos);
      var tail := OptionLists(rows[1..], pick, head.1);
      assert forall i :: 1 <= i < |rows| ==> rows[i] == rows[1..][i - 1];
      ([head.0] + tail.0, tail.1)
  }

  /** The rounds of the kept rows, numbered from zero in their order. */
  function Rounds(rows: seq<MergedRow>, options: seq<seq<string>>): (r: seq<GameSpeech>)
    requires |options| == |rows|
    requires forall x :: x in rows ==> WellGraded(x)
    requires forall i :: 0 <= i < |rows| ==> GoodOptions(rows[i].speech.filmTitle, options[i])
    ensures |r| == |rows|
    ensures forall i :: 0 <= i < |rows| ==> r[i].id == i && RoundOf(rows[i], r[i])
  {
    seq(|rows|, i requires 0 <= i < |rows| => assert rows[i] in rows; MakeRound(rows[i], i, options[i]))
  }

  lemma StrLessOrder()
    ensures Transitive(StrLess)
  {
    forall a, b, c | StrLess(a, b) && StrLess(b, c) ensures StrLess(a, c) {
      StrLessTransitive(a, b, c);
    }
  }

  /** The categories of some rounds. */
  function RoundCategories(speeches: seq<GameSpeech>): set<string> {
    set i | 0 <= i < |speeches| :: speeches[i].category
  }

  /** The categories of the rows that pass the grade filter. */
  function GradedCategories(df: seq<MergedRow>): set<string> {
    set x | x in df && WellGraded(x) :: x.speech.category
  }

  /** `sorted(df["category"].unique())`: each category of the rounds once, in
      increasing order. */
  function SortedCategories(speeches: seq<GameSpeech>): (r: seq<string>)
    ensures Sorted(r, StrLess)
    ensures Elements(r) == RoundCategories(speeches)
  {
    var cats := seq(|speeches|, i requires 0 <= i < |speeches| => speeches[i].category);
    assert Elements(cats) == RoundCategories(speeches) by {
      forall c | c in RoundCategories(speeches) ensures c in Elements(cats) {
        var i :| 0 <= i < |speeches| && speeches[i].category == c;
        assert cats[i] == c;
      }
    }
    var unique := Distinct(cats);
    SortDistinct(unique);
    Sort(unique, StrLess)
  }

  /** Sorting distinct strings keeps exactly their elements. */
  lemma SortDistinct(xs: seq<string>)
    requires NoDup(xs)
    ensures Transitive(StrLess) && Comparable(xs, StrLess)
    ensures Elements(Sort(xs, StrLess)) == Elements(xs)
  {
    StrLessOrder();
    forall i, j | 0 <= i < |xs| && 0 <= j < |xs| && i != j
      ensures StrLess(xs[i], xs[j]) || StrLess(xs[j], xs[i])
    {
      StrLessTotal(xs[i], xs[j]);
    }
    var r := Sort(xs, StrLess);
    forall c ensures c in r <==> c in xs {
      assert c in r <==> c in multiset(r);
      assert c in xs <==> c in multiset(xs);
    }
  }

  /** build_game_data: the rounds of the well-graded rows, numbered from zero
      in their order, and the sorted list of their categories. */
  function BuildGameData(df: seq<MergedRow>, pool: seq<Speech>, rng: Rng, pos: nat): (r: GameData)
    ensures |r.speeches| == |GradedRows(df)|
    ensures forall i :: 0 <= i < |r.speeches| ==> r.speeches[i].id == i && RoundOf(GradedRows(df)[i], r.speeches[i])
    ensures Sorted(r.categories, StrLess)
    ensures Elements(r.categories) == GradedCategories(df)
  {
    var rows := GradedRows(df);
    GradedMembers(df);
    PickFilmOptionsGood(pool, rng);
    var options := OptionLists(rows, (s: Speech, p: nat) => PickFilmOptions(pool, s, rng, p), pos).0;
    var speeches := Rounds(rows, options);
    SameCategories(df, rows, speeches);
    GameData(speeches, SortedCategories(speeches))
  }

  lemma SameCategories(df: seq<MergedRow>, rows: seq<MergedRow>, speeches: seq<GameSpeech>)
    requires forall x :: x in rows <==> x in df && WellGraded(x)
    requires |speeches| == |rows|
    requires forall i :: 0 <= i < |rows| ==> speeches[i].category == rows[i].speech.category
    ensures RoundCategories(speeches) == GradedCategories(df)
  {
    forall c | c in RoundCategories(speeches) ensures c in GradedCategories(df) {
      var i :| 0 <= i < |speeches| && speeches[i].category == c;
      assert rows[i] in rows;
    }
    forall c | c in GradedCategories(df) ensures c in RoundCategories(speeches) {
      var x :| x in df && WellGraded(x) && x.speech.category == c;
      var i :| 0 <= i < |rows| && rows[i] == x;
      assert speeches[i].category == c;
    }
  }

  /** A row is kept exactly when it is in the input and well graded. */
  lemma GradedMembers(df: seq<MergedRow>)
    ensures forall x :: x in GradedRows(df) <==> x in df && WellGraded(x)
  {
    var r := GradedRows(df);
    forall x ensures x in r <==> x in df && WellGraded(x) {
      assert x in r <==> multiset(r)[x] > 0;
      assert x in df <==> multiset(df)[x] > 0;
    }
  }
}
