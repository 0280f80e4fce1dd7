/** The search loop behind std::regex_search and std::sregex_iterator, for any
    matcher that is anchored at a position of a text: search from a start
    position for the leftmost match, and, for the iterator, resume each search
    where the previous match ended. Also the cutting of a text into the pieces
    between and at those matches. Nothing here depends on which pattern is being
    matched; the merger's four patterns are in module Scan. */
module Search {
  import opened Util

  /** A match: the span [start, end) of the text and its numeric captures
      (object number and generation for an object header, object number for an
      indirect reference; zero where a pattern captures nothing). */
  datatype Match = Match(start: nat, end: nat, num: nat, gen: nat)

  /** The match anchored at each position, if any. */
  type Matcher = nat -> Option<Match>

  /** Every match of f starts where it was asked for and ends, non-empty, inside
      a text of length n. */
  ghost predicate Anchored(f: Matcher, n: nat)
  {
    forall q: nat :: f(q).Some? ==> f(q).value.start == q < f(q).value.end <= n
  }

  /** No match starts in [a, b). */
  ghost predicate NoMatchIn(f: Matcher, a: nat, b: nat)
  {
    forall q: nat :: a <= q < b ==> f(q).None?
  }

  /** `std::regex_search` from p: the leftmost match starting at or after p. */
  function FindFrom(f: Matcher, n: nat, p: nat): (r: Option<Match>)
    requires p <= n && Anchored(f, n)
    ensures r.Some? ==> p <= r.value.start < n && f(r.value.start) == r
    ensures r.Some? ==> NoMatchIn(f, p, r.value.start)
    ensures r.None? ==> NoMatchIn(f, p, n)
    decreases n - p
  {
    if p == n then None
    else if f(p).Some? then f(p)
    else FindFrom(f, n, p + 1)
  }

  /** The spans of `ms` lie in order, without overlap, inside [p, n). */
  predicate Placed(n: nat, p: nat, ms: seq<Match>)
    decreases |ms|
  {
    && p <= n
    && (|ms| > 0 ==> p <= ms[0].start < ms[0].end <= n && Placed(n, ms[0].end, ms[1..]))
  }

  /** The std::sregex_iterator walk from p: the leftmost match, then the walk
      from where it ended. */
  function Walk(f: Matcher, n: nat, p: nat): (r: seq<Match>)
    requires p <= n && Anchored(f, n)
    ensures Placed(n, p, r)
    ensures forall m :: m in r ==> p <= m.start < n && f(m.start) == Some(m)
    decreases n - p
  {
    match FindFrom(f, n, p)
    case None => []
    case Some(m) => [m] + Walk(f, n, m.end)
  }

  // ---------------------------------------------------------------------------
  // Which matches the walk reports
  // ---------------------------------------------------------------------------
  // `lead(k)` says the character at k could continue a match to its right
  // leftwards (for a pattern that begins with a run of digits: k is a digit).

  /** A match whose left neighbour is a lead character also matches one
      position earlier. */
  ghost predicate ExtendsLeft(f: Matcher, lead: nat -> bool)
  {
    forall q: nat :: 0 < q && lead(q - 1) && f(q).Some? ==> f(q - 1).Some?
  }

  /** A match can start inside an earlier match only right after a lead character. */
  ghost predicate OverlapsOnlyAfterLead(f: Matcher, lead: nat -> bool)
  {
    forall p: nat, q: nat :: p < q && f(p).Some? && q < f(p).value.end && f(q).Some? ==> lead(q - 1)
  }

  /** No match ends on a lead character. */
  ghost predicate EndsOutsideLead(f: Matcher, lead: nat -> bool)
  {
    forall q: nat :: f(q).Some? && f(q).value.end > 0 ==> !lead(f(q).value.end - 1)
  }

  /** A position the walk can report a match at: not right after a lead character. */
  predicate NotAfterLead(lead: nat -> bool, q: nat)
  {
    q == 0 || !lead(q - 1)
  }

  /** Every match the walk reports is admissible. */
  lemma {:induction false} WalkSound(f: Matcher, n: nat, lead: nat -> bool, p: nat, m: Match)
    requires p <= n && Anchored(f, n) && NotAfterLead(lead, p)
    requires ExtendsLeft(f, lead) && EndsOutsideLead(f, lead)
    requires m in Walk(f, n, p)
    ensures p <= m.start < n && f(m.start) == Some(m) && NotAfterLead(lead, m.start)
    decreases n - p
  {
    var first := FindFrom(f, n, p).value;
    assert Walk(f, n, p) == [first] + Walk(f, n, first.end);
    if m == first {
      assert m.start == p || f(m.start - 1).None?;
    } else {
      assert f(first.start).Some?;
      WalkSound(f, n, lead, first.end, m);
    }
  }

  /** Every admissible match at or after the start is reported by the walk. */
  lemma {:induction false} WalkComplete(f: Matcher, n: nat, lead: nat -> bool, p: nat, q: nat)
    requires p <= q && p <= n && Anchored(f, n) && NotAfterLead(lead, p)
    requires OverlapsOnlyAfterLead(f, lead) && EndsOutsideLead(f, lead)
    requires f(q).Some? && NotAfterLead(lead, q)
    ensures f(q).value in Walk(f, n, p)
    decreases n - p
  {
    assert FindFrom(f, n, p).Some?;
    var first := FindFrom(f, n, p).value;
    assert Walk(f, n, p) == [first] + Walk(f, n, first.end);
    assert first.start <= q;
    if first.start < q {
      assert first.end <= q;
      assert f(first.start).Some?;
      WalkComplete(f, n, lead, first.end, q);
    }
  }

  // ---------------------------------------------------------------------------
  // Tokens: the text between matches, and the matches themselves
  // ---------------------------------------------------------------------------

  /** A piece of a scanned text: plain text, or a match with its raw span. */
  datatype Seg = Text(text: string) | Hit(m: Match, raw: string)

  function Raw(g: Seg): string
  {
    match g
    case Text(t) => t
    case Hit(_, r) => r
  }

  /** The text a token list stands for. */
  function JoinRaw(gs: seq<Seg>): string
  {
    if |gs| == 0 then [] else Raw(gs[0]) + JoinRaw(gs[1..])
  }

  /** The matches of a token list, in order. */
  function Hits(gs: seq<Seg>): seq<Match>
  {
    if |gs| == 0 then [] else (if gs[0].Hit? then [gs[0].m] else []) + Hits(gs[1..])
  }

  /** The plain-text pieces of a token list, joined: the text with every
      matched span left out. */
  function JoinText(gs: seq<Seg>): string
  {
    if |gs| == 0 then [] else (if gs[0].Text? then gs[0].text else []) + JoinText(gs[1..])
  }

  /** What is in a text piece, a match and more pieces. */
  lemma InPair(t: Seg, h: Seg, rest: seq<Seg>)
    ensures forall g :: g in [t] + ([h] + rest) ==> g == t || g == h || g in rest
  {
  }

  /** Cut s[p..] at the matches `ms`: gap text, match, gap text, ..., final text.
      Joining the pieces gives back the text; the matched pieces are the
      matches of `ms`, each in its turn, with their spans of the text. */
  function Split(s: string, p: nat, ms: seq<Match>): (r: seq<Seg>)
    requires Placed(|s|, p, ms)
    ensures JoinRaw(r) == s[p..]
    ensures Hits(r) == ms
    ensures forall g :: g in r && g.Hit? ==>
              g.m in ms && g.m.start <= g.m.end <= |s| && g.raw == s[g.m.start..g.m.end]
    decreases |ms|
  {
    if |ms| == 0 then [Text(s[p..])]
    else
      var m := ms[0];
      var rest := Split(s, m.end, ms[1..]);
      var r := [Text(s[p..m.start])] + ([Hit(m, s[m.start..m.end])] + rest);
      assert r[1..] == [Hit(m, s[m.start..m.end])] + rest;
      assert ([Hit(m, s[m.start..m.end])] + rest)[1..] == rest;
      SliceSplit(s, p, m.start, m.end);
      assert ms == [m] + ms[1..];
      InPair(Text(s[p..m.start]), Hit(m, s[m.start..m.end]), rest);
      forall g | g in r && g.Hit? && g in rest
        ensures g.m in ms
      {
        assert g.m in ms[1..];
      }
      r
  }
  /** The plain text of a text piece, a match and more pieces. */
  lemma JoinTextPair(t: Seg, h: Seg, rest: seq<Seg>)
    requires t.Text? && h.Hit?
    ensures JoinText([t] + ([h] + rest)) == t.text + JoinText(rest)
  {
    assert ([t] + ([h] + rest))[1..] == [h] + rest;
    assert ([h] + rest)[1..] == rest;
  }

  /** One match covering the whole text cuts it into empty text, the match,
      empty text. */
  lemma SplitWhole(s: string, m: Match)
    requires |s| > 0 && m.start == 0 && m.end == |s|
    ensures Placed(|s|, 0, [m])
    ensures Split(s, 0, [m]) == [Text([]), Hit(m, s), Text([])]
  {
    assert Placed(|s|, |s|, []);
    assert Split(s, |s|, []) == [Text(s[|s|..])] == [Text([])];
    assert s[0..0] == [] && s[0..|s|] == s;
    assert Split(s, 0, [m]) == [Text(s[0..0])] + ([Hit(m, s[0..|s|])] + Split(s, |s|, [m][1..]));
  }

}
