// Explicit scanners for the four regular expressions the merger relies on, as
// std::regex (ECMAScript grammar) reads them:
//
//   ObjHeader    (\d+)\s+(\d+)\s+obj\b
//   PageType     /Type\s*/Page\b
//   IndirectRef  (\d+)\s+0\s+R\b
//   ParentLink   /Parent\s+\d+\s+0\s+R
//
// In each pattern a greedy run of digits or white space is always followed by
// something outside its class, so backtracking never yields a second way to
// match at the same position: whether a pattern matches at position p, and
// where that match ends, is a function of the text. `Matches` is the
// std::sregex_iterator walk: the leftmost match from the search start, then
// the next search begins where that match ended.
module Scan {
  import opened Util
  import opened Search

  /** `\s`: space, tab, line feed, carriage return, vertical tab, form feed. */
  predicate IsSpace(c: char)
  {
    c == ' ' || c == '\t' || c == '\n' || c == '\r' || c == '\U{000B}' || c == '\U{000C}'
  }

  /** `\w`: the characters a word boundary is measured against. */
  predicate IsWordChar(c: char)
  {
    IsDigit(c) || ('a' <= c <= 'z') || ('A' <= c <= 'Z') || c == '_'
  }

  /** `\b` right after a word character: end of text, or a non-word character next. */
  predicate WordBoundaryAt(s: string, i: nat)
  {
    i >= |s| || !IsWordChar(s[i])
  }

  /** End of the maximal run of digits starting at i. */
  function DigitsEnd(s: string, i: nat): (j: nat)
    requires i <= |s|
    ensures i <= j <= |s|
    ensures j == |s| || !IsDigit(s[j])
    decreases |s| - i
  {
    if i < |s| && IsDigit(s[i]) then DigitsEnd(s, i + 1) else i
  }

  /** Everything up to `DigitsEnd` is a digit. */
  lemma {:induction false} DigitsRun(s: string, i: nat)
    requires i <= |s|
    ensures forall k :: i <= k < DigitsEnd(s, i) ==> IsDigit(s[k])
    ensures AllDigits(s[i..DigitsEnd(s, i)])
    decreases |s| - i
  {
    if i < |s| && IsDigit(s[i]) { DigitsRun(s, i + 1); }
  }

  /** A digit run that ends at j is where `DigitsEnd` stops. */
  lemma {:induction false} DigitsEndAt(s: string, i: nat, j: nat)
    requires i <= j <= |s| && (j == |s| || !IsDigit(s[j]))
    requires forall k :: i <= k < j ==> IsDigit(s[k])
    ensures DigitsEnd(s, i) == j
    decreases j - i
  {
    if i < j { DigitsEndAt(s, i + 1, j); }
  }

  /** End of the maximal run of white space starting at i. */
  function SpacesEnd(s: string, i: nat): (j: nat)
    requires i <= |s|
    ensures i <= j <= |s|
    ensures j == |s| || !IsSpace(s[j])
    decreases |s| - i
  {
    if i < |s| && IsSpace(s[i]) then SpacesEnd(s, i + 1) else i
  }

  /** Everything up to `SpacesEnd` is white space. */
  lemma {:induction false} SpacesRun(s: string, i: nat)
    requires i <= |s|
    ensures forall k :: i <= k < SpacesEnd(s, i) ==> IsSpace(s[k])
    decreases |s| - i
  {
    if i < |s| && IsSpace(s[i]) { SpacesRun(s, i + 1); }
  }

  datatype Pattern = ObjHeader | PageType | IndirectRef | ParentLink
  {
    /** The pattern begins with a digit run (rather than with a '/'). */
    predicate DigitLed() { this == ObjHeader || this == IndirectRef }
  }

  /** A match found at p starts there, ends inside s, and does not end on a
      digit. */
  predicate FoundAt(s: string, p: nat, r: Option<Match>)
  {
    r.Some? ==> r.value.start == p < r.value.end <= |s| && !IsDigit(s[r.value.end - 1])
  }

  /** `(\d+)\s+(\d+)\s+obj\b` anchored at p. */
  function ObjHeaderAt(s: string, p: nat): (r: Option<Match>)
    requires p <= |s|
    ensures FoundAt(s, p, r)
  {
    var d1 := DigitsEnd(s, p);
    var w1 := SpacesEnd(s, d1);
    var d2 := DigitsEnd(s, w1);
    var w2 := SpacesEnd(s, d2);
    if p < d1 && d1 < w1 && w1 < d2 && d2 < w2 && LitAt(s, w2, "obj") && WordBoundaryAt(s, w2 + 3)
    then
      DigitsRun(s, p);
      DigitsRun(s, w1);
      Some(Match(p, w2 + 3, DecValue(s[p..d1]), DecValue(s[w1..d2])))
    else None
  }

  // `/Type\s*/Page\b` anchored at p.
  function PageTypeAt(s: string, p: nat): (r: Option<Match>)
    requires p <= |s|
    ensures FoundAt(s, p, r)
  {
    if LitAt(s, p, "/Type") then
      var w := SpacesEnd(s, p + 5);
      if LitAt(s, w, "/Page") && WordBoundaryAt(s, w + 5) then Some(Match(p, w + 5, 0, 0)) else None
    else None
  }

  /** `(\d+)\s+0\s+R\b` anchored at p. */
  function IndirectRefAt(s: string, p: nat): (r: Option<Match>)
    requires p <= |s|
    ensures FoundAt(s, p, r)
  {
    var d := DigitsEnd(s, p);
    var w1 := SpacesEnd(s, d);
    if p < d && d < w1 && LitAt(s, w1, "0") then
      var w2 := SpacesEnd(s, w1 + 1);
      if w1 + 1 < w2 && LitAt(s, w2, "R") && WordBoundaryAt(s, w2 + 1)
      then DigitsRun(s, p); Some(Match(p, w2 + 1, DecValue(s[p..d]), 0))
      else None
    else None
  }

  /** `/Parent\s+\d+\s+0\s+R` anchored at p (no trailing word boundary). */
  function ParentLinkAt(s: string, p: nat): (r: Option<Match>)
    requires p <= |s|
    ensures FoundAt(s, p, r)
  {
    if LitAt(s, p, "/Parent") then
      var w1 := SpacesEnd(s, p + 7);
      var d := DigitsEnd(s, w1);
      var w2 := SpacesEnd(s, d);
      if p + 7 < w1 && w1 < d && d < w2 && LitAt(s, w2, "0") then
        var w3 := SpacesEnd(s, w2 + 1);
        if w2 + 1 < w3 && LitAt(s, w3, "R") then Some(Match(p, w3 + 1, 0, 0)) else None
      else None
    else None
  }

  /** The match of `pat` anchored at p, if any. Every match is non-empty and
      ends on a letter, never on a digit. */
  function MatchAt(pat: Pattern, s: string, p: nat): (r: Option<Match>)
    ensures FoundAt(s, p, r)
  {
    if p > |s| then None
    else
      match pat
      case ObjHeader => ObjHeaderAt(s, p)
      case PageType => PageTypeAt(s, p)
      case IndirectRef => IndirectRefAt(s, p)
      case ParentLink => ParentLinkAt(s, p)
  }

  /** `pat` as a matcher over s. */
  function MatcherOf(pat: Pattern, s: string): Matcher
  {
    (q: nat) => MatchAt(pat, s, q)
  }

  /** The characters a match of `pat` could extend leftwards over: digits, for
      the patterns that begin with a digit run. */
  function LeadOf(pat: Pattern, s: string): nat -> bool
  {
    (k: nat) => pat.DigitLed() && k < |s| && IsDigit(s[k])
  }

  /** A match at q can be reported by the iterator: for a pattern that starts
      with digits, q must not sit inside a longer digit run. */
  predicate Admissible(pat: Pattern, s: string, q: nat)
  {
    NotAfterLead(LeadOf(pat, s), q)
  }

  /** The std::sregex_iterator walk of `pat` over the whole of s. */
  function Matches(pat: Pattern, s: string): (r: seq<Match>)
    ensures Placed(|s|, 0, r)
    ensures forall m :: m in r ==> m.start < |s| && MatchAt(pat, s, m.start) == Some(m)
  {
    MatcherAnchored(pat, s);
    Walk(MatcherOf(pat, s), |s|, 0)
  }

  /** `std::regex_search(s, re)`: `pat` matches somewhere in s. */
  predicate Occurs(pat: Pattern, s: string)
  {
    MatcherAnchored(pat, s);
    FindFrom(MatcherOf(pat, s), |s|, 0).Some?
  }

  /** The search succeeds exactly when some position of s starts a match. */
  lemma OccursExactly(pat: Pattern, s: string)
    ensures Occurs(pat, s) <==> exists q: nat :: MatchAt(pat, s, q).Some?
  {
    MatcherAnchored(pat, s);
    var f := MatcherOf(pat, s);
    if q: nat :| MatchAt(pat, s, q).Some? {
      assert f(q).Some?;
    }
    if FindFrom(f, |s|, 0).Some? {
      assert f(FindFrom(f, |s|, 0).value.start).Some?;
    }
  }

  /** The token list the std::sregex_iterator loops of the merger walk through. */
  function Tokenize(pat: Pattern, s: string): (r: seq<Seg>)
    ensures JoinRaw(r) == s
    ensures Hits(r) == Matches(pat, s)
    ensures forall g :: g in r && g.Hit? ==>
              g.m in Matches(pat, s) && g.m.start <= g.m.end <= |s| && g.raw == s[g.m.start..g.m.end]
  {
    Split(s, 0, Matches(pat, s))
  }

  lemma MatcherAnchored(pat: Pattern, s: string)
    ensures Anchored(MatcherOf(pat, s), |s|)
  {
    var f := MatcherOf(pat, s);
    forall q: nat | f(q).Some?
      ensures f(q).value.start == q < f(q).value.end <= |s|
    {
      assert f(q) == MatchAt(pat, s, q);
    }
  }

  /** A digit-led match inside a digit run extends one position to the left. */
  lemma ExtendsLeftOne(pat: Pattern, s: string, q: nat)
    requires 0 < q <= |s| && pat.DigitLed() && IsDigit(s[q - 1])
    requires MatchAt(pat, s, q).Some?
    ensures MatchAt(pat, s, q - 1).Some?
  {
    if pat == ObjHeader { ExtendsLeftObjHeader(s, q); } else { ExtendsLeftIndirectRef(s, q); }
  }

  lemma ExtendsLeftObjHeader(s: string, q: nat)
    requires 0 < q <= |s| && IsDigit(s[q - 1])
    requires ObjHeaderAt(s, q).Some?
    ensures ObjHeaderAt(s, q - 1).Some?
  {
    assert DigitsEnd(s, q - 1) == DigitsEnd(s, q);
  }

  lemma ExtendsLeftIndirectRef(s: string, q: nat)
    requires 0 < q <= |s| && IsDigit(s[q - 1])
    requires IndirectRefAt(s, q).Some?
    ensures IndirectRefAt(s, q - 1).Some?
  {
    assert DigitsEnd(s, q - 1) == DigitsEnd(s, q);
  }

  lemma MatcherExtendsLeft(pat: Pattern, s: string)
    ensures ExtendsLeft(MatcherOf(pat, s), LeadOf(pat, s))
  {
    var f := MatcherOf(pat, s);
    var lead := LeadOf(pat, s);
    forall q: nat | 0 < q && lead(q - 1) && f(q).Some?
      ensures f(q - 1).Some?
    {
      assert f(q) == MatchAt(pat, s, q);
      ExtendsLeftOne(pat, s, q);
      assert f(q - 1) == MatchAt(pat, s, q - 1);
    }
  }

  lemma MatcherOverlaps(pat: Pattern, s: string)
    ensures OverlapsOnlyAfterLead(MatcherOf(pat, s), LeadOf(pat, s))
  {
    var f := MatcherOf(pat, s);
    var lead := LeadOf(pat, s);
    forall p: nat, q: nat
      ensures p < q && f(p).Some? && q < f(p).value.end && f(q).Some? ==> lead(q - 1)
    {
      assert f(p) == MatchAt(pat, s, p) && f(q) == MatchAt(pat, s, q);
      if p < q && f(p).Some? && q < f(p).value.end && f(q).Some? {
        OverlapAfterLead(pat, s, p, q);
      }
    }
  }

  lemma OverlapAfterLead(pat: Pattern, s: string, p: nat, q: nat)
    requires p < q && MatchAt(pat, s, p).Some? && q < MatchAt(pat, s, p).value.end
    requires MatchAt(pat, s, q).Some?
    ensures LeadOf(pat, s)(q - 1)
  {
    NoOverlap(pat, s, p, q);
  }

  lemma MatcherEndsClean(pat: Pattern, s: string)
    ensures EndsOutsideLead(MatcherOf(pat, s), LeadOf(pat, s))
  {
    var f := MatcherOf(pat, s);
    forall q: nat | f(q).Some? && f(q).value.end > 0
      ensures !LeadOf(pat, s)(f(q).value.end - 1)
    {
      var m := MatchAt(pat, s, q);
      assert f(q) == m && FoundAt(s, q, m);
      assert !IsDigit(s[m.value.end - 1]);
    }
  }

  /** The iterator over s reports exactly the admissible matches of `pat`. */
  lemma MatchesExactly(pat: Pattern, s: string, m: Match)
    ensures m in Matches(pat, s) <==>
              MatchAt(pat, s, m.start) == Some(m) && Admissible(pat, s, m.start)
  {
    MatcherAnchored(pat, s);
    MatcherExtendsLeft(pat, s);
    MatcherOverlaps(pat, s);
    MatcherEndsClean(pat, s);
    var f := MatcherOf(pat, s);
    if m in Matches(pat, s) {
      WalkSound(f, |s|, LeadOf(pat, s), 0, m);
    }
    if MatchAt(pat, s, m.start) == Some(m) && Admissible(pat, s, m.start) {
      assert f(m.start) == Some(m);
      WalkComplete(f, |s|, LeadOf(pat, s), 0, m.start);
    }
  }

  /** Two matches of one pattern overlap only when the later one starts inside
      the leading digit run of the earlier one. */
  lemma NoOverlap(pat: Pattern, s: string, p: nat, q: nat)
    requires p < q <= |s|
    requires MatchAt(pat, s, p).Some? && q < MatchAt(pat, s, p).value.end
    ensures MatchAt(pat, s, q).None? || (pat.DigitLed() && IsDigit(s[q - 1]))
  {
    match pat
    case ObjHeader => NoOverlapObjHeader(s, p, q);
    case PageType => NoOverlapPageType(s, p, q);
    case IndirectRef => NoOverlapIndirectRef(s, p, q);
    case ParentLink => NoOverlapParentLink(s, p, q);
  }

  lemma NoOverlapObjHeader(s: string, p: nat, q: nat)
    requires p < q <= |s|
    requires ObjHeaderAt(s, p).Some? && q < ObjHeaderAt(s, p).value.end
    ensures ObjHeaderAt(s, q).None? || IsDigit(s[q - 1])
  {
    var d1 := DigitsEnd(s, p);
    var w1 := SpacesEnd(s, d1);
    var d2 := DigitsEnd(s, w1);
    var w2 := SpacesEnd(s, d2);
    DigitsRun(s, p);
    SpacesRun(s, d1);
    DigitsRun(s, w1);
    if q >= d1 {
      if q == w1 {
        assert DigitsEnd(s, q) == d2 && SpacesEnd(s, d2) == w2;
        assert DigitsEnd(s, w2) == w2;
      } else if q < w1 || q >= d2 {
        SpacesRun(s, d2);
        if q >= w2 { LitChar(s, w2, "obj", q - w2); }
        assert !IsDigit(s[q]);
        assert DigitsEnd(s, q) == q;
      }
    }
  }

  lemma NoOverlapPageType(s: string, p: nat, q: nat)
    requires p < q <= |s|
    requires PageTypeAt(s, p).Some? && q < PageTypeAt(s, p).value.end
    ensures PageTypeAt(s, q).None?
  {
    var w := SpacesEnd(s, p + 5);
    SpacesRun(s, p + 5);
    if q == w {
      LitChar(s, w, "/Page", 1);
      NotLitAt(s, q, "/Type", 1);
    } else {
      if q < p + 5 { LitChar(s, p, "/Type", q - p); }
      if q > w { LitChar(s, w, "/Page", q - w); }
      NotLitAt(s, q, "/Type", 0);
    }
  }

  lemma NoOverlapIndirectRef(s: string, p: nat, q: nat)
    requires p < q <= |s|
    requires IndirectRefAt(s, p).Some? && q < IndirectRefAt(s, p).value.end
    ensures IndirectRefAt(s, q).None? || IsDigit(s[q - 1])
  {
    var d := DigitsEnd(s, p);
    var w1 := SpacesEnd(s, d);
    var w2 := SpacesEnd(s, w1 + 1);
    DigitsRun(s, p);
    SpacesRun(s, d);
    SpacesRun(s, w1 + 1);
    if q >= d {
      if q == w1 {
        assert DigitsEnd(s, q) == w1 + 1;
        assert SpacesEnd(s, w1 + 1) == w2;
        assert s[w2] == 'R';
      } else {
        assert !IsDigit(s[q]);
        assert DigitsEnd(s, q) == q;
      }
    }
  }

  /** No character of a parent link after its first is a '/'. */
  lemma NoSlashInLink(s: string, p: nat, w1: nat, d: nat, w2: nat, w3: nat, q: nat)
    requires LitAt(s, p, "/Parent") && p + 7 <= w1 <= d <= w2 && w2 + 1 <= w3
    requires LitAt(s, w2, "0") && LitAt(s, w3, "R")
    requires forall k :: p + 7 <= k < w1 ==> IsSpace(s[k])
    requires forall k :: w1 <= k < d ==> IsDigit(s[k])
    requires forall k :: d <= k < w2 ==> IsSpace(s[k])
    requires forall k :: w2 + 1 <= k < w3 ==> IsSpace(s[k])
    requires p < q <= w3
    ensures s[q] != '/'
  {
    if q < p + 7 {
      LitChar(s, p, "/Parent", q - p);
      assert s[q] in "Parent";
    } else if q == w2 {
      LitChar(s, w2, "0", 0);
    } else if q == w3 {
      LitChar(s, w3, "R", 0);
    } else if q < w1 {
      assert IsSpace(s[q]);
    } else if q < d {
      assert IsDigit(s[q]);
    } else if q < w2 {
      assert IsSpace(s[q]);
    } else {
      assert IsSpace(s[q]);
    }
  }

  lemma NoOverlapParentLink(s: string, p: nat, q: nat)
    requires p < q <= |s|
    requires ParentLinkAt(s, p).Some? && q < ParentLinkAt(s, p).value.end
    ensures ParentLinkAt(s, q).None?
  {
    var w1 := SpacesEnd(s, p + 7);
    var d := DigitsEnd(s, w1);
    var w2 := SpacesEnd(s, d);
    var w3 := SpacesEnd(s, w2 + 1);
    SpacesRun(s, p + 7);
    DigitsRun(s, w1);
    SpacesRun(s, d);
    SpacesRun(s, w2 + 1);
    NoSlashInLink(s, p, w1, d, w2, w3, q);
    NotLitAt(s, q, "/Parent", 0);
  }
}
