/** Indirect references inside an object body: collecting their numbers
    (`referencedObjects`, merge_simple_pdfs.cpp:70-81), renumbering them
    through an id map (`remapReferences`, merge_simple_pdfs.cpp:112-135), and
    repointing a page at its new parent (merge_simple_pdfs.cpp:171-184). */
module Refs {
  import opened Util
  import opened Search
  import opened Scan

  /** Object numbers are renumbered through a map from old to new number. */
  type IdMap = map<nat, nat>

  /** `referencedObjects`: the numbers of the `N 0 R` references the iterator
      reports in a body. */
  function ReferencedObjects(body: string): set<nat>
  {
    set m | m in Matches(IndirectRef, body) :: m.num
  }

  /** There is a reference to object `id` at q that the iterator reports: a
      match of `(\d+)\s+0\s+R\b` not preceded by a digit. */
  ghost predicate RefAt(body: string, q: nat, id: nat)
  {
    && MatchAt(IndirectRef, body, q).Some?
    && MatchAt(IndirectRef, body, q).value.num == id
    && Admissible(IndirectRef, body, q)
  }

  /** A number is referenced exactly when a reference to it starts at some
      position that is not inside a longer digit run. */
  lemma ReferencedObjectsExactly(body: string, id: nat)
    ensures id in ReferencedObjects(body) <==> exists q: nat :: RefAt(body, q, id)
  {
    if id in ReferencedObjects(body) {
      var m :| m in Matches(IndirectRef, body) && m.num == id;
      MatchesExactly(IndirectRef, body, m);
      assert RefAt(body, m.start, id);
    }
    if q: nat :| RefAt(body, q, id) {
      var m := MatchAt(IndirectRef, body, q).value;
      MatchesExactly(IndirectRef, body, m);
    }
  }

  /** The text a token stands for after renumbering: gap text as it was, a
      reference to a mapped number rewritten as `new 0 R`, any other reference
      as it was written. */
  function RenderRef(g: Seg, idmap: IdMap): string
  {
    match g
    case Text(t) => t
    case Hit(m, raw) => if m.num in idmap then NatToString(idmap[m.num]) + " 0 R" else raw
  }

  function Render(gs: seq<Seg>, idmap: IdMap): string
  {
    if |gs| == 0 then [] else RenderRef(gs[0], idmap) + Render(gs[1..], idmap)
  }

  /** Rendering changes nothing when no token is a reference to a mapped number. */
  lemma {:induction false} RenderUnmapped(gs: seq<Seg>, idmap: IdMap)
    ensures (forall g :: g in gs && g.Hit? ==> g.m.num !in idmap) ==> Render(gs, idmap) == JoinRaw(gs)
  {
    if |gs| > 0 {
      assert forall g :: g in gs[1..] ==> g in gs;
      RenderUnmapped(gs[1..], idmap);
    }
  }

  /** What a reported reference is written as: `new 0 R` when its number is
      mapped, its own text otherwise. */
  function Replacement(body: string, m: Match, idmap: IdMap): string
    requires m.start <= m.end <= |body|
  {
    if m.num in idmap then NatToString(idmap[m.num]) + " 0 R" else body[m.start..m.end]
  }

  /** The loop of `remapReferences` from position `last` over the matches
      `ms` still to come: the text up to the next match, its replacement,
      then on from where it ends; the rest of the body after the last one. */
  function RemapFrom(body: string, last: nat, ms: seq<Match>, idmap: IdMap): string
    requires Placed(|body|, last, ms)
    decreases |ms|
  {
    if |ms| == 0 then body[last..]
    else body[last..ms[0].start] + Replacement(body, ms[0], idmap) + RemapFrom(body, ms[0].end, ms[1..], idmap)
  }

  /** Rendering the pieces of a cut text is the loop over its matches. */
  lemma {:induction false} RenderSplit(s: string, p: nat, ms: seq<Match>, idmap: IdMap)
    requires Placed(|s|, p, ms)
    ensures Render(Split(s, p, ms), idmap) == RemapFrom(s, p, ms, idmap)
    decreases |ms|
  {
    if |ms| > 0 {
      var m := ms[0];
      var rest := Split(s, m.end, ms[1..]);
      var t := Text(s[p..m.start]);
      var h := Hit(m, s[m.start..m.end]);
      RenderSplit(s, m.end, ms[1..], idmap);
      RenderPair(t, h, rest, idmap);
      assert Split(s, p, ms) == [t] + ([h] + rest);
    }
  }

  /** Rendering a text piece, a match and more pieces. */
  lemma RenderPair(t: Seg, h: Seg, rest: seq<Seg>, idmap: IdMap)
    ensures Render([t] + ([h] + rest), idmap) == RenderRef(t, idmap) + (RenderRef(h, idmap) + Render(rest, idmap))
  {
    assert ([t] + ([h] + rest))[1..] == [h] + rest;
    assert ([h] + rest)[1..] == rest;
  }

  /** `remapReferences`: walking the references the iterator reports, in
      order, the text before each is copied, each is written as its
      `Replacement` (`idmap[N] 0 R` when N is mapped, as it stood otherwise),
      and the text after the last is copied. A body that refers to no mapped
      number comes back unchanged. */
  function Remap(body: string, idmap: IdMap): (r: string)
    ensures r == RemapFrom(body, 0, Matches(IndirectRef, body), idmap)
    ensures (forall id :: id in ReferencedObjects(body) ==> id !in idmap) ==> r == body
  {
    var gs := Tokenize(IndirectRef, body);
    RenderUnmapped(gs, idmap);
    RenderSplit(body, 0, Matches(IndirectRef, body), idmap);
    Render(gs, idmap)
  }

  /** Token i of the list is rendered right after the tokens before it. */
  lemma {:induction false} RenderAt(gs: seq<Seg>, idmap: IdMap, i: nat)
    requires i < |gs|
    ensures LitAt(Render(gs, idmap), |Render(gs[..i], idmap)|, RenderRef(gs[i], idmap))
    decreases i
  {
    var head := RenderRef(gs[0], idmap);
    var tail := Render(gs[1..], idmap);
    assert Render(gs, idmap) == head + tail;
    if i == 0 {
      assert Render(gs[..0], idmap) == [];
      LitPrefix(head, tail);
    } else {
      RenderAt(gs[1..], idmap, i - 1);
      assert gs[..i][1..] == gs[1..][..i - 1];
      assert Render(gs[..i], idmap) == head + Render(gs[1..][..i - 1], idmap);
      assert gs[1..][i - 1] == gs[i];
      LitShiftTo(head, tail, |Render(gs[1..][..i - 1], idmap)|, RenderRef(gs[i], idmap), |Render(gs[..i], idmap)|);
    }
  }

  /** Token i of the list stands in the text right after the tokens before it. */
  lemma {:induction false} RawAt(gs: seq<Seg>, i: nat)
    requires i < |gs|
    ensures LitAt(JoinRaw(gs), |JoinRaw(gs[..i])|, Raw(gs[i]))
    decreases i
  {
    var head := Raw(gs[0]);
    var tail := JoinRaw(gs[1..]);
    assert JoinRaw(gs) == head + tail;
    if i == 0 {
      assert JoinRaw(gs[..0]) == [];
      LitPrefix(head, tail);
    } else {
      RawAt(gs[1..], i - 1);
      assert gs[..i][1..] == gs[1..][..i - 1];
      assert JoinRaw(gs[..i]) == head + JoinRaw(gs[1..][..i - 1]);
      assert gs[1..][i - 1] == gs[i];
      LitShiftTo(head, tail, |JoinRaw(gs[1..][..i - 1])|, Raw(gs[i]), |JoinRaw(gs[..i])|);
    }
  }

  /** `remapReferences` piece by piece. Cut the body at the references the
      iterator reports; piece i sits in the body after the pieces before it,
      and its rewrite sits in the output after theirs. A text piece is copied
      as it is, a reference to a mapped number n becomes `idmap[n] 0 R`, and
      any other reference is copied verbatim. */
  lemma RemapPieces(body: string, idmap: IdMap, i: nat)
    ensures var gs := Tokenize(IndirectRef, body);
            var out := Remap(body, idmap);
            i < |gs| ==>
              var g := gs[i];
              var at := |Render(gs[..i], idmap)|;
              && LitAt(body, |JoinRaw(gs[..i])|, Raw(g))
              && (g.Text? ==> LitAt(out, at, g.text))
              && (g.Hit? && g.m.num in idmap ==> LitAt(out, at, NatToString(idmap[g.m.num]) + " 0 R"))
              && (g.Hit? && g.m.num !in idmap ==> LitAt(out, at, g.raw))
  {
    var gs := Tokenize(IndirectRef, body);
    if i < |gs| {
      RawAt(gs, i);
      RenderAt(gs, idmap, i);
    }
  }

  /** With an empty map the body is copied unchanged. */
  lemma RemapEmpty(body: string)
    ensures Remap(body, map[]) == body
  {
  }

  /** A text that is k digits, a space, `0`, a space and `R` is one
      reference spanning all of it. */
  lemma RefShapeMatch(s: string, k: nat)
    requires 0 < k && |s| == k + 4
    requires forall j :: 0 <= j < k ==> IsDigit(s[j])
    requires s[k] == ' ' && s[k + 1] == '0' && s[k + 2] == ' ' && s[k + 3] == 'R'
    ensures IndirectRefAt(s, 0) == Some(Match(0, k + 4, DecValue(s[0..k]), 0))
  {
    DigitsEndAt(s, 0, k);
    assert SpacesEnd(s, k + 1) == k + 1;
    assert SpacesEnd(s, k) == k + 1;
    assert SpacesEnd(s, k + 3) == k + 3;
    assert SpacesEnd(s, k + 2) == k + 3;
    CharLit(s, k + 1, '0');
    CharLit(s, k + 3, 'R');
  }

  /** A digit run followed by ` 0 R` is one reference spanning the whole text. */
  lemma DigitsRefMatch(d: string)
    requires |d| > 0 && AllDigits(d)
    ensures IndirectRefAt(d + " 0 R", 0) == Some(Match(0, |d| + 4, DecValue(d), 0))
  {
    var s := d + " 0 R";
    var k := |d|;
    forall j | 0 <= j < k ensures IsDigit(s[j]) {
      assert s[j] == d[j];
    }
    assert s[0..k] == d;
    RefShapeMatch(s, k);
  }

  /** `n 0 R` on its own is one reference, to n, spanning the whole text. */
  lemma LoneRefMatch(n: nat)
    ensures var s := NatToString(n) + " 0 R";
            IndirectRefAt(s, 0) == Some(Match(0, |s|, n, 0))
  {
    DigitsRefMatch(NatToString(n));
  }

  lemma LoneRefMatches(n: nat)
    ensures var s := NatToString(n) + " 0 R";
            Matches(IndirectRef, s) == [Match(0, |s|, n, 0)]
  {
    var s := NatToString(n) + " 0 R";
    var m := Match(0, |s|, n, 0);
    LoneRefMatch(n);
    var f := MatcherOf(IndirectRef, s);
    MatcherAnchored(IndirectRef, s);
    assert f(0) == Some(m);
    assert FindFrom(f, |s|, 0) == Some(m);
    assert Walk(f, |s|, |s|) == [];
  }

  /** The tokens of a lone reference `n 0 R`: empty text, the reference, empty text. */
  lemma LoneRefTokens(n: nat)
    ensures var s := NatToString(n) + " 0 R";
            Tokenize(IndirectRef, s) == [Text([]), Hit(Match(0, |s|, n, 0), s), Text([])]
  {
    var s := NatToString(n) + " 0 R";
    var m := Match(0, |s|, n, 0);
    LoneRefMatches(n);
    SplitWhole(s, m);
  }

  /** A lone reference to a mapped number is rewritten to `new 0 R`. */
  lemma RemapLoneRef(n: nat, idmap: IdMap)
    requires n in idmap
    ensures Remap(NatToString(n) + " 0 R", idmap) == NatToString(idmap[n]) + " 0 R"
  {
    var s := NatToString(n) + " 0 R";
    var gs := [Text([]), Hit(Match(0, |s|, n, 0), s), Text([])];
    LoneRefTokens(n);
    assert Remap(s, idmap) == Render(gs, idmap);
    assert Render(gs[2..], idmap) == [];
    assert Render(gs[1..], idmap) == NatToString(idmap[n]) + " 0 R" + [];
  }

  /** A lone reference `n 0 R` refers to n and nothing else. */
  lemma ReferencedLoneRef(n: nat)
    ensures ReferencedObjects(NatToString(n) + " 0 R") == {n}
  {
    LoneRefMatches(n);
  }

  /** A lone reference `n 0 R` to a key of the id map is renumbered to the
      key's value `v`. */
  lemma RemapLoneTo(n: nat, idmap: IdMap, v: nat)
    requires n in idmap && idmap[n] == v
    ensures Remap(NatToString(n) + " 0 R", idmap) == NatToString(v) + " 0 R"
  {
    RemapLoneRef(n, idmap);
  }

  /** A lone reference `n 0 R` to a number the id map does not name is kept. */
  lemma RemapLoneKept(n: nat, idmap: IdMap)
    requires n !in idmap
    ensures Remap(NatToString(n) + " 0 R", idmap) == NatToString(n) + " 0 R"
  {
    ReferencedLoneRef(n);
  }

  // ---------------------------------------------------------------------------
  // Repointing a page at the new page tree
  // ---------------------------------------------------------------------------

  /** s[p..] with the spans of `ms` cut out: the gap texts, in order. Cutting
      s[p..] at `ms` gives these gaps as its text pieces, and joining them
      with the matched spans between gives s[p..] back. */
  function {:induction false} DropSpans(s: string, p: nat, ms: seq<Match>): (r: string)
    requires Placed(|s|, p, ms)
    ensures r == JoinText(Split(s, p, ms))
    ensures |r| <= |s| - p
    ensures |r| == |s| - p <==> ms == []
    decreases |ms|
  {
    if |ms| == 0 then s[p..]
    else
      var m := ms[0];
      var rest := Split(s, m.end, ms[1..]);
      assert Split(s, p, ms) == [Text(s[p..m.start])] + ([Hit(m, s[m.start..m.end])] + rest);
      JoinTextPair(Text(s[p..m.start]), Hit(m, s[m.start..m.end]), rest);
      s[p..m.start] + DropSpans(s, m.end, ms[1..])
  }

  /** `regex_replace(body, /Parent\s+\d+\s+0\s+R, "")`: the body with every
      `/Parent N 0 R` the iterator reports deleted and the text between kept
      in order: the text pieces of the body cut at exactly those links. The
      body changes exactly when it holds such a link. */
  function StripParent(body: string): (r: string)
    ensures r == JoinText(Tokenize(ParentLink, body))
    ensures Hits(Tokenize(ParentLink, body)) == Matches(ParentLink, body)
    ensures |r| <= |body|
    ensures |r| == |body| <==> Matches(ParentLink, body) == []
  {
    DropSpans(body, 0, Matches(ParentLink, body))
  }

  /** The link inserted before a page dictionary's closing `>>`. */
  function ParentEntry(pagesId: nat): string
  {
    " /Parent " + NatToString(pagesId) + " 0 R "
  }

  /** The link appended to a page body that has no `>>`. */
  function ParentTail(pagesId: nat): string
  {
    "\n/Parent " + NatToString(pagesId) + " 0 R\n"
  }

  /** r is s with `ins` put in at pos, right before a `>>` that stays the last
      one: taking `ins` out of r again gives s back. */
  ghost predicate InsertedBeforeLast(s: string, pos: nat, ins: string, r: string)
  {
    && pos + |ins| <= |r|
    && r[pos..pos + |ins|] == ins
    && r[..pos] + r[pos + |ins|..] == s
    && LastIndexOf(r, ">>") == Some(pos + |ins|)
  }

  /** The page body, its old links already deleted, with a link to `pagesId`
      added: inserted right before the last `>>`, or appended when there is
      no `>>`. */
  function InsertParent(s: string, pagesId: nat): (r: string)
    ensures LastIndexOf(s, ">>").Some? ==>
              InsertedBeforeLast(s, LastIndexOf(s, ">>").value, ParentEntry(pagesId), r)
    ensures LastIndexOf(s, ">>").None? ==> r == s + ParentTail(pagesId)
  {
    match LastIndexOf(s, ">>")
    case None => s + ParentTail(pagesId)
    case Some(pos) =>
      InsertBeforeLast(s, pos, ParentEntry(pagesId));
      s[..pos] + ParentEntry(pagesId) + s[pos..]
  }

  /** The page fix-up of `writeMergedPDF`: delete the old `/Parent` links, then
      add one to the new page tree. */
  function FixParent(remapped: string, pagesId: nat): string
  {
    InsertParent(StripParent(remapped), pagesId)
  }

  /** Text inserted right before the last `>>` can be taken out again, and
      that `>>` stays the last one. */
  lemma InsertBeforeLast(s: string, pos: nat, ins: string)
    requires pos <= |s| && LitAt(s, pos, ">>") && forall j: nat :: pos < j ==> !LitAt(s, j, ">>")
    ensures InsertedBeforeLast(s, pos, ins, s[..pos] + ins + s[pos..])
  {
    var r := s[..pos] + ins + s[pos..];
    var k := pos + |ins|;
    assert r[k..] == s[pos..];
    assert r[..pos] == s[..pos];
    assert r[pos..k] == ins;
    assert r[..pos] + r[k..] == s;
    LitAtSuffix(r, s, k, pos, 0, ">>");
    forall j: nat | k < j
      ensures !LitAt(r, j, ">>")
    {
      LitAtSuffix(r, s, k, pos, j - k, ">>");
    }
    LastIndexOfIs(r, ">>", k);
  }
}
