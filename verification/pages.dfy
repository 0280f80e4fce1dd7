/** Picking the page objects out of a parsed file (`findPageObjects`,
    merge_simple_pdfs.cpp:51-67). */
module Pages {
  import opened Util
  import opened Scan
  import opened Objects

  // A body declares a page: `/Type\s*/Page\b` occurs in it.
  predicate IsPageBody(body: string)
  {
    Occurs(PageType, body)
  }

  /** `findPageObjects`: the object numbers of the page objects, sorted, without
      repeats. */
  function FindPageObjects(objs: ObjMap): (r: seq<nat>)
    ensures StrictlyAscending(r)
    ensures forall x :: x in r <==> exists k :: k in objs && objs[k].id == x && IsPageBody(objs[k].body)
  {
    SortedSeqOf(set k | k in objs && IsPageBody(objs[k].body) :: objs[k].id)
  }

  /** For a map whose entries carry their own keys, as `parseObjects` builds it,
      the pages are exactly the keys whose bodies declare a page. */
  lemma PagesOfParsed(objs: ObjMap, x: nat)
    requires forall k :: k in objs ==> objs[k].id == k
    ensures x in FindPageObjects(objs) <==> x in objs && IsPageBody(objs[x].body)
  {
  }

  /** `/Type /Pages` (the page-tree root) is not a page declaration: after
      `/Type` and white space, `/Pages` continues with a word character. */
  lemma PagesMarkerNoMatch(s: string, q: nat)
    requires LitAt(s, q, "/Type") && LitAt(s, SpacesEnd(s, q + 5), "/Pages")
    ensures MatchAt(PageType, s, q).None?
  {
    var w := SpacesEnd(s, q + 5);
    LitChar(s, w, "/Pages", 5);
  }

  /** A body in which every `/Type` is followed by `/Pages` is not a page. */
  lemma OnlyPagesMarkerNotPage(body: string)
    requires forall q: nat :: LitAt(body, q, "/Type") ==> LitAt(body, SpacesEnd(body, q + 5), "/Pages")
    ensures !IsPageBody(body)
  {
    OccursExactly(PageType, body);
    forall q: nat ensures MatchAt(PageType, body, q).None? {
      if q <= |body| && LitAt(body, q, "/Type") { PagesMarkerNoMatch(body, q); }
    }
  }

  /** A body containing `/Type /Page` followed by a non-word character is a page. */
  lemma PageMarkerIsPage(body: string, q: nat)
    requires LitAt(body, q, "/Type /Page") && WordBoundaryAt(body, q + 11)
    ensures IsPageBody(body)
  {
    LitPart(body, q, "/Type /Page", 0, 5);
    assert "/Type /Page"[0..5] == "/Type";
    assert SpacesEnd(body, q + 5) == q + 6 by {
      LitChar(body, q, "/Type /Page", 5);
      LitChar(body, q, "/Type /Page", 6);
    }
    LitPart(body, q, "/Type /Page", 6, 11);
    assert "/Type /Page"[6..11] == "/Page";
    assert MatchAt(PageType, body, q).Some?;
    OccursExactly(PageType, body);
  }
}
