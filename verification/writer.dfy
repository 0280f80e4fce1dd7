/** `writeMergedPDF` (merge_simple_pdfs.cpp:138-233) as a function from the
    objects to keep to the bytes of the merged file: new object numbers in
    list order, page objects pointed at a fresh page tree, the tree and the
    catalog appended, then the cross-reference table and trailer. */
module Writer {
  import opened Util
  import opened Objects
  import opened Refs
  import opened Layout

  /** One written object: its new number and its record text. */
  datatype OutObj = OutObj(id: nat, text: string)

  /** The header line and the binary-comment line (`%` and the UTF-8 bytes of
      "âãÏÓ", one char per byte). */
  const MergeHeader: string := "%PDF-1.4\n%\U{00C3}\U{00A2}\U{00C3}\U{00A3}\U{00C3}\U{008F}\U{00C3}\U{0093}\n"

  /** The new numbers: `idmap[oid] = nextId++` over the list. Every listed
      number gets a number that points back at one of its positions. */
  function AssignIds(ordered: seq<nat>): (r: IdMap)
    ensures forall k :: k in r <==> k in ordered
    ensures forall k :: k in r ==> 1 <= r[k] <= |ordered| && ordered[r[k] - 1] == k
  {
    if |ordered| == 0 then map[]
    else
      var front := ordered[..|ordered| - 1];
      var last := ordered[|ordered| - 1];
      var prev := AssignIds(front);
      var r := prev[last := |ordered|];
      assert ordered == front + [last];
      forall k | k in r ensures 1 <= r[k] <= |ordered| && ordered[r[k] - 1] == k {
        if k != last { assert ordered[prev[k] - 1] == front[prev[k] - 1]; }
      }
      r
  }

  /** The number a listed object gets is one more than its last position:
      the later assignment wins. */
  lemma {:induction false} AssignIdsLast(ordered: seq<nat>, k: nat, j: nat)
    requires k in AssignIds(ordered) && AssignIds(ordered)[k] <= j < |ordered|
    ensures ordered[j] != k
    decreases |ordered|
  {
    var front := ordered[..|ordered| - 1];
    var last := ordered[|ordered| - 1];
    if k != last {
      assert AssignIds(ordered)[k] == AssignIds(front)[k];
      if j < |ordered| - 1 {
        AssignIdsLast(front, k, j);
        assert ordered[j] == front[j];
      }
    }
  }

  /** Different objects get different numbers. */
  lemma AssignIdsInjective(ordered: seq<nat>, a: nat, b: nat)
    requires a in AssignIds(ordered) && b in AssignIds(ordered) && a != b
    ensures AssignIds(ordered)[a] != AssignIds(ordered)[b]
  {
    var r := AssignIds(ordered);
    assert ordered[r[a] - 1] == a && ordered[r[b] - 1] == b;
  }

  /** Without repeats, the object at position i gets number i + 1. */
  lemma AssignIdsDistinct(ordered: seq<nat>, i: nat)
    requires Distinct(ordered) && i < |ordered|
    ensures ordered[i] in AssignIds(ordered) && AssignIds(ordered)[ordered[i]] == i + 1
  {
    AssignIdsPoints(ordered, ordered[i]);
    DistinctAt(ordered, i, AssignIds(ordered)[ordered[i]] - 1);
  }

  /** The new number of a listed object is one past a position holding it. */
  lemma AssignIdsPoints(ordered: seq<nat>, k: nat)
    requires k in ordered
    ensures k in AssignIds(ordered)
    ensures var n := AssignIds(ordered)[k]; 1 <= n <= |ordered| && ordered[n - 1] == k
  {
  }

  /** A way of writing one object from its body, its new number and the id
      map. */
  type Render = (string, nat, IdMap) -> OutObj

  /** The record starts with the object header for its number. */
  predicate Headed(o: OutObj)
  {
    LitAt(o.text, 0, NatToString(o.id) + " 0 obj\n")
  }

  /** The object is written under the number it is given, as a record for it. */
  ghost predicate KeepsNumber(render: Render)
  {
    forall b, n, m :: render(b, n, m).id == n && Headed(render(b, n, m))
  }

  /** The first loop: a record for every listed object that is not a page and
      is defined, numbered through `idmap`, in list order. */
  function NonPageRecords(allObjs: ObjMap, ordered: seq<nat>, pageIds: seq<nat>, idmap: IdMap, render: Render): (r: seq<OutObj>)
    requires forall k :: k in ordered ==> k in idmap
    ensures |r| <= |ordered|
    ensures (forall k :: k in ordered ==> k in allObjs && k !in pageIds) ==>
              && |r| == |ordered|
              && forall i :: 0 <= i < |r| ==> r[i] == render(allObjs[ordered[i]].body, idmap[ordered[i]], idmap)
  {
    if |ordered| == 0 then []
    else
      var oid := ordered[0];
      var rest := NonPageRecords(allObjs, ordered[1..], pageIds, idmap, render);
      if oid in pageIds || oid !in allObjs then rest
      else [render(allObjs[oid].body, idmap[oid], idmap)] + rest
  }

  /** The page loop's records and the id map as the loop leaves it. */
  datatype PageOut = PageOut(recs: seq<OutObj>, idmap: IdMap)

  /** The second loop: a record for every defined page, in page order.
      `idmap[pid]` inserts 0 for a page missing from the map, and later pages
      see that entry. The map only grows, and only by such zero entries. */
  function PageRecords(allObjs: ObjMap, pageIds: seq<nat>, idmap: IdMap, render: Render): (r: PageOut)
    ensures forall k :: k in idmap ==> k in r.idmap && r.idmap[k] == idmap[k]
    ensures forall k :: k in r.idmap <==> k in idmap || (k in pageIds && k in allObjs)
    ensures forall k :: k in r.idmap && k !in idmap ==> r.idmap[k] == 0
    ensures |r.recs| <= |pageIds|
  {
    if |pageIds| == 0 then PageOut([], idmap)
    else
      var pid := pageIds[0];
      assert forall p :: p in pageIds <==> p == pid || p in pageIds[1..];
      if pid !in allObjs then PageRecords(allObjs, pageIds[1..], idmap, render)
      else
        var nid := if pid in idmap then idmap[pid] else 0;
        var m := idmap[pid := nid];
        var rest := PageRecords(allObjs, pageIds[1..], m, render);
        assert forall k :: k in idmap ==> k in m && m[k] == idmap[k];
        PageOut([render(allObjs[pid].body, nid, m)] + rest.recs, rest.idmap)
  }

  /** When every page is defined and already numbered, the page loop leaves
      the map alone and writes one record per page, in page order. */
  lemma {:induction false} PageRecordsNumbered(allObjs: ObjMap, pageIds: seq<nat>, idmap: IdMap, render: Render)
    requires forall i :: 0 <= i < |pageIds| ==> pageIds[i] in allObjs && pageIds[i] in idmap
    ensures var r := PageRecords(allObjs, pageIds, idmap, render);
            && r.idmap == idmap
            && |r.recs| == |pageIds|
            && forall i :: 0 <= i < |pageIds| ==>
                 r.recs[i] == render(allObjs[pageIds[i]].body, idmap[pageIds[i]], idmap)
  {
    if |pageIds| > 0 {
      var pid := pageIds[0];
      assert idmap[pid := idmap[pid]] == idmap;
      assert forall i :: 0 <= i < |pageIds| - 1 ==> pageIds[1..][i] == pageIds[i + 1];
      PageRecordsNumbered(allObjs, pageIds[1..], idmap, render);
      var r := PageRecords(allObjs, pageIds, idmap, render);
      var rest := PageRecords(allObjs, pageIds[1..], idmap, render);
      assert r.recs == [render(allObjs[pid].body, idmap[pid], idmap)] + rest.recs;
    }
  }

  /** The `/Kids` numbers: the new number of every page the map knows, in page order. */
  function KidIds(pageIds: seq<nat>, idmap: IdMap): (r: seq<nat>)
    ensures |r| <= |pageIds|
    ensures forall x :: x in r ==> exists p :: p in pageIds && p in idmap && idmap[p] == x
    ensures (forall p :: p in pageIds ==> p in idmap) ==>
              |r| == |pageIds| && forall i :: 0 <= i < |r| ==> r[i] == idmap[pageIds[i]]
  {
    if |pageIds| == 0 then []
    else
      var rest := KidIds(pageIds[1..], idmap);
      assert forall p :: p in pageIds[1..] ==> p in pageIds;
      if pageIds[0] in idmap then [idmap[pageIds[0]]] + rest else rest
  }

  /** The objects in write order: the non-pages, the pages, the page tree
      numbered `pagesId` and the catalog after it. The tree counts every
      listed page, defined or not. */
  function MergedObjects(allObjs: ObjMap, ordered: seq<nat>, pageIds: seq<nat>, pagesId: nat,
                         render: Render, renderPage: Render): (r: seq<OutObj>)
    ensures |r| >= 2
    ensures r[|r| - 2].id == pagesId && r[|r| - 1].id == pagesId + 1
    ensures r[|r| - 1].text == Record(pagesId + 1, CatalogDict(pagesId))
    ensures Headed(r[|r| - 2]) && Headed(r[|r| - 1])
  {
    var idmap := AssignIds(ordered);
    var nonPages := NonPageRecords(allObjs, ordered, pageIds, idmap, render);
    var pages := PageRecords(allObjs, pageIds, idmap, renderPage);
    var kids := KidIds(pageIds, pages.idmap);
    nonPages + pages.recs
    + [OutObj(pagesId, Record(pagesId, PagesDict(kids, |pageIds|))),
       OutObj(pagesId + 1, Record(pagesId + 1, CatalogDict(pagesId)))]
  }

  /** Objects numbered consecutively after `base`, each record headed by its number. */
  ghost predicate NumberedFrom(r: seq<OutObj>, base: nat)
  {
    forall i :: 0 <= i < |r| ==> r[i].id == base + i + 1 && Headed(r[i])
  }

  lemma NumberedConcat(a: seq<OutObj>, b: seq<OutObj>, base: nat, mid: nat)
    requires mid == base + |a| && NumberedFrom(a, base) && NumberedFrom(b, mid)
    ensures NumberedFrom(a + b, base)
  {
    forall i | |a| <= i < |a| + |b| ensures (a + b)[i] == b[i - |a|] {}
  }

  lemma PairNumbered(a: OutObj, b: OutObj, base: nat)
    requires a.id == base + 1 && b.id == base + 2 && Headed(a) && Headed(b)
    ensures NumberedFrom([a, b], base)
  {
  }

  /** Without repeats in `a + b`, nothing in a is in b. */
  lemma DistinctDisjoint(a: seq<nat>, b: seq<nat>)
    requires Distinct(a + b)
    ensures forall k :: k in a ==> k !in b && k in a + b
    ensures forall k :: k in b ==> k in a + b
  {
    forall k | k in a ensures k !in b && k in a + b {
      var i :| 0 <= i < |a| && a[i] == k;
      assert (a + b)[i] == k;
      forall j | 0 <= j < |b| ensures b[j] != k {
        assert (a + b)[|a| + j] == b[j];
      }
    }
    forall k | k in b ensures k in a + b {
      var j :| 0 <= j < |b| && b[j] == k;
      assert (a + b)[|a| + j] == k;
    }
  }

  /** Without repeats, the list's own numbering gives position i the number i + 1. */
  lemma AssignIdsAll(ordered: seq<nat>)
    requires Distinct(ordered)
    ensures forall i :: 0 <= i < |ordered| ==> ordered[i] in AssignIds(ordered) && AssignIds(ordered)[ordered[i]] == i + 1
  {
    forall i | 0 <= i < |ordered| ensures ordered[i] in AssignIds(ordered) && AssignIds(ordered)[ordered[i]] == i + 1 {
      AssignIdsDistinct(ordered, i);
    }
  }

  /** The first loop numbers the non-pages 1, 2, ... */
  lemma NonPagesNumbered(allObjs: ObjMap, nonPages: seq<nat>, pageIds: seq<nat>, render: Render)
    requires KeepsNumber(render)
    requires Distinct(nonPages + pageIds)
    requires forall k :: k in nonPages + pageIds ==> k in allObjs
    ensures var np := NonPageRecords(allObjs, nonPages + pageIds, pageIds, AssignIds(nonPages + pageIds), render);
            |np| == |nonPages| && NumberedFrom(np, 0)
  {
    var ordered := nonPages + pageIds;
    var idmap := AssignIds(ordered);
    AssignIdsAll(ordered);
    DistinctDisjoint(nonPages, pageIds);
    NonPagePrefix(allObjs, nonPages, pageIds, idmap, render);
    var np := NonPageRecords(allObjs, nonPages, pageIds, idmap, render);
    forall i | 0 <= i < |nonPages| ensures np[i].id == i + 1 && Headed(np[i]) {
      assert ordered[i] == nonPages[i];
    }
  }

  /** The second loop numbers the pages after the non-pages. */
  lemma PagesNumbered(allObjs: ObjMap, nonPages: seq<nat>, pageIds: seq<nat>, render: Render)
    requires KeepsNumber(render)
    requires Distinct(nonPages + pageIds)
    requires forall k :: k in nonPages + pageIds ==> k in allObjs
    ensures var pages := PageRecords(allObjs, pageIds, AssignIds(nonPages + pageIds), render);
            && pages.idmap == AssignIds(nonPages + pageIds)
            && |pages.recs| == |pageIds| && NumberedFrom(pages.recs, |nonPages|)
  {
    var ordered := nonPages + pageIds;
    var idmap := AssignIds(ordered);
    AssignIdsAll(ordered);
    DistinctDisjoint(nonPages, pageIds);
    forall i | 0 <= i < |pageIds| ensures pageIds[i] in allObjs && idmap[pageIds[i]] == |nonPages| + i + 1 {
      assert ordered[|nonPages| + i] == pageIds[i];
    }
    PageRecordsNumbered(allObjs, pageIds, idmap, render);
  }

  /** The two loops together number the listed objects 1, 2, ... in list
      order, and the page loop leaves the map as it was. */
  lemma LoopsNumbered(allObjs: ObjMap, nonPages: seq<nat>, pageIds: seq<nat>, render: Render, renderPage: Render)
    requires KeepsNumber(render) && KeepsNumber(renderPage)
    requires Distinct(nonPages + pageIds)
    requires forall k :: k in nonPages + pageIds ==> k in allObjs
    ensures var idmap := AssignIds(nonPages + pageIds);
            var pages := PageRecords(allObjs, pageIds, idmap, renderPage);
            var front := NonPageRecords(allObjs, nonPages + pageIds, pageIds, idmap, render) + pages.recs;
            pages.idmap == idmap && |front| == |nonPages + pageIds| && NumberedFrom(front, 0)
  {
    var idmap := AssignIds(nonPages + pageIds);
    NonPagesNumbered(allObjs, nonPages, pageIds, render);
    PagesNumbered(allObjs, nonPages, pageIds, renderPage);
    NumberedConcat(NonPageRecords(allObjs, nonPages + pageIds, pageIds, idmap, render),
                   PageRecords(allObjs, pageIds, idmap, renderPage).recs, 0, |nonPages|);
  }

  /** With the non-pages followed by the pages, no number listed twice and
      every listed object defined, the object written at position i is
      numbered i + 1, and every record starts with its own header. */
  lemma WellNumbered(allObjs: ObjMap, nonPages: seq<nat>, pageIds: seq<nat>, render: Render, renderPage: Render)
    requires KeepsNumber(render) && KeepsNumber(renderPage)
    requires Distinct(nonPages + pageIds)
    requires forall k :: k in nonPages + pageIds ==> k in allObjs
    ensures var r := MergedObjects(allObjs, nonPages + pageIds, pageIds, |nonPages + pageIds| + 1, render, renderPage);
            |r| == |nonPages + pageIds| + 2 && NumberedFrom(r, 0)
  {
    var ordered := nonPages + pageIds;
    var base := |ordered|;
    var idmap := AssignIds(ordered);
    var front := NonPageRecords(allObjs, ordered, pageIds, idmap, render) + PageRecords(allObjs, pageIds, idmap, renderPage).recs;
    var r := MergedObjects(allObjs, ordered, pageIds, base + 1, render, renderPage);
    LoopsNumbered(allObjs, nonPages, pageIds, render, renderPage);
    var tail := [r[|r| - 2], r[|r| - 1]];
    assert r == front + tail;
    PairNumbered(r[|r| - 2], r[|r| - 1], base);
    NumberedConcat(front, tail, 0, base);
  }

  /** The numbers from `first` on, `count` of them. */
  function Consecutive(first: nat, count: nat): (r: seq<nat>)
    ensures |r| == count && forall i :: 0 <= i < count ==> r[i] == first + i
  {
    seq(count, i => first + i)
  }

  /** Listed after the non-pages, the pages' new numbers are the ones right
      after the non-pages', in page order. */
  lemma KidsNumbered(nonPages: seq<nat>, pageIds: seq<nat>)
    requires Distinct(nonPages + pageIds)
    ensures KidIds(pageIds, AssignIds(nonPages + pageIds)) == Consecutive(|nonPages| + 1, |pageIds|)
  {
    var ordered := nonPages + pageIds;
    var idmap := AssignIds(ordered);
    assert forall p :: p in pageIds ==> p in ordered;
    var kids := KidIds(pageIds, idmap);
    var want := Consecutive(|nonPages| + 1, |pageIds|);
    forall i | 0 <= i < |pageIds|
      ensures kids[i] == want[i]
    {
      assert ordered[|nonPages| + i] == pageIds[i];
      AssignIdsDistinct(ordered, |nonPages| + i);
    }
  }

  /** With every listed object defined and none listed twice, the page loop
      leaves the map as the numbering made it. */
  lemma PagesKeepMap(allObjs: ObjMap, nonPages: seq<nat>, pageIds: seq<nat>, render: Render)
    requires Distinct(nonPages + pageIds)
    requires forall k :: k in nonPages + pageIds ==> k in allObjs
    ensures PageRecords(allObjs, pageIds, AssignIds(nonPages + pageIds), render).idmap == AssignIds(nonPages + pageIds)
  {
    var ordered := nonPages + pageIds;
    forall i | 0 <= i < |pageIds|
      ensures pageIds[i] in allObjs && pageIds[i] in AssignIds(ordered)
    {
      assert ordered[|nonPages| + i] == pageIds[i];
    }
    PageRecordsNumbered(allObjs, pageIds, AssignIds(ordered), render);
  }

  /** With the non-pages followed by the pages, no number listed twice and
      every listed object defined, the page tree lists the pages' new numbers
      |nonPages| + 1, |nonPages| + 2, ... in page order, and counts every page. */
  lemma TreeListsPages(allObjs: ObjMap, nonPages: seq<nat>, pageIds: seq<nat>, render: Render, renderPage: Render)
    requires Distinct(nonPages + pageIds)
    requires forall k :: k in nonPages + pageIds ==> k in allObjs
    ensures var pagesId := |nonPages + pageIds| + 1;
            var r := MergedObjects(allObjs, nonPages + pageIds, pageIds, pagesId, render, renderPage);
            r[|r| - 2].text == Record(pagesId, PagesDict(Consecutive(|nonPages| + 1, |pageIds|), |pageIds|))
  {
    var ordered := nonPages + pageIds;
    var pagesId := |ordered| + 1;
    var idmap := AssignIds(ordered);
    var pages := PageRecords(allObjs, pageIds, idmap, renderPage);
    KidsNumbered(nonPages, pageIds);
    PagesKeepMap(allObjs, nonPages, pageIds, renderPage);
    var r := MergedObjects(allObjs, ordered, pageIds, pagesId, render, renderPage);
    assert r[|r| - 2] == OutObj(pagesId, Record(pagesId, PagesDict(KidIds(pageIds, pages.idmap), |pageIds|)));
  }

  /** The first loop over the whole list equals the loop over the non-pages
      when the pages come last. */
  lemma {:induction false} NonPagePrefix(allObjs: ObjMap, nonPages: seq<nat>, pageIds: seq<nat>, idmap: IdMap, render: Render)
    requires forall k :: k in nonPages + pageIds ==> k in idmap
    ensures NonPageRecords(allObjs, nonPages + pageIds, pageIds, idmap, render)
            == NonPageRecords(allObjs, nonPages, pageIds, idmap, render)
    decreases |nonPages|
  {
    if |nonPages| == 0 {
      assert nonPages + pageIds == pageIds;
      NoNonPages(allObjs, pageIds, pageIds, idmap, render);
    } else {
      assert (nonPages + pageIds)[1..] == nonPages[1..] + pageIds;
      NonPagePrefix(allObjs, nonPages[1..], pageIds, idmap, render);
    }
  }

  /** A list of pages yields no non-page records. */
  lemma {:induction false} NoNonPages(allObjs: ObjMap, ordered: seq<nat>, pageIds: seq<nat>, idmap: IdMap, render: Render)
    requires forall k :: k in ordered ==> k in idmap && k in pageIds
    ensures NonPageRecords(allObjs, ordered, pageIds, idmap, render) == []
  {
    if |ordered| > 0 {
      assert forall k :: k in ordered[1..] ==> k in ordered;
      NoNonPages(allObjs, ordered[1..], pageIds, idmap, render);
    }
  }

  function Texts(objs: seq<OutObj>): (r: seq<string>)
    ensures |r| == |objs| && forall i :: 0 <= i < |objs| ==> r[i] == objs[i].text
  {
    seq(|objs|, i requires 0 <= i < |objs| => objs[i].text)
  }

  /** What the writer produces: the objects in write order, the file, the
      numbers of the page tree and catalog, and the record offsets. */
  datatype Written = Written(objects: seq<OutObj>, file: string, pagesId: nat, catalogId: nat, offsets: seq<nat>)

  /** Every object's record sits in the file at its offset. */
  ghost predicate RecordsAt(file: string, offsets: seq<nat>, objects: seq<OutObj>)
  {
    |offsets| == |objects| && forall i :: 0 <= i < |objects| ==> LitAt(file, offsets[i], objects[i].text)
  }

  /** The header, the records in order, then the table of their offsets in
      write order and the trailer naming the catalog after the page tree.
      Each record sits at its offset: the header length plus the lengths of
      the records before it. */
  function Assemble(objects: seq<OutObj>, pagesId: nat): (w: Written)
    ensures w.objects == objects && w.pagesId == pagesId && w.catalogId == pagesId + 1
    ensures RecordsAt(w.file, w.offsets, objects)
    ensures forall i :: 0 <= i < |objects| ==> w.offsets[i] == |MergeHeader| + |Concat(Texts(objects)[..i])|
    ensures w.file == PdfFile(MergeHeader, Texts(objects), w.offsets, |objects| + 1, pagesId + 1)
  {
    var texts := Texts(objects);
    var offsets := OffsetsFrom(|MergeHeader|, texts);
    var file := PdfFile(MergeHeader, texts, offsets, |objects| + 1, pagesId + 1);
    forall i | 0 <= i < |objects|
      ensures LitAt(file, offsets[i], objects[i].text)
    {
      RecordAtOffset(MergeHeader, texts, offsets, |objects| + 1, pagesId + 1, i);
    }
    Written(objects, file, pagesId, pagesId + 1, offsets)
  }

  /** A non-page object: its references renumbered. */
  function Renumbered(body: string, nid: nat, idmap: IdMap): (o: OutObj)
    ensures o.id == nid && Headed(o)
  {
    OutObj(nid, Record(nid, Remap(body, idmap)))
  }

  /** A page: its references renumbered and its parent link pointing at the
      page tree `pagesId`. */
  function RenumberedPage(body: string, nid: nat, idmap: IdMap, pagesId: nat): (o: OutObj)
    ensures o.id == nid && Headed(o)
  {
    OutObj(nid, Record(nid, FixParent(Remap(body, idmap), pagesId)))
  }

  function ObjectWriter(): Render
  {
    (b, n, m) => Renumbered(b, n, m)
  }

  function PageWriter(pagesId: nat): Render
  {
    (b, n, m) => RenumberedPage(b, n, m, pagesId)
  }

  lemma WritersKeepNumbers(pagesId: nat)
    ensures KeepsNumber(ObjectWriter()) && KeepsNumber(PageWriter(pagesId))
  {
    forall b, n, m ensures ObjectWriter()(b, n, m).id == n && Headed(ObjectWriter()(b, n, m)) {
      assert ObjectWriter()(b, n, m) == Renumbered(b, n, m);
    }
    forall b, n, m ensures PageWriter(pagesId)(b, n, m).id == n && Headed(PageWriter(pagesId)(b, n, m)) {
      assert PageWriter(pagesId)(b, n, m) == RenumberedPage(b, n, m, pagesId);
    }
  }

  /** `writeMergedPDF` up to the file write: the page tree and catalog take
      the two numbers after the listed objects, the catalog comes last and
      names the tree, and each record sits at the offset the table lists for
      it (the layout is `Assemble`'s). */
  function WriteMerged(allObjs: ObjMap, ordered: seq<nat>, pageIds: seq<nat>): (w: Written)
    ensures w.pagesId == |ordered| + 1 && w.catalogId == |ordered| + 2
    ensures |w.objects| >= 2 && w.objects[|w.objects| - 1].text == Record(w.catalogId, CatalogDict(w.pagesId))
    ensures RecordsAt(w.file, w.offsets, w.objects)
  {
    var pagesId := |ordered| + 1;
    Assemble(MergedObjects(allObjs, ordered, pageIds, pagesId, ObjectWriter(), PageWriter(pagesId)), pagesId)
  }

  /** The page tree of `w` (its second-to-last record, object `w.pagesId`)
      lists n pages under the n numbers just below its own and gives
      `/Count n`. */
  ghost predicate TreeListsBelow(w: Written, n: nat)
  {
    && |w.objects| >= 2
    && w.pagesId >= n + 1
    && w.objects[|w.objects| - 2].text == Record(w.pagesId, PagesDict(Consecutive(w.pagesId - n, n), n))
  }

  /** A file whose tree record lists n pages under the numbers after its
      first a objects, and whose tree is object a + n + 1, lists its pages
      just below the tree's own number. */
  lemma TreeBelowFrom(w: Written, a: nat, n: nat)
    requires |w.objects| >= 2 && w.pagesId == a + n + 1
    requires w.objects[|w.objects| - 2].text == Record(a + n + 1, PagesDict(Consecutive(a + 1, n), n))
    ensures TreeListsBelow(w, n)
  {
  }

  /** The written file's objects are the merged records: when the tree
      record lists the n pages under the numbers after the first a
      objects, the tree of the written file lists them just below its own
      number. */
  lemma WrittenObjectsTree(allObjs: ObjMap, ordered: seq<nat>, pageIds: seq<nat>, a: nat)
    requires |ordered| == a + |pageIds|
    requires var r := MergedObjects(allObjs, ordered, pageIds, |ordered| + 1, ObjectWriter(), PageWriter(|ordered| + 1));
             r[|r| - 2].text == Record(|ordered| + 1, PagesDict(Consecutive(a + 1, |pageIds|), |pageIds|))
    ensures TreeListsBelow(WriteMerged(allObjs, ordered, pageIds), |pageIds|)
  {
    var w := WriteMerged(allObjs, ordered, pageIds);
    assert w.objects == MergedObjects(allObjs, ordered, pageIds, |ordered| + 1, ObjectWriter(), PageWriter(|ordered| + 1));
    TreeBelowFrom(w, a, |pageIds|);
  }

  /** With the non-pages before the pages, none listed twice and all
      defined, the written file's page tree lists every page, in page
      order, under the numbers that follow the non-pages, just below the
      tree's own number. */
  lemma WrittenTree(allObjs: ObjMap, ordered: seq<nat>, nonPages: seq<nat>, pageIds: seq<nat>)
    requires ordered == nonPages + pageIds && WellListed(allObjs, ordered)
    ensures TreeListsBelow(WriteMerged(allObjs, ordered, pageIds), |pageIds|)
  {
    TreeListsPages(allObjs, nonPages, pageIds, ObjectWriter(), PageWriter(|ordered| + 1));
    WrittenObjectsTree(allObjs, ordered, pageIds, |nonPages|);
  }

  /** Table entry i (object i + 1) holds the offset at which the record
      `i+1 0 obj` begins. */
  ghost predicate EntryFindsObject(w: Written, i: nat)
  {
    i < |w.offsets| && LitAt(w.file, w.offsets[i], NatToString(i + 1) + " 0 obj\n")
  }

  /** For any writers that keep numbers: with the non-pages followed by the
      pages, no number listed twice and every listed object defined, table
      entry i (object i + 1) holds the offset where the record `i+1 0 obj`
      begins. */
  lemma AssembledWellNumbered(allObjs: ObjMap, nonPages: seq<nat>, pageIds: seq<nat>,
                              render: Render, renderPage: Render, i: nat)
    requires KeepsNumber(render) && KeepsNumber(renderPage)
    requires Distinct(nonPages + pageIds)
    requires forall k :: k in nonPages + pageIds ==> k in allObjs
    requires i < |nonPages + pageIds| + 2
    ensures var pagesId := |nonPages + pageIds| + 1;
            var w := Assemble(MergedObjects(allObjs, nonPages + pageIds, pageIds, pagesId, render, renderPage), pagesId);
            |w.objects| == |nonPages + pageIds| + 2 && EntryFindsObject(w, i)
  {
    var pagesId := |nonPages + pageIds| + 1;
    WellNumbered(allObjs, nonPages, pageIds, render, renderPage);
    var objects := MergedObjects(allObjs, nonPages + pageIds, pageIds, pagesId, render, renderPage);
    var w := Assemble(objects, pagesId);
    assert objects[i].id == i + 1 && Headed(objects[i]);
    LitNested(w.file, w.offsets[i], objects[i].text, NatToString(i + 1) + " 0 obj\n");
  }

  /** No number is listed twice and every listed number is defined. */
  ghost predicate WellListed(allObjs: ObjMap, ordered: seq<nat>)
  {
    Distinct(ordered) && forall k :: k in ordered ==> k in allObjs
  }

  /** The merged file's table is right: entry i (object i + 1) holds the
      offset where the record `i+1 0 obj` begins, when the non-pages come
      before the pages, no number is listed twice and every listed object is
      defined. */
  lemma WrittenWellNumbered(allObjs: ObjMap, nonPages: seq<nat>, pageIds: seq<nat>, i: nat)
    requires WellListed(allObjs, nonPages + pageIds)
    ensures var w := WriteMerged(allObjs, nonPages + pageIds, pageIds);
            |w.objects| == |nonPages + pageIds| + 2 && (i < |w.objects| ==> EntryFindsObject(w, i))
  {
    var pagesId := |nonPages + pageIds| + 1;
    WritersKeepNumbers(pagesId);
    AssembledWellNumbered(allObjs, nonPages, pageIds, ObjectWriter(), PageWriter(pagesId), 0);
    if i < |nonPages + pageIds| + 2 {
      AssembledWellNumbered(allObjs, nonPages, pageIds, ObjectWriter(), PageWriter(pagesId), i);
    }
  }
}
