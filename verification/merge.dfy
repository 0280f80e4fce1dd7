/** `main` of the merger (merge_simple_pdfs.cpp:235-337): read and parse both
    files, keep the pages of each and what they depend on, move the second
    file's object numbers up by one million, and write everything as one file
    whose page tree holds the first file's pages and then the second's. */
module Merge {
  import opened Util
  import opened Search
  import opened Objects
  import opened Pages
  import opened Refs
  import opened Deps
  import opened Layout
  import opened Writer

  /** How far the second file's object numbers are moved. */
  const Shift: nat := 1000000

  /** The end of a run: one of the four failures, or the merged file. */
  datatype Outcome = ReadFailed | ParseFailed | NoPages | WriteFailed | Merged(file: string)

  /** The process exit status of each outcome. */
  function ExitCode(o: Outcome): nat
  {
    match o
    case ReadFailed => 2
    case ParseFailed => 3
    case NoPages => 4
    case WriteFailed => 5
    case Merged(_) => 0
  }

  /** The numbers of `s`, each moved up by `Shift`. */
  function Shifted(s: seq<nat>): (r: seq<nat>)
    ensures |r| == |s| && forall i :: 0 <= i < |s| ==> r[i] == s[i] + Shift
  {
    seq(|s|, i requires 0 <= i < |s| => s[i] + Shift)
  }

  /** k is a number of `keep` moved up by `Shift`. */
  predicate MovedIn(k: nat, keep: set<nat>)
  {
    k >= Shift && k - Shift in keep
  }

  /** The numbers of `keep`, each moved up by `Shift`. */
  function Moved(keep: set<nat>): (r: set<nat>)
    ensures forall k :: k in r <==> MovedIn(k, keep)
    ensures forall j :: j in keep ==> j + Shift in r
  {
    var r := set j | j in keep :: j + Shift;
    assert forall j :: j in keep ==> j + Shift in r;
    forall k: nat | MovedIn(k, keep) ensures k in r {
      assert (k - Shift) + Shift == k;
    }
    r
  }

  /** The objects both files contribute, by their number in the merged file:
      those `keep1` names from the first file under their own numbers, those
      `keep2` names from the second file moved up by `Shift`. The second
      file's objects are assigned last, so on a clash they win. */
  function Gathered(objs1: ObjMap, keep1: set<nat>, objs2: ObjMap, keep2: set<nat>): (r: ObjMap)
    ensures forall k :: k in r <==> k in keep1 || MovedIn(k, keep2)
    ensures forall j :: j in keep2 ==> j + Shift in r && r[j + Shift] == Get(objs2, j)
    ensures forall k :: k in keep1 && !MovedIn(k, keep2) ==> r[k] == Get(objs1, k)
  {
    var moved := Moved(keep2);
    var r := map k: nat | k in keep1 + moved :: if MovedIn(k, keep2) then Get(objs2, k - Shift) else Get(objs1, k);
    forall j | j in keep2 ensures j + Shift in r && r[j + Shift] == Get(objs2, j) {
      assert MovedIn(j + Shift, keep2);
    }
    r
  }

  /** Each number the second file defines, moved up by `Shift`. */
  function ShiftMap(objs2: ObjMap): (r: IdMap)
    ensures forall k :: k in r <==> k in objs2
    ensures forall k :: k in r ==> r[k] == k + Shift
  {
    map k | k in objs2 :: k + Shift
  }

  /** A way of rewriting the references in a body through an id map. */
  type Rewrite = (string, IdMap) -> string

  /** The rewrite of references in every object numbered `Shift` or more,
      through `ShiftMap(objs2)`; the objects below `Shift` are untouched. The
      merge uses `Remap`, under which a reference to a number the second file
      defines is moved up by `Shift` and any other reference is left alone. */
  function ShiftReferences(combined: ObjMap, objs2: ObjMap, rewrite: Rewrite): (r: ObjMap)
    ensures r.Keys == combined.Keys
    ensures forall k :: k in r && k < Shift ==> r[k] == combined[k]
    ensures forall k :: k in r && k >= Shift ==>
              r[k].id == combined[k].id && r[k].body == rewrite(combined[k].body, ShiftMap(objs2))
  {
    map k | k in combined ::
      if k < Shift then combined[k] else combined[k].(body := rewrite(combined[k].body, ShiftMap(objs2)))
  }

  /** The merged page list: both files' pages, the second's moved, sorted and
      without repeats. */
  function MergedPageIds(pages1: seq<nat>, pages2: seq<nat>): (r: seq<nat>)
    ensures StrictlyAscending(r)
    ensures forall x :: x in r <==> x in pages1 || MovedIn(x, set p | p in pages2)
  {
    SortedSeqOf((set p | p in pages1) + Moved(set p | p in pages2))
  }

  lemma ShiftedMembers(pages: seq<nat>)
    ensures forall x: nat :: x in Shifted(pages) <==> MovedIn(x, set p | p in pages)
  {
    var sh := Shifted(pages);
    forall x: nat ensures x in sh <==> MovedIn(x, set p | p in pages) {
      if x in sh {
        var i :| 0 <= i < |sh| && sh[i] == x;
        assert x - Shift == pages[i];
      }
      if MovedIn(x, set p | p in pages) {
        var i :| 0 <= i < |pages| && pages[i] == x - Shift;
        assert sh[i] == x;
      }
    }
  }

  /** When the first file's pages are numbered below `Shift`, sorting keeps
      the first file's pages first, both in their own order, and no page
      of either file is lost (the count `MergedTree` puts in `/Count`). */
  lemma PageOrderKept(pages1: seq<nat>, pages2: seq<nat>)
    requires StrictlyAscending(pages1) && StrictlyAscending(pages2)
    requires forall i :: 0 <= i < |pages1| ==> pages1[i] < Shift
    ensures MergedPageIds(pages1, pages2) == pages1 + Shifted(pages2)
    ensures |MergedPageIds(pages1, pages2)| == |pages1| + |pages2|
  {
    var both := pages1 + Shifted(pages2);
    var sh := Shifted(pages2);
    assert StrictlyAscending(both) by {
      forall i, j | 0 <= i < j < |both| ensures both[i] < both[j] {
        if j < |pages1| {
        } else if i >= |pages1| {
          assert both[i] == sh[i - |pages1|] && both[j] == sh[j - |pages1|];
        } else {
          assert both[j] == sh[j - |pages1|];
        }
      }
    }
    ShiftedMembers(pages2);
    assert forall x :: x in both <==> x in pages1 || x in sh;
    AscendingUnique(both, MergedPageIds(pages1, pages2));
  }

  /** The objects written before the pages: every merged object that is not
      a page, by ascending number. */
  function NonPageOrder(combined: ObjMap, pageIds: seq<nat>): (r: seq<nat>)
    ensures StrictlyAscending(r)
    ensures forall k :: k in r <==> k in combined && k !in pageIds
  {
    SortedSeqOf(combined.Keys - (set p | p in pageIds))
  }

  /** What `main` hands to the writer: the merged objects with the second
      file's references moved, the page list, and the write order (the
      non-pages, then the pages). */
  datatype Plan = Plan(combined: ObjMap, pageIds: seq<nat>, ordered: seq<nat>)

  /** The plan from each file's objects, pages and dependencies: gathered
      with the second file moved, references in the moved objects rewritten,
      pages listed in merged order. */
  function Combine(objs1: ObjMap, pages1: seq<nat>, deps1: set<nat>,
                   objs2: ObjMap, pages2: seq<nat>, deps2: set<nat>, rewrite: Rewrite): (p: Plan)
    ensures StrictlyAscending(p.pageIds)
    ensures p.ordered == NonPageOrder(p.combined, p.pageIds) + p.pageIds
  {
    var keep1 := (set k | k in pages1) + deps1;
    var keep2 := (set k | k in pages2) + deps2;
    var combined := ShiftReferences(Gathered(objs1, keep1, objs2, keep2), objs2, rewrite);
    var pageIds := MergedPageIds(pages1, pages2);
    Plan(combined, pageIds, NonPageOrder(combined, pageIds) + pageIds)
  }

  /** Every merged page is a merged object. */
  lemma PagesGathered(objs1: ObjMap, pages1: seq<nat>, deps1: set<nat>,
                      objs2: ObjMap, pages2: seq<nat>, deps2: set<nat>, rewrite: Rewrite)
    ensures var p := Combine(objs1, pages1, deps1, objs2, pages2, deps2, rewrite);
            forall k :: k in p.pageIds ==> k in p.combined
  {
    var keep1 := (set k | k in pages1) + deps1;
    var keep2 := (set k | k in pages2) + deps2;
    var g := Gathered(objs1, keep1, objs2, keep2);
    var p := Combine(objs1, pages1, deps1, objs2, pages2, deps2, rewrite);
    assert p.combined.Keys == g.Keys;
    forall k | k in p.pageIds ensures k in g {
      if k !in pages1 {
        assert MovedIn(k, set q | q in pages2);
        assert k - Shift in keep2;
      }
    }
  }

  lemma AscendingDistinct(s: seq<nat>)
    requires StrictlyAscending(s)
    ensures Distinct(s)
  {
  }

  lemma DistinctConcat(a: seq<nat>, b: seq<nat>)
    requires Distinct(a) && Distinct(b)
    requires forall k :: k in a ==> k !in b
    ensures Distinct(a + b)
  {
    forall i, j | 0 <= i < j < |a + b| ensures (a + b)[i] != (a + b)[j] {
      if i < |a| && j >= |a| {
        assert (a + b)[i] in a && (a + b)[j] == b[j - |a|];
      } else if i >= |a| {
        assert (a + b)[i] == b[i - |a|] && (a + b)[j] == b[j - |a|];
      }
    }
  }

  /** The plan meets the writer's conditions: no number is written twice and
      every written number is a merged object. */
  lemma PlanWellFormed(objs1: ObjMap, pages1: seq<nat>, deps1: set<nat>,
                       objs2: ObjMap, pages2: seq<nat>, deps2: set<nat>, rewrite: Rewrite)
    ensures var p := Combine(objs1, pages1, deps1, objs2, pages2, deps2, rewrite);
            var nonPages := NonPageOrder(p.combined, p.pageIds);
            && Distinct(nonPages + p.pageIds)
            && forall k :: k in nonPages + p.pageIds ==> k in p.combined
  {
    var p := Combine(objs1, pages1, deps1, objs2, pages2, deps2, rewrite);
    var nonPages := NonPageOrder(p.combined, p.pageIds);
    PagesGathered(objs1, pages1, deps1, objs2, pages2, deps2, rewrite);
    AscendingDistinct(nonPages);
    AscendingDistinct(p.pageIds);
    DistinctConcat(nonPages, p.pageIds);
  }

  /** The rewrite the merge uses. */
  function RemapRewrite(): Rewrite
  {
    (b, m) => Remap(b, m)
  }

  /** A lone reference `n 0 R` in a moved object, to a number the second
      file defines, becomes `n+1000000 0 R`. */
  lemma ShiftLoneRef(objs2: ObjMap, n: nat)
    requires n in objs2
    ensures Remap(NatToString(n) + " 0 R", ShiftMap(objs2)) == NatToString(n + Shift) + " 0 R"
  {
    RemapLoneTo(n, ShiftMap(objs2), n + Shift);
  }

  /** A lone reference to a number the second file does not define is kept
      as written. */
  lemma KeepLoneRef(objs2: ObjMap, n: nat)
    requires n !in objs2
    ensures Remap(NatToString(n) + " 0 R", ShiftMap(objs2)) == NatToString(n) + " 0 R"
  {
    RemapLoneKept(n, ShiftMap(objs2));
  }

  /** The plan for two parsed files: pages by `findPageObjects`,
      dependencies by `collectNonPageDependencies`, references rewritten by
      `Remap`. */
  function MergePlan(objs1: ObjMap, objs2: ObjMap): (p: Plan)
  {
    var pages1 := FindPageObjects(objs1);
    var pages2 := FindPageObjects(objs2);
    Combine(objs1, pages1, Dependencies(objs1, pages1), objs2, pages2, Dependencies(objs2, pages2), RemapRewrite())
  }

  /** The merged file of two parsed files. */
  function MergeDocs(objs1: ObjMap, objs2: ObjMap): Written
  {
    var p := MergePlan(objs1, objs2);
    WriteMerged(p.combined, p.ordered, p.pageIds)
  }

  /** The plan of two parsed files meets the writer's conditions. */
  lemma MergePlanWellFormed(objs1: ObjMap, objs2: ObjMap)
    ensures var p := MergePlan(objs1, objs2);
            var nonPages := NonPageOrder(p.combined, p.pageIds);
            p.ordered == nonPages + p.pageIds && WellListed(p.combined, nonPages + p.pageIds)
  {
    var pages1 := FindPageObjects(objs1);
    var pages2 := FindPageObjects(objs2);
    PlanWellFormed(objs1, pages1, Dependencies(objs1, pages1), objs2, pages2, Dependencies(objs2, pages2), RemapRewrite());
  }

  /** For any two files, entry i of the merged file's table (object i + 1)
      holds the offset at which the record `i+1 0 obj` begins. */
  lemma DocsWellNumbered(objs1: ObjMap, objs2: ObjMap, i: nat)
    ensures var w := MergeDocs(objs1, objs2); i < |w.objects| ==> EntryFindsObject(w, i)
  {
    var p := MergePlan(objs1, objs2);
    MergePlanWellFormed(objs1, objs2);
    WrittenWellNumbered(p.combined, NonPageOrder(p.combined, p.pageIds), p.pageIds, i);
  }

  /** With the first file's pages numbered below `Shift`, the merged page
      list is the first file's pages and then the second's, moved. */
  lemma MergedPagesInOrder(objs1: ObjMap, objs2: ObjMap)
    requires forall x :: x in FindPageObjects(objs1) ==> x < Shift
    ensures MergePlan(objs1, objs2).pageIds == FindPageObjects(objs1) + Shifted(FindPageObjects(objs2))
  {
    var pages1 := FindPageObjects(objs1);
    assert forall i :: 0 <= i < |pages1| ==> pages1[i] in pages1;
    PageOrderKept(pages1, FindPageObjects(objs2));
  }

  /** With the first file's pages numbered below `Shift`, the merged file's
      page tree lists all pages of both files under the numbers just below
      its own, and its `/Count` is the sum of both files' page counts. The
      pages in the list are the first file's and then the second's
      (`MergedPagesInOrder`). */
  lemma MergedTree(objs1: ObjMap, objs2: ObjMap)
    requires forall x :: x in FindPageObjects(objs1) ==> x < Shift
    ensures TreeListsBelow(MergeDocs(objs1, objs2), |FindPageObjects(objs1)| + |FindPageObjects(objs2)|)
  {
    var p := MergePlan(objs1, objs2);
    MergedPagesInOrder(objs1, objs2);
    assert |p.pageIds| == |FindPageObjects(objs1)| + |FindPageObjects(objs2)|;
    MergePlanWellFormed(objs1, objs2);
    WrittenTree(p.combined, p.ordered, NonPageOrder(p.combined, p.pageIds), p.pageIds);
  }

  /** The outcome of a run from what each stage found: whether both files
      could be read (were non-empty), whether both parsed to at least one
      object, whether either has a page, whether the output can be opened,
      and the merged file. Each failure ends the run at its stage. */
  function Conclude(read: bool, parsed: bool, paged: bool, writable: bool, file: string): (o: Outcome)
    ensures o.ReadFailed? <==> !read
    ensures o.ParseFailed? <==> read && !parsed
    ensures o.NoPages? <==> read && parsed && !paged
    ensures o.WriteFailed? <==> read && parsed && paged && !writable
    ensures o.Merged? <==> read && parsed && paged && writable
    ensures o.Merged? ==> o.file == file
  {
    if !read then ReadFailed
    else if !parsed then ParseFailed
    else if !paged then NoPages
    else if !writable then WriteFailed
    else Merged(file)
  }

  /** `main` from the two files' contents on: an unreadable or empty file
      (`readFileAll` yields "" for both) ends with exit 2, a file without a
      closed object with exit 3, two files without a page with exit 4, an
      output that cannot be opened with exit 5; otherwise the merged file is
      written and the exit status is 0. */
  function Run(d1: string, d2: string, writable: bool): Outcome
  {
    var objs1 := ParseObjects(d1);
    var objs2 := ParseObjects(d2);
    Conclude(|d1| > 0 && |d2| > 0,
             |objs1| > 0 && |objs2| > 0,
             |FindPageObjects(objs1)| > 0 || |FindPageObjects(objs2)| > 0,
             writable,
             MergeDocs(objs1, objs2).file)
  }

  /** Some object header in the file that is not inside a longer digit run
      is closed by a later `endobj`. */
  ghost predicate HasObject(data: string)
  {
    exists m: Match, k: nat :: OpenedAt(data, m, k)
  }

  /** Some object the file defines declares a page. */
  ghost predicate HasPage(data: string)
  {
    exists k :: k in ParseObjects(data) && IsPageBody(ParseObjects(data)[k].body)
  }

  /** `parseObjects` finds an object exactly when some header is closed. */
  lemma ParsedSomething(data: string)
    ensures |ParseObjects(data)| > 0 <==> HasObject(data)
  {
    var objs := ParseObjects(data);
    if |objs| > 0 {
      assert objs.Keys != {};
      var k :| k in objs;
      ParseObjectsExactly(data, k);
    }
    if HasObject(data) {
      var m: Match, k: nat :| OpenedAt(data, m, k);
      ParseObjectsExactly(data, k);
      assert k in objs.Keys;
    }
  }

  /** `findPageObjects` finds a page exactly when some parsed object declares one. */
  lemma PagedSomething(data: string)
    ensures |FindPageObjects(ParseObjects(data))| > 0 <==> HasPage(data)
  {
    var objs := ParseObjects(data);
    var pages := FindPageObjects(objs);
    if |pages| > 0 {
      PagesOfParsed(objs, pages[0]);
    }
    if HasPage(data) {
      var k :| k in objs && IsPageBody(objs[k].body);
      PagesOfParsed(objs, k);
    }
  }

  /** The exit status of `main` from the two files' contents: 2 when a file
      is empty or unreadable; 3 when both were read but one holds no closed
      object header; 4 when both parsed but no object of either declares a
      page; 5 when the output cannot be opened; 0 otherwise (what is then
      written is stated by `MergedWellNumbered`). */
  lemma RunExitCode(d1: string, d2: string, writable: bool)
    ensures var code := ExitCode(Run(d1, d2, writable));
            var read := |d1| > 0 && |d2| > 0;
            var parsed := HasObject(d1) && HasObject(d2);
            var paged := HasPage(d1) || HasPage(d2);
            && (code == 2 <==> !read)
            && (code == 3 <==> read && !parsed)
            && (code == 4 <==> read && parsed && !paged)
            && (code == 5 <==> read && parsed && paged && !writable)
            && (code == 0 <==> read && parsed && paged && writable)
  {
    RunStages(d1, d2, writable);
  }

  /** The stages of a run, each read off the files' contents. */
  lemma RunStages(d1: string, d2: string, writable: bool)
    ensures Run(d1, d2, writable)
            == Conclude(|d1| > 0 && |d2| > 0, HasObject(d1) && HasObject(d2), HasPage(d1) || HasPage(d2),
                        writable, MergeDocs(ParseObjects(d1), ParseObjects(d2)).file)
  {
    ParsedSomething(d1);
    ParsedSomething(d2);
    PagedSomething(d1);
    PagedSomething(d2);
  }

  /** Whatever the two files hold, when the merge writes a file it is the
      merged file of their objects, and entry i of its table (object i + 1)
      holds the offset at which the record `i+1 0 obj` begins. */
  lemma MergedWellNumbered(d1: string, d2: string, i: nat)
    ensures Run(d1, d2, true).Merged? ==>
              var w := MergeDocs(ParseObjects(d1), ParseObjects(d2));
              Run(d1, d2, true).file == w.file && (i < |w.objects| ==> EntryFindsObject(w, i))
  {
    DocsWellNumbered(ParseObjects(d1), ParseObjects(d2), i);
  }
}
