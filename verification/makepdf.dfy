/** The text-to-PDF editor (make_pdf.cpp): the lines typed in are wrapped to
    a fixed number of characters (`wrapLine`), cut into pages of 40 lines,
    and written as one content stream per page with Helvetica as the only
    font. The catalog is object 1, the page tree 2, the font 3, and page k
    and its content take 4 + 2k and 5 + 2k. */
module MakePdf {
  import opened Util
  import opened Layout

  // ---------------------------------------------------------------------------
  // Fixed-width pieces
  // ---------------------------------------------------------------------------

  /** The pieces the loop `for (start = 0; start < |s|; start += w)
      take(s.substr(start, w))` collects: s cut every w elements, the last
      piece holding what is left. */
  function Pieces<T>(s: seq<T>, w: nat): seq<seq<T>>
    requires w > 0
    decreases |s|
  {
    if |s| == 0 then []
    else if |s| <= w then [s]
    else [s[..w]] + Pieces(s[w..], w)
  }

  /** Joining the pieces gives the sequence back. */
  lemma {:induction false} PiecesJoin<T>(s: seq<T>, w: nat)
    requires w > 0
    ensures Concat(Pieces(s, w)) == s
    decreases |s|
  {
    if |s| > w {
      PiecesJoin(s[w..], w);
      assert ([s[..w]] + Pieces(s[w..], w))[1..] == Pieces(s[w..], w);
      assert s[..w] + s[w..] == s;
    } else if |s| > 0 {
      assert [s][1..] == [];
    }
  }

  /** Every piece is non-empty and at most w long, and all but the last are
      exactly w long. */
  predicate Widths<T>(r: seq<seq<T>>, w: nat)
  {
    && (forall k :: 0 <= k < |r| ==> 0 < |r[k]| <= w)
    && (forall k :: 0 <= k < |r| - 1 ==> |r[k]| == w)
  }

  lemma {:induction false} PiecesWidth<T>(s: seq<T>, w: nat)
    requires w > 0
    ensures Widths(Pieces(s, w), w)
    decreases |s|
  {
    if |s| > w {
      var r := Pieces(s, w);
      var rest := Pieces(s[w..], w);
      PiecesWidth(s[w..], w);
      assert r == [s[..w]] + rest;
      forall k | 0 <= k < |r| ensures 0 < |r[k]| <= w && (k < |r| - 1 ==> |r[k]| == w) {
        if k > 0 {
          assert r[k] == rest[k - 1];
        }
      }
    } else if |s| > 0 {
      assert Pieces(s, w) == [s];
    }
  }

  /** w·k, as k steps of w. */
  function Offset(w: nat, k: nat): nat
  {
    if k == 0 then 0 else Offset(w, k - 1) + w
  }

  lemma {:induction false} OffsetIsProduct(w: nat, k: nat)
    ensures Offset(w, k) == w * k
  {
    if k > 0 {
      OffsetIsProduct(w, k - 1);
      assert w * k == w * (k - 1) + w;
    }
  }

  lemma OffsetShift(w: nat, k: nat)
    ensures Offset(w, k + 1) == Offset(w, k) + w
  {
  }

  /** The number of pieces is ⌈|s| / w⌉: none for an empty sequence, and
      otherwise the least n with |s| <= w·n. */
  lemma {:induction false} PiecesCount<T>(s: seq<T>, w: nat)
    requires w > 0
    ensures |Pieces(s, w)| == 0 <==> |s| == 0
    ensures |Pieces(s, w)| > 0 ==> Offset(w, |Pieces(s, w)| - 1) < |s| <= Offset(w, |Pieces(s, w)|)
    decreases |s|
  {
    if |s| > w {
      PiecesCount(s[w..], w);
      OffsetShift(w, |Pieces(s[w..], w)|);
      OffsetShift(w, |Pieces(s[w..], w)| - 1);
    }
  }

  lemma SliceOfSuffix<T>(s: seq<T>, w: nat, a: nat, b: nat)
    requires w <= |s| && a <= b <= |s| - w
    ensures s[w..][a..b] == s[a + w..b + w]
  {
  }

  /** Piece k is `s[w·k .. min(w·k + w, |s|)]`. */
  lemma {:induction false} PiecesAt<T>(s: seq<T>, w: nat, k: nat)
    requires w > 0 && k < |Pieces(s, w)|
    ensures Offset(w, k) <= |s|
    ensures Pieces(s, w)[k] == s[Offset(w, k) .. if Offset(w, k) + w <= |s| then Offset(w, k) + w else |s|]
    decreases |s|
  {
    if k > 0 {
      var t := s[w..];
      assert |s| > w;
      PiecesAt(t, w, k - 1);
      var a' := Offset(w, k - 1);
      var b' := if a' + w <= |t| then a' + w else |t|;
      calc {
        Pieces(s, w)[k];
        Pieces(t, w)[k - 1];
        t[a'..b'];
        { SliceOfSuffix(s, w, a', b'); }
        s[a' + w..b' + w];
      }
    }
  }

  /** One step of the cut: the first piece is the first w elements, or all
      of them when fewer are left, and the rest is cut the same way. */
  lemma PiecesStep<T>(s: seq<T>, w: nat)
    requires w > 0 && |s| > 0
    ensures var take := if w <= |s| then w else |s|;
            Pieces(s, w) == [s[..take]] + Pieces(s[take..], w)
  {
    if |s| <= w {
      assert s[..|s|] == s && s[|s|..] == [];
    }
  }

  /** What is left of s from position `start`, which may be past the end. */
  function From<T>(s: seq<T>, start: nat): (r: seq<T>)
    ensures start <= |s| ==> r == s[start..]
    ensures start >= |s| ==> r == []
  {
    if start <= |s| then s[start..] else []
  }

  /** What is left of the line from `start` is one piece of at most
      `maxChars` characters followed by what is left from `start + maxChars`. */
  lemma WrapStep(line: string, maxChars: nat, start: nat)
    requires maxChars > 0 && start < |line|
    ensures var take := if start + maxChars <= |line| then maxChars else |line| - start;
            Pieces(From(line, start), maxChars)
              == [line[start..start + take]] + Pieces(From(line, start + maxChars), maxChars)
  {
    var take := if start + maxChars <= |line| then maxChars else |line| - start;
    PiecesStep(line[start..], maxChars);
    assert line[start..][..take] == line[start..start + take];
    assert line[start..][take..] == From(line, start + maxChars);
  }

  lemma AppendOne<T>(a: seq<T>, x: T, b: seq<T>)
    ensures (a + [x]) + b == a + ([x] + b)
  {
  }

  /** `wrapLine` with `maxChars` characters per line: `substr(start,
      maxChars)` for start = 0, maxChars, 2·maxChars, … while start is inside
      the line. The result is the line cut every `maxChars` characters. */
  method WrapLine(line: string, maxChars: nat) returns (result: seq<string>)
    requires maxChars > 0
    ensures result == Pieces(line, maxChars)
  {
    result := [];
    var start: nat := 0;
    ghost var rest := Pieces(line, maxChars);
    while start < |line|
      invariant rest == Pieces(From(line, start), maxChars)
      invariant result + rest == Pieces(line, maxChars)
      decreases |line| - start
    {
      // substr clamps the count to what is left of the line.
      var take := if start + maxChars <= |line| then maxChars else |line| - start;
      var chunk := line[start..start + take];
      WrapStep(line, maxChars, start);
      AppendOne(result, chunk, rest[1..]);
      result := result + [chunk];
      start := start + maxChars;
      rest := rest[1..];
    }
    assert rest == [];
    assert result + [] == result;
  }

  // ---------------------------------------------------------------------------
  // Pages and their content streams
  // ---------------------------------------------------------------------------

  const LinesPerPage: nat := 40
  const YStart: int := 800

  /** What the editor asks for: font size, line spacing, page numbers, and
      the language (which decides how the page number is written). */
  datatype Settings = Settings(fontSize: int, lineSpacing: int, showPageNum: bool, chinese: bool)

  /** The vertical distance between lines. */
  function YStep(s: Settings): int
  {
    s.fontSize + s.lineSpacing
  }

  /** The paging loop: 40 lines to a page, the last page holding the rest. */
  function Paginate(lines: seq<string>): seq<seq<string>>
  {
    Pieces(lines, LinesPerPage)
  }

  /** There are ⌈|lines| / 40⌉ pages, page k holds `lines[40k .. min(40k + 40, n))`
      in order, and reading the pages one after another gives the lines back. */
  lemma PagesHoldLines(lines: seq<string>, k: nat)
    ensures Concat(Paginate(lines)) == lines
    ensures |Paginate(lines)| == 0 <==> |lines| == 0
    ensures |Paginate(lines)| > 0 ==> 40 * (|Paginate(lines)| - 1) < |lines| <= 40 * |Paginate(lines)|
    ensures k < |Paginate(lines)| ==>
              40 * k <= |lines| && Paginate(lines)[k] == lines[40 * k .. if 40 * k + 40 <= |lines| then 40 * k + 40 else |lines|]
  {
    var n := |Paginate(lines)|;
    PiecesJoin(lines, LinesPerPage);
    PiecesCount(lines, LinesPerPage);
    if n > 0 {
      OffsetIsProduct(40, n);
      OffsetIsProduct(40, n - 1);
    }
    if k < n {
      PiecesAt(lines, LinesPerPage, k);
      OffsetIsProduct(40, k);
    }
  }

  /** One line shown at height y: `BT /F1 size Tf 50 y Td (line) Tj ET`. */
  function ShowLine(fontSize: int, y: int, line: string): string
  {
    "BT /F1 " + IntToString(fontSize) + " Tf 50 " + IntToString(y) + " Td (" + line + ") Tj ET\n"
  }

  /** The height after going down j steps of yStep from y, one step at a time. */
  function Height(y: int, yStep: int, j: nat): int
    decreases j
  {
    if j == 0 then y else Height(y - yStep, yStep, j - 1)
  }

  /** j steps down from y is y - j·yStep. */
  lemma {:induction false} HeightIsProduct(y: int, yStep: int, j: nat)
    ensures Height(y, yStep, j) == y - j * yStep
    decreases j
  {
    if j > 0 {
      HeightIsProduct(y - yStep, yStep, j - 1);
      assert (j - 1) * yStep == j * yStep - yStep;
    }
  }

  /** The inner loop over a page's lines, starting at height y and going down
      by `yStep` after each line: line j is shown j steps down. */
  function {:induction false} ShowLines(page: seq<string>, fontSize: int, y: int, yStep: int): (r: seq<string>)
    ensures |r| == |page|
    ensures forall j :: 0 <= j < |page| ==> r[j] == ShowLine(fontSize, Height(y, yStep, j), page[j])
    decreases |page|
  {
    if |page| == 0 then []
    else
      var rest := ShowLines(page[1..], fontSize, y - yStep, yStep);
      var r := [ShowLine(fontSize, y, page[0])] + rest;
      forall j | 1 <= j < |page|
        ensures r[j] == ShowLine(fontSize, Height(y, yStep, j), page[j])
      {
        assert r[j] == rest[j - 1] && page[1..][j - 1] == page[j];
      }
      r
  }

  /** Line j of the loop is shown at y - j·yStep. */
  lemma ShowLinesAt(page: seq<string>, fontSize: int, y: int, yStep: int, j: nat)
    requires j < |page|
    ensures ShowLines(page, fontSize, y, yStep)[j] == ShowLine(fontSize, y - j * yStep, page[j])
  {
    HeightIsProduct(y, yStep, j);
  }

  /** 第 and 页 in UTF-8, as the source file spells them. */
  const Di: string := "\U{E7}\U{AC}\U{AC}"
  const Ye: string := "\U{E9}\U{A1}\U{B5}"

  /** The page number at the foot of the page, `第n页` in Chinese. */
  function Footer(fontSize: int, pageIndex: nat, chinese: bool): string
  {
    "BT /F1 " + IntToString(fontSize) + " Tf 500 20 Td ("
    + (if chinese then Di else "") + NatToString(pageIndex) + (if chinese then Ye else "")
    + ") Tj ET\n"
  }

  /** What follows the lines of page k: its number when numbers are shown. */
  function PageEnd(k: nat, s: Settings): string
  {
    if s.showPageNum then Footer(s.fontSize, k + 1, s.chinese) else ""
  }

  /** The content of page k (counted from 0). */
  function PageText(page: seq<string>, k: nat, s: Settings): string
  {
    Concat(ShowLines(page, s.fontSize, YStart, YStep(s))) + PageEnd(k, s)
  }

  /** Line j of a page is shown at height 800 - j·yStep, after the lines
      before it. */
  lemma PageShowsLines(page: seq<string>, k: nat, s: Settings, j: nat)
    requires j < |page|
    ensures var ops := ShowLines(page, s.fontSize, YStart, YStep(s));
            LitAt(PageText(page, k, s), |Concat(ops[..j])|, ShowLine(s.fontSize, YStart - j * YStep(s), page[j]))
  {
    var ops := ShowLines(page, s.fontSize, YStart, YStep(s));
    ShowLinesAt(page, s.fontSize, YStart, YStep(s), j);
    PieceBeforeTail(ops, PageEnd(k, s), j);
  }

  /** The page number k + 1 follows the lines exactly when page numbers are
      asked for; otherwise the text ends with the last line. */
  lemma PageFooter(page: seq<string>, k: nat, s: Settings)
    ensures var body := Concat(ShowLines(page, s.fontSize, YStart, YStep(s)));
            && LitAt(PageText(page, k, s), 0, body)
            && (s.showPageNum ==> LitAt(PageText(page, k, s), |body|, Footer(s.fontSize, k + 1, s.chinese)))
            && (!s.showPageNum ==> |PageText(page, k, s)| == |body|)
  {
    var body := Concat(ShowLines(page, s.fontSize, YStart, YStep(s)));
    LitJoin(body, PageEnd(k, s));
  }

  /** The content of every page, in order. */
  function PageTexts(lines: seq<string>, s: Settings): (r: seq<string>)
    ensures |r| == |Paginate(lines)|
  {
    var pages := Paginate(lines);
    seq(|pages|, k requires 0 <= k < |pages| => PageText(pages[k], k, s))
  }

  // ---------------------------------------------------------------------------
  // Objects
  // ---------------------------------------------------------------------------

  const Header: string := "%PDF-1.4\n"
  const CatalogObj: nat := 1
  const PagesObj: nat := 2
  const FontObj: nat := 3

  const FontDict: string := "<< /Type /Font /Subtype /Type1 /BaseFont /Helvetica >>"

  /** A page: parent 2, an A4 media box, its content stream, font 3. */
  function PageDict(contentObj: nat): string
  {
    "<< /Type /Page /Parent " + NatToString(PagesObj) + " 0 R "
    + "/MediaBox [0 0 595 842] "
    + "/Contents " + NatToString(contentObj) + " 0 R "
    + "/Resources << /Font << /F1 " + NatToString(FontObj) + " 0 R >> >> >>"
  }

  /** A content stream object's body; `/Length` is the text's length. */
  function ContentBody(text: string): string
  {
    "<< /Length " + NatToString(|text|) + " >>\n" + "stream\n" + text + "endstream"
  }

  /** The objects make_pdf writes. */
  datatype Obj =
    | Font
    | Page(id: nat, contentObj: nat)
    | Content(id: nat, text: string)
    | Tree(kids: seq<nat>, count: nat)
    | Catalog

  function Id(o: Obj): nat
  {
    match o
    case Font => FontObj
    case Page(id, _) => id
    case Content(id, _) => id
    case Tree(_, _) => PagesObj
    case Catalog => CatalogObj
  }

  /** The record written for an object; it begins with the object's header. */
  function Text(o: Obj): (r: string)
    ensures LitAt(r, 0, NatToString(Id(o)) + " 0 obj\n")
  {
    match o
    case Font => Record(FontObj, FontDict)
    case Page(id, contentObj) => Record(id, PageDict(contentObj))
    case Content(id, text) => Record(id, ContentBody(text))
    case Tree(kids, count) => Record(PagesObj, PagesDict(kids, count))
    case Catalog => Record(CatalogObj, CatalogDict(PagesObj))
  }

  function Texts(objs: seq<Obj>): (r: seq<string>)
    ensures |r| == |objs| && forall p :: 0 <= p < |objs| ==> r[p] == Text(objs[p])
  {
    seq(|objs|, p requires 0 <= p < |objs| => Text(objs[p]))
  }

  /** What the page loop makes: the objects in write order, the page object
      numbers, and the next free number. */
  datatype Built = Built(objs: seq<Obj>, pageObjs: seq<nat>, next: nat)

  /** The page loop from object number `next`: each page takes the next free
      number and its content the one after. */
  function {:induction false} PageLoop(texts: seq<string>, next: nat): (b: Built)
    ensures b.next == next + 2 * |texts|
    ensures |b.pageObjs| == |texts| && forall k :: 0 <= k < |texts| ==> b.pageObjs[k] == next + 2 * k
    ensures |b.objs| == 2 * |texts|
    ensures forall k :: 0 <= k < |texts| ==>
              b.objs[2 * k] == Page(next + 2 * k, next + 2 * k + 1) && b.objs[2 * k + 1] == Content(next + 2 * k + 1, texts[k])
    decreases |texts|
  {
    if |texts| == 0 then Built([], [], next)
    else
      var pageObj := next;
      var contentObj := next + 1;
      var rest := PageLoop(texts[1..], next + 2);
      var b := Built([Page(pageObj, contentObj), Content(contentObj, texts[0])] + rest.objs,
                     [pageObj] + rest.pageObjs,
                     rest.next);
      forall k | 1 <= k < |texts|
        ensures && b.objs[2 * k] == Page(next + 2 * k, next + 2 * k + 1)
                && b.objs[2 * k + 1] == Content(next + 2 * k + 1, texts[k])
                && b.pageObjs[k] == next + 2 * k
      {
        assert b.objs[2 * k] == rest.objs[2 * (k - 1)];
        assert b.objs[2 * k + 1] == rest.objs[2 * (k - 1) + 1];
        assert texts[1..][k - 1] == texts[k];
      }
      b
  }

  /** The objects of a document in write order (the font, each page and its
      content, the page tree, the catalog), the page object numbers, and the
      final value of the object counter; `texts` are the pages' contents. */
  datatype Objects = Objects(objs: seq<Obj>, pageObjs: seq<nat>, objNum: nat)

  function DocObjects(texts: seq<string>): Objects
  {
    var loop := PageLoop(texts, FontObj + 1);
    Objects([Font] + loop.objs + [Tree(loop.pageObjs, |texts|), Catalog], loop.pageObjs, loop.next)
  }

  /** The object numbers: page k is 4 + 2k, the page tree lists the pages
      in the order they were made, and the counter ends at 4 + 2·pages, the
      size the table declares; one object is written per number below it. */
  lemma ObjectNumbers(texts: seq<string>)
    ensures var o := DocObjects(texts);
            && o.objNum == 4 + 2 * |texts|
            && |o.objs| == o.objNum - 1
            && o.pageObjs == seq(|texts|, k => 4 + 2 * k)
  {
    var o := DocObjects(texts);
    assert |o.pageObjs| == |texts|;
    forall k | 0 <= k < |texts| ensures o.pageObjs[k] == 4 + 2 * k { }
  }

  /** The write order: the font, then page k (4 + 2k) and its content
      (5 + 2k, holding the text of page k) for each k, then the page tree
      over all pages, then the catalog. */
  lemma ObjectOrder(texts: seq<string>)
    ensures var o := DocObjects(texts);
            var n := |texts|;
            && |o.objs| == 2 * n + 3
            && o.objs[0] == Font
            && o.objs[2 * n + 1] == Tree(o.pageObjs, n)
            && o.objs[2 * n + 2] == Catalog
            && (forall k :: 0 <= k < n ==>
                  o.objs[2 * k + 1] == Page(4 + 2 * k, 5 + 2 * k) && o.objs[2 * k + 2] == Content(5 + 2 * k, texts[k]))
  {
    var o := DocObjects(texts);
    var loop := PageLoop(texts, FontObj + 1);
    forall k | 0 <= k < |texts|
      ensures o.objs[2 * k + 1] == loop.objs[2 * k] && o.objs[2 * k + 2] == loop.objs[2 * k + 1]
    {
    }
  }

  /** The table has one entry per object written: objNum - 1, at least the
      font, the page tree and the catalog. */
  lemma ObjectCount(texts: seq<string>)
    ensures |DocObjects(texts).objs| == DocObjects(texts).objNum - 1 >= 3
  {
  }

  /** The page loop writes consecutive numbers from `next`. */
  lemma {:induction false} LoopIds(texts: seq<string>, next: nat, q: nat)
    requires q < 2 * |texts|
    ensures Id(PageLoop(texts, next).objs[q]) == next + q
    decreases |texts|
  {
    var b := PageLoop(texts, next);
    var rest := PageLoop(texts[1..], next + 2);
    assert b.objs == [Page(next, next + 1), Content(next + 1, texts[0])] + rest.objs;
    if q >= 2 {
      LoopIds(texts[1..], next + 2, q - 2);
      assert b.objs[q] == rest.objs[q - 2];
    }
  }

  /** The number of the object at each write position: 3, 4, 5, … for the
      font and the page loop, then 2 and 1. */
  lemma WriteOrderIds(texts: seq<string>, p: nat)
    ensures var o := DocObjects(texts);
            p < |o.objs| ==>
              Id(o.objs[p]) == if p == |o.objs| - 1 then 1 else if p == |o.objs| - 2 then 2 else p + 3
  {
    var o := DocObjects(texts);
    var loop := PageLoop(texts, FontObj + 1);
    if 1 <= p < |o.objs| - 2 {
      LoopIds(texts, FontObj + 1, p - 1);
      assert o.objs[p] == loop.objs[p - 1];
    }
  }

  /** Every number 1 .. objNum - 1 is written exactly once: the number of the
      object at write position p is x exactly when p is `Position(x)`. */
  lemma NumbersOnce(texts: seq<string>, p: nat, x: nat)
    ensures var o := DocObjects(texts);
            p < |o.objs| && 1 <= x < o.objNum ==> (Id(o.objs[p]) == x <==> p == Position(x, |o.objs|))
  {
    ObjectCount(texts);
    WriteOrderIds(texts, p);
  }

  /** A content stream object says `/Length N` where N is the length of the
      text between `stream\n` and `endstream`. */
  lemma LengthIsTextLength(text: string)
    ensures var b := ContentBody(text);
            var front := "<< /Length " + NatToString(|text|) + " >>\n" + "stream\n";
            && LitAt(b, 0, "<< /Length " + NatToString(|text|) + " >>")
            && LitAt(b, |front|, text) && LitAt(b, |front| + |text|, "endstream")
  {
    var front := "<< /Length " + NatToString(|text|) + " >>\n" + "stream\n";
    var b := ContentBody(text);
    assert b == front + text + "endstream";
    assert b[|front|..|front| + |text|] == text;
    assert b[|front| + |text|..|front| + |text| + 9] == "endstream";
  }

  // ---------------------------------------------------------------------------
  // The file
  // ---------------------------------------------------------------------------

  /** The file as make_pdf writes it for pages with contents `texts`: the
      offsets are collected in write order, and the table lists them in that
      order. */
  function WrittenFile(texts: seq<string>): string
  {
    var o := DocObjects(texts);
    var recs := Texts(o.objs);
    PdfFile(Header, recs, OffsetsFrom(|Header|, recs), o.objNum, CatalogObj)
  }

  /** make_pdf from the lines typed in (after wrapping) to the file. */
  function MakeFile(lines: seq<string>, s: Settings): string
  {
    WrittenFile(PageTexts(lines, s))
  }

  /** The write-order position of object x, for 1 <= x < objNum, when there
      are `count` objects. */
  function Position(x: nat, count: nat): nat
    requires 1 <= x && 2 <= count
  {
    if x == CatalogObj then count - 1 else if x == PagesObj then count - 2 else x - 3
  }

  /** The offsets by object number: entry i is where object i + 1 was written. */
  function ById(offs: seq<nat>): (r: seq<nat>)
    requires |offs| >= 3
    ensures |r| == |offs|
  {
    seq(|offs|, i requires 0 <= i < |offs| => offs[Position(i + 1, |offs|)])
  }

  /** The file with the table indexed by object number. */
  function FixedFile(texts: seq<string>): string
  {
    var o := DocObjects(texts);
    var recs := Texts(o.objs);
    ObjectCount(texts);
    PdfFile(Header, recs, ById(OffsetsFrom(|Header|, recs)), o.objNum, CatalogObj)
  }

  /** As written, the table's first in-use entry, which a reader takes as the
      offset of object 1 (the catalog), holds the offset of the record of
      object 3, the font, and no record of object 1 begins there; the same
      holds for every document. */
  lemma WrittenEntryOneIsFont(texts: seq<string>)
    ensures var recs := Texts(DocObjects(texts).objs);
            var offs := OffsetsFrom(|Header|, recs);
            && |offs| == DocObjects(texts).objNum - 1
            && LitAt(WrittenFile(texts), offs[0], NatToString(FontObj) + " 0 obj\n")
            && !LitAt(WrittenFile(texts), offs[0], NatToString(CatalogObj) + " 0 obj\n")
  {
    var o := DocObjects(texts);
    var recs := Texts(o.objs);
    var offs := OffsetsFrom(|Header|, recs);
    ObjectCount(texts);
    assert o.objs[0] == Font;
    var f := WrittenFile(texts);
    RecordAtOffset(Header, recs, offs, o.objNum, CatalogObj, 0);
    LitNested(f, offs[0], recs[0], NatToString(FontObj) + " 0 obj\n");
    if LitAt(f, offs[0], NatToString(CatalogObj) + " 0 obj\n") {
      HeaderNamesOneNumber(f, offs[0], FontObj, CatalogObj);
    }
  }

  /** Indexed by object number, entry i of the table is the offset at which
      the record `i+1 0 obj` begins, for every object of the document. */
  lemma FixedEntriesFindObjects(texts: seq<string>, i: nat)
    ensures var o := DocObjects(texts);
            var offs := ById(OffsetsFrom(|Header|, Texts(o.objs)));
            i < o.objNum - 1 ==> LitAt(FixedFile(texts), offs[i], NatToString(i + 1) + " 0 obj\n")
  {
    var o := DocObjects(texts);
    ObjectCount(texts);
    var recs := Texts(o.objs);
    var written := OffsetsFrom(|Header|, recs);
    if i < o.objNum - 1 {
      var p := Position(i + 1, |recs|);
      NumbersOnce(texts, p, i + 1);
      assert recs[p] == Text(o.objs[p]);
      HeaderAtOffset(Header, recs, ById(written), o.objNum, CatalogObj, p, NatToString(i + 1) + " 0 obj\n");
      assert ById(written)[i] == written[p];
      assert FixedFile(texts) == PdfFile(Header, recs, ById(written), o.objNum, CatalogObj);
    }
  }
}
