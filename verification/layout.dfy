/** The byte layout both programs write: a header line, the object records
    one after another, a classic cross-reference table with one fixed-width
    entry per object, the trailer dictionary and the `startxref` pointer
    (sections 7.5.4 and 7.5.5 of ISO 32000-1). The file is built as a string;
    its length so far stands for the stream position `tellp` reports. */
module Layout {
  import opened Util

  /** An object record: `N 0 obj`, the body, `endobj`. */
  function Record(id: nat, body: string): (r: string)
    ensures LitAt(r, 0, NatToString(id) + " 0 obj\n")
  {
    NatToString(id) + " 0 obj\n" + body + "\nendobj\n"
  }

  /** The positions the records start at when written one after another from
      position `pos`: each is `pos` plus the lengths of the records before it. */
  function {:induction false} OffsetsFrom(pos: nat, recs: seq<string>): (r: seq<nat>)
    ensures |r| == |recs|
    ensures forall i :: 0 <= i < |recs| ==> r[i] == pos + |Concat(recs[..i])|
    decreases |recs|
  {
    if |recs| == 0 then []
    else
      var rest := OffsetsFrom(pos + |recs[0]|, recs[1..]);
      forall i | 1 <= i < |recs|
        ensures rest[i - 1] == pos + |Concat(recs[..i])|
      {
        assert recs[..i][1..] == recs[1..][..i - 1];
      }
      [pos] + rest
  }

  /** The free-list head entry for object 0. */
  const FreeEntry: string := "0000000000 65535 f \n"

  /** An in-use entry: ten-digit zero-padded offset, generation 0. */
  function XrefEntry(off: nat): (r: string)
    ensures |r| >= 20
    ensures off < Pow10(10) ==> |r| == 20
  {
    Pad10(off) + " 00000 n \n"
  }

  function XrefEntries(offs: seq<nat>): string
  {
    if |offs| == 0 then [] else XrefEntry(offs[0]) + XrefEntries(offs[1..])
  }

  /** `xref`, the subsection header `0 size`, the free entry, the in-use entries. */
  function XrefTable(size: nat, offs: seq<nat>): string
  {
    "xref\n" + ("0 " + NatToString(size) + "\n" + FreeEntry + XrefEntries(offs))
  }

  function Trailer(size: nat, root: nat): string
  {
    "trailer\n<< /Size " + NatToString(size) + " /Root " + NatToString(root) + " 0 R >>\n"
  }

  function StartXref(pos: nat): string
  {
    "startxref\n" + NatToString(pos) + "\n%%EOF\n"
  }

  /** `N 0 R ` for each kid. */
  function KidRefs(kids: seq<nat>): string
  {
    if |kids| == 0 then [] else NatToString(kids[0]) + " 0 R " + KidRefs(kids[1..])
  }

  /** The page tree dictionary. */
  function PagesDict(kids: seq<nat>, count: nat): string
  {
    "<< /Type /Pages /Kids [" + KidRefs(kids) + "] /Count " + NatToString(count) + " >>"
  }

  /** The catalog dictionary. */
  function CatalogDict(pagesId: nat): string
  {
    "<< /Type /Catalog /Pages " + NatToString(pagesId) + " 0 R >>"
  }

  /** A whole file: header, records, then the cross-reference table at the
      position `startxref` names, and the trailer. */
  function PdfFile(header: string, recs: seq<string>, offs: seq<nat>, size: nat, root: nat): string
  {
    var front := header + Concat(recs);
    front + FileTail(offs, size, root, |front|)
  }

  /** What follows the records: table, trailer, `startxref`. */
  function FileTail(offs: seq<nat>, size: nat, root: nat, xrefPos: nat): string
  {
    XrefTable(size, offs) + (Trailer(size, root) + StartXref(xrefPos))
  }

  /** The record list, cut at record i. */
  lemma ConcatAt(recs: seq<string>, i: nat)
    requires i < |recs|
    ensures Concat(recs) == (Concat(recs[..i]) + recs[i]) + Concat(recs[i + 1..])
  {
    assert recs == recs[..i] + recs[i..];
    ConcatAppend(recs[..i], recs[i..]);
    assert recs[i..][1..] == recs[i + 1..];
  }

  /** Record i follows the records before it. */
  lemma RecordInRecords(recs: seq<string>, i: nat)
    requires i < |recs|
    ensures LitAt(Concat(recs), |Concat(recs[..i])|, recs[i])
  {
    var pre := Concat(recs[..i]);
    ConcatAt(recs, i);
    LitSelf(recs[i]);
    LitShift(pre, recs[i], 0, recs[i]);
    LitExtend(pre + recs[i], Concat(recs[i + 1..]), |pre|, recs[i]);
  }

  /** Piece i of a joined list is found after the pieces before it,
      whatever follows the list. */
  lemma PieceBeforeTail(ps: seq<string>, tail: string, i: nat)
    requires i < |ps|
    ensures LitAt(Concat(ps) + tail, |Concat(ps[..i])|, ps[i])
  {
    RecordInRecords(ps, i);
    LitExtend(Concat(ps), tail, |Concat(ps[..i])|, ps[i]);
  }

  /** Record i of a file starts at the offset computed for it. */
  lemma RecordAtOffset(header: string, recs: seq<string>, offs: seq<nat>, size: nat, root: nat, i: nat)
    requires i < |recs|
    ensures LitAt(PdfFile(header, recs, offs, size, root), OffsetsFrom(|header|, recs)[i], recs[i])
  {
    var pre := Concat(recs[..i]);
    var front := header + Concat(recs);
    var at := OffsetsFrom(|header|, recs)[i];
    assert at == |header| + |pre|;
    assert PdfFile(header, recs, offs, size, root) == front + FileTail(offs, size, root, |front|);
    RecordInRecords(recs, i);
    LitShiftTo(header, Concat(recs), |pre|, recs[i], at);
    LitExtend(front, FileTail(offs, size, root, |front|), at, recs[i]);
  }

  /** Whatever a record begins with (its header `N 0 obj`, say) is found at
      the record's offset in the file. */
  lemma HeaderAtOffset(header: string, recs: seq<string>, offs: seq<nat>, size: nat, root: nat, p: nat, h: string)
    requires p < |recs| && LitAt(recs[p], 0, h)
    ensures LitAt(PdfFile(header, recs, offs, size, root), OffsetsFrom(|header|, recs)[p], h)
  {
    RecordAtOffset(header, recs, offs, size, root, p);
    LitNested(PdfFile(header, recs, offs, size, root), OffsetsFrom(|header|, recs)[p], recs[p], h);
  }

  /** `startxref` names the position where the table begins. */
  lemma XrefAtStart(header: string, recs: seq<string>, offs: seq<nat>, size: nat, root: nat)
    ensures LitAt(PdfFile(header, recs, offs, size, root), |header + Concat(recs)|, "xref\n")
  {
    var front := header + Concat(recs);
    var table := XrefTable(size, offs);
    LitPrefix("xref\n", "0 " + NatToString(size) + "\n" + FreeEntry + XrefEntries(offs));
    LitExtend(table, Trailer(size, root) + StartXref(|front|), 0, "xref\n");
    LitShift(front, FileTail(offs, size, root, |front|), 0, "xref\n");
  }

  /** The digits of a record header run up to the space after them. */
  lemma HeaderDigits(s: string, i: nat, n: nat)
    requires LitAt(s, i, NatToString(n) + " 0 obj\n")
    ensures forall j :: i <= j < i + |NatToString(n)| ==> IsDigit(s[j])
    ensures !IsDigit(s[i + |NatToString(n)|])
    ensures s[i..i + |NatToString(n)|] == NatToString(n)
  {
    var d := NatToString(n);
    var h := d + " 0 obj\n";
    assert s[i..i + |h|] == h;
    forall j | i <= j < i + |d| ensures IsDigit(s[j]) {
      assert s[j] == h[j - i] == d[j - i];
    }
    assert s[i + |d|] == h[|d|] == ' ';
    assert s[i..i + |d|] == h[..|d|] == d;
  }

  /** A record header names one number: no two numbers have headers at the
      same place. */
  lemma HeaderNamesOneNumber(s: string, i: nat, a: nat, b: nat)
    requires LitAt(s, i, NatToString(a) + " 0 obj\n") && LitAt(s, i, NatToString(b) + " 0 obj\n")
    ensures a == b
  {
    HeaderDigits(s, i, a);
    HeaderDigits(s, i, b);
    assert |NatToString(a)| == |NatToString(b)|;
  }

  /** Entries of offsets below 10^10 are twenty bytes each, so entry k of the
      table starts 20·k bytes after the first in-use entry. */
  lemma {:induction false} EntriesFixedWidth(offs: seq<nat>, k: nat)
    requires forall i :: 0 <= i < |offs| ==> offs[i] < Pow10(10)
    requires k < |offs|
    ensures LitAt(XrefEntries(offs), 20 * k, XrefEntry(offs[k]))
  {
    var head := XrefEntry(offs[0]);
    var tail := XrefEntries(offs[1..]);
    assert XrefEntries(offs) == head + tail;
    if k == 0 {
      LitPrefix(head, tail);
    } else {
      assert offs[1..][k - 1] == offs[k];
      EntriesFixedWidth(offs[1..], k - 1);
      assert |head| == 20;
      LitShiftTo(head, tail, 20 * (k - 1), XrefEntry(offs[k]), 20 * k);
    }
  }

  /** Reading the first ten digits of an entry gives back the offset. */
  lemma EntryRoundTrip(off: nat)
    requires off < Pow10(10)
    ensures AllDigits(XrefEntry(off)[..10]) && DecValue(XrefEntry(off)[..10]) == off
  {
    assert XrefEntry(off)[..10] == Pad10(off);
  }
}
