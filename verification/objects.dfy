/** Reading a PDF file as its indirect objects (`parseObjects`,
    merge_simple_pdfs.cpp:27-48): every `N G obj` header opens an object whose
    body runs up to the first following `endobj`. */
module Objects {
  import opened Util
  import opened Search
  import opened Scan

  /** One indirect object: its number and generation, the raw text from the
      header through `endobj`, and the body between them. */
  datatype PdfObj = PdfObj(id: nat, gen: nat, raw: string, body: string)

  /** The objects of a file by object number (`std::map<int, PdfObj>`). */
  type ObjMap = map<nat, PdfObj>

  /** What `map::operator[]` yields: the entry, or a default-constructed object
      (which the operator also inserts). */
  function Get(objs: ObjMap, id: nat): PdfObj
  {
    if id in objs then objs[id] else PdfObj(0, 0, [], [])
  }

  predicate IsEol(c: char) { c == '\n' || c == '\r' }

  /** The body with every leading '\n' and '\r' removed. */
  function StripLeadingEols(b: string): (r: string)
    ensures |r| <= |b| && r == b[|b| - |r|..]
    ensures forall i :: 0 <= i < |b| - |r| ==> IsEol(b[i])
    ensures |r| > 0 ==> !IsEol(r[0])
  {
    if |b| > 0 && IsEol(b[0]) then StripLeadingEols(b[1..]) else b
  }

  /** e is the first `endobj` at or after `from`. */
  ghost predicate FirstEndobj(data: string, from: nat, e: nat)
  {
    from <= e && LitAt(data, e, "endobj") && forall j: nat :: from <= j < e ==> !LitAt(data, j, "endobj")
  }

  /** The object an object header opens: none when no `endobj` follows it;
      otherwise its raw text runs from the header through the first following
      `endobj`, and its body is the text between the header and that `endobj`
      without leading line ends. (A span outside the text opens nothing.) */
  function EntryOf(data: string, m: Match): (r: Option<PdfObj>)
    ensures m.start <= m.end <= |data| ==>
              (r.None? <==> forall j: nat :: m.end <= j ==> !LitAt(data, j, "endobj"))
    ensures r.Some? ==> r.value.id == m.num && r.value.gen == m.gen
    ensures r.Some? ==>
              && m.start <= m.end <= |data|
              && |r.value.raw| >= m.end - m.start + 6
              && var e := m.start + |r.value.raw| - 6;
              && FirstEndobj(data, m.end, e)
              && r.value.raw == data[m.start..e + 6]
              && r.value.body == StripLeadingEols(data[m.end..e])
  {
    if m.start <= m.end <= |data| then
      match IndexOf(data, "endobj", m.end)
      case None => None
      case Some(e) => Some(PdfObj(m.num, m.gen, data[m.start..e + 6], StripLeadingEols(data[m.end..e])))
    else None
  }

  /** EntryOf for one file, as a function of the header alone. */
  function Entries(data: string): Match -> Option<PdfObj>
  {
    (m: Match) => EntryOf(data, m)
  }

  // The loop of `parseObjects` over the headers `ms`, for any way `entry` of
  // turning a header into an object.

  /** Header i of `ms` opens an object numbered k. */
  predicate Opens(entry: Match -> Option<PdfObj>, ms: seq<Match>, i: nat, k: nat)
  {
    i < |ms| && ms[i].num == k && entry(ms[i]).Some?
  }

  /** Some header of `ms` opens an object numbered k. */
  ghost predicate Opened(entry: Match -> Option<PdfObj>, ms: seq<Match>, k: nat)
  {
    exists i: nat :: Opens(entry, ms, i, k)
  }

  /** Header i opens an object and no later header opens one with the same number. */
  predicate LastOpener(entry: Match -> Option<PdfObj>, ms: seq<Match>, i: nat)
  {
    && i < |ms|
    && entry(ms[i]).Some?
    && forall j: nat :: i < j < |ms| ==> !Opens(entry, ms, j, ms[i].num)
  }

  /** Every object a header opens carries the header's object number. */
  ghost predicate Numbered(entry: Match -> Option<PdfObj>)
  {
    forall m :: entry(m).Some? ==> entry(m).value.id == m.num
  }

  lemma OpenedFront(entry: Match -> Option<PdfObj>, ms: seq<Match>, k: nat)
    requires |ms| > 0
    ensures Opened(entry, ms, k) <==> Opened(entry, ms[..|ms| - 1], k) || Opens(entry, ms, |ms| - 1, k)
  {
    var front := ms[..|ms| - 1];
    if Opened(entry, ms, k) && !Opens(entry, ms, |ms| - 1, k) {
      var i: nat :| Opens(entry, ms, i, k);
      assert Opens(entry, front, i, k);
    }
    if Opened(entry, front, k) {
      var i: nat :| Opens(entry, front, i, k);
      assert Opens(entry, ms, i, k);
    }
  }

  lemma LastOpenerFront(entry: Match -> Option<PdfObj>, ms: seq<Match>, i: nat)
    requires i < |ms| - 1 && LastOpener(entry, ms, i)
    ensures LastOpener(entry, ms[..|ms| - 1], i)
  {
    var front := ms[..|ms| - 1];
    forall j: nat | i < j < |front|
      ensures !Opens(entry, front, j, front[i].num)
    {
      assert !Opens(entry, ms, j, ms[i].num);
    }
  }

  /** The map the loop builds from the headers `ms`, in order: the objects they
      open, by number, a later object replacing an earlier one with the same
      number. */
  function Collect(entry: Match -> Option<PdfObj>, ms: seq<Match>): (r: ObjMap)
    requires Numbered(entry)
    ensures forall k :: k in r ==> r[k].id == k
    ensures forall k :: k in r <==> Opened(entry, ms, k)
    ensures forall i: nat :: LastOpener(entry, ms, i) ==>
              ms[i].num in r && r[ms[i].num] == entry(ms[i]).value
    decreases |ms|
  {
    if |ms| == 0 then map[]
    else
      var front := ms[..|ms| - 1];
      var prev := Collect(entry, front);
      var r := match entry(ms[|ms| - 1])
               case None => prev
               case Some(o) => prev[o.id := o];
      assert forall k :: k in r <==> Opened(entry, ms, k) by {
        forall k ensures k in r <==> Opened(entry, ms, k) { OpenedFront(entry, ms, k); }
      }
      assert forall i: nat :: LastOpener(entry, ms, i) ==>
               ms[i].num in r && r[ms[i].num] == entry(ms[i]).value by {
        forall i: nat | LastOpener(entry, ms, i)
          ensures ms[i].num in r && r[ms[i].num] == entry(ms[i]).value
        {
          if i < |ms| - 1 {
            LastOpenerFront(entry, ms, i);
            assert !Opens(entry, ms, |ms| - 1, ms[i].num);
          }
        }
      }
      r
  }

  lemma EntriesNumbered(data: string)
    ensures Numbered(Entries(data))
  {
    forall m | Entries(data)(m).Some?
      ensures Entries(data)(m).value.id == m.num
    {
      assert Entries(data)(m) == EntryOf(data, m);
    }
  }

  /** `parseObjects`: the objects of a whole file, found by walking its object
      headers with std::sregex_iterator. An object number is present exactly
      when some header with that number is closed by an `endobj`, and its
      entry is the object the last such header opens. */
  function ParseObjects(data: string): (r: ObjMap)
    ensures forall k :: k in r ==> r[k].id == k
    ensures forall k :: k in r <==> Opened(Entries(data), Matches(ObjHeader, data), k)
    ensures forall i: nat :: LastOpener(Entries(data), Matches(ObjHeader, data), i) ==>
              var m := Matches(ObjHeader, data)[i];
              m.num in r && r[m.num] == EntryOf(data, m).value
  {
    EntriesNumbered(data);
    Collect(Entries(data), Matches(ObjHeader, data))
  }

  /** m is a header the iterator reports that opens an object numbered k. */
  ghost predicate OpenedAt(data: string, m: Match, k: nat)
  {
    MatchAt(ObjHeader, data, m.start) == Some(m) && Admissible(ObjHeader, data, m.start)
    && m.num == k && EntryOf(data, m).Some?
  }

  /** An object number is parsed exactly when some header for it that is not
      inside a longer digit run is closed by a later `endobj`. */
  lemma ParseObjectsExactly(data: string, k: nat)
    ensures k in ParseObjects(data) <==> exists m :: OpenedAt(data, m, k)
  {
    var ms := Matches(ObjHeader, data);
    if k in ParseObjects(data) {
      var i: nat :| Opens(Entries(data), ms, i, k);
      MatchesExactly(ObjHeader, data, ms[i]);
      assert Entries(data)(ms[i]) == EntryOf(data, ms[i]);
      assert OpenedAt(data, ms[i], k);
    }
    if exists m :: OpenedAt(data, m, k) {
      var m :| OpenedAt(data, m, k);
      MatchesExactly(ObjHeader, data, m);
      var i :| 0 <= i < |ms| && ms[i] == m;
      assert Entries(data)(ms[i]) == EntryOf(data, ms[i]);
      assert Opens(Entries(data), ms, i, k);
    }
  }
}
