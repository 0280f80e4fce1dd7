# LightweightPDF: the page merger and the text-to-PDF editor, in Dafny

This project models the two programs of LightweightPDF-cpp as pure functions
over strings, and proves what they promise about the files they write.

**The merger** (`merge_simple_pdfs.cpp`) reads two simple PDF files and treats
each as a set of indirect objects `N G obj … endobj` (section 7.3.10 of
ISO 32000-1). For each file it:

- picks out the page objects (`/Type /Page`, never `/Type /Pages`);
- collects everything the pages reach through `N 0 R` references.

It then moves the second file's object numbers up by 1000000 and renumbers
every kept object 1, 2, … (non-pages first, pages last). It points every page
at a fresh page tree, appends the tree and a catalog, and writes:

- the records;
- a classic cross-reference table of fixed 20-byte entries;
- the trailer and `startxref` (sections 7.5.4, 7.5.5 and 7.7.3 of ISO 32000-1).

**The editor** (`make_pdf.cpp`) wraps typed lines to a fixed number of
characters and cuts them into pages of 40 lines. It writes one content stream
per page, plus a Helvetica font, a page tree and a catalog.

Modules, in dependency order:

| module | file | what it holds |
|---|---|---|
| `Util` | util.dfy | decimal text (`to_string`, `stoi`, `setw(10)`), `find`/`rfind`, sorted id lists |
| `Search` | search.dfy | the search loop behind `regex_search` and `sregex_iterator`, for any anchored matcher; cutting a text at its matches |
| `Scan` | scan.dfy | deterministic scanners for the four regular expressions the merger uses |
| `Objects` | objects.dfy | `parseObjects` |
| `Pages` | pages.dfy | `findPageObjects` |
| `Refs` | refs.dfy | `referencedObjects`, `remapReferences`, the `/Parent` fix-up of a page |
| `Deps` | deps.dfy | `collectNonPageDependencies` and the least dependency set it computes |
| `Layout` | layout.dfy | records, offsets, cross-reference entries, trailer, as both programs write them |
| `Writer` | writer.dfy | `writeMergedPDF` as a string builder |
| `Merge` | merge.dfy | the merge plan and exit codes of the merger's `main` |
| `MakePdf` | makepdf.dfy | `wrapLine`, paging, the object numbering and the file of the editor |

Modelling choices:

- A string is a `seq<char>`, one char per byte. Integers are unbounded `nat`.
- The written file is built as a string. Its length so far stands for the
  stream position `tellp` reports.
- Writing the merged PDF can fail (exit 5). That failure is a boolean
  parameter of `Merge.Run`.
- In each of the four patterns, a greedy run of digits or white space is
  always followed by a character outside its class. So "the match anchored at
  p" is a function, and `Scan.MatchAt` computes it directly.
- `\s` is space, tab, LF, CR, VT and FF. `\b` after a word character means
  end of text or a next character outside `[A-Za-z0-9_]`.

## Model

| member | source | states |
|---|---|---|
| Scan.ObjHeaderAt | merge_simple_pdfs.cpp:29 | a match of `(\d+)\s+(\d+)\s+obj\b` at p starts at p, is non-empty, lies inside the text and does not end on a digit |
| Scan.PageTypeAt | merge_simple_pdfs.cpp:56 | a match of `/Type\s*/Page\b` at p starts at p, is non-empty and lies inside the text |
| Scan.IndirectRefAt | merge_simple_pdfs.cpp:72 | a match of `(\d+)\s+0\s+R\b` at p starts at p, is non-empty, lies inside the text and does not end on a digit |
| Scan.ParentLinkAt | merge_simple_pdfs.cpp:174 | a match of `/Parent\s+\d+\s+0\s+R` at p starts at p, is non-empty and lies inside the text |
| Search.FindFrom | merge_simple_pdfs.cpp:60 | the search from p returns the leftmost match at or after p, with no match before it; it returns none only when no position from p on matches |
| Search.Walk | merge_simple_pdfs.cpp:30-32 | the iterator's matches lie in order, without overlap, inside the text, each one a match at its own start |
| Search.WalkSound | merge_simple_pdfs.cpp:73-75 | every match the iterator reports starts a match and does not sit right after a character the match could have extended over |
| Search.WalkComplete | merge_simple_pdfs.cpp:73-75 | every such admissible match at or after the start is reported by the iterator |
| Scan.Matches | merge_simple_pdfs.cpp:30-32 | the iterator walk over the whole text yields ordered, non-overlapping matches, each the pattern's match at its start |
| Scan.MatchesExactly | merge_simple_pdfs.cpp:73-79 | a span is reported exactly when the pattern matches there and the start is not inside a longer digit run |
| Scan.NoOverlap | merge_simple_pdfs.cpp:73-75 | a second match of the same pattern can start inside an earlier one only within the earlier one's leading digits |
| Scan.OccursExactly | merge_simple_pdfs.cpp:60 | `regex_search` succeeds exactly when some position of the text starts a match |
| Search.Split | merge_simple_pdfs.cpp:118-133 | cutting at the matches gives pieces whose joined text is the original text, whose match pieces are exactly the given matches in order, and each match piece is the text of its span |
| Scan.Tokenize | merge_simple_pdfs.cpp:116-133 | the token list of a body joins back to the body, its match tokens are exactly the iterator's matches in order, and each holds its raw text |
| Objects.StripLeadingEols | merge_simple_pdfs.cpp:43 | the result is a suffix of the body; everything removed is `\n` or `\r`; the result does not start with either |
| Objects.EntryOf | merge_simple_pdfs.cpp:36-44 | a header with no later `endobj` opens nothing; otherwise raw runs from the header through the first later `endobj`, and body is the text between them without leading line ends |
| Objects.Collect | merge_simple_pdfs.cpp:32-46 | a number is a key exactly when some header opens an object with it; the entry is the object the last such header opens; every entry carries its key |
| Objects.ParseObjects | merge_simple_pdfs.cpp:27-48 | the same three facts for the headers the iterator reports in the whole file |
| Objects.ParseObjectsExactly | merge_simple_pdfs.cpp:29-45 | k is parsed exactly when some admissible header numbered k is closed by a later `endobj` |
| Util.SortedSeqOf | merge_simple_pdfs.cpp:62-65 | sort then unique gives a strictly ascending list holding exactly the set's elements |
| Pages.FindPageObjects | merge_simple_pdfs.cpp:51-67 | the result is strictly ascending, and x is in it exactly when some object numbered x has a body where `/Type\s*/Page\b` occurs |
| Pages.PagesOfParsed | merge_simple_pdfs.cpp:58-61 | for a parsed map, x is a page exactly when x is a key whose body declares a page |
| Pages.PagesMarkerNoMatch | merge_simple_pdfs.cpp:54-56 | `/Type` followed by white space and `/Pages` is not a match |
| Pages.OnlyPagesMarkerNotPage | merge_simple_pdfs.cpp:54-60 | a body whose every `/Type` is followed by `/Pages` is not a page |
| Pages.PageMarkerIsPage | merge_simple_pdfs.cpp:56-60 | a body holding `/Type /Page` followed by a non-word character is a page |
| Refs.ReferencedObjectsExactly | merge_simple_pdfs.cpp:70-81 | n is referenced exactly when an admissible `N 0 R` match with number n starts somewhere in the body |
| Refs.ReferencedLoneRef | merge_simple_pdfs.cpp:70-81 | the text `n 0 R` refers to n and nothing else |
| Refs.LoneRefMatches | merge_simple_pdfs.cpp:72-79 | the iterator over `n 0 R` reports one match: the whole text, number n |
| Refs.LoneRefTokens | merge_simple_pdfs.cpp:116-133 | the text `n 0 R` cuts into empty text, the reference, empty text |
| Refs.RenderUnmapped | merge_simple_pdfs.cpp:128-130 | with no reference to a mapped number, rewriting the tokens gives back their joined text |
| Refs.Remap | merge_simple_pdfs.cpp:112-135 | the output is the loop over every reported `N 0 R` in order: the text before it copied, the reference written as `idmap[N] 0 R` when N is mapped and as it stood otherwise, then the text after the last; a body that refers to no mapped number comes back unchanged |
| Refs.RenderSplit | merge_simple_pdfs.cpp:116-133 | rewriting the pieces of a text cut at its matches gives what the copy-and-replace loop over those matches writes |
| Refs.RemapPieces | merge_simple_pdfs.cpp:116-133 | cutting the body at the reported references, piece i sits in the body after the pieces before it, and in the output after their rewrites: text copied as is, a mapped reference as `idmap[n] 0 R`, any other reference verbatim |
| Refs.RemapEmpty | merge_simple_pdfs.cpp:112-135 | with an empty id map the output equals the input |
| Refs.RemapLoneRef | merge_simple_pdfs.cpp:124-127 | a reference to a mapped number n becomes exactly `idmap[n] 0 R` |
| Refs.RemapLoneTo | merge_simple_pdfs.cpp:124-127 | a reference to n, mapped to v, becomes `v 0 R` |
| Refs.RemapLoneKept | merge_simple_pdfs.cpp:128-130 | a reference to an unmapped number is copied verbatim |
| Refs.DropSpans | merge_simple_pdfs.cpp:175 | deleting the matched spans leaves exactly the text pieces between them, in order; the text gets shorter, strictly unless there are no spans |
| Refs.StripParent | merge_simple_pdfs.cpp:174-175 | the result is the body's text pieces between the reported `/Parent N 0 R` links, in order; the body changes exactly when it holds such a link, and never grows |
| Refs.InsertParent | merge_simple_pdfs.cpp:177-183 | with a `>>`, the link is inserted right before the last one, which stays last, and taking it out gives the body back; without one, the link is appended |
| Refs.InsertBeforeLast | merge_simple_pdfs.cpp:177-179 | text inserted before the last `>>` can be taken out again, and that `>>` stays the last one |
| Deps.Closure | merge_simple_pdfs.cpp:92-107 | the fixpoint iteration from S ends in a dependency set containing S that is inside every dependency set containing S |
| Deps.Dependencies | merge_simple_pdfs.cpp:85-109 | the least set of defined non-page, non-zero numbers that holds every such reference of a present page or of a member |
| Deps.StartQueue | merge_simple_pdfs.cpp:89-91 | the initial queue holds exactly the listed pages that are defined |
| Deps.Visit | merge_simple_pdfs.cpp:93-106 | one turn collects and queues every eligible reference of the current object not yet collected, stays inside the least set, and keeps what was queued |
| Deps.CollectNonPageDependencies | merge_simple_pdfs.cpp:85-109 | the breadth-first walk ends, and what it collects is exactly the least dependency set |
| Writer.AssignIds | merge_simple_pdfs.cpp:142-144 | every listed number gets a number from 1 to the list length, and the list holds it at that position |
| Writer.AssignIdsLast | merge_simple_pdfs.cpp:144 | a number repeated in the list gets the number of its last position |
| Writer.AssignIdsInjective | merge_simple_pdfs.cpp:144 | different listed numbers get different new numbers |
| Writer.AssignIdsDistinct | merge_simple_pdfs.cpp:144 | without repeats, the object at position i gets number i + 1 |
| Writer.NonPageRecords | merge_simple_pdfs.cpp:152-162 | one record per listed, defined non-page, in list order, written under its new number with references renumbered |
| Writer.PageRecords | merge_simple_pdfs.cpp:165-189 | `idmap[pid]` adds a 0 entry only for a defined page missing from the map, and changes nothing else |
| Writer.PageRecordsNumbered | merge_simple_pdfs.cpp:165-189 | with every page defined and numbered, the page loop leaves the map alone and writes one record per page, in order |
| Writer.KidIds | merge_simple_pdfs.cpp:194-199 | `/Kids` lists the new number of every page, in page order, when every page is numbered |
| Writer.MergedObjects | merge_simple_pdfs.cpp:148-210 | the page tree and the catalog are the last two objects, numbered `newPagesId` and `newPagesId + 1`, and the catalog names the tree |
| Writer.KidsNumbered | merge_simple_pdfs.cpp:142-199 | with the pages listed after the non-pages and no repeats, `/Kids` is \|non-pages\| + 1, \|non-pages\| + 2, … in page order |
| Writer.PagesKeepMap | merge_simple_pdfs.cpp:165-189 | with every listed object defined, the page loop's `idmap[pid]` never adds an entry to the map the numbering built |
| Writer.TreeListsPages | merge_simple_pdfs.cpp:192-203 | the page tree written second to last lists the pages' new numbers after the non-pages', in page order, and counts every page |
| Writer.NonPagesNumbered | merge_simple_pdfs.cpp:153-162 | with non-pages before pages, the first loop writes objects 1 … \|non-pages\| in order, each headed by its number |
| Writer.PagesNumbered | merge_simple_pdfs.cpp:165-189 | the page loop writes the next numbers in page order and leaves the map alone |
| Writer.WellNumbered | merge_simple_pdfs.cpp:142-210 | the object at write position i is numbered i + 1, and its record starts with its own header |
| Writer.Renumbered | merge_simple_pdfs.cpp:157-161 | a non-page is written under its new number, headed by it |
| Writer.RenumberedPage | merge_simple_pdfs.cpp:168-188 | a page is written under its new number, headed by it |
| Writer.Assemble | merge_simple_pdfs.cpp:216-230 | each record sits at its offset, the header length plus the lengths of the records before it; the file is header, records, table, trailer |
| Writer.WriteMerged | merge_simple_pdfs.cpp:138-233 | the page tree is \|ordered\| + 1, the catalog \|ordered\| + 2 and written last naming the tree, and each record sits at its table offset |
| Writer.AssembledWellNumbered | merge_simple_pdfs.cpp:216-227 | for any writers that keep numbers, table entry i holds the offset where record `i+1 0 obj` begins |
| Writer.WrittenWellNumbered | merge_simple_pdfs.cpp:138-233 | for the merger's own writers, entry i of the table points at the record of object i + 1 |
| Layout.Record | merge_simple_pdfs.cpp:160 | a record begins with `N 0 obj` and a line feed |
| Layout.OffsetsFrom | merge_simple_pdfs.cpp:217-221 | offset i is the start position plus the summed lengths of the earlier records |
| Layout.XrefEntry | merge_simple_pdfs.cpp:226-227 | an entry is exactly 20 bytes when the offset is below 10^10 |
| Util.Pad10 | merge_simple_pdfs.cpp:225-227 | `setw(10)` with `setfill('0')` gives at least ten digits that read back as n, exactly ten below 10^10 |
| Layout.RecordAtOffset | merge_simple_pdfs.cpp:217-221 | record i of a file is found at the offset computed for it |
| Layout.HeaderAtOffset | merge_simple_pdfs.cpp:217-221 | whatever a record begins with is found at the record's offset in the file |
| Layout.XrefAtStart | merge_simple_pdfs.cpp:223-230 | `startxref` names the position where `xref` begins |
| Layout.EntriesFixedWidth | merge_simple_pdfs.cpp:224-227 | in-use entry k starts 20·k bytes after the first in-use entry |
| Layout.EntryRoundTrip | merge_simple_pdfs.cpp:227 | reading the first ten characters of an entry gives back the offset |
| Merge.Shifted | merge_simple_pdfs.cpp:315 | the second file's pages, each moved up by 1000000 |
| Merge.Moved | merge_simple_pdfs.cpp:282-283 | k is a moved number exactly when k − 1000000 is a kept number of the second file |
| Merge.Gathered | merge_simple_pdfs.cpp:275-283 | the keys are the first file's kept numbers and the second's moved; a moved number holds the second file's object, and otherwise the first file's |
| Merge.ShiftMap | merge_simple_pdfs.cpp:299-300 | exactly the second file's numbers are mapped, each to itself plus 1000000 |
| Merge.ShiftReferences | merge_simple_pdfs.cpp:286-310 | the objects below 1000000 are untouched, and every other object's body is rewritten through the shift map |
| Merge.ShiftLoneRef | merge_simple_pdfs.cpp:299-301 | in a moved object, a reference to a number the second file defines becomes that number plus 1000000 |
| Merge.KeepLoneRef | merge_simple_pdfs.cpp:302-304 | a reference to a number the second file does not define is kept as written |
| Merge.MergedPageIds | merge_simple_pdfs.cpp:313-319 | the merged page list is strictly ascending and holds both files' pages, the second's moved |
| Merge.ShiftedMembers | merge_simple_pdfs.cpp:315 | the moved list holds exactly the moved numbers of the second file's pages |
| Merge.PageOrderKept | merge_simple_pdfs.cpp:313-319 | with the first file's pages below 1000000, the sorted and de-duplicated list is the first file's pages then the second's moved, as many as both files have together |
| Merge.MergedPagesInOrder | merge_simple_pdfs.cpp:313-318 | with the first file's pages below 1000000, the merged page list is the first file's pages then the second's moved |
| Writer.WrittenTree | merge_simple_pdfs.cpp:192-203 | with non-pages before pages, no repeats and all defined, the written page tree lists every page under the numbers just below its own and has `/Count` equal to the number of pages |
| Merge.MergedTree | merge_simple_pdfs.cpp:192-318 | with the first file's pages below 1000000, the merged file's page tree lists the pages of both files under the numbers just below its own, and its `/Count` is the sum of both files' page counts |
| Merge.NonPageOrder | merge_simple_pdfs.cpp:322-327 | the objects written before the pages are exactly the merged non-pages, ascending |
| Merge.Combine | merge_simple_pdfs.cpp:273-329 | the page list is strictly ascending, and the write order is the non-pages then the pages |
| Merge.PagesGathered | merge_simple_pdfs.cpp:278-315 | every merged page is a merged object |
| Merge.PlanWellFormed | merge_simple_pdfs.cpp:321-329 | no number is written twice and every written number is a merged object |
| Merge.MergePlanWellFormed | merge_simple_pdfs.cpp:264-329 | the plan for any two parsed files meets the writer's conditions |
| Merge.DocsWellNumbered | merge_simple_pdfs.cpp:331 | for any two files, entry i of the merged table points at the record of object i + 1 |
| Merge.ParsedSomething | merge_simple_pdfs.cpp:27-48 | parsing finds an object exactly when some admissible object header of the file is closed by a later `endobj` |
| Merge.PagedSomething | merge_simple_pdfs.cpp:51-67 | the page list is non-empty exactly when some parsed object declares a page |
| Merge.RunExitCode | merge_simple_pdfs.cpp:256-336 | the exit status is 2 exactly when a file is empty, 3 exactly when both are non-empty but one has no closed object header, 4 exactly when both parse but no object of either declares a page, 5 exactly when all that holds and the output cannot be opened, and 0 otherwise |
| Merge.MergedWellNumbered | merge_simple_pdfs.cpp:256-337 | whenever a run writes a file, it is the merged file of both inputs' objects, and every table entry points at its object's record |
| MakePdf.WrapLine | make_pdf.cpp:21-30 | the loop `substr(start, maxChars)`, `start += maxChars` returns the line cut every maxChars characters |
| MakePdf.PiecesJoin | make_pdf.cpp:24-28 | joining the chunks gives the line back exactly |
| MakePdf.PiecesWidth | make_pdf.cpp:25-27 | every chunk is non-empty and at most maxChars long, and all but the last are exactly maxChars |
| MakePdf.PiecesCount | make_pdf.cpp:25 | an empty line gives no chunk; otherwise the count n is the least with \|line\| ≤ maxChars·n |
| MakePdf.PiecesAt | make_pdf.cpp:25-27 | chunk k is `line[maxChars·k .. min(maxChars·k + maxChars, \|line\|))` |
| MakePdf.PiecesStep | make_pdf.cpp:26 | the first chunk is the first maxChars characters, or all of them when fewer are left |
| MakePdf.PagesHoldLines | make_pdf.cpp:135-138 | there are ⌈n/40⌉ pages, page k holds lines 40k to min(40k + 40, n), and the pages read in order give the lines back |
| MakePdf.ShowLines | make_pdf.cpp:139-143 | line j of a page is shown at the height j steps below the start |
| MakePdf.HeightIsProduct | make_pdf.cpp:142 | j steps of yStep down from y is y − j·yStep |
| MakePdf.ShowLinesAt | make_pdf.cpp:137-143 | line j is shown at y − j·yStep |
| MakePdf.PageShowsLines | make_pdf.cpp:136-143 | in the page text, line j is shown at 800 − j·yStep, after the lines before it |
| MakePdf.PageFooter | make_pdf.cpp:144-150 | the page number k + 1 follows the lines exactly when page numbers are on; otherwise the text ends with the last line |
| MakePdf.PageTexts | make_pdf.cpp:134-152 | one content text per page |
| MakePdf.Text | make_pdf.cpp:160-204 | each record begins with its object's header |
| MakePdf.PageLoop | make_pdf.cpp:167-190 | page k takes number next + 2k and its content next + 2k + 1, holding the text of page k; the counter ends 2·pages higher |
| MakePdf.ObjectNumbers | make_pdf.cpp:154-171 | `/Kids` lists 4 + 2k for page k in creation order, and objNum ends at 4 + 2·pages, one more than the objects written |
| MakePdf.ObjectOrder | make_pdf.cpp:160-204 | the write order is the font, then each page (4 + 2k) and its content (5 + 2k), then the tree over all pages, then the catalog |
| MakePdf.ObjectCount | make_pdf.cpp:206-210 | the table has objNum − 1 in-use entries, at least three |
| MakePdf.LoopIds | make_pdf.cpp:167-171 | the page loop writes consecutive numbers from the first free one |
| MakePdf.WriteOrderIds | make_pdf.cpp:154-204 | the object at write position p is numbered p + 3, except the last two: the tree (2) and the catalog (1) |
| MakePdf.NumbersOnce | make_pdf.cpp:154-204 | every number from 1 to objNum − 1 is written exactly once, at a known position |
| MakePdf.LengthIsTextLength | make_pdf.cpp:184-189 | a content object's `/Length` is the length of the text between `stream` and `endstream` |
| MakePdf.WrittenEntryOneIsFont | make_pdf.cpp:130-212 | as written, the first in-use entry, which a reader takes for object 1 (the catalog), points at the font's record and not at the catalog's |
| MakePdf.FixedEntriesFindObjects | make_pdf.cpp:206-212 | with the table indexed by object number, entry i points at the record `i+1 0 obj` for every object |

## Left out

- Reading and writing files (`readFileAll`, `ofstream`) are not modelled. The file contents are inputs, and the written file is a returned string whose length stands for `tellp`.
- Whether the merged output can be opened is an input, as a boolean. In the editor, a failed open (exit 1) is not modelled.
- Console prompts, language selection, `SetConsoleOutputCP` and the messages printed are left out; they are I/O only. The editor's language choice is kept only as the `chinese` setting, which decides the page-number text.
- The editor's input loop (SAVE, `:wq`, QUIT, the page-break notices) is left out, as I/O. `MakePdf.MakeFile` takes the wrapped lines.
- `charWidthEstimate` uses double arithmetic and truncation, so it is not modelled. `MakePdf.WrapLine` takes `maxChars` as a positive parameter. With maxChars = 0 the source divides by zero or loops forever.
- The `std::regex` engine is not modelled in general. Only the four patterns the merger uses are, as scanners.
- `stoi` overflow and 32-bit `int` are not modelled. Object numbers, digit runs and the shifted numbers are unbounded `nat`, so a number too large for `int` is read as its value rather than throwing.
- Merge.Run has no contract of its own. Its exit status is stated by `Merge.RunExitCode`, and the file it writes by `Merge.MergedWellNumbered`.
- The missing-object check in the dependency walk (`if (it == objs.end()) continue;`) is not modelled as a branch. Every queued number is defined, so it never skips anything.
- Content-stream text is not escaped by the editor, so a `(` or `)` in a line reaches the stream as typed. The model copies lines unchanged.
- The exact bytes of the binary-comment line of the merger are the UTF-8 bytes of "âãÏÓ", one char per byte. The editor writes no such line.
- Writer.WriteMerged: table correctness is proved under the merger's own conditions (non-pages before pages, no repeats, all defined), as `Merge.MergePlanWellFormed` shows the plan meets. For other inputs only the layout facts are stated.
- Dangling references are not proved to stay dangling. A reference in the second file to a number it does not define is kept as written, so it may land on a first-file object of that number. Likewise, a first-file object numbered 1000000 or more is rewritten through the second file's shift map. Both are modelled as the code does them.

## Findings

| source | as written | input that shows it | evidently intended | confidence | as-written member | corrected member |
|---|---|---|---|---|---|---|
| make_pdf.cpp:130-212 | offsets are pushed in write order (font 3, page 4, content 5, …, tree 2, catalog 1), and entry i of the table prints `offsets[i]` | any document, even one with no lines: the first in-use entry, read as object 1, holds the offset of `3 0 obj` | entry i holds the offset of object i | not executed | MakePdf.WrittenEntryOneIsFont | MakePdf.FixedEntriesFindObjects |
