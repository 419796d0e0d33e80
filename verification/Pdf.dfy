/** The native PDF writer: objects, their offsets, and the table that records them (section 7.5.4 of ISO 32000-1). */
module Pdf {
  import opened Results
  import opened Bytes
  import opened Decimals
  import opened Wrapping
  import Mojibake
  import Utf8

  const FONT_SIZE: nat := 11
  const LINE_HEIGHT: nat := 15
  const MARGIN: nat := 54
  const PAGE_H: nat := 842
  /** Lines that fit between the margins. */
  const LINES_PER_PAGE: nat := (PAGE_H - 2 * MARGIN) / LINE_HEIGHT

  const HEADER: seq<byte> := Ascii("%PDF-1.4\n%") + [0xE2, 0xE3, 0xCF, 0xD3, 10]

  function Ascii(s: string): seq<byte> {
    Utf8.Encode(s)
  }

  // ─── Text on a page ───

  /** A character as a literal string holds it: delimiters escaped, what the font lacks replaced. */
  function EscapeChar(c: char): string {
    if c == '\\' then "\\\\"
    else if c == '(' then "\\("
    else if c == ')' then "\\)"
    else [Shown(c)]
  }

  function Shown(c: char): char {
    if ' ' <= c <= '~' || '\U{00A0}' <= c <= '\U{00FF}' then c else '?'
  }

  function EscapeText(line: string): string {
    if line == "" then "" else EscapeChar(line[0]) + EscapeText(line[1..])
  }

  function ShownText(line: string): (s: string)
    ensures |s| == |line|
  {
    if line == "" then "" else [Shown(line[0])] + ShownText(line[1..])
  }

  function LinesStream(lines: seq<string>): string {
    if lines == [] then ""
    else LinesStream(lines[..|lines| - 1]) + ("(" + EscapeText(lines[|lines| - 1]) + ") Tj\nT*\n")
  }

  const STREAM_HEAD := "BT\n/F1 " + Decimal(FONT_SIZE) + " Tf\n" + Decimal(LINE_HEIGHT) + " TL\n" +
                       Decimal(MARGIN) + " " + Decimal(PAGE_H - MARGIN - FONT_SIZE) + " Td\n"

  function PageStream(lines: seq<string>): string {
    STREAM_HEAD + LinesStream(lines) + "ET"
  }

  function PagesOf(lines: seq<string>): (pages: seq<seq<string>>)
    ensures pages != []
    decreases |lines|
  {
    if |lines| <= LINES_PER_PAGE then [lines] else [lines[..LINES_PER_PAGE]] + PagesOf(lines[LINES_PER_PAGE..])
  }

  // ─── Objects ───

  function ObjectHeader(id: nat): seq<byte> {
    Ascii(Decimal(id) + " 0 obj\n")
  }

  function Kids(n: nat): string {
    if n == 0 then "" else Kids(n - 1) + (if n == 1 then "" else " ") + (Decimal(2 + 2 * n) + " 0 R")
  }

  /** The fixed text of the dictionaries, up to the entries that refer to other objects. */
  datatype Wording = Wording(catalogHead: string, treeHead: string, font: string, pageHead: string)

  // In short pieces: the prover unfolds a literal character by character, and long ones are dear.
  const PAGE_TYPE := "<< /Type /" + "Page "
  const PAGE_FRAME := "/Parent 2 0 " + "R /MediaBox " + "[0 0 595 " + "842] "
  const PAGE_FONTS := "/Resources " + "<< /Font << " + "/F1 3 0 R " + ">> >> "

  const WORDING := Wording(
    "<< /Type /" + "Catalog ",
    "<< /Type /" + "Pages ",
    "<< /Type /Font /Subtype /Type1 /BaseFont /Helvetica /Encoding /WinAnsiEncoding >>\nendobj\n",
    PAGE_TYPE + PAGE_FRAME + PAGE_FONTS)

  const PAGES_KEY := "/Pages "
  const KIDS_KEY := "/Kids ["
  const COUNT_KEY := "/Count "
  const CONTENTS_KEY := "/Contents "
  const ROOT_KEY := "/Root "
  const REF_END := " 0 R >>\n" + "endobj\n"

  function CatalogBody(w: Wording): seq<byte> {
    Ascii(w.catalogHead + (PAGES_KEY + (Decimal(2) + REF_END)))
  }

  function Catalog(w: Wording): seq<byte> {
    ObjectHeader(1) + CatalogBody(w)
  }

  const COUNT_END := " >>\nendobj\n"

  function TreeBody(w: Wording, n: nat): seq<byte> {
    Ascii(w.treeHead + (KIDS_KEY + (Kids(n) + ("] " + (COUNT_KEY + (Decimal(n) + COUNT_END))))))
  }

  function PageTree(w: Wording, n: nat): seq<byte> {
    ObjectHeader(2) + TreeBody(w, n)
  }

  function Font(w: Wording): seq<byte> {
    ObjectHeader(3) + Ascii(w.font)
  }

  function PageBody(w: Wording, index: nat): seq<byte> {
    Ascii(w.pageHead + (CONTENTS_KEY + (Decimal(5 + 2 * index) + REF_END)))
  }

  function PageObject(w: Wording, index: nat): seq<byte> {
    ObjectHeader(4 + 2 * index) + PageBody(w, index)
  }

  const LENGTH_KEY := "/Length "
  const LENGTH_WORD := "<< " + LENGTH_KEY
  const STREAM_KEY := "stream\n"
  const STREAM_WORD := " >>\n" + STREAM_KEY

  function LengthHead(length: nat): seq<byte> {
    Ascii(LENGTH_WORD) + Ascii(Decimal(length) + STREAM_WORD)
  }

  function ContentHead(index: nat, length: nat): seq<byte> {
    ObjectHeader(5 + 2 * index) + LengthHead(length)
  }

  const STREAM_END := "\nendstream\nendobj\n"

  function ContentAround(index: nat, stream: seq<byte>): seq<byte> {
    ContentHead(index, |stream|) + stream + Ascii(STREAM_END)
  }

  function ContentObject(index: nat, lines: seq<string>): seq<byte> {
    ContentAround(index, Utf8.Encode(PageStream(lines)))
  }

  /** The objects of the first `n` pages, after the three every document has. */
  function ObjectsUpTo(w: Wording, pages: seq<seq<string>>, n: nat): (objects: seq<seq<byte>>)
    requires n <= |pages|
    ensures |objects| == 3 + 2 * n
  {
    if n == 0 then [Catalog(w), PageTree(w, |pages|), Font(w)]
    else ObjectsUpTo(w, pages, n - 1) + [PageObject(w, n - 1), ContentObject(n - 1, pages[n - 1])]
  }

  function Joined(objects: seq<seq<byte>>): seq<byte> {
    if objects == [] then [] else Joined(objects[..|objects| - 1]) + objects[|objects| - 1]
  }

  function Body(objects: seq<seq<byte>>): seq<byte> {
    HEADER + Joined(objects)
  }

  /** Where object `id` begins. */
  function OffsetOf(objects: seq<seq<byte>>, id: nat): nat
    requires 1 <= id <= |objects|
  {
    |Body(objects[..id - 1])|
  }

  // ─── The table and the trailer ───

  function Entry(offset: nat): seq<byte> {
    Ascii(Format(offset, 10) + " 00000 n \n")
  }

  function TableHead(total: nat): seq<byte> {
    Ascii("xref\n0 ") + Ascii(Decimal(total + 1) + "\n") + Ascii("0000000000 65535 f \n")
  }

  function EntriesUpTo(objects: seq<seq<byte>>, id: nat): seq<byte>
    requires id <= |objects|
  {
    if id == 0 then [] else EntriesUpTo(objects, id - 1) + Entry(OffsetOf(objects, id))
  }

  const TRAILER_HEAD := "trailer\n" + "<< /Size "
  const TRAILER_END := " 0 R >>\n"

  function Trailer(total: nat): seq<byte> {
    Ascii(TRAILER_HEAD + Decimal(total + 1) + " " + (ROOT_KEY + (Decimal(1) + TRAILER_END)))
  }

  const STARTXREF := "startxref\n"

  function StartXref(offset: nat): seq<byte> {
    Ascii(STARTXREF) + Ascii(Decimal(offset) + "\n%%EOF\n")
  }

  function Document(objects: seq<seq<byte>>): seq<byte> {
    Body(objects) + TableHead(|objects|) + EntriesUpTo(objects, |objects|) + Trailer(|objects|) +
    StartXref(|Body(objects)|)
  }

  /** All objects of a text's document. */
  function ObjectsOf(w: Wording, text: string): (objects: seq<seq<byte>>)
    ensures |objects| == 3 + 2 * |PagesOf(WrapLines(text))|
  {
    var pages := PagesOf(WrapLines(text));
    ObjectsUpTo(w, pages, |pages|)
  }

  function TextToPdf(text: string): seq<byte> {
    Document(ObjectsOf(WORDING, text))
  }

  // ─── The writer as it runs ───

  method StreamOf(lines: seq<string>) returns (stream: string)
    ensures stream == PageStream(lines)
  {
    hide EscapeText, STREAM_HEAD;
    stream := STREAM_HEAD;
    for i := 0 to |lines|
      invariant stream == STREAM_HEAD + LinesStream(lines[..i])
    {
      assert lines[..i + 1][..i] == lines[..i];
      ghost var before := stream;
      stream := stream + ("(" + EscapeText(lines[i]) + ") Tj\nT*\n");
      assert STREAM_HEAD + (LinesStream(lines[..i]) + ("(" + EscapeText(lines[i]) + ") Tj\nT*\n")) == stream;
    }
    assert lines[..|lines|] == lines;
    stream := stream + "ET";
  }

  lemma JoinOne(objects: seq<seq<byte>>, x: seq<byte>)
    ensures Body(objects + [x]) == Body(objects) + x
  {
    hide HEADER;
    assert (objects + [x])[..|objects|] == objects;
    assert HEADER + (Joined(objects) + x) == (HEADER + Joined(objects)) + x;
  }

  /** Offsets recorded so far are the objects' beginnings. */
  ghost predicate Recorded(offsets: seq<nat>, objects: seq<seq<byte>>) {
    |objects| < |offsets| && forall id: nat :: 1 <= id <= |objects| ==> offsets[id] == OffsetOf(objects, id)
  }

  lemma RecordOne(offsets: seq<nat>, objects: seq<seq<byte>>, x: seq<byte>)
    requires Recorded(offsets, objects) && |objects| + 1 < |offsets|
    ensures Recorded(offsets[|objects| + 1 := |Body(objects)|], objects + [x])
  {
    hide Body;
    var id := |objects| + 1;
    forall k: nat | 1 <= k <= id
      ensures OffsetOf(objects + [x], k) == if k < id then OffsetOf(objects, k) else |Body(objects)|
    {
      if k < id {
        assert (objects + [x])[..k - 1] == objects[..k - 1];
      } else {
        assert (objects + [x])[..k - 1] == objects;
      }
    }
  }

  /** Writes one object and records where it begins. */
  method WriteObject(out: seq<byte>, offsets: array<nat>, id: nat, piece: seq<byte>, ghost objects: seq<seq<byte>>)
    returns (longer: seq<byte>)
    requires out == Body(objects) && id == |objects| + 1 < offsets.Length && Recorded(offsets[..], objects)
    modifies offsets
    ensures longer == Body(objects + [piece]) && Recorded(offsets[..], objects + [piece])
  {
    hide Body, Recorded, OffsetOf;
    RecordOne(offsets[..], objects, piece);
    JoinOne(objects, piece);
    var at: nat := |out|;
    ghost var before: seq<nat> := offsets[..];
    offsets[id] := at;
    assert offsets[..] == before[id := at];
    longer := out + piece;
  }

  /** The table after the objects: one entry an object, from its recorded offset. */
  method TableOf(offsets: array<nat>, objects: seq<seq<byte>>) returns (table: seq<byte>)
    requires Recorded(offsets[..], objects)
    ensures table == TableHead(|objects|) + EntriesUpTo(objects, |objects|)
  {
    hide TableHead, Entry, OffsetOf;
    table := TableHead(|objects|);
    assert table + [] == table;
    for id := 1 to |objects| + 1
      invariant table == TableHead(|objects|) + EntriesUpTo(objects, id - 1)
    {
      assert offsets[id] == offsets[..][id] == OffsetOf(objects, id);
      assert TableHead(|objects|) + (EntriesUpTo(objects, id - 1) + Entry(OffsetOf(objects, id)))
          == table + Entry(offsets[id]);
      table := table + Entry(offsets[id]);
    }
  }

  method WriteDocument(w: Wording, text: string) returns (out: seq<byte>)
    ensures out == Document(ObjectsOf(w, text))
  {
    hide Body, Recorded, TableHead, Trailer, StartXref, PageObject, ContentObject, PageStream, Catalog, PageTree, Font,
         PagesOf, EntriesUpTo, WrapLines, HEADER, Document;
    var lines := WrapText(text);
    var pages := PagesOf(lines);
    var total := 3 + 2 * |pages|;
    var offsets := new nat[total + 1](_ => 0);
    out := HEADER;
    NothingWritten(offsets[..]);
    out := WriteObject(out, offsets, 1, Catalog(w), []);
    assert [] + [Catalog(w)] == [Catalog(w)];
    out := WriteObject(out, offsets, 2, PageTree(w, |pages|), [Catalog(w)]);
    assert [Catalog(w)] + [PageTree(w, |pages|)] == [Catalog(w), PageTree(w, |pages|)];
    out := WriteObject(out, offsets, 3, Font(w), [Catalog(w), PageTree(w, |pages|)]);
    assert [Catalog(w), PageTree(w, |pages|)] + [Font(w)] == ObjectsUpTo(w, pages, 0);
    for index := 0 to |pages|
      invariant out == Body(ObjectsUpTo(w, pages, index)) && Recorded(offsets[..], ObjectsUpTo(w, pages, index))
    {
      var stream := StreamOf(pages[index]);
      ghost var before := ObjectsUpTo(w, pages, index);
      out := WriteObject(out, offsets, 4 + 2 * index, PageObject(w, index), before);
      var content := ContentOf(index, stream, pages[index]);
      out := WriteObject(out, offsets, 5 + 2 * index, content, before + [PageObject(w, index)]);
      assert before + [PageObject(w, index)] + [content] == ObjectsUpTo(w, pages, index + 1);
    }
    var table := TableOf(offsets, ObjectsUpTo(w, pages, |pages|));
    FinalOrder(ObjectsUpTo(w, pages, |pages|), table);
    out := out + table + Trailer(total) + StartXref(|out|);
  }

  method WritePdf(text: string) returns (out: seq<byte>)
    ensures out == TextToPdf(text)
  {
    out := WriteDocument(WORDING, text);
  }

  lemma NothingWritten(offsets: seq<nat>)
    requires offsets != []
    ensures Body([]) == HEADER && Recorded(offsets, [])
  {
    assert HEADER + [] == HEADER;
  }

  lemma FinalOrder(objects: seq<seq<byte>>, table: seq<byte>)
    requires table == TableHead(|objects|) + EntriesUpTo(objects, |objects|)
    ensures Document(objects) == Body(objects) + table + Trailer(|objects|) + StartXref(|Body(objects)|)
  {
    hide Body, TableHead, EntriesUpTo, Trailer, StartXref;
    assert Body(objects) + table == Body(objects) + TableHead(|objects|) + EntriesUpTo(objects, |objects|);
  }

  method ContentOf(index: nat, stream: string, lines: seq<string>) returns (content: seq<byte>)
    requires stream == PageStream(lines)
    ensures content == ContentObject(index, lines)
  {
    hide PageStream, ContentHead;
    var coded := Utf8.Encode(stream);
    content := ContentHead(index, |coded|) + coded + Ascii(STREAM_END);
  }

  // ─── Offsets ───

  /** `piece` stands in `whole` at `at`. */
  ghost predicate StandsAt(whole: seq<byte>, at: nat, piece: seq<byte>) {
    at + |piece| <= |whole| && whole[at..at + |piece|] == piece
  }

  lemma StandsWithin(whole: seq<byte>, at: nat, piece: seq<byte>, inner: nat, part: seq<byte>)
    requires StandsAt(whole, at, piece) && StandsAt(piece, inner, part)
    ensures StandsAt(whole, at + inner, part)
  {
    var a, b := whole[at + inner..at + inner + |part|], whole[at..at + |piece|][inner..inner + |part|];
    assert forall i :: 0 <= i < |part| ==> a[i] == whole[at + inner + i] && b[i] == whole[at + inner + i];
    assert a == b;
  }

  lemma StandsAfter(before: seq<byte>, piece: seq<byte>, after: seq<byte>)
    ensures StandsAt(before + piece + after, |before|, piece)
  {
  }

  lemma StandsInFront(whole: seq<byte>, more: seq<byte>, at: nat, piece: seq<byte>)
    requires StandsAt(whole, at, piece)
    ensures StandsAt(whole + more, at, piece)
  {
    assert (whole + more)[at..at + |piece|] == whole[at..at + |piece|];
  }

  /** Every object stands where its offset says. */
  lemma {:induction false} ObjectStands(objects: seq<seq<byte>>, id: nat)
    requires 1 <= id <= |objects|
    ensures StandsAt(Body(objects), OffsetOf(objects, id), objects[id - 1])
    decreases |objects|
  {
    hide HEADER, StandsAt;
    var n := |objects| - 1;
    var last := objects[n];
    assert objects == objects[..n] + [last];
    JoinOne(objects[..n], last);
    if id == |objects| {
      StandsAfter(Body(objects[..n]), last, []);
      assert Body(objects) + [] == Body(objects);
    } else {
      ObjectStands(objects[..n], id);
      assert objects[..n][..id - 1] == objects[..id - 1];
      StandsInFront(Body(objects[..n]), last, OffsetOf(objects, id), objects[id - 1]);
    }
  }

  lemma StandsFirst(piece: seq<byte>, after: seq<byte>)
    ensures StandsAt(piece + after, 0, piece)
  {
  }

  lemma FixedHeaders(w: Wording, n: nat)
    ensures StandsAt(Catalog(w), 0, ObjectHeader(1)) && StandsAt(PageTree(w, n), 0, ObjectHeader(2)) &&
            StandsAt(Font(w), 0, ObjectHeader(3))
  {
    hide StandsAt, ObjectHeader, Ascii, CatalogBody, TreeBody;
    StandsFirst(ObjectHeader(1), CatalogBody(w));
    StandsFirst(ObjectHeader(2), TreeBody(w, n));
    StandsFirst(ObjectHeader(3), Ascii(w.font));
  }

  lemma PageHeader(w: Wording, index: nat)
    ensures StandsAt(PageObject(w, index), 0, ObjectHeader(4 + 2 * index))
  {
    hide StandsAt, ObjectHeader, PageBody;
    StandsFirst(ObjectHeader(4 + 2 * index), PageBody(w, index));
  }

  lemma ContentHeader(index: nat, lines: seq<string>)
    ensures StandsAt(ContentObject(index, lines), 0, ObjectHeader(5 + 2 * index))
  {
    hide StandsAt, ObjectHeader, Ascii, LengthHead, PageStream, STREAM_END;
    var head, stream := ObjectHeader(5 + 2 * index), Utf8.Encode(PageStream(lines));
    StandsFirst(head, LengthHead(|stream|));
    StandsInFront(ContentHead(index, |stream|), stream, 0, head);
    StandsInFront(ContentHead(index, |stream|) + stream, Ascii(STREAM_END), 0, head);
  }

  lemma {:induction false} OpensWithHeader(w: Wording, pages: seq<seq<string>>, n: nat, id: nat)
    requires n <= |pages| && 1 <= id <= 3 + 2 * n
    ensures StandsAt(ObjectsUpTo(w, pages, n)[id - 1], 0, ObjectHeader(id))
    decreases n
  {
    hide ObjectHeader, StandsAt, Catalog, PageTree, Font, PageObject, ContentObject;
    if n == 0 {
      FixedHeaders(w, |pages|);
      assert id == 1 || id == 2 || id == 3;
    } else if id <= 3 + 2 * (n - 1) {
      OpensWithHeader(w, pages, n - 1, id);
    } else {
      PageHeader(w, n - 1);
      ContentHeader(n - 1, pages[n - 1]);
      assert id == 4 + 2 * (n - 1) || id == 5 + 2 * (n - 1);
    }
  }

  /** Each recorded offset is where that object's header begins. */
  lemma OffsetsPoint(w: Wording, text: string, id: nat)
    requires 1 <= id <= |ObjectsOf(w, text)|
    ensures var objects := ObjectsOf(w, text);
            StandsAt(Document(objects), OffsetOf(objects, id), ObjectHeader(id)) &&
            StandsAt(Document(objects), OffsetOf(objects, id), objects[id - 1])
  {
    hide Body, TableHead, EntriesUpTo, Trailer, StartXref, ObjectHeader, PagesOf, WrapLines, ObjectsUpTo, StandsAt;
    var pages := PagesOf(WrapLines(text));
    var objects := ObjectsUpTo(w, pages, |pages|);
    ObjectStands(objects, id);
    OpensWithHeader(w, pages, |pages|, id);
    var at := OffsetOf(objects, id);
    var rest := TableHead(|objects|) + EntriesUpTo(objects, |objects|) + Trailer(|objects|) +
                StartXref(|Body(objects)|);
    assert Document(objects) == Body(objects) + rest;
    StandsInFront(Body(objects), rest, at, objects[id - 1]);
    StandsWithin(Document(objects), at, objects[id - 1], 0, ObjectHeader(id));
  }

  // ─── Numbers read back ───

  /** The digits bytes begin with. */
  function LeadingDigits(bytes: seq<byte>): (s: string)
    ensures IsDigits(s)
  {
    if bytes == [] || !(48 <= bytes[0] <= 57) then "" else [bytes[0] as char] + LeadingDigits(bytes[1..])
  }

  /** The number that stands in a document at `at`. */
  function NumberAt(out: seq<byte>, at: nat): nat
    requires at <= |out|
  {
    Number(LeadingDigits(out[at..]))
  }

  lemma {:induction false} DigitsReadBack(s: string, after: seq<byte>)
    requires IsDigits(s) && (after == [] || !(48 <= after[0] <= 57))
    ensures LeadingDigits(Ascii(s) + after) == s
  {
    if s == "" {
      assert Ascii(s) + after == after;
    } else {
      assert Utf8.EncodeChar(s[0]) == [s[0] as int];
      assert Ascii(s) + after == [s[0] as int] + (Ascii(s[1..]) + after);
      assert (Ascii(s) + after)[1..] == Ascii(s[1..]) + after;
      DigitsReadBack(s[1..], after);
      assert [s[0]] + s[1..] == s;
    }
  }

  /** A number written before something that is no digit reads back. */
  lemma NumberReads(out: seq<byte>, at: nat, n: nat, least: nat, end: string)
    requires StandsAt(out, at, Ascii(Format(n, least) + end)) && end != "" && !('0' <= end[0] <= '9')
    ensures NumberAt(out, at) == n
  {
    hide Format, StandsAt, Ascii;
    var digits := Format(n, least);
    AsciiConcat(digits, end);
    var piece := Ascii(digits + end);
    FromPiece(out, at, piece);
    var after := Ascii(end) + out[at + |piece|..];
    assert out[at..] == Ascii(digits) + after;
    NoDigitFirst(end);
    DigitsReadBack(digits, after);
    FormatReads(n, least);
  }

  lemma AsciiConcat(a: string, b: string)
    ensures Ascii(a + b) == Ascii(a) + Ascii(b)
  {
    Utf8.EncodeConcat(a, b);
  }

  lemma FromPiece(out: seq<byte>, at: nat, piece: seq<byte>)
    requires StandsAt(out, at, piece)
    ensures at + |piece| <= |out| && out[at..] == piece + out[at + |piece|..]
  {
  }

  lemma NoDigitFirst(end: string)
    requires end != "" && !('0' <= end[0] <= '9')
    ensures Ascii(end) != [] && !(48 <= Ascii(end)[0] <= 57)
  {
    var first := Utf8.EncodeChar(end[0]);
    assert Ascii(end)[0] == first[0];
  }

  lemma MarkFirst(body: seq<byte>, mark: seq<byte>, rest: seq<byte>, a: seq<byte>, b: seq<byte>, c: seq<byte>)
    ensures body + (mark + rest) + a + b + c == body + mark + (rest + a + b + c)
  {
  }

  lemma LastTwo(before: seq<byte>, word: seq<byte>, number: seq<byte>)
    ensures before + (word + number) == before + word + number == before + word + number + []
  {
  }

  /** The number after `startxref`, read back, is where the table begins. */
  lemma StartxrefPoints(objects: seq<seq<byte>>)
    ensures var out := Document(objects);
            var at, mark := |Body(objects)|, |out| - |StartXref(|Body(objects)|)|;
            StandsAt(out, at, Ascii("xref\n0 ")) && StandsAt(out, mark, Ascii(STARTXREF)) &&
            mark + |Ascii(STARTXREF)| <= |out| && NumberAt(out, mark + |Ascii(STARTXREF)|) == at
  {
    hide Body, EntriesUpTo, Trailer, Ascii, STARTXREF, NumberAt, StandsAt, Format;
    var out, at := Document(objects), |Body(objects)|;
    var last := StartXref(at);
    var mark, rest := Ascii("xref\n0 "), Ascii(Decimal(|objects| + 1) + "\n") + Ascii("0000000000 65535 f \n");
    assert TableHead(|objects|) == mark + rest;
    var after := rest + EntriesUpTo(objects, |objects|) + Trailer(|objects|) + last;
    MarkFirst(Body(objects), mark, rest, EntriesUpTo(objects, |objects|), Trailer(|objects|), last);
    StandsAfter(Body(objects), mark, after);
    var before := Body(objects) + TableHead(|objects|) + EntriesUpTo(objects, |objects|) + Trailer(|objects|);
    var word, number := Ascii(STARTXREF), Ascii(Decimal(at) + "\n%%EOF\n");
    StandsAfter(before, word, number);
    StandsAfter(before + word, number, []);
    LastTwo(before, word, number);
    StandsBounded(out, |before|, word);
    NumberReads(out, |before + word|, at, 1, "\n%%EOF\n");
  }

  // ─── Entries ───

  lemma {:induction false} DigitsAscii(s: string)
    requires IsDigits(s)
    ensures |Ascii(s + " 00000 n \n")| == |s| + 10
  {
    assert forall i :: 0 <= i < 10 ==> " 00000 n \n"[i] < '\U{0080}';
    assert forall i :: 0 <= i < |s| ==> s[i] < '\U{0080}';
    Utf8.AsciiLength(s + " 00000 n \n");
  }

  /** An entry is twenty bytes exactly while its offset fits ten digits. */
  lemma EntryLength(offset: nat)
    ensures |Entry(offset)| == 20 <==> offset < Power(10)
  {
    FormatReads(offset, 10);
    FormatWidth(offset, 10);
    DigitsAscii(Format(offset, 10));
  }

  lemma OffsetsGrow(objects: seq<seq<byte>>, id: nat)
    requires 1 <= id <= |objects|
    ensures OffsetOf(objects, id) <= |Body(objects)|
  {
    hide StandsAt;
    ObjectStands(objects, id);
    assert OffsetOf(objects, id) <= |Body(objects)| by {
      StandsBounded(Body(objects), OffsetOf(objects, id), objects[id - 1]);
    }
  }

  lemma StandsBounded(whole: seq<byte>, at: nat, piece: seq<byte>)
    requires StandsAt(whole, at, piece)
    ensures at + |piece| <= |whole|
  {
  }

  /** While the body is under ten digits long, entry `id` stands at its twenty bytes' place. */
  lemma {:induction false} EntryStands(objects: seq<seq<byte>>, n: nat, id: nat)
    requires 1 <= id <= n <= |objects| && |Body(objects)| < Power(10)
    ensures |EntriesUpTo(objects, n)| == 20 * n
    ensures StandsAt(EntriesUpTo(objects, n), 20 * (id - 1), Entry(OffsetOf(objects, id)))
    decreases n
  {
    hide Entry, Body, OffsetOf, StandsAt;
    OffsetsGrow(objects, n);
    EntryLength(OffsetOf(objects, n));
    var before, last := EntriesUpTo(objects, n - 1), Entry(OffsetOf(objects, n));
    if n == 1 {
    } else {
      EntryStands(objects, n - 1, if id < n then id else 1);
    }
    if id == n {
      StandsAfter(before, last, []);
      assert before + last + [] == before + last;
    } else {
      StandsInFront(before, last, 20 * (id - 1), Entry(OffsetOf(objects, id)));
    }
  }

  /** The table's entries, in the finished document: each reads back as its object's offset. */
  lemma TablePoints(objects: seq<seq<byte>>, id: nat)
    requires 1 <= id <= |objects| && |Body(objects)| < Power(10)
    ensures var at := |Body(objects)| + |TableHead(|objects|)| + 20 * (id - 1);
            StandsAt(Document(objects), at, Entry(OffsetOf(objects, id))) && at <= |Document(objects)| &&
            NumberAt(Document(objects), at) == OffsetOf(objects, id)
  {
    hide Body, TableHead, EntriesUpTo, Trailer, StartXref, OffsetOf, StandsAt, NumberAt, Ascii;
    EntryStands(objects, |objects|, id);
    var before, entries := Body(objects) + TableHead(|objects|), EntriesUpTo(objects, |objects|);
    var after := Trailer(|objects|) + StartXref(|Body(objects)|);
    assert Document(objects) == before + entries + after;
    StandsAfter(before, entries, after);
    StandsWithin(Document(objects), |before|, entries, 20 * (id - 1), Entry(OffsetOf(objects, id)));
    StandsBounded(Document(objects), |before| + 20 * (id - 1), Entry(OffsetOf(objects, id)));
    NumberReads(Document(objects), |before| + 20 * (id - 1), OffsetOf(objects, id), 10, " 00000 n \n");
  }

  // ─── Stream lengths ───

  /** What stands before the length in the object of a page's stream. */
  function LengthMark(index: nat): seq<byte> {
    ObjectHeader(5 + 2 * index) + Ascii(LENGTH_WORD)
  }

  /** Inside the object: the stated number, the stream that many bytes long, the end marker behind it. */
  lemma ContentStates(index: nat, stream: seq<byte>)
    ensures var content, head := ContentAround(index, stream), ContentHead(index, |stream|);
            StandsAt(content, |LengthMark(index)|, Ascii(Decimal(|stream|) + STREAM_WORD)) &&
            StandsAt(content, |head|, stream) && StandsAt(content, |head| + |stream|, Ascii(STREAM_END))
  {
    hide ObjectHeader, Ascii, StandsAt, STREAM_END, Decimal, LENGTH_WORD, STREAM_WORD;
    var end, head, mark := Ascii(STREAM_END), ContentHead(index, |stream|), LengthMark(index);
    var number := Ascii(Decimal(|stream|) + STREAM_WORD);
    assert head == mark + number;
    assert ContentAround(index, stream) == mark + number + (stream + end);
    StandsAfter(mark, number, stream + end);
    StandsAfter(head, stream, end);
    StandsLast(head + stream, end);
  }

  lemma {:induction false} ContentIsObject(w: Wording, pages: seq<seq<string>>, n: nat, index: nat)
    requires index < n <= |pages|
    ensures ObjectsUpTo(w, pages, n)[4 + 2 * index] == ContentObject(index, pages[index])
    decreases n
  {
    hide PageObject, ContentObject, Catalog, PageTree, Font;
    if index == n - 1 {
    } else {
      ContentIsObject(w, pages, n - 1, index);
    }
  }

  /** At `at` begins an object that states a number, then holds that many bytes of `stream`, then the end marker. */
  ghost predicate StatesStream(out: seq<byte>, at: nat, index: nat, stream: seq<byte>) {
    var digits := at + |LengthMark(index)|;
    digits <= |out| &&
    var length := NumberAt(out, digits);
    var start := at + |ContentHead(index, length)|;
    length == |stream| && StandsAt(out, start, stream) && StandsAt(out, start + length, Ascii(STREAM_END))
  }

  /** In the finished document, at the offset recorded for a page's stream object, the stated length is exact. */
  lemma StreamLengthExact(w: Wording, text: string, index: nat)
    requires index < |PagesOf(WrapLines(text))|
    ensures StatesStream(Document(ObjectsOf(w, text)), OffsetOf(ObjectsOf(w, text), 5 + 2 * index), index,
                         Utf8.Encode(PageStream(PagesOf(WrapLines(text))[index])))
  {
    hide Body, StandsAt, PageStream, PagesOf, WrapLines, ContentHead, LengthMark, OffsetOf, Document, NumberAt,
         STREAM_END, Format, Ascii, STREAM_WORD;
    var pages := PagesOf(WrapLines(text));
    var objects := ObjectsOf(w, text);
    var stream := Utf8.Encode(PageStream(pages[index]));
    var out, at := Document(objects), OffsetOf(objects, 5 + 2 * index);
    OffsetsPoint(w, text, 5 + 2 * index);
    ContentIsObject(w, pages, |pages|, index);
    var content, head, mark := ContentAround(index, stream), ContentHead(index, |stream|), LengthMark(index);
    var number := Ascii(Decimal(|stream|) + STREAM_WORD);
    ContentStates(index, stream);
    StandsWithin(out, at, content, |mark|, number);
    StandsWithin(out, at, content, |head|, stream);
    StandsWithin(out, at, content, |head| + |stream|, Ascii(STREAM_END));
    StandsBounded(out, at + |mark|, number);
    StreamWordReads();
    NumberReads(out, at + |mark|, |stream|, 1, STREAM_WORD);
  }

  lemma StreamWordReads()
    ensures STREAM_WORD != "" && STREAM_WORD[0] == ' '
  {
  }

  lemma StandsLast(before: seq<byte>, piece: seq<byte>)
    ensures StandsAt(before + piece, |before|, piece)
  {
  }

  // ─── Pages and strings ───

  function Flat(pages: seq<seq<string>>): seq<string>
    decreases |pages|
  {
    if pages == [] then [] else pages[0] + Flat(pages[1..])
  }

  /** The pages together are all the lines, 48 on every page but the last, which has no more. */
  lemma {:induction false} PagesKeepLines(lines: seq<string>)
    ensures Flat(PagesOf(lines)) == lines
    ensures forall i :: 0 <= i < |PagesOf(lines)| ==> |PagesOf(lines)[i]| <= 48
    ensures forall i :: 0 <= i < |PagesOf(lines)| - 1 ==> |PagesOf(lines)[i]| == 48
    decreases |lines|
  {
    if |lines| <= LINES_PER_PAGE {
      assert [lines][1..] == [] && lines + [] == lines;
    } else {
      var rest := lines[LINES_PER_PAGE..];
      PagesKeepLines(rest);
      assert PagesOf(lines)[1..] == PagesOf(rest);
      assert lines == lines[..LINES_PER_PAGE] + rest;
    }
  }

  // ─── What a reader shows ───

  const LINE_FEED: byte := 10
  const RETURN: byte := 13
  const OPENING: byte := 40
  const CLOSING: byte := 41
  const ESCAPE: byte := 92

  /** Bytes a reader took, and the bytes it has left. */
  datatype Taken = Taken(value: seq<byte>, rest: seq<byte>)

  function Put(value: seq<byte>, tail: Option<Taken>): Option<Taken> {
    if tail.None? then None else Some(Taken(value + tail.value.value, tail.value.rest))
  }

  predicate Octal(b: byte) {
    48 <= b <= 55
  }

  /** What an escape stands for, and how many bytes behind the backslash it takes. */
  function Escaped(s: seq<byte>): (r: (seq<byte>, nat))
    requires s != []
    ensures 1 <= r.1 <= |s|
  {
    if s[0] == 110 then ([LINE_FEED], 1)
    else if s[0] == 114 then ([RETURN], 1)
    else if s[0] == 116 then ([9], 1)
    else if s[0] == 98 then ([8], 1)
    else if s[0] == 102 then ([12], 1)
    else if s[0] == LINE_FEED then ([], 1)
    else if s[0] == RETURN then ([], if |s| > 1 && s[1] == LINE_FEED then 2 else 1)
    else if !Octal(s[0]) then ([s[0]], 1)
    else if |s| == 1 || !Octal(s[1]) then ([s[0] - 48], 1)
    else if |s| == 2 || !Octal(s[2]) then ([(s[0] - 48) * 8 + (s[1] - 48)], 2)
    else ([((s[0] as int - 48) * 64 + (s[1] as int - 48) * 8 + (s[2] as int - 48)) % 256], 3)
  }

  /** The bytes of a literal string up to the parenthesis that closes it (section 7.3.4.2 of ISO 32000-1). */
  function ReadLiteral(s: seq<byte>, depth: nat): Option<Taken>
    decreases |s|
  {
    if s == [] then None
    else if s[0] == ESCAPE then
      if |s| == 1 then None else Put(Escaped(s[1..]).0, ReadLiteral(s[1..][Escaped(s[1..]).1..], depth))
    else if s[0] == RETURN then
      Put([LINE_FEED], ReadLiteral(s[if |s| > 1 && s[1] == LINE_FEED then 2 else 1..], depth))
    else if s[0] == OPENING then Put([OPENING], ReadLiteral(s[1..], depth + 1))
    else if s[0] != CLOSING then Put([s[0]], ReadLiteral(s[1..], depth))
    else if depth == 0 then Some(Taken([], s[1..]))
    else Put([CLOSING], ReadLiteral(s[1..], depth - 1))
  }

  /** Bytes that mean themselves are taken one by one. */
  lemma {:induction false} PlainBytesRead(plain: seq<byte>, rest: seq<byte>)
    requires forall i :: 0 <= i < |plain| ==> plain[i] !in {RETURN, OPENING, CLOSING, ESCAPE}
    ensures ReadLiteral(plain + rest, 0) == Put(plain, ReadLiteral(rest, 0))
  {
    if plain == [] {
      assert plain + rest == rest;
      NothingPut(ReadLiteral(rest, 0));
    } else {
      var s := plain + rest;
      assert s[0] == plain[0] && s[1..] == plain[1..] + rest;
      PlainBytesRead(plain[1..], rest);
      PutTwice([plain[0]], plain[1..], ReadLiteral(rest, 0));
      assert [plain[0]] + plain[1..] == plain;
    }
  }

  lemma NothingPut(tail: Option<Taken>)
    ensures Put([], tail) == tail
  {
    if tail.Some? {
      assert [] + tail.value.value == tail.value.value;
    }
  }

  lemma PutTwice(a: seq<byte>, b: seq<byte>, tail: Option<Taken>)
    ensures Put(a, Put(b, tail)) == Put(a + b, tail)
  {
    if tail.Some? {
      assert a + (b + tail.value.value) == a + b + tail.value.value;
    }
  }

  /** One escaped character reads as the bytes of the character shown. */
  lemma CharReads(c: char, rest: seq<byte>)
    ensures ReadLiteral(Utf8.Encode(EscapeChar(c)) + rest, 0) == Put(Utf8.EncodeChar(Shown(c)), ReadLiteral(rest, 0))
  {
    hide ReadLiteral, Put, Utf8.EncodeChar;
    if c == '\\' || c == '(' || c == ')' {
      EscapedReadsSelf(c, rest);
    } else {
      var shown := [Shown(c)];
      assert shown[1..] == "" && Utf8.Encode(shown) == Utf8.EncodeChar(Shown(c)) + [];
      PlainBytes(c);
      PlainBytesRead(Utf8.EncodeChar(Shown(c)), rest);
      assert Utf8.Encode(EscapeChar(c)) == Utf8.EncodeChar(Shown(c));
    }
  }

  lemma PlainBytes(c: char)
    requires c != '\\' && c != '(' && c != ')'
    ensures forall i :: 0 <= i < |Utf8.EncodeChar(Shown(c))| ==>
              Utf8.EncodeChar(Shown(c))[i] !in {RETURN, OPENING, CLOSING, ESCAPE}
  {
  }

  lemma EscapedReadsSelf(c: char, rest: seq<byte>)
    requires c == '\\' || c == '(' || c == ')'
    ensures ReadLiteral(Utf8.Encode(EscapeChar(c)) + rest, 0) == Put(Utf8.EncodeChar(Shown(c)), ReadLiteral(rest, 0))
  {
    hide Utf8.Encode, Put;
    SingleByte('\\');
    SingleByte(c);
    Utf8.EncodeConcat("\\", [c]);
    var b := c as int;
    assert EscapeChar(c) == "\\" + [c];
    var s := Utf8.Encode(EscapeChar(c)) + rest;
    assert s == [ESCAPE] + ([b] + rest);
    assert s[0] == ESCAPE && s[1..] == [b] + rest && s[1..][0] == b && s[1..][1..] == rest;
  }

  /** An escaped line reads as exactly the bytes of the characters shown, and ends where it was meant to. */
  lemma {:induction false} EscapedReads(line: string, after: seq<byte>)
    ensures ReadLiteral(Utf8.Encode(EscapeText(line)) + ([CLOSING] + after), 0) ==
            Some(Taken(Utf8.Encode(ShownText(line)), after))
  {
    hide EscapeChar, EscapeText, Shown, ShownText, Utf8.EncodeChar, Utf8.Encode, ReadLiteral;
    var closed := [CLOSING] + after;
    if line == "" {
      NothingEscaped(after);
      assert Utf8.Encode(EscapeText("")) + closed == closed;
    } else {
      EscapedReads(line[1..], after);
      EscapeStep(line);
      var first, rest := EscapeChar(line[0]), EscapeText(line[1..]);
      Utf8.EncodeConcat(first, rest);
      assert Utf8.Encode(first + rest) + closed == Utf8.Encode(first) + (Utf8.Encode(rest) + closed);
      CharReads(line[0], Utf8.Encode(rest) + closed);
      ShownStep(line);
    }
  }

  lemma NothingEscaped(after: seq<byte>)
    ensures Utf8.Encode(EscapeText("")) == [] && Utf8.Encode(ShownText("")) == []
    ensures ReadLiteral([CLOSING] + after, 0) == Some(Taken([], after))
  {
    assert ([CLOSING] + after)[1..] == after;
  }

  lemma EscapeStep(line: string)
    requires line != ""
    ensures EscapeText(line) == EscapeChar(line[0]) + EscapeText(line[1..])
  {
  }

  lemma ShownStep(line: string)
    requires line != ""
    ensures Utf8.Encode(ShownText(line)) == Utf8.EncodeChar(Shown(line[0])) + Utf8.Encode(ShownText(line[1..]))
  {
    hide Shown, Utf8.EncodeChar;
    assert ShownText(line)[1..] == ShownText(line[1..]);
  }

  // ─── A page read back ───

  const SHOW := " Tj\nT*\n"

  /** The strings a page's lines show, in order; the drawing ends with the text object. */
  function ReadShows(s: seq<byte>): Option<seq<seq<byte>>>
    decreases |s|
  {
    if s == Ascii("ET") then Some([])
    else if s == [] || s[0] != OPENING then None
    else
      var line := ReadLiteral(s[1..], 0);
      if line.None? || |line.value.rest| >= |s| || !StartsWith(line.value.rest, Ascii(SHOW)) then None
      else
        var others := ReadShows(line.value.rest[|Ascii(SHOW)|..]);
        if others.None? then None else Some([line.value.value] + others.value)
  }

  predicate StartsWith(s: seq<byte>, front: seq<byte>) {
    |front| <= |s| && s[..|front|] == front
  }

  function LineShow(line: string): string {
    "(" + EscapeText(line) + ") Tj\nT*\n"
  }

  lemma {:induction false} LinesFromFront(lines: seq<string>)
    requires lines != []
    ensures LinesStream(lines) == LineShow(lines[0]) + LinesStream(lines[1..])
    decreases |lines|
  {
    hide EscapeText;
    var n := |lines| - 1;
    if n == 0 {
      assert lines[..0] == [] && lines[1..] == [];
      assert LinesStream(lines) == "" + LineShow(lines[0]);
      assert LineShow(lines[0]) + "" == LineShow(lines[0]);
    } else {
      LinesFromFront(lines[..n]);
      assert lines[..n][1..] == lines[1..][..n - 1] && lines[1..][n - 1] == lines[n];
      var middle, last := LinesStream(lines[..n][1..]), LineShow(lines[n]);
      assert (LineShow(lines[0]) + middle) + last == LineShow(lines[0]) + (middle + last);
    }
  }

  function ShownLines(lines: seq<string>): seq<seq<byte>>
    decreases lines
  {
    if lines == [] then [] else [Utf8.Encode(ShownText(lines[0]))] + ShownLines(lines[1..])
  }

  lemma LineShowBytes(line: string)
    ensures Utf8.Encode(LineShow(line)) == [OPENING] + (Utf8.Encode(EscapeText(line)) + ([CLOSING] + Ascii(SHOW)))
  {
    hide EscapeText, Utf8.Encode, SHOW;
    var text := EscapeText(line);
    SingleByte('(');
    SingleByte(')');
    Utf8.EncodeConcat(")", SHOW);
    Utf8.EncodeConcat(text, ")" + SHOW);
    Utf8.EncodeConcat("(", text + (")" + SHOW));
    ShowWord();
    assert LineShow(line) == "(" + (text + (")" + SHOW));
  }

  lemma ShowWord()
    ensures ")" + SHOW == ") Tj\nT*\n"
  {
  }

  lemma SingleByte(c: char)
    requires c < '\U{0080}'
    ensures Utf8.Encode([c]) == [c as int]
  {
    assert [c][1..] == "";
  }

  lemma {:induction false} ShowsRead(lines: seq<string>)
    ensures ReadShows(Utf8.Encode(LinesStream(lines) + "ET")) == Some(ShownLines(lines))
    decreases |lines|
  {
    hide LinesStream, LineShow, EscapeText, ReadLiteral, ShownText, Utf8.Encode, SHOW, StartsWith;
    if lines == [] {
      NoLines();
    } else {
      LinesFromFront(lines);
      var line, rest := LineShow(lines[0]), LinesStream(lines[1..]) + "ET";
      assert LinesStream(lines) + "ET" == line + rest;
      Utf8.EncodeConcat(line, rest);
      LineShowBytes(lines[0]);
      var tail := Utf8.Encode(rest);
      var escaped := Utf8.Encode(EscapeText(lines[0]));
      var s := Utf8.Encode(line + rest);
      assert s[1..] == escaped + ([CLOSING] + (Ascii(SHOW) + tail));
      EscapedReads(lines[0], Ascii(SHOW) + tail);
      FrontOf(Ascii(SHOW), tail);
      NotTheEnd(s);
      ShowsRead(lines[1..]);
    }
  }

  lemma NoLines()
    ensures LinesStream([]) + "ET" == "ET"
  {
  }

  lemma FrontOf(front: seq<byte>, tail: seq<byte>)
    ensures StartsWith(front + tail, front) && (front + tail)[|front|..] == tail
  {
  }

  lemma NotTheEnd(s: seq<byte>)
    requires s != [] && s[0] == OPENING
    ensures s != Ascii("ET")
  {
    assert Ascii("ET")[0] == Utf8.EncodeChar('E')[0] == 69;
  }

  /** Behind its fixed opening, a page's stream reads as its lines: the bytes of the characters shown, line by line. */
  lemma PageReads(lines: seq<string>)
    ensures |Ascii(STREAM_HEAD)| <= |Utf8.Encode(PageStream(lines))|
    ensures ReadShows(Utf8.Encode(PageStream(lines))[|Ascii(STREAM_HEAD)|..]) == Some(ShownLines(lines))
  {
    hide LinesStream, STREAM_HEAD, ReadShows, ShownLines, Utf8.Encode;
    var shows := LinesStream(lines) + "ET";
    assert PageStream(lines) == STREAM_HEAD + shows;
    Utf8.EncodeConcat(STREAM_HEAD, shows);
    FrontOf(Ascii(STREAM_HEAD), Utf8.Encode(shows));
    ShowsRead(lines);
  }

  // ─── In the font's encoding ───

  /**
   What a line's bytes look like where every byte is a character of Windows-1252, as the font's encoding has it.
   The five bytes that leaves undefined stand for themselves.
   */
  function Displayed(line: string): string {
    Mojibake.ReadAs1252(Utf8.Encode(ShownText(line)))
  }

  /** The upper half of Latin-1, which the writer means to keep. */
  predicate Accented(c: char) {
    '\U{00A0}' <= c <= '\U{00FF}'
  }

  /** A line is displayed as it is meant to exactly when it has no character of the upper half of Latin-1. */
  lemma ShownExactly(line: string)
    ensures Displayed(line) == ShownText(line) <==> forall i :: 0 <= i < |line| ==> !Accented(line[i])
    ensures Displayed(line) == line <==> forall i :: 0 <= i < |line| ==> ' ' <= line[i] <= '~'
  {
    hide ShownText, Utf8.Encode, Mojibake.ReadAs1252;
    Mojibake.GarbleGrows(ShownText(line));
    ShownAscii(line);
    ShownEach(line);
    if forall i :: 0 <= i < |line| ==> ' ' <= line[i] <= '~' {
      assert ShownText(line) == line;
    }
  }

  /**
   What is shown: the characters of printable ASCII and of the upper half of Latin-1, and a question mark for
   others.
   */
  lemma {:induction false} ShownEach(line: string)
    ensures forall i :: 0 <= i < |line| ==>
              ShownText(line)[i] ==
              if 32 <= line[i] as int <= 126 || 160 <= line[i] as int <= 255 then line[i] else '?'
  {
    if line == "" {
    } else {
      ShownEach(line[1..]);
      assert ShownText(line) == [Shown(line[0])] + ShownText(line[1..]);
    }
  }

  lemma {:induction false} ShownAscii(line: string)
    ensures (forall i :: 0 <= i < |line| ==> !Accented(line[i])) <==>
            (forall i :: 0 <= i < |ShownText(line)| ==> !Mojibake.High(ShownText(line)[i]))
  {
    if line == "" {
    } else {
      ShownAscii(line[1..]);
      assert ShownText(line)[1..] == ShownText(line[1..]);
      HeadAndTail(line, c => !Accented(c));
      HeadAndTail(ShownText(line), c => !Mojibake.High(c));
      assert Accented(line[0]) <==> Mojibake.High(ShownText(line)[0]);
    }
  }

  lemma HeadAndTail(s: string, p: char -> bool)
    requires s != ""
    ensures (forall i :: 0 <= i < |s| ==> p(s[i])) <==> p(s[0]) && forall i :: 0 <= i < |s[1..]| ==> p(s[1..][i])
  {
    if p(s[0]) && forall i :: 0 <= i < |s[1..]| ==> p(s[1..][i]) {
      assert forall i :: 1 <= i < |s| ==> s[i] == s[1..][i - 1];
    }
  }

  /** A single accented letter is displayed as two characters. */
  lemma AcuteDisplayed()
    ensures ShownText("\U{00E9}") == "\U{00E9}" && Displayed("\U{00E9}") == "\U{00C3}\U{00A9}"
  {
    var text := "\U{00E9}";
    assert text[1..] == "" && ShownText(text) == [text[0]] + "";
    assert Utf8.EncodeChar(text[0]) == [0xC3, 0xA9];
    assert Utf8.Encode(text) == [0xC3, 0xA9] + [];
    var bytes: seq<byte> := [0xC3, 0xA9];
    assert bytes[1..] == [0xA9] && bytes[1..][1..] == [];
    assert Mojibake.ReadAs1252([0xA9]) == ['\U{00A9}'] + "";
  }
}
