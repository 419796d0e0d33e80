/** Reading a document back as a viewer does: from its end, by the references, to the lines on its pages. */
module PdfReading {
  import opened Results
  import opened Bytes
  import opened Decimals
  import opened Wrapping
  import opened Pdf
  import Utf8

  // ─── Finding what is asked for ───

  /** `pat` stands in `out` at `at`. */
  predicate Stands(out: seq<byte>, at: int, pat: seq<byte>) {
    0 <= at && at + |pat| <= |out| && out[at..at + |pat|] == pat
  }

  /** The first place, from `from` on, where `pat` stands; the end if there is none. */
  function First(out: seq<byte>, pat: seq<byte>, from: nat): (at: nat)
    ensures from <= at || at == |out|
    decreases |out| - from
  {
    if from >= |out| then |out| else if Stands(out, from, pat) then from else First(out, pat, from + 1)
  }

  /** The last place, up to `upTo`, where `pat` stands; zero if there is none. */
  function Last(out: seq<byte>, pat: seq<byte>, upTo: nat): nat {
    if upTo == 0 || Stands(out, upTo, pat) then upTo else Last(out, pat, upTo - 1)
  }

  lemma {:induction false} FirstIs(out: seq<byte>, pat: seq<byte>, from: nat, at: nat)
    requires from <= at < |out| && Stands(out, at, pat)
    requires forall j :: from <= j < at ==> !Stands(out, j, pat)
    ensures First(out, pat, from) == at
    decreases at - from
  {
    hide Stands;
    if from == at {
    } else {
      FirstIs(out, pat, from + 1, at);
    }
  }

  lemma {:induction false} LastIs(out: seq<byte>, pat: seq<byte>, upTo: nat, at: nat)
    requires at <= upTo && Stands(out, at, pat)
    requires forall j :: at < j <= upTo ==> !Stands(out, j, pat)
    ensures Last(out, pat, upTo) == at
  {
    hide Stands;
    if upTo == at {
    } else {
      LastIs(out, pat, upTo - 1, at);
    }
  }

  /** A number at a place, or zero beyond the end. */
  function NumberIn(out: seq<byte>, at: nat): nat {
    if at <= |out| then NumberAt(out, at) else 0
  }

  function After(out: seq<byte>, key: string, from: nat): nat {
    First(out, Ascii(key), from) + |key|
  }

  /** The number behind the first `key` from a place on. */
  function Ref(out: seq<byte>, key: string, from: nat): nat {
    NumberIn(out, After(out, key, from))
  }

  // ─── A viewer ───

  /** The table begins where the number behind the last `startxref` says. */
  function TableOf(out: seq<byte>): nat {
    NumberIn(out, Last(out, Ascii(STARTXREF), |out|) + |STARTXREF|)
  }

  /** Where the entry of object `id` stands: behind the heading and the count, twenty bytes an object. */
  function EntryPlace(out: seq<byte>, table: nat, id: nat): nat {
    if table + 7 > |out| then 0 else table + 7 + |LeadingDigits(out[table + 7..])| + 1 + 20 * id
  }

  /** Where the table says an object begins. */
  function Offset(out: seq<byte>, table: nat, id: nat): nat {
    NumberIn(out, EntryPlace(out, table, id))
  }

  /** The trailer, behind as many entries as the heading counts. */
  function TrailerPlace(out: seq<byte>, table: nat): nat {
    EntryPlace(out, table, NumberIn(out, table + 7))
  }

  /** References in a row: a number, ` 0 R`, a blank and the next. */
  function Refs(bytes: seq<byte>): seq<nat>
    decreases |bytes|
  {
    var digits := LeadingDigits(bytes);
    DigitsShort(bytes);
    if digits == "" then []
    else
      var rest := bytes[|digits|..];
      if !StartsWith(rest, Ascii(REF)) then []
      else
        var more := rest[|Ascii(REF)|..];
        [Number(digits)] + if more != [] && more[0] == 32 then Refs(more[1..]) else []
  }

  const REF := " 0 R"

  /** The stream of an object, by its stated length. */
  function StreamAt(out: seq<byte>, from: nat): seq<byte> {
    var start := After(out, STREAM_KEY, from);
    var length := Ref(out, LENGTH_KEY, from);
    if start + length <= |out| then out[start..start + length] else []
  }

  /** What a page's stream shows, behind its fixed opening. */
  function LinesAt(out: seq<byte>, from: nat): seq<seq<byte>> {
    var stream := StreamAt(out, from);
    if |stream| < |Ascii(STREAM_HEAD)| then []
    else
      var shows := ReadShows(stream[|Ascii(STREAM_HEAD)|..]);
      if shows.None? then [] else shows.value
  }

  /** What one page shows: the lines of the stream its object refers to. */
  function PageShows(out: seq<byte>, table: nat, page: nat): seq<seq<byte>> {
    LinesAt(out, Offset(out, table, Ref(out, CONTENTS_KEY, Offset(out, table, page))))
  }

  /** What the pages show, one after another. */
  function PagesShow(out: seq<byte>, table: nat, pages: seq<nat>): seq<seq<byte>>
    decreases pages
  {
    if pages == [] then [] else PageShows(out, table, pages[0]) + PagesShow(out, table, pages[1..])
  }

  function Tree(out: seq<byte>): nat {
    var table := TableOf(out);
    var catalog := Offset(out, table, Ref(out, ROOT_KEY, TrailerPlace(out, table)));
    Offset(out, table, Ref(out, PAGES_KEY, catalog))
  }

  /** The numbers in the list of the page tree. */
  function KidsAt(out: seq<byte>, from: nat): seq<nat> {
    var at := After(out, KIDS_KEY, from);
    if at <= |out| then Refs(out[at..]) else []
  }

  function PageNumbers(out: seq<byte>): seq<nat> {
    KidsAt(out, Tree(out))
  }

  /** From the end of the file to the lines: table, trailer, catalog, page tree, pages, streams. */
  function Shows(out: seq<byte>): seq<seq<byte>> {
    PagesShow(out, TableOf(out), PageNumbers(out))
  }

  lemma {:induction false} DigitsShort(bytes: seq<byte>)
    ensures |LeadingDigits(bytes)| <= |bytes|
  {
    if bytes == [] {
    } else {
      DigitsShort(bytes[1..]);
    }
  }

  // ─── No key before its place ───

  /** This character is ASCII, and if it is `a`, another than `b` follows. */
  ghost predicate QuietAt(s: string, i: nat, a: char, b: char)
    requires i < |s|
  {
    s[i] < '\U{0080}' && (s[i] == a ==> i + 1 < |s| && s[i + 1] != b)
  }

  /** ASCII in which no `a` is followed by `b`, not even across the end. */
  ghost predicate Quiet(s: string, a: char, b: char) {
    forall i :: 0 <= i < |s| ==> QuietAt(s, i, a, b)
  }

  lemma QuietJoin(s: string, t: string, a: char, b: char)
    requires Quiet(s, a, b) && Quiet(t, a, b)
    ensures Quiet(s + t, a, b)
  {
    forall i | 0 <= i < |s + t|
      ensures QuietAt(s + t, i, a, b)
    {
      if i < |s| {
        assert QuietAt(s, i, a, b);
      } else {
        assert QuietAt(t, i - |s|, a, b);
      }
    }
  }

  lemma QuietDigits(s: string, a: char, b: char)
    requires IsDigits(s) && !('0' <= a <= '9')
    ensures Quiet(s, a, b)
  {
  }

  lemma {:induction false} AsciiBytes(s: string)
    requires forall i :: 0 <= i < |s| ==> s[i] < '\U{0080}'
    ensures |Ascii(s)| == |s| && forall i :: 0 <= i < |s| ==> Ascii(s)[i] == s[i] as int
  {
    if s == "" {
    } else {
      AsciiBytes(s[1..]);
      assert Utf8.EncodeChar(s[0]) == [s[0] as int];
    }
  }

  /** A key that this cannot hide: two different ASCII characters and more, of which the text in front has no pair. */
  ghost predicate IsKey(key: string) {
    |key| >= 2 && key[0] != key[1] && forall i :: 0 <= i < |key| ==> key[i] < '\U{0080}'
  }

  lemma QuietIsAscii(s: string, a: char, b: char)
    requires Quiet(s, a, b)
    ensures forall i :: 0 <= i < |s| ==> s[i] < '\U{0080}'
  {
    forall i | 0 <= i < |s|
      ensures s[i] < '\U{0080}'
    {
      assert QuietAt(s, i, a, b);
    }
  }

  /** Nowhere in quiet text does a key begin. */
  lemma NoKeyInside(out: seq<byte>, from: nat, quiet: string, key: string, j: nat)
    requires IsKey(key) && Quiet(quiet, key[0], key[1]) && from <= j < from + |quiet|
    requires StandsAt(out, from, Ascii(quiet) + Ascii(key))
    ensures !Stands(out, j, Ascii(key))
  {
    hide Stands, StandsAt, Quiet;
    QuietIsAscii(quiet, key[0], key[1]);
    AsciiBytes(quiet);
    AsciiBytes(key);
    var piece, i := Ascii(quiet) + Ascii(key), j - from;
    PieceByte(out, from, piece, i);
    PieceByte(out, from, piece, i + 1);
    FirstTwo(out, j, Ascii(key));
    assert QuietAt(quiet, i, key[0], key[1]) by {
      QuietThere(quiet, key[0], key[1], i);
    }
  }

  lemma QuietThere(s: string, a: char, b: char, i: nat)
    requires Quiet(s, a, b) && i < |s|
    ensures QuietAt(s, i, a, b)
  {
  }

  /** Behind quiet text, the first key is the one that stands there. */
  lemma KeyFound(out: seq<byte>, from: nat, quiet: string, key: string, rest: string)
    requires IsKey(key) && Quiet(quiet, key[0], key[1])
    requires StandsAt(out, from, Ascii(quiet + (key + rest)))
    ensures First(out, Ascii(key), from) == from + |quiet| && After(out, key, from) == from + |quiet + key|
    ensures StandsAt(out, from + |quiet + key|, Ascii(rest))
  {
    hide Stands, StandsAt, Quiet, Ascii;
    QuietIsAscii(quiet, key[0], key[1]);
    AsciiConcat(quiet, key + rest);
    AsciiConcat(key, rest);
    AsciiBytes(quiet);
    AsciiBytes(key);
    var front, at := Ascii(quiet) + Ascii(key), from + |quiet|;
    assert Ascii(quiet) + (Ascii(key) + Ascii(rest)) == front + Ascii(rest);
    Parts(out, from, Ascii(quiet), Ascii(key), Ascii(rest));
    forall j | from <= j < at
      ensures !Stands(out, j, Ascii(key))
    {
      NoKeyInside(out, from, quiet, key, j);
    }
    FirstIs(out, Ascii(key), from, at);
  }

  lemma Parts(out: seq<byte>, from: nat, a: seq<byte>, b: seq<byte>, c: seq<byte>)
    requires StandsAt(out, from, a + b + c) && b != []
    ensures StandsAt(out, from, a + b) && StandsAt(out, from + |a| + |b|, c)
    ensures Stands(out, from + |a|, b) && from + |a| < |out|
  {
    hide StandsAt;
    var piece := a + b + c;
    PartStands(a + b, c);
    StandsWithin(out, from, piece, 0, a + b);
    StandsWithin(out, from, piece, |a| + |b|, c);
    StandsAfter(a, b, c);
    StandsWithin(out, from, piece, |a|, b);
    ThenStands(out, from + |a|, b);
  }

  lemma PartStands(a: seq<byte>, b: seq<byte>)
    ensures StandsAt(a + b, 0, a) && StandsAt(a + b, |a|, b)
  {
  }

  lemma ThenStands(out: seq<byte>, at: nat, pat: seq<byte>)
    requires StandsAt(out, at, pat)
    ensures Stands(out, at, pat) && at + |pat| <= |out|
  {
  }

  lemma FirstTwo(out: seq<byte>, at: nat, pat: seq<byte>)
    requires |pat| >= 2 && at + 1 < |out|
    ensures Stands(out, at, pat) ==> out[at] == pat[0] && out[at + 1] == pat[1]
  {
    if Stands(out, at, pat) {
      assert out[at..at + |pat|][0] == out[at] && out[at..at + |pat|][1] == out[at + 1];
    }
  }

  lemma PieceByte(out: seq<byte>, at: nat, piece: seq<byte>, i: nat)
    requires StandsAt(out, at, piece) && i < |piece|
    ensures at + i < |out| && out[at + i] == piece[i]
  {
    assert out[at..at + |piece|][i] == out[at + i];
  }

  /** And the number behind it is read. */
  lemma RefReads(out: seq<byte>, from: nat, quiet: string, key: string, n: nat, end: string)
    requires IsKey(key) && Quiet(quiet, key[0], key[1]) && end != "" && !('0' <= end[0] <= '9')
    requires StandsAt(out, from, Ascii(quiet + (key + (Decimal(n) + end))))
    ensures Ref(out, key, from) == n
  {
    hide NumberAt, Format, StandsAt, First, Ascii, Quiet, IsKey;
    KeyFound(out, from, quiet, key, Decimal(n) + end);
    StandsBounded(out, from + |quiet + key|, Ascii(Decimal(n) + end));
    NumberReads(out, from + |quiet + key|, n, 1, end);
  }

  lemma KeysAreKeys()
    ensures IsKey(PAGES_KEY) && IsKey(KIDS_KEY) && IsKey(COUNT_KEY) && IsKey(CONTENTS_KEY) && IsKey(ROOT_KEY)
    ensures IsKey(LENGTH_KEY) && IsKey(STREAM_KEY)
    ensures PAGES_KEY[0] == '/' && PAGES_KEY[1] == 'P' && KIDS_KEY[0] == '/' && KIDS_KEY[1] == 'K'
    ensures COUNT_KEY[0] == '/' && COUNT_KEY[1] == 'C' && CONTENTS_KEY[0] == '/' && CONTENTS_KEY[1] == 'C'
    ensures ROOT_KEY[0] == '/' && ROOT_KEY[1] == 'R' && LENGTH_KEY[0] == '/' && LENGTH_KEY[1] == 'L'
    ensures STREAM_KEY[0] == 's' && STREAM_KEY[1] == 't'
  {
  }

  lemma HeaderQuiet(id: nat, a: char, b: char)
    requires a == '/' || a == 's'
    ensures Quiet(Decimal(id) + " 0 obj\n", a, b)
  {
    hide Format;
    QuietDigits(Decimal(id), a, b);
    assert Quiet(" 0 obj\n", a, b);
    QuietJoin(Decimal(id), " 0 obj\n", a, b);
  }

  /** The fixed wording has no key in front of its place. */
  ghost predicate Plain(w: Wording) {
    Quiet(w.catalogHead, '/', 'P') && Quiet(w.treeHead, '/', 'K') && Quiet(w.treeHead, '/', 'C') &&
    Quiet(w.pageHead, '/', 'C')
  }

  lemma WordingPlain()
    ensures Plain(WORDING)
  {
    hide Quiet, PAGE_TYPE, PAGE_FRAME, PAGE_FONTS;
    CatalogQuiet();
    TreeQuiet();
    TypeQuiet();
    FrameQuiet();
    FontsQuiet();
    QuietJoin(PAGE_TYPE, PAGE_FRAME, '/', 'C');
    QuietJoin(PAGE_TYPE + PAGE_FRAME, PAGE_FONTS, '/', 'C');
  }

  lemma CatalogQuiet()
    ensures Quiet("<< /Type /" + "Catalog ", '/', 'P')
  {
  }

  lemma TreeQuiet()
    ensures Quiet("<< /Type /" + "Pages ", '/', 'K') && Quiet("<< /Type /" + "Pages ", '/', 'C')
  {
  }

  lemma TypeQuiet()
    ensures Quiet(PAGE_TYPE, '/', 'C')
  {
  }

  lemma FrameQuiet()
    ensures Quiet(PAGE_FRAME, '/', 'C')
  {
    hide Quiet;
    FramePieces();
    QuietJoin("/Parent 2 0 ", "R /MediaBox ", '/', 'C');
    QuietJoin("/Parent 2 0 " + "R /MediaBox ", "[0 0 595 ", '/', 'C');
    QuietJoin("/Parent 2 0 " + "R /MediaBox " + "[0 0 595 ", "842] ", '/', 'C');
  }

  lemma FramePieces()
    ensures Quiet("/Parent 2 0 ", '/', 'C') && Quiet("R /MediaBox ", '/', 'C')
    ensures Quiet("[0 0 595 ", '/', 'C') && Quiet("842] ", '/', 'C')
  {
  }

  lemma FontsQuiet()
    ensures Quiet(PAGE_FONTS, '/', 'C')
  {
    hide Quiet;
    FontsPieces();
    QuietJoin("/Resources ", "<< /Font << ", '/', 'C');
    QuietJoin("/Resources " + "<< /Font << ", "/F1 3 0 R ", '/', 'C');
    QuietJoin("/Resources " + "<< /Font << " + "/F1 3 0 R ", ">> >> ", '/', 'C');
  }

  lemma FontsPieces()
    ensures Quiet("/Resources ", '/', 'C') && Quiet("<< /Font << ", '/', 'C')
    ensures Quiet("/F1 3 0 R ", '/', 'C') && Quiet(">> >> ", '/', 'C')
  {
  }

  // ─── From the end to the table ───

  /** What a document is, and small enough for ten digits. */
  ghost predicate Small(objects: seq<seq<byte>>) {
    |Body(objects)| < Power(10)
  }

  lemma {:induction false} LastWord(out: seq<byte>, mark: nat, tail: seq<byte>)
    requires mark + |Ascii(STARTXREF)| + |tail| == |out|
    requires StandsAt(out, mark, Ascii(STARTXREF)) && StandsAt(out, mark + |Ascii(STARTXREF)|, tail)
    requires forall i :: 0 <= i < |tail| ==> tail[i] != 115
    ensures Last(out, Ascii(STARTXREF), |out|) == mark && |Ascii(STARTXREF)| == 10
  {
    hide StandsAt, Stands, Last;
    StartWord();
    forall j | mark < j <= |out|
      ensures !Stands(out, j, Ascii(STARTXREF))
    {
      if j < |out| {
        if j < mark + 10 {
          PieceByte(out, mark, Ascii(STARTXREF), j - mark);
        } else {
          PieceByte(out, mark + 10, tail, j - mark - 10);
        }
      }
      FirstOf(out, j, Ascii(STARTXREF));
    }
    ThenStands(out, mark, Ascii(STARTXREF));
    LastIs(out, Ascii(STARTXREF), |out|, mark);
  }

  lemma FirstOf(out: seq<byte>, at: nat, pat: seq<byte>)
    requires pat != []
    ensures Stands(out, at, pat) ==> at < |out| && out[at] == pat[0]
  {
    if Stands(out, at, pat) {
      assert out[at..at + |pat|][0] == out[at];
    }
  }

  lemma StartWord()
    ensures |STARTXREF| == |Ascii(STARTXREF)| == 10 && Ascii(STARTXREF)[0] == 115
    ensures forall i :: 0 < i < 10 ==> Ascii(STARTXREF)[i] != 115
  {
    assert |STARTXREF| == 10 && STARTXREF[0] == 's' && forall i :: 0 < i < 10 ==> STARTXREF[i] != 's';
    AsciiBytes(STARTXREF);
  }

  lemma TailHasNoS(n: nat)
    ensures var tail := Ascii(Decimal(n) + "\n%%EOF\n");
            forall i :: 0 <= i < |tail| ==> tail[i] != 115
  {
    hide Format;
    var s := Decimal(n) + "\n%%EOF\n";
    forall i | 0 <= i < |s|
      ensures s[i] < '\U{0080}' && s[i] != 's'
    {
      if i < |Decimal(n)| {
        assert s[i] == Decimal(n)[i];
      } else {
        assert s[i] == "\n%%EOF\n"[i - |Decimal(n)|];
      }
    }
    AsciiBytes(s);
  }

  lemma TableFound(objects: seq<seq<byte>>)
    ensures TableOf(Document(objects)) == |Body(objects)|
  {
    hide Body, TableHead, EntriesUpTo, Trailer, Ascii, Last, NumberAt, STARTXREF, Format, StandsAt;
    StartxrefPoints(objects);
    var out, at := Document(objects), |Body(objects)|;
    var before := Body(objects) + TableHead(|objects|) + EntriesUpTo(objects, |objects|) + Trailer(|objects|);
    var word, tail := Ascii(STARTXREF), Ascii(Decimal(at) + "\n%%EOF\n");
    LastTwo(before, word, tail);
    StandsAfter(before + word, tail, []);
    TailHasNoS(at);
    StartWord();
    LastWord(out, |before|, tail);
  }

  // ─── The table and the trailer ───

  /** The heading of the table: seven bytes, the count, a line feed, and the entry of object zero. */
  lemma HeadParts(total: nat)
    ensures TableHead(total) == Ascii("xref\n0 ") + Ascii(Decimal(total + 1) + "\n") + Ascii("0000000000 65535 f \n")
    ensures |TableHead(total)| == 7 + |Decimal(total + 1)| + 1 + 20
    ensures |Ascii("xref\n0 ")| == 7
  {
    hide Format;
    AsciiBytes("xref\n0 ");
    CountAscii(total + 1);
    FreeEntry();
  }

  lemma CountAscii(n: nat)
    ensures |Ascii(Decimal(n) + "\n")| == |Decimal(n)| + 1
  {
    hide Format;
    AsciiBytes(Decimal(n) + "\n");
  }

  lemma FreeEntry()
    ensures |Ascii("0000000000 65535 f \n")| == 20
  {
    var a, b := "0000000000", " 65535 f \n";
    assert "0000000000 65535 f \n" == a + b;
    AsciiBytes(a);
    AsciiBytes(b);
    AsciiConcat(a, b);
  }

  lemma CountRead(objects: seq<seq<byte>>)
    ensures var out, table := Document(objects), |Body(objects)|;
            table + 7 <= |out| && LeadingDigits(out[table + 7..]) == Decimal(|objects| + 1) &&
            NumberIn(out, table + 7) == |objects| + 1
  {
    hide Body, EntriesUpTo, Trailer, StartXref, Ascii, Format, Decimal, TableHead;
    var out, total := Document(objects), |objects|;
    HeadParts(total);
    var digits := Decimal(total + 1);
    var after := Ascii("\n") + Ascii("0000000000 65535 f \n") + EntriesUpTo(objects, total) + Trailer(total) +
                 StartXref(|Body(objects)|);
    AsciiConcat(digits, "\n");
    HeadRegroup(Body(objects), Ascii("xref\n0 "), Ascii(digits), Ascii("\n"), Ascii("0000000000 65535 f \n"),
                EntriesUpTo(objects, total), Trailer(total), StartXref(|Body(objects)|));
    assert out == Body(objects) + Ascii("xref\n0 ") + (Ascii(digits) + after);
    BehindFront(Body(objects), Ascii("xref\n0 "), Ascii(digits) + after);
    NoDigitFirst("\n");
    DecimalReads(total + 1, after);
  }

  lemma DecimalReads(n: nat, after: seq<byte>)
    requires after != [] && !(48 <= after[0] <= 57)
    ensures LeadingDigits(Ascii(Decimal(n)) + after) == Decimal(n) && Number(Decimal(n)) == n
  {
    hide Format;
    DigitsReadBack(Decimal(n), after);
    FormatReads(n, 1);
  }

  lemma BehindFront(a: seq<byte>, b: seq<byte>, c: seq<byte>)
    ensures (a + b + c)[|a| + |b|..] == c
  {
  }

  lemma HeadRegroup(body: seq<byte>, a: seq<byte>, b: seq<byte>, c: seq<byte>, d: seq<byte>, e: seq<byte>, f: seq<byte>,
                    g: seq<byte>)
    ensures body + (a + (b + c) + d) + e + f + g == body + a + (b + (c + d + e + f + g))
  {
  }

  lemma PlaceIs(objects: seq<seq<byte>>, id: nat)
    requires id > 0
    ensures EntryPlace(Document(objects), |Body(objects)|, id) ==
            |Body(objects)| + |TableHead(|objects|)| + 20 * (id - 1)
    ensures NumberIn(Document(objects), |Body(objects)| + 7) == |objects| + 1
  {
    hide Body, Document, NumberAt, TableHead, LeadingDigits, Decimal;
    CountRead(objects);
    HeadParts(|objects|);
  }

  /** The table gives every object's beginning. */
  lemma OffsetFound(objects: seq<seq<byte>>, id: nat)
    requires 1 <= id <= |objects| && Small(objects)
    ensures Offset(Document(objects), |Body(objects)|, id) == OffsetOf(objects, id)
  {
    hide Body, OffsetOf, Document, NumberAt, TableHead, EntryPlace, Entry, StandsAt, Power;
    PlaceIs(objects, id);
    TablePoints(objects, id);
  }

  lemma EntriesLength(objects: seq<seq<byte>>)
    requires objects != [] && Small(objects)
    ensures |EntriesUpTo(objects, |objects|)| == 20 * |objects|
  {
    hide Body, EntriesUpTo, StandsAt, Power, Entry, OffsetOf;
    EntryStands(objects, |objects|, |objects|);
  }

  /** The trailer stands where the count of entries says. */
  lemma TrailerFound(objects: seq<seq<byte>>)
    requires objects != [] && Small(objects)
    ensures StandsAt(Document(objects), TrailerPlace(Document(objects), |Body(objects)|), Trailer(|objects|))
  {
    hide Body, TableHead, EntriesUpTo, Trailer, StartXref, StandsAt, EntryPlace, NumberIn, Small, Power;
    PlaceIs(objects, |objects| + 1);
    EntriesLength(objects);
    var before := Body(objects) + TableHead(|objects|) + EntriesUpTo(objects, |objects|);
    StandsAfter(before, Trailer(|objects|), StartXref(|Body(objects)|));
  }

  lemma RootFound(objects: seq<seq<byte>>)
    requires objects != [] && Small(objects)
    ensures Ref(Document(objects), ROOT_KEY, TrailerPlace(Document(objects), |Body(objects)|)) == 1
  {
    hide Document, Body, StandsAt, TrailerPlace, Ref, Quiet, IsKey, Decimal, ROOT_KEY;
    TrailerFound(objects);
    KeysAreKeys();
    TrailerQuiet(|objects| + 1);
    EndsPlain();
    RefReads(Document(objects), TrailerPlace(Document(objects), |Body(objects)|),
             TRAILER_HEAD + Decimal(|objects| + 1) + " ", ROOT_KEY, 1, TRAILER_END);
  }

  lemma TrailerQuiet(n: nat)
    ensures Quiet(TRAILER_HEAD + Decimal(n) + " ", '/', 'R')
  {
    hide Quiet, Format;
    TrailerPieces();
    QuietDigits(Decimal(n), '/', 'R');
    QuietJoin("trailer\n", "<< /Size ", '/', 'R');
    QuietJoin(TRAILER_HEAD, Decimal(n), '/', 'R');
    QuietJoin(TRAILER_HEAD + Decimal(n), " ", '/', 'R');
  }

  lemma TrailerPieces()
    ensures Quiet("trailer\n", '/', 'R') && Quiet("<< /Size ", '/', 'R') && Quiet(" ", '/', 'R')
  {
  }

  lemma EndsPlain()
    ensures TRAILER_END != "" && TRAILER_END[0] == ' ' && REF_END != "" && REF_END[0] == ' '
    ensures COUNT_END != "" && COUNT_END[0] == ' '
  {
  }

  // ─── Catalog, page tree, pages ───

  /** A document's object, in the finished file, is its header and body in one piece of text. */
  lemma ObjectAsText(w: Wording, text: string, id: nat, body: string)
    requires 1 <= id <= |ObjectsOf(w, text)| && ObjectsOf(w, text)[id - 1] == ObjectHeader(id) + Ascii(body)
    ensures StandsAt(Document(ObjectsOf(w, text)), OffsetOf(ObjectsOf(w, text), id),
                     Ascii(Decimal(id) + " 0 obj\n" + body))
  {
    hide Document, OffsetOf, StandsAt, Ascii, ObjectsOf, Format;
    OffsetsPoint(w, text, id);
    AsciiConcat(Decimal(id) + " 0 obj\n", body);
  }

  /** An entry of a document's object, behind quiet text, reads as the object it refers to. */
  lemma EntryRefers(w: Wording, text: string, id: nat, quiet: string, key: string, n: nat, end: string)
    requires 1 <= id <= |ObjectsOf(w, text)| && IsKey(key) && key[0] == '/' && Quiet(quiet, key[0], key[1])
    requires ObjectsOf(w, text)[id - 1] == ObjectHeader(id) + Ascii(quiet + (key + (Decimal(n) + end)))
    requires end != "" && !('0' <= end[0] <= '9')
    ensures Ref(Document(ObjectsOf(w, text)), key, OffsetOf(ObjectsOf(w, text), id)) == n
  {
    hide Document, OffsetOf, StandsAt, Ascii, ObjectsOf, Format, Quiet, Ref;
    var body := key + (Decimal(n) + end);
    ObjectAsText(w, text, id, quiet + body);
    HeaderQuiet(id, key[0], key[1]);
    QuietJoin(Decimal(id) + " 0 obj\n", quiet, key[0], key[1]);
    assert Decimal(id) + " 0 obj\n" + (quiet + body) == Decimal(id) + " 0 obj\n" + quiet + body;
    RefReads(Document(ObjectsOf(w, text)), OffsetOf(ObjectsOf(w, text), id), Decimal(id) + " 0 obj\n" + quiet, key, n,
             end);
  }

  lemma {:induction false} FirstObjects(w: Wording, pages: seq<seq<string>>, n: nat)
    requires n <= |pages|
    ensures ObjectsUpTo(w, pages, n)[0] == Catalog(w) && ObjectsUpTo(w, pages, n)[1] == PageTree(w, |pages|)
  {
    hide Catalog, PageTree, PageObject, ContentObject, Font;
    if n == 0 {
    } else {
      FirstObjects(w, pages, n - 1);
    }
  }

  lemma {:induction false} PageIsObject(w: Wording, pages: seq<seq<string>>, n: nat, index: nat)
    requires index < n <= |pages|
    ensures ObjectsUpTo(w, pages, n)[3 + 2 * index] == PageObject(w, index)
    decreases n
  {
    hide PageObject, ContentObject, Catalog, PageTree, Font;
    if index == n - 1 {
    } else {
      PageIsObject(w, pages, n - 1, index);
    }
  }

  lemma CatalogRefers(w: Wording, text: string)
    requires Plain(w)
    ensures Ref(Document(ObjectsOf(w, text)), PAGES_KEY, OffsetOf(ObjectsOf(w, text), 1)) == 2
  {
    hide Document, OffsetOf, Ascii, Format, Quiet, IsKey, Ref, PagesOf, WrapLines, PAGES_KEY, REF_END;
    KeysAreKeys();
    EndsPlain();
    FirstObjects(w, PagesOf(WrapLines(text)), |PagesOf(WrapLines(text))|);
    EntryRefers(w, text, 1, w.catalogHead, PAGES_KEY, 2, REF_END);
  }

  lemma PageRefers(w: Wording, text: string, index: nat)
    requires Plain(w) && index < |PagesOf(WrapLines(text))|
    ensures Ref(Document(ObjectsOf(w, text)), CONTENTS_KEY, OffsetOf(ObjectsOf(w, text),
                                                                     4 + 2 * index)) == 5 + 2 * index
  {
    hide Document, OffsetOf, Ascii, Format, Quiet, IsKey, Ref, PagesOf, WrapLines, CONTENTS_KEY, REF_END;
    KeysAreKeys();
    EndsPlain();
    PageIsObject(w, PagesOf(WrapLines(text)), |PagesOf(WrapLines(text))|, index);
    EntryRefers(w, text, 4 + 2 * index, w.pageHead, CONTENTS_KEY, 5 + 2 * index, REF_END);
  }

  // ─── The list of pages ───

  function Kid(n: nat): string {
    Decimal(2 + 2 * n) + REF
  }

  /** The references from the `i`-th on, a blank between two. */
  function KidsFrom(i: nat, n: nat): string
    decreases n - i
  {
    if i >= n then "" else Kid(i + 1) + (if i + 1 < n then " " else "") + KidsFrom(i + 1, n)
  }

  lemma {:induction false} KidsSplit(i: nat, n: nat)
    requires i <= n
    ensures Kids(n) == Kids(i) + (if 0 < i < n then " " else "") + KidsFrom(i, n)
    decreases n - i
  {
    hide Format;
    if i == n {
      assert Kids(n) + "" + "" == Kids(n);
    } else {
      KidsSplit(i + 1, n);
      var gap, next := if i + 1 < n then " " else "", if 0 < i then " " else "";
      assert Kids(i + 1) == Kids(i) + next + Kid(i + 1);
      assert Kids(i) + next + Kid(i + 1) + gap + KidsFrom(i + 1, n)
          == Kids(i) + next + (Kid(i + 1) + gap + KidsFrom(i + 1, n));
    }
  }

  /** The numbers of the page objects, from the `i`-th on. */
  function PageIds(i: nat, n: nat): (ids: seq<nat>)
    ensures |ids| == if i >= n then 0 else n - i
    decreases n - i
  {
    if i >= n then [] else [4 + 2 * i] + PageIds(i + 1, n)
  }

  lemma KidsStep(i: nat, n: nat)
    requires i < n
    ensures KidsFrom(i, n) == Decimal(4 + 2 * i) + REF + (if i + 1 < n then " " else "") + KidsFrom(i + 1, n)
  {
    hide Format;
  }

  lemma {:induction false} KidsRead(i: nat, n: nat, rest: seq<byte>)
    requires rest != [] && rest[0] == 93
    ensures Refs(Ascii(KidsFrom(i, n)) + rest) == PageIds(i, n)
    decreases n - i
  {
    hide Decimal, Ascii, REF, Refs, KidsFrom;
    if i >= n {
      NothingListed(i, n, rest);
    } else {
      KidsRead(i + 1, n, rest);
      KidsStep(i, n);
      var gap, more := if i + 1 < n then " " else "", KidsFrom(i + 1, n);
      KidBytes(Decimal(4 + 2 * i), gap, more, rest);
      if i + 1 < n {
        OneRef(4 + 2 * i, [32] + (Ascii(more) + rest));
        assert ([32] + (Ascii(more) + rest))[1..] == Ascii(more) + rest;
      } else {
        NoKids(i + 1, n);
        OneRef(4 + 2 * i, rest);
      }
    }
  }

  lemma NoKids(i: nat, n: nat)
    requires i >= n
    ensures KidsFrom(i, n) == ""
  {
  }

  lemma KidBytes(digits: string, gap: string, more: string, rest: seq<byte>)
    requires gap == "" || gap == " "
    ensures Ascii(digits + REF + gap + more) + rest ==
            Ascii(digits) + (Ascii(REF) + if gap == "" then Ascii(more) + rest else [32] + (Ascii(more) + rest))
    ensures more == "" ==> Ascii(more) + rest == rest
  {
    hide Utf8.Encode, REF;
    AsciiConcat(digits + REF + gap, more);
    AsciiConcat(digits + REF, gap);
    AsciiConcat(digits, REF);
    GapBytes();
    Regrouped(Ascii(digits), Ascii(REF), Ascii(gap), Ascii(more), rest);
  }

  lemma Regrouped(a: seq<byte>, b: seq<byte>, c: seq<byte>, d: seq<byte>, e: seq<byte>)
    ensures a + b + c + d + e == a + (b + (c + (d + e)))
    ensures c == [] ==> c + (d + e) == d + e
  {
  }

  lemma GapBytes()
    ensures Ascii(" ") == [32] && Ascii("") == []
  {
    assert " "[1..] == "";
  }

  lemma NothingListed(i: nat, n: nat, rest: seq<byte>)
    requires i >= n && rest != [] && rest[0] == 93
    ensures Refs(Ascii(KidsFrom(i, n)) + rest) == []
  {
    NoKids(i, n);
    assert Ascii("") + rest == rest;
  }

  lemma OneRef(n: nat, more: seq<byte>)
    requires more != []
    ensures Refs(Ascii(Decimal(n)) + (Ascii(REF) + more)) == [n] + if more[0] == 32 then Refs(more[1..]) else []
  {
    hide Format, Utf8.Encode, LeadingDigits;
    RefWord();
    var tail := Ascii(REF) + more;
    DecimalReads(n, tail);
    AsciiDigits(n);
    var all := Ascii(Decimal(n)) + tail;
    assert all[|Decimal(n)|..] == tail;
    FrontOf(Ascii(REF), more);
  }

  lemma RefWord()
    ensures Ascii(REF) != [] && Ascii(REF)[0] == 32
  {
    AsciiBytes(REF);
  }

  lemma AsciiDigits(n: nat)
    ensures |Ascii(Decimal(n))| == |Decimal(n)| > 0
  {
    hide Format;
    AsciiBytes(Decimal(n));
    DecimalNotEmpty(n);
  }

  lemma DecimalNotEmpty(n: nat)
    ensures |Decimal(n)| > 0
  {
  }

  lemma TreeKids(w: Wording, text: string)
    requires Plain(w)
    ensures KidsAt(Document(ObjectsOf(w, text)), OffsetOf(ObjectsOf(w, text), 2)) ==
            PageIds(0, |PagesOf(WrapLines(text))|)
  {
    hide Document, OffsetOf, Format, Quiet, IsKey, PagesOf, WrapLines, KIDS_KEY, COUNT_KEY, Utf8.Encode, First, Refs,
         StandsAt, COUNT_END;
    var out, n := Document(ObjectsOf(w, text)), |PagesOf(WrapLines(text))|;
    var from := OffsetOf(ObjectsOf(w, text), 2);
    var end := "] " + (COUNT_KEY + (Decimal(n) + COUNT_END));
    var header := Decimal(2) + " 0 obj\n";
    KeysAreKeys();
    FirstObjects(w, PagesOf(WrapLines(text)), n);
    ObjectAsText(w, text, 2, w.treeHead + (KIDS_KEY + (Kids(n) + end)));
    HeaderQuiet(2, '/', 'K');
    QuietJoin(header, w.treeHead, '/', 'K');
    assert header + (w.treeHead + (KIDS_KEY + (Kids(n) + end))) == header + w.treeHead + (KIDS_KEY + (Kids(n) + end));
    KeyFound(out, from, header + w.treeHead, KIDS_KEY, Kids(n) + end);
    var at := from + |header + w.treeHead + KIDS_KEY|;
    FromPiece(out, at, Ascii(Kids(n) + end));
    AsciiConcat(Kids(n), end);
    KidsSplit(0, n);
    assert Kids(0) + "" + KidsFrom(0, n) == KidsFrom(0, n);
    var behind := out[at + |Ascii(Kids(n) + end)|..];
    Bracket(COUNT_KEY + (Decimal(n) + COUNT_END));
    KidsRead(0, n, Ascii(end) + behind);
    assert out[at..] == Ascii(KidsFrom(0, n)) + (Ascii(end) + behind);
  }

  lemma Bracket(rest: string)
    ensures var end := Ascii("] " + rest);
            end != [] && end[0] == 93
  {
    AsciiBytes("] ");
    AsciiConcat("] ", rest);
  }

  lemma {:induction false} KidsQuiet(n: nat, a: char, b: char)
    requires a == '/'
    ensures Quiet(Kids(n), a, b)
  {
    hide Quiet, Format;
    if n == 0 {
      NoneQuiet(a, b);
    } else {
      KidsQuiet(n - 1, a, b);
      NoneQuiet(a, b);
      RefQuiet(a, b);
      QuietDigits(Decimal(2 + 2 * n), a, b);
      var gap := if n == 1 then "" else " ";
      QuietJoin(Decimal(2 + 2 * n), " 0 R", a, b);
      QuietJoin(Kids(n - 1), gap, a, b);
      QuietJoin(Kids(n - 1) + gap, Decimal(2 + 2 * n) + " 0 R", a, b);
    }
  }

  lemma NoneQuiet(a: char, b: char)
    requires a == '/'
    ensures Quiet("", a, b) && Quiet(" ", a, b) && Quiet("] ", a, b)
  {
  }

  lemma RefQuiet(a: char, b: char)
    requires a == '/'
    ensures Quiet(" 0 R", a, b)
  {
  }

  /** The tree counts its pages. */
  lemma TreeCounts(w: Wording, text: string)
    requires Plain(w)
    ensures Ref(Document(ObjectsOf(w, text)), COUNT_KEY, OffsetOf(ObjectsOf(w, text), 2)) == |PagesOf(WrapLines(text))|
  {
    hide Document, OffsetOf, Format, Quiet, IsKey, PagesOf, WrapLines, KIDS_KEY, COUNT_KEY, Ascii, Ref, COUNT_END;
    var n := |PagesOf(WrapLines(text))|;
    KeysAreKeys();
    EndsPlain();
    KidsKeyQuiet();
    NoneQuiet('/', 'C');
    KidsQuiet(n, '/', 'C');
    QuietJoin(w.treeHead, KIDS_KEY, '/', 'C');
    QuietJoin(w.treeHead + KIDS_KEY, Kids(n), '/', 'C');
    QuietJoin(w.treeHead + KIDS_KEY + Kids(n), "] ", '/', 'C');
    FirstObjects(w, PagesOf(WrapLines(text)), n);
    var rest := COUNT_KEY + (Decimal(n) + COUNT_END);
    assert w.treeHead + (KIDS_KEY + (Kids(n) + ("] " + rest))) == w.treeHead + KIDS_KEY + Kids(n) + "] " + rest;
    EntryRefers(w, text, 2, w.treeHead + KIDS_KEY + Kids(n) + "] ", COUNT_KEY, n, COUNT_END);
  }

  lemma KidsKeyQuiet()
    ensures Quiet(KIDS_KEY, '/', 'C')
  {
  }

  // ─── The streams ───

  lemma StreamFound(w: Wording, text: string, index: nat)
    requires index < |PagesOf(WrapLines(text))|
    ensures StreamAt(Document(ObjectsOf(w, text)), OffsetOf(ObjectsOf(w, text), 5 + 2 * index)) ==
            Utf8.Encode(PageStream(PagesOf(WrapLines(text))[index]))
  {
    hide Document, Format, Quiet, IsKey, PagesOf, WrapLines, Utf8.Encode, First, Ref, StandsAt, LENGTH_KEY, STREAM_KEY,
         PageStream, STREAM_END, OffsetOf;
    var pages := PagesOf(WrapLines(text));
    var out, from := Document(ObjectsOf(w, text)), OffsetOf(ObjectsOf(w, text), 5 + 2 * index);
    var stream := Utf8.Encode(PageStream(pages[index]));
    OffsetsPoint(w, text, 5 + 2 * index);
    ContentIsObject(w, pages, |pages|, index);
    var id, n := 5 + 2 * index, |stream|;
    var quiet, header := Decimal(id) + " 0 obj\n" + "<< ", Decimal(id) + " 0 obj\n";
    var lead := quiet + LENGTH_KEY + Decimal(n) + " >>\n";
    ContentText(id, n);
    var head, end := ContentHead(index, n), Ascii(STREAM_END);
    assert head == Ascii(lead + STREAM_KEY);
    Parts(out, from, head, stream, end) by {
      StreamNotEmpty(pages[index]);
    }
    PartStands(head + stream, end);
    PartStands(head, stream);
    StandsWithin(out, from, head + stream, 0, head);
    KeysAreKeys();
    HeaderQuiet(id, '/', 'L');
    HeaderQuiet(id, 's', 't');
    StreamPieces();
    QuietJoin(header, "<< ", '/', 'L');
    QuietDigits(Decimal(n), 's', 't');
    QuietJoin(header, "<< ", 's', 't');
    QuietJoin(quiet, LENGTH_KEY, 's', 't');
    QuietJoin(quiet + LENGTH_KEY, Decimal(n), 's', 't');
    QuietJoin(quiet + LENGTH_KEY + Decimal(n), " >>\n", 's', 't');
    assert lead + STREAM_KEY == lead + (STREAM_KEY + "");
    KeyFound(out, from, lead, STREAM_KEY, "");
    assert lead + STREAM_KEY == quiet + (LENGTH_KEY + (Decimal(n) + (" >>\n" + STREAM_KEY)));
    RefReads(out, from, quiet, LENGTH_KEY, n, " >>\n" + STREAM_KEY);
    AsciiBytes(lead + STREAM_KEY) by {
      QuietIsAscii(lead, 's', 't');
    }
    ThenStands(out, from + |head|, stream);
  }

  lemma StreamNotEmpty(lines: seq<string>)
    ensures Utf8.Encode(PageStream(lines)) != []
  {
    hide STREAM_HEAD, LinesStream;
    Utf8.EncodeConcat(STREAM_HEAD + LinesStream(lines), "ET");
    assert Utf8.Encode("ET") != [];
  }

  lemma ContentText(id: nat, n: nat)
    ensures ObjectHeader(id) + LengthHead(n) == Ascii(Decimal(id) + " 0 obj\n" + "<< " + LENGTH_KEY + Decimal(n) +
                                                      " >>\n" + STREAM_KEY)
  {
    hide Format, Ascii, LENGTH_KEY, STREAM_KEY;
    var header := Decimal(id) + " 0 obj\n";
    AsciiConcat(LENGTH_WORD, Decimal(n) + STREAM_WORD);
    AsciiConcat(header, LENGTH_WORD + (Decimal(n) + STREAM_WORD));
    assert header + (LENGTH_WORD + (Decimal(n) + STREAM_WORD))
        == header + "<< " + LENGTH_KEY + Decimal(n) + " >>\n" + STREAM_KEY;
  }

  lemma StreamPieces()
    ensures Quiet("<< ", '/', 'L') && Quiet("<< ", 's', 't') && Quiet(" >>\n", 's', 't') && Quiet(LENGTH_KEY, 's', 't')
  {
  }

  lemma LinesFound(w: Wording, text: string, index: nat)
    requires index < |PagesOf(WrapLines(text))|
    ensures LinesAt(Document(ObjectsOf(w, text)), OffsetOf(ObjectsOf(w, text), 5 + 2 * index)) ==
            ShownLines(PagesOf(WrapLines(text))[index])
  {
    hide Document, OffsetOf, PagesOf, WrapLines, StreamAt, ReadShows, ShownLines, STREAM_HEAD, Utf8.Encode;
    StreamFound(w, text, index);
    PageReads(PagesOf(WrapLines(text))[index]);
  }

  // ─── The whole document ───

  function ShownPages(pages: seq<seq<string>>): seq<seq<byte>>
    decreases pages
  {
    if pages == [] then [] else ShownLines(pages[0]) + ShownPages(pages[1..])
  }

  lemma {:induction false} ShownConcat(a: seq<string>, b: seq<string>)
    ensures ShownLines(a + b) == ShownLines(a) + ShownLines(b)
    decreases a
  {
    hide ShownText, Utf8.Encode;
    if a == [] {
      assert a + b == b;
    } else {
      assert (a + b)[1..] == a[1..] + b;
      ShownConcat(a[1..], b);
    }
  }

  lemma {:induction false} ShownFlat(pages: seq<seq<string>>)
    ensures ShownPages(pages) == ShownLines(Flat(pages))
    decreases pages
  {
    hide ShownLines;
    if pages == [] {
      NothingShown();
    } else {
      ShownFlat(pages[1..]);
      ShownConcat(pages[0], Flat(pages[1..]));
    }
  }

  lemma NothingShown()
    ensures ShownLines([]) == []
  {
  }

  /** The page object shows the lines of its page. */
  ghost predicate ShowsItsPage(out: seq<byte>, table: nat, pages: seq<seq<string>>, i: nat)
    requires i < |pages|
  {
    PageShows(out, table, 4 + 2 * i) == ShownLines(pages[i])
  }

  lemma PageFound(w: Wording, text: string, i: nat)
    requires Plain(w) && Small(ObjectsOf(w, text)) && i < |PagesOf(WrapLines(text))|
    ensures ShowsItsPage(Document(ObjectsOf(w, text)), |Body(ObjectsOf(w, text))|, PagesOf(WrapLines(text)), i)
  {
    hide Document, OffsetOf, Offset, PagesOf, WrapLines, LinesAt, ShownLines, Ref, Body, Small, Plain, CONTENTS_KEY,
         ObjectsUpTo;
    OffsetFound(ObjectsOf(w, text), 4 + 2 * i);
    PageRefers(w, text, i);
    OffsetFound(ObjectsOf(w, text), 5 + 2 * i);
    LinesFound(w, text, i);
  }

  lemma {:induction false} PagesFound(out: seq<byte>, table: nat, pages: seq<seq<string>>, i: nat)
    requires i <= |pages| && forall k :: 0 <= k < |pages| ==> ShowsItsPage(out, table, pages, k)
    ensures PagesShow(out, table, PageIds(i, |pages|)) == ShownPages(pages[i..])
    decreases |pages| - i
  {
    hide PageShows, ShownLines;
    if i == |pages| {
    } else {
      PagesFound(out, table, pages, i + 1);
      assert PageIds(i, |pages|)[1..] == PageIds(i + 1, |pages|) && pages[i..][1..] == pages[i + 1..];
      assert ShowsItsPage(out, table, pages, i);
    }
  }

  /** The page tree names the page objects in order, and counts them. */
  lemma PagesNamed(w: Wording, text: string)
    requires Plain(w) && Small(ObjectsOf(w, text))
    ensures PageNumbers(Document(ObjectsOf(w, text))) == PageIds(0, |PagesOf(WrapLines(text))|)
    ensures Ref(Document(ObjectsOf(w, text)), COUNT_KEY, Tree(Document(ObjectsOf(w, text)))) ==
            |PagesOf(WrapLines(text))|
  {
    hide Document, OffsetOf, Offset, PagesOf, WrapLines, Ref, Body, Small, Plain, TableOf, TrailerPlace, KidsAt,
         ROOT_KEY, PAGES_KEY, COUNT_KEY;
    var objects := ObjectsOf(w, text);
    TableFound(objects);
    RootFound(objects);
    OffsetFound(objects, 1);
    CatalogRefers(w, text);
    OffsetFound(objects, 2);
    TreeKids(w, text);
    TreeCounts(w, text);
  }

  /**
   Following the references from the end of the file, a viewer finds the pages the tree counts, in order, and on them
   every wrapped line of the text, in order: for every text whose document's offsets fit ten digits.
   */
  lemma DocumentShows(text: string)
    requires Small(ObjectsOf(WORDING, text))
    ensures |PageNumbers(TextToPdf(text))| == |PagesOf(WrapLines(text))|
    ensures Ref(TextToPdf(text), COUNT_KEY, Tree(TextToPdf(text))) == |PagesOf(WrapLines(text))|
    ensures Shows(TextToPdf(text)) == ShownLines(WrapLines(text))
  {
    hide Document, PagesOf, WrapLines, PagesShow, PageNumbers, Tree, Ref, Body, Small, Plain, TableOf, ShownLines,
         WORDING, COUNT_KEY, ShowsItsPage, ObjectsUpTo;
    var pages := PagesOf(WrapLines(text));
    WordingPlain();
    PagesNamed(WORDING, text);
    TableFound(ObjectsOf(WORDING, text));
    forall k | 0 <= k < |pages|
      ensures ShowsItsPage(TextToPdf(text), |Body(ObjectsOf(WORDING, text))|, pages, k)
    {
      PageFound(WORDING, text, k);
    }
    PagesFound(TextToPdf(text), |Body(ObjectsOf(WORDING, text))|, pages, 0);
    assert pages[0..] == pages;
    PagesKeepLines(WrapLines(text));
    ShownFlat(pages);
  }
}
