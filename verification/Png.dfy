/** PNG metadata: a text chunk embedded after the header, read back, and stripped (section 3.2 of RFC 2083). */
module Png {
  import opened Results
  import opened Bytes
  import opened Checksums
  import Utf8
  import Base64

  const SIGNATURE: seq<byte> := [137, 80, 78, 71, 13, 10, 26, 10]
  /** "steganohero" */
  const KEYWORD: seq<byte> := [115, 116, 101, 103, 97, 110, 111, 104, 101, 114, 111]

  const TEXT: seq<byte> := [116, 69, 88, 116]
  const ZTXT: seq<byte> := [122, 84, 88, 116]
  const ITXT: seq<byte> := [105, 84, 88, 116]
  const EXIF: seq<byte> := [101, 88, 73, 102]
  const TIME: seq<byte> := [116, 73, 77, 69]
  const IEND: seq<byte> := [73, 69, 78, 68]
  const IHDR: seq<byte> := [73, 72, 68, 82]

  /** Signature and header chunk: eight bytes and twenty-five. */
  const HEADER_END := 33

  predicate IsMetadata(kind: seq<byte>) {
    kind == TEXT || kind == ZTXT || kind == ITXT || kind == EXIF || kind == TIME
  }

  predicate Signed(png: seq<byte>) {
    |png| >= 8 && png[..8] == SIGNATURE
  }

  // ─── Chunks at the front of what follows the signature ───

  /** Bytes of the chunk at the front: length, type, data and checksum. */
  function Span(s: seq<byte>): nat
    requires |s| >= 8
  {
    12 + FromBe32(s[..4])
  }

  predicate Whole(s: seq<byte>) {
    |s| >= 8 && Span(s) <= |s|
  }

  function Kind(s: seq<byte>): seq<byte>
    requires |s| >= 8
  {
    s[4..8]
  }

  function Data(s: seq<byte>): seq<byte>
    requires Whole(s)
  {
    s[8..Span(s) - 4]
  }

  /** A chunk around `data`; its length field holds thirty-two bits of the length. */
  function ChunkOf(kind: seq<byte>, data: seq<byte>): (s: seq<byte>)
    ensures |s| == 8 + |kind| + |data|
  {
    Be32(|data| % 0x1_0000_0000) + kind + data + Be32Of(Crc32(kind + data))
  }

  /** What the stripper keeps: every whole chunk up to the end chunk, but for metadata. */
  function StripChunks(s: seq<byte>): seq<byte> {
    if !Whole(s) then []
    else
      (if IsMetadata(Kind(s)) then [] else s[..Span(s)]) +
      if Kind(s) == IEND then [] else StripChunks(s[Span(s)..])
  }

  function FirstZero(data: seq<byte>): (k: Option<nat>)
    ensures k.Some? ==> k.value < |data| && data[k.value] == 0 && 0 !in data[..k.value]
    ensures k.None? ==> 0 !in data
  {
    if data == [] then None
    else if data[0] == 0 then Some(0)
    else
      var k := FirstZero(data[1..]);
      if k.None? then None else Some(k.value + 1)
  }

  /** The text of a chunk whose keyword this is. */
  function TextUnder(data: seq<byte>, keyword: seq<byte>): Option<seq<byte>> {
    var k := FirstZero(data);
    if k.None? || data[..k.value] != keyword then None else Some(data[k.value + 1..])
  }

  /** The text of the first chunk under `keyword`, if it is text at all. */
  function ReadChunks(s: seq<byte>, keyword: seq<byte>): Option<seq<byte>> {
    if !Whole(s) then None
    else if Kind(s) == TEXT && TextUnder(Data(s), keyword).Some? then
      if Utf8.Decode(TextUnder(Data(s), keyword).value).Some? then TextUnder(Data(s), keyword) else None
    else if Kind(s) == IEND then None
    else ReadChunks(s[Span(s)..], keyword)
  }

  // ─── The operations ───

  function TextChunk(payload: seq<byte>): seq<byte> {
    ChunkOf(TEXT, KEYWORD + [0] + Base64.Encode(payload))
  }

  function Embed(png: seq<byte>, payload: seq<byte>): Result<seq<byte>> {
    if |png| < HEADER_END || !Signed(png) then Err(EncodingFailed("png"))
    else Ok(png[..HEADER_END] + TextChunk(payload) + png[HEADER_END..])
  }

  function Recover(png: seq<byte>): Result<Option<seq<byte>>> {
    if |png| < HEADER_END || !Signed(png) then Ok(None)
    else
      var text := ReadChunks(png[8..], KEYWORD);
      if text.None? then Ok(None)
      else
        var payload := Base64.Decode(text.value);
        if payload.None? then Err(DecodingFailed("png")) else Ok(Some(payload.value))
  }

  function Strip(png: seq<byte>): Result<seq<byte>> {
    if !Signed(png) then Err(EncodingFailed("png")) else Ok(png[..8] + StripChunks(png[8..]))
  }

  /** The chunk writer, with the table-driven checksum. */
  method WriteTextChunk(png: seq<byte>, keyword: seq<byte>, text: seq<byte>) returns (out: seq<byte>)
    requires |png| >= HEADER_END
    ensures out == png[..HEADER_END] + ChunkOf(TEXT, keyword + [0] + text) + png[HEADER_END..]
  {
    hide Crc32, Be32Of;
    var chunkData := keyword;
    chunkData := chunkData + [0];
    chunkData := chunkData + text;
    var table := MakeCrcTable();
    var crc := TableCrc32(table, TEXT + chunkData);
    var chunk := Be32(|chunkData| % 0x1_0000_0000);
    chunk := chunk + TEXT;
    chunk := chunk + chunkData;
    chunk := chunk + Be32Of(crc);
    out := png[..HEADER_END] + chunk;
    out := out + png[HEADER_END..];
  }

  method EmbedPng(png: seq<byte>, payload: seq<byte>) returns (r: Result<seq<byte>>)
    ensures r == Embed(png, payload)
  {
    hide ChunkOf;
    if |png| < HEADER_END || !Signed(png) {
      return Err(EncodingFailed("png"));
    }
    var text := Base64.EncodeChunks(payload);
    var out := WriteTextChunk(png, KEYWORD, text);
    if |out| <= |png| {
      return Err(EncodingFailed("png"));
    }
    r := Ok(out);
  }

  lemma Drop(s: seq<byte>, pos: nat, n: nat)
    requires pos + n <= |s|
    ensures s[pos..][n..] == s[pos + n..] && s[pos..][..n] == s[pos..pos + n]
  {
  }

  /** The reader's walk. */
  method ReadTextChunk(png: seq<byte>, keyword: seq<byte>) returns (r: Option<seq<byte>>)
    requires Signed(png)
    ensures r == ReadChunks(png[8..], keyword)
  {
    hide Utf8.Decode, TextUnder;
    var pos := 8;
    while true
      invariant 8 <= pos <= |png|
      invariant ReadChunks(png[8..], keyword) == ReadChunks(png[pos..], keyword)
      decreases |png| - pos
    {
      if pos + 8 > |png| {
        return None;
      }
      Drop(png, pos, 4);
      var length := FromBe32(png[pos..pos + 4]);
      var kind := png[pos + 4..pos + 8];
      assert kind == Kind(png[pos..]);
      var dataStart := pos + 8;
      var dataEnd := dataStart + length;
      if dataEnd + 4 > |png| {
        return None;
      }
      assert Data(png[pos..]) == png[dataStart..dataEnd];
      if kind == TEXT {
        var text := TextUnder(png[dataStart..dataEnd], keyword);
        if text.Some? {
          r := if Utf8.Decode(text.value).Some? then text else None;
          return;
        }
      }
      if kind == IEND {
        return None;
      }
      Drop(png, pos, dataEnd + 4 - pos);
      pos := dataEnd + 4;
    }
  }

  /** The stripper's walk. */
  method StripPng(png: seq<byte>) returns (r: Result<seq<byte>>)
    ensures r == Strip(png)
  {
    hide StripChunks, IsMetadata;
    if |png| < 8 || png[..8] != SIGNATURE {
      return Err(EncodingFailed("png"));
    }
    var out := png[..8];
    var pos := 8;
    ghost var goal := png[..8] + StripChunks(png[8..]);
    while true
      invariant 8 <= pos <= |png| && goal == out + StripChunks(png[pos..])
      decreases |png| - pos
    {
      StripStep(png[pos..], out);
      if pos + 8 > |png| {
        break;
      }
      Drop(png, pos, 4);
      var length := FromBe32(png[pos..pos + 4]);
      var kind := png[pos + 4..pos + 8];
      assert kind == Kind(png[pos..]);
      var chunkEnd := pos + 12 + length;
      if chunkEnd > |png| {
        break;
      }
      Drop(png, pos, 12 + length);
      if !IsMetadata(kind) {
        out := out + png[pos..chunkEnd];
      }
      pos := chunkEnd;
      if kind == IEND {
        assert out + [] == out;
        return Ok(out);
      }
    }
    assert out + [] == out;
    r := Ok(out);
  }

  lemma StripStep(s: seq<byte>, out: seq<byte>)
    ensures Whole(s) ==>
            out + StripChunks(s) ==
            (if IsMetadata(Kind(s)) then out else out + s[..Span(s)]) +
            if Kind(s) == IEND then [] else StripChunks(s[Span(s)..])
    ensures !Whole(s) ==> StripChunks(s) == []
  {
    hide IsMetadata;
    if Whole(s) {
      var piece := if IsMetadata(Kind(s)) then [] else s[..Span(s)];
      var rest := if Kind(s) == IEND then [] else StripChunks(s[Span(s)..]);
      assert out + (piece + rest) == (out + piece) + rest;
      assert out + [] == out;
    }
  }

  // ─── Chunk by chunk ───

  /** A whole chunk is read the same whatever follows it. */
  lemma SameChunk(s: seq<byte>, t: seq<byte>)
    requires Whole(s)
    ensures var chunk := s[..Span(s)];
            Whole(chunk + t) && Span(chunk + t) == Span(s) && Kind(chunk + t) == Kind(s) &&
            Data(chunk + t) == Data(s) &&
            (chunk + t)[..Span(s)] == chunk && (chunk + t)[Span(s)..] == t
  {
    var u := s[..Span(s)] + t;
    assert u[..4] == s[..4] && u[4..8] == s[4..8] && u[8..Span(s) - 4] == s[8..Span(s) - 4];
  }

  lemma Sections(a: seq<byte>, b: seq<byte>, c: seq<byte>, d: seq<byte>, t: seq<byte>)
    ensures var whole := a + b + c + d;
            var s, m, n := whole + t, |a| + |b|, |a| + |b| + |c|;
            s[..|a|] == a && s[|a|..m] == b && s[m..n] == c && s[..|whole|] == whole && s[|whole|..] == t
  {
  }

  /** A built chunk is whole and reads back its type and data. */
  lemma BuiltChunk(kind: seq<byte>, data: seq<byte>, t: seq<byte>)
    requires |kind| == 4 && |data| < 0x1_0000_0000
    ensures var chunk := ChunkOf(kind, data);
            Whole(chunk + t) && Span(chunk + t) == |chunk| && Kind(chunk + t) == kind && Data(chunk + t) == data &&
            (chunk + t)[..|chunk|] == chunk && (chunk + t)[|chunk|..] == t
  {
    hide Crc32, Be32Of, Be32, FromBe32;
    Sections(Be32(|data|), kind, data, Be32Of(Crc32(kind + data)), t);
  }

  /** A built chunk ends in the checksum of its type and data, as a reader computes it from the chunk. */
  lemma ChunkVerifies(kind: seq<byte>, data: seq<byte>)
    requires |kind| == 4
    ensures var chunk := ChunkOf(kind, data);
            Bv32Of(chunk[|chunk| - 4..]) == Crc32(chunk[4..|chunk| - 4])
  {
    hide Crc32, Be32Of, Be32, Bv32Of;
    var length, field := Be32(|data| % 0x1_0000_0000), Be32Of(Crc32(kind + data));
    Sections(length, kind, data, field, []);
    var chunk := ChunkOf(kind, data);
    assert chunk == length + (kind + data) + field;
    assert chunk[4..|chunk| - 4] == kind + data && chunk[|chunk| - 4..] == field;
    ChecksumFieldInverts(Crc32(kind + data));
  }

  /** A chunk the stripper drops makes no difference to it. */
  lemma StripSkips(kind: seq<byte>, data: seq<byte>, t: seq<byte>)
    requires IsMetadata(kind) && |data| < 0x1_0000_0000
    ensures StripChunks(ChunkOf(kind, data) + t) == StripChunks(t)
  {
    hide ChunkOf;
    BuiltChunk(kind, data, t);
    assert [] + StripChunks(t) == StripChunks(t);
  }

  /** The chunks a walk sees, in order, up to and with the end chunk. */
  function Chunks(s: seq<byte>): seq<seq<byte>> {
    if !Whole(s) then []
    else [s[..Span(s)]] + if Kind(s) == IEND then [] else Chunks(s[Span(s)..])
  }

  function WithoutMetadata(chunks: seq<seq<byte>>): seq<seq<byte>>
    requires forall i :: 0 <= i < |chunks| ==> |chunks[i]| >= 8
  {
    if chunks == [] then []
    else (if HoldsMetadata(chunks[0][4..8]) then [] else [chunks[0]]) + WithoutMetadata(chunks[1..])
  }

  predicate Named(kind: seq<byte>, name: string) {
    |kind| == |name| && forall i :: 0 <= i < |kind| ==> kind[i] as int == name[i] as int
  }

  /** The chunks a stripper drops, by name. */
  predicate HoldsMetadata(kind: seq<byte>) {
    Named(kind, "tEXt") || Named(kind, "zTXt") || Named(kind, "iTXt") || Named(kind, "eXIf") || Named(kind, "tIME")
  }

  lemma MetadataNamed(kind: seq<byte>)
    requires |kind| == 4
    ensures HoldsMetadata(kind) <==> IsMetadata(kind)
    ensures Named(kind, "IEND") <==> kind == IEND
  {
    assert kind == [kind[0], kind[1], kind[2], kind[3]];
  }

  /** A chunk of `n` bytes at the front: its length field counts the data between type and checksum. */
  ghost predicate Cut(s: seq<byte>, n: nat) {
    8 <= |s| && n <= |s| && n == 12 + ((s[0] as int * 256 + s[1] as int) * 256 + s[2] as int) * 256 + s[3] as int
  }

  /** Chunk after chunk, until the end chunk or bytes that no chunk opens. */
  ghost predicate CutsInto(s: seq<byte>, chunks: seq<seq<byte>>)
    decreases |chunks|
  {
    if chunks == [] then forall n: nat :: !Cut(s, n)
    else
      8 <= |chunks[0]| <= |s| && Cut(s, |chunks[0]|) && chunks[0] == s[..|chunks[0]|] &&
      if Named(chunks[0][4..8], "IEND") then |chunks| == 1 else CutsInto(s[|chunks[0]|..], chunks[1..])
  }

  lemma CutIs(s: seq<byte>)
    ensures if Whole(s) then Cut(s, Span(s)) else forall n: nat :: !Cut(s, n)
  {
  }

  lemma {:induction false} ChunksAreCut(s: seq<byte>)
    ensures CutsInto(s, Chunks(s))
    decreases |s|
  {
    hide Span, Cut, Named;
    CutIs(s);
    if Whole(s) {
      MetadataNamed(s[..Span(s)][4..8]);
      if Kind(s) != IEND {
        ChunksAreCut(s[Span(s)..]);
      }
    }
  }

  function Joined(chunks: seq<seq<byte>>): seq<byte> {
    if chunks == [] then [] else chunks[0] + Joined(chunks[1..])
  }

  lemma {:induction false} ChunksLongEnough(s: seq<byte>)
    ensures forall i :: 0 <= i < |Chunks(s)| ==> |Chunks(s)[i]| >= 8
    decreases |s|
  {
    if !Whole(s) || Kind(s) == IEND {
    } else {
      ChunksLongEnough(s[Span(s)..]);
    }
  }

  lemma {:induction false} ChunkByChunk(s: seq<byte>)
    requires forall i :: 0 <= i < |Chunks(s)| ==> |Chunks(s)[i]| >= 8
    ensures Chunks(StripChunks(s)) == WithoutMetadata(Chunks(s)) && Joined(Chunks(StripChunks(s))) == StripChunks(s)
    decreases |s|
  {
    hide IsMetadata, HoldsMetadata;
    if !Whole(s) {
    } else {
      var n := Span(s);
      assert s[..n][4..8] == Kind(s);
      MetadataNamed(Kind(s));
      var rest := if Kind(s) == IEND then [] else StripChunks(s[n..]);
      assert Chunks(s)[1..] == if Kind(s) == IEND then [] else Chunks(s[n..]);
      if Kind(s) != IEND {
        ChunksLongEnough(s[n..]);
        ChunkByChunk(s[n..]);
      } else {
        EndIsKept();
      }
      SameChunk(s, rest);
      assert [] + rest == rest && ([s[..n]] + Chunks(rest))[1..] == Chunks(rest);
    }
  }

  /**
   Stripping keeps exactly the chunks whose names are not metadata, each byte for byte and in order, and nothing beside
   them.
   */
  lemma StripKeepsTheRest(s: seq<byte>)
    ensures CutsInto(s, Chunks(s))
    ensures forall i :: 0 <= i < |Chunks(s)| ==> |Chunks(s)[i]| >= 8
    ensures Chunks(StripChunks(s)) == WithoutMetadata(Chunks(s)) && Joined(WithoutMetadata(Chunks(s))) == StripChunks(s)
  {
    hide Chunks, StripChunks, CutsInto, WithoutMetadata, Joined;
    ChunksAreCut(s);
    ChunksLongEnough(s);
    ChunkByChunk(s);
  }

  lemma EndIsKept()
    ensures !IsMetadata(IEND)
  {
  }

  /** Stripping leaves nothing to strip. */
  lemma {:induction false} StripChunksTwice(s: seq<byte>)
    ensures StripChunks(StripChunks(s)) == StripChunks(s)
    decreases |s|
  {
    hide IsMetadata;
    if !Whole(s) {
    } else {
      var n := Span(s);
      var rest := if Kind(s) == IEND then [] else StripChunks(s[n..]);
      if Kind(s) != IEND {
        StripChunksTwice(s[n..]);
      } else {
        EndIsKept();
      }
      SameChunk(s, rest);
      assert [] + rest == rest;
    }
  }

  /** Nothing is left to recover after stripping, under any keyword. */
  lemma {:induction false} NothingAfterStrip(s: seq<byte>, keyword: seq<byte>)
    ensures ReadChunks(StripChunks(s), keyword) == None
    decreases |s|
  {
    hide TextUnder, Utf8.Decode;
    if !Whole(s) {
    } else {
      var n := Span(s);
      var rest := if Kind(s) == IEND then [] else StripChunks(s[n..]);
      if Kind(s) != IEND {
        NothingAfterStrip(s[n..], keyword);
      }
      SameChunk(s, rest);
      assert [] + rest == rest;
    }
  }

  /** The text of the first chunk named tEXt whose keyword is the one asked for, none if it is not UTF-8. */
  function FirstUnder(chunks: seq<seq<byte>>, keyword: seq<byte>): Option<seq<byte>>
    requires forall i :: 0 <= i < |chunks| ==> |chunks[i]| >= 12
  {
    if chunks == [] then None
    else
      var text := TextUnder(chunks[0][8..|chunks[0]| - 4], keyword);
      if Named(chunks[0][4..8], "tEXt") && text.Some? then if Utf8.Decode(text.value).Some? then text else None
      else FirstUnder(chunks[1..], keyword)
  }

  lemma TextNamed(kind: seq<byte>)
    requires |kind| == 4
    ensures Named(kind, "tEXt") <==> kind == TEXT
  {
    assert kind == [kind[0], kind[1], kind[2], kind[3]];
  }

  lemma {:induction false} ChunksWhole(s: seq<byte>)
    ensures forall i :: 0 <= i < |Chunks(s)| ==> |Chunks(s)[i]| >= 12
    decreases |s|
  {
    if !Whole(s) || Kind(s) == IEND {
    } else {
      ChunksWhole(s[Span(s)..]);
    }
  }

  /** What is read is the first text under the keyword among the chunks, none behind the end chunk. */
  lemma {:induction false} ReadsFirst(s: seq<byte>, keyword: seq<byte>)
    ensures forall i :: 0 <= i < |Chunks(s)| ==> |Chunks(s)[i]| >= 12
    ensures ReadChunks(s, keyword) == FirstUnder(Chunks(s), keyword)
    decreases |s|
  {
    hide TextUnder, Utf8.Decode, Named;
    ChunksWhole(s);
    if Whole(s) {
      var chunk := s[..Span(s)];
      assert chunk[4..8] == Kind(s) && chunk[8..|chunk| - 4] == Data(s);
      TextNamed(Kind(s));
      if Kind(s) == IEND {
        assert Chunks(s)[1..] == [];
      } else {
        ReadsFirst(s[Span(s)..], keyword);
        assert Chunks(s)[1..] == Chunks(s[Span(s)..]);
      }
    }
  }

  // ─── The laws ───

  /** A PNG as section 4.1.1 of RFC 2083 opens it: the first chunk is a header of thirteen bytes. */
  ghost predicate HeaderFirst(png: seq<byte>) {
    |png| >= HEADER_END && Signed(png) && FromBe32(png[8..12]) == 13 && png[12..16] == IHDR
  }

  lemma HeaderChunk(png: seq<byte>, t: seq<byte>)
    requires HeaderFirst(png)
    ensures var s := png[8..HEADER_END] + t;
            Whole(s) && Span(s) == 25 && Kind(s) == IHDR && s[25..] == t && s[..25] == png[8..HEADER_END]
  {
    var s := png[8..HEADER_END] + t;
    assert s[..4] == png[8..12] && s[4..8] == png[12..16];
  }

  /** A payload whose chunk length thirty-two bits can state. */
  ghost predicate Statable(payload: seq<byte>) {
    |KEYWORD| + 1 + |Base64.Encode(payload)| < 0x1_0000_0000
  }

  lemma EmbeddedShape(png: seq<byte>, payload: seq<byte>)
    requires HeaderFirst(png)
    ensures Embed(png, payload).Ok?
    ensures var out := Embed(png, payload).value;
            HeaderFirst(out) && out[..8] == png[..8] &&
            out[8..] == png[8..HEADER_END] + (TextChunk(payload) + png[HEADER_END..])
  {
    hide TextChunk;
    var out := Embed(png, payload).value;
    assert out[..HEADER_END] == png[..HEADER_END];
    assert out[8..12] == out[..HEADER_END][8..12] && out[12..16] == out[..HEADER_END][12..16];
    assert png[8..12] == png[..HEADER_END][8..12] && png[12..16] == png[..HEADER_END][12..16];
    assert out[..8] == out[..HEADER_END][..8] && png[..8] == png[..HEADER_END][..8];
  }

  lemma {:induction false} AsciiDecodes(s: seq<byte>)
    requires forall i :: 0 <= i < |s| ==> s[i] < 128
    ensures Utf8.Decode(s).Some?
  {
    if s == [] {
    } else {
      AsciiDecodes(s[1..]);
    }
  }

  lemma {:induction false} FirstZeroAfter(keyword: seq<byte>, text: seq<byte>)
    requires 0 !in keyword
    ensures FirstZero(keyword + [0] + text) == Some(|keyword|)
  {
    var data := keyword + [0] + text;
    if keyword == [] {
      assert data[0] == 0;
    } else {
      assert data[0] == keyword[0] && data[1..] == keyword[1..] + [0] + text;
      FirstZeroAfter(keyword[1..], text);
    }
  }

  lemma KeywordRead(text: seq<byte>)
    ensures TextUnder(KEYWORD + [0] + text, KEYWORD) == Some(text)
  {
    hide FirstZero;
    var data := KEYWORD + [0] + text;
    FirstZeroAfter(KEYWORD, text);
    assert data[..11] == KEYWORD && data[12..] == text;
  }

  /** A text chunk under the keyword, right behind the header of a PNG. */
  function WithText(png: seq<byte>, text: seq<byte>): seq<byte>
    requires |png| >= HEADER_END
  {
    png[..HEADER_END] + ChunkOf(TEXT, KEYWORD + [0] + text) + png[HEADER_END..]
  }

  /** Text under the keyword that is not UTF-8 counts as none; text that is not base64 is an error, never a payload. */
  lemma RecoverReads(png: seq<byte>, text: seq<byte>)
    requires HeaderFirst(png) && |KEYWORD| + 1 + |text| < 0x1_0000_0000
    ensures Recover(WithText(png, text)) ==
            if Utf8.Decode(text).None? then Ok(None)
            else if Base64.Decode(text).None? then Err(DecodingFailed("png"))
            else Ok(Some(Base64.Decode(text).value))
  {
    hide ChunkOf, Base64.Decode, Utf8.Decode, ReadChunks, KEYWORD;
    var chunk, rest := ChunkOf(TEXT, KEYWORD + [0] + text), png[HEADER_END..];
    TextRead(png, text);
    HeaderInFront(png, chunk, rest);
  }

  lemma HeaderInFront(png: seq<byte>, chunk: seq<byte>, rest: seq<byte>)
    requires |png| >= HEADER_END && Signed(png)
    ensures var out := png[..HEADER_END] + chunk + rest;
            |out| >= HEADER_END && Signed(out) && out[8..] == png[8..HEADER_END] + (chunk + rest)
  {
    var out := png[..HEADER_END] + chunk + rest;
    assert out[..8] == png[..8];
  }

  lemma TextRead(png: seq<byte>, text: seq<byte>)
    requires HeaderFirst(png) && |KEYWORD| + 1 + |text| < 0x1_0000_0000
    ensures ReadChunks(png[8..HEADER_END] + (ChunkOf(TEXT, KEYWORD + [0] + text) + png[HEADER_END..]), KEYWORD) ==
            if Utf8.Decode(text).Some? then Some(text) else None
  {
    hide ChunkOf, TextUnder, Utf8.Decode, ReadChunks, KEYWORD, Span, Whole, Kind, Data;
    var rest := png[HEADER_END..];
    var t := ChunkOf(TEXT, KEYWORD + [0] + text) + rest;
    HeaderChunk(png, t);
    BuiltChunk(TEXT, KEYWORD + [0] + text, rest);
    KeywordRead(text);
    ReadPast(png[8..HEADER_END] + t, KEYWORD);
    ReadHere(t, KEYWORD, text);
  }

  lemma ReadPast(s: seq<byte>, keyword: seq<byte>)
    requires Whole(s) && Kind(s) == IHDR
    ensures ReadChunks(s, keyword) == ReadChunks(s[Span(s)..], keyword)
  {
  }

  lemma ReadHere(s: seq<byte>, keyword: seq<byte>, text: seq<byte>)
    requires Whole(s) && Kind(s) == TEXT && TextUnder(Data(s), keyword) == Some(text)
    ensures ReadChunks(s, keyword) == if Utf8.Decode(text).Some? then Some(text) else None
  {
    hide TextUnder, Utf8.Decode;
  }

  /** What is embedded is recovered, whatever text chunks were there before. */
  lemma RecoverAfterEmbed(png: seq<byte>, payload: seq<byte>)
    requires HeaderFirst(png) && Statable(payload)
    ensures Embed(png, payload).Ok? && Recover(Embed(png, payload).value) == Ok(Some(payload))
  {
    hide ChunkOf, Base64.Encode, Base64.Decode, TextUnder, Utf8.Decode, Embed;
    EmbeddedShape(png, payload);
    var text := Base64.Encode(payload);
    var t := TextChunk(payload) + png[HEADER_END..];
    HeaderChunk(png, t);
    BuiltChunk(TEXT, KEYWORD + [0] + text, png[HEADER_END..]);
    KeywordRead(text);
    Base64.StaysInAlphabet(payload);
    AsciiDecodes(text);
    Base64.RoundTrip(payload);
    assert ReadChunks(t, KEYWORD) == Some(text);
    assert ReadChunks(png[8..HEADER_END] + t, KEYWORD) == ReadChunks(t, KEYWORD);
  }

  /** A second embed wins. */
  lemma SecondEmbedWins(png: seq<byte>, first: seq<byte>, second: seq<byte>)
    requires HeaderFirst(png) && Statable(second)
    ensures Embed(png, first).Ok? && Embed(Embed(png, first).value, second).Ok? &&
            Recover(Embed(Embed(png, first).value, second).value) == Ok(Some(second))
  {
    hide Embed, Recover;
    EmbeddedShape(png, first);
    RecoverAfterEmbed(Embed(png, first).value, second);
  }

  /** Stripping takes away exactly what embedding added. */
  lemma StripAfterEmbed(png: seq<byte>, payload: seq<byte>)
    requires HeaderFirst(png) && Statable(payload)
    ensures Embed(png, payload).Ok? && Strip(Embed(png, payload).value) == Strip(png)
  {
    hide ChunkOf, Base64.Encode, Embed;
    EmbeddedShape(png, payload);
    var rest := png[HEADER_END..];
    var t := TextChunk(payload) + rest;
    HeaderChunk(png, t);
    HeaderChunk(png, rest);
    StripSkips(TEXT, KEYWORD + [0] + Base64.Encode(payload), rest);
    assert png[8..] == png[8..HEADER_END] + rest;
  }

  /** For every PNG: stripping twice is stripping once, and nothing is recovered after it. */
  lemma StripLaws(png: seq<byte>)
    requires Strip(png).Ok?
    ensures Strip(Strip(png).value) == Strip(png) && Recover(Strip(png).value) == Ok(None)
  {
    var out := Strip(png).value;
    assert out[..8] == png[..8] && out[8..] == StripChunks(png[8..]);
    StripChunksTwice(png[8..]);
    NothingAfterStrip(png[8..], KEYWORD);
  }
}
