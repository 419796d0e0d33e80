/** The light frame: one minimal header, then the payload, read back by its own length field. */
module LightFrames {
  import opened Results
  import opened Bytes
  import opened Checksums
  import opened Preambles

  const VERSION_LIGHT_PLAIN: byte := 0x03
  const VERSION_LIGHT_SEALED: byte := 0x04
  const HEADER_LEN_PLAIN := 8
  const HEADER_LEN_SEALED := 24

  datatype LightContents = LightContents(flags: Flags, salt: Option<Salt>, payload: seq<byte>)

  function HeaderLen(hasSalt: bool): nat {
    if hasSalt then HEADER_LEN_SEALED else HEADER_LEN_PLAIN
  }

  /** Bits a light frame occupies. */
  function FrameBits(payloadLen: nat, hasSalt: bool): nat {
    (HeaderLen(hasSalt) + payloadLen) * 8
  }

  /** Whole payload bytes `positions` hold, the header deducted. */
  function PayloadCapacityBytes(positions: nat, hasSalt: bool): (n: nat)
    ensures forall len: nat :: 0 < len ==> (len <= n <==> FrameBits(len, hasSalt) <= positions)
  {
    if positions / 8 <= HeaderLen(hasSalt) then 0 else positions / 8 - HeaderLen(hasSalt)
  }

  function VersionOf(salt: Option<Salt>): byte {
    if salt.Some? then VERSION_LIGHT_SEALED else VERSION_LIGHT_PLAIN
  }

  /** The header bytes the checksum covers. */
  function CheckedHeader(flags: Flags, salt: Option<Salt>, payloadBits: u16): (s: seq<byte>)
    ensures |s| == HeaderLen(salt.Some?) - 2
  {
    MAGIC + [VersionOf(salt), flags.ToByte()] + Be16(payloadBits) + (if salt.Some? then salt.value else [])
  }

  function FrameBytes(flags: Flags, salt: Option<Salt>, payload: seq<byte>): (s: seq<byte>)
    requires |payload| * 8 < 0x1_0000
    ensures |s| == HeaderLen(salt.Some?) + |payload|
  {
    var header := CheckedHeader(flags, salt, |payload| * 8);
    header + Be16Of(Crc16(header)) + payload
  }

  function BuildLight(flags: Flags, salt: Option<Salt>, payload: seq<byte>): (r: Result<seq<bool>>)
    ensures r.Ok? <==> payload != [] && |payload| * 8 < 0x1_0000
    ensures r.Ok? ==> |r.value| == FrameBits(|payload|, salt.Some?)
  {
    if payload == [] then Err(InvalidInput)
    else if |payload| * 8 >= 0x1_0000 then Err(CapacityExceeded(|payload| * 8, 0xFFFF))
    else Ok(BytesToBits(FrameBytes(flags, salt, payload)))
  }

  function ReadLight(bits: seq<bool>): Result<LightContents> {
    ReadLightBytes(BitsToBytes(bits))
  }

  function ReadLightBytes(bytes: seq<byte>): Result<LightContents> {
    if |bytes| < HEADER_LEN_PLAIN || !OpensWithMagic(bytes) then Err(DecodingFailed("light frame"))
    else if bytes[2] == VERSION_LIGHT_PLAIN then ReadChecked(bytes, None, 6)
    else if bytes[2] != VERSION_LIGHT_SEALED then Err(DecodingFailed("light frame"))
    else if |bytes| >= HEADER_LEN_SEALED then ReadChecked(bytes, Some(bytes[6..22]), 22)
    else
      var _ :- Flags.FromByte(bytes[3]);
      Err(DecodingFailed("light frame"))
  }

  /** The flags, the checksum at `crcOffset` over all before it, and the payload behind it. */
  function ReadChecked(bytes: seq<byte>, salt: Option<Salt>, crcOffset: nat): Result<LightContents>
    requires 6 <= crcOffset && crcOffset + 2 <= |bytes|
  {
    var flags :- Flags.FromByte(bytes[3]);
    var payloadBits := FromBe16(bytes[4..6]);
    var end := crcOffset + 2 + payloadBits / 8;
    if Bv16Of(bytes[crcOffset..crcOffset + 2]) != Crc16(bytes[..crcOffset]) || payloadBits % 8 != 0 || |bytes| < end
    then Err(DecodingFailed("light frame"))
    else Ok(LightContents(flags, salt, bytes[crcOffset + 2..end]))
  }

  function PeekVersion(bits: seq<bool>): Option<byte> {
    var bytes := BitsToBytes(bits);
    if |bytes| < 3 then None
    else if !OpensWithMagic(bytes) then None
    else Some(bytes[2])
  }

  // ─── Round trip ───

  lemma HeaderFields(flags: Flags, salt: Option<Salt>, payloadBits: u16, rest: seq<byte>)
    ensures var bytes := CheckedHeader(flags, salt, payloadBits) + rest;
            OpensWithMagic(bytes) && bytes[2] == VersionOf(salt) && bytes[3] == flags.ToByte() &&
            bytes[4..6] == Be16(payloadBits) && (salt.Some? ==> bytes[6..22] == salt.value)
  {
    var header := CheckedHeader(flags, salt, payloadBits);
    var bytes := header + rest;
    assert bytes[0] == header[0] && bytes[1] == header[1];
    assert bytes[4..6] == header[4..6] == Be16(payloadBits);
    if salt.Some? {
      assert bytes[6..22] == header[6..22] == salt.value;
    }
  }

  lemma Sections<T>(a: seq<T>, b: seq<T>, c: seq<T>, d: seq<T>)
    ensures var s := a + b + c + d;
            var n := |a| + |b|;
            s[..|a|] == a && s[|a|..n] == b && s[n..n + |c|] == c && s == a + (b + c + d)
  {
  }

  lemma ReadFrameBytes(flags: Flags, salt: Option<Salt>, payload: seq<byte>, rest: seq<byte>)
    requires |payload| * 8 < 0x1_0000
    ensures ReadLightBytes(FrameBytes(flags, salt, payload) + rest) == Ok(LightContents(flags, salt, payload))
  {
    hide CheckedHeader, Crc16, Be16Of;
    var header := CheckedHeader(flags, salt, |payload| * 8);
    var field := Be16Of(Crc16(header));
    Sections(header, field, payload, rest);
    HeaderFieldInverts(Crc16(header));
    HeaderFields(flags, salt, |payload| * 8, field + payload + rest);
    FlagsRoundTrip(flags);
  }

  /** A built frame reads back exactly, whatever positions follow it. */
  lemma LightRoundTrip(flags: Flags, salt: Option<Salt>, payload: seq<byte>, rest: seq<bool>)
    requires BuildLight(flags, salt, payload).Ok?
    ensures var bits := BuildLight(flags, salt, payload).value + rest;
            ReadLight(bits) == Ok(LightContents(flags, salt, payload)) &&
            PeekVersion(bits) == Some(VersionOf(salt))
  {
    var bytes := FrameBytes(flags, salt, payload);
    BitsToBytesInverts(bytes, rest);
    ReadFrameBytes(flags, salt, payload, BitsToBytes(rest));
    var read := bytes + BitsToBytes(rest);
    assert OpensWithMagic(read) && read[2] == VersionOf(salt);
  }

  // ─── Scanning ───

  /** The whole frame that starts at `offset`, if one does. */
  function CandidateAt(bits: seq<bool>, offset: nat): Option<LightContents>
    requires offset <= |bits|
  {
    if ReadLight(bits[offset..]).Ok? then Some(ReadLight(bits[offset..]).value) else None
  }

  /** The first whole frame at or after `offset`. */
  function ScanFrom(bits: seq<bool>, offset: nat): Option<LightContents>
    requires |bits| >= 16
    decreases |bits| - offset
  {
    if offset > |bits| - 16 then None
    else if CandidateAt(bits, offset).Some? then CandidateAt(bits, offset)
    else ScanFrom(bits, offset + 1)
  }

  /** The scan returns the frame at `at` when none validates before it. */
  lemma {:induction false} ScanSkips(bits: seq<bool>, offset: nat, at: nat)
    requires offset <= at && at + 16 <= |bits|
    requires CandidateAt(bits, at).Some?
    ensures ScanFrom(bits, offset).Some?
    ensures (forall j :: offset <= j < at ==> CandidateAt(bits, j).None?) ==>
              ScanFrom(bits, offset) == CandidateAt(bits, at)
    decreases at - offset
  {
    hide CandidateAt;
    if offset == at || CandidateAt(bits, offset).Some? {
    } else {
      ScanSkips(bits, offset + 1, at);
    }
  }

  function Scan(bits: seq<bool>): Option<LightContents> {
    if |bits| < HEADER_LEN_PLAIN * 8 then None else ScanFrom(bits, 0)
  }

  /** Whatever reads declares its length in sixteen bits. */
  lemma LightPayloadShort(bits: seq<bool>)
    requires ReadLight(bits).Ok?
    ensures |ReadLight(bits).value.payload| * 8 < 0x1_0000
  {
    hide BitsToBytes, Crc16, Bv16Of, OpensWithMagic;
  }

  /** What a scan finds reads at some offset. */
  lemma {:induction false} ScanReads(bits: seq<bool>, offset: nat) returns (at: nat)
    requires |bits| >= 16 && ScanFrom(bits, offset).Some?
    ensures offset <= at <= |bits| && ScanFrom(bits, offset) == CandidateAt(bits, at)
    decreases |bits| - offset
  {
    hide CandidateAt;
    if CandidateAt(bits, offset).Some? {
      at := offset;
    } else {
      at := ScanReads(bits, offset + 1);
    }
  }

  /** Two bytes that open with the magic are the magic. */
  lemma MagicIs(bytes: seq<byte>, front: seq<byte>)
    requires |front| == 2 <= |bytes| && bytes[..2] == front && OpensWithMagic(bytes)
    ensures front == MAGIC
  {
    assert front[0] == bytes[0] && front[1] == bytes[1];
  }

  /** The first two bytes are the first sixteen bits. */
  lemma FirstTwoBytes(bits: seq<bool>)
    requires |bits| >= 16
    ensures var front := BitsToBytes(bits[..16]);
            |front| == 2 && BitsToBytes(bits)[..2] == front && BytesToBits(front) == bits[..16]
  {
    hide BytesToBits, BitsToBytes;
    assert bits == bits[..16] + bits[16..];
    BitsToBytesFront(bits[..16], bits[16..]);
    BytesToBitsInverts(bits[..16]);
  }

  /** Bytes that open with the magic are bits that open with its sixteen. */
  lemma OpeningBits(bits: seq<bool>)
    requires OpensWithMagic(BitsToBytes(bits))
    ensures |bits| >= 16 && bits[..16] == BytesToBits(MAGIC)
  {
    hide BytesToBits, BitsToBytes, MAGIC, OpensWithMagic;
    assert |BitsToBytes(bits)| >= 2 by {
      MagicTakesTwo(BitsToBytes(bits));
    }
    FirstTwoBytes(bits);
    MagicIs(BitsToBytes(bits), BitsToBytes(bits[..16]));
  }

  lemma MagicTakesTwo(bytes: seq<byte>)
    requires OpensWithMagic(bytes)
    ensures |bytes| >= 2
  {
  }

  /** A frame that reads opens with the magic's sixteen bits, so looking for those first misses nothing. */
  lemma MagicNecessary(bits: seq<bool>)
    requires ReadLight(bits).Ok?
    ensures |bits| >= 16 && bits[..16] == BytesToBits(MAGIC)
  {
    hide ReadChecked, Flags.FromByte;
    OpeningBits(bits);
  }

  /** Is this the start of a light frame, to the reader that tells frames apart by their version? */
  predicate OpensLight(bits: seq<bool>) {
    PeekVersion(bits) == Some(VERSION_LIGHT_PLAIN) || PeekVersion(bits) == Some(VERSION_LIGHT_SEALED)
  }

  lemma ReadsOpenLight(bits: seq<bool>)
    requires ReadLight(bits).Ok?
    ensures OpensLight(bits) && |bits| >= 64
  {
    hide ReadChecked, OpensWithMagic, BitsToBytes;
  }

  /** The version is in the first three bytes. */
  lemma PeekStable(a: seq<bool>, b: seq<bool>)
    requires |a| >= 24
    ensures PeekVersion(a + b) == PeekVersion(a)
  {
    hide BitsToBytes;
    BitsToBytesFront(a, b);
    var short, long := BitsToBytes(a), BitsToBytes(a + b);
    assert forall i :: 0 <= i < 3 ==> long[i] == long[..|short|][i];
  }

  lemma CheckedStable(short: seq<byte>, long: seq<byte>, salt: Option<Salt>, crcOffset: nat)
    requires 6 <= crcOffset && crcOffset + 2 <= |short| <= |long| && long[..|short|] == short
    requires ReadChecked(short, salt, crcOffset).Ok?
    ensures ReadChecked(long, salt, crcOffset) == ReadChecked(short, salt, crcOffset)
  {
    hide Crc16, Bv16Of, FromBe16;
    assert long == short + long[|short|..];
    assert long[3] == short[3] && long[4..6] == short[4..6] && long[..crcOffset] == short[..crcOffset];
    assert long[crcOffset..crcOffset + 2] == short[crcOffset..crcOffset + 2];
    var end := crcOffset + 2 + FromBe16(short[4..6]) / 8;
    assert long[crcOffset + 2..end] == short[crcOffset + 2..end];
  }

  /** A frame that reads reads the same whatever follows. */
  lemma LightStable(a: seq<bool>, b: seq<bool>)
    requires ReadLight(a).Ok?
    ensures ReadLight(a + b) == ReadLight(a)
  {
    hide BitsToBytes, ReadChecked;
    BitsToBytesFront(a, b);
    var short, long := BitsToBytes(a), BitsToBytes(a + b);
    assert forall i :: 0 <= i < |short| ==> long[i] == long[..|short|][i];
    if short[2] == VERSION_LIGHT_PLAIN {
      CheckedStable(short, long, None, 6);
    } else {
      assert long[6..22] == short[6..22];
      CheckedStable(short, long, Some(short[6..22]), 22);
    }
  }

  /** These bytes open with the whole frame of `c`. */
  ghost predicate OpensWithFrame(bytes: seq<byte>, c: LightContents) {
    |c.payload| * 8 < 0x1_0000 && |FrameBytes(c.flags, c.salt, c.payload)| <= |bytes| &&
    bytes[..|FrameBytes(c.flags, c.salt, c.payload)|] == FrameBytes(c.flags, c.salt, c.payload)
  }

  lemma CheckedIsFrame(bytes: seq<byte>, salt: Option<Salt>, crcOffset: nat)
    requires crcOffset == HeaderLen(salt.Some?) - 2 && crcOffset + 2 <= |bytes| && OpensWithMagic(bytes)
    requires bytes[2] == VersionOf(salt) && (salt.Some? ==> bytes[6..22] == salt.value)
    requires ReadChecked(bytes, salt, crcOffset).Ok?
    ensures OpensWithFrame(bytes, ReadChecked(bytes, salt, crcOffset).value)
  {
    hide Crc16, Be16Of, Bv16Of, FromBe16, Be16;
    var c := ReadChecked(bytes, salt, crcOffset).value;
    var header, field := bytes[..crcOffset], bytes[crcOffset..crcOffset + 2];
    FromBe16Inverts(bytes[4..6]);
    HeaderIs(bytes, c.flags, salt, FromBe16(bytes[4..6]), crcOffset);
    HeaderFieldStores(field);
    var end := crcOffset + 2 + |c.payload|;
    assert bytes[..end] == header + field + bytes[crcOffset + 2..end];
  }

  lemma HeaderIs(bytes: seq<byte>, flags: Flags, salt: Option<Salt>, payloadBits: u16, crcOffset: nat)
    requires crcOffset == HeaderLen(salt.Some?) - 2 <= |bytes| && OpensWithMagic(bytes)
    requires bytes[2] == VersionOf(salt) && bytes[3] == flags.ToByte() && bytes[4..6] == Be16(payloadBits)
    requires salt.Some? ==> bytes[6..22] == salt.value
    ensures CheckedHeader(flags, salt, payloadBits) == bytes[..crcOffset]
  {
    hide Be16;
    var header := CheckedHeader(flags, salt, payloadBits);
    assert header[4..6] == Be16(payloadBits);
    forall i | 0 <= i < crcOffset
      ensures header[i] == bytes[i]
    {
      if 4 <= i < 6 {
        assert header[i] == header[4..6][i - 4] && bytes[i] == bytes[4..6][i - 4];
      } else if i >= 6 {
        assert header[i] == salt.value[i - 6] && bytes[i] == bytes[6..22][i - 6];
      }
    }
  }

  /**
   Nothing reads but what was built: the magic, the version, the flags, the length, the salt, the checksum, all
   of it.
   */
  lemma ReadsOnlyFrames(bytes: seq<byte>)
    requires ReadLightBytes(bytes).Ok?
    ensures OpensWithFrame(bytes, ReadLightBytes(bytes).value)
  {
    hide ReadChecked, FrameBytes;
    if bytes[2] == VERSION_LIGHT_PLAIN {
      CheckedIsFrame(bytes, None, 6);
    } else {
      CheckedIsFrame(bytes, Some(bytes[6..22]), 22);
    }
  }

  /** At this place of a bit stream stands the whole frame of `c`. */
  ghost predicate FrameAt(bits: seq<bool>, at: nat, c: LightContents) {
    at <= |bits| && OpensWithFrame(BitsToBytes(bits[at..]), c)
  }

  lemma CandidateIsFrame(bits: seq<bool>, at: nat, c: LightContents)
    requires at <= |bits|
    ensures CandidateAt(bits, at) == Some(c) <==> FrameAt(bits, at, c)
  {
    hide ReadLightBytes, FrameBytes, BitsToBytes;
    var bytes := BitsToBytes(bits[at..]);
    if ReadLightBytes(bytes).Ok? {
      ReadsOnlyFrames(bytes);
    }
    if FrameAt(bits, at, c) {
      var frame := FrameBytes(c.flags, c.salt, c.payload);
      assert bytes == frame + bytes[|frame|..];
      ReadFrameBytes(c.flags, c.salt, c.payload, bytes[|frame|..]);
    }
  }

  /** No frame of anything stands before `at`. */
  ghost predicate NoFrameBefore(bits: seq<bool>, at: nat) {
    forall j, d :: 0 <= j < at ==> !FrameAt(bits, j, d)
  }

  /** The first whole frame of a stream, if one stands in it anywhere. */
  ghost predicate FirstFrame(bits: seq<bool>, r: Option<LightContents>) {
    if r.None? then NoFrameBefore(bits, |bits| + 1)
    else exists at: nat :: FrameAt(bits, at, r.value) && NoFrameBefore(bits, at)
  }

  lemma FrameNeedsRoom(bits: seq<bool>, at: nat, c: LightContents)
    requires FrameAt(bits, at, c)
    ensures at + 64 <= |bits|
  {
    hide FrameBytes, BitsToBytes;
  }

  lemma {:induction false} ScanFromIsFirst(bits: seq<bool>, offset: nat)
    requires |bits| >= 16 && NoFrameBefore(bits, offset)
    ensures FirstFrame(bits, ScanFrom(bits, offset))
    decreases |bits| - offset
  {
    hide CandidateAt, FrameAt;
    if offset > |bits| - 16 {
      forall j, d | 0 <= j < |bits| + 1
        ensures !FrameAt(bits, j, d)
      {
        if FrameAt(bits, j, d) {
          FrameNeedsRoom(bits, j, d);
        }
      }
    } else {
      forall d
        ensures CandidateAt(bits, offset) == Some(d) <==> FrameAt(bits, offset, d)
      {
        CandidateIsFrame(bits, offset, d);
      }
      if CandidateAt(bits, offset).None? {
        ScanFromIsFirst(bits, offset + 1);
      }
    }
  }

  lemma ScanIsFirst(bits: seq<bool>)
    ensures FirstFrame(bits, Scan(bits))
  {
    hide ScanFrom, FrameAt;
    if |bits| < HEADER_LEN_PLAIN * 8 {
      forall j, d | 0 <= j < |bits| + 1
        ensures !FrameAt(bits, j, d)
      {
        if FrameAt(bits, j, d) {
          FrameNeedsRoom(bits, j, d);
        }
      }
    } else {
      ScanFromIsFirst(bits, 0);
    }
  }

  /** The scan loop: the first offset at which the magic stands and a whole frame validates wins. */
  method ScanLight(bits: seq<bool>) returns (r: Option<LightContents>)
    ensures r == Scan(bits)
    ensures FirstFrame(bits, r)
  {
    hide ReadLight, FirstFrame;
    ScanIsFirst(bits);
    if |bits| < HEADER_LEN_PLAIN * 8 {
      return None;
    }
    var magic := BytesToBits(MAGIC);
    var last := |bits| - |magic|;
    var offset := 0;
    while offset <= last
      invariant 0 <= offset <= last + 1
      invariant ScanFrom(bits, 0) == ScanFrom(bits, offset)
    {
      if ReadLight(bits[offset..]).Ok? {
        MagicNecessary(bits[offset..]);
        assert bits[offset..][..16] == bits[offset..offset + 16];
      }
      if bits[offset..offset + |magic|] == magic {
        var contents := ReadLight(bits[offset..]);
        if contents.Ok? {
          return Some(contents.value);
        }
      }
      offset := offset + 1;
    }
    r := None;
  }

  /** Wherever a built frame lies whole in a stream, the scan finds a frame there or earlier. */
  lemma ScanFindsFrame(bits: seq<bool>, at: nat, flags: Flags, salt: Option<Salt>, payload: seq<byte>)
    requires BuildLight(flags, salt, payload).Ok?
    requires var frame := BuildLight(flags, salt, payload).value;
             at + |frame| <= |bits| && bits[at..at + |frame|] == frame
    ensures CandidateAt(bits, at) == Some(LightContents(flags, salt, payload))
    ensures Scan(bits).Some?
    ensures (forall j :: 0 <= j < at ==> CandidateAt(bits, j).None?) ==>
              Scan(bits) == Some(LightContents(flags, salt, payload))
  {
    hide BuildLight, ReadLight;
    var frame := BuildLight(flags, salt, payload).value;
    assert bits[at..] == frame + bits[at + |frame|..];
    LightRoundTrip(flags, salt, payload, bits[at + |frame|..]);
    ScanSkips(bits, 0, at);
  }
  // ─── On the wire ───

  /**
   The bytes of a light frame, place by place: magic, version, flags, the payload's bits in sixteen, the salt if it is
   sealed, the checksum of all before it, the payload.
   */
  lemma LightLayout(flags: Flags, salt: Option<Salt>, payload: seq<byte>)
    requires |payload| * 8 < 0x1_0000
    ensures var s := FrameBytes(flags, salt, payload);
            var at := if salt.Some? then 22 else 6;
            |s| == at + 2 + |payload| && s[0] == 0x53 && s[1] == 0x48 && s[2] == (if salt.Some? then 4 else 3) &&
            s[3] == FlagBits(flags) && s[4] as int == |payload| * 8 / 256 && s[5] as int == |payload| * 8 % 256 &&
            (salt.Some? ==> s[6..22] == salt.value) &&
            Bv16Of(s[at..at + 2]) == Crc16(s[..at]) && s[at + 2..] == payload
  {
    hide Crc16, Be16Of, Bv16Of;
    var header := CheckedHeader(flags, salt, |payload| * 8);
    HeaderFieldInverts(Crc16(header));
    LaidOut(header, Be16Of(Crc16(header)), payload);
    if salt.Some? {
      assert header[6..22] == salt.value;
    }
  }

  lemma LaidOut(a: seq<byte>, b: seq<byte>, c: seq<byte>)
    ensures var s := a + b + c;
            s[..|a|] == a && s[|a|..|a| + |b|] == b && s[|a| + |b|..] == c && (forall i :: 0 <= i < |a| ==>
                                                                               s[i] == a[i]) &&
            forall i, j :: 0 <= i <= j <= |a| ==> s[i..j] == a[i..j]
  {
  }
}
