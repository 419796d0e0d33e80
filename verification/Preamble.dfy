/** The 24-byte preamble of the heavy frame, and the flags byte both frames carry. */
module Preambles {
  import opened Results
  import opened Bytes
  import opened Checksums

  const SALT_LEN := 16
  const PREAMBLE_LEN := 24
  const PREAMBLE_BITS := 192
  const MAGIC: seq<byte> := [0x53, 0x48]
  const VERSION_V2: byte := 0x02

  /** The two bytes every frame opens with. */
  predicate OpensWithMagic(bytes: seq<byte>) {
    |bytes| >= 2 && bytes[0] == 0x53 && bytes[1] == 0x48
  }

  type Salt = s: seq<byte> | |s| == SALT_LEN witness seq(SALT_LEN, _ => 0)

  datatype Mission = Conceal | Sign | Mark

  datatype Flags = Flags(stealth: bool, detachedSignature: bool, mission: Mission) {
    function ToByte(): byte {
      (if stealth then 1 else 0) + (if detachedSignature then 2 else 0) +
      (match mission case Conceal => 0 case Sign => 4 case Mark => 8)
    }

    /** Reserved bits and the reserved mission value are refused, never ignored. */
    static function FromByte(b: byte): (r: Result<Flags>)
      ensures r.Ok? <==> b < 12
      ensures r.Ok? ==> r.value.ToByte() == b
    {
      if b >= 16 then Err(DecodingFailed("preamble"))
      else if b / 4 == 3 then Err(DecodingFailed("preamble"))
      else Ok(Flags(b % 2 == 1, b / 2 % 2 == 1, if b / 4 == 0 then Conceal else if b / 4 == 1 then Sign else Mark))
    }
  }

  const CONCEAL_FLAGS := Flags(false, false, Conceal)

  /** Reading a written flags byte gives back the flags. */
  lemma FlagsRoundTrip(f: Flags)
    ensures Flags.FromByte(f.ToByte()) == Ok(f)
  {
  }

  type u16 = n: nat | n < 0x1_0000

  datatype Preamble = Preamble(version: byte, flags: Flags, salt: Salt, payloadBits: u16) {
    function Unchecked(): (s: seq<byte>)
      ensures |s| == 22
    {
      MAGIC + [version, flags.ToByte()] + salt + Be16(payloadBits)
    }

    function ToBytes(): (s: seq<byte>)
      ensures |s| == PREAMBLE_LEN
    {
      Unchecked() + Be16Of(Crc16(Unchecked()))
    }
  }

  function Parse(bytes: seq<byte>): Result<Preamble> {
    if |bytes| < PREAMBLE_LEN then Err(DecodingFailed("preamble"))
    else if !OpensWithMagic(bytes) then Err(DecodingFailed("preamble"))
    else if Bv16Of(bytes[22..24]) != Crc16(bytes[..22]) then Err(DecodingFailed("preamble"))
    else if bytes[2] != VERSION_V2 then Err(DecodingFailed("preamble"))
    else
      var flags :- Flags.FromByte(bytes[3]);
      Ok(Preamble(bytes[2], flags, bytes[4..20], FromBe16(bytes[20..22])))
  }

  /** A written preamble parses back to itself, whatever follows it. */
  lemma PreambleRoundTrip(p: Preamble, rest: seq<byte>)
    requires p.version == VERSION_V2
    ensures Parse(p.ToBytes() + rest) == Ok(p)
  {
    var bytes := p.ToBytes() + rest;
    var body := p.Unchecked();
    assert bytes[..22] == body;
    assert bytes[22..24] == Be16Of(Crc16(body));
    HeaderFieldInverts(Crc16(body));
    assert OpensWithMagic(bytes) && bytes[2] == p.version && bytes[3] == p.flags.ToByte();
    FlagsRoundTrip(p.flags);
    assert bytes[4..20] == body[4..20] == p.salt;
    assert bytes[20..22] == body[20..22] == Be16(p.payloadBits);
  }
  /**
   Nothing parses but what was written: whatever parses opens with the preamble's own bytes, its checksum among
   them.
   */
  lemma ParsesOnlyWritten(bytes: seq<byte>)
    requires Parse(bytes).Ok?
    ensures Parse(bytes).value.version == 0x02 && |bytes| >= 24 && bytes[..24] == Parse(bytes).value.ToBytes()
  {
    hide Crc16, Be16Of, Bv16Of, FromBe16, Be16;
    var p := Parse(bytes).value;
    FromBe16Inverts(bytes[20..22]);
    HeaderFieldStores(bytes[22..24]);
    UncheckedIs(bytes, p);
    assert bytes[..24] == bytes[..22] + bytes[22..24];
  }

  lemma UncheckedIs(bytes: seq<byte>, p: Preamble)
    requires |bytes| >= 22 && OpensWithMagic(bytes) && bytes[2] == p.version && bytes[3] == p.flags.ToByte()
    requires bytes[4..20] == p.salt && bytes[20..22] == Be16(p.payloadBits)
    ensures p.Unchecked() == bytes[..22]
  {
    hide Be16;
    var body := p.Unchecked();
    assert body[20..22] == Be16(p.payloadBits);
    forall i | 0 <= i < 22
      ensures body[i] == bytes[i]
    {
      if i >= 20 {
        assert body[i] == body[20..22][i - 20] && bytes[i] == bytes[20..22][i - 20];
      } else if i >= 4 {
        assert body[i] == p.salt[i - 4] && bytes[i] == bytes[4..20][i - 4];
      }
    }
  }
  // ─── On the wire ───

  /** Stealth in bit 0, a detached signature in bit 1, the mission in bits 2 and 3. */
  function FlagBits(f: Flags): int {
    (if f.stealth then 1 else 0) + (if f.detachedSignature then 2 else 0) +
    4 * (match f.mission case Conceal => 0 case Sign => 1 case Mark => 2)
  }

  /**
   The 24 bytes place by place: magic, version, flags, salt, the payload's bits, and the checksum of all before
   it.
   */
  lemma PreambleLayout(p: Preamble)
    ensures var s := p.ToBytes();
            s[0] == 0x53 && s[1] == 0x48 && s[2] == p.version && s[3] as int == FlagBits(p.flags) &&
            s[4..20] == p.salt && s[20] as int == p.payloadBits / 256 && s[21] as int == p.payloadBits % 256 &&
            Bv16Of(s[22..24]) == Crc16(s[..22])
  {
    hide Crc16, Be16Of, Bv16Of;
    var body := p.Unchecked();
    HeaderFieldInverts(Crc16(body));
    var s := p.ToBytes();
    assert s[..22] == body && s[22..24] == Be16Of(Crc16(body));
    assert s[4..20] == body[4..20] == p.salt && s[20] == body[20] && s[21] == body[21];
  }
}
