/** One carrier's layer: framed, placed, read back; and the reader that tells the frames apart. */
module Layers {
  import opened Results
  import opened Bytes
  import opened Preambles
  import opened LightFrames
  import Heavy = HeavyFrames
  import opened Spans
  import opened Carriers
  import opened Composition
  import opened Sealing

  datatype FrameMode = Light | Heavy

  const NO_SALT: Salt := [0, 0, 0, 0, 0, 0, 0, 0, 0, 0, 0, 0, 0, 0, 0, 0]

  /** Payload bytes a text's positions hold under the chosen frame. */
  function FramedRoom(positions: nat, hasSalt: bool, mode: FrameMode): nat {
    match mode
    case Light => LightFrames.PayloadCapacityBytes(positions, hasSalt)
    case Heavy =>
      var held := Heavy.PayloadCapacityBytes(positions);
      if held.Ok? then held.value else 0
  }

  function SaltOf(sealed: Sealed): Option<Salt> {
    if sealed.authenticated then Some(sealed.salt) else None
  }

  /** A carrier that rewrites visible text frames the whole cover, an inserting one only what it places. */
  function SpanFor(g: Geometry, c: Carrier, cover: string, payloadBits: nat): Result<nat> {
    if RewritesVisibleText(c) then Ok(Positions(g, c, cover)) else MinimumSpan(payloadBits)
  }

  /** The bits the frame hands the carrier. */
  function LayerBits(g: Geometry, c: Carrier, cover: string, sealed: Sealed, mode: FrameMode): Result<seq<bool>> {
    var envelope := sealed.Envelope();
    match mode
    case Light => BuildLight(CONCEAL_FLAGS, SaltOf(sealed), envelope)
    case Heavy =>
      var span :- SpanFor(g, c, cover, |envelope| * 8);
      Heavy.Build(span, CONCEAL_FLAGS, sealed.salt, envelope)
  }

  function Lift(light: LightContents): Heavy.FrameContents {
    var version := if light.salt.Some? then VERSION_LIGHT_SEALED else VERSION_LIGHT_PLAIN;
    var salt := if light.salt.Some? then light.salt.value else NO_SALT;
    Heavy.FrameContents(Preamble(version, light.flags, salt, |light.payload| * 8 % 0x1_0000), light.payload)
  }

  /** The frame in a bit stream: light at its start, else heavy, else a light frame anywhere. */
  function ReadFrame(bits: seq<bool>): Result<Heavy.FrameContents> {
    var version := PeekVersion(bits);
    if version == Some(VERSION_LIGHT_PLAIN) || version == Some(VERSION_LIGHT_SEALED) then
      var light :- ReadLight(bits);
      Ok(Lift(light))
    else if Heavy.Read(bits).Ok? then Heavy.Read(bits)
    else if Scan(bits).Some? then Ok(Lift(Scan(bits).value))
    else Heavy.Read(bits)
  }

  function ReadLayer(c: Carrier, text: string): Result<Heavy.FrameContents> {
    ReadFrame(ReadPositions(c, text))
  }

  predicate IsFramed(bits: seq<bool>) {
    Heavy.LocatePreamble(bits).Ok? ||
    (var version := PeekVersion(bits);
     (version == Some(VERSION_LIGHT_PLAIN) || version == Some(VERSION_LIGHT_SEALED)) && ReadLight(bits).Ok?) ||
    Scan(bits).Some?
  }

  /** The layer is read back before it is returned: a carrier that misreads its own work is refused. */
  function PlaceLayer(g: Geometry, c: Carrier, cover: string, sealed: Sealed, mode: FrameMode): (r: Result<string>)
    ensures r.Ok? ==> ReadLayer(c, r.value).Ok? && ReadLayer(c, r.value).value.payload == sealed.Envelope()
  {
    var bits :- LayerBits(g, c, cover, sealed, mode);
    var stego :- Encode(g, c, cover, BitsToBytes(bits));
    var contents := ReadLayer(c, stego);
    if contents.Ok? && contents.value.payload == sealed.Envelope() then Ok(stego) else Err(EncodingFailed(c.id))
  }

  // ─── A layer reads back ───

  /** Does this bit stream hold exactly this sealed secret, as a frame `decode` recognises? */
  ghost predicate Holds(bits: seq<bool>, sealed: Sealed) {
    IsFramed(bits) && ReadFrame(bits).Ok? && ReadFrame(bits).value.payload == sealed.Envelope() &&
    (sealed.authenticated ==> ReadFrame(bits).value.preamble.salt == sealed.salt)
  }

  /** A secret some stream holds is one a frame can declare. */
  lemma HeldIsShort(bits: seq<bool>, sealed: Sealed)
    requires Holds(bits, sealed)
    ensures |sealed.Envelope()| * 8 < 0x1_0000
  {
    hide Heavy.Read, ReadLight, PeekVersion, IsFramed, Sealed.Envelope, CandidateAt;
    if Heavy.Read(bits).Ok? {
      Heavy.ReadPayloadShort(bits);
    }
    if ReadLight(bits).Ok? {
      LightPayloadShort(bits);
    }
    if Scan(bits).Some? {
      var at := ScanReads(bits, 0);
      CandidateShort(bits, at);
    }
  }

  lemma CandidateShort(bits: seq<bool>, at: nat)
    requires at <= |bits| && CandidateAt(bits, at).Some?
    ensures |CandidateAt(bits, at).value.payload| * 8 < 0x1_0000
  {
    hide ReadLight;
    LightPayloadShort(bits[at..]);
  }

  lemma LightBitsHold(sealed: Sealed, rest: seq<bool>, bits: seq<bool>)
    requires BuildLight(CONCEAL_FLAGS, SaltOf(sealed), sealed.Envelope()).Ok?
    requires bits == BuildLight(CONCEAL_FLAGS, SaltOf(sealed), sealed.Envelope()).value + rest
    ensures Holds(bits, sealed)
  {
    LightRoundTrip(CONCEAL_FLAGS, SaltOf(sealed), sealed.Envelope(), rest);
  }

  /** A heavy stream opens with the preamble, so it never looks like a light frame. */
  lemma HeavyOpening(bits: seq<bool>, p: Preamble)
    requires PREAMBLE_BITS <= |bits| && bits[..PREAMBLE_BITS] == BytesToBits(p.ToBytes())
    ensures PeekVersion(bits) == Some(p.version)
  {
    assert bits == BytesToBits(p.ToBytes()) + bits[PREAMBLE_BITS..];
    BitsToBytesInverts(p.ToBytes(), bits[PREAMBLE_BITS..]);
    var bytes := p.ToBytes() + BitsToBytes(bits[PREAMBLE_BITS..]);
    assert forall i :: 0 <= i < 3 ==> bytes[i] == p.Unchecked()[i];
  }

  lemma HeavyBitsHold(span: nat, sealed: Sealed, bits: seq<bool>)
    requires span % 8 == 0 && Heavy.Build(span, CONCEAL_FLAGS, sealed.salt, sealed.Envelope()) == Ok(bits)
    ensures Holds(bits, sealed)
  {
    Heavy.HeavyRoundTrip(span, CONCEAL_FLAGS, sealed.salt, sealed.Envelope());
    HeavyOpening(bits, Preamble(VERSION_V2, CONCEAL_FLAGS, sealed.salt, |sealed.Envelope()| * 8));
  }

  lemma LightLayerHolds(sealed: Sealed, bits: seq<bool>)
    requires BuildLight(CONCEAL_FLAGS, SaltOf(sealed), sealed.Envelope()) == Ok(bits)
    ensures |bits| % 8 == 0 && |bits| > 0 && Holds(bits, sealed)
  {
    assert bits == bits + [];
    LightBitsHold(sealed, [], bits);
    WholeFrame(|sealed.Envelope()|, SaltOf(sealed).Some?);
  }

  lemma WholeFrame(n: nat, hasSalt: bool)
    ensures FrameBits(n, hasSalt) % 8 == 0 && FrameBits(n, hasSalt) >= 64
  {
  }

  lemma HeavyLayerHolds(n: nat, sealed: Sealed, bits: seq<bool>)
    requires MinimumSpan(n).Ok?
    requires Heavy.Build(MinimumSpan(n).value, CONCEAL_FLAGS, sealed.salt, sealed.Envelope()) == Ok(bits)
    ensures |bits| % 8 == 0 && |bits| > 0 && Holds(bits, sealed)
  {
    hide Heavy.Build, MinimumSpan, Heavy.LayoutOf, IsFramed, ReadFrame;
    MinimumSpanIsSmallest(n);
    HeavyBitsHold(MinimumSpan(n).value, sealed, bits);
  }

  /** Whatever the frame, the bits handed to an inserting carrier are whole bytes that hold the secret. */
  lemma LayerBitsHold(g: Geometry, c: Carrier, cover: string, sealed: Sealed, mode: FrameMode)
    requires !RewritesVisibleText(c) && LayerBits(g, c, cover, sealed, mode).Ok?
    ensures var bits := LayerBits(g, c, cover, sealed, mode).value;
            |bits| % 8 == 0 && |bits| > 0 && Holds(bits, sealed)
  {
    var bits := LayerBits(g, c, cover, sealed, mode).value;
    match mode
    case Light => LightLayerHolds(sealed, bits);
    case Heavy => HeavyLayerHolds(|sealed.Envelope()| * 8, sealed, bits);
  }

  /** What a placed layer is: the cover with the frame's bits written in, nothing else. */
  lemma PlacedLayer(g: Geometry, c: Carrier, cover: string, sealed: Sealed, mode: FrameMode)
    requires c.WellFormed() && !RewritesVisibleText(c) && PlaceLayer(g, c, cover, sealed, mode).Ok?
    ensures CheckWritable(c, cover).Ok? && LayerBits(g, c, cover, sealed, mode).Ok?
    ensures var bits := LayerBits(g, c, cover, sealed, mode).value;
            PlaceLayer(g, c, cover, sealed, mode).value == Place(g, cover, SequenceFrom(c, bits, 0)) &&
            Holds(bits, sealed) && (c.overflows || |bits| <= Positions(g, c, cover))
  {
    hide LayerBits, ReadFrame, IsFramed, Place, RewritesVisibleText;
    LayerBitsHold(g, c, cover, sealed, mode);
    BytesToBitsInverts(LayerBits(g, c, cover, sealed, mode).value);
  }

  /** The read back always agrees for an inserting carrier, so placing succeeds when writing does. */
  lemma PlacingSucceeds(g: Geometry, c: Carrier, cover: string, sealed: Sealed, mode: FrameMode)
    requires c.WellFormed() && !RewritesVisibleText(c)
    ensures PlaceLayer(g, c, cover, sealed, mode).Ok? <==>
            LayerBits(g, c, cover, sealed, mode).Ok? && CheckWritable(c, cover).Ok? &&
            (c.overflows || |LayerBits(g, c, cover, sealed, mode).value| <= Positions(g, c, cover))
  {
    hide LayerBits, ReadFrame, IsFramed, Place, RewritesVisibleText;
    if LayerBits(g, c, cover, sealed, mode).Ok? {
      var bits := LayerBits(g, c, cover, sealed, mode).value;
      LayerBitsHold(g, c, cover, sealed, mode);
      BytesToBitsInverts(bits);
      if CheckWritable(c, cover).Ok? {
        ReadAfterWrite(g, c, cover, bits);
      }
    }
  }
  /**
   A heavy frame spans every whole byte of positions where the carrier rewrites visible text, and otherwise the smallest
   span that holds it; a light one is its header and payload for either.
   */
  lemma LayerSpans(g: Geometry, c: Carrier, cover: string, sealed: Sealed, mode: FrameMode)
    requires LayerBits(g, c, cover, sealed, mode).Ok?
    ensures var bits, positions := LayerBits(g, c, cover, sealed, mode).value, Positions(g, c, cover);
            |bits| == match mode
                      case Light => 8 * ((if sealed.authenticated then 24 else 8) + |sealed.Envelope()|)
                      case Heavy => if RewritesVisibleText(c) then positions - positions % 8
                                    else MinimumSpan(|sealed.Envelope()| * 8).value
  {
    hide BytesToBits, Heavy.LayoutOf, Sealed.Envelope, Positions, RewritesVisibleText, MinimumSpan;
    if mode == Heavy && !RewritesVisibleText(c) {
      MinimumSpanIsSmallest(|sealed.Envelope()| * 8);
    }
  }
  // ─── Which frame is read ───

  lemma FrameInFront(bits: seq<bool>, c: LightContents)
    ensures ReadLight(bits) == Ok(c) <==> FrameAt(bits, 0, c)
    ensures FrameAt(bits, 0, c) ==> PeekVersion(bits) == Some(if c.salt.Some? then 4 else 3)
  {
    hide ReadLight, BitsToBytes, FrameBytes;
    assert bits[0..] == bits;
    CandidateIsFrame(bits, 0, c);
    if FrameAt(bits, 0, c) {
      LightLayout(c.flags, c.salt, c.payload);
      var frame := FrameBytes(c.flags, c.salt, c.payload);
      assert forall i :: 0 <= i < |frame| ==> BitsToBytes(bits)[..|frame|][i] == BitsToBytes(bits)[i];
    }
  }

  /** Any whole light frame in the stream is found by the scan, it or an earlier one. */
  lemma ScanIf(bits: seq<bool>)
    ensures Scan(bits).Some? <==> exists at: nat, c :: FrameAt(bits, at, c)
  {
    hide Scan, FrameAt;
    ScanIsFirst(bits);
    if at: nat, c :| FrameAt(bits, at, c) {
      FrameWithin(bits, at, c);
      assert Scan(bits).None? ==> !FrameAt(bits, at, c);
    }
  }

  lemma FrameWithin(bits: seq<bool>, at: nat, c: LightContents)
    requires FrameAt(bits, at, c)
    ensures at < |bits| + 1
  {
  }

  /**
   Which frame is read: one that opens like a light frame is that light frame or an error, never another; otherwise a
   heavy frame goes first, and then the first whole light frame anywhere in the stream.
   */
  lemma ReadsInOrder(bits: seq<bool>)
    ensures PeekVersion(bits) in {Some(3), Some(4)} ==>
            (ReadFrame(bits).Ok? <==> exists c :: FrameAt(bits, 0, c)) &&
            forall c :: FrameAt(bits, 0, c) ==> ReadFrame(bits) == Ok(Lift(c))
    ensures PeekVersion(bits) !in {Some(3), Some(4)} && Heavy.Read(bits).Ok? ==> ReadFrame(bits) == Heavy.Read(bits)
    ensures PeekVersion(bits) !in {Some(3), Some(4)} && Heavy.Read(bits).Err? ==>
            (ReadFrame(bits).Ok? <==> exists at: nat, c :: FrameAt(bits, at, c)) &&
            (ReadFrame(bits).Ok? ==>
             exists at: nat, c :: FrameAt(bits, at, c) && NoFrameBefore(bits, at) && ReadFrame(bits) == Ok(Lift(c)))
  {
    hide ReadLight, PeekVersion, Scan, FrameAt, Heavy.Read, Lift, NoFrameBefore;
    ScanIf(bits);
    ScanIsFirst(bits);
    forall c
      ensures ReadLight(bits) == Ok(c) <==> FrameAt(bits, 0, c)
    {
      FrameInFront(bits, c);
    }
    if ReadLight(bits).Ok? {
      assert FrameAt(bits, 0, ReadLight(bits).value);
    }
  }

  /** A stream is framed exactly when a heavy preamble is located or a whole light frame stands somewhere. */
  lemma FramedExactly(bits: seq<bool>)
    ensures IsFramed(bits) <==> Heavy.LocatePreamble(bits).Ok? || exists at: nat, c :: FrameAt(bits, at, c)
  {
    hide ReadLight, PeekVersion, Scan, FrameAt, Heavy.LocatePreamble;
    ScanIf(bits);
    if ReadLight(bits).Ok? {
      FrameInFront(bits, ReadLight(bits).value);
      assert FrameAt(bits, 0, ReadLight(bits).value);
    }
  }
}
