/** Capacity: the figure a pre-flight check shows, and what the encoder then accepts. */
module Capacities {
  import opened Results
  import opened Bytes
  import opened Preambles
  import LightFrames
  import Heavy = HeavyFrames
  import opened Spans
  import opened Envelopes
  import opened Carriers
  import opened Composition
  import opened Sealing
  import opened Checksums
  import Utf8
  import opened Layers
  import opened Encoding
  import opened RoundTrips

  datatype CarrierCapacity = CarrierCapacity(carrier: string, positions: nat, rawBytes: nat, framedBytes: nat,
                                             coverBoundsWrites: bool, overheadBytes: nat, secretBytes: nat)

  datatype Capacity = Capacity(carriers: seq<CarrierCapacity>, secretBytes: nat)

  /** The largest length up to `n` whose envelope the frame holds; zero when not even one byte fits. */
  function LargestUpTo(chain: seq<ChainStep>, cipherOverhead: nat, framed: nat, n: nat): (low: nat)
    ensures low <= n
  {
    if n == 0 || EnvelopeLen(chain, n + cipherOverhead) <= framed then n
    else LargestUpTo(chain, cipherOverhead, framed, n - 1)
  }

  lemma {:induction false} LargestBounds(chain: seq<ChainStep>, cipherOverhead: nat, framed: nat, n: nat, m: nat)
    requires 0 < m <= n
    ensures m <= LargestUpTo(chain, cipherOverhead, framed, n) <==> EnvelopeLen(chain, m + cipherOverhead) <= framed
    decreases n
  {
    hide EnvelopeLen;
    if m == n {
    } else if EnvelopeLen(chain, n + cipherOverhead) <= framed {
      EnvelopeLenGrows(chain, m + cipherOverhead, n + cipherOverhead);
    } else {
      LargestBounds(chain, cipherOverhead, framed, n - 1, m);
    }
  }

  /** A secret's envelope fits the frame exactly when the secret is no longer than the reported figure. */
  lemma LargestDecides(chain: seq<ChainStep>, cipherOverhead: nat, framed: nat, m: nat)
    requires m > 0
    ensures m <= LargestUpTo(chain, cipherOverhead, framed, framed)
            <==> EnvelopeLen(chain, m + cipherOverhead) <= framed
  {
    if m <= framed {
      LargestBounds(chain, cipherOverhead, framed, framed, m);
    } else {
      EnvelopeLenGrows(chain, framed, m + cipherOverhead);
    }
  }

  function CapacityOf(g: Geometry, c: Carrier, cover: string, shape: Shape, hasSalt: bool, mode: FrameMode)
    : (r: Result<CarrierCapacity>)
    ensures r.Ok? ==> r.value.secretBytes + r.value.overheadBytes == r.value.framedBytes
  {
    var _ :- CheckWritable(c, cover);
    var positions := Positions(g, c, cover);
    var framed := FramedRoom(positions, hasSalt, mode);
    var largest := LargestUpTo(shape.chain, shape.overhead, framed, framed);
    Ok(CarrierCapacity(c.id, positions, positions / 8, framed, CoverBoundsWrites(g, c, cover), framed - largest,
                       largest))
  }

  /**
   A carrier's figures: its positions, their whole bytes, whether the cover bounds what it writes,
     and the largest secret
   whose envelope the frame holds.
   */
  lemma FiguresMean(g: Geometry, c: Carrier, cover: string, shape: Shape, hasSalt: bool, mode: FrameMode, secret: nat)
    requires CapacityOf(g, c, cover, shape, hasSalt, mode).Ok? && secret > 0
    ensures var r := CapacityOf(g, c, cover, shape, hasSalt, mode).value;
            r.carrier == c.id && r.positions == Positions(g, c, cover) &&
            8 * r.rawBytes <= r.positions < 8 * r.rawBytes + 8 && (r.coverBoundsWrites <==> !c.overflows) &&
            r.framedBytes == FramedRoom(r.positions, hasSalt, mode) &&
            (secret <= r.secretBytes <==> EnvelopeLen(shape.chain, secret + shape.overhead) <= r.framedBytes)
  {
    hide FramedRoom, Positions, LargestUpTo, CheckWritable, EnvelopeLen, WritePositions;
    LargestDecides(shape.chain, shape.overhead, FramedRoom(Positions(g, c, cover), hasSalt, mode), secret);
  }

  /** The binary search, whose answer is the linear one. */
  method SearchLargest(chain: seq<ChainStep>, cipherOverhead: nat, framed: nat) returns (low: nat)
    ensures low == LargestUpTo(chain, cipherOverhead, framed, framed)
  {
    hide EnvelopeLen;
    low := 0;
    var high := framed;
    while low < high
      invariant 0 <= low <= high <= framed
      invariant low <= LargestUpTo(chain, cipherOverhead, framed, framed) <= high
    {
      var mid := low + (high - low + 1) / 2;
      LargestDecides(chain, cipherOverhead, framed, mid);
      if EnvelopeLen(chain, mid + cipherOverhead) <= framed {
        low := mid;
      } else {
        high := mid - 1;
      }
    }
  }

  method MeasureCarrier(g: Geometry, c: Carrier, cover: string, shape: Shape, hasSalt: bool, mode: FrameMode)
    returns (r: Result<CarrierCapacity>)
    ensures r == CapacityOf(g, c, cover, shape, hasSalt, mode)
  {
    hide FramedRoom, Positions, CheckWritable, LargestUpTo, CoverBoundsWrites;
    var writable := CheckWritable(c, cover);
    if writable.Err? {
      return Err(writable.error);
    }
    var bounded := CoverBoundsWrites(g, c, cover);
    var positions := Positions(g, c, cover);
    var framed := FramedRoom(positions, hasSalt, mode);
    var largest := SearchLargest(shape.chain, shape.overhead, framed);
    r := Ok(CarrierCapacity(c.id, positions, positions / 8, framed, bounded, framed - largest, largest));
  }

  /** The figures of the first `n` carriers. */
  function CapacitiesUpTo(g: Geometry, methods: seq<Carrier>, cover: string, shape: Shape, hasSalt: bool,
                          mode: FrameMode, n: nat): Result<seq<CarrierCapacity>>
    requires n <= |methods|
  {
    if n == 0 then Ok([])
    else
      var before :- CapacitiesUpTo(g, methods, cover, shape, hasSalt, mode, n - 1);
      var last :- CapacityOf(g, methods[n - 1], cover, shape, hasSalt, mode);
      Ok(before + [last])
  }

  /** The smallest secret figure of a list, zero for none. */
  function Smallest(carriers: seq<CarrierCapacity>): (n: nat)
    ensures forall i :: 0 <= i < |carriers| ==> n <= carriers[i].secretBytes
    ensures carriers != [] ==> exists i :: 0 <= i < |carriers| && n == carriers[i].secretBytes
  {
    if carriers == [] then 0
    else if |carriers| == 1 then carriers[0].secretBytes
    else Min(Smallest(carriers[..|carriers| - 1]), carriers[|carriers| - 1].secretBytes)
  }

  function CapacityFramed(g: Geometry, keyed: Keyed, cover: string, methods: seq<Carrier>, crypto: Option<Choice>,
                          mode: FrameMode, probeKey: Key, nonce: nat): Result<Capacity>
  {
    if methods == [] then Err(InvalidInput)
    else
      var _ :- ValidateStack(methods);
      var shape :- SealShape(keyed, crypto, probeKey, nonce);
      var carriers :- CapacitiesUpTo(g, methods, cover, shape, FrameCarriesSalt(crypto), mode, |methods|);
      Ok(Capacity(carriers, Smallest(carriers)))
  }

  lemma {:induction false} CapacitiesStop(g: Geometry, methods: seq<Carrier>, cover: string, shape: Shape,
                                          hasSalt: bool, mode: FrameMode, m: nat, n: nat)
    requires m <= n <= |methods|
    ensures CapacitiesUpTo(g, methods, cover, shape, hasSalt, mode, m).Err? ==>
            CapacitiesUpTo(g, methods, cover, shape, hasSalt, mode, n) ==
            CapacitiesUpTo(g, methods, cover, shape, hasSalt, mode, m)
    decreases n
  {
    hide CapacityOf;
    if m == n {
    } else {
      CapacitiesStop(g, methods, cover, shape, hasSalt, mode, m, n - 1);
    }
  }

  /** The report loop: every carrier measured on the cover itself. */
  method MeasureStack(g: Geometry, keyed: Keyed, cover: string, methods: seq<Carrier>, crypto: Option<Choice>,
                      mode: FrameMode, probeKey: Key, nonce: nat) returns (r: Result<Capacity>)
    ensures r == CapacityFramed(g, keyed, cover, methods, crypto, mode, probeKey, nonce)
  {
    hide CapacityOf, SealShape, ValidateStack, Smallest, FrameCarriesSalt;
    if methods == [] {
      return Err(InvalidInput);
    }
    var legal := ValidateStack(methods);
    if legal.Err? {
      return Err(legal.error);
    }
    var shape := SealShape(keyed, crypto, probeKey, nonce);
    if shape.Err? {
      return Err(shape.error);
    }
    var hasSalt := FrameCarriesSalt(crypto);
    var carriers: seq<CarrierCapacity> := [];
    for i := 0 to |methods|
      invariant CapacitiesUpTo(g, methods, cover, shape.value, hasSalt, mode, i) == Ok(carriers)
    {
      CapacitiesStop(g, methods, cover, shape.value, hasSalt, mode, i + 1, |methods|);
      var measured := MeasureCarrier(g, methods[i], cover, shape.value, hasSalt, mode);
      if measured.Err? {
        return Err(measured.error);
      }
      carriers := carriers + [measured.value];
    }
    r := Ok(Capacity(carriers, Smallest(carriers)));
  }

  lemma {:induction false} CapacitiesListed(g: Geometry, methods: seq<Carrier>, cover: string, shape: Shape,
                                            hasSalt: bool, mode: FrameMode, n: nat)
    requires n <= |methods| && CapacitiesUpTo(g, methods, cover, shape, hasSalt, mode, n).Ok?
    ensures var cs := CapacitiesUpTo(g, methods, cover, shape, hasSalt, mode, n).value;
            |cs| == n && forall i :: 0 <= i < n ==> CapacityOf(g, methods[i], cover, shape, hasSalt, mode) == Ok(cs[i])
  {
    hide CapacityOf;
    if n == 0 {
    } else {
      CapacitiesListed(g, methods, cover, shape, hasSalt, mode, n - 1);
    }
  }

  // ─── The report against the gate ───

  /** Does the cover's room for this carrier hold an envelope of `size` bytes, where the cover is what decides? */
  ghost predicate Roomy(g: Geometry, c: Carrier, cover: string, size: nat, hasSalt: bool, mode: FrameMode) {
    c.overflows || size <= FramedRoom(Positions(g, c, cover), hasSalt, mode)
  }

  /** One carrier: a secret passes the size gate exactly when it is no longer than the figure reported. */
  lemma CapacityIsTheGate(g: Geometry, keyed: Keyed, c: Carrier, cover: string, hidden: seq<byte>,
                          crypto: Option<Choice>, mode: FrameMode, probeKey: Key, probeNonce: nat,
                          salt: Salt, nonce: nat, extra: nat)
    requires hidden != [] && Adds(keyed, crypto, extra) && CheckWritable(c, cover).Ok?
    requires SealShape(keyed, crypto, probeKey, probeNonce).Ok? && Seal(keyed, hidden, crypto, salt, nonce).Ok?
    ensures var shape := SealShape(keyed, crypto, probeKey, probeNonce).value;
            var sealed := Seal(keyed, hidden, crypto, salt, nonce).value;
            var reported := CapacityOf(g, c, cover, shape, FrameCarriesSalt(crypto), mode);
            var size := |sealed.Envelope()|;
            reported.Ok? &&
            (Roomy(g, c, cover, size, sealed.authenticated, mode) <==>
             (reported.value.coverBoundsWrites ==> |hidden| <= reported.value.secretBytes)) &&
            (PassesSizeGate(g, c, cover, size, sealed.authenticated, mode) <==>
             Roomy(g, c, cover, size, sealed.authenticated, mode))
  {
    hide FramedRoom, Positions, CheckWritable, LargestUpTo, SealShape, Seal, Adds, FrameCarriesSalt, Sealed.Envelope,
         EnvelopeLen;
    ShapeIsMeasured(keyed, crypto, probeKey, probeNonce, hidden, salt, nonce, extra);
    var shape := SealShape(keyed, crypto, probeKey, probeNonce).value;
    var framed := FramedRoom(Positions(g, c, cover), FrameCarriesSalt(crypto), mode);
    LargestDecides(shape.chain, shape.overhead, framed, |hidden|);
  }

  // ─── What the frames take ───

  /** A frame's length field counts bits in sixteen bits. */
  const FRAME_PAYLOAD_LIMIT: nat := 8191

  lemma LayerBitsExist(g: Geometry, c: Carrier, cover: string, sealed: Sealed, mode: FrameMode)
    requires !RewritesVisibleText(c)
    ensures LayerBits(g, c, cover, sealed, mode).Ok? <==> |sealed.Envelope()| <= FRAME_PAYLOAD_LIMIT
  {
    hide LightFrames.BuildLight, Heavy.Build, MinimumSpan, Heavy.LayoutOf, RewritesVisibleText, ToBytes;
    EnvelopeNotEmpty(sealed);
    var n := |sealed.Envelope()| * 8;
    match mode
    case Light =>
    case Heavy =>
      MinimumSpanExists(n);
      if MinimumSpan(n).Ok? {
        MinimumSpanIsSmallest(n);
      }
  }

  lemma EnvelopeNotEmpty(sealed: Sealed)
    ensures sealed.Envelope() != []
  {
  }

  /** A frame whose payload the positions have room for is not longer than the positions. */
  lemma BitsFit(g: Geometry, c: Carrier, cover: string, sealed: Sealed, mode: FrameMode)
    requires !RewritesVisibleText(c) && LayerBits(g, c, cover, sealed, mode).Ok?
    requires |sealed.Envelope()| <= Room(g, c, cover, sealed.authenticated, mode)
    ensures |LayerBits(g, c, cover, sealed, mode).value| <= Positions(g, c, cover)
  {
    hide LightFrames.BuildLight, Heavy.Build, MinimumSpan, RewritesVisibleText, ToBytes, Positions;
    EnvelopeNotEmpty(sealed);
    var positions := Positions(g, c, cover);
    match mode
    case Light =>
    case Heavy =>
      var n := |sealed.Envelope()| * 8;
      MinimumSpanIsSmallest(n);
      SpanWithin(positions, n);
  }

  lemma SpanWithin(positions: nat, payloadBits: nat)
    requires Heavy.PayloadCapacityBytes(positions).Ok?
    requires payloadBits <= Heavy.PayloadCapacityBytes(positions).value * 8
    requires MinimumSpan(payloadBits).Ok?
    ensures MinimumSpan(payloadBits).value <= positions
  {
    hide MinimumSpan;
    MinimumSpanIsSmallest(payloadBits);
    var whole := positions - positions % 8;
    assert Heavy.LayoutOf(whole) == Heavy.LayoutOf(positions);
    assert Spannable(whole) && Free(whole) >= payloadBits;
  }

  // ─── The stack ───

  /** A carrier all of whose characters are format controls. */
  ghost predicate Invisible(c: Carrier) {
    forall ch :: c.InChannel(ch) ==> IsFormatControl(ch)
  }

  ghost predicate InvisibleStack(methods: seq<Carrier>) {
    Inserting(methods) && forall i :: 0 <= i < |methods| ==> Invisible(methods[i])
  }

  /** What a carrier is offered by the running text is what the cover offered it. */
  lemma {:induction false} RunningText(g: Geometry, methods: seq<Carrier>, cover: string, sealed: Sealed,
                                       mission: Option<Mission>, mode: FrameMode, n: nat, i: nat)
    requires InvisibleStack(methods) && n <= i < |methods| && CheckWritable(methods[i], cover).Ok?
    requires StackUpTo(g, methods, cover, sealed, mission, mode, n).Ok?
    ensures var text := StackUpTo(g, methods, cover, sealed, mission, mode, n).value.text;
            Positions(g, methods[i], text) == Positions(g, methods[i], cover) && CheckWritable(methods[i], text).Ok?
    decreases n
  {
    hide AddLayer, Holds, RewritesVisibleText, Positions, Place, SequenceFrom, CheckWritable, Separate, Invisible;
    if n == 0 {
    } else {
      var below := StackUpTo(g, methods, cover, sealed, mission, mode, n - 1).value;
      RunningText(g, methods, cover, sealed, mission, mode, n - 1, i);
      var bits := LayerWritten(g, methods[n - 1], below, sealed, mission, mode);
      UnmovedBy(g, methods[i], methods[n - 1], below.text, bits);
    }
  }

  lemma UnmovedBy(g: Geometry, c: Carrier, other: Carrier, text: string, bits: seq<bool>)
    requires Separate(other, c) && Invisible(other) && CheckWritable(c, text).Ok?
    ensures var placed := Place(g, text, SequenceFrom(other, bits, 0));
            Positions(g, c, placed) == Positions(g, c, text) && CheckWritable(c, placed).Ok?
  {
    hide Positions, Place, SequenceFrom, CheckWritable;
    BitsInChannel(other);
    assert other.delimiter.Some? ==> other.InChannel(other.delimiter.value);
    PositionsUnmoved(g, c, other, text, bits);
    PlacedFreeOf(g, c, other, text, bits);
  }

  /** One layer goes on exactly when the mission's ceiling, the room and the frame all allow it. */
  lemma LayerAccepted(g: Geometry, c: Carrier, below: Stack, sealed: Sealed, mission: Option<Mission>, mode: FrameMode)
    requires c.WellFormed() && !RewritesVisibleText(c) && CheckWritable(c, below.text).Ok?
    ensures AddLayer(g, c, below, sealed, mission, mode).Ok? <==>
            PassesDensityGate(g, c, below.text, |sealed.Envelope()|, mission) &&
            Roomy(g, c, below.text, |sealed.Envelope()|, sealed.authenticated, mode) &&
            |sealed.Envelope()| <= FRAME_PAYLOAD_LIMIT
  {
    hide PlaceLayer, LayerBits, FramedRoom, Positions, RewritesVisibleText, CheckWritable, Sealed.Envelope,
         PassesDensityGate;
    PlacingSucceeds(g, c, below.text, sealed, mode);
    LayerBitsExist(g, c, below.text, sealed, mode);
    var room := Room(g, c, below.text, sealed.authenticated, mode);
    if LayerBits(g, c, below.text, sealed, mode).Ok? && |sealed.Envelope()| <= room {
      BitsFit(g, c, below.text, sealed, mode);
    }
  }

  ghost predicate AllWritable(methods: seq<Carrier>, cover: string) {
    forall i :: 0 <= i < |methods| ==> CheckWritable(methods[i], cover).Ok?
  }

  /** What the cover offers a carrier allows an envelope of `size` bytes: the mission's ceiling and the room. */
  ghost predicate Admits(g: Geometry, c: Carrier, cover: string, size: nat, hasSalt: bool, mission: Option<Mission>,
                         mode: FrameMode) {
    PassesDensityGate(g, c, cover, size, mission) && Roomy(g, c, cover, size, hasSalt, mode)
  }

  /** The stack goes on exactly when every carrier's ceiling and room on the cover, and the frame, allow it. */
  lemma {:induction false} StackAccepted(g: Geometry, methods: seq<Carrier>, cover: string, sealed: Sealed,
                                         mission: Option<Mission>, mode: FrameMode, n: nat)
    requires InvisibleStack(methods) && AllWritable(methods, cover) && 0 < n <= |methods|
    ensures StackUpTo(g, methods, cover, sealed, mission, mode, n).Ok? <==>
            |sealed.Envelope()| <= FRAME_PAYLOAD_LIMIT && forall i :: 0 <= i < n ==>
              Admits(g, methods[i], cover, |sealed.Envelope()|, sealed.authenticated, mission, mode)
    decreases n
  {
    hide AddLayer, RewritesVisibleText, Positions, CheckWritable, Separate, Invisible, Sealed.Envelope, FramedRoom;
    if n == 1 {
    } else {
      StackAccepted(g, methods, cover, sealed, mission, mode, n - 1);
    }
    if StackUpTo(g, methods, cover, sealed, mission, mode, n - 1).Ok? {
      var below := StackUpTo(g, methods, cover, sealed, mission, mode, n - 1).value;
      RunningText(g, methods, cover, sealed, mission, mode, n - 1, n - 1);
      LayerAccepted(g, methods[n - 1], below, sealed, mission, mode);
    }
  }

  /** The least room any of the first `n` carriers has on the cover. */
  function Narrowest(g: Geometry, methods: seq<Carrier>, cover: string, hasSalt: bool, mode: FrameMode, n: nat)
    : (room: nat)
    requires n <= |methods|
    ensures room <= USIZE_MAX
    ensures forall i :: 0 <= i < n ==> room <= Room(g, methods[i], cover, hasSalt, mode)
    ensures room == USIZE_MAX || exists i :: 0 <= i < n && room == Room(g, methods[i], cover, hasSalt, mode)
  {
    if n == 0 then USIZE_MAX
    else Min(Narrowest(g, methods, cover, hasSalt, mode, n - 1), Room(g, methods[n - 1], cover, hasSalt, mode))
  }

  /** The room encoding reports is the narrowest carrier's, as the cover has it. */
  lemma {:induction false} ReportedRoom(g: Geometry, methods: seq<Carrier>, cover: string, sealed: Sealed,
                                        mission: Option<Mission>, mode: FrameMode, n: nat)
    requires InvisibleStack(methods) && AllWritable(methods, cover) && n <= |methods|
    requires StackUpTo(g, methods, cover, sealed, mission, mode, n).Ok?
    ensures StackUpTo(g, methods, cover, sealed, mission, mode, n).value.room ==
            Narrowest(g, methods, cover, sealed.authenticated, mode, n)
    decreases n
  {
    hide AddLayer, RewritesVisibleText, Positions, CheckWritable, Separate, Invisible, Sealed.Envelope, FramedRoom;
    if n == 0 {
    } else {
      ReportedRoom(g, methods, cover, sealed, mission, mode, n - 1);
      RunningText(g, methods, cover, sealed, mission, mode, n - 1, n - 1);
      LayerRoom(g, methods[n - 1], StackUpTo(g, methods, cover, sealed, mission, mode, n - 1).value, sealed, mission,
                mode);
    }
  }

  lemma LayerRoom(g: Geometry, c: Carrier, below: Stack, sealed: Sealed, mission: Option<Mission>, mode: FrameMode)
    requires CheckWritable(c, below.text).Ok? && AddLayer(g, c, below, sealed, mission, mode).Ok?
    ensures AddLayer(g, c, below, sealed, mission, mode).value.room ==
            Min(below.room, Room(g, c, below.text, sealed.authenticated, mode))
  {
    hide PlaceLayer, Positions, CheckWritable, Sealed.Envelope, FramedRoom, PassesDensityGate, PassesSizeGate;
  }

  /**
   What an encode reports: the carriers in order, the envelope's bits, and eight times the narrowest carrier's
   room.
   */
  lemma EncodeReports(g: Geometry, keyed: Keyed, cover: string, hidden: seq<byte>, methods: seq<Carrier>,
                      crypto: Option<Choice>, mission: Option<Mission>, mode: FrameMode, salt: Salt, nonce: nat)
    requires Encoding.Encode(g, keyed, cover, hidden, methods, crypto, mission, mode, salt, nonce).Ok?
    ensures var r := Encoding.Encode(g, keyed, cover, hidden, methods, crypto, mission, mode, salt, nonce).value;
            var sealed := Seal(keyed, hidden, crypto, salt, nonce).value;
            |r.methodsUsed| == |methods| > 0 && hidden != [] &&
            (forall i :: 0 <= i < |methods| ==> r.methodsUsed[i] == methods[i].id) &&
            r.usedBits == 8 * |sealed.Envelope()| &&
            (InvisibleStack(methods) && AllWritable(methods, cover) ==>
             r.availableBits == Min(8 * Narrowest(g, methods, cover, sealed.authenticated, mode, |methods|), USIZE_MAX))
  {
    hide StackUpTo, ValidateStack, Seal, Sealed.Envelope, InvisibleStack, AllWritable, Narrowest;
    var sealed := Seal(keyed, hidden, crypto, salt, nonce).value;
    if InvisibleStack(methods) && AllWritable(methods, cover) {
      ReportedRoom(g, methods, cover, sealed, mission, mode, |methods|);
    }
  }

  /** What a reported figure allows: a secret within it where the cover binds, an envelope within the ceiling. */
  ghost predicate Allows(figure: CarrierCapacity, secret: nat, size: nat, mission: Option<Mission>) {
    (figure.coverBoundsWrites ==> secret <= figure.secretBytes) &&
    (mission == Some(Conceal) ==> size <= DensityBudget(figure.positions, Conceal))
  }

  /** The size of the envelope a secret would get, from what is measured before any secret is sealed. */
  ghost function SizeAhead(shape: Shape, secret: nat): nat {
    EnvelopeLen(shape.chain, secret + shape.overhead)
  }

  /**
   What the report promises, under every mission. Encoding succeeds exactly when every figure allows the secret and
   the envelope is one a frame can declare; the second condition is the encoder's own and no figure in the report
   accounts for it.
   */
  lemma ReportIsExact(g: Geometry, keyed: Keyed, cover: string, hidden: seq<byte>, methods: seq<Carrier>,
                      crypto: Option<Choice>, mission: Option<Mission>, mode: FrameMode, probeKey: Key, probeNonce: nat,
                      salt: Salt, nonce: nat, extra: nat, report: Capacity)
    requires InvisibleStack(methods) && hidden != [] && Adds(keyed, crypto, extra)
    requires CapacityFramed(g, keyed, cover, methods, crypto, mode, probeKey, probeNonce) == Ok(report)
    requires Seal(keyed, hidden, crypto, salt, nonce).Ok?
    ensures |report.carriers| == |methods|
    ensures var size := SizeAhead(SealShape(keyed, crypto, probeKey, probeNonce).value, |hidden|);
            Encoding.Encode(g, keyed, cover, hidden, methods, crypto, mission, mode, salt, nonce).Ok? <==>
            size <= FRAME_PAYLOAD_LIMIT &&
            forall i :: 0 <= i < |methods| ==> Allows(report.carriers[i], |hidden|, size, mission)
  {
    hide StackUpTo, CapacityOf, ValidateStack, SealShape, Seal, Sealed.Envelope, Admits, RewritesVisibleText,
         CheckWritable, Separate, Invisible, FrameCarriesSalt, Adds, Allows, EnvelopeLen;
    var shape := SealShape(keyed, crypto, probeKey, probeNonce).value;
    var sealed := Seal(keyed, hidden, crypto, salt, nonce).value;
    ShapeIsMeasured(keyed, crypto, probeKey, probeNonce, hidden, salt, nonce, extra);
    CapacitiesListed(g, methods, cover, shape, FrameCarriesSalt(crypto), mode, |methods|);
    forall i | 0 <= i < |methods|
      ensures CheckWritable(methods[i], cover).Ok?
      ensures Admits(g, methods[i], cover, |sealed.Envelope()|, sealed.authenticated, mission, mode) <==>
              Allows(report.carriers[i], |hidden|, |sealed.Envelope()|, mission)
    {
      ReportedWritable(g, methods[i], cover, shape, FrameCarriesSalt(crypto), mode);
      FigureDecides(g, keyed, methods[i], cover, hidden, crypto, mission, mode, probeKey, probeNonce, salt, nonce,
                    extra);
    }
    StackAccepted(g, methods, cover, sealed, mission, mode, |methods|);
  }

  /** One carrier's figure against its two gates. */
  lemma FigureDecides(g: Geometry, keyed: Keyed, c: Carrier, cover: string, hidden: seq<byte>,
                      crypto: Option<Choice>, mission: Option<Mission>, mode: FrameMode, probeKey: Key, probeNonce: nat,
                      salt: Salt, nonce: nat, extra: nat)
    requires hidden != [] && Adds(keyed, crypto, extra) && CheckWritable(c, cover).Ok?
    requires SealShape(keyed, crypto, probeKey, probeNonce).Ok? && Seal(keyed, hidden, crypto, salt, nonce).Ok?
    ensures var shape := SealShape(keyed, crypto, probeKey, probeNonce).value;
            var sealed := Seal(keyed, hidden, crypto, salt, nonce).value;
            var reported := CapacityOf(g, c, cover, shape, FrameCarriesSalt(crypto), mode);
            reported.Ok? &&
            (Admits(g, c, cover, |sealed.Envelope()|, sealed.authenticated, mission, mode) <==>
             Allows(reported.value, |hidden|, |sealed.Envelope()|, mission))
  {
    hide FramedRoom, Positions, CheckWritable, LargestUpTo, SealShape, Seal, Adds, FrameCarriesSalt, Sealed.Envelope,
         Roomy, DensityBudget, CoverBoundsWrites;
    CapacityIsTheGate(g, keyed, c, cover, hidden, crypto, mode, probeKey, probeNonce, salt, nonce, extra);
  }

  lemma ReportedWritable(g: Geometry, c: Carrier, cover: string, shape: Shape, hasSalt: bool, mode: FrameMode)
    requires CapacityOf(g, c, cover, shape, hasSalt, mode).Ok?
    ensures CheckWritable(c, cover).Ok?
  {
  }

  /**
   The minimum measured on the cover passes every gate on the running text, if a frame can declare the envelope of a
   secret of that length; and it is the limit when every carrier is bounded.
   */
  lemma MinimumPasses(g: Geometry, keyed: Keyed, cover: string, hidden: seq<byte>, methods: seq<Carrier>,
                      crypto: Option<Choice>, mission: Option<Mission>, mode: FrameMode, probeKey: Key, probeNonce: nat,
                      salt: Salt, nonce: nat, extra: nat, report: Capacity)
    requires InvisibleStack(methods) && hidden != [] && Adds(keyed, crypto, extra) && mission != Some(Conceal)
    requires CapacityFramed(g, keyed, cover, methods, crypto, mode, probeKey, probeNonce) == Ok(report)
    requires Seal(keyed, hidden, crypto, salt, nonce).Ok?
    ensures var shape := SealShape(keyed, crypto, probeKey, probeNonce).value;
            |hidden| <= report.secretBytes && SizeAhead(shape, report.secretBytes) <= FRAME_PAYLOAD_LIMIT ==>
            Encoding.Encode(g, keyed, cover, hidden, methods, crypto, mission, mode, salt, nonce).Ok?
    ensures var shape := SealShape(keyed, crypto, probeKey, probeNonce).value;
            (forall i :: 0 <= i < |report.carriers| ==> report.carriers[i].coverBoundsWrites) ==>
            (Encoding.Encode(g, keyed, cover, hidden, methods, crypto, mission, mode, salt, nonce).Ok?
             <==> |hidden| <= report.secretBytes && SizeAhead(shape, |hidden|) <= FRAME_PAYLOAD_LIMIT)
  {
    hide StackUpTo, CapacitiesUpTo, ValidateStack, SealShape, Seal, Sealed.Envelope, RewritesVisibleText,
         Separate, Invisible, FrameCarriesSalt, Adds, Encoding.Encode, EnvelopeLen;
    ReportIsExact(g, keyed, cover, hidden, methods, crypto, mission, mode, probeKey, probeNonce, salt, nonce, extra,
                  report);
    var shape := SealShape(keyed, crypto, probeKey, probeNonce).value;
    if |hidden| < report.secretBytes {
      EnvelopeLenGrows(shape.chain, |hidden| + shape.overhead, report.secretBytes + shape.overhead);
    }
  }

  // ─── A figure the encoder does not honour ───

  function Blanks(n: nat): string {
    seq(n, _ => ' ')
  }

  /** A blank is no word character, and a text of blanks holds no code and no equation. */
  ghost predicate BlanksOpen(g: Geometry) {
    !g.alphanumeric(' ') && forall n: nat, k: nat :: !g.protects(Blanks(n), k)
  }

  lemma {:induction false} BlankSlots(g: Geometry, n: nat, k: nat)
    requires BlanksOpen(g) && k <= n + 1
    ensures CountWritable(g, Blanks(n), k) == n + 1 - k
    decreases n + 1 - k
  {
    if k > n {
    } else {
      BlankSlots(g, n, k + 1);
      assert g.Writable(Blanks(n), k);
    }
  }

  lemma BlankPositions(g: Geometry, n: nat)
    requires BlanksOpen(g)
    ensures n >= 7 ==> Positions(g, WHITESPACE_VAR, Blanks(n)) == (n + 2) / 9 * 8
    ensures CheckWritable(WHITESPACE_VAR, Blanks(n)).Ok?
  {
    var visible := ch => !IsFormatControl(ch);
    KeepAll(Blanks(n), visible);
    BlankSlots(g, n, 0);
  }

  lemma CheckedSize(n: nat)
    requires 128 <= n < 0x4000
    ensures EnvelopeLen([ChainStep(INTEGRITY_STEP, [])], n) == n + 11
  {
    var step := ChainStep(INTEGRITY_STEP, []);
    Utf8.AsciiLength(INTEGRITY_STEP);
    assert |StepBytes(step)| == 7;
    assert [step][1..] == [] && ChainBytes([step]) == StepBytes(step) + [];
    assert |Varint(n / 128)| == 1 && |Varint(1)| == 1;
  }

  /** The report for a single carrier and no cipher. */
  lemma SingleReport(g: Geometry, keyed: Keyed, cover: string, c: Carrier, mode: FrameMode, probeKey: Key, nonce: nat)
    requires CheckWritable(c, cover).Ok?
    ensures var shape := Shape([ChainStep(INTEGRITY_STEP, [])], 4);
            SealShape(keyed, None, probeKey, nonce) == Ok(shape) &&
            CapacityOf(g, c, cover, shape, false, mode).Ok? &&
            var figure := CapacityOf(g, c, cover, shape, false, mode).value;
            CapacityFramed(g, keyed, cover, [c], None, mode, probeKey, nonce) ==
            Ok(Capacity([figure], figure.secretBytes))
  {
    hide Positions, FramedRoom, LargestUpTo, CoverBoundsWrites, CheckWritable, ValidateStack;
    var shape := Shape([ChainStep(INTEGRITY_STEP, [])], 4);
    var figure := CapacityOf(g, c, cover, shape, false, mode).value;
    var methods := [c];
    assert CapacitiesUpTo(g, methods, cover, shape, false, mode, 0) == Ok([]);
    assert CapacitiesUpTo(g, methods, cover, shape, false, mode, 1) == Ok([] + [figure]);
    assert FrameCarriesSalt(None) == false && [] + [figure] == [figure];
    assert CapacitiesUpTo(g, methods, cover, shape, false, mode, 1) == Ok([figure]);
    assert Smallest([figure]) == figure.secretBytes;
    assert SealShape(keyed, None, probeKey, nonce) == Ok(shape);
  }

  lemma BlankStack()
    ensures InvisibleStack([WHITESPACE_VAR])
  {
    RealStacksQualify([WHITESPACE_VAR]);
  }

  /** What the report says of a cover that offers 72000 positions. */
  lemma BlankFigure(g: Geometry, cover: string, secret: nat)
    requires Positions(g, WHITESPACE_VAR, cover) == 72000 && CheckWritable(WHITESPACE_VAR, cover).Ok?
    requires 124 <= secret <= 8977
    ensures var figure := CapacityOf(g, WHITESPACE_VAR, cover, Shape([ChainStep(INTEGRITY_STEP, [])], 4), false, Light);
            figure.Ok? && figure.value.coverBoundsWrites && secret <= figure.value.secretBytes
  {
    hide Positions, CheckWritable, EnvelopeLen, LargestUpTo;
    CheckedSize(secret + 4);
    LargestDecides([ChainStep(INTEGRITY_STEP, [])], 4, 8992, secret);
  }

  /**
   80998 blanks offer 72000 positions, so the report promises 8977 bytes to a carrier the cover bounds;
   the encoder refuses all secrets longer than 8176 bytes, because a frame declares its length in sixteen bits.
   */
  lemma ReportedYetRefused(g: Geometry, keyed: Keyed, hidden: seq<byte>, mission: Option<Mission>, probeKey: Key,
                           probeNonce: nat, salt: Salt, nonce: nat)
    requires BlanksOpen(g) && 8176 < |hidden| <= 8977
    ensures var report := CapacityFramed(g, keyed, Blanks(80998), [WHITESPACE_VAR], None, Light, probeKey, probeNonce);
            report.Ok? && |report.value.carriers| == 1 && report.value.carriers[0].coverBoundsWrites &&
            |hidden| <= report.value.secretBytes
    ensures Encoding.Encode(g, keyed, Blanks(80998), hidden, [WHITESPACE_VAR], None, mission, Light, salt, nonce).Err?
  {
    hide Positions, CheckWritable, EnvelopeLen, StackUpTo, LargestUpTo, Blanks, RewritesVisibleText, Sealed.Envelope,
         Crc32, BlanksOpen, Allows, CapacityOf, CapacityFramed, Encoding.Encode, SealShape, InvisibleStack;
    var methods := [WHITESPACE_VAR];
    var cover := Blanks(80998);
    BlankPositions(g, 80998);
    BlankStack();
    CheckedSize(|hidden| + 4);
    BlankFigure(g, cover, |hidden|);
    SingleReport(g, keyed, cover, WHITESPACE_VAR, Light, probeKey, probeNonce);
    var report := CapacityFramed(g, keyed, cover, methods, None, Light, probeKey, probeNonce);
    ReportIsExact(g, keyed, cover, hidden, methods, None, mission, Light, probeKey, probeNonce, salt, nonce, 0,
                  report.value);
  }

  // ─── A cover that does not come back ───

  /** An invisible times, which the whitespace carrier strips with its own characters, before blanks. */
  function TimesBlanks(n: nat): string {
    ['\U{2062}'] + Blanks(n)
  }

  lemma TimesPositions(g: Geometry, n: nat)
    requires BlanksOpen(g) && n >= 7
    ensures Positions(g, WHITESPACE_VAR, TimesBlanks(n)) == (n + 2) / 9 * 8
    ensures CheckWritable(WHITESPACE_VAR, TimesBlanks(n)).Ok?
    ensures Strip(WHITESPACE_VAR, TimesBlanks(n)) == Blanks(n)
  {
    hide CountWritable, BlanksOpen, Keep, Blanks;
    var visible, left := ch => !IsFormatControl(ch), ch => !WHITESPACE_VAR.Strips(ch);
    BlankPositions(g, n);
    BlankCharacters(n);
    KeepCons('\U{2062}', Blanks(n), visible);
    KeepAll(Blanks(n), visible);
    KeepCons('\U{2062}', Blanks(n), left);
    KeepAll(Blanks(n), left);
    assert Skeleton(TimesBlanks(n)) == Keep(['\U{2062}'] + Blanks(n), visible) == Skeleton(Blanks(n));
  }

  lemma BlankCharacters(n: nat)
    ensures forall i :: 0 <= i < |Blanks(n)| ==> Blanks(n)[i] == ' '
  {
  }

  /** Encoding accepts this cover, and stripping the layer off again gives a text without the invisible times. */
  lemma PeelLosesTimes(g: Geometry, keyed: Keyed, hidden: seq<byte>, probeKey: Key, salt: Salt, nonce: nat)
    requires BlanksOpen(g) && 124 <= |hidden| <= 8176
    ensures var cover := TimesBlanks(80998);
            var r := Encoding.Encode(g, keyed, cover, hidden, [WHITESPACE_VAR], None, None, Light, salt, nonce);
            r.Ok? && Strip(WHITESPACE_VAR, r.value.stegoText) == Blanks(80998) != cover
  {
    hide Positions, CheckWritable, EnvelopeLen, StackUpTo, Blanks, TimesBlanks, BlanksOpen, CapacityOf, CapacityFramed,
         SealShape, InvisibleStack, RewritesVisibleText, Strip, Layered, Seal, Inserting, ValidateStack;
    var methods := [WHITESPACE_VAR];
    var cover := TimesBlanks(80998);
    TimesPositions(g, 80998);
    BlankStack();
    CheckedSize(|hidden| + 4);
    BlankFigure(g, cover, |hidden|);
    SingleReport(g, keyed, cover, WHITESPACE_VAR, Light, probeKey, nonce);
    var report := CapacityFramed(g, keyed, cover, methods, None, Light, probeKey, nonce);
    PlainSeals(keyed, hidden, salt, nonce);
    ReportIsExact(g, keyed, cover, hidden, methods, None, None, Light, probeKey, nonce, salt, nonce, 0, report.value);
    PeeledOff(g, cover, Seal(keyed, hidden, None, salt, nonce).value);
    assert |cover| == |Blanks(80998)| + 1 by {
      TimesLonger(80998);
    }
  }

  lemma TimesLonger(n: nat)
    ensures |TimesBlanks(n)| == |Blanks(n)| + 1
  {
  }

  lemma PlainSeals(keyed: Keyed, hidden: seq<byte>, salt: Salt, nonce: nat)
    ensures Seal(keyed, hidden, None, salt, nonce).Ok? && Adds(keyed, None, 0)
  {
  }

  /** A single layer stripped off is the cover stripped. */
  lemma PeeledOff(g: Geometry, cover: string, sealed: Sealed)
    requires StackUpTo(g, [WHITESPACE_VAR], cover, sealed, None, Light, 1).Ok?
    ensures Strip(WHITESPACE_VAR, StackUpTo(g, [WHITESPACE_VAR], cover, sealed, None, Light, 1).value.text) ==
            Strip(WHITESPACE_VAR, cover)
  {
    hide AddLayer, Strip, Place, SequenceFrom, Holds;
    var methods, c := [WHITESPACE_VAR], WHITESPACE_VAR;
    RealCarrierInvisible(c);
    assert StackUpTo(g, methods, cover, sealed, None, Light, 0) == Ok(Stack(cover, USIZE_MAX));
    var bits := LayerWritten(g, methods[0], Stack(cover, USIZE_MAX), sealed, None, Light);
    StripForgets(g, c, cover, bits);
  }
  // ─── What a refusal for room says ───

  /** A refusal for room asks for more than there is. */
  ghost predicate FallsShort<T>(r: Result<T>) {
    r.Err? && r.error.CapacityExceeded? ==> r.error.needed > r.error.available
  }

  lemma {:induction false} SearchFallsShort(span: nat, payloadBits: nat, rounds: nat, free: nat)
    requires rounds == 0 ==> free < payloadBits
    ensures FallsShort(Spans.SearchFrom(span, payloadBits, rounds, free))
    decreases rounds
  {
    hide RoundUp8, Heavy.Layout.CapacityBits;
    if rounds > 0 && Heavy.LayoutOf(span).Ok? && Heavy.LayoutOf(span).value.CapacityBits() < payloadBits {
      var held := Heavy.LayoutOf(span).value.CapacityBits();
      SearchFallsShort(span + RoundUp8(payloadBits - held), payloadBits, rounds - 1, held);
    }
  }

  lemma LayoutFallsShort(positions: nat)
    ensures FallsShort(Heavy.LayoutOf(positions))
  {
  }

  lemma BuildsFallShort(span: nat, salt: Salt, payload: seq<byte>)
    ensures FallsShort(Heavy.Build(span, CONCEAL_FLAGS, salt, payload))
    ensures forall s: Option<Salt> :: FallsShort(LightFrames.BuildLight(CONCEAL_FLAGS, s, payload))
  {
    hide Heavy.LayoutOf, Heavy.Layout.CapacityBits, BytesToBits, Heavy.Fill;
    LayoutFallsShort(span);
  }

  lemma BitsFallShort(g: Geometry, c: Carrier, cover: string, sealed: Sealed, mode: FrameMode)
    ensures FallsShort(LayerBits(g, c, cover, sealed, mode))
  {
    hide RewritesVisibleText, ToBytes, Positions, Spans.SearchFrom, Heavy.Build, LightFrames.BuildLight, FirstSpan;
    var envelope := sealed.Envelope();
    SearchFallsShort(FirstSpan(|envelope| * 8), |envelope| * 8, Heavy.SPAN_SEARCH_ROUNDS, 0);
    var span := SpanFor(g, c, cover, |envelope| * 8);
    BuildsFallShort(if span.Ok? then span.value else 0, sealed.salt, envelope);
  }

  lemma PlacingFallsShort(g: Geometry, c: Carrier, cover: string, sealed: Sealed, mode: FrameMode)
    ensures FallsShort(PlaceLayer(g, c, cover, sealed, mode))
  {
    hide LayerBits, ReadLayer, Positions, ToBytes, Place, SequenceFrom, BitsToBytes, BytesToBits;
    BitsFallShort(g, c, cover, sealed, mode);
  }

  /**
   The two gates of a layer: a concealed one over a thirty-second of the positions is refused with both sizes in bits,
     and
   so is one over the room of a carrier the cover bounds.
   */
  lemma GatesName(g: Geometry, c: Carrier, below: Stack, sealed: Sealed, mission: Option<Mission>, mode: FrameMode)
    ensures FallsShort(AddLayer(g, c, below, sealed, mission, mode))
    ensures var size, positions := |sealed.Envelope()|, Positions(g, c, below.text);
            var room := FramedRoom(positions, sealed.authenticated, mode);
            if mission == Some(Conceal) && 32 * size > positions
            then AddLayer(g, c, below, sealed, mission, mode) == Err(CapacityExceeded(8 * size, 8 * (positions / 32)))
            else CheckWritable(c, below.text).Ok? && !c.overflows && size > room ==>
                 AddLayer(g, c, below, sealed, mission, mode) == Err(CapacityExceeded(8 * size, 8 * room))
  {
    hide PlaceLayer, ToBytes, Positions, FramedRoom, CheckWritable, WritePositions;
    PlacingFallsShort(g, c, below.text, sealed, mode);
  }

  /** Through a whole stack, every refusal for room asks for more than there is. */
  lemma {:induction false} RefusalsFallShort(g: Geometry, methods: seq<Carrier>, cover: string, sealed: Sealed,
                                             mission: Option<Mission>, mode: FrameMode, n: nat)
    requires n <= |methods|
    ensures FallsShort(StackUpTo(g, methods, cover, sealed, mission, mode, n))
    decreases n
  {
    hide AddLayer, ToBytes;
    if n == 0 {
    } else {
      RefusalsFallShort(g, methods, cover, sealed, mission, mode, n - 1);
      var below := StackUpTo(g, methods, cover, sealed, mission, mode, n - 1);
      if below.Ok? {
        GatesName(g, methods[n - 1], below.value, sealed, mission, mode);
      }
    }
  }
}
