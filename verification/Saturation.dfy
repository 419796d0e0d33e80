/** Saturation: a carrier's positions filled with whole copies of one light frame, so that an excerpt still reads. */
module Saturation {
  import opened Results
  import opened Bytes
  import opened Preambles
  import opened LightFrames
  import Heavy = HeavyFrames
  import Envelopes
  import opened Carriers
  import opened Composition
  import opened Sealing
  import opened Layers
  import opened Encoding
  import opened Decoding
  import opened Traces
  import opened RoundTrips
  import opened Capacities

  function Repeat(frame: seq<bool>, copies: nat): (bits: seq<bool>)
    ensures |bits| == copies * |frame|
  {
    if copies == 0 then [] else
      Distributes(copies - 1, |frame|);
      frame + Repeat(frame, copies - 1)
  }

  lemma Distributes(k: nat, n: nat)
    ensures (k + 1) * n == k * n + n
  {
  }

  function Max(a: nat, b: nat): nat {
    if a < b then b else a
  }

  /** Whole copies only, and never none. */
  function Copies(positions: nat, frameLen: nat): nat
    requires frameLen > 0
  {
    Max(positions / frameLen, 1)
  }

  function FrameOf(sealed: Sealed): Result<seq<bool>> {
    BuildLight(CONCEAL_FLAGS, SaltOf(sealed), sealed.Envelope())
  }

  function PlaceSaturated(g: Geometry, c: Carrier, cover: string, frame: seq<bool>, envelope: seq<byte>): Result<string>
    requires frame != []
  {
    var _ :- CheckWritable(c, cover);
    var stego :- WritePositions(g, c, cover, Repeat(frame, Copies(Positions(g, c, cover), |frame|)));
    var contents := ReadLayer(c, stego);
    if contents.Ok? && contents.value.payload == envelope then Ok(stego) else Err(EncodingFailed(c.id))
  }

  /** The text so far, and the least any carrier's channel was filled to. */
  datatype Filled = Filled(text: string, bits: nat)

  function SaturatedUpTo(g: Geometry, methods: seq<Carrier>, cover: string, frame: seq<bool>, envelope: seq<byte>,
                         n: nat)
    : Result<Filled>
    requires n <= |methods| && frame != []
  {
    if n == 0 then Ok(Filled(cover, USIZE_MAX))
    else
      var below :- SaturatedUpTo(g, methods, cover, frame, envelope, n - 1);
      var text :- PlaceSaturated(g, methods[n - 1], below.text, frame, envelope);
      Ok(Filled(text, Min(below.bits, Max(Positions(g, methods[n - 1], below.text), |frame|))))
  }

  function SaturateStack(g: Geometry, cover: string, sealed: Sealed, methods: seq<Carrier>)
    : Result<Encoding.EncodeResult>
  {
    var frame :- FrameOf(sealed);
    var top :- SaturatedUpTo(g, methods, cover, frame, sealed.Envelope(), |methods|);
    Ok(Encoding.EncodeResult(top.text, Ids(methods), |frame|, top.bits))
  }

  function Saturated(g: Geometry, keyed: Keyed, cover: string, hidden: seq<byte>, methods: seq<Carrier>,
                     crypto: Option<Choice>, salt: Salt, nonce: nat): Result<Encoding.EncodeResult>
  {
    if methods == [] then Err(InvalidInput)
    else if hidden == [] then Err(InvalidInput)
    else
      var _ :- ValidateStack(methods);
      var sealed :- Seal(keyed, hidden, crypto, salt, nonce);
      SaturateStack(g, cover, sealed, methods)
  }

  lemma {:induction false} SaturatedStops(g: Geometry, methods: seq<Carrier>, cover: string, frame: seq<bool>,
                                          envelope: seq<byte>, m: nat, n: nat)
    requires m <= n <= |methods| && frame != []
    ensures SaturatedUpTo(g, methods, cover, frame, envelope, m).Err? ==>
            SaturatedUpTo(g, methods, cover, frame, envelope, n) == SaturatedUpTo(g, methods, cover, frame, envelope, m)
    decreases n
  {
    hide PlaceSaturated, Positions;
    if m == n {
    } else {
      SaturatedStops(g, methods, cover, frame, envelope, m, n - 1);
    }
  }

  /** `repeat`, and one placement. */
  method PlaceCopies(g: Geometry, c: Carrier, cover: string, frame: seq<bool>, envelope: seq<byte>)
    returns (r: Result<string>)
    requires frame != []
    ensures r == PlaceSaturated(g, c, cover, frame, envelope)
  {
    hide CheckWritable, Positions, ReadLayer, WritePositions;
    var writable := CheckWritable(c, cover);
    if writable.Err? {
      return Err(writable.error);
    }
    var copies := Copies(Positions(g, c, cover), |frame|);
    var bits: seq<bool> := [];
    for i := 0 to copies
      invariant bits == Repeat(frame, i)
    {
      RepeatCommutes(frame, i);
      bits := bits + frame;
    }
    var stego := WritePositions(g, c, cover, bits);
    if stego.Err? {
      return Err(stego.error);
    }
    var contents := ReadLayer(c, stego.value);
    r := if contents.Ok? && contents.value.payload == envelope then stego else Err(EncodingFailed(c.id));
  }

  lemma {:induction false} RepeatCommutes(frame: seq<bool>, n: nat)
    ensures Repeat(frame, n) + frame == Repeat(frame, n + 1)
  {
    if n == 0 {
      assert [] + frame == frame + [];
    } else {
      RepeatCommutes(frame, n - 1);
      assert (frame + Repeat(frame, n - 1)) + frame == frame + (Repeat(frame, n - 1) + frame);
    }
  }

  /** The saturation loop. */
  method SaturateThroughStack(g: Geometry, cover: string, sealed: Sealed, methods: seq<Carrier>)
    returns (r: Result<Encoding.EncodeResult>)
    ensures r == SaturateStack(g, cover, sealed, methods)
  {
    hide PlaceSaturated, Positions, BuildLight;
    var built := BuildLight(CONCEAL_FLAGS, SaltOf(sealed), sealed.Envelope());
    if built.Err? {
      return Err(built.error);
    }
    var frame := built.value;
    var currentText := cover;
    var methodsUsed: seq<string> := [];
    var filledBits := USIZE_MAX;
    for i := 0 to |methods|
      invariant SaturatedUpTo(g, methods, cover, frame, sealed.Envelope(), i) == Ok(Filled(currentText, filledBits))
      invariant methodsUsed == Ids(methods[..i])
    {
      SaturatedStops(g, methods, cover, frame, sealed.Envelope(), i + 1, |methods|);
      filledBits := Min(filledBits, Max(Positions(g, methods[i], currentText), |frame|));
      var placed := PlaceCopies(g, methods[i], currentText, frame, sealed.Envelope());
      if placed.Err? {
        return Err(placed.error);
      }
      currentText := placed.value;
      methodsUsed := methodsUsed + [methods[i].id];
    }
    assert methods[..|methods|] == methods;
    r := Ok(Encoding.EncodeResult(currentText, methodsUsed, |frame|, filledBits));
  }

  // ─── What saturation fills ───

  /** A cover with room for a frame is filled but for less than one frame. */
  lemma CopiesFill(positions: nat, frameLen: nat)
    requires frameLen > 0
    ensures frameLen <= positions ==>
              Copies(positions, frameLen) * frameLen <= positions < Copies(positions, frameLen) * frameLen + frameLen
    ensures positions < frameLen ==> Copies(positions, frameLen) == 1
  {
  }

  /** One saturated layer: what it wrote, and that it reads back. */
  lemma SaturatedLayer(g: Geometry, c: Carrier, cover: string, sealed: Sealed, frame: seq<bool>)
    requires c.WellFormed() && FrameOf(sealed) == Ok(frame)
    ensures frame != []
    ensures PlaceSaturated(g, c, cover, frame, sealed.Envelope()).Ok? ==>
              var after := PlaceSaturated(g, c, cover, frame, sealed.Envelope()).value;
              Wrote(g, c, cover, after, sealed) &&
              ReadPositions(c, after) == Repeat(frame, Copies(Positions(g, c, cover), |frame|))
  {
    hide BuildLight, Positions, Place, SequenceFrom, Sealed.Envelope, IsFramed, ReadFrame;
    WholeFrame(|sealed.Envelope()|, SaltOf(sealed).Some?);
    var copies := Copies(Positions(g, c, cover), |frame|);
    var bits := Repeat(frame, copies);
    LightBitsHold(sealed, Repeat(frame, copies - 1), bits);
    if CheckWritable(c, cover).Ok? {
      ReadAfterWrite(g, c, cover, bits);
    }
  }

  ghost function SaturatedTexts(g: Geometry, methods: seq<Carrier>, cover: string, frame: seq<bool>,
                                envelope: seq<byte>)
    : (texts: seq<string>)
    requires frame != [] && SaturatedUpTo(g, methods, cover, frame, envelope, |methods|).Ok?
    ensures |texts| == |methods| + 1 && forall i :: 0 <= i <= |methods| ==>
              SaturatedUpTo(g, methods, cover, frame, envelope, i).Ok? &&
              texts[i] == SaturatedUpTo(g, methods, cover, frame, envelope, i).value.text
  {
    assert forall i | 0 <= i <= |methods| :: SaturatedUpTo(g, methods, cover, frame, envelope, i).Ok? by {
      hide PlaceSaturated;
      forall i | 0 <= i <= |methods|
        ensures SaturatedUpTo(g, methods, cover, frame, envelope, i).Ok?
      {
        SaturatedStops(g, methods, cover, frame, envelope, i, |methods|);
      }
    }
    seq(|methods| + 1, i requires 0 <= i <= |methods| =>
      SaturatedUpTo(g, methods, cover, frame, envelope, i).value.text)
  }

  lemma SaturatedStep(g: Geometry, methods: seq<Carrier>, cover: string, sealed: Sealed, frame: seq<bool>, i: nat)
    requires Inserting(methods) && FrameOf(sealed) == Ok(frame) && frame != [] && i < |methods|
    requires SaturatedUpTo(g, methods, cover, frame, sealed.Envelope(), |methods|).Ok?
    ensures var texts := SaturatedTexts(g, methods, cover, frame, sealed.Envelope());
            Wrote(g, methods[i], texts[i], texts[i + 1], sealed) &&
            ReadPositions(methods[i], texts[i + 1]) ==
            Repeat(frame, Copies(Positions(g, methods[i], texts[i]), |frame|))
  {
    hide PlaceSaturated, RewritesVisibleText, Separate, Wrote, Sealed.Envelope, FrameOf, Positions, ReadPositions,
         Repeat, Copies;
    SaturatedStops(g, methods, cover, frame, sealed.Envelope(), i + 1, |methods|);
    var below := SaturatedUpTo(g, methods, cover, frame, sealed.Envelope(), i).value;
    SaturatedLayer(g, methods[i], below.text, sealed, frame);
  }

  lemma SaturatedLayers(g: Geometry, methods: seq<Carrier>, cover: string, sealed: Sealed, frame: seq<bool>)
    requires Inserting(methods) && FrameOf(sealed) == Ok(frame) && frame != []
    requires SaturatedUpTo(g, methods, cover, frame, sealed.Envelope(), |methods|).Ok?
    ensures var texts := SaturatedTexts(g, methods, cover, frame, sealed.Envelope());
            texts[0] == cover && Layered(g, methods, texts, sealed)
  {
    hide Inserting, Wrote, Sealed.Envelope, SaturatedTexts, FrameOf;
    var texts := SaturatedTexts(g, methods, cover, frame, sealed.Envelope());
    forall i | 0 <= i < |methods|
      ensures Wrote(g, methods[i], texts[i], texts[i + 1], sealed)
    {
      SaturatedStep(g, methods, cover, sealed, frame, i);
    }
  }

  /** What a carrier wrote, the carriers after it leave as it was. */
  lemma {:induction false} ChannelKept(g: Geometry, methods: seq<Carrier>, texts: seq<string>, sealed: Sealed,
                                       i: nat, n: nat)
    requires Inserting(methods) && Layered(g, methods, texts, sealed) && i < n <= |methods|
    ensures ReadPositions(methods[i], texts[n]) == ReadPositions(methods[i], texts[i + 1])
    decreases n
  {
    hide Wrote, ReadPositions, RewritesVisibleText, Separate;
    if n == i + 1 {
    } else {
      ChannelKept(g, methods, texts, sealed, i, n - 1);
      assert Separate(methods[i], methods[n - 1]);
      WriteSpares(g, methods[n - 1], texts[n - 1], texts[n], sealed, methods[i]);
    }
  }

  /** A carrier finds on the running text the positions the cover offered it. */
  lemma {:induction false} PositionsAsOnCover(g: Geometry, methods: seq<Carrier>, texts: seq<string>, sealed: Sealed,
                                              c: Carrier, n: nat)
    requires InvisibleStack(methods) && Layered(g, methods, texts, sealed) && n <= |methods|
    ensures Positions(g, c, texts[n]) == Positions(g, c, texts[0])
    decreases n
  {
    hide Positions, RewritesVisibleText, Separate, ReadPositions, Holds, Place, SequenceFrom, CheckWritable;
    if n == 0 {
    } else {
      PositionsAsOnCover(g, methods, texts, sealed, c, n - 1);
      var other := methods[n - 1];
      assert Wrote(g, other, texts[n - 1], texts[n], sealed) && Invisible(other);
      BitsInChannel(other);
      assert other.delimiter.Some? ==> other.InChannel(other.delimiter.value);
      PositionsUnmoved(g, c, other, texts[n - 1], ReadPositions(other, texts[n]));
    }
  }

  /**
   Every carrier of a saturated stack is a channel of its own: the last text reads, through each of them, as whole
   copies of the frame, and as many of them as the cover had room for.
   */
  lemma ChannelsFilled(g: Geometry, methods: seq<Carrier>, cover: string, sealed: Sealed, frame: seq<bool>, i: nat)
    requires Inserting(methods) && FrameOf(sealed) == Ok(frame) && frame != [] && i < |methods|
    requires SaturatedUpTo(g, methods, cover, frame, sealed.Envelope(), |methods|).Ok?
    ensures var texts := SaturatedTexts(g, methods, cover, frame, sealed.Envelope());
            ReadPositions(methods[i], texts[|methods|]) ==
            Repeat(frame, Copies(Positions(g, methods[i], texts[i]), |frame|)) &&
            (InvisibleStack(methods) ==> Positions(g, methods[i], texts[i]) == Positions(g, methods[i], cover))
  {
    hide Inserting, Wrote, Sealed.Envelope, SaturatedTexts, FrameOf, ReadPositions, Positions, Repeat, Copies,
         InvisibleStack, SaturatedUpTo, Layered;
    var texts := SaturatedTexts(g, methods, cover, frame, sealed.Envelope());
    SaturatedLayers(g, methods, cover, sealed, frame);
    SaturatedStep(g, methods, cover, sealed, frame, i);
    ChannelKept(g, methods, texts, sealed, i, |methods|);
    if InvisibleStack(methods) {
      PositionsAsOnCover(g, methods, texts, sealed, methods[i], i);
    }
  }

  /** A saturated document decodes to exactly the secret, like a plain one. */
  lemma SaturatedRoundTrip(g: Geometry, reader: Reader, cover: string, hidden: seq<byte>, methods: seq<Carrier>,
                           crypto: Option<Choice>, salt: Salt, nonce: nat, candidates: seq<Carrier>)
    requires Inserting(methods) && Offers(candidates, methods, cover)
    requires Invertible(reader.keyed, crypto) && Offered(crypto, reader.ciphers, reader.password)
    requires Saturated(g, reader.keyed, cover, hidden, methods, crypto, salt, nonce).Ok?
    ensures var stego := Saturated(g, reader.keyed, cover, hidden, methods, crypto, salt, nonce).value;
            Delivers(Decoded(reader, stego.stegoText, candidates), hidden, Used(candidates, methods),
                     Seal(reader.keyed, hidden, crypto, salt, nonce).value)
  {
    hide SaturatedUpTo, Layered, Invertible, Offered, Seal, Decoded, Delivers, Separate, Stranger, Offers,
         Sealed.Envelope, RewritesVisibleText, Envelopes.Parse, ValidateStack;
    var sealed := Seal(reader.keyed, hidden, crypto, salt, nonce).value;
    var frame := FrameOf(sealed).value;
    SaturatedLayers(g, methods, cover, sealed, frame);
    LayeredDecodes(g, reader, methods, SaturatedTexts(g, methods, cover, frame, sealed.Envelope()), hidden, crypto,
                   salt, nonce, sealed, candidates);
  }
  /**
   What a saturating encode reports: the carriers in order, the bits of one copy, and no more room than any of
   them had.
   */
  lemma SaturationReports(g: Geometry, keyed: Keyed, cover: string, hidden: seq<byte>, methods: seq<Carrier>,
                          crypto: Option<Choice>, salt: Salt, nonce: nat)
    requires Saturated(g, keyed, cover, hidden, methods, crypto, salt, nonce).Ok?
    ensures var r := Saturated(g, keyed, cover, hidden, methods, crypto, salt, nonce).value;
            var sealed := Seal(keyed, hidden, crypto, salt, nonce).value;
            |r.methodsUsed| == |methods| > 0 && hidden != [] &&
            (forall i :: 0 <= i < |methods| ==> r.methodsUsed[i] == methods[i].id) &&
            r.usedBits == 8 * ((if sealed.authenticated then 24 else 8) + |sealed.Envelope()|) &&
            r.usedBits <= r.availableBits &&
            forall i: nat :: i < |methods| ==>
              FilledAtMost(g, methods, cover, FrameOf(sealed).value, sealed.Envelope(), i, r.availableBits)
  {
    hide SaturatedUpTo, ValidateStack, Seal, Sealed.Envelope, FilledAtMost;
    var sealed := Seal(keyed, hidden, crypto, salt, nonce).value;
    var frame := FrameOf(sealed).value;
    LeastFilled(g, methods, cover, frame, sealed.Envelope(), |methods|);
  }

  /** The bits carrier `i` can be filled with: its positions on the text it is given, and one copy at least. */
  ghost predicate FilledAtMost(g: Geometry, methods: seq<Carrier>, cover: string, frame: seq<bool>, envelope: seq<byte>,
                               i: nat, bits: nat)
    requires i < |methods| && frame != []
  {
    SaturatedUpTo(g, methods, cover, frame, envelope, i).Ok? &&
    bits <= Max(Positions(g, methods[i], SaturatedUpTo(g, methods, cover, frame, envelope, i).value.text), |frame|)
  }

  lemma FilledStep(g: Geometry, methods: seq<Carrier>, cover: string, frame: seq<bool>, envelope: seq<byte>, n: nat)
    requires 0 < n <= |methods| && frame != [] && SaturatedUpTo(g, methods, cover, frame, envelope, n).Ok?
    ensures var bits := SaturatedUpTo(g, methods, cover, frame, envelope, n).value.bits;
            var below := SaturatedUpTo(g, methods, cover, frame, envelope, n - 1);
            below.Ok? && bits <= below.value.bits && FilledAtMost(g, methods, cover, frame, envelope, n - 1, bits) &&
            (|frame| <= below.value.bits ==> |frame| <= bits)
  {
    hide PlaceSaturated, Positions;
  }

  lemma {:induction false} LeastFilled(g: Geometry, methods: seq<Carrier>, cover: string, frame: seq<bool>,
                                       envelope: seq<byte>, n: nat)
    requires n <= |methods| && 0 < |frame| <= USIZE_MAX
    requires SaturatedUpTo(g, methods, cover, frame, envelope, n).Ok?
    ensures |frame| <= SaturatedUpTo(g, methods, cover, frame, envelope, n).value.bits
    ensures forall i: nat :: i < n ==>
              FilledAtMost(g, methods, cover, frame, envelope, i,
                           SaturatedUpTo(g, methods, cover, frame, envelope, n).value.bits)
    decreases n
  {
    hide PlaceSaturated, Positions;
    if n == 0 {
    } else {
      FilledStep(g, methods, cover, frame, envelope, n);
      LeastFilled(g, methods, cover, frame, envelope, n - 1);
      var bits := SaturatedUpTo(g, methods, cover, frame, envelope, n).value.bits;
      var below := SaturatedUpTo(g, methods, cover, frame, envelope, n - 1).value.bits;
      forall i: nat | i < n
        ensures FilledAtMost(g, methods, cover, frame, envelope, i, bits)
      {
        if i < n - 1 {
          assert FilledAtMost(g, methods, cover, frame, envelope, i, below);
        }
      }
    }
  }
}
