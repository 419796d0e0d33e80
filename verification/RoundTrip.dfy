/** Decoding gives back what encoding hid, whichever carriers the reader happens to offer. */
module RoundTrips {
  import opened Results
  import opened Bytes
  import opened Preambles
  import LightFrames
  import Heavy = HeavyFrames
  import Envelopes
  import opened Carriers
  import opened Composition
  import opened Sealing
  import opened Layers
  import opened Encoding
  import opened Decoding
  import opened Traces

  /** Two carriers that leave each other's bits alone, writing or stripping. */
  ghost predicate Separate(a: Carrier, b: Carrier) {
    (forall ch :: a.InChannel(ch) ==> !b.InChannel(ch)) &&
    (forall ch :: a.Strips(ch) ==> !b.IsBit(ch)) && (forall ch :: b.Strips(ch) ==> !a.IsBit(ch))
  }

  ghost predicate Inserting(methods: seq<Carrier>) {
    (forall i :: 0 <= i < |methods| ==> methods[i].WellFormed() && !RewritesVisibleText(methods[i])) &&
    (forall i, j :: 0 <= i < j < |methods| ==> Separate(methods[i], methods[j]))
  }

  /** One writing step: the text it makes and the bits it wrote. */
  lemma LayerWritten(g: Geometry, c: Carrier, below: Stack, sealed: Sealed, mission: Option<Mission>, mode: FrameMode)
    returns (bits: seq<bool>)
    requires c.WellFormed() && !RewritesVisibleText(c) && AddLayer(g, c, below, sealed, mission, mode).Ok?
    ensures CheckWritable(c, below.text).Ok? && Holds(bits, sealed)
    ensures LayerBits(g, c, below.text, sealed, mode) == Ok(bits)
    ensures AddLayer(g, c, below, sealed, mission, mode).value.text == Place(g, below.text, SequenceFrom(c, bits, 0))
    ensures c.overflows || |bits| <= Positions(g, c, below.text)
  {
    hide PlaceLayer, LayerBits, Holds, Place, RewritesVisibleText, Room, DensityBudget;
    PlacedLayer(g, c, below.text, sealed, mode);
    bits := LayerBits(g, c, below.text, sealed, mode).value;
  }

  /** `after` is `before` with exactly the bits `c` now reads written in, and they hold the secret. */
  ghost predicate Wrote(g: Geometry, c: Carrier, before: string, after: string, sealed: Sealed) {
    var bits := ReadPositions(c, after);
    CheckWritable(c, before).Ok? && after == Place(g, before, SequenceFrom(c, bits, 0)) && Holds(bits, sealed)
  }

  /** The texts an encoder goes through, from the cover up, one carrier a step. */
  ghost predicate Layered(g: Geometry, methods: seq<Carrier>, texts: seq<string>, sealed: Sealed) {
    |texts| == |methods| + 1 && forall i :: 0 <= i < |methods| ==> Wrote(g, methods[i], texts[i], texts[i + 1], sealed)
  }

  /** Every carrier written so far still holds the secret. */
  lemma {:induction false} AllStillHold(g: Geometry, methods: seq<Carrier>, texts: seq<string>, sealed: Sealed,
                                        n: nat, j: nat)
    requires Inserting(methods) && Layered(g, methods, texts, sealed) && j < n <= |methods|
    ensures Holds(ReadPositions(methods[j], texts[n]), sealed)
    decreases n
  {
    hide Holds, RewritesVisibleText, ReadPositions, Separate, Place, SequenceFrom, CheckWritable;
    assert Wrote(g, methods[n - 1], texts[n - 1], texts[n], sealed);
    if j == n - 1 {
    } else {
      AllStillHold(g, methods, texts, sealed, n - 1, j);
      assert Separate(methods[j], methods[n - 1]);
      WriteSpares(g, methods[n - 1], texts[n - 1], texts[n], sealed, methods[j]);
    }
  }

  lemma WriteSpares(g: Geometry, c: Carrier, before: string, after: string, sealed: Sealed, other: Carrier)
    requires Wrote(g, c, before, after, sealed) && Separate(other, c)
    ensures ReadPositions(other, after) == ReadPositions(other, before)
  {
    hide Holds, ReadPositions, Place, SequenceFrom, CheckWritable;
    BitsInChannel(other);
    ReadAcrossWrite(g, other, c, before, ReadPositions(c, after));
  }

  lemma BitsInChannel(c: Carrier)
    ensures c.InChannel(c.zero) && c.InChannel(c.one)
  {
  }

  /** A carrier apart from the stack whose alphabet the cover lacks reads nothing from any of the texts. */
  lemma {:induction false} StrangerReadsNothing(g: Geometry, methods: seq<Carrier>, texts: seq<string>, sealed: Sealed,
                                                n: nat, c: Carrier)
    requires Layered(g, methods, texts, sealed) && n <= |methods| && Stranger(c, methods, texts[0])
    ensures ReadPositions(c, texts[n]) == []
    decreases n
  {
    hide Holds, RewritesVisibleText, Separate, Wrote;
    if n == 0 {
      ReadNone(c, texts[0]);
    } else {
      StrangerReadsNothing(g, methods, texts, sealed, n - 1, c);
      WriteSpares(g, methods[n - 1], texts[n - 1], texts[n], sealed, c);
    }
  }

  lemma EmptyUnframed()
    ensures !IsFramed([])
  {
  }

  // ─── Reading through the strips ───

  ghost predicate Stranger(c: Carrier, methods: seq<Carrier>, cover: string) {
    CheckWritable(c, cover).Ok? && forall j :: 0 <= j < |methods| ==> Separate(c, methods[j])
  }

  /** Each candidate is one of the stack or a stranger to it, and no carrier is offered twice. */
  ghost predicate Offers(candidates: seq<Carrier>, methods: seq<Carrier>, cover: string) {
    (forall i :: 0 <= i < |candidates| ==> candidates[i] in methods || Stranger(candidates[i], methods, cover)) &&
    Distinct(candidates) &&
    exists i :: 0 <= i < |candidates| && candidates[i] in methods
  }

  /** The carriers offered that the stack used, in the order offered. */
  function Used(candidates: seq<Carrier>, methods: seq<Carrier>): seq<Carrier> {
    if candidates == [] then []
    else
      var n := |candidates| - 1;
      Used(candidates[..n], methods) + if candidates[n] in methods then [candidates[n]] else []
  }

  lemma {:induction false} UsedMembers(candidates: seq<Carrier>, methods: seq<Carrier>, c: Carrier)
    ensures c in Used(candidates, methods) <==> c in candidates && c in methods
  {
    if candidates == [] {
    } else {
      var n := |candidates| - 1;
      assert c in candidates <==> c in candidates[..n] || c == candidates[n];
      UsedMembers(candidates[..n], methods, c);
    }
  }

  ghost predicate Distinct(methods: seq<Carrier>) {
    forall i, j :: 0 <= i < j < |methods| ==> methods[i] != methods[j]
  }

  lemma {:induction false} UsedDistinct(candidates: seq<Carrier>, methods: seq<Carrier>)
    requires Distinct(candidates)
    ensures Distinct(Used(candidates, methods))
  {
    if candidates == [] {
    } else {
      var n := |candidates| - 1;
      UsedDistinct(candidates[..n], methods);
      UsedMembers(candidates[..n], methods, candidates[n]);
    }
  }

  /** Identification finds exactly the carriers the stack used. */
  lemma {:induction false} IdentifiesUsed(candidates: seq<Carrier>, methods: seq<Carrier>, text: string)
    requires forall i :: 0 <= i < |candidates| ==>
               (candidates[i] in methods <==> IsFramed(ReadPositions(candidates[i], text)))
    ensures Identified(candidates, text) == Used(candidates, methods)
  {
    hide IsFramed, ReadPositions;
    if candidates == [] {
    } else {
      IdentifiesUsed(candidates[..|candidates| - 1], methods, text);
    }
  }

  /** Stripping the layers above leaves a carrier's bits as they were. */
  lemma {:induction false} BelowReads(identified: seq<Carrier>, text: string, k: nat, c: Carrier)
    requires k <= |identified| && forall i :: k <= i < |identified| ==> Separate(c, identified[i])
    ensures ReadPositions(c, Below(identified, text, k)) == ReadPositions(c, text)
    decreases |identified| - k
  {
    hide ReadPositions;
    if k == |identified| {
    } else {
      BelowReads(identified, text, k + 1, c);
      StripApart(c, identified[k]);
      ReadAcrossStrip(c, identified[k], Below(identified, text, k + 1));
    }
  }

  lemma StripApart(c: Carrier, other: Carrier)
    requires Separate(c, other)
    ensures !other.Strips(c.zero) && !other.Strips(c.one)
  {
    assert c.IsBit(c.zero) && c.IsBit(c.one);
  }

  lemma MembersSeparate(methods: seq<Carrier>, a: Carrier, b: Carrier)
    requires Inserting(methods) && a in methods && b in methods && a != b
    ensures Separate(a, b)
  {
    var i :| 0 <= i < |methods| && methods[i] == a;
    var j :| 0 <= j < |methods| && methods[j] == b;
    if i < j {
      assert Separate(methods[i], methods[j]);
    } else {
      assert Separate(methods[j], methods[i]);
    }
  }

  lemma LayersAllHold(used: seq<Carrier>, methods: seq<Carrier>, text: string, sealed: Sealed)
    requires Inserting(methods) && forall i :: 0 <= i < |used| ==> used[i] in methods
    requires Distinct(used)
    requires forall i :: 0 <= i < |methods| ==> Holds(ReadPositions(methods[i], text), sealed)
    ensures AllHold(used, text, sealed.Envelope(), |used|)
    ensures used != [] && sealed.authenticated ==> LayerAt(used, text, 0).value.preamble.salt == sealed.salt
  {
    hide ReadFrame, IsFramed, ReadPositions, Separate, RewritesVisibleText;
    forall k | 0 <= k < |used|
      ensures LayerAt(used, text, k) == ReadFrame(ReadPositions(used[k], text))
    {
      forall i | k < i < |used|
        ensures Separate(used[k], used[i])
      {
        MembersSeparate(methods, used[k], used[i]);
      }
      BelowReads(used, text, k + 1, used[k]);
    }
  }

  // ─── The round trip ───

  /** An envelope a frame can declare parses back. */
  lemma ShortEnvelopeParses(sealed: Sealed)
    requires |sealed.Envelope()| * 8 < 0x1_0000
    ensures Envelopes.Parse(sealed.Envelope()) ==
            Ok(Envelopes.Envelope(Envelopes.ENVELOPE_VERSION, sealed.chain, sealed.payload))
  {
    hide Envelopes.Parse, Envelopes.ToBytes;
    var e := Envelopes.Envelope(Envelopes.ENVELOPE_VERSION, sealed.chain, sealed.payload);
    Envelopes.SmallEnvelopeFits(e);
    Envelopes.EnvelopeRoundTrip(e);
  }

  /** What decoding yields when every carrier of the stack holds the sealed secret. */
  lemma HeldDecodes(reader: Reader, used: seq<Carrier>, methods: seq<Carrier>, text: string, hidden: seq<byte>,
                    crypto: Option<Choice>, salt: Salt, nonce: nat, sealed: Sealed)
    requires Inserting(methods) && used != [] && forall i :: 0 <= i < |used| ==> used[i] in methods
    requires Distinct(used)
    requires forall i :: 0 <= i < |methods| ==> Holds(ReadPositions(methods[i], text), sealed)
    requires Invertible(reader.keyed, crypto) && Offered(crypto, reader.ciphers, reader.password)
    requires Seal(reader.keyed, hidden, crypto, salt, nonce) == Ok(sealed)
    ensures var t := Cascade(reader, used, text);
            t.outcome == Ok(Decoding.DecodeResult(hidden, Dedup(Ids(used)), CipherNamed(sealed.chain), true, [])) &&
            RunListed(t.waves, used, sealed.chain)
  {
    hide Cascade, Seal, Holds, Invertible, Offered, Envelopes.Parse, Envelopes.ToBytes, RevertChain, LayerAt, RunListed,
         Separate, RewritesVisibleText;
    assert used[0] in methods;
    var j :| 0 <= j < |methods| && methods[j] == used[0];
    HeldIsShort(ReadPositions(methods[j], text), sealed);
    ShortEnvelopeParses(sealed);
    LayersAllHold(used, methods, text, sealed);
    assert LayerAt(used, text, |used| - 1).value.payload == sealed.Envelope();
    assert LayerAt(used, text, 0).Ok?;
    SealReverts(reader.keyed, hidden, crypto, salt, nonce, LayerAt(used, text, 0).value.preamble.salt,
                reader.ciphers, reader.password);
    CascadeDecides(reader, used, text);
  }

  /** Identification, on the last text, finds exactly the carriers used. */
  lemma CandidatesIdentified(g: Geometry, methods: seq<Carrier>, texts: seq<string>, sealed: Sealed,
                             candidates: seq<Carrier>)
    requires Inserting(methods) && Layered(g, methods, texts, sealed) && Offers(candidates, methods, texts[0])
    ensures Identified(candidates, texts[|methods|]) == Used(candidates, methods)
  {
    hide Layered, IsFramed, ReadFrame, ReadPositions, CheckWritable, Separate, RewritesVisibleText, Stranger;
    assert |texts| == |methods| + 1 by {
      LayeredLength(g, methods, texts, sealed);
    }
    var text := texts[|methods|];
    forall i | 0 <= i < |candidates|
      ensures candidates[i] in methods <==> IsFramed(ReadPositions(candidates[i], text))
    {
      if candidates[i] in methods {
        var j :| 0 <= j < |methods| && methods[j] == candidates[i];
        AllStillHold(g, methods, texts, sealed, |methods|, j);
      } else {
        StrangerReadsNothing(g, methods, texts, sealed, |methods|, candidates[i]);
        EmptyUnframed();
      }
    }
    IdentifiesUsed(candidates, methods, text);
  }

  lemma LayeredLength(g: Geometry, methods: seq<Carrier>, texts: seq<string>, sealed: Sealed)
    requires Layered(g, methods, texts, sealed)
    ensures |texts| == |methods| + 1
  {
  }

  /** What a decode that found the secret says. */
  ghost predicate Delivers(t: TracedDecode, hidden: seq<byte>, used: seq<Carrier>, sealed: Sealed) {
    t.outcome == Ok(Decoding.DecodeResult(hidden, Dedup(Ids(used)), CipherNamed(sealed.chain), true, [])) &&
    !t.recoveryMode && RunListed(t.waves, used, sealed.chain)
  }

  /**
   Whatever texts an encoder went through, its last one decodes to exactly the secret, for every non-empty choice of
   the stack's carriers, in any order, with any strangers beside them.
   */
  lemma LayeredDecodes(g: Geometry, reader: Reader, methods: seq<Carrier>, texts: seq<string>, hidden: seq<byte>,
                       crypto: Option<Choice>, salt: Salt, nonce: nat, sealed: Sealed, candidates: seq<Carrier>)
    requires Inserting(methods) && Layered(g, methods, texts, sealed) && Offers(candidates, methods, texts[0])
    requires Invertible(reader.keyed, crypto) && Offered(crypto, reader.ciphers, reader.password)
    requires Seal(reader.keyed, hidden, crypto, salt, nonce) == Ok(sealed)
    ensures Delivers(Decoded(reader, texts[|methods|], candidates), hidden, Used(candidates, methods), sealed)
  {
    hide Layered, Holds, Invertible, Offered, Seal, ReadPositions, Cascade, RunListed, Separate, RewritesVisibleText,
         Envelopes.Parse, Envelopes.ToBytes, Recovered, Stranger, Identified, Dedup, CipherNamed;
    LayeredLength(g, methods, texts, sealed);
    var text := texts[|methods|];
    forall j | 0 <= j < |methods|
      ensures Holds(ReadPositions(methods[j], text), sealed)
    {
      AllStillHold(g, methods, texts, sealed, |methods|, j);
    }
    CandidatesIdentified(g, methods, texts, sealed, candidates);
    var used := Used(candidates, methods);
    UsedDistinct(candidates, methods);
    forall c: Carrier
      ensures c in used <==> c in candidates && c in methods
    {
      UsedMembers(candidates, methods, c);
    }
    HeldDecodes(reader, used, methods, text, hidden, crypto, salt, nonce, sealed);
    CascadeExplains(reader, used, text);
  }

  /** The texts the encode loop goes through. */
  ghost function StackTexts(g: Geometry, methods: seq<Carrier>, cover: string, sealed: Sealed,
                            mission: Option<Mission>, mode: FrameMode): (texts: seq<string>)
    requires StackUpTo(g, methods, cover, sealed, mission, mode, |methods|).Ok?
    ensures |texts| == |methods| + 1 && forall i :: 0 <= i <= |methods| ==>
              StackUpTo(g, methods, cover, sealed, mission, mode, i).Ok? &&
              texts[i] == StackUpTo(g, methods, cover, sealed, mission, mode, i).value.text
  {
    assert forall i | 0 <= i <= |methods| :: StackUpTo(g, methods, cover, sealed, mission, mode, i).Ok? by {
      hide AddLayer;
      forall i | 0 <= i <= |methods|
        ensures StackUpTo(g, methods, cover, sealed, mission, mode, i).Ok?
      {
        StackStops(g, methods, cover, sealed, mission, mode, i, |methods|);
      }
    }
    seq(|methods| + 1, i requires 0 <= i <= |methods| =>
      StackUpTo(g, methods, cover, sealed, mission, mode, i).value.text)
  }

  lemma StepWrote(g: Geometry, c: Carrier, below: Stack, sealed: Sealed, mission: Option<Mission>, mode: FrameMode)
    requires c.WellFormed() && !RewritesVisibleText(c) && AddLayer(g, c, below, sealed, mission, mode).Ok?
    ensures Wrote(g, c, below.text, AddLayer(g, c, below, sealed, mission, mode).value.text, sealed)
  {
    hide AddLayer, Holds, RewritesVisibleText, ReadPositions, Place, SequenceFrom, CheckWritable, Sealed.Envelope;
    var bits := LayerWritten(g, c, below, sealed, mission, mode);
    ReadAfterWrite(g, c, below.text, bits);
  }

  lemma StackLayer(g: Geometry, methods: seq<Carrier>, cover: string, sealed: Sealed,
                   mission: Option<Mission>, mode: FrameMode, i: nat)
    requires Inserting(methods) && StackUpTo(g, methods, cover, sealed, mission, mode, |methods|).Ok? && i < |methods|
    ensures var texts := StackTexts(g, methods, cover, sealed, mission, mode);
            Wrote(g, methods[i], texts[i], texts[i + 1], sealed)
  {
    hide AddLayer, RewritesVisibleText, Separate, Wrote, Sealed.Envelope;
    assert StackUpTo(g, methods, cover, sealed, mission, mode, i + 1).Ok? by {
      StackStops(g, methods, cover, sealed, mission, mode, i + 1, |methods|);
    }
    var below := StackUpTo(g, methods, cover, sealed, mission, mode, i).value;
    StepWrote(g, methods[i], below, sealed, mission, mode);
  }

  /** The encode loop writes layer upon layer. */
  lemma StackLayers(g: Geometry, methods: seq<Carrier>, cover: string, sealed: Sealed,
                    mission: Option<Mission>, mode: FrameMode)
    requires Inserting(methods) && StackUpTo(g, methods, cover, sealed, mission, mode, |methods|).Ok?
    ensures var texts := StackTexts(g, methods, cover, sealed, mission, mode);
            texts[0] == cover && Layered(g, methods, texts, sealed)
  {
    hide Inserting, Wrote, Sealed.Envelope, StackTexts;
    var texts := StackTexts(g, methods, cover, sealed, mission, mode);
    forall i | 0 <= i < |methods|
      ensures Wrote(g, methods[i], texts[i], texts[i + 1], sealed)
    {
      StackLayer(g, methods, cover, sealed, mission, mode, i);
    }
  }

  /**
   The stack round trip. Whatever was encoded through a legal stack of inserting carriers decodes to exactly
   the secret, for every non-empty choice of the stack's carriers, in any order, with any strangers beside them.
   */
  lemma StackRoundTrip(g: Geometry, reader: Reader, cover: string, hidden: seq<byte>, methods: seq<Carrier>,
                       crypto: Option<Choice>, mission: Option<Mission>, mode: FrameMode, salt: Salt, nonce: nat,
                       candidates: seq<Carrier>)
    requires Inserting(methods) && Offers(candidates, methods, cover)
    requires Invertible(reader.keyed, crypto) && Offered(crypto, reader.ciphers, reader.password)
    requires Encoding.Encode(g, reader.keyed, cover, hidden, methods, crypto, mission, mode, salt, nonce).Ok?
    ensures var keyed := reader.keyed;
            var stego := Encoding.Encode(g, keyed, cover, hidden, methods, crypto, mission, mode, salt, nonce).value;
            Delivers(Decoded(reader, stego.stegoText, candidates), hidden, Used(candidates, methods),
                     Seal(reader.keyed, hidden, crypto, salt, nonce).value)
  {
    hide StackUpTo, Layered, Invertible, Offered, Seal, Decoded, Delivers, Separate, Stranger, Offers, Sealed.Envelope,
         RewritesVisibleText, Envelopes.Parse, ValidateStack;
    var sealed := Seal(reader.keyed, hidden, crypto, salt, nonce).value;
    StackLayers(g, methods, cover, sealed, mission, mode);
    LayeredDecodes(g, reader, methods, StackTexts(g, methods, cover, sealed, mission, mode), hidden, crypto, salt,
                   nonce, sealed, candidates);
  }

  // ─── The texts on the way back ───

  ghost predicate StripsNoneOf(a: Carrier, b: Carrier) {
    forall ch :: a.Strips(ch) ==> !b.InChannel(ch)
  }

  /** No carrier strips another's characters. */
  ghost predicate NoneStripsAnother(methods: seq<Carrier>) {
    forall i, j :: 0 <= i < |methods| && 0 <= j < |methods| && i != j ==> StripsNoneOf(methods[i], methods[j])
  }

  /** The text holds none of the characters the carrier strips beside its alphabet. */
  ghost predicate Untouched(text: string, c: Carrier) {
    forall k :: 0 <= k < |text| ==> text[k] !in c.alsoStrips
  }

  ghost predicate Clean(cover: string, methods: seq<Carrier>) {
    forall i :: 0 <= i < |methods| ==> Untouched(cover, methods[i])
  }

  /** What carrier `i` strips beside its alphabet is, in the text it is written into, what it was in the cover. */
  lemma {:induction false} StrippedBeforeWriting(g: Geometry, methods: seq<Carrier>, texts: seq<string>, sealed: Sealed,
                                                 n: nat, i: nat, p: char -> bool)
    requires Layered(g, methods, texts, sealed) && NoneStripsAnother(methods) && n <= i < |methods|
    requires forall ch :: p(ch) <==> ch in methods[i].alsoStrips
    ensures Keep(texts[n], p) == Keep(texts[0], p)
    decreases n
  {
    hide Holds, Place, SequenceFrom, CheckWritable, Keep;
    if n == 0 {
    } else {
      StrippedBeforeWriting(g, methods, texts, sealed, n - 1, i, p);
      assert Wrote(g, methods[n - 1], texts[n - 1], texts[n], sealed);
      PlacedKeeps(g, methods[i], methods[n - 1], texts[n - 1], ReadPositions(methods[n - 1], texts[n]), p);
    }
  }

  lemma PlacedKeeps(g: Geometry, c: Carrier, other: Carrier, text: string, bits: seq<bool>, p: char -> bool)
    requires StripsNoneOf(c, other)
    requires forall ch :: p(ch) ==> ch in c.alsoStrips
    ensures Keep(Place(g, text, SequenceFrom(other, bits, 0)), p) == Keep(text, p)
  {
    SequenceInChannel(other, bits, 0);
    PlacedHidden(g, text, 0, SequenceFrom(other, bits, 0), p);
    assert text[0..] == text;
  }

  lemma FreeAlike(a: string, b: string, p: char -> bool)
    requires Keep(a, p) == Keep(b, p)
    ensures (forall k :: 0 <= k < |a| ==> !p(a[k])) <==> (forall k :: 0 <= k < |b| ==> !p(b[k]))
  {
    if forall k :: 0 <= k < |a| ==> !p(a[k]) {
      KeepNone(a, p);
      EmptyKeep(b, p);
    }
    if forall k :: 0 <= k < |b| ==> !p(b[k]) {
      KeepNone(b, p);
      EmptyKeep(a, p);
    }
  }

  /**
   Stripping carrier `i` off its own output gives its input back exactly when the cover has nothing it also
   strips.
   */
  lemma StepBack(g: Geometry, methods: seq<Carrier>, texts: seq<string>, sealed: Sealed, i: nat)
    requires Layered(g, methods, texts, sealed) && NoneStripsAnother(methods) && i < |methods|
    ensures Strip(methods[i], texts[i + 1]) == texts[i] <==> Untouched(texts[0], methods[i])
  {
    hide Holds, Place, SequenceFrom, CheckWritable, Keep;
    var p := ch => ch in methods[i].alsoStrips;
    StrippedBeforeWriting(g, methods, texts, sealed, i, i, p);
    FreeAlike(texts[i], texts[0], p);
    assert Wrote(g, methods[i], texts[i], texts[i + 1], sealed);
    StripUndoesWrite(g, methods[i], texts[i], ReadPositions(methods[i], texts[i + 1]));
  }

  /**
   Peeled in the order they were applied, the texts on the way back are exactly the texts encode produced,
   down to the cover: if and only if the cover holds nothing a carrier strips beside its own alphabet.
   */
  lemma PeelsBack(g: Geometry, methods: seq<Carrier>, texts: seq<string>, sealed: Sealed)
    requires Layered(g, methods, texts, sealed) && NoneStripsAnother(methods)
    ensures (forall k :: 0 <= k <= |methods| ==> Below(methods, texts[|methods|], k) == texts[k])
            <==> Clean(texts[0], methods)
  {
    hide Strip, NoneStripsAnother, Untouched, Wrote;
    forall i | 0 <= i < |methods|
      ensures Strip(methods[i], texts[i + 1]) == texts[i] <==> Untouched(texts[0], methods[i])
    {
      StepBack(g, methods, texts, sealed, i);
    }
    if Clean(texts[0], methods) {
      forall k | 0 <= k <= |methods|
        ensures Below(methods, texts[|methods|], k) == texts[k]
      {
        BelowSteps(methods, texts, k);
      }
    }
    if forall k :: 0 <= k <= |methods| ==> Below(methods, texts[|methods|], k) == texts[k] {
      forall i | 0 <= i < |methods|
        ensures Untouched(texts[0], methods[i])
      {
        assert Below(methods, texts[|methods|], i) == Strip(methods[i], Below(methods, texts[|methods|], i + 1));
      }
    }
  }

  lemma {:induction false} BelowSteps(methods: seq<Carrier>, texts: seq<string>, k: nat)
    requires |texts| == |methods| + 1 && k <= |methods|
    requires forall i :: 0 <= i < |methods| ==> Strip(methods[i], texts[i + 1]) == texts[i]
    ensures Below(methods, texts[|methods|], k) == texts[k]
    decreases |methods| - k
  {
    hide Strip;
    if k == |methods| {
    } else {
      BelowSteps(methods, texts, k + 1);
      assert Strip(methods[k], texts[k + 1]) == texts[k];
    }
  }

  // ─── The carriers the program has ───

  /** Any stack of the three inserting carriers, none twice, meets what the round trip asks. */
  lemma RealStacksQualify(methods: seq<Carrier>)
    requires forall i :: 0 <= i < |methods| ==> methods[i] in {ZERO_WIDTH, WHITESPACE_VAR, BIDI}
    requires Distinct(methods)
    ensures Inserting(methods) && NoneStripsAnother(methods) && ValidateStack(methods).Ok?
  {
    hide RewritesVisibleText, Carrier.WellFormed, ValidateStack;
    RealStacksLegal(methods);
    forall i | 0 <= i < |methods|
      ensures methods[i].WellFormed() && !RewritesVisibleText(methods[i])
    {
      RealCarrierInvisible(methods[i]);
    }
    forall i, j | 0 <= i < |methods| && 0 <= j < |methods| && i != j
      ensures Separate(methods[i], methods[j]) && StripsNoneOf(methods[i], methods[j])
    {
      PairDisjoint(methods[i], methods[j]);
      PairDisjoint(methods[j], methods[i]);
    }
  }
}
