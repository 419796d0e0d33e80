/** Decoding as a traced cascade: one wave a step, the first that fails halts the chain and is named. */
module Decoding {
  import opened Results
  import opened Bytes
  import opened Preambles
  import opened Envelopes
  import opened Carriers
  import opened Sealing
  import opened Layers
  import Heavy = HeavyFrames

  datatype Verdict = Passed | Failed | Undetermined

  datatype Wave = Wave(step: string, oracle: Oracle, verdict: Verdict)

  datatype Warning = SweptExplicitly | PreFormat(carrier: string, version: string)
                   | VersionMismatch(version: string) | ChecksumMismatch

  datatype DecodeResult = DecodeResult(hiddenData: seq<byte>, methodsDetected: seq<string>, cryptoUsed: Option<string>,
                                       integrityValid: bool, warnings: seq<Warning>)

  datatype TracedDecode = TracedDecode(outcome: Result<DecodeResult>, waves: seq<Wave>, recoveryMode: bool)

  /** A document written before the frame existed: its version, and the rest of its fields. */
  datatype Package = Package(version: string, body: seq<byte>)

  datatype Opened = Opened(plaintext: seq<byte>, cryptoUsed: Option<string>, integrityValid: bool)

  /** What a reader brings: ciphers, a passcode, and the pre-format package reader. */
  datatype Reader = Reader(keyed: Keyed, ciphers: seq<Cipher>, password: Option<string>,
                           packageOf: seq<byte> -> Option<Package>, open: Package -> Result<Opened>)

  const IDENTIFY := Wave("identify", Checksum, Passed)
  const PACKAGE_VERSION := "2.0"

  /** A stretch of the cascade: its waves and what it yields, nothing if its last wave halted it. */
  datatype Run<+T> = Run(waves: seq<Wave>, yielded: Option<T>)

  function Then<T>(first: seq<Wave>, rest: Run<T>): Run<T> {
    Run(first + rest.waves, rest.yielded)
  }

  /** The candidates that hold a frame of their own, in the caller's order. */
  function Identified(methods: seq<Carrier>, text: string): seq<Carrier> {
    if methods == [] then []
    else
      var last := methods[|methods| - 1];
      Identified(methods[..|methods| - 1], text) + if IsFramed(ReadPositions(last, text)) then [last] else []
  }

  /** Nothing is identified exactly when no candidate holds a frame. */
  lemma {:induction false} IdentifiedFramed(methods: seq<Carrier>, text: string)
    ensures forall i :: 0 <= i < |Identified(methods, text)| ==>
              Identified(methods, text)[i] in methods && IsFramed(ReadPositions(Identified(methods, text)[i], text))
    ensures Identified(methods, text) == [] <==>
            forall i :: 0 <= i < |methods| ==> !IsFramed(ReadPositions(methods[i], text))
  {
    hide IsFramed, ReadPositions;
    if methods == [] {
    } else {
      IdentifiedFramed(methods[..|methods| - 1], text);
    }
  }

  /** What all layers agreed on: the envelope bytes, and the salt of the deepest layer. */
  datatype Agreed = Agreed(envelope: seq<byte>, salt: Salt)

  function LayerWave(c: Carrier, verdict: Verdict): Wave {
    Wave(c.id, Checksum, verdict)
  }

  /** Peels the layers, last applied first; each must hold what the one above it held. */
  function Peel(identified: seq<Carrier>, text: string, above: Option<Agreed>): Run<Option<Agreed>> {
    if identified == [] then Run([], Some(above))
    else
      var c := identified[|identified| - 1];
      var contents := ReadLayer(c, text);
      if contents.Err? || (above.Some? && above.value.envelope != contents.value.payload)
      then Run([LayerWave(c, Failed)], None)
      else Then([LayerWave(c, Passed)],
                Peel(identified[..|identified| - 1], Strip(c, text),
                     Some(Agreed(contents.value.payload, contents.value.preamble.salt))))
  }

  datatype Reversion = Reversion(payload: seq<byte>, cryptoUsed: Option<string>)

  /** Reverts the chain, last step first. */
  function Revert(reader: Reader, chain: seq<ChainStep>, sofar: Reversion, salt: Salt): Run<Reversion> {
    if chain == [] then Run([], Some(sofar))
    else
      var id := chain[|chain| - 1].id;
      var r := RevertStep(reader.keyed, id, sofar.payload, reader.ciphers, reader.password, salt);
      if r.bytes.None? then Run([Wave(id, r.oracle, Failed)], None)
      else Then([Wave(id, r.oracle, Passed)],
                Revert(reader, chain[..|chain| - 1],
                       Reversion(r.bytes.value, if id != INTEGRITY_STEP then Some(id) else sofar.cryptoUsed), salt))
  }

  /** Consecutive equal names are reported once. */
  function Dedup(ids: seq<string>): seq<string> {
    if |ids| <= 1 then ids
    else if ids[|ids| - 1] == ids[|ids| - 2] then Dedup(ids[..|ids| - 1])
    else Dedup(ids[..|ids| - 1]) + [ids[|ids| - 1]]
  }

  /** The chain from the agreed bytes: the envelope wave, then its steps reverted. */
  function Open(reader: Reader, agreed: Agreed): Run<Reversion> {
    var envelope := Envelopes.Parse(agreed.envelope);
    if envelope.Err? then Run([Wave("envelope", NotApplicable, Failed)], None)
    else Then([Wave("envelope", NotApplicable, Passed)],
              Revert(reader, envelope.value.chain, Reversion(envelope.value.payload, None), agreed.salt))
  }

  function Halted(waves: seq<Wave>): TracedDecode
    requires waves != []
  {
    TracedDecode(Err(DecodingFailed(waves[|waves| - 1].step)), waves, false)
  }

  /** Did an exact oracle pass anything? */
  predicate JudgedExactly(waves: seq<Wave>) {
    exists i :: 0 <= i < |waves| && waves[i].verdict == Passed &&
      (waves[i].oracle == AeadTag || waves[i].oracle == Checksum)
  }

  function Succeeded(identified: seq<Carrier>, waves: seq<Wave>, r: Reversion): TracedDecode {
    TracedDecode(Ok(DecodeResult(r.payload, Dedup(Ids(identified)), r.cryptoUsed, JudgedExactly(waves), [])),
                 waves, false)
  }

  // ─── Recovery ───

  /** The bytes up to the last one that is not zero. */
  function TrimZeros(raw: seq<byte>): seq<byte> {
    if raw == [] then [] else if raw[|raw| - 1] != 0 then raw else TrimZeros(raw[..|raw| - 1])
  }

  /** The first candidate, from index `i` on, whose bytes are a pre-format package. */
  function PackageFrom(reader: Reader, methods: seq<Carrier>, text: string, i: nat): (r: Option<(Carrier, Package)>)
    ensures r.Some? ==> r.value.0 in methods
    decreases |methods| - i
  {
    if i >= |methods| then None
    else
      var raw := Decode(methods[i], text);
      if raw.Ok? && TrimZeros(raw.value) != [] && reader.packageOf(TrimZeros(raw.value)).Some?
      then Some((methods[i], reader.packageOf(TrimZeros(raw.value)).value))
      else PackageFrom(reader, methods, text, i + 1)
  }

  function SweepWave(verdict: Verdict): Wave {
    Wave("recovery_sweep", if verdict == Undetermined then NotApplicable else Checksum, verdict)
  }

  function RecoveredWith(reader: Reader, c: Carrier, package: Package): TracedDecode {
    var unpacked := reader.open(package);
    if unpacked.Err?
    then TracedDecode(Err(DecodingFailed("recovery_sweep")), [IDENTIFY, SweepWave(Failed)], true)
    else
      var Opened(plaintext, cryptoUsed, valid) := unpacked.value;
      var warnings := [SweptExplicitly, PreFormat(c.id, package.version)]
                      + (if package.version != PACKAGE_VERSION then [VersionMismatch(package.version)] else [])
                      + (if !valid then [ChecksumMismatch] else []);
      TracedDecode(Ok(DecodeResult(plaintext, [c.id], cryptoUsed, valid, warnings)),
                   [IDENTIFY, SweepWave(Passed)], true)
  }

  function Recovered(reader: Reader, methods: seq<Carrier>, text: string): TracedDecode {
    var found := PackageFrom(reader, methods, text, 0);
    if found.None? then TracedDecode(Err(NothingDetected), [IDENTIFY, SweepWave(Undetermined)], true)
    else RecoveredWith(reader, found.value.0, found.value.1)
  }

  /** The cascade after identification. */
  function Cascade(reader: Reader, identified: seq<Carrier>, text: string): TracedDecode
    requires identified != []
  {
    var layers := Peel(identified, text, None);
    PeelAgrees(identified, text, None);
    if layers.yielded.None? then Halted([IDENTIFY] + layers.waves)
    else
      var unpacked := Open(reader, layers.yielded.value.value);
      var waves := [IDENTIFY] + layers.waves + unpacked.waves;
      if unpacked.yielded.None? then Halted(waves) else Succeeded(identified, waves, unpacked.yielded.value)
  }

  lemma {:induction false} PeelAgrees(identified: seq<Carrier>, text: string, above: Option<Agreed>)
    ensures var r := Peel(identified, text, above).yielded;
            r.Some? && (identified != [] || above.Some?) ==> r.value.Some?
    decreases identified
  {
    if identified == [] {
    } else {
      var n := |identified| - 1;
      var c := identified[n];
      var contents := ReadLayer(c, text);
      if contents.Ok? {
        PeelAgrees(identified[..n], Strip(c, text),
                   Some(Agreed(contents.value.payload, contents.value.preamble.salt)));
      }
    }
  }

  function Decoded(reader: Reader, text: string, methods: seq<Carrier>): TracedDecode {
    if methods == [] then TracedDecode(Err(InvalidInput), [], false)
    else
      var identified := Identified(methods, text);
      if identified == [] then Recovered(reader, methods, text) else Cascade(reader, identified, text)
  }

  // ─── The cascade as it runs ───

  lemma Appended(waves: seq<Wave>, w: Wave, rest: seq<Wave>)
    ensures waves + ([w] + rest) == (waves + [w]) + rest
  {
  }

  lemma DropLast<T>(s: seq<T>, n: nat)
    requires 0 < n <= |s|
    ensures s[..n][..n - 1] == s[..n - 1] && s[..n][n - 1] == s[n - 1]
  {
  }

  /** The layer loop: read, compare, record, strip. */
  method PeelLayers(identified: seq<Carrier>, stegoText: string, before: seq<Wave>)
    returns (waves: seq<Wave>, yielded: Option<Option<Agreed>>)
    ensures Run(waves, yielded) == Then(before, Peel(identified, stegoText, None))
  {
    hide ReadLayer, Strip;
    waves := before;
    var text := stegoText;
    var agreed: Option<Agreed> := None;
    var left := |identified|;
    ghost var goal := Then(before, Peel(identified, stegoText, None));
    assert identified[..left] == identified;
    while left > 0
      invariant 0 <= left <= |identified|
      invariant goal == Then(waves, Peel(identified[..left], text, agreed))
    {
      DropLast(identified, left);
      left := left - 1;
      var c := identified[left];
      var contents := ReadLayer(c, text);
      if contents.Err? {
        return waves + [LayerWave(c, Failed)], None;
      }
      if agreed.Some? && agreed.value.envelope != contents.value.payload {
        return waves + [LayerWave(c, Failed)], None;
      }
      ghost var above := agreed;
      agreed := Some(Agreed(contents.value.payload, contents.value.preamble.salt));
      Appended(waves, LayerWave(c, Passed), Peel(identified[..left], Strip(c, text), agreed).waves);
      waves := waves + [LayerWave(c, Passed)];
      text := Strip(c, text);
    }
    assert waves + [] == waves;
    yielded := Some(agreed);
  }

  /** The chain loop: revert, record, and note the cipher. */
  method RevertSteps(reader: Reader, chain: seq<ChainStep>, sealedPayload: seq<byte>, salt: Salt, before: seq<Wave>)
    returns (waves: seq<Wave>, yielded: Option<Reversion>)
    ensures Run(waves, yielded) == Then(before, Revert(reader, chain, Reversion(sealedPayload, None), salt))
  {
    hide RevertStep;
    waves := before;
    var payload := sealedPayload;
    var cryptoUsed: Option<string> := None;
    var left := |chain|;
    ghost var goal := Then(before, Revert(reader, chain, Reversion(sealedPayload, None), salt));
    assert chain[..left] == chain;
    while left > 0
      invariant 0 <= left <= |chain|
      invariant goal == Then(waves, Revert(reader, chain[..left], Reversion(payload, cryptoUsed), salt))
    {
      DropLast(chain, left);
      left := left - 1;
      var id := chain[left].id;
      var r := RevertStep(reader.keyed, id, payload, reader.ciphers, reader.password, salt);
      if r.bytes.None? {
        return waves + [Wave(id, r.oracle, Failed)], None;
      }
      if id != INTEGRITY_STEP {
        cryptoUsed := Some(id);
      }
      payload := r.bytes.value;
      Appended(waves, Wave(id, r.oracle, Passed),
               Revert(reader, chain[..left], Reversion(payload, cryptoUsed), salt).waves);
      waves := waves + [Wave(id, r.oracle, Passed)];
    }
    assert waves + [] == waves;
    yielded := Some(Reversion(payload, cryptoUsed));
  }

  /** The recovery sweep: the first candidate that yields a package decides. */
  method Recover(reader: Reader, methods: seq<Carrier>, text: string) returns (r: TracedDecode)
    ensures r == Recovered(reader, methods, text)
  {
    hide Decode, TrimZeros, RecoveredWith;
    for i := 0 to |methods|
      invariant PackageFrom(reader, methods, text, 0) == PackageFrom(reader, methods, text, i)
    {
      var raw := Decode(methods[i], text);
      if raw.Ok? {
        var trimmed := TrimZeros(raw.value);
        if trimmed != [] {
          var package := reader.packageOf(trimmed);
          if package.Some? {
            return RecoveredWith(reader, methods[i], package.value);
          }
        }
      }
    }
    r := TracedDecode(Err(NothingDetected), [IDENTIFY, SweepWave(Undetermined)], true);
  }

  /** The whole cascade: identify, peel, open the envelope, revert the chain. */
  method DecodeTraced(reader: Reader, stegoText: string, methods: seq<Carrier>) returns (r: TracedDecode)
    ensures r == Decoded(reader, stegoText, methods)
  {
    hide Peel, Revert, Identified, Recovered, Envelopes.Parse, JudgedExactly, Dedup;
    if methods == [] {
      return TracedDecode(Err(InvalidInput), [], false);
    }
    var identified := Identified(methods, stegoText);
    if identified == [] {
      r := Recover(reader, methods, stegoText);
      return;
    }
    PeelAgrees(identified, stegoText, None);
    var waves, layers := PeelLayers(identified, stegoText, [IDENTIFY]);
    if layers.None? {
      return Halted(waves);
    }
    var agreed := layers.value.value;
    var envelope := Envelopes.Parse(agreed.envelope);
    if envelope.Err? {
      return Halted(waves + [Wave("envelope", NotApplicable, Failed)]);
    }
    ghost var chain := Revert(reader, envelope.value.chain, Reversion(envelope.value.payload, None), agreed.salt);
    Appended(waves, Wave("envelope", NotApplicable, Passed), chain.waves);
    waves := waves + [Wave("envelope", NotApplicable, Passed)];
    var all, yielded := RevertSteps(reader, envelope.value.chain, envelope.value.payload, agreed.salt, waves);
    if yielded.None? {
      return Halted(all);
    }
    r := Succeeded(identified, all, yielded.value);
  }
}
