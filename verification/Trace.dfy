/** What every decode trace says, whatever the text, the carriers and the reader. */
module Traces {
  import opened Results
  import opened Bytes
  import opened Envelopes
  import opened Carriers
  import opened Sealing
  import opened Layers
  import opened Decoding
  import Heavy = HeavyFrames

  ghost predicate AllPassed(waves: seq<Wave>) {
    forall i :: 0 <= i < |waves| ==> waves[i].verdict == Passed
  }

  /** Every wave before the last passed, and the last one failed. */
  ghost predicate EndsFailed(waves: seq<Wave>) {
    waves != [] && waves[|waves| - 1].verdict == Failed && AllPassed(waves[..|waves| - 1])
  }

  /** A stretch yields something exactly when all its waves passed; otherwise its last one failed. */
  ghost predicate Sound<T>(r: Run<T>) {
    if r.yielded.Some? then AllPassed(r.waves) else EndsFailed(r.waves)
  }

  lemma ThenSound<T>(first: seq<Wave>, rest: Run<T>)
    requires AllPassed(first) && Sound(rest)
    ensures Sound(Then(first, rest))
  {
    var waves := first + rest.waves;
    if rest.yielded.None? {
      assert waves[..|waves| - 1] == first + rest.waves[..|rest.waves| - 1];
    }
  }

  lemma {:induction false} PeelSound(identified: seq<Carrier>, text: string, above: Option<Agreed>)
    ensures Sound(Peel(identified, text, above))
    decreases identified
  {
    hide ReadLayer, Strip;
    if identified == [] {
    } else {
      var n := |identified| - 1;
      var c := identified[n];
      var contents := ReadLayer(c, text);
      if contents.Ok? && (above.Some? ==> above.value.envelope == contents.value.payload) {
        var next := Some(Agreed(contents.value.payload, contents.value.preamble.salt));
        PeelSound(identified[..n], Strip(c, text), next);
        ThenSound([LayerWave(c, Passed)], Peel(identified[..n], Strip(c, text), next));
      }
    }
  }

  lemma {:induction false} RevertSound(reader: Reader, chain: seq<ChainStep>, sofar: Reversion, salt: Preambles.Salt)
    ensures Sound(Revert(reader, chain, sofar, salt))
    decreases chain
  {
    hide RevertStep;
    if chain == [] {
    } else {
      var n := |chain| - 1;
      var id := chain[n].id;
      var r := RevertStep(reader.keyed, id, sofar.payload, reader.ciphers, reader.password, salt);
      if r.bytes.Some? {
        var next := Reversion(r.bytes.value, if id != INTEGRITY_STEP then Some(id) else sofar.cryptoUsed);
        RevertSound(reader, chain[..n], next, salt);
        ThenSound([Wave(id, r.oracle, Passed)], Revert(reader, chain[..n], next, salt));
      }
    }
  }

  lemma OpenSound(reader: Reader, agreed: Agreed)
    ensures Sound(Open(reader, agreed))
  {
    hide Envelopes.Parse, Revert;
    var envelope := Envelopes.Parse(agreed.envelope);
    if envelope.Ok? {
      var sofar := Reversion(envelope.value.payload, None);
      RevertSound(reader, envelope.value.chain, sofar, agreed.salt);
      ThenSound([Wave("envelope", NotApplicable, Passed)], Revert(reader, envelope.value.chain, sofar, agreed.salt));
    }
  }

  /** What holds of every trace. */
  ghost predicate Explains(t: TracedDecode) {
    (t.outcome.Ok? <==> t.waves != [] && AllPassed(t.waves)) &&
    (forall i :: 0 <= i < |t.waves| && t.waves[i].verdict == Failed ==>
       i == |t.waves| - 1 && t.outcome == Err(DecodingFailed(t.waves[i].step))) &&
    (forall i :: 0 <= i < |t.waves| && t.waves[i].verdict == Undetermined ==>
       i == |t.waves| - 1 && t.outcome == Err(NothingDetected)) &&
    (t.outcome.Err? && t.outcome.error.DecodingFailed? ==> EndsFailed(t.waves))
  }

  lemma HaltExplains(waves: seq<Wave>)
    requires EndsFailed(waves)
    ensures Explains(Halted(waves))
  {
    forall i | 0 <= i < |waves| - 1
      ensures waves[i].verdict == Passed
    {
      assert waves[..|waves| - 1][i] == waves[i];
    }
  }

  lemma CascadeExplains(reader: Reader, identified: seq<Carrier>, text: string)
    requires identified != []
    ensures Explains(Cascade(reader, identified, text)) && !Cascade(reader, identified, text).recoveryMode
    ensures Cascade(reader, identified, text).waves != []
  {
    hide Peel, Open, Explains, Dedup, JudgedExactly;
    PeelAgrees(identified, text, None);
    var layers := Peel(identified, text, None);
    PeelSound(identified, text, None);
    ThenSound([IDENTIFY], layers);
    if layers.yielded.None? {
      HaltExplains([IDENTIFY] + layers.waves);
    } else {
      var rest := Open(reader, layers.yielded.value.value);
      OpenSound(reader, layers.yielded.value.value);
      ThenSound([IDENTIFY] + layers.waves, rest);
      if rest.yielded.None? {
        HaltExplains([IDENTIFY] + layers.waves + rest.waves);
      } else {
        SuccessExplains(identified, [IDENTIFY] + layers.waves + rest.waves, rest.yielded.value);
      }
    }
  }

  lemma SuccessExplains(identified: seq<Carrier>, waves: seq<Wave>, r: Reversion)
    requires waves != [] && AllPassed(waves)
    ensures Explains(Succeeded(identified, waves, r))
  {
  }

  lemma RecoveryExplains(reader: Reader, methods: seq<Carrier>, text: string)
    ensures var t := Recovered(reader, methods, text);
            Explains(t) && t.recoveryMode && |t.waves| == 2 && t.waves[0] == IDENTIFY &&
            t.waves[1].step == "recovery_sweep"
    ensures var t := Recovered(reader, methods, text);
            t.outcome.Ok? ==> t.outcome.value.warnings != [] && t.outcome.value.warnings[0] == SweptExplicitly
  {
    hide PackageFrom;
    var t := Recovered(reader, methods, text);
    assert t.waves[..1] == [IDENTIFY];
    assert (t.outcome.Ok? <==> t.waves[1].verdict == Passed);
    assert AllPassed(t.waves) <==> t.waves[1].verdict == Passed;
    assert t.waves[1].verdict == Failed ==> t.outcome == Err(DecodingFailed("recovery_sweep"));
    assert t.waves[1].verdict == Undetermined ==> t.outcome == Err(NothingDetected);
    assert t.outcome.Err? && t.outcome.error.DecodingFailed? ==> EndsFailed(t.waves);
  }

  // ─── What recovery delivers ───

  /** `raw` is `t` and then zeros, and `t` does not end in one. */
  ghost predicate Pads(raw: seq<byte>, t: seq<byte>) {
    0 < |t| <= |raw| && raw[..|t|] == t && t[|t| - 1] != 0 && forall k :: |t| <= k < |raw| ==> raw[k] == 0
  }

  /** The bytes a carrier spells are a pre-format package, zeros behind it aside. */
  ghost predicate Carries(reader: Reader, c: Carrier, text: string, t: seq<byte>) {
    Decode(c, text).Ok? && Pads(Decode(c, text).value, t) && reader.packageOf(t).Some?
  }

  lemma {:induction false} TrimIs(raw: seq<byte>, t: seq<byte>)
    ensures Pads(raw, t) <==> t != [] && TrimZeros(raw) == t
    decreases |raw|
  {
    if raw == [] {
    } else {
      var n := |raw| - 1;
      if raw[n] != 0 {
        assert raw[..|raw|] == raw;
        if Pads(raw, t) {
          assert |t| == |raw|;
        }
      } else {
        TrimIs(raw[..n], t);
        if Pads(raw, t) {
          assert t[|t| - 1] == raw[|t| - 1];
          assert raw[..n][..|t|] == raw[..|t|];
        }
        if Pads(raw[..n], t) {
          assert raw[..n][..|t|] == raw[..|t|];
          assert forall k :: |t| <= k < n ==> raw[k] == raw[..n][k];
        }
      }
    }
  }

  /** The sweep stops at the first candidate that carries a package. */
  lemma {:induction false} SweepFinds(reader: Reader, methods: seq<Carrier>, text: string, from: nat, i: nat,
                                      t: seq<byte>)
    requires from <= i < |methods| && Carries(reader, methods[i], text, t)
    requires forall j, u :: from <= j < i ==> !Carries(reader, methods[j], text, u)
    ensures PackageFrom(reader, methods, text, from) == Some((methods[i], reader.packageOf(t).value))
    decreases i - from
  {
    hide Decode, TrimZeros, Pads;
    var raw := Decode(methods[from], text);
    if from == i {
      TrimIs(raw.value, t);
    } else {
      if raw.Ok? {
        TrimIs(raw.value, TrimZeros(raw.value));
        assert !Carries(reader, methods[from], text, TrimZeros(raw.value));
      }
      SweepFinds(reader, methods, text, from + 1, i, t);
    }
  }

  lemma {:induction false} SweepFindsNothing(reader: Reader, methods: seq<Carrier>, text: string, from: nat)
    requires forall j, u :: from <= j < |methods| ==> !Carries(reader, methods[j], text, u)
    ensures PackageFrom(reader, methods, text, from) == None
    decreases |methods| - from
  {
    hide Decode, TrimZeros, Pads;
    if from >= |methods| {
    } else {
      var raw := Decode(methods[from], text);
      if raw.Ok? {
        TrimIs(raw.value, TrimZeros(raw.value));
        assert !Carries(reader, methods[from], text, TrimZeros(raw.value));
      }
      SweepFindsNothing(reader, methods, text, from + 1);
    }
  }

  ghost predicate NoneFramed(methods: seq<Carrier>, text: string) {
    forall i :: 0 <= i < |methods| ==> !IsFramed(ReadPositions(methods[i], text))
  }

  /** What a recovered document says: exactly the opened package, under the carrier it was found in. */
  ghost predicate Recovers(r: DecodeResult, id: string, version: string, unpacked: Opened) {
    r.hiddenData == unpacked.plaintext && r.methodsDetected == [id] && r.cryptoUsed == unpacked.cryptoUsed &&
    r.integrityValid == unpacked.integrityValid &&
    |r.warnings| >= 2 && r.warnings[0] == SweptExplicitly && r.warnings[1] == PreFormat(id, version) &&
    (VersionMismatch(version) in r.warnings <==> version != "2.0") &&
    (ChecksumMismatch in r.warnings <==> !unpacked.integrityValid)
  }

  /**
   With candidates and no frame, the first candidate that carries a package decides: the answer is what the package
   opens to, or the refusal to open it.
   */
  lemma RecoveryDelivers(reader: Reader, methods: seq<Carrier>, text: string, i: nat, t: seq<byte>)
    requires NoneFramed(methods, text) && i < |methods| && Carries(reader, methods[i], text, t)
    requires forall j, u :: 0 <= j < i ==> !Carries(reader, methods[j], text, u)
    ensures var package := reader.packageOf(t).value;
            var r := Decoded(reader, text, methods);
            var sweep := Wave("recovery_sweep", Checksum, if reader.open(package).Ok? then Passed else Failed);
            r.recoveryMode && r.waves == [Wave("identify", Checksum, Passed), sweep] &&
            if reader.open(package).Ok?
            then r.outcome.Ok? && Recovers(r.outcome.value, methods[i].id, package.version, reader.open(package).value)
            else r.outcome == Err(DecodingFailed("recovery_sweep"))
  {
    hide IsFramed, ReadPositions, Decode, Identified, PackageFrom, Cascade, Carries;
    IdentifiedFramed(methods, text);
    SweepFinds(reader, methods, text, 0, i, t);
  }

  /** And where no candidate carries one, nothing is detected, which is not a failure. */
  lemma RecoveryFindsNothing(reader: Reader, methods: seq<Carrier>, text: string)
    requires methods != [] && NoneFramed(methods, text)
    requires forall j, u :: 0 <= j < |methods| ==> !Carries(reader, methods[j], text, u)
    ensures Decoded(reader, text, methods) ==
            TracedDecode(Err(NothingDetected), [Wave("identify", Checksum, Passed),
                                                Wave("recovery_sweep", NotApplicable, Undetermined)], true)
  {
    hide IsFramed, ReadPositions, Decode, Identified, PackageFrom, Cascade, Carries;
    IdentifiedFramed(methods, text);
    SweepFindsNothing(reader, methods, text, 0);
  }

  /**
   Every run: success exactly when waves ran and all passed; a failed wave is unique, last and named by
   the error; recovery exactly when there were candidates and none holds a frame.
   */
  lemma TraceInvariant(reader: Reader, text: string, methods: seq<Carrier>)
    ensures var t := Decoded(reader, text, methods);
            Explains(t) && (t.waves == [] <==> methods == []) &&
            (t.recoveryMode <==>
             (methods != [] && forall i :: 0 <= i < |methods| ==> !IsFramed(ReadPositions(methods[i], text))))
  {
    hide IsFramed, ReadPositions, Cascade, Recovered;
    IdentifiedFramed(methods, text);
    if methods == [] {
    } else if Identified(methods, text) == [] {
      RecoveryExplains(reader, methods, text);
    } else {
      CascadeExplains(reader, Identified(methods, text), text);
    }
  }

  // ─── What success means ───

  /** The text below layer `k`'s upper neighbours: every later carrier stripped off. */
  function Below(identified: seq<Carrier>, text: string, k: nat): string
    requires k <= |identified|
    decreases |identified| - k
  {
    if k == |identified| then text else Strip(identified[k], Below(identified, text, k + 1))
  }

  function LayerAt(identified: seq<Carrier>, text: string, k: nat): Result<Heavy.FrameContents>
    requires k < |identified|
  {
    ReadLayer(identified[k], Below(identified, text, k + 1))
  }

  /** Every layer, read from the text below the ones above it, holds `envelope`. */
  ghost predicate AllHold(identified: seq<Carrier>, text: string, envelope: seq<byte>, n: nat)
    requires n <= |identified|
  {
    forall k :: 0 <= k < n ==>
      LayerAt(identified, text, k).Ok? && LayerAt(identified, text, k).value.payload == envelope
  }

  /** The waves of carriers that passed, last applied first. */
  ghost predicate LayersListed(waves: seq<Wave>, identified: seq<Carrier>, n: nat)
    requires n <= |identified|
  {
    |waves| == n && forall j :: 0 <= j < n ==> waves[j] == Wave(identified[n - 1 - j].id, Checksum, Passed)
  }

  lemma {:induction false} PeelMeaning(identified: seq<Carrier>, text: string, n: nat, above: Option<Agreed>,
                                       envelope: seq<byte>)
    requires n <= |identified| && (above.Some? ==> above.value.envelope == envelope)
    ensures var r := Peel(identified[..n], Below(identified, text, n), above);
            (AllHold(identified, text, envelope, n) ==>
               r.yielded.Some? && LayersListed(r.waves, identified, n) &&
               r.yielded.value == if n == 0 then above
                                 else Some(Agreed(envelope, LayerAt(identified, text, 0).value.preamble.salt))) &&
            (above.Some? && !AllHold(identified, text, envelope, n) ==> r.yielded.None?)
    decreases n
  {
    hide ReadLayer, Strip;
    if n == 0 {
    } else {
      DropLast(identified, n);
      var c := identified[n - 1];
      var contents := LayerAt(identified, text, n - 1);
      assert Below(identified, text, n - 1) == Strip(c, Below(identified, text, n));
      if contents.Ok? && contents.value.payload == envelope {
        var next := Some(Agreed(envelope, contents.value.preamble.salt));
        PeelMeaning(identified, text, n - 1, next, envelope);
      }
    }
  }

  /** Peeling yields the bytes all layers hold, and nothing when they hold different ones. */
  lemma PeelDecides(identified: seq<Carrier>, text: string)
    requires identified != []
    ensures var r := Peel(identified, text, None);
            var top := LayerAt(identified, text, |identified| - 1);
            (r.yielded.Some? <==> top.Ok? && AllHold(identified, text, top.value.payload, |identified|)) &&
            (r.yielded.Some? ==>
               (LayersListed(r.waves, identified, |identified|) && r.yielded.value ==
                Some(Agreed(top.value.payload, LayerAt(identified, text, 0).value.preamble.salt))))
  {
    hide ReadLayer, Strip;
    var n := |identified|;
    var top := LayerAt(identified, text, n - 1);
    assert identified[..n] == identified;
    if top.Ok? {
      PeelMeaning(identified, text, n, None, top.value.payload);
      PeelMeaning(identified, text, n - 1, Some(Agreed(top.value.payload, top.value.preamble.salt)), top.value.payload);
      assert Below(identified, text, n - 1) == Strip(identified[n - 1], text);
    }
  }

  /** The cipher a chain names: its first step that is not the checksum. */
  function CipherNamed(chain: seq<ChainStep>): Option<string> {
    if chain == [] then None else if chain[0].id != INTEGRITY_STEP then Some(chain[0].id) else CipherNamed(chain[1..])
  }

  lemma {:induction false} CipherNamedLast(chain: seq<ChainStep>)
    requires chain != []
    ensures var n := |chain| - 1;
            CipherNamed(chain) == if CipherNamed(chain[..n]).Some? then CipherNamed(chain[..n])
                                  else if chain[n].id != INTEGRITY_STEP then Some(chain[n].id) else None
  {
    var n := |chain| - 1;
    if n == 0 {
      assert chain[1..] == [];
    } else {
      assert chain[1..][..n - 1] == chain[..n][1..];
      CipherNamedLast(chain[1..]);
    }
  }

  /** What judges a step that passed: its own checksum, the cipher's tag, or nothing. */
  ghost function OracleOf(id: string): Oracle {
    if id == "crc32" then Checksum
    else if id == "aes256_gcm" || id == "aes128_gcm" || id == "chacha20_poly1305" then AeadTag
    else NotApplicable
  }

  lemma StepOracle(reader: Reader, id: string, payload: seq<byte>, salt: Preambles.Salt)
    ensures var r := RevertStep(reader.keyed, id, payload, reader.ciphers, reader.password, salt);
            r.bytes.Some? ==> r.oracle == OracleOf(id)
  {
  }

  ghost predicate StepsListed(waves: seq<Wave>, chain: seq<ChainStep>) {
    |waves| == |chain| &&
    forall j :: 0 <= j < |chain| ==>
      waves[j] == Wave(chain[|chain| - 1 - j].id, OracleOf(chain[|chain| - 1 - j].id), Passed)
  }

  lemma {:induction false} RevertMeaning(reader: Reader, chain: seq<ChainStep>, sofar: Reversion, salt: Preambles.Salt)
    ensures var r := Revert(reader, chain, sofar, salt);
            var plain := RevertChain(reader.keyed, chain, sofar.payload, reader.ciphers, reader.password, salt);
            (r.yielded.Some? <==> plain.Some?) &&
            (plain.Some? ==>
               (StepsListed(r.waves, chain) && r.yielded.value ==
                Reversion(plain.value, if CipherNamed(chain).Some? then CipherNamed(chain) else sofar.cryptoUsed)))
    decreases chain
  {
    hide RevertStep, OracleOf;
    if chain == [] {
    } else {
      var n := |chain| - 1;
      var id := chain[n].id;
      var r := RevertStep(reader.keyed, id, sofar.payload, reader.ciphers, reader.password, salt);
      StepOracle(reader, id, sofar.payload, salt);
      if r.bytes.Some? {
        var next := Reversion(r.bytes.value, if id != INTEGRITY_STEP then Some(id) else sofar.cryptoUsed);
        RevertMeaning(reader, chain[..n], next, salt);
        CipherNamedLast(chain);
      }
    }
  }

  /** What a run that reached the chain opened, if everything passed. */
  function Meaning(reader: Reader, identified: seq<Carrier>, text: string): Option<seq<byte>>
    requires identified != []
  {
    var top := LayerAt(identified, text, |identified| - 1);
    var bottom := LayerAt(identified, text, 0);
    if top.Err? || bottom.Err? then None
    else
      var envelope := Envelopes.Parse(top.value.payload);
      if envelope.Err? then None
      else RevertChain(reader.keyed, envelope.value.chain, envelope.value.payload, reader.ciphers, reader.password,
                       bottom.value.preamble.salt)
  }

  /** The steps of a whole successful run, in order. */
  ghost predicate RunListed(waves: seq<Wave>, identified: seq<Carrier>, chain: seq<ChainStep>) {
    var n := |identified|;
    |waves| == 2 + n + |chain| && waves[0] == Wave("identify", Checksum, Passed) &&
    waves[1 + n] == Wave("envelope", NotApplicable, Passed) &&
    LayersListed(waves[1..1 + n], identified, n) && StepsListed(waves[2 + n..], chain)
  }

  lemma RunLists(layers: seq<Wave>, steps: seq<Wave>, identified: seq<Carrier>, chain: seq<ChainStep>)
    requires LayersListed(layers, identified, |identified|) && StepsListed(steps, chain)
    ensures RunListed([IDENTIFY] + layers + ([Wave("envelope", NotApplicable, Passed)] + steps), identified, chain)
    ensures JudgedExactly([IDENTIFY] + layers + ([Wave("envelope", NotApplicable, Passed)] + steps))
  {
    var waves := [IDENTIFY] + layers + ([Wave("envelope", NotApplicable, Passed)] + steps);
    var n := |identified|;
    assert waves[0] == IDENTIFY && waves[1..1 + n] == layers && waves[2 + n..] == steps;
  }

  /**
   A cascade succeeds exactly when every layer holds the bytes the top one holds, those parse as an
   envelope and its chain reverts; then the result is what the chain reverts to, every wave is listed in
   order, the cipher named is the chain's and the integrity flag is set.
   */
  lemma CascadeDecides(reader: Reader, identified: seq<Carrier>, text: string)
    requires identified != []
    ensures var t := Cascade(reader, identified, text);
            var top := LayerAt(identified, text, |identified| - 1);
            t.outcome.Ok? <==> top.Ok? && AllHold(identified, text, top.value.payload, |identified|) &&
                               Meaning(reader, identified, text).Some?
    ensures var t := Cascade(reader, identified, text);
            var top := LayerAt(identified, text, |identified| - 1);
            t.outcome.Ok? ==>
              var d := t.outcome.value;
              var chain := Envelopes.Parse(top.value.payload).value.chain;
              Meaning(reader, identified, text) == Some(d.hiddenData) && d.cryptoUsed == CipherNamed(chain) &&
              d.integrityValid && d.methodsDetected == Dedup(Ids(identified)) && d.warnings == [] &&
              RunListed(t.waves, identified, chain)
  {
    hide Peel, Revert, LayerAt, Envelopes.Parse, JudgedExactly, RevertChain, Dedup, RunListed, CipherNamed;
    PeelAgrees(identified, text, None);
    PeelDecides(identified, text);
    var layers := Peel(identified, text, None);
    if layers.yielded.Some? {
      var agreed := layers.yielded.value.value;
      var envelope := Envelopes.Parse(agreed.envelope);
      if envelope.Ok? {
        var sofar := Reversion(envelope.value.payload, None);
        RevertMeaning(reader, envelope.value.chain, sofar, agreed.salt);
        var run := Revert(reader, envelope.value.chain, sofar, agreed.salt);
        if run.yielded.Some? {
          RunLists(layers.waves, run.waves, identified, envelope.value.chain);
        }
      }
    }
  }
  // ─── What failure names ───

  /** The waves of the carriers above layer `k` that passed, and of layer `k`, which did not. */
  ghost predicate StopsAt(waves: seq<Wave>, identified: seq<Carrier>, n: nat, k: nat)
    requires k < n <= |identified|
  {
    |waves| == n - k && waves[n - k - 1] == Wave(identified[k].id, Checksum, Failed) &&
    forall j :: 0 <= j < n - k - 1 ==> waves[j] == Wave(identified[n - 1 - j].id, Checksum, Passed)
  }

  /** Layers `from` up to `n` hold `envelope`. */
  ghost predicate HoldBetween(identified: seq<Carrier>, text: string, envelope: seq<byte>, from: nat, n: nat)
    requires n <= |identified|
  {
    forall j :: from <= j < n ==>
      LayerAt(identified, text, j).Ok? && LayerAt(identified, text, j).value.payload == envelope
  }

  lemma {:induction false} PeelStops(identified: seq<Carrier>, text: string, n: nat, above: Option<Agreed>,
                                     envelope: seq<byte>, k: nat)
    requires k < n <= |identified| && HoldBetween(identified, text, envelope, k + 1, n)
    requires above.Some? ==> above.value.envelope == envelope
    requires LayerAt(identified, text, k).Err? ||
             ((k + 1 < n || above.Some?) && LayerAt(identified, text, k).value.payload != envelope)
    ensures var r := Peel(identified[..n], Below(identified, text, n), above);
            r.yielded.None? && StopsAt(r.waves, identified, n, k)
    decreases n
  {
    hide ReadLayer, Strip;
    DropLast(identified, n);
    var c := identified[n - 1];
    var contents := LayerAt(identified, text, n - 1);
    assert Below(identified, text, n - 1) == Strip(c, Below(identified, text, n));
    if k < n - 1 {
      var next := Some(Agreed(envelope, contents.value.preamble.salt));
      PeelStops(identified, text, n - 1, next, envelope, k);
    }
  }

  /** The last applied layer that cannot be read, or differs from those above it, ends the run and names the error. */
  lemma LayerFailureNamed(reader: Reader, identified: seq<Carrier>, text: string, k: nat)
    requires k < |identified|
    requires var top := LayerAt(identified, text, |identified| - 1);
             (top.Ok? ==> HoldBetween(identified, text, top.value.payload, k + 1, |identified|) &&
                          (LayerAt(identified, text, k).Ok? ==>
                           LayerAt(identified, text, k).value.payload != top.value.payload)) &&
             (top.Err? ==> k == |identified| - 1)
    ensures var t := Cascade(reader, identified, text);
            t.outcome == Err(DecodingFailed(identified[k].id)) && !t.recoveryMode &&
            t.waves[0] == Wave("identify", Checksum, Passed) &&
            StopsAt(t.waves[1..], identified, |identified|, k)
  {
    hide LayerAt, Open;
    var n := |identified|;
    var top := LayerAt(identified, text, n - 1);
    PeelAgrees(identified, text, None);
    PeelStops(identified, text, n, None, if top.Ok? then top.value.payload else [], k);
    assert identified[..n] == identified && Below(identified, text, n) == text;
    var layers := Peel(identified, text, None);
    assert ([IDENTIFY] + layers.waves)[1..] == layers.waves;
  }

  /** What is left of a payload once the steps from `k` on are reverted, last first. */
  function RevertedTo(reader: Reader, chain: seq<ChainStep>, payload: seq<byte>, salt: Preambles.Salt, k: nat)
    : Option<seq<byte>>
    requires k <= |chain|
    decreases |chain| - k
  {
    if k == |chain| then Some(payload)
    else
      var behind := RevertedTo(reader, chain, payload, salt, k + 1);
      if behind.None? then None
      else RevertStep(reader.keyed, chain[k].id, behind.value, reader.ciphers, reader.password, salt).bytes
  }

  /** Everything behind step `k` reverts, and the step itself does not. */
  ghost predicate StepStops(reader: Reader, chain: seq<ChainStep>, payload: seq<byte>, salt: Preambles.Salt, k: nat) {
    k < |chain| && RevertedTo(reader, chain, payload, salt, k + 1).Some? &&
    RevertedTo(reader, chain, payload, salt, k).None?
  }

  lemma {:induction false} RevertStops(reader: Reader, chain: seq<ChainStep>, payload: seq<byte>, salt: Preambles.Salt,
                                       n: nat, sofar: Reversion, k: nat)
    requires k < n <= |chain| && RevertedTo(reader, chain, payload, salt, n) == Some(sofar.payload)
    requires StepStops(reader, chain, payload, salt, k)
    ensures var r := Revert(reader, chain[..n], sofar, salt);
            r.yielded.None? && |r.waves| == n - k && r.waves[n - k - 1].step == chain[k].id
    decreases n
  {
    hide RevertStep;
    RevertedSooner(reader, chain, payload, salt, k + 1, n);
    assert chain[..n][..n - 1] == chain[..n - 1];
    var id := chain[n - 1].id;
    var r := RevertStep(reader.keyed, id, sofar.payload, reader.ciphers, reader.password, salt);
    if k < n - 1 {
      RevertedSooner(reader, chain, payload, salt, k + 1, n - 1);
      var next := Reversion(r.bytes.value, if id != INTEGRITY_STEP then Some(id) else sofar.cryptoUsed);
      RevertStops(reader, chain, payload, salt, n - 1, next, k);
    }
  }

  lemma {:induction false} RevertedSooner(reader: Reader, chain: seq<ChainStep>, payload: seq<byte>,
                                          salt: Preambles.Salt, k: nat, n: nat)
    requires k <= n <= |chain| && RevertedTo(reader, chain, payload, salt, k).Some?
    ensures RevertedTo(reader, chain, payload, salt, n).Some?
    decreases n - k
  {
    hide RevertStep;
    if k < n {
      RevertedSooner(reader, chain, payload, salt, k + 1, n);
    }
  }

  /**
   Layers that agree on bytes that are no envelope fail there; a chain fails at its last step that will not
   revert.
   */
  lemma OpeningFailureNamed(reader: Reader, identified: seq<Carrier>, text: string, k: nat)
    requires identified != [] && LayerAt(identified, text, |identified| - 1).Ok?
    requires AllHold(identified, text, LayerAt(identified, text, |identified| - 1).value.payload, |identified|)
    ensures var envelope := Envelopes.Parse(LayerAt(identified, text, |identified| - 1).value.payload);
            var salt := LayerAt(identified, text, 0).value.preamble.salt;
            var t := Cascade(reader, identified, text);
            (envelope.Err? ==> t.outcome == Err(DecodingFailed("envelope"))) &&
            (envelope.Ok? ==>
             (var Envelope(_, chain, payload) := envelope.value;
              StepStops(reader, chain, payload, salt, k) ==> t.outcome == Err(DecodingFailed(chain[k].id))))
  {
    hide Peel, Revert, LayerAt, Envelopes.Parse, RevertedTo, LayersListed;
    PeelAgrees(identified, text, None);
    PeelDecides(identified, text);
    var agreed := Peel(identified, text, None).yielded.value.value;
    var envelope := Envelopes.Parse(agreed.envelope);
    if envelope.Ok? {
      var chain, payload := envelope.value.chain, envelope.value.payload;
      if StepStops(reader, chain, payload, agreed.salt, k) {
        NothingReverted(reader, chain, payload, agreed.salt);
        RevertStops(reader, chain, payload, agreed.salt, |chain|, Reversion(payload, None), k);
        assert chain[..|chain|] == chain;
      }
    }
  }

  lemma NothingReverted(reader: Reader, chain: seq<ChainStep>, payload: seq<byte>, salt: Preambles.Salt)
    ensures RevertedTo(reader, chain, payload, salt, |chain|) == Some(payload)
  {
  }

  // ─── The carriers named ───

  function Times(id: string, n: nat): seq<string> {
    if n == 0 then [] else Times(id, n - 1) + [id]
  }

  /** Every id as often as counted. */
  function Repeated(ids: seq<string>, counts: seq<nat>): seq<string>
    requires |ids| == |counts|
  {
    if ids == [] then []
    else
      var n := |ids| - 1;
      Repeated(ids[..n], counts[..n]) + Times(ids[n], counts[n])
  }

  ghost predicate NoTwins(ids: seq<string>) {
    forall i :: 0 <= i < |ids| - 1 ==> ids[i] != ids[i + 1]
  }

  ghost predicate AllPositive(counts: seq<nat>) {
    forall i :: 0 <= i < |counts| ==> counts[i] > 0
  }

  lemma RepeatedLast(ids: seq<string>, counts: seq<nat>, id: string, n: nat)
    requires |ids| == |counts|
    ensures Repeated(ids + [id], counts + [n]) == Repeated(ids, counts) + Times(id, n)
  {
    assert (ids + [id])[..|ids|] == ids && (counts + [n])[..|ids|] == counts;
  }

  lemma OnceMore(ids: seq<string>, counts: seq<nat>, id: string, n: nat)
    requires |ids| == |counts|
    ensures Repeated(ids + [id], counts + [n + 1]) == Repeated(ids + [id], counts + [n]) + [id]
  {
    hide Repeated;
    RepeatedLast(ids, counts, id, n);
    RepeatedLast(ids, counts, id, n + 1);
    Joins(Repeated(ids, counts), Times(id, n), [id]);
  }

  lemma Joins(a: seq<string>, b: seq<string>, c: seq<string>)
    ensures a + (b + c) == a + b + c
  {
  }

  /** The carriers named are those identified, neighbours that are the same named once. */
  lemma {:induction false} DedupIs(ids: seq<string>) returns (counts: seq<nat>)
    ensures NoTwins(Dedup(ids)) && |counts| == |Dedup(ids)| && AllPositive(counts)
    ensures Repeated(Dedup(ids), counts) == ids
    ensures ids != [] ==> Dedup(ids) != [] && Dedup(ids)[|Dedup(ids)| - 1] == ids[|ids| - 1]
    decreases ids
  {
    hide Repeated;
    var n := |ids| - 1;
    if ids == [] {
      counts := [];
      NothingRepeated();
    } else if n == 0 {
      counts := [1];
      NothingRepeated();
      RepeatedLast([], [], ids[0], 1);
      assert [] + [ids[0]] == ids && [] + [1] == counts && Times(ids[0], 1) == [] + [ids[0]];
    } else {
      var before := DedupIs(ids[..n]);
      var shorter := Dedup(ids[..n]);
      assert ids == ids[..n] + [ids[n]];
      if ids[n] == ids[n - 1] {
        var m := |shorter| - 1;
        assert shorter == shorter[..m] + [ids[n]] && before == before[..m] + [before[m]];
        OnceMore(shorter[..m], before[..m], ids[n], before[m]);
        counts := before[..m] + [before[m] + 1];
      } else {
        RepeatedLast(shorter, before, ids[n], 1);
        assert Times(ids[n], 1) == [] + [ids[n]];
        counts := before + [1];
      }
    }
  }

  lemma NothingRepeated()
    ensures Repeated([], []) == []
  {
  }
}
