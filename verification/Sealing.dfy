/** Sealing a secret into an envelope, and reverting the recorded chain step by step. */
module Sealing {
  import opened Results
  import opened Bytes
  import opened Checksums
  import opened Preambles
  import opened Envelopes

  const INTEGRITY_STEP := "crc32"
  const CRC32_LEN := 4
  const PROBE_LEN := 16

  type Key = seq<byte>

  /** A cipher with a password path: `encrypt(plaintext, password, randomness)` and its inverse. */
  datatype Cipher = Cipher(id: string, encrypt: (seq<byte>, string, nat) -> Result<seq<byte>>,
                           decrypt: (seq<byte>, string) -> Result<seq<byte>>)

  /** The keyed ciphers and the key derivation, by cipher id. */
  datatype Keyed = Keyed(encrypt: (string, seq<byte>, Key, nat) -> Result<seq<byte>>,
                         decrypt: (string, seq<byte>, Key) -> Result<seq<byte>>,
                         derive: (string, Salt) -> Result<Key>)

  datatype Choice = Choice(cipher: Cipher, password: string)

  predicate HasKeyedPath(id: string) {
    id in {"aes256_gcm", "aes128_gcm", "chacha20_poly1305"}
  }

  /** A cipher is applied when one is chosen and its passcode is not empty. */
  predicate Applies(crypto: Option<Choice>) {
    crypto.Some? && crypto.value.password != ""
  }

  /** The salt rides in the light frame exactly when a keyed cipher used it. */
  predicate FrameCarriesSalt(crypto: Option<Choice>) {
    Applies(crypto) && HasKeyedPath(crypto.value.cipher.id)
  }

  /** What decryption undoes: every successful encryption under the same key or password. */
  ghost predicate Invertible(keyed: Keyed, crypto: Option<Choice>) {
    (forall id, p, k, n :: keyed.encrypt(id, p, k, n).Ok? ==>
       keyed.decrypt(id, keyed.encrypt(id, p, k, n).value, k) == Ok(p)) &&
    (crypto.Some? ==> crypto.value.cipher.id != INTEGRITY_STEP) &&
    (crypto.Some? ==> forall p, w, n :: crypto.value.cipher.encrypt(p, w, n).Ok? ==>
       crypto.value.cipher.decrypt(crypto.value.cipher.encrypt(p, w, n).value, w) == Ok(p))
  }

  datatype Sealed = Sealed(salt: Salt, chain: seq<ChainStep>, payload: seq<byte>, authenticated: bool) {
    function Envelope(): seq<byte> {
      ToBytes(Envelopes.Envelope(ENVELOPE_VERSION, chain, payload))
    }
  }

  /** The payload and chain after the cipher step. */
  function Ciphered(keyed: Keyed, hidden: seq<byte>, crypto: Option<Choice>, salt: Salt, nonce: nat): Result<Sealed> {
    if !Applies(crypto) then Ok(Sealed(salt, [], hidden, false))
    else
      var Choice(cipher, password) := crypto.value;
      var step := [ChainStep(cipher.id, [])];
      if HasKeyedPath(cipher.id) then
        var key :- keyed.derive(password, salt);
        var payload :- keyed.encrypt(cipher.id, hidden, key, nonce);
        Ok(Sealed(salt, step, payload, true))
      else
        var payload :- cipher.encrypt(hidden, password, nonce);
        Ok(Sealed(salt, step, payload, false))
  }

  /** The trailing checksum, appended to whatever no cipher authenticated. */
  function WithIntegrity(s: Sealed): Sealed {
    if s.authenticated then s
    else s.(payload := s.payload + Be32Of(Crc32(s.payload)), chain := s.chain + [ChainStep(INTEGRITY_STEP, [])])
  }

  function Seal(keyed: Keyed, hidden: seq<byte>, crypto: Option<Choice>, salt: Salt, nonce: nat)
    : (r: Result<Sealed>)
    ensures r.Ok? ==> (r.value.authenticated <==> FrameCarriesSalt(crypto)) && r.value.salt == salt
  {
    var s :- Ciphered(keyed, hidden, crypto, salt, nonce);
    Ok(WithIntegrity(s))
  }

  /** `seal` as it runs: payload and chain rewritten step by step. */
  method SealSecret(keyed: Keyed, hidden: seq<byte>, crypto: Option<Choice>, salt: Salt, nonce: nat)
    returns (r: Result<Sealed>)
    ensures r == Seal(keyed, hidden, crypto, salt, nonce)
  {
    var chain: seq<ChainStep> := [];
    var payload := hidden;
    var authenticated := false;
    if crypto.Some? {
      var cipher, password := crypto.value.cipher, crypto.value.password;
      if password != "" {
        if HasKeyedPath(cipher.id) {
          var key := keyed.derive(password, salt);
          if key.Err? {
            return Err(key.error);
          }
          var sealed := keyed.encrypt(cipher.id, payload, key.value, nonce);
          if sealed.Err? {
            return Err(sealed.error);
          }
          payload := sealed.value;
          authenticated := true;
        } else {
          var sealed := cipher.encrypt(payload, password, nonce);
          if sealed.Err? {
            return Err(sealed.error);
          }
          payload := sealed.value;
        }
        chain := chain + [ChainStep(cipher.id, [])];
        assert chain == [ChainStep(cipher.id, [])];
      }
    }
    if !authenticated {
      var crc := BitSerialCrc32(payload);
      payload := payload + Be32Of(crc);
      chain := chain + [ChainStep(INTEGRITY_STEP, [])];
    }
    r := Ok(Sealed(salt, chain, payload, authenticated));
  }

  // ─── Reverting ───

  datatype Oracle = AeadTag | Checksum | NGram | NotApplicable

  /** What one reverted step yields: its bytes or a refusal, and the oracle that judged it. */
  datatype Reverted = Reverted(bytes: Option<seq<byte>>, oracle: Oracle)

  function RevertIntegrity(payload: seq<byte>): Option<seq<byte>> {
    if |payload| < CRC32_LEN then None
    else
      var split := |payload| - CRC32_LEN;
      if Bv32Of(payload[split..]) != Crc32(payload[..split]) then None else Some(payload[..split])
  }

  function Find(ciphers: seq<Cipher>, id: string): (r: Option<Cipher>)
    ensures r.Some? ==> r.value in ciphers && r.value.id == id
    ensures r.None? ==> forall i :: 0 <= i < |ciphers| ==> ciphers[i].id != id
  {
    if ciphers == [] then None else if ciphers[0].id == id then Some(ciphers[0]) else Find(ciphers[1..], id)
  }

  function RevertStep(keyed: Keyed, id: string, payload: seq<byte>, ciphers: seq<Cipher>,
                      password: Option<string>, salt: Salt): Reverted
  {
    if id == INTEGRITY_STEP then Reverted(RevertIntegrity(payload), Checksum)
    else if Find(ciphers, id).None? then Reverted(None, NotApplicable)
    else if password.None? || password.value == "" then Reverted(None, NotApplicable)
    else if HasKeyedPath(id) then
      var key := keyed.derive(password.value, salt);
      if key.Err? then Reverted(None, NotApplicable)
      else
        var plain := keyed.decrypt(id, payload, key.value);
        Reverted(if plain.Ok? then Some(plain.value) else None, AeadTag)
    else
      var plain := Find(ciphers, id).value.decrypt(payload, password.value);
      Reverted(if plain.Ok? then Some(plain.value) else None, NotApplicable)
  }

  /** Reverting the recorded chain, last step first. */
  function RevertChain(keyed: Keyed, chain: seq<ChainStep>, payload: seq<byte>, ciphers: seq<Cipher>,
                       password: Option<string>, salt: Salt): Option<seq<byte>>
  {
    if chain == [] then Some(payload)
    else
      var last := chain[|chain| - 1];
      var r := RevertStep(keyed, last.id, payload, ciphers, password, salt).bytes;
      if r.None? then None
      else RevertChain(keyed, chain[..|chain| - 1], r.value, ciphers, password, salt)
  }

  /** The reader is offered the cipher that sealed, under the passcode that sealed. */
  ghost predicate Offered(crypto: Option<Choice>, ciphers: seq<Cipher>, password: Option<string>) {
    Applies(crypto) ==> Find(ciphers, crypto.value.cipher.id) == Some(crypto.value.cipher) &&
                        password == Some(crypto.value.password)
  }

  /** A sealed payload passes its own integrity step. */
  lemma IntegrityAccepts(body: seq<byte>)
    ensures RevertIntegrity(body + Be32Of(Crc32(body))) == Some(body)
  {
    var payload := body + Be32Of(Crc32(body));
    ChecksumFieldInverts(Crc32(body));
    assert payload[..|body|] == body && payload[|body|..] == Be32Of(Crc32(body));
  }

  /** The cipher step reverts. */
  lemma CipherReverts(keyed: Keyed, hidden: seq<byte>, crypto: Option<Choice>, salt: Salt, nonce: nat,
                      readSalt: Salt, ciphers: seq<Cipher>, password: Option<string>)
    requires Invertible(keyed, crypto) && Offered(crypto, ciphers, password) && Applies(crypto)
    requires Ciphered(keyed, hidden, crypto, salt, nonce).Ok?
    requires FrameCarriesSalt(crypto) ==> readSalt == salt
    ensures var c := Ciphered(keyed, hidden, crypto, salt, nonce).value;
            c.chain == [ChainStep(crypto.value.cipher.id, [])] &&
            RevertStep(keyed, crypto.value.cipher.id, c.payload, ciphers, password, readSalt).bytes == Some(hidden)
  {
  }

  lemma RevertOne(keyed: Keyed, step: ChainStep, payload: seq<byte>, ciphers: seq<Cipher>,
                  password: Option<string>, salt: Salt)
    ensures RevertChain(keyed, [step], payload, ciphers, password, salt)
         == RevertStep(keyed, step.id, payload, ciphers, password, salt).bytes
  {
    assert [step][..0] == [];
  }

  lemma RevertTrailing(keyed: Keyed, chain: seq<ChainStep>, payload: seq<byte>, ciphers: seq<Cipher>,
                       password: Option<string>, salt: Salt)
    ensures RevertChain(keyed, chain + [ChainStep(INTEGRITY_STEP, [])], payload + Be32Of(Crc32(payload)),
                        ciphers, password, salt)
         == RevertChain(keyed, chain, payload, ciphers, password, salt)
  {
    var full := chain + [ChainStep(INTEGRITY_STEP, [])];
    assert full[..|full| - 1] == chain;
    IntegrityAccepts(payload);
  }

  /** Reverting what was sealed gives the secret back. */
  lemma SealReverts(keyed: Keyed, hidden: seq<byte>, crypto: Option<Choice>, salt: Salt, nonce: nat,
                    readSalt: Salt, ciphers: seq<Cipher>, password: Option<string>)
    requires Invertible(keyed, crypto) && Offered(crypto, ciphers, password)
    requires Seal(keyed, hidden, crypto, salt, nonce).Ok?
    requires FrameCarriesSalt(crypto) ==> readSalt == salt
    ensures var s := Seal(keyed, hidden, crypto, salt, nonce).value;
            RevertChain(keyed, s.chain, s.payload, ciphers, password, readSalt) == Some(hidden)
  {
    var c := Ciphered(keyed, hidden, crypto, salt, nonce).value;
    if Applies(crypto) {
      CipherReverts(keyed, hidden, crypto, salt, nonce, readSalt, ciphers, password);
      RevertOne(keyed, c.chain[0], c.payload, ciphers, password, readSalt);
    }
    RevertTrailing(keyed, c.chain, c.payload, ciphers, password, readSalt);
  }

  /**
   The integrity step refuses every damaged payload whose damage lies in one window of four bytes of
   the body, or anywhere in the stored checksum alone. One flipped byte is the smallest such damage.
   */
  lemma IntegrityRefusesBurst(before: seq<byte>, a: seq<byte>, b: seq<byte>, after: seq<byte>)
    requires |a| == |b| <= 4 && a != b
    ensures RevertIntegrity(before + b + after + Be32Of(Crc32(before + a + after))).None?
  {
    var body, damaged := before + a + after, before + b + after;
    var payload := damaged + Be32Of(Crc32(body));
    assert payload[..|damaged|] == damaged && payload[|damaged|..] == Be32Of(Crc32(body));
    ChecksumFieldInverts(Crc32(body));
    BurstChangesCrc32(before, a, b, after);
  }

  lemma IntegrityRefusesField(body: seq<byte>, field: seq<byte>)
    requires |field| == CRC32_LEN && field != Be32Of(Crc32(body))
    ensures RevertIntegrity(body + field).None?
  {
    var payload := body + field;
    assert payload[..|body|] == body && payload[|body|..] == field;
    ChecksumFieldInverts(Crc32(body));
    if Bv32Of(field) == Crc32(body) {
      ChecksumFieldInjective(field, Be32Of(Crc32(body)));
    }
  }

  lemma RefusesBodyByte(body: seq<byte>, i: nat, b: byte)
    requires i < |body| && body[i] != b
    ensures RevertIntegrity(body[i := b] + Be32Of(Crc32(body))).None?
  {
    var before, after := body[..i], body[i + 1..];
    assert before + [body[i]] + after == body && body[i := b] == before + [b] + after;
    IntegrityRefusesBurst(before, [body[i]], [b], after);
  }

  lemma UpdateEither(body: seq<byte>, field: seq<byte>, i: nat, b: byte)
    requires i < |body| + |field|
    ensures (body + field)[i := b] ==
            if i < |body| then body[i := b] + field else body + field[i - |body| := b]
  {
  }

  /** Any payload that differs from a sealed one in exactly one byte is refused. */
  lemma IntegrityRefusesOneByte(body: seq<byte>, i: nat, b: byte)
    requires var sealed := body + Be32Of(Crc32(body));
             i < |sealed| && sealed[i] != b
    ensures RevertIntegrity((body + Be32Of(Crc32(body)))[i := b]).None?
  {
    hide Crc32, Be32Of, RevertIntegrity;
    var field := Be32Of(Crc32(body));
    UpdateEither(body, field, i, b);
    if i < |body| {
      RefusesBodyByte(body, i, b);
    } else {
      var k := i - |body|;
      assert field[k := b][k] != field[k];
      IntegrityRefusesField(body, field[k := b]);
    }
  }

  // ─── The shape a seal will have ───

  /** The chain a seal will record and the bytes it adds, measured on a probe. */
  datatype Shape = Shape(chain: seq<ChainStep>, overhead: nat)

  function Expansion(cipherText: seq<byte>, id: string): Result<nat> {
    if |cipherText| < PROBE_LEN then Err(EncodingFailed(id)) else Ok(|cipherText| - PROBE_LEN)
  }

  function SealShape(keyed: Keyed, crypto: Option<Choice>, probeKey: Key, nonce: nat): Result<Shape> {
    var integrity := ChainStep(INTEGRITY_STEP, []);
    if !Applies(crypto) then Ok(Shape([integrity], CRC32_LEN))
    else
      var Choice(cipher, password) := crypto.value;
      var probe: seq<byte> := seq(PROBE_LEN, _ => 0);
      if HasKeyedPath(cipher.id) then
        var expanded :- keyed.encrypt(cipher.id, probe, probeKey, nonce);
        var added :- Expansion(expanded, cipher.id);
        Ok(Shape([ChainStep(cipher.id, [])], added))
      else
        var expanded :- cipher.encrypt(probe, password, nonce);
        var added :- Expansion(expanded, cipher.id);
        Ok(Shape([ChainStep(cipher.id, []), integrity], added + CRC32_LEN))
  }

  /** The chosen cipher adds `extra` bytes, whatever the text, the key and the randomness. */
  ghost predicate Adds(keyed: Keyed, crypto: Option<Choice>, extra: nat) {
    Applies(crypto) ==>
      var cipher := crypto.value.cipher;
      if HasKeyedPath(cipher.id)
      then forall p, k, n :: keyed.encrypt(cipher.id, p, k, n).Ok? ==>
             |keyed.encrypt(cipher.id, p, k, n).value| == |p| + extra
      else forall p, w, n :: cipher.encrypt(p, w, n).Ok? ==> |cipher.encrypt(p, w, n).value| == |p| + extra
  }

  lemma SealedSize(keyed: Keyed, hidden: seq<byte>, crypto: Option<Choice>, salt: Salt, nonce: nat, extra: nat)
    requires Adds(keyed, crypto, extra) && Seal(keyed, hidden, crypto, salt, nonce).Ok?
    ensures var s := Seal(keyed, hidden, crypto, salt, nonce).value;
            |s.payload| == |hidden| + (if Applies(crypto) then extra else 0) +
                           (if FrameCarriesSalt(crypto) then 0 else CRC32_LEN)
  {
  }

  lemma ShapeSize(keyed: Keyed, crypto: Option<Choice>, probeKey: Key, nonce: nat, extra: nat)
    requires Adds(keyed, crypto, extra) && SealShape(keyed, crypto, probeKey, nonce).Ok?
    ensures SealShape(keyed, crypto, probeKey, nonce).value.overhead ==
              (if Applies(crypto) then extra else 0) + (if FrameCarriesSalt(crypto) then 0 else CRC32_LEN)
  {
  }

  /** The measured shape is the shape: chain and size of every seal. */
  lemma ShapeIsMeasured(keyed: Keyed, crypto: Option<Choice>, probeKey: Key, probeNonce: nat,
                        hidden: seq<byte>, salt: Salt, nonce: nat, extra: nat)
    requires Adds(keyed, crypto, extra)
    requires SealShape(keyed, crypto, probeKey, probeNonce).Ok? && Seal(keyed, hidden, crypto, salt, nonce).Ok?
    ensures var s := Seal(keyed, hidden, crypto, salt, nonce).value;
            var shape := SealShape(keyed, crypto, probeKey, probeNonce).value;
            s.chain == shape.chain && |s.payload| == |hidden| + shape.overhead &&
            |s.Envelope()| == EnvelopeLen(shape.chain, |hidden| + shape.overhead)
  {
    SealedSize(keyed, hidden, crypto, salt, nonce, extra);
    ShapeSize(keyed, crypto, probeKey, probeNonce, extra);
    ShapeChain(keyed, crypto, probeKey, probeNonce, hidden, salt, nonce);
    var s := Seal(keyed, hidden, crypto, salt, nonce).value;
    EnvelopeLenIsSize(s.chain, s.payload);
  }

  lemma ShapeChain(keyed: Keyed, crypto: Option<Choice>, probeKey: Key, probeNonce: nat,
                   hidden: seq<byte>, salt: Salt, nonce: nat)
    requires SealShape(keyed, crypto, probeKey, probeNonce).Ok? && Seal(keyed, hidden, crypto, salt, nonce).Ok?
    ensures Seal(keyed, hidden, crypto, salt, nonce).value.chain ==
            SealShape(keyed, crypto, probeKey, probeNonce).value.chain
  {
    var integrity := ChainStep(INTEGRITY_STEP, []);
    assert [] + [integrity] == [integrity];
  }
  // ─── What a ciphered step needs ───

  lemma {:induction false} FoundFirst(ciphers: seq<Cipher>, id: string) returns (i: nat)
    requires Find(ciphers, id).Some?
    ensures i < |ciphers| && Find(ciphers, id) == Some(ciphers[i]) && ciphers[i].id == id
    ensures forall j :: 0 <= j < i ==> ciphers[j].id != id
    decreases ciphers
  {
    i := 0;
    if ciphers[0].id != id {
      var k := FoundFirst(ciphers[1..], id);
      i := k + 1;
      assert forall j :: 1 <= j < i ==> ciphers[j] == ciphers[1..][j - 1];
    }
  }

  /**
   No ciphered step reverts without a password and a cipher of its name: the first offered, under the key derived from
   password and salt where the cipher has a keyed path, and otherwise under the password itself.
   */
  lemma StepNeeds(keyed: Keyed, id: string, payload: seq<byte>, ciphers: seq<Cipher>, password: Option<string>,
                  salt: Salt) returns (i: nat)
    requires id != "crc32" && RevertStep(keyed, id, payload, ciphers, password, salt).bytes.Some?
    ensures i < |ciphers| && ciphers[i].id == id && forall j :: 0 <= j < i ==> ciphers[j].id != id
    ensures password.Some? && password.value != ""
    ensures var plain := Ok(RevertStep(keyed, id, payload, ciphers, password, salt).bytes.value);
            if id == "aes256_gcm" || id == "aes128_gcm" || id == "chacha20_poly1305"
            then keyed.derive(password.value, salt).Ok? &&
                 keyed.decrypt(id, payload, keyed.derive(password.value, salt).value) == plain
            else ciphers[i].decrypt(payload, password.value) == plain
  {
    i := FoundFirst(ciphers, id);
  }
}
