/** The envelope: a version, the transform chain and the payload, in the postcard wire format. */
module Envelopes {
  import opened Results
  import opened Bytes
  import Utf8

  const ENVELOPE_VERSION: byte := 2
  const VARINT_MAX := 10

  datatype ChainStep = ChainStep(id: string, state: seq<byte>)

  datatype Envelope = Envelope(v: byte, chain: seq<ChainStep>, payload: seq<byte>)

  /** A length, seven bits a byte, least significant first. */
  function Varint(n: nat): (s: seq<byte>)
    ensures |s| >= 1
  {
    if n < 128 then [n] else [n % 128 + 128] + Varint(n / 128)
  }

  function Block(data: seq<byte>): seq<byte> {
    Varint(|data|) + data
  }

  function StepBytes(step: ChainStep): seq<byte> {
    Block(Utf8.Encode(step.id)) + Block(step.state)
  }

  function ChainBytes(chain: seq<ChainStep>): seq<byte> {
    if chain == [] then [] else StepBytes(chain[0]) + ChainBytes(chain[1..])
  }

  function ToBytes(e: Envelope): seq<byte> {
    [e.v] + Varint(|e.chain|) + ChainBytes(e.chain) + Block(e.payload)
  }

  /** What a reader took off the front, and what is left. */
  datatype Taken<+T> = Taken(value: T, rest: seq<byte>)

  function TakeVarint(s: seq<byte>, left: nat): (r: Option<Taken<nat>>)
    ensures r.Some? ==> |r.value.rest| < |s|
    decreases s, left
  {
    if s == [] || left == 0 then None
    else if s[0] < 128 then if left == 1 && s[0] > 1 then None else Some(Taken(s[0] as nat, s[1..]))
    else
      var high := TakeVarint(s[1..], left - 1);
      if high.None? then None
      else Some(Taken(s[0] as nat - 128 + 128 * high.value.value, high.value.rest))
  }

  function TakeBlock(s: seq<byte>): (r: Option<Taken<seq<byte>>>)
    ensures r.Some? ==> |r.value.rest| < |s|
  {
    var len := TakeVarint(s, VARINT_MAX);
    if len.None? then None
    else if |len.value.rest| < len.value.value then None
    else Some(Taken(len.value.rest[..len.value.value], len.value.rest[len.value.value..]))
  }

  function TakeStep(s: seq<byte>): (r: Option<Taken<ChainStep>>)
    ensures r.Some? ==> |r.value.rest| < |s|
  {
    var id := TakeBlock(s);
    if id.None? then None
    else
      var text := Utf8.Decode(id.value.value);
      if text.None? then None
      else
        var state := TakeBlock(id.value.rest);
        if state.None? then None
        else Some(Taken(ChainStep(text.value, state.value.value), state.value.rest))
  }

  function TakeChain(s: seq<byte>, n: nat): Option<Taken<seq<ChainStep>>>
    decreases |s|, n
  {
    if n == 0 then Some(Taken([], s))
    else
      var first := TakeStep(s);
      if first.None? then None
      else
        var others := TakeChain(first.value.rest, n - 1);
        if others.None? then None
        else Some(Taken([first.value.value] + others.value.value, others.value.rest))
  }

  function Parse(s: seq<byte>): Result<Envelope> {
    var refused := Err(DecodingFailed("envelope"));
    if s == [] then refused
    else
      var count := TakeVarint(s[1..], VARINT_MAX);
      if count.None? then refused
      else
        var chain := TakeChain(count.value.rest, count.value.value);
        if chain.None? then refused
        else
          var payload := TakeBlock(chain.value.rest);
          if payload.None? then refused
          else if s[0] != ENVELOPE_VERSION then refused
          else Ok(Envelope(s[0], chain.value.value, payload.value.value))
  }

  // ─── Round trip ───

  /** The numbers a varint of `left` more bytes can hold. */
  function Limit(left: nat): nat {
    if left == 0 then 0 else if left == 1 then 2 else 128 * Limit(left - 1)
  }

  lemma MachineWord()
    ensures Limit(VARINT_MAX) == 0x1_0000_0000_0000_0000
  {
    assert Limit(4) == 2 * 128 * 128 * 128;
    assert Limit(7) == 128 * 128 * 128 * Limit(4);
    assert Limit(10) == 128 * 128 * 128 * Limit(7);
  }

  lemma {:induction false} VarintRoundTrip(n: nat, left: nat, rest: seq<byte>)
    requires n < Limit(left)
    ensures TakeVarint(Varint(n) + rest, left) == Some(Taken(n, rest))
    decreases n
  {
    var s := Varint(n) + rest;
    if n < 128 {
      assert s[1..] == rest;
    } else {
      assert left > 1;
      assert s == [n % 128 + 128] + (Varint(n / 128) + rest);
      assert s[1..] == Varint(n / 128) + rest;
      VarintRoundTrip(n / 128, left - 1, rest);
    }
  }

  /** Every length here is a machine word. */
  ghost predicate Fits(n: nat) {
    n < 0x1_0000_0000_0000_0000
  }

  lemma BlockRoundTrip(data: seq<byte>, rest: seq<byte>)
    requires Fits(|data|)
    ensures TakeBlock(Block(data) + rest) == Some(Taken(data, rest))
  {
    MachineWord();
    VarintRoundTrip(|data|, VARINT_MAX, data + rest);
    assert Block(data) + rest == Varint(|data|) + (data + rest);
    assert (data + rest)[..|data|] == data && (data + rest)[|data|..] == rest;
  }

  ghost predicate StepFits(step: ChainStep) {
    Fits(|Utf8.Encode(step.id)|) && Fits(|step.state|)
  }

  lemma StepRoundTrip(step: ChainStep, rest: seq<byte>)
    requires StepFits(step)
    ensures TakeStep(StepBytes(step) + rest) == Some(Taken(step, rest))
  {
    var id := Utf8.Encode(step.id);
    assert StepBytes(step) + rest == Block(id) + (Block(step.state) + rest);
    BlockRoundTrip(id, Block(step.state) + rest);
    BlockRoundTrip(step.state, rest);
    Utf8.DecodeEncode(step.id);
  }

  lemma {:induction false} ChainRoundTrip(chain: seq<ChainStep>, rest: seq<byte>)
    requires forall i :: 0 <= i < |chain| ==> StepFits(chain[i])
    ensures TakeChain(ChainBytes(chain) + rest, |chain|) == Some(Taken(chain, rest))
    decreases chain
  {
    if chain == [] {
      assert ChainBytes(chain) + rest == rest;
    } else {
      var others := ChainBytes(chain[1..]) + rest;
      assert ChainBytes(chain) + rest == StepBytes(chain[0]) + others;
      StepRoundTrip(chain[0], others);
      forall i | 0 <= i < |chain[1..]|
        ensures StepFits(chain[1..][i])
      {
        assert chain[1..][i] == chain[i + 1];
      }
      ChainRoundTrip(chain[1..], rest);
      TakeChainSteps(StepBytes(chain[0]) + others, chain, others, rest);
    }
  }

  lemma TakeChainSteps(s: seq<byte>, chain: seq<ChainStep>, others: seq<byte>, rest: seq<byte>)
    requires chain != [] && TakeStep(s) == Some(Taken(chain[0], others))
    requires TakeChain(others, |chain| - 1) == Some(Taken(chain[1..], rest))
    ensures TakeChain(s, |chain|) == Some(Taken(chain, rest))
  {
    assert [chain[0]] + chain[1..] == chain;
  }

  ghost predicate EnvelopeFits(e: Envelope) {
    Fits(|e.chain|) && Fits(|e.payload|) && forall i :: 0 <= i < |e.chain| ==> StepFits(e.chain[i])
  }

  /** A serialised envelope parses back to itself. */
  lemma EnvelopeRoundTrip(e: Envelope)
    requires e.v == ENVELOPE_VERSION && EnvelopeFits(e)
    ensures Parse(ToBytes(e)) == Ok(e)
  {
    var s := ToBytes(e);
    assert s[1..] == Varint(|e.chain|) + (ChainBytes(e.chain) + Block(e.payload));
    MachineWord();
    VarintRoundTrip(|e.chain|, VARINT_MAX, ChainBytes(e.chain) + Block(e.payload));
    ChainRoundTrip(e.chain, Block(e.payload));
    BlockRoundTrip(e.payload, []);
    assert Block(e.payload) + [] == Block(e.payload);
  }

  lemma {:induction false} ChainShorterThanBytes(chain: seq<ChainStep>)
    ensures |chain| <= |ChainBytes(chain)|
    ensures forall i :: 0 <= i < |chain| ==> |StepBytes(chain[i])| <= |ChainBytes(chain)|
  {
    if chain == [] {
    } else {
      ChainShorterThanBytes(chain[1..]);
      assert forall i :: 1 <= i < |chain| ==> chain[i] == chain[1..][i - 1];
    }
  }

  /** An envelope small enough for a frame is small enough for its length fields. */
  lemma SmallEnvelopeFits(e: Envelope)
    requires Fits(|ToBytes(e)|)
    ensures EnvelopeFits(e)
  {
    ChainShorterThanBytes(e.chain);
  }

  // ─── Size ───

  /** Serialised size of an envelope around `n` payload bytes. */
  function EnvelopeLen(chain: seq<ChainStep>, n: nat): nat {
    1 + |Varint(|chain|)| + |ChainBytes(chain)| + |Varint(n)| + n
  }

  lemma EnvelopeLenIsSize(chain: seq<ChainStep>, payload: seq<byte>)
    ensures |ToBytes(Envelope(ENVELOPE_VERSION, chain, payload))| == EnvelopeLen(chain, |payload|)
  {
  }

  lemma {:induction false} VarintMonotone(m: nat, n: nat)
    requires m <= n
    ensures |Varint(m)| <= |Varint(n)|
  {
    if m < 128 {
    } else {
      VarintMonotone(m / 128, n / 128);
    }
  }

  /** The envelope is longer than its payload and grows with every payload byte. */
  lemma EnvelopeLenGrows(chain: seq<ChainStep>, m: nat, n: nat)
    requires m < n
    ensures n < EnvelopeLen(chain, n) && EnvelopeLen(chain, m) < EnvelopeLen(chain, n)
  {
    VarintMonotone(m, n);
  }

  // ─── On the wire ───

  lemma VarintSmall(n: nat)
    requires n < 128
    ensures Varint(n) == [n]
  {
  }

  /** A length takes seven bits a byte, the lowest first, all but the last byte flagged. */
  lemma VarintOfTwo(n: nat)
    requires 128 <= n < 16384
    ensures Varint(n) == [n % 128 + 128, n / 128]
  {
    VarintSmall(n / 128);
  }

  /**
   The fields in order: version, number of steps, the one step's id and state, and the payload, each with its
   length.
   */
  lemma OneStepOnTheWire(payload: seq<byte>)
    requires |payload| < 128
    ensures ToBytes(Envelope(2, [ChainStep("crc32", [])], payload)) ==
            [2, 1, 5, 99, 114, 99, 51, 50, 0, |payload|] + payload
  {
    hide Varint, StepBytes, Block;
    var step := ChainStep("crc32", []);
    VarintSmall(1);
    StepSpelled();
    OneStep(step);
    SmallBlock(payload);
    assert [2] + [1] + [5, 99, 114, 99, 51, 50, 0] + ([|payload|] + payload)
        == [2, 1, 5, 99, 114, 99, 51, 50, 0, |payload|] + payload;
  }

  lemma OneStep(step: ChainStep)
    ensures ChainBytes([step]) == StepBytes(step)
  {
    hide StepBytes;
    assert [step][1..] == [] && StepBytes(step) + [] == StepBytes(step);
  }

  lemma SmallBlock(data: seq<byte>)
    requires |data| < 128
    ensures Block(data) == [|data|] + data
  {
    VarintSmall(|data|);
  }

  lemma StepSpelled()
    ensures StepBytes(ChainStep("crc32", [])) == [5, 99, 114, 99, 51, 50, 0]
  {
    hide Block;
    AsciiSpelled();
    SmallBlock([99, 114, 99, 51, 50]);
    SmallBlock([]);
  }

  lemma AsciiSpelled()
    ensures Utf8.Encode("crc32") == [99, 114, 99, 51, 50]
  {
    var s := "crc32";
    assert s[1..] == "rc32" && s[2..] == "c32" && s[3..] == "32" && s[4..] == "2" && s[5..] == "";
    assert "rc32"[1..] == "c32" && "c32"[1..] == "32" && "32"[1..] == "2" && "2"[1..] == "";
    assert Utf8.Encode("2") == [50] + [];
    assert Utf8.Encode("32") == [51] + Utf8.Encode("2");
    assert Utf8.Encode("c32") == [99] + Utf8.Encode("32");
    assert Utf8.Encode("rc32") == [114] + Utf8.Encode("c32");
  }
  // ─── What parses, exactly ───

  function NumberOf(v: seq<byte>): nat {
    if v == [] then 0 else v[0] % 128 + 128 * NumberOf(v[1..])
  }

  /**
   Every byte but the last is flagged; at most `left` of them, and the one that would be the last of all is 0 or
   1.
   */
  ghost predicate IsVarint(v: seq<byte>, left: nat) {
    v != [] && |v| <= left && v[|v| - 1] < 128 && (forall i :: 0 <= i < |v| - 1 ==> v[i] >= 128) &&
    (|v| == left ==> v[|v| - 1] <= 1)
  }

  lemma {:induction false} TakesVarint(v: seq<byte>, rest: seq<byte>, left: nat)
    requires IsVarint(v, left)
    ensures TakeVarint(v + rest, left) == Some(Taken(NumberOf(v), rest))
    decreases left
  {
    var s := v + rest;
    if |v| == 1 {
      assert s[1..] == rest && v[1..] == [];
    } else {
      assert s[1..] == v[1..] + rest;
      TakesVarint(v[1..], rest, left - 1);
    }
  }

  lemma {:induction false} TookVarint(s: seq<byte>, left: nat) returns (v: seq<byte>)
    requires TakeVarint(s, left).Some?
    ensures IsVarint(v, left) && TakeVarint(s, left).value.value == NumberOf(v)
    ensures s == v + TakeVarint(s, left).value.rest
    decreases left
  {
    v := [s[0]];
    if s[0] < 128 {
      assert v[1..] == [];
    } else {
      var more := TookVarint(s[1..], left - 1);
      v := [s[0]] + more;
      assert v[1..] == more;
    }
  }

  /** A length and as many bytes. */
  ghost predicate SpellsBlock(b: seq<byte>, data: seq<byte>) {
    exists v :: IsVarint(v, 10) && NumberOf(v) == |data| && b == v + data
  }

  /** A step: its id in UTF-8 and its state. */
  ghost predicate SpellsStep(b: seq<byte>, step: ChainStep) {
    exists id, state :: SpellsBlock(id, Utf8.Encode(step.id)) && SpellsBlock(state, step.state) && b == id + state
  }

  ghost predicate SpellsChain(b: seq<byte>, chain: seq<ChainStep>)
    decreases chain
  {
    if chain == [] then b == []
    else exists first, others ::
      SpellsStep(first, chain[0]) && SpellsChain(others, chain[1..]) && b == first + others
  }

  /** An envelope: version, number of steps, the steps, the payload, and whatever follows. */
  ghost predicate Spells(s: seq<byte>, e: Envelope) {
    exists count, chain, payload, rest :: SpelledIn(s, e, count, chain, payload, rest)
  }

  ghost predicate SpelledIn(s: seq<byte>, e: Envelope, count: seq<byte>, chain: seq<byte>, payload: seq<byte>,
                            rest: seq<byte>) {
    IsVarint(count, 10) && NumberOf(count) == |e.chain| && SpellsChain(chain, e.chain) &&
    SpellsBlock(payload, e.payload) && s == [e.v] + (count + (chain + (payload + rest)))
  }

  lemma TakesBlock(b: seq<byte>, data: seq<byte>, rest: seq<byte>)
    requires SpellsBlock(b, data)
    ensures TakeBlock(b + rest) == Some(Taken(data, rest))
  {
    var v :| IsVarint(v, 10) && NumberOf(v) == |data| && b == v + data;
    TakesVarint(v, data + rest, 10);
    assert b + rest == v + (data + rest);
    assert (data + rest)[..|data|] == data && (data + rest)[|data|..] == rest;
  }

  lemma TookBlock(s: seq<byte>) returns (b: seq<byte>)
    requires TakeBlock(s).Some?
    ensures SpellsBlock(b, TakeBlock(s).value.value) && s == b + TakeBlock(s).value.rest
  {
    var v := TookVarint(s, 10);
    var data := TakeBlock(s).value.value;
    b := v + data;
    assert s == v + (data + TakeBlock(s).value.rest);
  }

  lemma TakesStep(b: seq<byte>, step: ChainStep, rest: seq<byte>)
    requires SpellsStep(b, step)
    ensures TakeStep(b + rest) == Some(Taken(step, rest))
  {
    hide SpellsBlock, TakeBlock, Utf8.Encode, Utf8.Decode;
    var id, state :| SpellsBlock(id, Utf8.Encode(step.id)) && SpellsBlock(state, step.state) && b == id + state;
    assert b + rest == id + (state + rest);
    TakesBlock(id, Utf8.Encode(step.id), state + rest);
    TakesBlock(state, step.state, rest);
    Utf8.DecodeEncode(step.id);
  }

  lemma TookStep(s: seq<byte>) returns (b: seq<byte>)
    requires TakeStep(s).Some?
    ensures SpellsStep(b, TakeStep(s).value.value) && s == b + TakeStep(s).value.rest
  {
    hide SpellsBlock, TakeBlock, Utf8.Encode, Utf8.Decode;
    var id := TookBlock(s);
    Utf8.EncodeDecode(TakeBlock(s).value.value);
    var behind := TakeBlock(s).value.rest;
    var state := TookBlock(behind);
    b := id + state;
    assert s == id + (state + TakeBlock(behind).value.rest);
  }

  lemma {:induction false} TakesChain(b: seq<byte>, chain: seq<ChainStep>, rest: seq<byte>)
    requires SpellsChain(b, chain)
    ensures TakeChain(b + rest, |chain|) == Some(Taken(chain, rest))
    decreases chain
  {
    hide SpellsStep, TakeStep;
    if chain == [] {
      assert b + rest == rest;
    } else {
      var first, others :| SpellsStep(first, chain[0]) && SpellsChain(others, chain[1..]) && b == first + others;
      assert b + rest == first + (others + rest);
      TakesStep(first, chain[0], others + rest);
      TakesChain(others, chain[1..], rest);
      TakeChainSteps(b + rest, chain, others + rest, rest);
    }
  }

  lemma {:induction false} TookChain(s: seq<byte>, n: nat) returns (b: seq<byte>)
    requires TakeChain(s, n).Some?
    ensures SpellsChain(b, TakeChain(s, n).value.value) && s == b + TakeChain(s, n).value.rest
    ensures |TakeChain(s, n).value.value| == n
    decreases n
  {
    hide SpellsStep, TakeStep;
    if n == 0 {
      b := [];
    } else {
      var first := TookStep(s);
      var behind := TakeStep(s).value.rest;
      var others := TookChain(behind, n - 1);
      b := first + others;
      var chain := TakeChain(s, n).value.value;
      assert chain[1..] == TakeChain(behind, n - 1).value.value && chain[0] == TakeStep(s).value.value;
      assert s == first + (others + TakeChain(s, n).value.rest);
    }
  }

  lemma ParsesSpelled(s: seq<byte>, e: Envelope)
    requires e.v == 2 && Spells(s, e)
    ensures Parse(s) == Ok(e)
  {
    hide TakeVarint, TakeChain, TakeBlock, SpellsChain, SpellsBlock, IsVarint;
    var count, chain, payload, rest :| SpelledIn(s, e, count, chain, payload, rest);
    assert s[1..] == count + (chain + (payload + rest));
    TakesVarint(count, chain + (payload + rest), 10);
    TakesChain(chain, e.chain, payload + rest);
    TakesBlock(payload, e.payload, rest);
  }

  /**
   Bytes parse as an envelope exactly when they spell it: version two, then each field in order,
     every length a varint of
   at most 64 bits, every id well-formed text.
   */
  lemma ParsesExactly(s: seq<byte>, e: Envelope)
    ensures Parse(s) == Ok(e) <==> e.v == 2 && Spells(s, e)
  {
    hide TakeVarint, TakeChain, TakeBlock, SpellsChain, SpellsBlock, IsVarint, SpelledIn;
    if e.v == 2 && Spells(s, e) {
      ParsesSpelled(s, e);
    }
    if Parse(s) == Ok(e) {
      var count := TookVarint(s[1..], 10);
      var behind := TakeVarint(s[1..], 10).value;
      var chain := TookChain(behind.rest, behind.value);
      var last := TakeChain(behind.rest, behind.value).value.rest;
      var payload := TookBlock(last);
      SpelledSo(s, e, count, chain, payload, TakeBlock(last).value.rest);
    }
  }

  lemma SpelledSo(s: seq<byte>, e: Envelope, count: seq<byte>, chain: seq<byte>, payload: seq<byte>, rest: seq<byte>)
    requires s != [] && s[0] == e.v && IsVarint(count, 10) && NumberOf(count) == |e.chain|
    requires SpellsChain(chain, e.chain) && SpellsBlock(payload, e.payload)
    requires s[1..] == count + (chain + (payload + rest))
    ensures Spells(s, e)
  {
    hide SpellsChain, SpellsBlock, IsVarint;
    assert SpelledIn(s, e, count, chain, payload, rest);
  }
}
