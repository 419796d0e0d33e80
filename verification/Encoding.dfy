/** Encoding through a stack of carriers, each placing a complete copy into the previous one's text. */
module Encoding {
  import opened Results
  import opened Bytes
  import opened Preambles
  import opened Carriers
  import opened Composition
  import opened Sealing
  import opened Layers

  const USIZE_MAX: nat := 0xFFFF_FFFF_FFFF_FFFF

  /** Whole bytes a mission's density ceiling allows: 25, 50 and 85 percent of the positions. */
  function DensityBudget(positions: nat, mission: Mission): nat {
    match mission
    case Conceal => positions / 32
    case Sign => positions / 16
    case Mark => positions * 17 / 160
  }

  /** The text so far and the least room any carrier had. */
  datatype Stack = Stack(text: string, room: nat)

  function Min(a: nat, b: nat): nat {
    if a < b then a else b
  }

  /** Conceal refuses to write past its density ceiling; the other missions allow overflow. */
  predicate PassesDensityGate(g: Geometry, c: Carrier, text: string, size: nat, mission: Option<Mission>) {
    mission == Some(Conceal) ==> size <= DensityBudget(Positions(g, c, text), Conceal)
  }

  function Room(g: Geometry, c: Carrier, text: string, hasSalt: bool, mode: FrameMode): nat {
    FramedRoom(Positions(g, c, text), hasSalt, mode)
  }

  /** Only a writable carrier the cover bounds is held to its room. */
  predicate PassesSizeGate(g: Geometry, c: Carrier, text: string, size: nat, hasSalt: bool, mode: FrameMode) {
    CheckWritable(c, text).Ok? && CoverBoundsWrites(g, c, text) ==> size <= Room(g, c, text, hasSalt, mode)
  }

  function AddLayer(g: Geometry, c: Carrier, below: Stack, sealed: Sealed, mission: Option<Mission>, mode: FrameMode)
    : Result<Stack>
  {
    var size := |sealed.Envelope()|;
    if !PassesDensityGate(g, c, below.text, size, mission)
    then Err(CapacityExceeded(size * 8, DensityBudget(Positions(g, c, below.text), Conceal) * 8))
    else if !PassesSizeGate(g, c, below.text, size, sealed.authenticated, mode)
    then Err(CapacityExceeded(size * 8, Room(g, c, below.text, sealed.authenticated, mode) * 8))
    else
      var room := if CheckWritable(c, below.text).Ok?
                  then Min(below.room, Room(g, c, below.text, sealed.authenticated, mode)) else 0;
      var text :- PlaceLayer(g, c, below.text, sealed, mode);
      Ok(Stack(text, room))
  }

  /** The stack after the first `n` carriers. */
  function StackUpTo(g: Geometry, methods: seq<Carrier>, cover: string, sealed: Sealed,
                     mission: Option<Mission>, mode: FrameMode, n: nat): Result<Stack>
    requires n <= |methods|
  {
    if n == 0 then Ok(Stack(cover, USIZE_MAX))
    else
      var below :- StackUpTo(g, methods, cover, sealed, mission, mode, n - 1);
      AddLayer(g, methods[n - 1], below, sealed, mission, mode)
  }

  datatype EncodeResult = EncodeResult(stegoText: string, methodsUsed: seq<string>, usedBits: nat, availableBits: nat)

  function EncodeStack(g: Geometry, cover: string, sealed: Sealed, methods: seq<Carrier>,
                       mission: Option<Mission>, mode: FrameMode): Result<EncodeResult>
  {
    var top :- StackUpTo(g, methods, cover, sealed, mission, mode, |methods|);
    Ok(EncodeResult(top.text, Ids(methods), |sealed.Envelope()| * 8, Min(top.room * 8, USIZE_MAX)))
  }

  function Encode(g: Geometry, keyed: Keyed, cover: string, hidden: seq<byte>, methods: seq<Carrier>,
                  crypto: Option<Choice>, mission: Option<Mission>, mode: FrameMode, salt: Salt, nonce: nat)
    : Result<EncodeResult>
  {
    if methods == [] then Err(InvalidInput)
    else if hidden == [] then Err(InvalidInput)
    else
      var _ :- ValidateStack(methods);
      var sealed :- Seal(keyed, hidden, crypto, salt, nonce);
      EncodeStack(g, cover, sealed, methods, mission, mode)
  }

  lemma {:induction false} StackStops(g: Geometry, methods: seq<Carrier>, cover: string, sealed: Sealed,
                                      mission: Option<Mission>, mode: FrameMode, m: nat, n: nat)
    requires m <= n <= |methods|
    ensures StackUpTo(g, methods, cover, sealed, mission, mode, m).Err? ==>
            StackUpTo(g, methods, cover, sealed, mission, mode, n) ==
            StackUpTo(g, methods, cover, sealed, mission, mode, m)
    decreases n
  {
    hide AddLayer;
    if m == n {
    } else {
      StackStops(g, methods, cover, sealed, mission, mode, m, n - 1);
    }
  }

  /** The encode loop: gate, size, place, and hand the text to the next carrier. */
  method EncodeForMission(g: Geometry, keyed: Keyed, cover: string, hidden: seq<byte>, methods: seq<Carrier>,
                          crypto: Option<Choice>, mission: Option<Mission>, mode: FrameMode, salt: Salt, nonce: nat)
    returns (r: Result<EncodeResult>)
    ensures r == Encode(g, keyed, cover, hidden, methods, crypto, mission, mode, salt, nonce)
  {
    if methods == [] {
      return Err(InvalidInput);
    }
    if hidden == [] {
      return Err(InvalidInput);
    }
    var legal := ValidateStack(methods);
    if legal.Err? {
      return Err(legal.error);
    }
    var sealing := SealSecret(keyed, hidden, crypto, salt, nonce);
    if sealing.Err? {
      return Err(sealing.error);
    }
    r := PlaceThroughStack(g, cover, sealing.value, methods, mission, mode);
  }

  /** One turn of the loop: both gates, then the placement. */
  method PlaceGated(g: Geometry, c: Carrier, currentText: string, bindingRoom: nat, sealed: Sealed,
                    mission: Option<Mission>, mode: FrameMode)
    returns (r: Result<Stack>)
    ensures r == AddLayer(g, c, Stack(currentText, bindingRoom), sealed, mission, mode)
  {
    hide PlaceLayer, FramedRoom, Positions, CoverBoundsWrites, DensityBudget, CheckWritable;
    var size := |sealed.Envelope()|;
    var binding := bindingRoom;
    if mission == Some(Conceal) {
      var available := DensityBudget(Positions(g, c, currentText), Conceal);
      if size > available {
        return Err(CapacityExceeded(size * 8, available * 8));
      }
    }
    if CheckWritable(c, currentText).Ok? {
      var room := FramedRoom(Positions(g, c, currentText), sealed.authenticated, mode);
      binding := Min(binding, room);
      if size > room && CoverBoundsWrites(g, c, currentText) {
        return Err(CapacityExceeded(size * 8, room * 8));
      }
    } else {
      binding := 0;
    }
    var placed := PlaceLayer(g, c, currentText, sealed, mode);
    if placed.Err? {
      return Err(placed.error);
    }
    r := Ok(Stack(placed.value, binding));
  }

  method PlaceThroughStack(g: Geometry, cover: string, sealed: Sealed, methods: seq<Carrier>,
                           mission: Option<Mission>, mode: FrameMode)
    returns (r: Result<EncodeResult>)
    ensures r == EncodeStack(g, cover, sealed, methods, mission, mode)
  {
    hide AddLayer;
    var currentText := cover;
    var methodsUsed: seq<string> := [];
    var bindingRoom := USIZE_MAX;
    for i := 0 to |methods|
      invariant StackUpTo(g, methods, cover, sealed, mission, mode, i) == Ok(Stack(currentText, bindingRoom))
      invariant methodsUsed == Ids(methods[..i])
    {
      StackStops(g, methods, cover, sealed, mission, mode, i + 1, |methods|);
      var placed := PlaceGated(g, methods[i], currentText, bindingRoom, sealed, mission, mode);
      if placed.Err? {
        return Err(placed.error);
      }
      currentText, bindingRoom := placed.value.text, placed.value.room;
      methodsUsed := methodsUsed + [methods[i].id];
    }
    assert methods[..|methods|] == methods;
    r := Ok(EncodeResult(currentText, methodsUsed, |sealed.Envelope()| * 8, Min(bindingRoom * 8, USIZE_MAX)));
  }
}
