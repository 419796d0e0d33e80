/** Which carrier and mission to recommend for a secret, and how far short a cover falls when none holds it. */
module Recommendations {
  import opened Results
  import opened Bytes
  import opened Preambles
  import opened Envelopes
  import opened Carriers
  import opened Composition
  import opened Sealing
  import opened Layers
  import opened Encoding
  import opened RoundTrips
  import opened Capacities

  datatype CarrierFit = CarrierFit(carrier: string, positions: nat, frameCapacity: nat, holdsFrame: bool,
                                   fillRatio: real, strictest: Option<Mission>)

  datatype Recommendation = Recommendation(secretBytes: nat, envelopeBytes: nat, carriers: seq<CarrierFit>,
                                           carrier: Option<string>, mission: Option<Mission>, fits: bool,
                                           shortfallBytes: nat)

  const STRICTEST_FIRST: seq<Mission> := [Conceal, Sign, Mark]

  /** The first mission, from index `i` on, whose ceiling leaves room for the envelope. */
  function StrictestFrom(positions: nat, envelope: nat, holdsFrame: bool, i: nat): Option<Mission>
    decreases 3 - i
  {
    if i >= 3 then None
    else if holdsFrame && envelope <= DensityBudget(positions, STRICTEST_FIRST[i]) then Some(STRICTEST_FIRST[i])
    else StrictestFrom(positions, envelope, holdsFrame, i + 1)
  }

  function FitOf(g: Geometry, c: Carrier, cover: string, envelope: nat, hasSalt: bool, mode: FrameMode): CarrierFit {
    var positions := Positions(g, c, cover);
    var frameCapacity := FramedRoom(positions, hasSalt, mode);
    var holdsFrame := envelope <= frameCapacity;
    var fillRatio := if positions == 0 then 1.0 else (envelope * 8) as real / positions as real;
    CarrierFit(c.id, positions, frameCapacity, holdsFrame, fillRatio, StrictestFrom(positions, envelope, holdsFrame, 0))
  }

  /** Strictness of the best mission; a carrier that holds nothing ranks last. */
  function Rank(fit: CarrierFit): nat {
    match fit.strictest
    case None => 255
    case Some(Conceal) => 0
    case Some(Sign) => 1
    case Some(Mark) => 2
  }

  predicate Precedes(a: CarrierFit, b: CarrierFit) {
    Rank(a) < Rank(b) || (Rank(a) == Rank(b) && a.fillRatio <= b.fillRatio)
  }

  /** Inserts after every entry that may stay before it. */
  function Insert(sorted: seq<CarrierFit>, x: CarrierFit): seq<CarrierFit> {
    if sorted == [] then [x]
    else
      var n := |sorted| - 1;
      if Precedes(sorted[n], x) then sorted + [x] else Insert(sorted[..n], x) + [sorted[n]]
  }

  /** A stable sort. */
  function Sorted(fits: seq<CarrierFit>): seq<CarrierFit> {
    if fits == [] then [] else Insert(Sorted(fits[..|fits| - 1]), fits[|fits| - 1])
  }

  /** What a carrier holds at the most permissive mission. */
  function Hold(fit: CarrierFit): nat {
    Min(fit.frameCapacity, DensityBudget(fit.positions, Mark))
  }

  function BestHold(fits: seq<CarrierFit>): (best: nat)
    ensures forall i :: 0 <= i < |fits| ==> Hold(fits[i]) <= best
    ensures fits != [] ==> exists i :: 0 <= i < |fits| && Hold(fits[i]) == best
  {
    if fits == [] then 0
    else
      var n := |fits| - 1;
      var before := BestHold(fits[..n]);
      if n == 0 || Hold(fits[n]) > before then Hold(fits[n]) else before
  }

  function Advice(secretBytes: nat, envelope: nat, sorted: seq<CarrierFit>): Recommendation {
    var best := FirstHolding(sorted);
    if best.Some?
    then Recommendation(secretBytes, envelope, sorted, Some(best.value.carrier), best.value.strictest, true, 0)
    else Recommendation(secretBytes, envelope, sorted, None, None, false,
                        if envelope < BestHold(sorted) then 0 else envelope - BestHold(sorted))
  }

  function FirstHolding(fits: seq<CarrierFit>): (r: Option<CarrierFit>)
    ensures r.Some? ==> r.value in fits && r.value.strictest.Some?
    ensures r.None? <==> forall i :: 0 <= i < |fits| ==> fits[i].strictest.None?
  {
    if fits == [] then None else if fits[0].strictest.Some? then Some(fits[0]) else FirstHolding(fits[1..])
  }

  function FitsOf(g: Geometry, methods: seq<Carrier>, cover: string, envelope: nat, hasSalt: bool, mode: FrameMode)
    : (fits: seq<CarrierFit>)
    ensures |fits| == |methods| && forall i :: 0 <= i < |methods| ==>
              fits[i] == FitOf(g, methods[i], cover, envelope, hasSalt, mode)
  {
    seq(|methods|, i requires 0 <= i < |methods| => FitOf(g, methods[i], cover, envelope, hasSalt, mode))
  }

  function Recommend(g: Geometry, keyed: Keyed, cover: string, secretLen: nat, methods: seq<Carrier>,
                     crypto: Option<Choice>, mode: FrameMode, probeKey: Key, nonce: nat): Result<Recommendation>
  {
    if methods == [] then Err(InvalidInput)
    else
      var shape :- SealShape(keyed, crypto, probeKey, nonce);
      var envelope := EnvelopeLen(shape.chain, secretLen + shape.overhead);
      Ok(Advice(secretLen, envelope, Sorted(FitsOf(g, methods, cover, envelope, FrameCarriesSalt(crypto), mode))))
  }

  // ─── The loops ───

  method SortByInsertion(fits: seq<CarrierFit>) returns (sorted: seq<CarrierFit>)
    ensures sorted == Sorted(fits)
  {
    hide Insert;
    sorted := [];
    for i := 0 to |fits|
      invariant sorted == Sorted(fits[..i])
    {
      assert fits[..i + 1][..i] == fits[..i];
      sorted := Insert(sorted, fits[i]);
    }
    assert fits[..|fits|] == fits;
  }

  /** Measure each carrier, order them best first, and pick. */
  method RecommendFramed(g: Geometry, keyed: Keyed, cover: string, secretLen: nat, methods: seq<Carrier>,
                         crypto: Option<Choice>, mode: FrameMode, probeKey: Key, nonce: nat)
    returns (r: Result<Recommendation>)
    ensures r == Recommend(g, keyed, cover, secretLen, methods, crypto, mode, probeKey, nonce)
  {
    hide SealShape, FitOf, Advice, EnvelopeLen, Sorted;
    if methods == [] {
      return Err(InvalidInput);
    }
    var shape := SealShape(keyed, crypto, probeKey, nonce);
    if shape.Err? {
      return Err(shape.error);
    }
    var hasSalt := FrameCarriesSalt(crypto);
    var envelope := EnvelopeLen(shape.value.chain, secretLen + shape.value.overhead);
    var carriers: seq<CarrierFit> := [];
    for i := 0 to |methods|
      invariant |carriers| == i
      invariant forall k :: 0 <= k < i ==> carriers[k] == FitOf(g, methods[k], cover, envelope, hasSalt, mode)
    {
      carriers := carriers + [FitOf(g, methods[i], cover, envelope, hasSalt, mode)];
    }
    assert carriers == FitsOf(g, methods, cover, envelope, hasSalt, mode);
    var sorted := SortByInsertion(carriers);
    r := Ok(Advice(secretLen, envelope, sorted));
  }

  // ─── Order ───

  ghost predicate InOrder(fits: seq<CarrierFit>) {
    forall i, j :: 0 <= i < j < |fits| ==> Precedes(fits[i], fits[j])
  }

  lemma {:induction false} InsertKeeps(sorted: seq<CarrierFit>, x: CarrierFit)
    requires InOrder(sorted)
    ensures InOrder(Insert(sorted, x)) && multiset(Insert(sorted, x)) == multiset(sorted) + multiset{x}
    decreases sorted
  {
    hide Rank;
    if sorted == [] {
    } else {
      var n := |sorted| - 1;
      assert sorted == sorted[..n] + [sorted[n]];
      if !Precedes(sorted[n], x) {
        InsertKeeps(sorted[..n], x);
        var r := Insert(sorted[..n], x);
        forall i | 0 <= i < |r|
          ensures Precedes(r[i], sorted[n])
        {
          assert r[i] in multiset(r);
          assert r[i] == x || r[i] in multiset(sorted[..n]);
        }
      }
    }
  }

  /** The list shown is the carriers measured, best first. */
  lemma {:induction false} SortedOrders(fits: seq<CarrierFit>)
    ensures InOrder(Sorted(fits)) && multiset(Sorted(fits)) == multiset(fits)
  {
    hide Insert, Precedes;
    if fits == [] {
    } else {
      var n := |fits| - 1;
      SortedOrders(fits[..n]);
      InsertKeeps(Sorted(fits[..n]), fits[n]);
      assert fits == fits[..n] + [fits[n]];
    }
  }

  lemma SameMembers(a: seq<CarrierFit>, b: seq<CarrierFit>, x: CarrierFit)
    requires multiset(a) == multiset(b)
    ensures x in a <==> x in b
  {
    assert x in multiset(a) <==> x in multiset(b);
  }

  // ─── What the advice means ───

  /** The ceilings are ordered. */
  lemma BudgetsGrow(positions: nat)
    ensures DensityBudget(positions, Conceal) <= DensityBudget(positions, Sign) <= DensityBudget(positions, Mark)
  {
    assert positions / 32 <= positions / 16;
    assert positions / 16 * 160 <= positions * 17;
  }

  /** A carrier's mission is the strictest that holds, and it has one exactly when Mark's ceiling and the frame do. */
  lemma StrictestMeans(g: Geometry, c: Carrier, cover: string, envelope: nat, hasSalt: bool, mode: FrameMode)
    ensures var fit := FitOf(g, c, cover, envelope, hasSalt, mode);
            (fit.strictest.Some? <==> envelope <= Hold(fit)) &&
            (fit.strictest.Some? ==>
               envelope <= DensityBudget(fit.positions, fit.strictest.value) && envelope <= fit.frameCapacity) &&
            (envelope <= fit.frameCapacity ==>
               (fit.strictest == Some(Conceal) <==> envelope <= DensityBudget(fit.positions, Conceal)) &&
               (fit.strictest == Some(Sign) <==>
                  DensityBudget(fit.positions, Conceal) < envelope <= DensityBudget(fit.positions, Sign)))
  {
    hide FramedRoom, Positions, DensityBudget;
    var positions := Positions(g, c, cover);
    BudgetsGrow(positions);
    var holds := envelope <= FramedRoom(positions, hasSalt, mode);
    assert StrictestFrom(positions, envelope, holds, 2) ==
           if holds && envelope <= DensityBudget(positions, Mark) then Some(Mark) else None;
    assert StrictestFrom(positions, envelope, holds, 1) ==
           if holds && envelope <= DensityBudget(positions, Sign) then Some(Sign)
           else StrictestFrom(positions, envelope, holds, 2);
  }

  /** `k` is the best of the carriers: strictest mission, then lowest fill. */
  ghost predicate IsBest(fits: seq<CarrierFit>, k: nat) {
    k < |fits| && fits[k].strictest.Some? && forall i :: 0 <= i < |fits| ==> Precedes(fits[k], fits[i])
  }

  /** What an advice says of the carriers it was drawn from. */
  ghost predicate Justified(r: Recommendation, fits: seq<CarrierFit>) {
    (r.fits <==> r.shortfallBytes == 0) &&
    (r.fits <==> exists i :: 0 <= i < |fits| && r.envelopeBytes <= Hold(fits[i])) &&
    (!r.fits ==> r.shortfallBytes == r.envelopeBytes - BestHold(fits) && r.carrier == None && r.mission == None) &&
    (r.fits ==>
     exists k: nat :: IsBest(fits, k) && r.carrier == Some(fits[k].carrier) && r.mission == fits[k].strictest)
  }

  /**
   The advice: it fits exactly when the shortfall is zero; otherwise the shortfall is the envelope less what the
   best carrier holds; the pick is a carrier none of the others beats; and every carrier is listed once, best first.
   */
  lemma RecommendationSound(g: Geometry, keyed: Keyed, cover: string, secretLen: nat, methods: seq<Carrier>,
                            crypto: Option<Choice>, mode: FrameMode, probeKey: Key, nonce: nat, r: Recommendation)
    requires Recommend(g, keyed, cover, secretLen, methods, crypto, mode, probeKey, nonce) == Ok(r)
    ensures var fits := FitsOf(g, methods, cover, r.envelopeBytes, FrameCarriesSalt(crypto), mode);
            Justified(r, fits) && InOrder(r.carriers) && multiset(r.carriers) == multiset(fits)
  {
    hide FitOf, Sorted, Precedes, Hold, Positions, SealShape, FrameCarriesSalt, EnvelopeLen, Justified;
    var fits := FitsOf(g, methods, cover, r.envelopeBytes, FrameCarriesSalt(crypto), mode);
    SortedOrders(fits);
    forall i | 0 <= i < |fits|
      ensures fits[i].strictest.Some? <==> r.envelopeBytes <= Hold(fits[i])
    {
      StrictestMeans(g, methods[i], cover, r.envelopeBytes, FrameCarriesSalt(crypto), mode);
    }
    AdviceJustified(secretLen, r.envelopeBytes, fits, Sorted(fits));
  }

  lemma AdviceJustified(secretLen: nat, envelope: nat, fits: seq<CarrierFit>, sorted: seq<CarrierFit>)
    requires fits != [] && InOrder(sorted) && multiset(sorted) == multiset(fits)
    requires forall i :: 0 <= i < |fits| ==> (fits[i].strictest.Some? <==> envelope <= Hold(fits[i]))
    ensures Justified(Advice(secretLen, envelope, sorted), fits)
  {
    hide Hold, Precedes;
    forall x: CarrierFit
      ensures x in sorted <==> x in fits
    {
      SameMembers(sorted, fits, x);
    }
    SameBestHold(sorted, fits);
    if FirstHolding(sorted).Some? {
      PickIsBest(sorted, fits);
    } else {
      NothingHolds(sorted, fits);
    }
  }

  lemma NothingHolds(sorted: seq<CarrierFit>, fits: seq<CarrierFit>)
    requires FirstHolding(sorted).None? && forall x :: x in sorted <==> x in fits
    ensures forall i :: 0 <= i < |fits| ==> fits[i].strictest.None?
  {
    forall i | 0 <= i < |fits|
      ensures fits[i].strictest.None?
    {
      assert fits[i] in sorted;
    }
  }

  lemma SameBestHold(sorted: seq<CarrierFit>, fits: seq<CarrierFit>)
    requires fits != [] && forall x :: x in sorted <==> x in fits
    ensures BestHold(sorted) == BestHold(fits)
  {
    hide Hold;
    var i :| 0 <= i < |fits| && Hold(fits[i]) == BestHold(fits);
    assert fits[i] in sorted;
    var j :| 0 <= j < |sorted| && Hold(sorted[j]) == BestHold(sorted);
    assert sorted[j] in fits;
  }

  /** In an ordered list, nothing holds once the first entry holds nothing. */
  lemma NoneAfterNone(sorted: seq<CarrierFit>)
    requires InOrder(sorted) && sorted != []
    ensures sorted[0].strictest.None? ==> forall i :: 0 <= i < |sorted| ==> sorted[i].strictest.None?
  {
    if sorted[0].strictest.None? {
      forall i | 0 < i < |sorted|
        ensures sorted[i].strictest.None?
      {
        assert Precedes(sorted[0], sorted[i]);
      }
    }
  }

  lemma PickIsBest(sorted: seq<CarrierFit>, fits: seq<CarrierFit>)
    requires InOrder(sorted) && FirstHolding(sorted).Some? && forall x :: x in sorted <==> x in fits
    ensures exists k: nat :: IsBest(fits, k) && fits[k] == FirstHolding(sorted).value
  {
    hide Rank;
    NoneAfterNone(sorted);
    var first := FirstHolding(sorted).value;
    assert first == sorted[0];
    assert first in fits;
    var k: nat :| k < |fits| && fits[k] == first;
    forall i | 0 <= i < |fits|
      ensures Precedes(first, fits[i])
    {
      assert fits[i] in sorted;
    }
    assert IsBest(fits, k);
  }

  // ─── Best first, in plain figures ───

  /** The load stays within the frame's room and under the mission's ceiling: 25, 50 or 85 percent of the positions. */
  ghost predicate Clears(positions: nat, room: nat, envelope: nat, m: Mission) {
    envelope <= room &&
    envelope * 8 * 100 <= positions * (match m case Conceal => 25 case Sign => 50 case Mark => 85)
  }

  /** How many of the missions, strictest first, the load does not clear; three for none cleared. */
  ghost function Looseness(positions: nat, room: nat, envelope: nat): nat {
    if Clears(positions, room, envelope, Conceal) then 0
    else if Clears(positions, room, envelope, Sign) then 1
    else if Clears(positions, room, envelope, Mark) then 2
    else 3
  }

  /** Envelope bits a position; a carrier with no positions counts as full. */
  ghost function Fill(envelope: nat, positions: nat): real {
    if positions == 0 then 1.0 else (envelope * 8) as real / positions as real
  }

  lemma BudgetIsCeiling(positions: nat, envelope: nat, m: Mission)
    ensures envelope <= DensityBudget(positions, m) <==>
            envelope * 8 * 100 <= positions * (match m case Conceal => 25 case Sign => 50 case Mark => 85)
  {
    assert positions / 32 * 32 <= positions < positions / 32 * 32 + 32;
    assert positions / 16 * 16 <= positions < positions / 16 * 16 + 16;
    assert positions * 17 / 160 * 160 <= positions * 17 < positions * 17 / 160 * 160 + 160;
  }

  /** What is measured of a carrier. */
  ghost predicate Measures(fit: CarrierFit, id: string, positions: nat, room: nat, envelope: nat) {
    fit.carrier == id && fit.positions == positions && fit.frameCapacity == room &&
    fit.fillRatio == Fill(envelope, positions) &&
    (fit.holdsFrame <==> envelope <= room) &&
    fit.strictest == match Looseness(positions, room, envelope)
                     case 0 => Some(Conceal) case 1 => Some(Sign) case 2 => Some(Mark) case _ => None
  }

  lemma FitMeasures(g: Geometry, c: Carrier, cover: string, envelope: nat, hasSalt: bool, mode: FrameMode)
    ensures var positions := Positions(g, c, cover);
            Measures(FitOf(g, c, cover, envelope, hasSalt, mode), c.id, positions, FramedRoom(positions, hasSalt,
                                                                                              mode), envelope)
  {
    hide FramedRoom, Positions, DensityBudget;
    var positions := Positions(g, c, cover);
    var holds := envelope <= FramedRoom(positions, hasSalt, mode);
    BudgetIsCeiling(positions, envelope, Conceal);
    BudgetIsCeiling(positions, envelope, Sign);
    BudgetIsCeiling(positions, envelope, Mark);
    assert StrictestFrom(positions, envelope, holds, 2) ==
           if holds && envelope <= DensityBudget(positions, Mark) then Some(Mark) else None;
    assert StrictestFrom(positions, envelope, holds, 1) ==
           if holds && envelope <= DensityBudget(positions, Sign) then Some(Sign)
           else StrictestFrom(positions, envelope, holds, 2);
  }

  /** A stricter mission first, then a lower fill, then the caller's order. */
  ghost predicate Ahead(g: Geometry, methods: seq<Carrier>, cover: string, envelope: nat, hasSalt: bool,
                        mode: FrameMode,
                        i: nat, j: nat)
    requires i < |methods| && j < |methods|
  {
    var p, q := Positions(g, methods[i], cover), Positions(g, methods[j], cover);
    var a := Looseness(p, FramedRoom(p, hasSalt, mode), envelope);
    var b := Looseness(q, FramedRoom(q, hasSalt, mode), envelope);
    a < b || (a == b && (Fill(envelope, p) < Fill(envelope, q) || (Fill(envelope, p) == Fill(envelope, q) && i < j)))
  }

  /** A list of indices with every index once. */
  ghost predicate Permutes(order: seq<nat>, n: nat) {
    |order| == n && (forall k :: 0 <= k < n ==> order[k] < n) && forall k, l :: 0 <= k < l < n ==> order[k] != order[l]
  }

  /** The `i`-th fit is before the `j`-th, as a stable sort has it. */
  ghost predicate Stays(fits: seq<CarrierFit>, i: nat, j: nat)
    requires i < |fits| && j < |fits|
  {
    if i < j then Precedes(fits[i], fits[j]) else !Precedes(fits[j], fits[i])
  }

  /** Where an insertion puts its entry: behind all that may stay before it, in front of all others. */
  lemma {:induction false} InsertSplits(sorted: seq<CarrierFit>, x: CarrierFit) returns (p: nat)
    requires InOrder(sorted)
    ensures p <= |sorted| && Insert(sorted, x) == sorted[..p] + [x] + sorted[p..]
    ensures forall k :: 0 <= k < |sorted| ==> (Precedes(sorted[k], x) <==> k < p)
  {
    hide Rank;
    var n := |sorted|;
    if n == 0 {
      p := 0;
    } else if Precedes(sorted[n - 1], x) {
      p := n;
      assert sorted[..n] == sorted && sorted[n..] == [];
    } else {
      p := InsertSplits(sorted[..n - 1], x);
      assert sorted[..n - 1][..p] == sorted[..p] && sorted[..n - 1][p..] + [sorted[n - 1]] == sorted[p..];
    }
  }

  /** The sort, entry by entry: which of the fits stands where. */
  lemma {:induction false} SortedTracks(fits: seq<CarrierFit>) returns (order: seq<nat>)
    ensures Permutes(order, |fits|) && |Sorted(fits)| == |fits|
    ensures forall k :: 0 <= k < |fits| ==> Sorted(fits)[k] == fits[order[k]]
    ensures forall k, l :: 0 <= k < l < |fits| ==> Stays(fits, order[k], order[l])
  {
    hide Insert, Precedes;
    if fits == [] {
      order := [];
    } else {
      var n := |fits| - 1;
      var x := fits[n];
      var before := SortedTracks(fits[..n]);
      SortedOrders(fits[..n]);
      var p := InsertSplits(Sorted(fits[..n]), x);
      order := before[..p] + [n] + before[p..];
      TrackInsert(fits, before, p);
    }
  }

  lemma TrackInsert(fits: seq<CarrierFit>, before: seq<nat>, p: nat)
    requires fits != [] && p < |fits| && Permutes(before, |fits| - 1)
    requires forall k, l :: 0 <= k < l < |before| ==> Stays(fits[..|fits| - 1], before[k], before[l])
    requires forall k :: 0 <= k < |before| ==> (Precedes(fits[before[k]], fits[|fits| - 1]) <==> k < p)
    ensures var order := before[..p] + [|fits| - 1] + before[p..];
            Permutes(order, |fits|) && forall k, l :: 0 <= k < l < |fits| ==> Stays(fits, order[k], order[l])
  {
    hide Precedes;
    var order := before[..p] + [|fits| - 1] + before[p..];
    forall k | 0 <= k < |fits|
      ensures order[k] == if k < p then before[k] else if k == p then |fits| - 1 else before[k - 1]
    {
    }
    forall k, l | 0 <= k < l < |fits|
      ensures order[k] != order[l] && Stays(fits, order[k], order[l])
    {
      var a, b := if k < p then k else k - 1, if l < p then l else l - 1;
      if k != p && l != p {
        assert Stays(fits[..|fits| - 1], before[a], before[b]);
      }
    }
  }

  /**
   The advice, in plain figures. Every carrier is listed once, as it was measured; the list is in order of the strictest
   mission cleared, then of the fill, then as the caller gave them; and the pick is the first of the list, if that
   clears any mission.
   */
  lemma ListedBestFirst(g: Geometry, keyed: Keyed, cover: string, secretLen: nat, methods: seq<Carrier>,
                        crypto: Option<Choice>, mode: FrameMode, probeKey: Key, nonce: nat, r: Recommendation)
    returns (order: seq<nat>)
    requires Recommend(g, keyed, cover, secretLen, methods, crypto, mode, probeKey, nonce) == Ok(r)
    ensures |methods| > 0 && Permutes(order, |methods|) && |r.carriers| == |methods|
    ensures forall k :: 0 <= k < |methods| ==>
              var positions := Positions(g, methods[order[k]], cover);
              Measures(r.carriers[k], methods[order[k]].id, positions,
                       FramedRoom(positions, FrameCarriesSalt(crypto), mode), r.envelopeBytes)
    ensures forall k, l :: 0 <= k < l < |methods| ==>
              Ahead(g, methods, cover, r.envelopeBytes, FrameCarriesSalt(crypto), mode, order[k], order[l])
    ensures r.fits <==> r.carriers[0].strictest.Some?
    ensures r.fits ==> r.carrier == Some(r.carriers[0].carrier) && r.mission == r.carriers[0].strictest
    ensures !r.fits ==> r.carrier == None && r.mission == None
  {
    hide FitOf, Sorted, Precedes, Hold, Positions, FramedRoom, SealShape, FrameCarriesSalt, EnvelopeLen, Looseness,
         Fill;
    var envelope, salted := r.envelopeBytes, FrameCarriesSalt(crypto);
    var fits := FitsOf(g, methods, cover, envelope, salted, mode);
    order := SortedTracks(fits);
    SortedOrders(fits);
    forall i | 0 <= i < |methods|
      ensures var positions := Positions(g, methods[i], cover);
              Measures(fits[i], methods[i].id, positions, FramedRoom(positions, salted, mode), envelope)
    {
      FitMeasures(g, methods[i], cover, envelope, salted, mode);
    }
    forall k, l | 0 <= k < l < |methods|
      ensures Ahead(g, methods, cover, envelope, salted, mode, order[k], order[l])
    {
      assert Stays(fits, order[k], order[l]);
      StaysAhead(g, methods, cover, envelope, salted, mode, fits, order[k], order[l]);
    }
    NoneAfterNoneHolds(r.carriers);
  }

  lemma NoneAfterNoneHolds(sorted: seq<CarrierFit>)
    requires InOrder(sorted) && sorted != []
    ensures FirstHolding(sorted).Some? <==> sorted[0].strictest.Some?
    ensures sorted[0].strictest.Some? ==> FirstHolding(sorted) == Some(sorted[0])
  {
    hide Precedes;
    NoneAfterNone(sorted);
  }

  lemma StaysAhead(g: Geometry, methods: seq<Carrier>, cover: string, envelope: nat, hasSalt: bool, mode: FrameMode,
                   fits: seq<CarrierFit>, i: nat, j: nat)
    requires |fits| == |methods| && i < |fits| && j < |fits| && i != j && Stays(fits, i, j)
    requires forall k :: 0 <= k < |fits| ==>
               var positions := Positions(g, methods[k], cover);
               Measures(fits[k], methods[k].id, positions, FramedRoom(positions, hasSalt, mode), envelope)
    ensures Ahead(g, methods, cover, envelope, hasSalt, mode, i, j)
  {
    hide Positions, FramedRoom, Clears, Fill;
    var p, q := Positions(g, methods[i], cover), Positions(g, methods[j], cover);
    assert Measures(fits[i], methods[i].id, p, FramedRoom(p, hasSalt, mode), envelope);
    assert Measures(fits[j], methods[j].id, q, FramedRoom(q, hasSalt, mode), envelope);
  }

  /** The shortfall is the least the envelope must shrink by for some carrier to clear Mark, the loosest mission. */
  lemma ShortfallIsLeast(g: Geometry, keyed: Keyed, cover: string, secretLen: nat, methods: seq<Carrier>,
                         crypto: Option<Choice>, mode: FrameMode, probeKey: Key, nonce: nat, r: Recommendation,
                           less: nat)
    requires Recommend(g, keyed, cover, secretLen, methods, crypto, mode, probeKey, nonce) == Ok(r)
    requires less <= r.envelopeBytes
    ensures r.shortfallBytes <= less <==>
            exists i :: 0 <= i < |methods| &&
              Clears(Positions(g, methods[i], cover),
                     FramedRoom(Positions(g, methods[i], cover), FrameCarriesSalt(crypto), mode),
                       r.envelopeBytes - less, Mark)
  {
    hide Positions, FramedRoom, SealShape, FrameCarriesSalt, EnvelopeLen, Sorted, DensityBudget, InOrder;
    RecommendationSound(g, keyed, cover, secretLen, methods, crypto, mode, probeKey, nonce, r);
    var salted := FrameCarriesSalt(crypto);
    var fits := FitsOf(g, methods, cover, r.envelopeBytes, salted, mode);
    forall i | 0 <= i < |methods|
      ensures var p := Positions(g, methods[i], cover);
              r.envelopeBytes - less <= Hold(fits[i]) <==>
              Clears(p, FramedRoom(p, salted, mode), r.envelopeBytes - less, Mark)
    {
      BudgetIsCeiling(Positions(g, methods[i], cover), r.envelopeBytes - less, Mark);
    }
    var best :| 0 <= best < |fits| && Hold(fits[best]) == BestHold(fits);
  }

  /**
   The recommendation is kept: encoding through the recommended carrier, under the recommended mission, meets neither
   gate's refusal. It succeeds on every cover the carrier will write into, if a frame can declare the envelope.
   */
  lemma RecommendedEncodes(g: Geometry, keyed: Keyed, cover: string, hidden: seq<byte>, c: Carrier,
                           crypto: Option<Choice>, mode: FrameMode, probeKey: Key, probeNonce: nat, salt: Salt,
                           nonce: nat, extra: nat, shape: Shape)
    requires c.WellFormed() && !RewritesVisibleText(c) && hidden != [] && Adds(keyed, crypto, extra)
    requires SealShape(keyed, crypto, probeKey, probeNonce) == Ok(shape)
    requires Seal(keyed, hidden, crypto, salt, nonce).Ok?
    requires var envelope := EnvelopeLen(shape.chain, |hidden| + shape.overhead);
             FitOf(g, c, cover, envelope, FrameCarriesSalt(crypto), mode).strictest.Some?
    ensures var envelope := EnvelopeLen(shape.chain, |hidden| + shape.overhead);
            var mission := FitOf(g, c, cover, envelope, FrameCarriesSalt(crypto), mode).strictest;
            PassesDensityGate(g, c, cover, envelope, mission) &&
            PassesSizeGate(g, c, cover, envelope, FrameCarriesSalt(crypto), mode) &&
            (Encoding.Encode(g, keyed, cover, hidden, [c], crypto, mission, mode, salt, nonce).Ok? <==>
             CheckWritable(c, cover).Ok? && envelope <= FRAME_PAYLOAD_LIMIT)
  {
    hide FramedRoom, Positions, SealShape, Seal, Adds, FrameCarriesSalt, Sealed.Envelope, EnvelopeLen, CheckWritable,
         RewritesVisibleText, StackUpTo, DensityBudget, CoverBoundsWrites;
    var envelope := EnvelopeLen(shape.chain, |hidden| + shape.overhead);
    var mission := FitOf(g, c, cover, envelope, FrameCarriesSalt(crypto), mode).strictest;
    StrictestMeans(g, c, cover, envelope, FrameCarriesSalt(crypto), mode);
    ShapeIsMeasured(keyed, crypto, probeKey, probeNonce, hidden, salt, nonce, extra);
    var sealed := Seal(keyed, hidden, crypto, salt, nonce).value;
    SingleEncode(g, keyed, cover, hidden, c, crypto, mission, mode, salt, nonce);
    if CheckWritable(c, cover).Ok? {
      LayerAccepted(g, c, Stack(cover, USIZE_MAX), sealed, mission, mode);
    } else {
      UnwritableRefused(g, c, Stack(cover, USIZE_MAX), sealed, mission, mode);
    }
  }

  /** Encoding through one carrier is adding its one layer. */
  lemma SingleEncode(g: Geometry, keyed: Keyed, cover: string, hidden: seq<byte>, c: Carrier, crypto: Option<Choice>,
                     mission: Option<Mission>, mode: FrameMode, salt: Salt, nonce: nat)
    requires hidden != [] && Seal(keyed, hidden, crypto, salt, nonce).Ok?
    ensures Encoding.Encode(g, keyed, cover, hidden, [c], crypto, mission, mode, salt, nonce).Ok? <==>
            AddLayer(g, c, Stack(cover, USIZE_MAX), Seal(keyed, hidden, crypto, salt, nonce).value, mission, mode).Ok?
  {
    hide AddLayer, Seal, RewritesVisibleText, ValidateStack;
    var sealed := Seal(keyed, hidden, crypto, salt, nonce).value;
    var methods := [c];
    assert StackUpTo(g, methods, cover, sealed, mission, mode, 0) == Ok(Stack(cover, USIZE_MAX));
    assert StackUpTo(g, methods, cover, sealed, mission, mode, 1).Ok? <==>
           AddLayer(g, c, Stack(cover, USIZE_MAX), sealed, mission, mode).Ok?;
  }

  lemma UnwritableRefused(g: Geometry, c: Carrier, below: Stack, sealed: Sealed, mission: Option<Mission>,
                          mode: FrameMode)
    requires c.WellFormed() && !RewritesVisibleText(c) && CheckWritable(c, below.text).Err?
    ensures AddLayer(g, c, below, sealed, mission, mode).Err?
  {
    hide PlaceLayer, LayerBits, FramedRoom, Positions, RewritesVisibleText, CheckWritable, Sealed.Envelope,
         DensityBudget;
    PlacingSucceeds(g, c, below.text, sealed, mode);
  }
}
