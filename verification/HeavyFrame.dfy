/** The heavy frame: two preamble replicas and resync markers around the payload region. */
module HeavyFrames {
  import opened Results
  import opened Bytes
  import opened Preambles

  const MARKER_BITS := 32
  const MIN_MARKER_SPACING := 64
  const MAX_MARKER_SPACING := 512
  const TAIL_SWEEP := 8
  const SPAN_SEARCH_ROUNDS := 64
  const MINIMUM_POSITIONS := 2 * PREAMBLE_BITS + 8

  /** A stretch of free positions: its start and its length. */
  datatype Slot = Slot(start: nat, len: nat)

  datatype Layout = Layout(written: nat, spacing: nat, markers: seq<nat>, slots: seq<Slot>) {
    function CapacityBits(): nat {
      var free := Total(slots);
      free - free % 8
    }
  }

  datatype FrameContents = FrameContents(preamble: Preamble, payload: seq<byte>)

  function Spacing(positions: nat): (n: nat)
    ensures MIN_MARKER_SPACING <= n <= MAX_MARKER_SPACING
  {
    if positions / 8 < MIN_MARKER_SPACING then MIN_MARKER_SPACING
    else if positions / 8 > MAX_MARKER_SPACING then MAX_MARKER_SPACING
    else positions / 8
  }

  /** Markers at `offset`, `offset + spacing`, ... inside the region that ends at `end`. */
  function MarkersFrom(offset: nat, spacing: nat, end: nat): seq<nat>
    requires spacing > 0
    decreases end + spacing - offset
  {
    if offset + MARKER_BITS > end then []
    else (if offset >= PREAMBLE_BITS then [offset] else []) + MarkersFrom(offset + spacing, spacing, end)
  }

  function SlotsFrom(cursor: nat, markers: seq<nat>, end: nat): seq<Slot>
    decreases markers
  {
    if markers == [] then if end > cursor then [Slot(cursor, end - cursor)] else []
    else (if markers[0] > cursor then [Slot(cursor, markers[0] - cursor)] else []) +
         SlotsFrom(markers[0] + MARKER_BITS, markers[1..], end)
  }

  function Total(slots: seq<Slot>): nat {
    if slots == [] then 0 else slots[0].len + Total(slots[1..])
  }

  function LayoutOf(positions: nat): (r: Result<Layout>)
    ensures r.Ok? <==> positions - positions % 8 >= MINIMUM_POSITIONS
  {
    var written := positions - positions % 8;
    if written < MINIMUM_POSITIONS then Err(CapacityExceeded(MINIMUM_POSITIONS, written))
    else
      var spacing := Spacing(positions);
      var end := written - PREAMBLE_BITS;
      var markers := MarkersFrom(spacing, spacing, end);
      Ok(Layout(written, spacing, markers, SlotsFrom(PREAMBLE_BITS, markers, end)))
  }

  /** Payload bytes a heavy frame over `positions` holds. */
  function PayloadCapacityBytes(positions: nat): Result<nat> {
    var layout :- LayoutOf(positions);
    Ok(layout.CapacityBits() / 8)
  }

  // ─── The layout loops ───

  method ForPositions(positions: nat) returns (r: Result<Layout>)
    ensures r == LayoutOf(positions)
  {
    var written := positions - positions % 8;
    if written < MINIMUM_POSITIONS {
      return Err(CapacityExceeded(MINIMUM_POSITIONS, written));
    }
    var spacing := Spacing(positions);
    var end := written - PREAMBLE_BITS;
    var markers := MarkerOffsets(spacing, end);
    var slots := PourableSlots(markers, end);
    r := Ok(Layout(written, spacing, markers, slots));
  }

  lemma MarkersStep(markers: seq<nat>, offset: nat, spacing: nat, end: nat)
    requires spacing > 0 && offset + MARKER_BITS <= end
    ensures markers + MarkersFrom(offset, spacing, end) ==
            (if offset >= PREAMBLE_BITS then markers + [offset] else markers) +
            MarkersFrom(offset + spacing, spacing, end)
  {
  }

  method MarkerOffsets(spacing: nat, end: nat) returns (markers: seq<nat>)
    requires spacing > 0
    ensures markers == MarkersFrom(spacing, spacing, end)
  {
    markers := [];
    var occurrence := 1;
    ghost var all := MarkersFrom(spacing, spacing, end);
    ghost var reached := spacing;
    while true
      invariant reached == occurrence * spacing
      invariant all == markers + MarkersFrom(reached, spacing, end)
      decreases end + spacing - reached
    {
      var offset := occurrence * spacing;
      if offset + MARKER_BITS > end {
        break;
      }
      MarkersStep(markers, offset, spacing, end);
      if offset >= PREAMBLE_BITS {
        markers := markers + [offset];
      }
      Distribute(occurrence, spacing);
      occurrence := occurrence + 1;
      reached := reached + spacing;
    }
    assert markers + [] == markers;
  }

  lemma Distribute(n: nat, spacing: nat)
    ensures (n + 1) * spacing == n * spacing + spacing
  {
  }

  lemma SlotsStep(cursor: nat, markers: seq<nat>, end: nat, i: nat, slots: seq<Slot>)
    requires i < |markers|
    ensures slots + SlotsFrom(cursor, markers[i..], end) ==
            (if markers[i] > cursor then slots + [Slot(cursor, markers[i] - cursor)] else slots)
            + SlotsFrom(markers[i] + MARKER_BITS, markers[i + 1..], end)
  {
    assert markers[i..][1..] == markers[i + 1..];
  }

  method PourableSlots(markers: seq<nat>, end: nat) returns (slots: seq<Slot>)
    ensures slots == SlotsFrom(PREAMBLE_BITS, markers, end)
  {
    slots := [];
    var cursor: nat := PREAMBLE_BITS;
    ghost var goal := SlotsFrom(PREAMBLE_BITS, markers, end);
    assert markers[0..] == markers;
    for i := 0 to |markers|
      invariant goal == slots + SlotsFrom(cursor, markers[i..], end)
    {
      SlotsStep(cursor, markers, end, i, slots);
      var marker := markers[i];
      if marker > cursor {
        slots := slots + [Slot(cursor, marker - cursor)];
      }
      cursor := marker + MARKER_BITS;
    }
    assert markers[|markers|..] == [];
    if end > cursor {
      slots := slots + [Slot(cursor, end - cursor)];
    }
  }

  // ─── Building and reading ───

  function Overwrite(s: seq<bool>, at: nat, piece: seq<bool>): (r: seq<bool>)
    requires at + |piece| <= |s|
    ensures |r| == |s|
    ensures r[at..at + |piece|] == piece && r[..at] == s[..at] && r[at + |piece|..] == s[at + |piece|..]
  {
    s[..at] + piece + s[at + |piece|..]
  }

  function Reverse(s: seq<bool>): (r: seq<bool>)
    ensures |r| == |s|
    ensures forall i :: 0 <= i < |s| ==> r[i] == s[|s| - 1 - i]
  {
    seq(|s|, i requires 0 <= i < |s| => s[|s| - 1 - i])
  }

  lemma ReverseTwice(s: seq<bool>)
    ensures Reverse(Reverse(s)) == s
  {
  }

  /** Slots in order, apart, between `lo` and `hi`. */
  ghost predicate Ordered(slots: seq<Slot>, lo: nat, hi: nat)
    decreases slots
  {
    slots == [] || (lo <= slots[0].start && slots[0].start + slots[0].len <= hi &&
                    Ordered(slots[1..], slots[0].start + slots[0].len, hi))
  }

  /** No slot reaches past the first `n` positions. */
  ghost predicate Within(slots: seq<Slot>, n: nat) {
    slots == [] || (slots[0].start + slots[0].len <= n && Within(slots[1..], n))
  }

  lemma {:induction false} WithinWider(slots: seq<Slot>, m: nat, n: nat)
    requires Within(slots, m) && m <= n
    ensures Within(slots, n)
  {
    if slots == [] {
    } else {
      WithinWider(slots[1..], m, n);
    }
  }

  /** Payload bits poured into the slots in document order. */
  function Pour(s: seq<bool>, slots: seq<Slot>, data: seq<bool>): (r: seq<bool>)
    requires Within(slots, |s|)
    ensures |r| == |s|
    decreases slots
  {
    if slots == [] || data == [] then s
    else
      var take := if slots[0].len <= |data| then slots[0].len else |data|;
      Pour(Overwrite(s, slots[0].start, data[..take]), slots[1..], data[take..])
  }

  /** The first `need` bits the slots hold. */
  function Gather(s: seq<bool>, slots: seq<Slot>, need: nat): seq<bool>
    requires Within(slots, |s|)
    decreases slots
  {
    if slots == [] || need == 0 then []
    else
      var take := if slots[0].len <= need then slots[0].len else need;
      s[slots[0].start..slots[0].start + take] + Gather(s, slots[1..], need - take)
  }

  lemma {:induction false} OrderedFits(slots: seq<Slot>, lo: nat, hi: nat, n: nat)
    requires Ordered(slots, lo, hi) && hi <= n
    ensures Within(slots, n)
    decreases slots
  {
    if slots == [] {
    } else {
      OrderedFits(slots[1..], slots[0].start + slots[0].len, hi, n);
    }
  }

  /** Pouring touches nothing outside the slots' bounds. */
  lemma {:induction false} PourFrames(s: seq<bool>, slots: seq<Slot>, data: seq<bool>, lo: nat, hi: nat)
    requires Ordered(slots, lo, hi) && lo <= hi <= |s|
    requires Within(slots, |s|)
    ensures Pour(s, slots, data)[..lo] == s[..lo] && Pour(s, slots, data)[hi..] == s[hi..]
    decreases slots
  {
    if slots == [] || data == [] {
    } else {
      var take := if slots[0].len <= |data| then slots[0].len else |data|;
      var at, next := slots[0].start, slots[0].start + slots[0].len;
      var s' := Overwrite(s, at, data[..take]);
      PourFrames(s', slots[1..], data[take..], next, hi);
      var r := Pour(s, slots, data);
      assert r[..lo] == r[..next][..lo] == s'[..at][..lo];
      assert s'[hi..] == s'[at + take..][hi - at - take..];
      assert s[hi..] == s[at + take..][hi - at - take..];
    }
  }

  lemma Nested(r: seq<bool>, s: seq<bool>, at: nat, to: nat, next: nat)
    requires at <= to <= next <= |r| == |s| && r[..next] == s[..next]
    ensures r[at..to] == s[at..to]
  {
    assert r[at..to] == r[..next][at..to] && s[at..to] == s[..next][at..to];
  }

  lemma GatherNothing(r: seq<bool>, slots: seq<Slot>)
    requires Within(slots, |r|)
    ensures Gather(r, slots, 0) == []
  {
  }

  lemma GatherStep(r: seq<bool>, slots: seq<Slot>, need: nat, take: nat)
    requires Within(slots, |r|) && slots != [] && need > 0
    requires take == if slots[0].len <= need then slots[0].len else need
    ensures Gather(r, slots, need) == r[slots[0].start..slots[0].start + take] + Gather(r, slots[1..], need - take)
  {
  }

  /** What was poured is what is gathered. */
  lemma {:induction false} GatherPour(s: seq<bool>, slots: seq<Slot>, data: seq<bool>, lo: nat, hi: nat)
    requires Ordered(slots, lo, hi) && lo <= hi <= |s| && |data| <= Total(slots)
    requires Within(slots, |s|)
    ensures Gather(Pour(s, slots, data), slots, |data|) == data
    decreases slots
  {
    hide Overwrite, Gather;
    if slots == [] || data == [] {
      GatherNothing(Pour(s, slots, data), slots);
    } else {
      var take := if slots[0].len <= |data| then slots[0].len else |data|;
      var at, next := slots[0].start, slots[0].start + slots[0].len;
      var first, others := data[..take], data[take..];
      var s' := Overwrite(s, at, first);
      GatherPour(s', slots[1..], others, next, hi);
      PourFrames(s', slots[1..], others, next, hi);
      var r := Pour(s', slots[1..], others);
      Nested(r, s', at, at + take, next);
      GatherStep(r, slots, |data|, take);
      assert data == first + others;
    }
  }

  function Marked(s: seq<bool>, markers: seq<nat>, spacing: nat): (r: seq<bool>)
    requires spacing > 0 && forall k :: 0 <= k < |markers| ==> markers[k] + MARKER_BITS <= |s|
    ensures |r| == |s|
    decreases markers
  {
    if markers == [] then s
    else
      var bits := BytesToBits(MAGIC + Be16(markers[0] / spacing % 0x1_0000));
      Marked(Overwrite(s, markers[0], bits), markers[1..], spacing)
  }

  lemma {:induction false} MarkedFrames(s: seq<bool>, markers: seq<nat>, spacing: nat, lo: nat, hi: nat)
    requires lo <= hi <= |s| && spacing > 0
    requires forall k :: 0 <= k < |markers| ==> lo <= markers[k] && markers[k] + MARKER_BITS <= hi
    ensures Marked(s, markers, spacing)[..lo] == s[..lo] && Marked(s, markers, spacing)[hi..] == s[hi..]
    decreases markers
  {
    if markers == [] {
    } else {
      var bits := BytesToBits(MAGIC + Be16(markers[0] / spacing % 0x1_0000));
      var s' := Overwrite(s, markers[0], bits);
      MarkedFrames(s', markers[1..], spacing, lo, hi);
      assert s'[..lo] == s'[..markers[0]][..lo] == s[..lo];
      var n := markers[0] + MARKER_BITS;
      assert s'[hi..] == s'[n..][hi - n..] == s[n..][hi - n..] == s[hi..];
    }
  }

  ghost predicate Placed(markers: seq<nat>, end: nat) {
    forall k :: 0 <= k < |markers| ==> PREAMBLE_BITS <= markers[k] && markers[k] + MARKER_BITS <= end
  }

  /** Markers lie inside the payload region. */
  lemma {:induction false} MarkersPlaced(offset: nat, spacing: nat, end: nat)
    requires spacing > 0
    ensures Placed(MarkersFrom(offset, spacing, end), end)
    decreases end + spacing - offset
  {
    if offset + MARKER_BITS > end {
    } else {
      MarkersPlaced(offset + spacing, spacing, end);
      var first: seq<nat> := if offset >= PREAMBLE_BITS then [offset] else [];
      PlacedConcat(first, MarkersFrom(offset + spacing, spacing, end), end);
    }
  }

  lemma PlacedConcat(a: seq<nat>, b: seq<nat>, end: nat)
    requires Placed(a, end) && Placed(b, end)
    ensures Placed(a + b, end)
  {
  }

  ghost predicate Apart(cursor: nat, markers: seq<nat>, end: nat)
    decreases markers
  {
    if markers == [] then cursor <= end
    else cursor <= markers[0] && Apart(markers[0] + MARKER_BITS, markers[1..], end)
  }

  lemma {:induction false} MarkersApart(cursor: nat, offset: nat, spacing: nat, end: nat)
    requires spacing >= MIN_MARKER_SPACING && cursor <= end
    requires cursor <= offset || cursor == PREAMBLE_BITS
    ensures Apart(cursor, MarkersFrom(offset, spacing, end), end)
    decreases end + spacing - offset
  {
    if offset + MARKER_BITS > end {
    } else if offset >= PREAMBLE_BITS {
      MarkersApart(offset + MARKER_BITS, offset + spacing, spacing, end);
      var m := MarkersFrom(offset, spacing, end);
      assert m[0] == offset && m[1..] == MarkersFrom(offset + spacing, spacing, end);
    } else {
      MarkersApart(cursor, offset + spacing, spacing, end);
      assert MarkersFrom(offset, spacing, end) == MarkersFrom(offset + spacing, spacing, end);
    }
  }

  /** The slots fill the region but for 32 positions a marker. */
  lemma {:induction false} SlotsFill(cursor: nat, markers: seq<nat>, end: nat)
    requires Apart(cursor, markers, end)
    ensures Ordered(SlotsFrom(cursor, markers, end), cursor, end)
    ensures cursor + Total(SlotsFrom(cursor, markers, end)) + MARKER_BITS * |markers| == end
    decreases markers
  {
    if markers == [] {
      var slots := SlotsFrom(cursor, markers, end);
      if end > cursor {
        assert slots[1..] == [];
      }
    } else {
      var next := markers[0] + MARKER_BITS;
      SlotsFill(next, markers[1..], end);
      var rest := SlotsFrom(next, markers[1..], end);
      OrderedFrom(rest, next, markers[0], end);
      if markers[0] > cursor {
        var slots := [Slot(cursor, markers[0] - cursor)] + rest;
        assert slots[1..] == rest;
      } else {
        assert SlotsFrom(cursor, markers, end) == rest;
      }
    }
  }

  lemma OrderedFrom(slots: seq<Slot>, lo: nat, lower: nat, hi: nat)
    requires Ordered(slots, lo, hi) && lower <= lo
    ensures Ordered(slots, lower, hi)
  {
  }

  /** Markers and slots lie in order between the two replicas. */
  ghost predicate Sound(layout: Layout) {
    var end := layout.written - PREAMBLE_BITS;
    layout.spacing > 0 && PREAMBLE_BITS <= end && Placed(layout.markers, end) &&
    Ordered(layout.slots, PREAMBLE_BITS, end) &&
    Within(layout.slots, layout.written)
  }

  /** The shape of every layout: slots ordered inside the region, its free bits counted exactly. */
  lemma LayoutShape(positions: nat)
    requires LayoutOf(positions).Ok?
    ensures var l := LayoutOf(positions).value;
            Sound(l) && l.CapacityBits() == Total(l.slots) == l.written - 2 * PREAMBLE_BITS - MARKER_BITS * |l.markers|
  {
    var l := LayoutOf(positions).value;
    var end := l.written - PREAMBLE_BITS;
    MarkersPlaced(l.spacing, l.spacing, end);
    MarkersApart(PREAMBLE_BITS, l.spacing, l.spacing, end);
    SlotsFill(PREAMBLE_BITS, l.markers, end);
    OrderedFits(l.slots, PREAMBLE_BITS, end, l.written);
    WholeBytes(l.written, |l.markers|, Total(l.slots));
  }

  lemma WholeBytes(written: nat, n: nat, total: nat)
    requires written % 8 == 0 && total + 2 * PREAMBLE_BITS + MARKER_BITS * n == written
    ensures total % 8 == 0
  {
    assert total == 8 * (written / 8 - 48 - 4 * n);
  }

  /** A blank stream with the preamble at its head and, reversed, at its tail. */
  function Replicas(preamble: seq<bool>, written: nat): (r: seq<bool>)
    requires |preamble| == PREAMBLE_BITS && 2 * PREAMBLE_BITS <= written
    ensures |r| == written
  {
    var headed := Overwrite(seq(written, _ => false), 0, preamble);
    Overwrite(headed, written - PREAMBLE_BITS, Reverse(preamble))
  }

  function Fill(layout: Layout, preamble: seq<bool>, data: seq<bool>): (r: seq<bool>)
    requires |preamble| == PREAMBLE_BITS && 2 * PREAMBLE_BITS <= layout.written && layout.spacing > 0
    requires forall k :: 0 <= k < |layout.markers| ==> layout.markers[k] + MARKER_BITS <= layout.written
    requires Within(layout.slots, layout.written)
    ensures |r| == layout.written
  {
    Pour(Marked(Replicas(preamble, layout.written), layout.markers, layout.spacing), layout.slots, data)
  }

  function Build(positions: nat, flags: Flags, salt: Salt, payload: seq<byte>): (r: Result<seq<bool>>)
    ensures r.Ok? <==> LayoutOf(positions).Ok? && payload != [] && |payload| * 8 < 0x1_0000 &&
                       |payload| * 8 <= LayoutOf(positions).value.CapacityBits()
    ensures r.Ok? ==> |r.value| == positions - positions % 8
  {
    var layout :- LayoutOf(positions);
    var needed := |payload| * 8;
    if needed == 0 then Err(InvalidInput)
    else if needed > layout.CapacityBits() then Err(CapacityExceeded(needed, layout.CapacityBits()))
    else if needed >= 0x1_0000 then Err(CapacityExceeded(needed, 0xFFFF))
    else
      LayoutShape(positions);
      var preamble := Preamble(VERSION_V2, flags, salt, needed);
      Ok(Fill(layout, BytesToBits(preamble.ToBytes()), BytesToBits(payload)))
  }

  /** The head replica, and the tail replica read backwards. */
  function HeadReplica(bits: seq<bool>): Result<Preamble>
    requires PREAMBLE_BITS <= |bits|
  {
    Parse(BitsToBytes(bits[..PREAMBLE_BITS]))
  }

  function TailReplica(bits: seq<bool>, written: nat): Result<Preamble>
    requires PREAMBLE_BITS <= written <= |bits|
  {
    Parse(BitsToBytes(Reverse(bits[written - PREAMBLE_BITS..written])))
  }

  /** The payload the slots hold, once both replicas agree. */
  function ReadRegion(head: Result<Preamble>, tail: Result<Preamble>, bits: seq<bool>, layout: Layout)
    : Result<FrameContents>
    requires Within(layout.slots, |bits|)
  {
    var damaged := Err(DecodingFailed("frame"));
    if head.Err? then damaged
    else if tail.Err? then damaged
    else if tail.value != head.value then damaged
    else
      var payloadBits := head.value.payloadBits;
      if payloadBits % 8 != 0 then damaged
      else if payloadBits > layout.CapacityBits() then damaged
      else
        var collected := Gather(bits, layout.slots, payloadBits);
        if |collected| != payloadBits then damaged
        else Ok(FrameContents(head.value, BitsToBytes(collected)))
  }

  function Read(bits: seq<bool>): Result<FrameContents> {
    var layout :- LayoutOf(|bits|);
    LayoutShape(|bits|);
    WithinWider(layout.slots, layout.written, |bits|);
    ReadRegion(HeadReplica(bits), TailReplica(bits, layout.written), bits, layout)
  }

  /** Whatever reads declares its length in sixteen bits, in a preamble at the head of the stream. */
  lemma ReadPayloadShort(bits: seq<bool>)
    requires Read(bits).Ok?
    ensures |bits| >= PREAMBLE_BITS && Parse(BitsToBytes(bits[..PREAMBLE_BITS])).Ok?
    ensures |Read(bits).value.payload| * 8 < 0x1_0000
  {
    hide LayoutOf, Gather, TailReplica, Layout.CapacityBits, Parse, BitsToBytes, Sound, Within;
  }

  /** Bits that parse are the bits of the preamble they parse to. */
  lemma PreambleBits(bits: seq<bool>)
    requires |bits| == PREAMBLE_BITS && Parse(BitsToBytes(bits)).Ok?
    ensures bits == BytesToBits(Parse(BitsToBytes(bits)).value.ToBytes())
  {
    hide Parse, Preamble.ToBytes, BytesToBits, BitsToBytes;
    var bytes := BitsToBytes(bits);
    ParsesOnlyWritten(bytes);
    BytesToBitsInverts(bits);
    assert bytes[..24] == bytes;
  }

  /**
   Nothing reads as a heavy frame but a stream that holds the preamble twice, first at its head and, backwards, at the
   end of its whole bytes, and the payload is as long as the preamble says and no longer than the slots.
   */
  lemma ReadsOnlyReplicas(bits: seq<bool>)
    requires Read(bits).Ok?
    ensures var c := Read(bits).value;
            var end := |bits| - |bits| % 8;
            end >= 2 * PREAMBLE_BITS && bits[..PREAMBLE_BITS] == BytesToBits(c.preamble.ToBytes()) &&
            Reverse(bits[end - PREAMBLE_BITS..end]) == BytesToBits(c.preamble.ToBytes()) &&
            |c.payload| * 8 == c.preamble.payloadBits <= LayoutOf(|bits|).value.CapacityBits()
  {
    hide Gather, Layout.CapacityBits, Parse, BitsToBytes, BytesToBits, Preamble.ToBytes, Sound, Within, Reverse,
         MarkersFrom, SlotsFrom;
    LayoutShape(|bits|);
    var end := |bits| - |bits| % 8;
    assert LayoutOf(|bits|).value.written == end;
    PreambleBits(bits[..PREAMBLE_BITS]);
    PreambleBits(Reverse(bits[end - PREAMBLE_BITS..end]));
  }

  /** A preamble from the head of the stream, or from the reversed tail replica. */
  function LocatePreamble(bits: seq<bool>): Result<Preamble> {
    if |bits| >= PREAMBLE_BITS && Parse(BitsToBytes(bits[..PREAMBLE_BITS])).Ok?
    then Parse(BitsToBytes(bits[..PREAMBLE_BITS]))
    else SweepTail(bits, 0)
  }

  function SweepTail(bits: seq<bool>, drop: nat): Result<Preamble>
    decreases TAIL_SWEEP - drop
  {
    if drop >= TAIL_SWEEP || |bits| < PREAMBLE_BITS + drop then Err(DecodingFailed("frame"))
    else
      var end := |bits| - drop;
      var window := Parse(BitsToBytes(Reverse(bits[end - PREAMBLE_BITS..end])));
      if window.Ok? then window else SweepTail(bits, drop + 1)
  }

  lemma MiddleKept(s: seq<bool>, t: seq<bool>, u: seq<bool>, lo: nat, hi: nat)
    requires |s| == |t| == |u| && lo <= hi <= |s|
    requires t[..lo] == s[..lo] && t[hi..] == s[hi..] && u[..lo] == t[..lo] && u[hi..] == t[hi..]
    ensures u[..lo] == s[..lo] && u[hi..] == s[hi..]
  {
  }

  lemma Replicated(preamble: seq<bool>, written: nat)
    requires |preamble| == PREAMBLE_BITS && 2 * PREAMBLE_BITS <= written
    ensures var r := Replicas(preamble, written);
            r[..PREAMBLE_BITS] == preamble && r[written - PREAMBLE_BITS..] == Reverse(preamble)
  {
    var headed := Overwrite(seq(written, _ => false), 0, preamble);
    var r := Replicas(preamble, written);
    assert r[..PREAMBLE_BITS] == r[..written - PREAMBLE_BITS][..PREAMBLE_BITS] == headed[..PREAMBLE_BITS];
  }

  lemma FilledMiddle(s: seq<bool>, markers: seq<nat>, spacing: nat, slots: seq<Slot>, data: seq<bool>, end: nat)
    requires PREAMBLE_BITS <= end <= |s| && spacing > 0 && Placed(markers, end)
    requires Ordered(slots, PREAMBLE_BITS, end) && |data| <= Total(slots)
    requires Within(slots, |s|)
    ensures var r := Pour(Marked(s, markers, spacing), slots, data);
            r[..PREAMBLE_BITS] == s[..PREAMBLE_BITS] && r[end..] == s[end..] && Gather(r, slots, |data|) == data
  {
    var marked := Marked(s, markers, spacing);
    MarkedFrames(s, markers, spacing, PREAMBLE_BITS, end);
    PourFrames(marked, slots, data, PREAMBLE_BITS, end);
    GatherPour(marked, slots, data, PREAMBLE_BITS, end);
    MiddleKept(s, marked, Pour(marked, slots, data), PREAMBLE_BITS, end);
  }

  lemma FilledParts(layout: Layout, preamble: seq<bool>, data: seq<bool>)
    requires |preamble| == PREAMBLE_BITS && Sound(layout) && |data| <= Total(layout.slots)
    ensures var r := Fill(layout, preamble, data);
            r[..PREAMBLE_BITS] == preamble && r[layout.written - PREAMBLE_BITS..] == Reverse(preamble) &&
            Gather(r, layout.slots, |data|) == data
  {
    Replicated(preamble, layout.written);
    FilledMiddle(Replicas(preamble, layout.written), layout.markers, layout.spacing, layout.slots, data,
                 layout.written - PREAMBLE_BITS);
  }

  lemma ReplicasParse(p: Preamble, bits: seq<bool>)
    requires p.version == VERSION_V2 && |bits| == PREAMBLE_BITS && bits == BytesToBits(p.ToBytes())
    ensures Parse(BitsToBytes(bits)) == Ok(p) && Parse(BitsToBytes(Reverse(Reverse(bits)))) == Ok(p)
  {
    ReverseTwice(bits);
    BitsToBytesInverts(p.ToBytes(), []);
    assert bits + [] == bits && p.ToBytes() + BitsToBytes([]) == p.ToBytes();
    PreambleRoundTrip(p, []);
    assert p.ToBytes() + [] == p.ToBytes();
  }

  lemma PayloadReadsBack(payload: seq<byte>)
    ensures BitsToBytes(BytesToBits(payload)) == payload
  {
    BitsToBytesInverts(payload, []);
    assert BytesToBits(payload) + [] == BytesToBits(payload) && payload + BitsToBytes([]) == payload;
  }

  lemma BothReplicasRead(bits: seq<bool>, p: Preamble)
    requires p.version == VERSION_V2 && PREAMBLE_BITS <= |bits|
    requires bits[..PREAMBLE_BITS] == BytesToBits(p.ToBytes())
    requires bits[|bits| - PREAMBLE_BITS..] == Reverse(BytesToBits(p.ToBytes()))
    ensures HeadReplica(bits) == TailReplica(bits, |bits|) == Ok(p)
  {
    assert bits[|bits| - PREAMBLE_BITS..|bits|] == bits[|bits| - PREAMBLE_BITS..];
    ReplicasParse(p, bits[..PREAMBLE_BITS]);
  }

  lemma RegionReads(replica: Result<Preamble>, bits: seq<bool>, layout: Layout, p: Preamble, payload: seq<byte>)
    requires replica == Ok(p) && Sound(layout) && layout.written == |bits|
    requires p.payloadBits == |payload| * 8 <= layout.CapacityBits()
    requires Gather(bits, layout.slots, |payload| * 8) == BytesToBits(payload)
    ensures ReadRegion(replica, replica, bits, layout) == Ok(FrameContents(p, payload))
  {
    PayloadReadsBack(payload);
  }

  /** Positions past the last whole byte change nothing. */
  lemma SameLayout(positions: nat)
    ensures LayoutOf(positions - positions % 8) == LayoutOf(positions) || LayoutOf(positions).Err?
  {
  }

  /** A filled layout reads back: preamble from both replicas, payload from the slots. */
  lemma FilledReads(layout: Layout, p: Preamble, payload: seq<byte>)
    requires p.version == VERSION_V2 && Sound(layout) && p.payloadBits == |payload| * 8 <= layout.CapacityBits()
    requires |payload| * 8 <= Total(layout.slots)
    ensures var bits := Fill(layout, BytesToBits(p.ToBytes()), BytesToBits(payload));
            HeadReplica(bits) == TailReplica(bits, |bits|) == Ok(p) &&
            ReadRegion(Ok(p), Ok(p), bits, layout) == Ok(FrameContents(p, payload)) &&
            bits[..PREAMBLE_BITS] == BytesToBits(p.ToBytes())
  {
    hide Fill, Parse, ReadRegion, Layout.CapacityBits;
    FilledParts(layout, BytesToBits(p.ToBytes()), BytesToBits(payload));
    var bits := Fill(layout, BytesToBits(p.ToBytes()), BytesToBits(payload));
    BothReplicasRead(bits, p);
    RegionReads(Ok(p), bits, layout, p, payload);
  }

  lemma ReadThrough(bits: seq<bool>, layout: Layout, p: Preamble, payload: seq<byte>)
    requires LayoutOf(|bits|) == Ok(layout) && layout.written == |bits| && Sound(layout)
    requires HeadReplica(bits) == TailReplica(bits, |bits|) == Ok(p)
    requires ReadRegion(Ok(p), Ok(p), bits, layout) == Ok(FrameContents(p, payload))
    ensures Read(bits) == Ok(FrameContents(p, payload)) && LocatePreamble(bits) == Ok(p)
  {
    hide LayoutOf, ReadRegion, TailReplica, SweepTail, Parse;
  }

  lemma BuiltIsFilled(positions: nat, flags: Flags, salt: Salt, payload: seq<byte>)
    requires Build(positions, flags, salt, payload).Ok?
    ensures var layout := LayoutOf(positions).value;
            var p := Preamble(VERSION_V2, flags, salt, |payload| * 8);
            Sound(layout) && LayoutOf(|Build(positions, flags, salt, payload).value|) == Ok(layout) &&
            Build(positions, flags, salt, payload).value == Fill(layout, BytesToBits(p.ToBytes()), BytesToBits(payload))
  {
    hide Fill, Layout.CapacityBits, LayoutOf, Sound, BytesToBits, Preamble.ToBytes, Within;
    LayoutShape(positions);
    SameLayout(positions);
  }

  /** A built heavy frame reads back exactly: preamble from both replicas, payload from the slots. */
  lemma HeavyRoundTrip(positions: nat, flags: Flags, salt: Salt, payload: seq<byte>)
    requires Build(positions, flags, salt, payload).Ok?
    ensures var p := Preamble(VERSION_V2, flags, salt, |payload| * 8);
            var bits := Build(positions, flags, salt, payload).value;
            Read(bits) == Ok(FrameContents(p, payload)) && LocatePreamble(bits) == Ok(p) &&
            bits[..PREAMBLE_BITS] == BytesToBits(p.ToBytes())
  {
    hide Build, Fill, ReadRegion, LayoutOf, Layout.CapacityBits, HeadReplica, TailReplica, Read, LocatePreamble, Sound;
    var p := Preamble(VERSION_V2, flags, salt, |payload| * 8);
    var layout := LayoutOf(positions).value;
    LayoutShape(positions);
    BuiltIsFilled(positions, flags, salt, payload);
    FilledReads(layout, p, payload);
    ReadThrough(Build(positions, flags, salt, payload).value, layout, p, payload);
  }
  // ─── Where the markers stand ───

  lemma {:induction false} MultiplesMarked(i: nat, spacing: nat, end: nat, n: nat)
    requires spacing > 0 && i <= n
    ensures n * spacing in MarkersFrom(i * spacing, spacing, end) <==>
            PREAMBLE_BITS <= n * spacing && n * spacing + MARKER_BITS <= end
    decreases end + spacing - i * spacing
  {
    hide PREAMBLE_BITS;
    MultiplesOrdered(i, n, spacing);
    if i * spacing + MARKER_BITS > end {
    } else {
      Distribute(i, spacing);
      if i < n {
        MultiplesMarked(i + 1, spacing, end, n);
      } else {
        AllLater(i * spacing + spacing, spacing, end);
      }
    }
  }

  lemma MultiplesOrdered(i: nat, n: nat, spacing: nat)
    requires i <= n && spacing > 0
    ensures i * spacing <= n * spacing && (i < n ==> i * spacing < n * spacing)
  {
  }

  lemma {:induction false} AllLater(offset: nat, spacing: nat, end: nat)
    requires spacing > 0
    ensures forall m :: m in MarkersFrom(offset, spacing, end) ==> m >= offset
    decreases end + spacing - offset
  {
    if offset + MARKER_BITS > end {
    } else {
      AllLater(offset + spacing, spacing, end);
    }
  }

  lemma {:induction false} OnlyMultiples(i: nat, spacing: nat, end: nat, m: nat)
    requires spacing > 0 && m in MarkersFrom(i * spacing, spacing, end)
    ensures exists n: nat :: m == n * spacing
    decreases end + spacing - i * spacing
  {
    Distribute(i, spacing);
    if m != i * spacing {
      OnlyMultiples(i + 1, spacing, end, m);
    }
  }

  /**
   The markers are exactly the multiples of the spacing with room for one between the two replicas; the spacing is an
   eighth of the positions, kept between 64 and 512.
   */
  lemma MarkersExactly(positions: nat, n: nat)
    requires LayoutOf(positions).Ok?
    ensures var l := LayoutOf(positions).value;
            (n * l.spacing in l.markers <==>
             192 <= n * l.spacing && n * l.spacing + 32 + 192 <= positions - positions % 8) &&
            forall m :: m in l.markers ==> exists k: nat :: m == k * l.spacing
    ensures var spacing := LayoutOf(positions).value.spacing;
            if positions < 512 then spacing == 64
            else if positions >= 4096 then spacing == 512
            else 8 * spacing <= positions < 8 * spacing + 8
  {
    hide MarkersFrom, SlotsFrom;
    var l := LayoutOf(positions).value;
    var end := l.written - PREAMBLE_BITS;
    if n == 0 {
      AllMarked(l.spacing, end);
    } else {
      MultiplesMarked(1, l.spacing, end, n);
    }
    forall m | m in l.markers
      ensures exists k: nat :: m == k * l.spacing
    {
      OnlyMultiples(1, l.spacing, end, m);
    }
  }

  lemma AllMarked(spacing: nat, end: nat)
    requires spacing > 0
    ensures 0 !in MarkersFrom(spacing, spacing, end)
  {
    AllLater(spacing, spacing, end);
  }

  /** The slots leave `at` to `at + 32` alone. */
  ghost predicate Misses(slots: seq<Slot>, at: nat) {
    forall k :: 0 <= k < |slots| ==> slots[k].start + slots[k].len <= at || at + MARKER_BITS <= slots[k].start
  }

  lemma OverwriteMisses(s: seq<bool>, at: nat, piece: seq<bool>, m: nat)
    requires at + |piece| <= |s| && m + MARKER_BITS <= |s| && (at + |piece| <= m || m + MARKER_BITS <= at)
    ensures Overwrite(s, at, piece)[m..m + MARKER_BITS] == s[m..m + MARKER_BITS]
  {
  }

  lemma {:induction false} PourMisses(s: seq<bool>, slots: seq<Slot>, data: seq<bool>, m: nat)
    requires Within(slots, |s|) && Misses(slots, m) && m + MARKER_BITS <= |s|
    ensures Pour(s, slots, data)[m..m + MARKER_BITS] == s[m..m + MARKER_BITS]
    decreases slots
  {
    hide Overwrite;
    if slots == [] || data == [] {
    } else {
      var take := if slots[0].len <= |data| then slots[0].len else |data|;
      OverwriteMisses(s, slots[0].start, data[..take], m);
      PourMisses(Overwrite(s, slots[0].start, data[..take]), slots[1..], data[take..], m);
    }
  }

  lemma {:induction false} SlotsMiss(cursor: nat, markers: seq<nat>, end: nat, m: nat)
    requires Apart(cursor, markers, end) && (m in markers || m + MARKER_BITS <= cursor)
    ensures Misses(SlotsFrom(cursor, markers, end), m)
    decreases markers
  {
    if markers == [] {
    } else {
      var next := markers[0] + MARKER_BITS;
      if m == markers[0] || m + MARKER_BITS <= cursor {
        SlotsMiss(next, markers[1..], end, m);
      } else {
        ApartLater(next, markers[1..], end, m);
        SlotsMiss(next, markers[1..], end, m);
      }
    }
  }

  lemma {:induction false} ApartLater(cursor: nat, markers: seq<nat>, end: nat, m: nat)
    requires Apart(cursor, markers, end) && m in markers
    ensures cursor <= m && m + MARKER_BITS <= end
    decreases markers
  {
    if m != markers[0] {
      ApartLater(markers[0] + MARKER_BITS, markers[1..], end, m);
    } else {
      ApartEnds(m + MARKER_BITS, markers[1..], end);
    }
  }

  lemma {:induction false} ApartEnds(cursor: nat, markers: seq<nat>, end: nat)
    requires Apart(cursor, markers, end)
    ensures cursor <= end
    decreases markers
  {
    if markers != [] {
      ApartEnds(markers[0] + MARKER_BITS, markers[1..], end);
    }
  }

  /** The magic and the marker's number, in 16 bits. */
  function MarkerBits(n: nat): (s: seq<bool>)
    ensures |s| == MARKER_BITS
  {
    BytesToBits([0x53, 0x48, n / 256 % 256, n % 256])
  }

  lemma MarkerSpelled(n: nat)
    ensures BytesToBits(MAGIC + Be16(n % 0x1_0000)) == MarkerBits(n)
  {
    hide BytesToBits;
    assert n % 0x1_0000 / 256 == n / 256 % 256 && n % 0x1_0000 % 256 == n % 256;
    assert MAGIC + Be16(n % 0x1_0000) == [0x53, 0x48, n / 256 % 256, n % 256];
  }

  lemma Quotient(n: nat, spacing: nat)
    requires spacing > 0
    ensures n * spacing / spacing == n
  {
    var q := n * spacing / spacing;
    assert q * spacing <= n * spacing < q * spacing + spacing;
    if q < n {
      MultiplesOrdered(q + 1, n, spacing);
      Distribute(q, spacing);
    } else if n < q {
      MultiplesOrdered(n, q, spacing);
    }
  }

  lemma {:induction false} MarkedStands(s: seq<bool>, markers: seq<nat>, spacing: nat, cursor: nat, m: nat, n: nat)
    requires spacing > 0 && forall k :: 0 <= k < |markers| ==> markers[k] + MARKER_BITS <= |s|
    requires Apart(cursor, markers, |s|) && m + MARKER_BITS <= |s| && m == n * spacing
    ensures m in markers ==> Marked(s, markers, spacing)[m..m + MARKER_BITS] == MarkerBits(n)
    ensures m + MARKER_BITS <= cursor ==>
              Marked(s, markers, spacing)[m..m + MARKER_BITS] == s[m..m + MARKER_BITS]
    decreases markers
  {
    hide MarkerBits, Overwrite;
    if markers == [] {
    } else {
      var bits := BytesToBits(MAGIC + Be16(markers[0] / spacing % 0x1_0000));
      var s' := Overwrite(s, markers[0], bits);
      MarkedStands(s', markers[1..], spacing, markers[0] + MARKER_BITS, m, n);
      if m == markers[0] {
        Quotient(n, spacing);
        MarkerSpelled(n);
      }
      if m + MARKER_BITS <= cursor {
        OverwriteMisses(s, markers[0], bits, m);
      }
    }
  }

  lemma {:induction false} ApartWider(cursor: nat, markers: seq<nat>, end: nat, wider: nat)
    requires Apart(cursor, markers, end) && end <= wider
    ensures Apart(cursor, markers, wider)
    decreases markers
  {
    if markers != [] {
      ApartWider(markers[0] + MARKER_BITS, markers[1..], end, wider);
    }
  }

  ghost predicate MarkersFit(l: Layout) {
    forall k :: 0 <= k < |l.markers| ==> l.markers[k] + MARKER_BITS <= l.written
  }

  lemma MarkerInFill(l: Layout, preamble: seq<bool>, data: seq<bool>, n: nat)
    requires |preamble| == PREAMBLE_BITS && 2 * PREAMBLE_BITS <= l.written && l.spacing > 0
    requires Apart(PREAMBLE_BITS, l.markers, l.written - PREAMBLE_BITS) && Within(l.slots, l.written)
    requires MarkersFit(l)
    requires l.slots == SlotsFrom(PREAMBLE_BITS, l.markers, l.written - PREAMBLE_BITS)
    requires n * l.spacing in l.markers
    ensures n * l.spacing + MARKER_BITS <= l.written
    ensures Fill(l, preamble, data)[n * l.spacing..n * l.spacing + MARKER_BITS] == MarkerBits(n)
  {
    hide Marked, Pour, Replicas, MarkerBits, SlotsFrom, Within, Apart, Misses;
    var end, at := l.written - PREAMBLE_BITS, n * l.spacing;
    ApartLater(PREAMBLE_BITS, l.markers, end, at);
    SlotsMiss(PREAMBLE_BITS, l.markers, end, at);
    ApartWider(PREAMBLE_BITS, l.markers, end, l.written);
    var blank := Replicas(preamble, l.written);
    MarkedStands(blank, l.markers, l.spacing, PREAMBLE_BITS, at, n);
    PourMisses(Marked(blank, l.markers, l.spacing), l.slots, data, at);
  }

  lemma LayoutApart(positions: nat)
    requires LayoutOf(positions).Ok?
    ensures var l := LayoutOf(positions).value;
            var end := l.written - PREAMBLE_BITS;
            2 * PREAMBLE_BITS <= l.written && l.spacing > 0 && Apart(PREAMBLE_BITS, l.markers, end) &&
            Within(l.slots, l.written) && l.slots == SlotsFrom(PREAMBLE_BITS, l.markers, end) && MarkersFit(l) &&
            Ordered(l.slots, PREAMBLE_BITS, end)
  {
    hide MarkersFrom, SlotsFrom, Apart, Ordered;
    var l := LayoutOf(positions).value;
    LayoutShape(positions);
    MarkersApart(PREAMBLE_BITS, l.spacing, l.spacing, l.written - PREAMBLE_BITS);
  }

  /** In every built frame each marker stands whole, with its own number: no payload bit is poured over one. */
  lemma MarkersStand(positions: nat, flags: Flags, salt: Salt, payload: seq<byte>, n: nat)
    requires Build(positions, flags, salt, payload).Ok?
    ensures var at := n * LayoutOf(positions).value.spacing;
            at in LayoutOf(positions).value.markers ==>
              at + MARKER_BITS <= |Build(positions, flags, salt, payload).value| &&
              Build(positions, flags, salt, payload).value[at..at + MARKER_BITS] == MarkerBits(n)
  {
    hide Build, Fill, MarkerBits, LayoutOf, Apart, Within, SlotsFrom, BytesToBits, Ordered, Sound, MarkersFit,
         Preamble.ToBytes, Layout.CapacityBits;
    var l := LayoutOf(positions).value;
    var p := Preamble(VERSION_V2, flags, salt, |payload| * 8);
    BuiltIsFilled(positions, flags, salt, payload);
    LayoutApart(positions);
    if n * l.spacing in l.markers {
      MarkerInFill(l, BytesToBits(p.ToBytes()), BytesToBits(payload), n);
    }
  }

  // ─── Either replica locates ───

  ghost predicate StandsAtHead(bits: seq<bool>, p: Preamble) {
    p.version == 2 && |bits| >= PREAMBLE_BITS && bits[..PREAMBLE_BITS] == BytesToBits(p.ToBytes())
  }

  /** The preamble stands backwards, `drop` positions before the end. */
  ghost predicate StandsAtTail(bits: seq<bool>, p: Preamble, drop: nat) {
    p.version == 2 && |bits| >= PREAMBLE_BITS + drop &&
    Reverse(bits[|bits| - drop - PREAMBLE_BITS..|bits| - drop]) == BytesToBits(p.ToBytes())
  }

  lemma ParsesWritten(bits: seq<bool>, p: Preamble)
    requires |bits| == PREAMBLE_BITS && p.version == 2
    ensures Parse(BitsToBytes(bits)) == Ok(p) <==> bits == BytesToBits(p.ToBytes())
  {
    hide Parse, Preamble.ToBytes, BytesToBits, BitsToBytes, Reverse;
    if bits == BytesToBits(p.ToBytes()) {
      ReplicasParse(p, bits);
    }
    if Parse(BitsToBytes(bits)) == Ok(p) {
      PreambleBits(bits);
    }
  }

  lemma ParsedVersion(bytes: seq<byte>)
    requires Parse(bytes).Ok?
    ensures Parse(bytes).value.version == 2
  {
  }

  lemma WindowParses(bits: seq<bool>, drop: nat)
    requires |bits| >= PREAMBLE_BITS + drop
    ensures var end := |bits| - drop;
            Parse(BitsToBytes(Reverse(bits[end - PREAMBLE_BITS..end]))).Ok? <==>
            exists p: Preamble :: StandsAtTail(bits, p, drop)
  {
    hide Parse, Preamble.ToBytes, BytesToBits, BitsToBytes, Reverse;
    var end := |bits| - drop;
    var window := Reverse(bits[end - PREAMBLE_BITS..end]);
    var parsed := Parse(BitsToBytes(window));
    if parsed.Ok? {
      ParsedVersion(BitsToBytes(window));
      ParsesWritten(window, parsed.value);
      assert StandsAtTail(bits, parsed.value, drop);
    }
    forall p: Preamble | StandsAtTail(bits, p, drop)
      ensures parsed.Ok?
    {
      ParsesWritten(window, p);
    }
  }

  lemma {:induction false} SweepsExactly(bits: seq<bool>, drop: nat)
    ensures SweepTail(bits, drop).Ok? <==> exists d: nat, p: Preamble :: drop <= d < 8 && StandsAtTail(bits, p, d)
    decreases 8 - drop
  {
    hide Parse, BitsToBytes, Reverse, StandsAtTail;
    TailNeedsRoom(bits);
    if drop >= TAIL_SWEEP || |bits| < PREAMBLE_BITS + drop {
    } else {
      WindowParses(bits, drop);
      SweepsExactly(bits, drop + 1);
    }
  }

  lemma TailNeedsRoom(bits: seq<bool>)
    ensures forall d: nat, p: Preamble :: StandsAtTail(bits, p, d) ==> |bits| >= PREAMBLE_BITS + d
  {
  }

  /**
   A preamble is located exactly when one stands at the head, or backwards at the end with at most seven positions
   behind it: one replica alone is enough, whatever happened to the other.
   */
  lemma LocatesExactly(bits: seq<bool>)
    ensures LocatePreamble(bits).Ok? <==>
            (exists p: Preamble :: StandsAtHead(bits, p)) || exists d: nat, p: Preamble :: d < 8 && StandsAtTail(bits,
                                                                                                                 p, d)
  {
    hide Parse, Preamble.ToBytes, BytesToBits, BitsToBytes, Reverse, SweepTail;
    SweepsExactly(bits, 0);
    if |bits| >= PREAMBLE_BITS {
      var head := bits[..PREAMBLE_BITS];
      var parsed := Parse(BitsToBytes(head));
      if parsed.Ok? {
        ParsedVersion(BitsToBytes(head));
        ParsesWritten(head, parsed.value);
        assert StandsAtHead(bits, parsed.value);
      } else {
        forall p: Preamble | p.version == 2
          ensures !StandsAtHead(bits, p)
        {
          ParsesWritten(head, p);
        }
      }
    }
  }
  // ─── Where the payload stands ───

  /** Free positions before slot `k`. */
  function FreeBefore(slots: seq<Slot>, k: nat): nat
    requires k <= |slots|
  {
    if k == 0 then 0 else slots[0].len + FreeBefore(slots[1..], k - 1)
  }

  lemma PourOutside(s: seq<bool>, slots: seq<Slot>, data: seq<bool>, lo: nat, hi: nat, at: nat)
    requires Ordered(slots, lo, hi) && lo <= hi <= |s| && Within(slots, |s|) && at < lo
    ensures Pour(s, slots, data)[at] == s[at]
  {
    hide Pour;
    PourFrames(s, slots, data, lo, hi);
    assert Pour(s, slots, data)[..lo][at] == s[..lo][at];
  }

  lemma PourStep(s: seq<bool>, slots: seq<Slot>, data: seq<bool>, take: nat)
    requires Within(slots, |s|) && slots != [] && data != []
    requires take == if slots[0].len <= |data| then slots[0].len else |data|
    ensures Pour(s, slots, data) == Pour(Overwrite(s, slots[0].start, data[..take]), slots[1..], data[take..])
  {
  }

  lemma OverwriteAt(s: seq<bool>, at: nat, piece: seq<bool>, o: nat)
    requires at + |piece| <= |s| && o < |piece|
    ensures Overwrite(s, at, piece)[at + o] == piece[o]
  {
  }

  lemma {:induction false} PourPlaces(s: seq<bool>, slots: seq<Slot>, data: seq<bool>, lo: nat, hi: nat, k: nat, o: nat)
    requires Ordered(slots, lo, hi) && lo <= hi <= |s| && Within(slots, |s|)
    requires k < |slots| && o < slots[k].len && FreeBefore(slots, k) + o < |data|
    requires slots[k].start + o < |s|
    ensures Pour(s, slots, data)[slots[k].start + o] == data[FreeBefore(slots, k) + o]
    decreases slots
  {
    hide Overwrite, Pour;
    var take := if slots[0].len <= |data| then slots[0].len else |data|;
    var at, next := slots[0].start, slots[0].start + slots[0].len;
    var s' := Overwrite(s, at, data[..take]);
    PourStep(s, slots, data, take);
    if k == 0 {
      PourOutside(s', slots[1..], data[take..], next, hi, at + o);
      OverwriteAt(s, at, data[..take], o);
    } else {
      PourPlaces(s', slots[1..], data[take..], next, hi, k - 1, o);
    }
  }

  lemma PlacedInFill(l: Layout, preamble: seq<bool>, data: seq<bool>, k: nat, o: nat)
    requires |preamble| == PREAMBLE_BITS && 2 * PREAMBLE_BITS <= l.written && l.spacing > 0
    requires Within(l.slots, l.written) && Ordered(l.slots, PREAMBLE_BITS, l.written - PREAMBLE_BITS)
    requires MarkersFit(l)
    requires k < |l.slots| && o < l.slots[k].len && FreeBefore(l.slots, k) + o < |data|
    ensures l.slots[k].start + o < l.written
    ensures Fill(l, preamble, data)[l.slots[k].start + o] == data[FreeBefore(l.slots, k) + o]
  {
    hide Marked, Pour, Replicas, Ordered, Within, FreeBefore;
    SlotWithin(l.slots, l.written, k);
    PourPlaces(Marked(Replicas(preamble, l.written), l.markers, l.spacing), l.slots, data, PREAMBLE_BITS,
               l.written - PREAMBLE_BITS, k, o);
  }

  /** In every built frame the payload's bits stand in the free positions, in order. */
  lemma PayloadPlaced(positions: nat, flags: Flags, salt: Salt, payload: seq<byte>, k: nat, o: nat)
    requires Build(positions, flags, salt, payload).Ok?
    ensures var slots := LayoutOf(positions).value.slots;
            k < |slots| && o < slots[k].len && FreeBefore(slots, k) + o < 8 * |payload| ==>
              slots[k].start + o < |Build(positions, flags, salt, payload).value| &&
              Build(positions, flags, salt, payload).value[slots[k].start + o] ==
              BytesToBits(payload)[FreeBefore(slots, k) + o]
  {
    hide Build, Fill, LayoutOf, Apart, Within, SlotsFrom, BytesToBits, Ordered, Sound, FreeBefore, MarkersFit,
         Preamble.ToBytes, Layout.CapacityBits;
    var l := LayoutOf(positions).value;
    var p := Preamble(VERSION_V2, flags, salt, |payload| * 8);
    BuiltIsFilled(positions, flags, salt, payload);
    LayoutApart(positions);
    if k < |l.slots| && o < l.slots[k].len && FreeBefore(l.slots, k) + o < 8 * |payload| {
      PlacedInFill(l, BytesToBits(p.ToBytes()), BytesToBits(payload), k, o);
    }
  }

  lemma {:induction false} SlotWithin(slots: seq<Slot>, n: nat, k: nat)
    requires Within(slots, n) && k < |slots|
    ensures slots[k].start + slots[k].len <= n
    decreases slots
  {
    if k > 0 {
      SlotWithin(slots[1..], n, k - 1);
    }
  }
}
