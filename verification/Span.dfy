/** Sizing a heavy frame: the search for the smallest span that holds a payload. */
module Spans {
  import opened Results
  import opened Preambles
  import opened HeavyFrames

  function RoundUp8(n: nat): (m: nat)
    ensures m % 8 == 0 && n <= m < n + 8
  {
    n + (8 - n % 8) % 8
  }

  function FirstSpan(payloadBits: nat): nat {
    RoundUp8(2 * PREAMBLE_BITS + payloadBits)
  }

  /** The search from `span`: grow by the shortfall until the layout holds the payload. */
  function SearchFrom(span: nat, payloadBits: nat, rounds: nat, free: nat): Result<nat>
    decreases rounds, span
  {
    if rounds == 0 then Err(CapacityExceeded(payloadBits, free))
    else
      var layout :- LayoutOf(span);
      if layout.CapacityBits() >= payloadBits then Ok(span)
      else SearchFrom(span + RoundUp8(payloadBits - layout.CapacityBits()), payloadBits, rounds - 1,
                      layout.CapacityBits())
  }

  function MinimumSpan(payloadBits: nat): Result<nat> {
    SearchFrom(FirstSpan(payloadBits), payloadBits, SPAN_SEARCH_ROUNDS, 0)
  }

  /** The loop of the search. */
  method SearchSpan(payloadBits: nat) returns (r: Result<nat>)
    ensures r == MinimumSpan(payloadBits)
  {
    hide LayoutOf, RoundUp8;
    var span: nat := RoundUp8(2 * PREAMBLE_BITS + payloadBits);
    var free: nat := 0;
    ghost var goal := SearchFrom(span, payloadBits, SPAN_SEARCH_ROUNDS, free);
    for round := 0 to SPAN_SEARCH_ROUNDS
      invariant goal == SearchFrom(span, payloadBits, SPAN_SEARCH_ROUNDS - round, free)
    {
      var layout := ForPositions(span);
      if layout.Err? {
        return Err(layout.error);
      }
      free := layout.value.CapacityBits();
      if free >= payloadBits {
        return Ok(span);
      }
      span := span + RoundUp8(payloadBits - free);
    }
    r := Err(CapacityExceeded(payloadBits, free));
  }

  // ─── How the free bits grow with the span ───

  /** A span the frame can be laid over. */
  predicate Spannable(span: nat) {
    span % 8 == 0 && span >= MINIMUM_POSITIONS
  }

  function Markers(span: nat): nat
    requires Spannable(span)
  {
    |LayoutOf(span).value.markers|
  }

  /** Payload bits a span holds. */
  function Free(span: nat): nat
    requires Spannable(span)
  {
    LayoutOf(span).value.CapacityBits()
  }

  lemma FreeCounts(span: nat)
    requires Spannable(span)
    ensures Free(span) + 2 * PREAMBLE_BITS + MARKER_BITS * Markers(span) == span
  {
    LayoutShape(span);
  }

  lemma {:induction false} MoreRoom(offset: nat, spacing: nat, end: nat)
    requires spacing > 0
    ensures |MarkersFrom(offset, spacing, end)| <= |MarkersFrom(offset, spacing, end + 8)|
    decreases end + spacing - offset
  {
    if offset + MARKER_BITS > end {
    } else {
      MoreRoom(offset + spacing, spacing, end);
    }
  }

  lemma MultiplyMonotone(a: nat, b: nat, m: nat)
    ensures a <= b ==> a * m <= b * m
  {
  }

  lemma EighthMultiple(k: nat, m: nat)
    requires m > 0 && k * m + 224 <= 8 * m
    ensures k < 8
  {
    MultiplyMonotone(8, k, m);
  }

  /** While the spacing is an eighth of the span, a wider span loses no marker. */
  lemma {:induction false} WiderSpacing(k: nat, m: nat, o: nat)
    requires o == k * m
    requires m >= 64
    ensures |MarkersFrom(o, m, 8 * m - 192)| <= |MarkersFrom(o + k, m + 1, 8 * m - 184)|
    decreases 9 * m - o
  {
    if o + MARKER_BITS > 8 * m - 192 {
    } else {
      EighthMultiple(k, m);
      assert (k + 1) * m == o + m;
      WiderSpacing(k + 1, m, o + m);
    }
  }

  /** The markers never thin out as the span grows. */
  lemma MarkersGrow(span: nat)
    requires Spannable(span)
    ensures Markers(span) <= Markers(span + 8)
  {
    var m := span / 8;
    if m < 64 || m >= 512 {
      MoreRoom(Spacing(span), Spacing(span), span - PREAMBLE_BITS);
    } else {
      WiderSpacing(1, m, m);
      assert LayoutOf(span).value.markers == MarkersFrom(m, m, 8 * m - 192);
      assert LayoutOf(span + 8).value.markers == MarkersFrom(m + 1, m + 1, 8 * m - 184);
    }
  }

  /** The free bits never grow faster than the span. */
  lemma {:induction false} FreeGrowth(span: nat, n: nat)
    requires Spannable(span)
    ensures Free(span + 8 * n) <= Free(span) + 8 * n
    ensures Markers(span) <= Markers(span + 8 * n)
    decreases n
  {
    hide Free, Markers;
    if n == 0 {
    } else {
      FreeGrowth(span, n - 1);
      var last := span + 8 * (n - 1);
      assert last + 8 == span + 8 * n;
      MarkersGrow(last);
      FreeCounts(last);
      FreeCounts(last + 8);
    }
  }

  // ─── Minimality ───

  /** No span below `span` holds the payload. */
  ghost predicate NothingBelow(span: nat, payloadBits: nat) {
    forall s: nat :: Spannable(s) && s < span ==> Free(s) < payloadBits
  }

  lemma FirstSpanTight(payloadBits: nat)
    ensures NothingBelow(FirstSpan(payloadBits), payloadBits)
  {
    forall s: nat | Spannable(s) && s < FirstSpan(payloadBits)
      ensures Free(s) < payloadBits
    {
      FreeCounts(s);
      assert s / 8 < FirstSpan(payloadBits) / 8;
      assert s + 8 <= FirstSpan(payloadBits);
    }
  }

  lemma DeficitTight(span: nat, payloadBits: nat)
    requires Spannable(span) && NothingBelow(span, payloadBits) && Free(span) < payloadBits
    ensures NothingBelow(span + RoundUp8(payloadBits - Free(span)), payloadBits)
  {
    hide Free;
    var next := span + RoundUp8(payloadBits - Free(span));
    forall s: nat | Spannable(s) && s < next
      ensures Free(s) < payloadBits
    {
      if s >= span {
        var n := (s - span) / 8;
        assert s == span + 8 * n;
        FreeGrowth(span, n);
        assert s + 8 <= next;
      }
    }
  }

  lemma {:induction false} SearchMinimal(span: nat, payloadBits: nat, rounds: nat, free: nat)
    requires span % 8 == 0 && NothingBelow(span, payloadBits)
    requires SearchFrom(span, payloadBits, rounds, free).Ok?
    ensures var r := SearchFrom(span, payloadBits, rounds, free).value;
            Spannable(r) && Free(r) >= payloadBits && NothingBelow(r, payloadBits)
    decreases rounds
  {
    if LayoutOf(span).value.CapacityBits() >= payloadBits {
    } else {
      DeficitTight(span, payloadBits);
      SearchMinimal(span + RoundUp8(payloadBits - Free(span)), payloadBits, rounds - 1, Free(span));
    }
  }

  /** Any span the search returns holds the payload, and no smaller frame does. */
  lemma MinimumSpanIsSmallest(payloadBits: nat)
    requires MinimumSpan(payloadBits).Ok?
    ensures var r := MinimumSpan(payloadBits).value;
            Spannable(r) && Free(r) >= payloadBits &&
            forall s: nat :: Spannable(s) && s < r ==> Free(s) < payloadBits
  {
    FirstSpanTight(payloadBits);
    SearchMinimal(FirstSpan(payloadBits), payloadBits, SPAN_SEARCH_ROUNDS, 0);
  }

  // ─── The search never gives up ───

  lemma {:induction false} WideMarkers(k: nat, end: nat)
    requires k >= 1
    ensures |MarkersFrom(512 * k, 512, end)| == if 512 * k + 32 > end then 0 else (end - 32) / 512 - k + 1
    decreases end + 512 - 512 * k
  {
    if 512 * k + MARKER_BITS > end {
    } else {
      WideMarkers(k + 1, end);
      assert 512 * k + 512 == 512 * (k + 1);
    }
  }

  lemma MarkersOfWide(span: nat)
    requires Spannable(span) && span >= 4096
    ensures Markers(span) == (span - 224) / 512
  {
    WideMarkers(1, span - PREAMBLE_BITS);
  }

  /** 4800 positions past the first guess there is room, and few more markers than before. */
  lemma RoomAhead(payloadBits: nat)
    requires 0 < payloadBits < 0x1_0000
    ensures var first := FirstSpan(payloadBits);
            Free(first + 4800) >= payloadBits && Markers(first + 4800) <= Markers(first) + 17
  {
    var first := FirstSpan(payloadBits);
    MarkersOfWide(first + 4800);
    FreeCounts(first + 4800);
    if first >= 4096 {
      MarkersOfWide(first);
    }
  }

  lemma {:induction false} SearchEnds(span: nat, payloadBits: nat, rounds: nat, free: nat, limit: nat, left: nat)
    requires Spannable(span) && Spannable(limit) && NothingBelow(span, payloadBits)
    requires Free(limit) >= payloadBits && Markers(limit) <= Markers(span) + left && left + 2 <= rounds
    ensures SearchFrom(span, payloadBits, rounds, free).Ok?
    decreases rounds
  {
    hide Markers;
    if Free(span) >= payloadBits {
    } else {
      var next := span + RoundUp8(payloadBits - Free(span));
      NextSpan(span, payloadBits, limit);
      if Free(next) >= payloadBits {
      } else {
        SearchEnds(next, payloadBits, rounds - 1, Free(span), limit, left - 1);
      }
    }
  }

  /** A failed round moves to a span that is still not too wide and has more markers, unless it holds. */
  lemma NextSpan(span: nat, payloadBits: nat, limit: nat)
    requires Spannable(span) && Spannable(limit) && NothingBelow(span, payloadBits)
    requires Free(span) < payloadBits <= Free(limit)
    ensures var next := span + RoundUp8(payloadBits - Free(span));
            Spannable(next) && NothingBelow(next, payloadBits) && Markers(next) <= Markers(limit) &&
            (Free(next) < payloadBits ==> Markers(span) < Markers(next))
  {
    var next := span + RoundUp8(payloadBits - Free(span));
    DeficitTight(span, payloadBits);
    assert Spannable(next) && next <= limit;
    MarkersMonotone(next, limit);
    MarkersMonotone(span, next);
    FreeCounts(span);
    FreeCounts(next);
  }

  lemma MarkersMonotone(a: nat, b: nat)
    requires Spannable(a) && Spannable(b) && a <= b
    ensures Markers(a) <= Markers(b)
  {
    assert a + 8 * ((b - a) / 8) == b;
    FreeGrowth(a, (b - a) / 8);
  }

  /** Every payload the format can declare gets a span within the rounds allowed. */
  lemma MinimumSpanExists(payloadBits: nat)
    ensures 0 < payloadBits < 0x1_0000 ==> MinimumSpan(payloadBits).Ok?
    ensures payloadBits == 0 ==> MinimumSpan(payloadBits) == Err(CapacityExceeded(MINIMUM_POSITIONS, 384))
  {
    if 0 < payloadBits < 0x1_0000 {
      var first := FirstSpan(payloadBits);
      FirstSpanTight(payloadBits);
      RoomAhead(payloadBits);
      SearchEnds(first, payloadBits, SPAN_SEARCH_ROUNDS, 0, first + 4800, 17);
    }
  }
}
