/** Excerpts of saturated documents: what a stretch of the text still reads as, and when it is the secret. */
module Excerpts {
  import opened Results
  import opened Bytes
  import opened Preambles
  import opened LightFrames
  import Heavy = HeavyFrames
  import opened Envelopes
  import opened Checksums
  import opened Carriers
  import opened Composition
  import opened Sealing
  import opened Layers
  import Encoding
  import opened Decoding
  import opened Traces
  import opened RoundTrips
  import opened Capacities
  import opened Saturation

  // ─── Stretches of a text ───

  /** Any stretch of a text reads as a stretch of what the text reads as. */
  lemma ExcerptReadsWindow(c: Carrier, text: string, from: nat, to: nat)
    requires from <= to <= |text|
    ensures var lo, hi := |ReadPositions(c, text[..from])|, |ReadPositions(c, text[..to])|;
            lo <= hi <= |ReadPositions(c, text)| && ReadPositions(c, text[from..to]) == ReadPositions(c, text)[lo..hi]
  {
    hide ReadPositions;
    var a, b, rest := text[..from], text[from..to], text[to..];
    assert text == a + (b + rest) && text[..to] == a + b;
    ReadConcat(c, a, b + rest);
    ReadConcat(c, b, rest);
    ReadConcat(c, a, b);
  }

  /** The characters up to some place read as the first `n` bits. */
  lemma {:induction false} CutAfter(c: Carrier, text: string, n: nat) returns (k: nat)
    requires n <= |ReadPositions(c, text)|
    ensures k <= |text| && ReadPositions(c, text[..k]) == ReadPositions(c, text)[..n]
    ensures ReadPositions(c, text[k..]) == ReadPositions(c, text)[n..]
  {
    hide ReadPositions;
    if n == 0 {
      k := 0;
      NothingReads(c);
      assert text[0..] == text && text[..0] == "";
    } else {
      SomethingToRead(c, text);
      var first := ReadPositions(c, [text[0]]);
      var rest := ReadPositions(c, text[1..]);
      assert text == [text[0]] + text[1..];
      ReadConcat(c, [text[0]], text[1..]);
      OneCharacterReads(c, text[0]);
      var j := CutAfter(c, text[1..], n - |first|);
      k := j + 1;
      assert text[..k] == [text[0]] + text[1..][..j] && text[k..] == text[1..][j..];
      ReadConcat(c, [text[0]], text[1..][..j]);
      CutBehind(first, rest, n);
    }
  }

  lemma NothingReads(c: Carrier)
    ensures ReadPositions(c, "") == []
  {
  }

  lemma SomethingToRead(c: Carrier, text: string)
    requires ReadPositions(c, text) != []
    ensures text != ""
  {
  }

  lemma CutBehind(first: seq<bool>, rest: seq<bool>, n: nat)
    requires |first| <= n <= |first + rest|
    ensures (first + rest)[..n] == first + rest[..n - |first|] && (first + rest)[n..] == rest[n - |first|..]
  {
  }

  lemma OneCharacterReads(c: Carrier, ch: char)
    ensures |ReadPositions(c, [ch])| <= 1
  {
    assert [ch][1..] == "";
  }

  /** Every window of what a text reads as is what some stretch of the text reads as. */
  lemma WindowIsExcerpt(c: Carrier, text: string, lo: nat, hi: nat) returns (from: nat, to: nat)
    requires lo <= hi <= |ReadPositions(c, text)|
    ensures from <= to <= |text| && ReadPositions(c, text[from..to]) == ReadPositions(c, text)[lo..hi]
    ensures |ReadPositions(c, text[..from])| == lo && |ReadPositions(c, text[..to])| == hi
  {
    hide ReadPositions;
    from := CutAfter(c, text, lo);
    var k := CutAfter(c, text[from..], hi - lo);
    to := from + k;
    assert text[from..to] == text[from..][..k];
    ExcerptReadsWindow(c, text, from, to);
    assert text[..to] == text[..from] + text[from..to];
    ReadConcat(c, text[..from], text[from..to]);
  }

  // ─── Windows of a repeated frame ───

  lemma Shifted(a: seq<bool>, b: seq<bool>, lo: nat, hi: nat)
    requires lo <= hi <= |b|
    ensures (a + b)[|a| + lo..|a| + hi] == b[lo..hi]
  {
  }

  lemma Inner(bits: seq<bool>, lo: nat, hi: nat, from: nat, to: nat)
    requires lo <= hi <= |bits| && from <= to <= hi - lo
    ensures bits[lo..hi][from..to] == bits[lo + from..lo + to]
  {
    var inner, whole := bits[lo..hi][from..to], bits[lo + from..lo + to];
    assert forall i :: 0 <= i < to - from ==> inner[i] == whole[i];
  }

  lemma Monotone(a: nat, b: nat, n: nat)
    requires a <= b
    ensures a * n <= b * n
  {
  }

  /** Each copy of the frame is where its index says. */
  lemma {:induction false} CopyAt(frame: seq<bool>, copies: nat, k: nat)
    requires k < copies
    ensures k * |frame| + |frame| <= copies * |frame|
    ensures Repeat(frame, copies)[k * |frame|..k * |frame| + |frame|] == frame
    decreases k
  {
    var n := |frame|;
    Distributes(k, n);
    Monotone(k + 1, copies, n);
    if k == 0 {
      FirstCopyStands(frame, copies);
    } else {
      CopyAt(frame, copies - 1, k - 1);
      Distributes(k - 1, n);
      NextCopyStands(frame, copies, (k - 1) * n, k * n);
    }
  }

  lemma FirstCopyStands(frame: seq<bool>, copies: nat)
    requires copies > 0
    ensures |frame| <= |Repeat(frame, copies)| && Repeat(frame, copies)[..|frame|] == frame
  {
  }

  lemma NextCopyStands(frame: seq<bool>, copies: nat, before: nat, at: nat)
    requires copies > 0 && before + |frame| <= |Repeat(frame, copies - 1)|
    requires Repeat(frame, copies - 1)[before..before + |frame|] == frame
    requires at == before + |frame|
    ensures at + |frame| <= |Repeat(frame, copies)| && Repeat(frame, copies)[at..at + |frame|] == frame
  {
    Shifted(frame, Repeat(frame, copies - 1), before, before + |frame|);
  }

  /** Every window of all but one bit of two frames holds a whole copy that starts within the first frame's length. */
  lemma WindowHoldsCopy(frame: seq<bool>, copies: nat, lo: nat, hi: nat) returns (at: nat)
    requires frame != [] && lo <= hi <= copies * |frame| && hi - lo >= 2 * |frame| - 1
    ensures at < |frame| && at + |frame| <= hi - lo
    ensures Repeat(frame, copies)[lo..hi][at..at + |frame|] == frame
  {
    var n := |frame|;
    var k := FirstCopy(lo, hi, copies, n);
    at := k * n - lo;
    CopyAt(frame, copies, k);
    Inner(Repeat(frame, copies), lo, hi, at, at + n);
  }

  lemma DivisionBounds(a: nat, n: nat)
    requires n > 0
    ensures a / n * n <= a < a / n * n + n
  {
  }

  /** The first copy that starts inside the window. */
  lemma FirstCopy(lo: nat, hi: nat, copies: nat, n: nat) returns (k: nat)
    requires n > 0 && hi <= copies * n && hi - lo >= 2 * n - 1
    ensures k < copies && lo <= k * n < lo + n && k * n + n <= hi
  {
    k := (lo + n - 1) / n;
    DivisionBounds(lo + n - 1, n);
    if k >= copies {
      Monotone(copies, k, n);
    }
  }

  lemma AtLeast(k: nat, n: nat)
    requires n > 0
    ensures k <= k * n
  {
    Monotone(1, n, k);
  }

  /** More copies behind leave the copies in front as they were. */
  lemma {:induction false} RepeatFront(frame: seq<bool>, a: nat, b: nat)
    requires a <= b
    ensures a * |frame| <= b * |frame| && Repeat(frame, b)[..a * |frame|] == Repeat(frame, a)
  {
    Monotone(a, b, |frame|);
    if a == 0 {
    } else {
      RepeatFront(frame, a - 1, b - 1);
      Distributes(a - 1, |frame|);
      LongerFront(frame, Repeat(frame, b - 1), Repeat(frame, a - 1));
    }
  }

  lemma LongerFront(front: seq<bool>, long: seq<bool>, short: seq<bool>)
    requires |short| <= |long| && long[..|short|] == short
    ensures (front + long)[..|front| + |short|] == front + short
  {
  }

  lemma SameSlice(frame: seq<bool>, a: nat, b: nat, lo: nat, hi: nat)
    requires a <= b && lo <= hi <= a * |frame|
    ensures hi <= b * |frame| && Repeat(frame, b)[lo..hi] == Repeat(frame, a)[lo..hi]
  {
    RepeatFront(frame, a, b);
    SliceOfFront(Repeat(frame, b), a * |frame|, lo, hi);
  }

  lemma SliceOfFront(s: seq<bool>, n: nat, lo: nat, hi: nat)
    requires lo <= hi <= n <= |s|
    ensures s[..n][lo..hi] == s[lo..hi]
  {
  }

  /** The `m` bits from offset `r` of the frame on, the frame repeated for as long as it takes. */
  function Turn(frame: seq<bool>, r: nat, m: nat): (s: seq<bool>)
    requires frame != []
    ensures |s| == m
  {
    AtLeast(r + m, |frame|);
    Repeat(frame, r + m)[r..r + m]
  }

  /** However many copies there are. */
  lemma TurnIs(frame: seq<bool>, copies: nat, r: nat, m: nat)
    requires frame != [] && r + m <= copies * |frame|
    ensures Repeat(frame, copies)[r..r + m] == Turn(frame, r, m)
  {
    AtLeast(r + m, |frame|);
    if copies <= r + m {
      SameSlice(frame, copies, r + m, r, r + m);
    } else {
      SameSlice(frame, r + m, copies, r, r + m);
    }
  }

  lemma TurnTail(frame: seq<bool>, r: nat, m: nat, j: nat)
    requires frame != [] && j <= m
    ensures Turn(frame, r, m)[j..] == Turn(frame, r + j, m - j)
  {
    AtLeast(r + m, |frame|);
    Inner(Repeat(frame, r + m), r, r + m, j, m);
  }

  lemma TurnFront(frame: seq<bool>, r: nat, m: nat, n: nat)
    requires frame != [] && n <= m
    ensures Turn(frame, r, m)[..n] == Turn(frame, r, n)
  {
    AtLeast(r + m, |frame|);
    TurnIs(frame, r + m, r, n);
    Inner(Repeat(frame, r + m), r, r + m, 0, n);
  }

  /** Where copy `k` starts. */
  function CopyStart(k: nat, n: nat): int {
    k * n
  }

  /** From `lo` to `hi`, at least one whole copy of `n` bits is kept. */
  ghost predicate KeepsCopy(lo: nat, hi: nat, n: nat) {
    exists k :: lo <= CopyStart(k, n) && CopyStart(k, n) + n <= hi
  }

  /** A window of the copies that keeps one whole is a turn of the frame, from an offset inside it. */
  lemma {:induction false} WindowTurns(frame: seq<bool>, copies: nat, lo: nat, hi: nat, k: nat) returns (r: nat)
    requires frame != [] && lo <= k * |frame| && k * |frame| + |frame| <= hi <= copies * |frame|
    ensures r < |frame| && FirstWhole(frame, r) + |frame| <= hi - lo && r + (hi - lo) <= copies * |frame|
    ensures Repeat(frame, copies)[lo..hi] == Turn(frame, r, hi - lo)
    decreases copies
  {
    if lo < |frame| {
      r := lo;
      TurnIs(frame, copies, lo, hi - lo);
      LaterCopy(|frame|, k, lo);
    } else {
      NoCopies(|frame|, copies, lo);
      NoCopies(|frame|, k, lo);
      Distributes(copies - 1, |frame|);
      Distributes(k - 1, |frame|);
      r := WindowTurns(frame, copies - 1, lo - |frame|, hi - |frame|, k - 1);
      Shifted(frame, Repeat(frame, copies - 1), lo - |frame|, hi - |frame|);
    }
  }

  lemma LaterCopy(n: nat, k: nat, lo: nat)
    requires lo <= k * n
    ensures lo > 0 ==> k * n >= n
  {
    if k > 0 {
      Monotone(1, k, n);
    }
  }

  lemma NoCopies(n: nat, copies: nat, lo: nat)
    requires 0 < n <= lo <= copies * n
    ensures copies > 0
  {
  }

  /** Where the first whole copy starts in the turn from offset `r`. */
  function FirstWhole(frame: seq<bool>, r: nat): nat
    requires r < |frame|
  {
    if r == 0 then 0 else |frame| - r
  }

  lemma TurnHoldsCopy(frame: seq<bool>, r: nat, m: nat)
    requires r < |frame| && m >= FirstWhole(frame, r) + |frame|
    ensures var at := FirstWhole(frame, r);
            at + |frame| <= m && Turn(frame, r, m)[at..at + |frame|] == frame
  {
    var at, n := FirstWhole(frame, r), |frame|;
    AtLeast(r + m, n);
    Inner(Repeat(frame, r + m), r, r + m, at, at + n);
    if r == 0 {
      CopyAt(frame, r + m, 0);
    } else {
      CopyAt(frame, r + m, 1);
    }
  }

  lemma TurnOfTail(frame: seq<bool>, r: nat)
    requires r < |frame|
    ensures Turn(frame, r, 2 * |frame| - r) == (frame + frame)[r..]
  {
    TurnOfTwo(frame, r, 2 * |frame| - r);
    assert (frame + frame)[r..] == (frame + frame)[r..r + (2 * |frame| - r)];
  }

  /** What starts inside the first copy and ends inside the second can be read off two copies. */
  lemma TurnOfTwo(frame: seq<bool>, r: nat, n: nat)
    requires frame != [] && r + n <= 2 * |frame|
    ensures Turn(frame, r, n) == (frame + frame)[r..r + n]
  {
    TurnIs(frame, 2, r, n);
    assert Repeat(frame, 1) == frame + [] == frame;
    assert Repeat(frame, 2) == frame + Repeat(frame, 1);
  }

  // ─── When every excerpt reads ───

  /** This is what the sealed secret reads as. */
  ghost predicate Gives(contents: Heavy.FrameContents, sealed: Sealed) {
    contents.payload == sealed.Envelope() && (sealed.authenticated ==> contents.preamble.salt == sealed.salt)
  }

  /**
   Nothing misleads the reader at offset `r` of the frame: where two copies show the start of a light frame there, they
   read from there as the secret; otherwise no heavy frame reads there but one that gives the secret, in any stretch of
   up to `n` bits of the channel.
   */
  ghost predicate SoundAt(frame: seq<bool>, sealed: Sealed, n: int, r: nat)
    requires 0 < r < |frame|
  {
    var bits := (frame + frame)[r..];
    if OpensLight(bits) then ReadLight(bits).Ok? && Gives(Lift(ReadLight(bits).value), sealed)
    else forall m :: 2 * |frame| - r <= m && r + m <= n ==> HeavySound(Turn(frame, r, m), sealed)
  }

  ghost predicate HeavySound(bits: seq<bool>, sealed: Sealed) {
    Heavy.Read(bits).Ok? ==> Gives(Heavy.Read(bits).value, sealed)
  }

  /** A frame whose copies, cut anywhere, never pass for another frame. */
  ghost predicate Sound(frame: seq<bool>, sealed: Sealed, n: int) {
    forall r :: 0 < r < |frame| ==> SoundAt(frame, sealed, n, r)
  }

  lemma FrameIsLong(sealed: Sealed, frame: seq<bool>)
    requires FrameOf(sealed) == Ok(frame)
    ensures |frame| >= 64
  {
    hide Sealed.Envelope;
    WholeFrame(|sealed.Envelope()|, SaltOf(sealed).Some?);
  }

  /** The frame itself gives the secret. */
  lemma FrameGives(sealed: Sealed, frame: seq<bool>, bits: seq<bool>, at: nat)
    requires FrameOf(sealed) == Ok(frame) && at + |frame| <= |bits| && bits[at..at + |frame|] == frame
    ensures CandidateAt(bits, at).Some? && Gives(Lift(CandidateAt(bits, at).value), sealed)
  {
    hide BuildLight, CandidateAt, Sealed.Envelope, Scan;
    ScanFindsFrame(bits, at, CONCEAL_FLAGS, SaltOf(sealed), sealed.Envelope());
  }

  /** A light frame read from a turn of the frame is read alike from every longer one. */
  lemma TurnReadsAlike(frame: seq<bool>, r: nat, m: nat, n: nat)
    requires frame != [] && n <= m && ReadLight(Turn(frame, r, n)).Ok?
    ensures ReadLight(Turn(frame, r, m)) == ReadLight(Turn(frame, r, n))
  {
    hide ReadLight, Turn;
    TurnFront(frame, r, m, n);
    var bits := Turn(frame, r, m);
    assert bits == bits[..n] + bits[n..];
    LightStable(bits[..n], bits[n..]);
  }

  lemma TurnOpensAlike(frame: seq<bool>, r: nat, m: nat, n: nat)
    requires frame != [] && 24 <= n <= m
    ensures OpensLight(Turn(frame, r, m)) <==> OpensLight(Turn(frame, r, n))
  {
    hide PeekVersion, Turn;
    TurnFront(frame, r, m, n);
    var bits := Turn(frame, r, m);
    assert bits == bits[..n] + bits[n..];
    PeekStable(bits[..n], bits[n..]);
  }

  /** Whatever light frame reads at a sound offset gives the secret. */
  lemma SoundReads(frame: seq<bool>, sealed: Sealed, n: int, r: nat, m: nat)
    requires |frame| >= 64 && 0 < r < |frame| && SoundAt(frame, sealed, n, r) && ReadLight(Turn(frame, r, m)).Ok?
    ensures Gives(Lift(ReadLight(Turn(frame, r, m)).value), sealed)
  {
    hide ReadLight, Turn, Gives, OpensLight, HeavySound;
    var k := 2 * |frame| - r;
    TurnOfTail(frame, r);
    ReadsOpenLight(Turn(frame, r, m));
    if m <= k {
      TurnOpensAlike(frame, r, k, m);
      TurnReadsAlike(frame, r, k, m);
    } else {
      TurnOpensAlike(frame, r, m, k);
      TurnReadsAlike(frame, r, m, k);
    }
  }

  /** Reading takes the light frame at the start, else a heavy one, else the first light one found. */
  lemma ReadingGives(bits: seq<bool>, sealed: Sealed)
    requires IsFramed(bits)
    requires OpensLight(bits) ==> ReadLight(bits).Ok? && Gives(Lift(ReadLight(bits).value), sealed)
    requires !OpensLight(bits) ==> HeavySound(bits, sealed) && Scan(bits).Some? && Gives(Lift(Scan(bits).value), sealed)
    ensures Holds(bits, sealed)
  {
    hide ReadLight, Heavy.Read, Scan, IsFramed, Sealed.Envelope, PeekVersion, Lift;
  }

  /** Every window of a sound frame's copies reads as the secret. */
  lemma SoundHolds(frame: seq<bool>, sealed: Sealed, n: int, r: nat, m: nat)
    requires FrameOf(sealed) == Ok(frame) && frame != [] && Sound(frame, sealed, n)
    requires r < |frame| && m >= FirstWhole(frame, r) + |frame| && r + m <= n
    ensures Holds(Turn(frame, r, m), sealed)
  {
    hide FrameOf, Turn, ReadLight, Gives, OpensLight, HeavySound, IsFramed, Scan, CandidateAt, Holds, Heavy.Read,
         SoundAt;
    var bits, at := Turn(frame, r, m), FirstWhole(frame, r);
    FrameIsLong(sealed, frame);
    TurnHoldsCopy(frame, r, m);
    CopyFramed(sealed, frame, bits, at);
    FrameGives(sealed, frame, bits, at);
    if r == 0 {
      CopyFirst(sealed, frame, bits);
    } else {
      if OpensLight(bits) {
        StartSound(frame, sealed, n, r, m);
      } else {
        StartSound(frame, sealed, n, r, m);
        var j := FirstCandidate(bits, at);
        if j < at {
          TurnTail(frame, r, m, j);
          CandidateReads(bits, j);
          SoundReads(frame, sealed, n, r + j, m - j);
        }
      }
      ReadingGives(bits, sealed);
    }
  }

  lemma StartSound(frame: seq<bool>, sealed: Sealed, n: int, r: nat, m: nat)
    requires |frame| >= 64 && 0 < r < |frame| && SoundAt(frame, sealed, n, r)
    requires m >= 2 * |frame| - r && r + m <= n
    ensures var bits := Turn(frame, r, m);
            if OpensLight(bits) then ReadLight(bits).Ok? && Gives(Lift(ReadLight(bits).value), sealed)
            else HeavySound(bits, sealed)
  {
    hide Turn, ReadLight, Gives, OpensLight, HeavySound;
    TurnOfTail(frame, r);
    TurnOpensAlike(frame, r, m, 2 * |frame| - r);
    if OpensLight(Turn(frame, r, m)) {
      TurnReadsAlike(frame, r, m, 2 * |frame| - r);
    }
  }

  lemma CandidateReads(bits: seq<bool>, j: nat)
    requires j <= |bits| && CandidateAt(bits, j).Some?
    ensures ReadLight(bits[j..]) == Ok(CandidateAt(bits, j).value)
  {
  }

  /** A scan that meets a frame at `at` finds one there or earlier. */
  lemma FirstCandidate(bits: seq<bool>, at: nat) returns (j: nat)
    requires at + 64 <= |bits| && CandidateAt(bits, at).Some?
    ensures j <= at && CandidateAt(bits, j).Some? && Scan(bits) == CandidateAt(bits, j)
  {
    hide CandidateAt;
    j := FirstFrom(bits, 0, at);
  }

  lemma {:induction false} FirstFrom(bits: seq<bool>, offset: nat, at: nat) returns (j: nat)
    requires offset <= at && at + 16 <= |bits| && CandidateAt(bits, at).Some?
    ensures offset <= j <= at && CandidateAt(bits, j).Some? && ScanFrom(bits, offset) == CandidateAt(bits, j)
    decreases at - offset
  {
    hide CandidateAt;
    if CandidateAt(bits, offset).Some? {
      j := offset;
    } else {
      j := FirstFrom(bits, offset + 1, at);
    }
  }

  lemma CopyFramed(sealed: Sealed, frame: seq<bool>, bits: seq<bool>, at: nat)
    requires FrameOf(sealed) == Ok(frame) && at + |frame| <= |bits| && bits[at..at + |frame|] == frame
    ensures IsFramed(bits)
  {
    hide BuildLight, ReadLight, Heavy.LocatePreamble, CandidateAt, Sealed.Envelope, Scan, PeekVersion;
    ScanFindsFrame(bits, at, CONCEAL_FLAGS, SaltOf(sealed), sealed.Envelope());
  }

  lemma CopyFirst(sealed: Sealed, frame: seq<bool>, bits: seq<bool>)
    requires FrameOf(sealed) == Ok(frame) && |frame| <= |bits| && bits[0..|frame|] == frame
    ensures Holds(bits, sealed)
  {
    hide BuildLight, Sealed.Envelope, Holds;
    assert bits == frame + bits[|frame|..];
    LightBitsHold(sealed, bits[|frame|..], bits);
  }

  /** And where every window from an offset reads as the secret, the frame is sound there. */
  lemma HoldsSound(frame: seq<bool>, sealed: Sealed, n: int, r: nat)
    requires |frame| >= 64 && 0 < r < |frame| && 2 * |frame| <= n
    requires forall m :: 2 * |frame| - r <= m && r + m <= n ==> Holds(Turn(frame, r, m), sealed)
    ensures SoundAt(frame, sealed, n, r)
  {
    hide Turn, ReadLight, Heavy.Read, Scan, IsFramed, Sealed.Envelope, PeekVersion, Lift;
    var k := 2 * |frame| - r;
    TurnOfTail(frame, r);
    assert Holds(Turn(frame, r, k), sealed);
    forall m | k <= m && r + m <= n
      ensures !OpensLight(Turn(frame, r, k)) ==> HeavySound(Turn(frame, r, m), sealed)
    {
      assert Holds(Turn(frame, r, m), sealed);
      TurnOpensAlike(frame, r, m, k);
    }
  }

  /** Every window of the copies that keeps one of them whole reads as the secret. */
  ghost predicate EveryWindow(frame: seq<bool>, sealed: Sealed, copies: nat) {
    forall lo: nat, hi: nat :: lo <= hi <= |Repeat(frame, copies)| && KeepsCopy(lo, hi, |frame|) ==>
      Holds(Repeat(frame, copies)[lo..hi], sealed)
  }

  /**
   Of two copies or more: every window that keeps a whole one reads as the secret if and only if the frame is
   sound.
   */
  lemma EveryWindowHolds(frame: seq<bool>, sealed: Sealed, copies: nat)
    requires FrameOf(sealed) == Ok(frame) && frame != [] && copies >= 2
    ensures EveryWindow(frame, sealed, copies) <==> Sound(frame, sealed, |Repeat(frame, copies)|)
  {
    hide FrameOf, Turn, Holds, Repeat, SoundAt;
    var n := copies * |frame|;
    FrameIsLong(sealed, frame);
    Monotone(2, copies, |frame|);
    if Sound(frame, sealed, n) {
      forall lo: nat, hi: nat | lo <= hi <= n && KeepsCopy(lo, hi, |frame|)
        ensures Holds(Repeat(frame, copies)[lo..hi], sealed)
      {
        var k :| lo <= CopyStart(k, |frame|) && CopyStart(k, |frame|) + |frame| <= hi;
        var r := WindowTurns(frame, copies, lo, hi, k);
        SoundHolds(frame, sealed, n, r, hi - lo);
      }
    }
    if EveryWindow(frame, sealed, copies) {
      forall r | 0 < r < |frame|
        ensures SoundAt(frame, sealed, n, r)
      {
        forall m | 2 * |frame| - r <= m && r + m <= n
          ensures Holds(Turn(frame, r, m), sealed)
        {
          TurnIs(frame, copies, r, m);
          assert r <= CopyStart(1, |frame|) && CopyStart(1, |frame|) + |frame| <= r + m;
          assert Holds(Repeat(frame, copies)[r..r + m], sealed);
        }
        HoldsSound(frame, sealed, n, r);
      }
    }
  }

  /** A stretch of a text that keeps, of what a carrier reads there, at least one whole copy of `n` bits. */
  ghost predicate KeepsFrame(c: Carrier, text: string, from: nat, to: nat, n: nat)
    requires from <= to <= |text|
  {
    KeepsCopy(|ReadPositions(c, text[..from])|, |ReadPositions(c, text[..to])|, n)
  }

  /** Every stretch of a text that keeps one whole frame reads as the secret. */
  ghost predicate EveryExcerpt(c: Carrier, text: string, frame: seq<bool>, sealed: Sealed) {
    forall from: nat, to: nat :: from <= to <= |text| && KeepsFrame(c, text, from, to, |frame|) ==>
      Holds(ReadPositions(c, text[from..to]), sealed)
  }

  /**
   Through any stack: where a carrier holds two copies or more, every excerpt that keeps any one frame reads as the
   secret, if and only if the frame is sound.
   */
  lemma EveryExcerptHolds(g: Geometry, methods: seq<Carrier>, cover: string, sealed: Sealed, frame: seq<bool>, i: nat)
    requires Inserting(methods) && FrameOf(sealed) == Ok(frame) && frame != [] && i < |methods|
    requires SaturatedUpTo(g, methods, cover, frame, sealed.Envelope(), |methods|).Ok?
    requires var stego := SaturatedUpTo(g, methods, cover, frame, sealed.Envelope(), |methods|).value.text;
             |ReadPositions(methods[i], stego)| >= 2 * |frame|
    ensures var stego := SaturatedUpTo(g, methods, cover, frame, sealed.Envelope(), |methods|).value.text;
            EveryExcerpt(methods[i], stego, frame, sealed) <==>
            Sound(frame, sealed, |ReadPositions(methods[i], stego)|)
  {
    hide Inserting, FrameOf, SaturatedUpTo, ReadPositions, Positions, Repeat, Copies, InvisibleStack, Sealed.Envelope,
         Sound, EveryWindow, EveryExcerpt;
    var stego := SaturatedUpTo(g, methods, cover, frame, sealed.Envelope(), |methods|).value.text;
    var texts := SaturatedTexts(g, methods, cover, frame, sealed.Envelope());
    ChannelsFilled(g, methods, cover, sealed, frame, i);
    var copies := Copies(Positions(g, methods[i], texts[i]), |frame|);
    if copies < 2 {
      Monotone(copies, 1, |frame|);
    }
    EveryWindowHolds(frame, sealed, copies);
    WindowsAreExcerpts(methods[i], stego, frame, sealed, copies);
  }

  lemma WindowsAreExcerpts(c: Carrier, text: string, frame: seq<bool>, sealed: Sealed, copies: nat)
    requires ReadPositions(c, text) == Repeat(frame, copies)
    ensures EveryExcerpt(c, text, frame, sealed) <==> EveryWindow(frame, sealed, copies)
  {
    hide ReadPositions, Repeat, Holds, KeepsCopy;
    if EveryWindow(frame, sealed, copies) {
      forall from: nat, to: nat | from <= to <= |text| && KeepsFrame(c, text, from, to, |frame|)
        ensures Holds(ReadPositions(c, text[from..to]), sealed)
      {
        ExcerptReadsWindow(c, text, from, to);
      }
    }
    if EveryExcerpt(c, text, frame, sealed) {
      forall lo: nat, hi: nat | lo <= hi <= |Repeat(frame, copies)| && KeepsCopy(lo, hi, |frame|)
        ensures Holds(Repeat(frame, copies)[lo..hi], sealed)
      {
        var from, to := WindowIsExcerpt(c, text, lo, hi);
        assert KeepsFrame(c, text, from, to, |frame|);
      }
    }
  }

  /** Two frames' bits less one keep one frame whole, wherever they are cut out. */
  lemma LongExcerptKeeps(c: Carrier, text: string, frame: seq<bool>, copies: nat, from: nat, to: nat)
    requires ReadPositions(c, text) == Repeat(frame, copies) && frame != [] && from <= to <= |text|
    requires |ReadPositions(c, text[from..to])| >= 2 * |frame| - 1
    ensures KeepsFrame(c, text, from, to, |frame|)
  {
    hide ReadPositions, Repeat;
    ExcerptReadsWindow(c, text, from, to);
    var lo, hi := |ReadPositions(c, text[..from])|, |ReadPositions(c, text[..to])|;
    var k := FirstCopy(lo, hi, copies, |frame|);
    assert lo <= CopyStart(k, |frame|) && CopyStart(k, |frame|) + |frame| <= hi;
  }

  // ─── A condition on the frame alone ───

  predicate MagicAt(bits: seq<bool>, r: nat) {
    r + 16 <= |bits| && bits[r..r + 16] == BytesToBits(MAGIC)
  }

  /** Two copies of the frame show the magic's sixteen bits only where a copy starts. */
  predicate SoleMagic(frame: seq<bool>) {
    forall r :: 0 < r < |frame| ==> !MagicAt(frame + frame, r)
  }

  lemma HeavyOpens(bits: seq<bool>)
    requires Heavy.Read(bits).Ok?
    ensures |bits| >= 16 && bits[..16] == BytesToBits(MAGIC)
  {
    hide Heavy.Read, BytesToBits, BitsToBytes, MAGIC;
    Heavy.ReadPayloadShort(bits);
    ParsedOpens(BitsToBytes(bits[..PREAMBLE_BITS]));
    OpeningBits(bits[..PREAMBLE_BITS]);
    assert bits[..PREAMBLE_BITS][..16] == bits[..16];
  }

  lemma ParsedOpens(bytes: seq<byte>)
    requires Preambles.Parse(bytes).Ok?
    ensures OpensWithMagic(bytes)
  {
    hide Crc16, Bv16Of;
  }

  lemma LightOpens(bits: seq<bool>)
    requires OpensLight(bits)
    ensures |bits| >= 16 && bits[..16] == BytesToBits(MAGIC)
  {
    hide BytesToBits, BitsToBytes, MAGIC, OpensWithMagic;
    OpeningBits(bits);
  }

  /** Such a frame is sound, in a channel of any length. */
  lemma SoleMagicIsSound(frame: seq<bool>, sealed: Sealed, n: int)
    requires FrameOf(sealed) == Ok(frame) && frame != [] && SoleMagic(frame)
    ensures Sound(frame, sealed, n)
  {
    hide FrameOf, Turn, OpensLight, Heavy.Read, BytesToBits, MAGIC;
    FrameIsLong(sealed, frame);
    forall r | 0 < r < |frame|
      ensures SoundAt(frame, sealed, n, r)
    {
      TurnOfTail(frame, r);
      forall m | m >= 2 * |frame| - r
        ensures !OpensLight(Turn(frame, r, m)) && Heavy.Read(Turn(frame, r, m)).Err?
      {
        TurnOfTwo(frame, r, 16);
        TurnFront(frame, r, m, 16);
        assert !MagicAt(frame + frame, r);
        if OpensLight(Turn(frame, r, m)) {
          LightOpens(Turn(frame, r, m));
        }
        if Heavy.Read(Turn(frame, r, m)).Ok? {
          HeavyOpens(Turn(frame, r, m));
        }
      }
    }
  }

  /**
   The other way round. If a whole light frame with another payload stands at an offset inside the doubled frame, every
   window from there on reads as that payload, and the frame is not sound.
   */
  lemma ImpostorReads(frame: seq<bool>, sealed: Sealed, r: nat, n: int, m: nat)
    requires |frame| >= 64 && 0 < r < |frame| && m >= 2 * |frame| - r
    requires ReadLight((frame + frame)[r..]).Ok? && ReadLight((frame + frame)[r..]).value.payload != sealed.Envelope()
    ensures var contents := ReadFrame(Turn(frame, r, m));
            contents.Ok? && contents.value.payload == ReadLight((frame + frame)[r..]).value.payload
    ensures !Holds(Turn(frame, r, m), sealed) && !Sound(frame, sealed, n)
  {
    hide Turn, ReadLight, Heavy.Read, Scan, IsFramed, Sealed.Envelope, PeekVersion, HeavySound;
    TurnOfTail(frame, r);
    TurnReadsAlike(frame, r, m, 2 * |frame| - r);
    ReadsOpenLight(Turn(frame, r, m));
    ReadsOpenLight((frame + frame)[r..]);
    assert !SoundAt(frame, sealed, n, r);
  }

  /**
   So some excerpt of every document that holds two copies or more does not give the secret, though it keeps a
   frame.
   */
  lemma ImpostorBreaks(g: Geometry, methods: seq<Carrier>, cover: string, sealed: Sealed, frame: seq<bool>, i: nat,
                       r: nat)
    requires Inserting(methods) && FrameOf(sealed) == Ok(frame) && i < |methods| && 0 < r < |frame|
    requires ReadLight((frame + frame)[r..]).Ok? && ReadLight((frame + frame)[r..]).value.payload != sealed.Envelope()
    requires SaturatedUpTo(g, methods, cover, frame, sealed.Envelope(), |methods|).Ok?
    requires var stego := SaturatedUpTo(g, methods, cover, frame, sealed.Envelope(), |methods|).value.text;
             |ReadPositions(methods[i], stego)| >= 2 * |frame|
    ensures var stego := SaturatedUpTo(g, methods, cover, frame, sealed.Envelope(), |methods|).value.text;
            !EveryExcerpt(methods[i], stego, frame, sealed)
  {
    hide Inserting, FrameOf, SaturatedUpTo, ReadPositions, Sealed.Envelope, Sound, EveryExcerpt, ReadLight;
    var stego := SaturatedUpTo(g, methods, cover, frame, sealed.Envelope(), |methods|).value.text;
    FrameIsLong(sealed, frame);
    ImpostorReads(frame, sealed, r, |ReadPositions(methods[i], stego)|, 2 * |frame| - r);
    EveryExcerptHolds(g, methods, cover, sealed, frame, i);
  }

  // ─── Decoding an excerpt ───

  /** The carriers asked for are the stack's, none twice, and of each the excerpt keeps a whole frame. */
  ghost predicate Enough(chosen: seq<Carrier>, methods: seq<Carrier>, stego: string, from: nat, to: nat, n: nat)
    requires from <= to <= |stego|
  {
    chosen != [] && Distinct(chosen) && forall k :: 0 <= k < |chosen| ==>
      chosen[k] in methods && KeepsFrame(chosen[k], stego, from, to, n)
  }

  /** Each of them holds copies of a sound frame in the whole document. */
  ghost predicate AllSound(chosen: seq<Carrier>, stego: string, frame: seq<bool>, sealed: Sealed) {
    forall k :: 0 <= k < |chosen| ==> Sound(frame, sealed, |ReadPositions(chosen[k], stego)|)
  }

  /** What one carrier of the stack reads from an excerpt. */
  lemma ExcerptReads(g: Geometry, methods: seq<Carrier>, cover: string, sealed: Sealed, frame: seq<bool>, c: Carrier,
                     from: nat, to: nat)
    requires Inserting(methods) && FrameOf(sealed) == Ok(frame) && frame != [] && c in methods
    requires SaturatedUpTo(g, methods, cover, frame, sealed.Envelope(), |methods|).Ok?
    requires from <= to <= |SaturatedUpTo(g, methods, cover, frame, sealed.Envelope(), |methods|).value.text|
    requires var stego := SaturatedUpTo(g, methods, cover, frame, sealed.Envelope(), |methods|).value.text;
             KeepsFrame(c, stego, from, to, |frame|)
    ensures var stego := SaturatedUpTo(g, methods, cover, frame, sealed.Envelope(), |methods|).value.text;
            IsFramed(ReadPositions(c, stego[from..to])) &&
            (Sound(frame, sealed, |ReadPositions(c, stego)|) ==> Holds(ReadPositions(c, stego[from..to]), sealed))
  {
    hide Inserting, FrameOf, SaturatedUpTo, ReadPositions, Positions, Repeat, Copies, InvisibleStack, Sealed.Envelope,
         Sound, IsFramed, Holds, Turn;
    var i :| 0 <= i < |methods| && methods[i] == c;
    var stego := SaturatedUpTo(g, methods, cover, frame, sealed.Envelope(), |methods|).value.text;
    var texts := SaturatedTexts(g, methods, cover, frame, sealed.Envelope());
    ChannelsFilled(g, methods, cover, sealed, frame, i);
    var copies := Copies(Positions(g, c, texts[i]), |frame|);
    ExcerptReadsWindow(c, stego, from, to);
    var lo, hi := |ReadPositions(c, stego[..from])|, |ReadPositions(c, stego[..to])|;
    var k :| lo <= CopyStart(k, |frame|) && CopyStart(k, |frame|) + |frame| <= hi;
    FrameIsLong(sealed, frame);
    var r := WindowTurns(frame, copies, lo, hi, k);
    TurnHoldsCopy(frame, r, hi - lo);
    CopyFramed(sealed, frame, ReadPositions(c, stego[from..to]), FirstWhole(frame, r));
    if Sound(frame, sealed, |ReadPositions(c, stego)|) {
      SoundHolds(frame, sealed, copies * |frame|, r, hi - lo);
    }
  }

  /**
   Saturation survives excerpting, through a whole stack. Cut any stretch out of a saturated document: every choice of
   carriers of which it keeps a whole frame is identified in it, never swept for, and where the frame is sound it
   decodes to exactly the secret.
   */
  lemma ExcerptDecodes(g: Geometry, reader: Reader, cover: string, hidden: seq<byte>, methods: seq<Carrier>,
                       crypto: Option<Choice>, salt: Salt, nonce: nat, sealed: Sealed, frame: seq<bool>,
                       from: nat, to: nat, chosen: seq<Carrier>)
    requires Inserting(methods) && FrameOf(sealed) == Ok(frame) && frame != []
    requires Seal(reader.keyed, hidden, crypto, salt, nonce) == Ok(sealed)
    requires Invertible(reader.keyed, crypto) && Offered(crypto, reader.ciphers, reader.password)
    requires SaturatedUpTo(g, methods, cover, frame, sealed.Envelope(), |methods|).Ok?
    requires from <= to <= |SaturatedUpTo(g, methods, cover, frame, sealed.Envelope(), |methods|).value.text|
    requires var stego := SaturatedUpTo(g, methods, cover, frame, sealed.Envelope(), |methods|).value.text;
             Enough(chosen, methods, stego, from, to, |frame|)
    ensures var stego := SaturatedUpTo(g, methods, cover, frame, sealed.Envelope(), |methods|).value.text;
            !Decoded(reader, stego[from..to], chosen).recoveryMode &&
            (AllSound(chosen, stego, frame, sealed) ==>
             Delivers(Decoded(reader, stego[from..to], chosen), hidden, chosen, sealed))
  {
    hide Inserting, SaturatedUpTo, FrameOf, Seal, Invertible, Offered, ReadPositions, Holds, IsFramed, Cascade,
         Delivers, Sealed.Envelope, Recovered, Identified, Sound;
    var stego := SaturatedUpTo(g, methods, cover, frame, sealed.Envelope(), |methods|).value.text;
    var excerpt := stego[from..to];
    forall k | 0 <= k < |chosen|
      ensures IsFramed(ReadPositions(chosen[k], excerpt))
      ensures Sound(frame, sealed, |ReadPositions(chosen[k], stego)|) ==>
              Holds(ReadPositions(chosen[k], excerpt), sealed)
    {
      ExcerptReads(g, methods, cover, sealed, frame, chosen[k], from, to);
    }
    AllIdentified(chosen, excerpt);
    CascadeExplains(reader, chosen, excerpt);
    if AllSound(chosen, stego, frame, sealed) {
      ChosenInserting(chosen, methods);
      HeldTogether(reader, chosen, excerpt, hidden, crypto, salt, nonce, sealed);
    }
  }

  /** Any choice of a stack's carriers is a stack that inserts. */
  lemma ChosenInserting(chosen: seq<Carrier>, methods: seq<Carrier>)
    requires Inserting(methods) && Distinct(chosen) && forall k :: 0 <= k < |chosen| ==> chosen[k] in methods
    ensures Inserting(chosen)
  {
    hide Separate, RewritesVisibleText;
    forall i, j | 0 <= i < j < |chosen|
      ensures Separate(chosen[i], chosen[j])
    {
      MembersSeparate(methods, chosen[i], chosen[j]);
    }
  }

  lemma {:induction false} AllIdentified(chosen: seq<Carrier>, text: string)
    requires forall k :: 0 <= k < |chosen| ==> IsFramed(ReadPositions(chosen[k], text))
    ensures Identified(chosen, text) == chosen
  {
    hide IsFramed, ReadPositions;
    if chosen == [] {
    } else {
      var n := |chosen| - 1;
      AllIdentified(chosen[..n], text);
      assert chosen == chosen[..n] + [chosen[n]];
    }
  }

  lemma HeldTogether(reader: Reader, chosen: seq<Carrier>, text: string, hidden: seq<byte>, crypto: Option<Choice>,
                     salt: Salt, nonce: nat, sealed: Sealed)
    requires Inserting(chosen) && chosen != [] && Distinct(chosen)
    requires forall k :: 0 <= k < |chosen| ==> Holds(ReadPositions(chosen[k], text), sealed)
    requires Invertible(reader.keyed, crypto) && Offered(crypto, reader.ciphers, reader.password)
    requires Seal(reader.keyed, hidden, crypto, salt, nonce) == Ok(sealed)
    ensures Delivers(Cascade(reader, chosen, text), hidden, chosen, sealed)
  {
    hide Seal, Invertible, Offered, ReadPositions, Holds, Cascade, RewritesVisibleText, Sealed.Envelope, RunListed,
         Dedup, CipherNamed, Separate;
    HeldDecodes(reader, chosen, chosen, text, hidden, crypto, salt, nonce, sealed);
    CascadeExplains(reader, chosen, text);
  }

  // ─── A secret that is itself a frame ───

  /** A plain secret, sealed without a cipher. */
  function Plain(secret: seq<byte>, salt: Salt): Sealed {
    WithIntegrity(Sealed(salt, [], secret, false))
  }

  lemma PlainIsSealed(keyed: Keyed, secret: seq<byte>, salt: Salt, nonce: nat)
    ensures Seal(keyed, secret, None, salt, nonce) == Ok(Plain(secret, salt))
  {
  }

  /** The sizes of a plain secret's envelope and frame. */
  lemma PlainSizes(secret: seq<byte>, salt: Salt)
    requires 124 <= |secret| <= 8000
    ensures |Plain(secret, salt).Envelope()| == |secret| + 15
    ensures FrameOf(Plain(secret, salt)).Ok? && |FrameOf(Plain(secret, salt)).value| == 8 * (|secret| + 23)
  {
    hide Crc32, EnvelopeLen, FrameBytes;
    CheckedSize(|secret| + 4);
    Envelopes.EnvelopeLenIsSize(Plain(secret, salt).chain, Plain(secret, salt).payload);
    assert [] + [ChainStep(INTEGRITY_STEP, [])] == [ChainStep(INTEGRITY_STEP, [])];
  }

  /** A secret that is another secret's frame, byte for byte. */
  function FrameInside(inner: seq<byte>, salt: Salt): seq<byte>
    requires |Plain(inner, salt).Envelope()| * 8 < 0x1_0000
  {
    FrameBytes(CONCEAL_FLAGS, None, Plain(inner, salt).Envelope())
  }

  /** The secret stands whole inside its own frame's bytes. */
  lemma SecretInFrame(secret: seq<byte>, salt: Salt) returns (before: seq<byte>, after: seq<byte>)
    requires |Plain(secret, salt).Envelope()| * 8 < 0x1_0000
    ensures before != [] && FrameBytes(CONCEAL_FLAGS, None, Plain(secret, salt).Envelope()) == before + (secret + after)
  {
    hide Crc32, CheckedHeader, Crc16, Be16Of, ChainBytes, Varint, Be32Of;
    var s := Plain(secret, salt);
    var header := CheckedHeader(CONCEAL_FLAGS, None, |s.Envelope()| * 8);
    var front := header + Be16Of(Crc16(header));
    var opening := [Envelopes.ENVELOPE_VERSION] + Varint(|s.chain|) + ChainBytes(s.chain);
    var length := Varint(|s.payload|);
    after := Be32Of(Crc32(secret));
    before := front + opening + length;
    PartsJoin(front, opening, length, secret, after);
  }

  lemma PartsJoin(a: seq<byte>, b: seq<byte>, c: seq<byte>, d: seq<byte>, e: seq<byte>)
    ensures a + (b + (c + (d + e))) == (a + b + c) + (d + e)
  {
  }

  /** So the inner frame's bits stand whole inside the outer frame. */
  lemma InnerFrameStands(inner: seq<byte>, salt: Salt) returns (r: nat, after: seq<bool>)
    requires 124 <= |inner| <= 900
    ensures |Plain(inner, salt).Envelope()| * 8 < 0x1_0000
    ensures var frame := FrameOf(Plain(FrameInside(inner, salt), salt));
            FrameOf(Plain(inner, salt)).Ok? && frame.Ok? && 0 < r < |frame.value| &&
            frame.value[r..] == FrameOf(Plain(inner, salt)).value + after
  {
    hide Plain, FrameBytes, BytesToBits, Sealed.Envelope;
    PlainSizes(inner, salt);
    var hidden := FrameInside(inner, salt);
    PlainSizes(hidden, salt);
    PlainUnsalted(inner, salt);
    PlainUnsalted(hidden, salt);
    var before, behind := SecretInFrame(hidden, salt);
    BytesToBitsConcat(before, hidden + behind);
    BytesToBitsConcat(hidden, behind);
    r, after := |BytesToBits(before)|, BytesToBits(behind);
    assert (BytesToBits(before) + (BytesToBits(hidden) + after))[r..] == BytesToBits(hidden) + after;
  }

  lemma PlainUnsalted(secret: seq<byte>, salt: Salt)
    ensures SaltOf(Plain(secret, salt)) == None
  {
    hide Crc32;
  }

  /** A writable cover with room for one frame is saturated. */
  lemma RoomySaturates(g: Geometry, c: Carrier, cover: string, sealed: Sealed, frame: seq<bool>)
    requires c.WellFormed() && CheckWritable(c, cover).Ok? && FrameOf(sealed) == Ok(frame)
    requires 0 < |frame| <= Positions(g, c, cover)
    ensures PlaceSaturated(g, c, cover, frame, sealed.Envelope()).Ok?
  {
    hide FrameOf, Positions, Place, SequenceFrom, Sealed.Envelope, IsFramed, ReadFrame, CheckWritable, Repeat;
    var copies := Copies(Positions(g, c, cover), |frame|);
    var bits := Repeat(frame, copies);
    CopiesFill(Positions(g, c, cover), |frame|);
    ReadAfterWrite(g, c, cover, bits);
    CopyAt(frame, copies, 0);
    CopyFirst(sealed, frame, bits);
  }

  /** Saturating through one carrier is saturating once. */
  lemma SingleSaturates(g: Geometry, keyed: Keyed, cover: string, secret: seq<byte>, c: Carrier, salt: Salt, nonce: nat)
    requires secret != [] && FrameOf(Plain(secret, salt)).Ok? && FrameOf(Plain(secret, salt)).value != []
    requires PlaceSaturated(g, c, cover, FrameOf(Plain(secret, salt)).value, Plain(secret, salt).Envelope()).Ok?
    ensures var frame := FrameOf(Plain(secret, salt)).value;
            var filled := SaturatedUpTo(g, [c], cover, frame, Plain(secret, salt).Envelope(), 1);
            var r := Saturated(g, keyed, cover, secret, [c], None, salt, nonce);
            filled.Ok? && r.Ok? && r.value.stegoText == filled.value.text
  {
    hide PlaceSaturated, Plain, FrameOf, Sealed.Envelope, ValidateStack, Seal, Positions;
    PlainIsSealed(keyed, secret, salt, nonce);
    var frame, envelope := FrameOf(Plain(secret, salt)).value, Plain(secret, salt).Envelope();
    assert SaturatedUpTo(g, [c], cover, frame, envelope, 0) == Ok(Filled(cover, Encoding.USIZE_MAX));
    assert SaturatedUpTo(g, [c], cover, frame, envelope, 1).Ok?;
  }

  /** From where the inner frame stands, two outer frames' bits less one read as the inner secret. */
  lemma InnerHolds(inner: seq<byte>, salt: Salt) returns (r: nat)
    requires 124 <= |inner| <= 900
    ensures |Plain(inner, salt).Envelope()| * 8 < 0x1_0000 && FrameOf(Plain(FrameInside(inner, salt), salt)).Ok?
    ensures var frame := FrameOf(Plain(FrameInside(inner, salt), salt)).value;
            |frame| == 8 * (|inner| + 46) && r < |frame| && Holds(Turn(frame, r, 2 * |frame| - 1), Plain(inner, salt))
  {
    hide Plain, FrameOf, Turn, Holds, Sealed.Envelope, FrameBytes;
    var after;
    r, after := InnerFrameStands(inner, salt);
    PlainSizes(inner, salt);
    PlainSizes(FrameInside(inner, salt), salt);
    var frame, small := FrameOf(Plain(FrameInside(inner, salt), salt)).value, FrameOf(Plain(inner, salt)).value;
    var m, n := 2 * |frame| - 1, |frame| - r;
    TurnOfTwo(frame, r, n);
    TurnFront(frame, r, m, n);
    var bits := Turn(frame, r, m);
    assert bits[..n] == (frame + frame)[r..r + n] == frame[r..] == small + after;
    assert bits[0..|small|] == bits[..n][..|small|] == small;
    CopyFirst(Plain(inner, salt), small, bits);
  }

  /**
   The input that breaks the promise. A secret that is itself the frame of another secret, saturated into blanks: some
   excerpt that keeps a whole frame decodes without complaint to the other secret.
   */
  lemma InnerFrameWins(g: Geometry, reader: Reader, inner: seq<byte>, salt: Salt, nonce: nat)
    returns (from: nat, to: nat)
    requires BlanksOpen(g) && 124 <= |inner| <= 900 && Invertible(reader.keyed, None)
    ensures |Plain(inner, salt).Envelope()| * 8 < 0x1_0000
    ensures var hidden := FrameInside(inner, salt);
            var frame := FrameOf(Plain(hidden, salt));
            var r := Saturated(g, reader.keyed, Blanks(80998), hidden, [WHITESPACE_VAR], None, salt, nonce);
            hidden != inner && frame.Ok? && r.Ok? && from <= to <= |r.value.stegoText| &&
            var excerpt := r.value.stegoText[from..to];
            KeepsFrame(WHITESPACE_VAR, r.value.stegoText, from, to, |frame.value|) &&
            Delivers(Decoded(reader, excerpt, [WHITESPACE_VAR]), inner, [WHITESPACE_VAR], Plain(inner, salt))
  {
    hide Plain, FrameOf, Turn, Holds, Sealed.Envelope, FrameBytes, Blanks, BlanksOpen, Positions, CheckWritable,
         ReadPositions, Saturated, SaturatedUpTo, PlaceSaturated, Invertible, Cascade, Identified, Delivers, IsFramed,
         Recovered, Repeat, InvisibleStack, Inserting;
    var c, cover := WHITESPACE_VAR, Blanks(80998);
    var r := InnerHolds(inner, salt);
    var hidden := FrameInside(inner, salt);
    var frame := FrameOf(Plain(hidden, salt)).value;
    PlainSizes(inner, salt);
    BlankPositions(g, 80998);
    BlankStack();
    RealStacksQualify([c]);
    RoomySaturates(g, c, cover, Plain(hidden, salt), frame);
    SingleSaturates(g, reader.keyed, cover, hidden, c, salt, nonce);
    var stego := SaturatedUpTo(g, [c], cover, frame, Plain(hidden, salt).Envelope(), 1).value.text;
    OneChannelFilled(g, c, cover, Plain(hidden, salt), frame);
    var copies := Copies(72000, |frame|);
    Monotone(3, copies, |frame|);
    TurnIs(frame, copies, r, 2 * |frame| - 1);
    from, to := WindowIsExcerpt(c, stego, r, r + (2 * |frame| - 1));
    LongExcerptKeeps(c, stego, frame, copies, from, to);
    DecodesAlone(reader, c, stego[from..to], inner, salt, nonce);
  }

  lemma OneChannelFilled(g: Geometry, c: Carrier, cover: string, sealed: Sealed, frame: seq<bool>)
    requires Inserting([c]) && FrameOf(sealed) == Ok(frame) && frame != []
    requires SaturatedUpTo(g, [c], cover, frame, sealed.Envelope(), 1).Ok?
    ensures ReadPositions(c, SaturatedUpTo(g, [c], cover, frame, sealed.Envelope(), 1).value.text) ==
            Repeat(frame, Copies(Positions(g, c, cover), |frame|))
  {
    hide FrameOf, Sealed.Envelope, ReadPositions, Repeat, Positions, PlaceSaturated, Inserting, InvisibleStack;
    ChannelsFilled(g, [c], cover, sealed, frame, 0);
  }

  /** A stretch that holds a plain secret decodes to it. */
  lemma DecodesAlone(reader: Reader, c: Carrier, excerpt: string, secret: seq<byte>, salt: Salt, nonce: nat)
    requires Inserting([c]) && Invertible(reader.keyed, None) && Holds(ReadPositions(c, excerpt), Plain(secret, salt))
    ensures Delivers(Decoded(reader, excerpt, [c]), secret, [c], Plain(secret, salt))
  {
    hide Plain, Holds, ReadPositions, Invertible, Cascade, Identified, Delivers, IsFramed, Recovered, Seal, Inserting;
    PlainIsSealed(reader.keyed, secret, salt, nonce);
    HeldFramed(ReadPositions(c, excerpt), Plain(secret, salt));
    AllIdentified([c], excerpt);
    HeldTogether(reader, [c], excerpt, secret, None, salt, nonce, Plain(secret, salt));
  }

  lemma HeldFramed(bits: seq<bool>, sealed: Sealed)
    requires Holds(bits, sealed)
    ensures IsFramed(bits)
  {
  }
}
