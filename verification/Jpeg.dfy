/** JPEG stripping: the marker walk that drops APP1 and APP13 (section B.1.1 of ITU-T T.81). */
module Jpeg {
  import opened Results
  import opened Bytes

  const START_OF_SCAN: byte := 0xDA
  const APP1: byte := 0xE1
  const APP13: byte := 0xED

  predicate Standalone(marker: byte) {
    marker == 0xD9 || 0xD0 <= marker <= 0xD7 || marker == 0x01
  }

  predicate IsMetadata(marker: byte) {
    marker == APP1 || marker == APP13
  }

  /** Where the walk gives up and copies the rest: not a marker, a scan, or a segment that does not fit. */
  predicate Stops(s: seq<byte>) {
    |s| < 2 || s[0] != 0xFF || s[1] == START_OF_SCAN ||
    (!Standalone(s[1]) && (|s| < 4 || 2 + FromBe16(s[2..4]) > |s|))
  }

  /** Bytes of the segment at the front. */
  function Span(s: seq<byte>): (n: nat)
    requires !Stops(s)
    ensures 2 <= n <= |s|
  {
    if Standalone(s[1]) then 2 else 2 + FromBe16(s[2..4])
  }

  predicate Dropped(s: seq<byte>)
    requires !Stops(s)
  {
    IsMetadata(s[1])
  }

  function Walk(s: seq<byte>): seq<byte> {
    if Stops(s) then s else (if Dropped(s) then [] else s[..Span(s)]) + Walk(s[Span(s)..])
  }

  function Strip(jpeg: seq<byte>): Result<seq<byte>> {
    if |jpeg| < 2 || jpeg[0] != 0xFF || jpeg[1] != 0xD8 then Err(EncodingFailed("jpeg"))
    else Ok(jpeg[..2] + Walk(jpeg[2..]))
  }

  lemma WalkStep(s: seq<byte>, out: seq<byte>)
    ensures out + Walk(s) ==
            if Stops(s) then out + s else (if Dropped(s) then out else out + s[..Span(s)]) + Walk(s[Span(s)..])
  {
    if !Stops(s) {
      var piece := if Dropped(s) then [] else s[..Span(s)];
      assert out + (piece + Walk(s[Span(s)..])) == (out + piece) + Walk(s[Span(s)..]);
      assert out + [] == out;
    }
  }

  lemma Drop(s: seq<byte>, pos: nat, n: nat)
    requires pos + n <= |s|
    ensures s[pos..][n..] == s[pos + n..] && s[pos..][..n] == s[pos..pos + n]
  {
  }

  /** The walk as it runs: every step moves on, so it ends on every input. */
  method StripJpeg(jpeg: seq<byte>) returns (r: Result<seq<byte>>)
    ensures r == Strip(jpeg)
  {
    hide Walk;
    if |jpeg| < 2 || jpeg[0] != 0xFF || jpeg[1] != 0xD8 {
      return Err(EncodingFailed("jpeg"));
    }
    var out := jpeg[..2];
    var pos := 2;
    ghost var goal := jpeg[..2] + Walk(jpeg[2..]);
    while true
      invariant 2 <= pos <= |jpeg| && goal == out + Walk(jpeg[pos..])
      decreases |jpeg| - pos
    {
      WalkStep(jpeg[pos..], out);
      if pos + 2 > |jpeg| || jpeg[pos] != 0xFF {
        return Ok(out + jpeg[pos..]);
      }
      var marker := jpeg[pos + 1];
      if marker == START_OF_SCAN {
        return Ok(out + jpeg[pos..]);
      }
      if marker == 0xD9 || 0xD0 <= marker <= 0xD7 || marker == 0x01 {
        Drop(jpeg, pos, 2);
        out := out + jpeg[pos..pos + 2];
        pos := pos + 2;
      } else if pos + 4 > |jpeg| {
        return Ok(out + jpeg[pos..]);
      } else {
        assert jpeg[pos..][2..4] == jpeg[pos + 2..pos + 4];
        var length := FromBe16(jpeg[pos + 2..pos + 4]);
        var segEnd := pos + 2 + length;
        if segEnd > |jpeg| {
          return Ok(out + jpeg[pos..]);
        }
        Drop(jpeg, pos, 2 + length);
        if marker != APP1 && marker != APP13 {
          out := out + jpeg[pos..segEnd];
        }
        pos := segEnd;
      }
    }
  }

  // ─── What the walk does to any byte string ───

  /** The pieces a walk cuts a byte string into, the last being what it copies unread. */
  function Pieces(s: seq<byte>): (pieces: seq<seq<byte>>)
    ensures pieces != []
  {
    if Stops(s) then [s] else [s[..Span(s)]] + Pieces(s[Span(s)..])
  }

  function Joined(pieces: seq<seq<byte>>): seq<byte> {
    if pieces == [] then [] else pieces[0] + Joined(pieces[1..])
  }

  /**
   A segment of `n` bytes at the front: a marker but start of scan, and either one that stands alone (TEM, RST0 to RST7,
   EOI) or the big-endian length behind it, which counts itself.
   */
  ghost predicate Cut(s: seq<byte>, n: nat) {
    2 <= n <= |s| && s[0] == 0xFF && s[1] != 0xDA &&
    if s[1] in {0x01, 0xD0, 0xD1, 0xD2, 0xD3, 0xD4, 0xD5, 0xD6, 0xD7, 0xD9} then n == 2
    else |s| >= 4 && n == 2 + 256 * (s[2] as int) + s[3] as int
  }

  /** Segment after segment, and what no segment opens. */
  ghost predicate CutsInto(s: seq<byte>, pieces: seq<seq<byte>>)
    decreases |pieces|
  {
    pieces != [] &&
    if |pieces| == 1 then pieces[0] == s && forall n: nat :: !Cut(s, n)
    else |pieces[0]| <= |s| && Cut(s, |pieces[0]|) && pieces[0] == s[..|pieces[0]|] &&
         CutsInto(s[|pieces[0]|..], pieces[1..])
  }

  lemma CutIs(s: seq<byte>)
    ensures if Stops(s) then forall n: nat :: !Cut(s, n) else Cut(s, Span(s))
  {
  }

  lemma {:induction false} PiecesAreCut(s: seq<byte>)
    ensures CutsInto(s, Pieces(s))
    decreases |s|
  {
    hide Stops, Span, Cut;
    CutIs(s);
    if Stops(s) {
    } else {
      PiecesAreCut(s[Span(s)..]);
      PiecesStep(s);
    }
  }

  /** A segment the stripper drops: it opens with APP1 or APP13. */
  predicate Opens(piece: seq<byte>) {
    |piece| >= 2 && piece[0] == 0xFF && (piece[1] == 0xE1 || piece[1] == 0xED)
  }

  /** All pieces but metadata segments; the last piece always stays. */
  function Kept(pieces: seq<seq<byte>>): seq<seq<byte>> {
    if |pieces| <= 1 then pieces else (if Opens(pieces[0]) then [] else [pieces[0]]) + Kept(pieces[1..])
  }

  lemma {:induction false} PiecesJoin(s: seq<byte>)
    ensures Joined(Pieces(s)) == s
    decreases |s|
  {
    hide Stops, Span;
    if Stops(s) {
      assert [s][1..] == [] && s + [] == s;
    } else {
      var n := Span(s);
      PiecesJoin(s[n..]);
      PiecesStep(s);
      assert s == s[..n] + s[n..];
    }
  }

  lemma PiecesStep(s: seq<byte>)
    requires !Stops(s)
    ensures Pieces(s)[0] == s[..Span(s)] && Pieces(s)[1..] == Pieces(s[Span(s)..])
    ensures Opens(s[..Span(s)]) <==> Dropped(s)
  {
  }

  lemma {:induction false} KeptJoin(s: seq<byte>)
    ensures Joined(Kept(Pieces(s))) == Walk(s)
    decreases |s|
  {
    hide Stops, Span, Opens, IsMetadata;
    if Stops(s) {
      assert [s][1..] == [] && s + [] == s;
    } else {
      var n := Span(s);
      KeptJoin(s[n..]);
      PiecesStep(s);
      var rest := Kept(Pieces(s[n..]));
      assert Kept(Pieces(s)) == (if Dropped(s) then [] else [s[..n]]) + rest;
      if Dropped(s) {
        assert [] + rest == rest && [] + Walk(s[n..]) == Walk(s[n..]);
      } else {
        assert ([s[..n]] + rest)[1..] == rest;
      }
    }
  }

  predicate EndsIn(whole: seq<byte>, tail: seq<byte>) {
    |tail| <= |whole| && whole[|whole| - |tail|..] == tail
  }

  lemma SuffixThrough(a: seq<byte>, b: seq<byte>, tail: seq<byte>)
    requires EndsIn(b, tail)
    ensures EndsIn(a + b, tail)
  {
    assert (a + b)[|a + b| - |tail|..] == b[|b| - |tail|..];
  }

  /** The bytes a walk copies unread. */
  function Tail(s: seq<byte>): seq<byte> {
    Pieces(s)[|Pieces(s)| - 1]
  }

  lemma TailStep(s: seq<byte>)
    requires !Stops(s)
    ensures Tail(s) == Tail(s[Span(s)..])
    ensures Walk(s) == (if Dropped(s) then [] else s[..Span(s)]) + Walk(s[Span(s)..])
  {
    hide Stops, Span, Dropped;
    PiecesStep(s);
  }

  /** From where the walk stops, a start of scan included, the output ends exactly as the input does. */
  lemma {:induction false} TailEndsBoth(s: seq<byte>)
    ensures Stops(Tail(s)) && EndsIn(s, Tail(s)) && EndsIn(Walk(s), Tail(s))
    decreases |s|
  {
    hide Stops, Span, IsMetadata, EndsIn;
    if Stops(s) {
      WholeEnds(s);
    } else {
      hide Walk, Pieces, Tail;
      var n := Span(s);
      TailEndsBoth(s[n..]);
      TailStep(s);
      assert s == s[..n] + s[n..];
      SuffixThrough(s[..n], s[n..], Tail(s));
      SuffixThrough(if Dropped(s) then [] else s[..n], Walk(s[n..]), Tail(s));
    }
  }

  lemma WholeEnds(s: seq<byte>)
    ensures EndsIn(s, s)
  {
  }

  /** The output is the input less exactly the metadata segments the walk meets, in order. */
  lemma WalkDropsSegments(s: seq<byte>)
    ensures CutsInto(s, Pieces(s)) && Joined(Pieces(s)) == s && Joined(Kept(Pieces(s))) == Walk(s)
  {
    PiecesAreCut(s);
    PiecesJoin(s);
    KeptJoin(s);
  }

  /** A kept segment is read the same once what follows it has been stripped. */
  lemma SameSegment(s: seq<byte>)
    requires !Stops(s)
    ensures var rest := Walk(s[Span(s)..]);
            var t := s[..Span(s)] + rest;
            !Stops(t) && Span(t) == Span(s) && t[1] == s[1] && t[..Span(s)] == s[..Span(s)] && t[Span(s)..] == rest
  {
    var n := Span(s);
    var rest := Walk(s[n..]);
    var t := s[..n] + rest;
    assert t[0] == s[0] && t[1] == s[1];
    if !Standalone(s[1]) {
      if n < 4 {
        ShortField(s);
        assert Stops(s[n..]);
        assert t == s;
      } else {
        assert t[2..4] == s[2..4];
      }
    }
  }

  /** A length field below two points into itself, and neither of its bytes is a marker. */
  lemma ShortField(s: seq<byte>)
    requires !Stops(s) && !Standalone(s[1]) && Span(s) < 4
    ensures s[Span(s)..] != [] && s[Span(s)] != 0xFF
  {
    assert s[2] == 0 && s[3] < 2;
  }

  /** Stripping what was stripped changes nothing, for every byte string. */
  lemma {:induction false} WalkTwice(s: seq<byte>)
    ensures Walk(Walk(s)) == Walk(s)
    decreases |s|
  {
    if Stops(s) {
    } else {
      var n := Span(s);
      WalkTwice(s[n..]);
      if Dropped(s) {
        assert [] + Walk(s[n..]) == Walk(s[n..]);
      } else {
        SameSegment(s);
        assert Walk(s) == s[..n] + Walk(s[n..]);
      }
    }
  }

  /** For every input that starts with SOI. */
  lemma StripLaws(jpeg: seq<byte>)
    requires Strip(jpeg).Ok?
    ensures Strip(Strip(jpeg).value) == Strip(jpeg)
    ensures |Strip(jpeg).value| <= |jpeg|
  {
    var out := Strip(jpeg).value;
    assert out[2..] == Walk(jpeg[2..]) && out[..2] == jpeg[..2];
    WalkTwice(jpeg[2..]);
    WalkShortens(jpeg[2..]);
  }

  lemma {:induction false} WalkShortens(s: seq<byte>)
    ensures |Walk(s)| <= |s|
    decreases |s|
  {
    if Stops(s) {
    } else {
      WalkShortens(s[Span(s)..]);
    }
  }
}
