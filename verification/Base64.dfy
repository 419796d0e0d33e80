/** Base64 (section 4 of RFC 4648) over bytes: the writer pads, the reader ignores ASCII whitespace. */
module Base64 {
  import opened Results
  import opened Bytes

  const PAD: byte := 61
  const NO_VALUE: byte := 255

  /** Table 1: the character for a six-bit value. */
  function Digit(v: nat): (c: byte)
    requires v < 64
    ensures IsDigit(c)
  {
    if v < 26 then 65 + v else if v < 52 then 71 + v else if v < 62 then v - 4 else if v == 62 then 43 else 47
  }

  predicate IsDigit(c: byte) {
    65 <= c <= 90 || 97 <= c <= 122 || 48 <= c <= 57 || c == 43 || c == 47
  }

  /** What the reverse table holds: the value of a digit, or the marker for anything else. */
  function ValueOf(c: byte): (v: byte)
    ensures if IsDigit(c) then v < 64 && Digit(v) == c else v == NO_VALUE
  {
    if 65 <= c <= 90 then c - 65
    else if 97 <= c <= 122 then c - 71
    else if 48 <= c <= 57 then c + 4
    else if c == 43 then 62
    else if c == 47 then 63
    else NO_VALUE
  }

  lemma DigitValue(v: nat)
    requires v < 64
    ensures ValueOf(Digit(v)) == v
  {
  }

  // ─── Encoding ───

  /** The four characters for one to three bytes. */
  function Group(chunk: seq<byte>): (s: seq<byte>)
    requires 1 <= |chunk| <= 3
    ensures |s| == 4
  {
    var b1: int := if |chunk| > 1 then chunk[1] else 0;
    var b2: int := if |chunk| > 2 then chunk[2] else 0;
    var n: int := chunk[0] * 65536 + b1 * 256 + b2;
    [Digit(n / 262144), Digit(n / 4096 % 64),
     if |chunk| > 1 then Digit(n / 64 % 64) else PAD,
     if |chunk| > 2 then Digit(n % 64) else PAD]
  }

  function Chunk(input: seq<byte>): (chunk: seq<byte>)
    requires input != []
    ensures 1 <= |chunk| <= 3
  {
    if |input| < 3 then input else input[..3]
  }

  function Encode(input: seq<byte>): (s: seq<byte>)
    ensures |s| == (|input| + 2) / 3 * 4
  {
    if input == [] then [] else Group(Chunk(input)) + Encode(input[|Chunk(input)|..])
  }

  method EncodeGroup(chunk: seq<byte>) returns (s: seq<byte>)
    requires 1 <= |chunk| <= 3
    ensures s == Group(chunk)
  {
    var b0: int := chunk[0];
    var b1: int := if |chunk| > 1 then chunk[1] else 0;
    var b2: int := if |chunk| > 2 then chunk[2] else 0;
    var n := b0 * 65536 + b1 * 256 + b2;
    s := [];
    s := s + [Digit(n / 262144)];
    s := s + [Digit(n / 4096 % 64)];
    s := s + [if |chunk| > 1 then Digit(n / 64 % 64) else PAD];
    s := s + [if |chunk| > 2 then Digit(n % 64) else PAD];
  }

  method EncodeChunks(input: seq<byte>) returns (out: seq<byte>)
    ensures out == Encode(input)
  {
    hide Group, Encode;
    out := [];
    var i := 0;
    ghost var goal := Encode(input);
    assert input[0..] == input && out + goal == goal;
    while i < |input|
      invariant 0 <= i <= |input|
      invariant goal == out + Encode(input[i..])
    {
      var len := if |input| - i < 3 then |input| - i else 3;
      EncodeStep(input, i, out);
      var group := EncodeGroup(input[i..i + len]);
      out := out + group;
      i := i + len;
    }
    assert input[i..] == [];
    EncodeNothing(out);
  }

  lemma EncodeNothing(out: seq<byte>)
    ensures out + Encode([]) == out
  {
  }

  lemma EncodeStep(input: seq<byte>, i: nat, out: seq<byte>)
    requires i < |input|
    ensures var len := if |input| - i < 3 then |input| - i else 3;
            out + Encode(input[i..]) == out + Group(input[i..i + len]) + Encode(input[i + len..])
  {
    hide Group;
    var rest := input[i..];
    var len := if |rest| < 3 then |rest| else 3;
    assert Chunk(rest) == input[i..i + len] && rest[len..] == input[i + len..];
  }

  // ─── Decoding ───

  predicate IsSpace(c: byte) {
    c == 32 || c == 9 || c == 10 || c == 12 || c == 13
  }

  function Cleaned(input: seq<byte>): (s: seq<byte>)
    ensures forall i :: 0 <= i < |s| ==> !IsSpace(s[i])
  {
    if input == [] then [] else (if IsSpace(input[0]) then [] else [input[0]]) + Cleaned(input[1..])
  }

  /** The bytes four characters spell. */
  function Ungroup(c: seq<byte>): Option<seq<byte>>
    requires |c| == 4
  {
    var v0, v1, v2, v3 := ValueOf(c[0]), ValueOf(c[1]), ValueOf(c[2]), ValueOf(c[3]);
    if v0 == NO_VALUE || v1 == NO_VALUE then None
    else if c[2] == PAD then if c[3] != PAD then None else Some([Top(v0 * 262144 + v1 * 4096)])
    else if v2 == NO_VALUE then None
    else if c[3] == PAD then Some([Top(v0 * 262144 + v1 * 4096), Middle(v0 * 262144 + v1 * 4096 + v2 * 64)])
    else if v3 == NO_VALUE then None
    else Some([Top(v0 * 262144 + v1 * 4096), Middle(v0 * 262144 + v1 * 4096 + v2 * 64),
               Low(v0 * 262144 + v1 * 4096 + v2 * 64 + v3)])
  }

  function Top(n: nat): byte {
    n / 65536 % 256
  }

  function Middle(n: nat): byte {
    n / 256 % 256
  }

  function Low(n: nat): byte {
    n % 256
  }

  function DecodeGroups(s: seq<byte>): Option<seq<byte>>
    requires |s| % 4 == 0
  {
    if s == [] then Some([])
    else
      var first := Ungroup(s[..4]);
      var rest := DecodeGroups(s[4..]);
      if first.None? || rest.None? then None else Some(first.value + rest.value)
  }

  function Decode(input: seq<byte>): Option<seq<byte>> {
    var cleaned := Cleaned(input);
    if |cleaned| % 4 != 0 then None else DecodeGroups(cleaned)
  }

  /** The reverse table, filled from the alphabet. */
  method ReverseTable() returns (reverse: array<byte>)
    ensures fresh(reverse) && reverse.Length == 256 && forall c: nat :: c < 256 ==> reverse[c] == ValueOf(c)
  {
    reverse := new byte[256](_ => NO_VALUE);
    var i := 0;
    while i < 64
      invariant 0 <= i <= 64
      invariant forall c: nat :: c < 256 ==>
                  reverse[c] == if ValueOf(c) < i then ValueOf(c) else NO_VALUE
    {
      DigitValue(i);
      reverse[Digit(i)] := i;
      i := i + 1;
    }
  }

  lemma DecodeStep(s: seq<byte>, i: nat, out: seq<byte>)
    requires i + 4 <= |s| && |s[i..]| % 4 == 0 && |s[i + 4..]| % 4 == 0
    ensures Prefixed(out, DecodeGroups(s[i..])) ==
            if Ungroup(s[i..i + 4]).None? then None
            else Prefixed(out + Ungroup(s[i..i + 4]).value, DecodeGroups(s[i + 4..]))
  {
    hide Ungroup;
    assert s[i..][..4] == s[i..i + 4] && s[i..][4..] == s[i + 4..];
    var first, rest := Ungroup(s[i..i + 4]), DecodeGroups(s[i + 4..]);
    if first.Some? && rest.Some? {
      assert out + (first.value + rest.value) == (out + first.value) + rest.value;
    }
  }

  /** What follows `out`, if anything does. */
  function Prefixed(out: seq<byte>, rest: Option<seq<byte>>): Option<seq<byte>> {
    if rest.None? then None else Some(out + rest.value)
  }

  method DecodeChunks(input: seq<byte>) returns (r: Option<seq<byte>>)
    ensures r == Decode(input)
  {
    hide Ungroup;
    var reverse := ReverseTable();
    var cleaned := Cleaned(input);
    if |cleaned| % 4 != 0 {
      return None;
    }
    var out: seq<byte> := [];
    var i := 0;
    ghost var goal := DecodeGroups(cleaned);
    assert cleaned[0..] == cleaned;
    assert goal.Some? ==> out + goal.value == goal.value;
    while i < |cleaned|
      invariant 0 <= i <= |cleaned| && i % 4 == 0
      invariant goal == Prefixed(out, DecodeGroups(cleaned[i..]))
      invariant forall c: nat :: c < 256 ==> reverse[c] == ValueOf(c)
    {
      DecodeStep(cleaned, i, out);
      var piece := DecodeFour(reverse, cleaned[i..i + 4]);
      if piece.None? {
        return None;
      }
      out := out + piece.value;
      i := i + 4;
    }
    assert cleaned[i..] == [] && out + [] == out;
    r := Some(out);
  }

  /** One turn of the decode loop. */
  method DecodeFour(reverse: array<byte>, chunk: seq<byte>) returns (r: Option<seq<byte>>)
    requires reverse.Length == 256 && forall c: nat :: c < 256 ==> reverse[c] == ValueOf(c)
    requires |chunk| == 4
    ensures r == Ungroup(chunk)
  {
    hide ValueOf;
    var v0: int, v1: int := reverse[chunk[0]], reverse[chunk[1]];
    if v0 == 255 || v1 == 255 {
      return None;
    }
    var n: int := v0 * 262144 + v1 * 4096;
    var out: seq<byte> := [n / 65536 % 256];
    if chunk[2] == PAD {
      if chunk[3] != PAD {
        return None;
      }
      return Some(out);
    }
    var v2: int := reverse[chunk[2]];
    if v2 == 255 {
      return None;
    }
    out := out + [(n + v2 * 64) / 256 % 256];
    if chunk[3] == PAD {
      assert out == [Top(n), Middle(n + v2 * 64)];
      return Some(out);
    }
    var v3: int := reverse[chunk[3]];
    if v3 == 255 {
      return None;
    }
    out := out + [(n + v2 * 64 + v3) % 256];
    assert out == [Top(n), Middle(n + v2 * 64), Low(n + v2 * 64 + v3)];
    r := Some(out);
  }

  // ─── Laws ───

  lemma Regroup(n: nat, low: nat, high: nat)
    requires (low, high) in {(4096, 262144), (64, 4096), (1, 64)}
    ensures n / low == n / high * 64 + n / low % 64
    ensures n / high * high + n / low % 64 * low == n / low * low
  {
    assert n / low / 64 == n / high;
  }

  lemma TopByte(n: nat)
    ensures n / 4096 * 4096 / 65536 == n / 65536
  {
    var q, r := n / 65536, n % 65536;
    assert n == 65536 * q + r;
    assert n / 4096 == 16 * q + r / 4096;
    assert n / 4096 * 4096 == 65536 * q + r / 4096 * 4096;
  }

  lemma MiddleByte(n: nat)
    ensures n / 64 * 64 / 256 == n / 256
  {
    var q, r := n / 256, n % 256;
    assert n == 256 * q + r;
    assert n / 64 == 4 * q + r / 64;
  }

  /** The first sextets of a number, put back, give its first bytes. */
  lemma Sextets(n: nat)
    requires n < 0x100_0000
    ensures n / 262144 < 64
    ensures Top(n / 262144 * 262144 + n / 4096 % 64 * 4096) == n / 65536
    ensures Middle(n / 262144 * 262144 + n / 4096 % 64 * 4096 + n / 64 % 64 * 64) == n / 256 % 256
    ensures Low(n / 262144 * 262144 + n / 4096 % 64 * 4096 + n / 64 % 64 * 64 + n % 64) == n % 256
  {
    Regroup(n, 4096, 262144);
    Regroup(n, 64, 4096);
    Regroup(n, 1, 64);
    TopByte(n);
    MiddleByte(n);
  }

  lemma Octets(b0: byte, b1: byte, b2: byte)
    ensures var n := b0 as int * 65536 + b1 as int * 256 + b2 as int;
            n < 0x100_0000 && n / 65536 == b0 && n / 256 % 256 == b1 && n % 256 == b2
  {
  }

  lemma UngroupDigits(v0: nat, v1: nat, v2: nat, v3: nat)
    requires v0 < 64 && v1 < 64 && v2 < 64 && v3 < 64
    ensures var n := v0 * 262144 + v1 * 4096;
            Ungroup([Digit(v0), Digit(v1), PAD, PAD]) == Some([Top(n)]) &&
            Ungroup([Digit(v0), Digit(v1), Digit(v2), PAD]) == Some([Top(n), Middle(n + v2 * 64)]) &&
            Ungroup([Digit(v0), Digit(v1), Digit(v2), Digit(v3)]) ==
              Some([Top(n), Middle(n + v2 * 64), Low(n + v2 * 64 + v3)])
  {
    hide Digit, ValueOf, Top, Middle, Low;
    DigitValue(v0);
    DigitValue(v1);
    DigitValue(v2);
    DigitValue(v3);
  }

  lemma GroupSpelled(chunk: seq<byte>, n: nat)
    requires 1 <= |chunk| <= 3
    requires n == chunk[0] as int * 65536 + (if |chunk| > 1 then chunk[1] as int else 0) * 256 +
                  (if |chunk| > 2 then chunk[2] as int else 0)
    ensures n < 0x100_0000 && n / 65536 == chunk[0] && (|chunk| > 1 ==> n / 256 % 256 == chunk[1]) &&
            (|chunk| > 2 ==> n % 256 == chunk[2])
    ensures Group(chunk) == [Digit(n / 262144), Digit(n / 4096 % 64),
                             if |chunk| > 1 then Digit(n / 64 % 64) else PAD,
                             if |chunk| > 2 then Digit(n % 64) else PAD]
  {
    hide Digit;
    Octets(chunk[0], if |chunk| > 1 then chunk[1] else 0, if |chunk| > 2 then chunk[2] else 0);
  }

  lemma GroupInverts(chunk: seq<byte>)
    requires 1 <= |chunk| <= 3
    ensures Ungroup(Group(chunk)) == Some(chunk)
  {
    hide Digit, ValueOf, Ungroup, Top, Middle, Low, Group;
    var n: int := chunk[0] as int * 65536 + (if |chunk| > 1 then chunk[1] as int else 0) * 256 +
                  (if |chunk| > 2 then chunk[2] as int else 0);
    GroupSpelled(chunk, n);
    Sextets(n);
    UngroupDigits(n / 262144, n / 4096 % 64, n / 64 % 64, n % 64);
    if |chunk| == 1 {
      assert chunk == [chunk[0]];
    } else if |chunk| == 2 {
      assert chunk == [chunk[0], chunk[1]];
    } else {
      assert chunk == [chunk[0], chunk[1], chunk[2]];
    }
  }

  lemma NoSpaceInGroup(chunk: seq<byte>)
    requires 1 <= |chunk| <= 3
    ensures forall i :: 0 <= i < 4 ==> IsDigit(Group(chunk)[i]) || Group(chunk)[i] == PAD
  {
    hide Digit;
  }

  /** Every character written is a digit of the alphabet or the pad. */
  lemma {:induction false} StaysInAlphabet(input: seq<byte>)
    ensures forall i :: 0 <= i < |Encode(input)| ==> IsDigit(Encode(input)[i]) || Encode(input)[i] == PAD
  {
    hide Group, Digit, IsDigit;
    if input == [] {
    } else {
      NoSpaceInGroup(Chunk(input));
      StaysInAlphabet(input[|Chunk(input)|..]);
    }
  }

  lemma {:induction false} CleanAlready(s: seq<byte>)
    requires forall i :: 0 <= i < |s| ==> !IsSpace(s[i])
    ensures Cleaned(s) == s
  {
    if s == [] {
    } else {
      CleanAlready(s[1..]);
    }
  }

  lemma {:induction false} GroupsInvert(input: seq<byte>)
    ensures DecodeGroups(Encode(input)) == Some(input)
  {
    hide Group, Ungroup;
    if input == [] {
    } else {
      var chunk := Chunk(input);
      var rest := input[|chunk|..];
      GroupInverts(chunk);
      GroupsInvert(rest);
      var s := Encode(input);
      assert s[..4] == Group(chunk) && s[4..] == Encode(rest);
      assert input == chunk + rest;
    }
  }

  /** Decoding what was encoded gives the bytes back, for every byte string. */
  lemma RoundTrip(input: seq<byte>)
    ensures Decode(Encode(input)) == Some(input)
  {
    hide Encode, DecodeGroups, Cleaned;
    StaysInAlphabet(input);
    CleanAlready(Encode(input));
    GroupsInvert(input);
  }

  lemma {:induction false} CleanedConcat(a: seq<byte>, b: seq<byte>)
    ensures Cleaned(a + b) == Cleaned(a) + Cleaned(b)
  {
    if a == [] {
      assert a + b == b;
    } else {
      assert (a + b)[1..] == a[1..] + b;
      CleanedConcat(a[1..], b);
    }
  }

  /** A whitespace character anywhere changes nothing. */
  lemma WhitespaceIgnored(a: seq<byte>, space: byte, b: seq<byte>)
    requires space in {9, 10, 12, 13, 32}
    ensures Decode(a + [space] + b) == Decode(a + b)
  {
    CleanedConcat(a + [space], b);
    CleanedConcat(a, [space]);
    CleanedConcat(a, b);
    assert [space][1..] == [] && Cleaned([space]) == [];
    assert Cleaned(a) + [] == Cleaned(a);
  }

  /** Any text that is an encoding once its whitespace is dropped decodes to what was encoded. */
  lemma SpacedRoundTrip(text: seq<byte>, input: seq<byte>)
    requires Cleaned(text) == Encode(input)
    ensures Decode(text) == Some(input)
  {
    hide Encode, DecodeGroups, Cleaned;
    GroupsInvert(input);
  }
  // ─── What is accepted ───

  /** Two digits at least, then two more, one and the pad, or two pads. */
  ghost predicate GoodGroup(c: seq<byte>) {
    |c| == 4 && IsDigit(c[0]) && IsDigit(c[1]) &&
    ((IsDigit(c[2]) && (IsDigit(c[3]) || c[3] == 61)) || (c[2] == 61 && c[3] == 61))
  }

  ghost predicate GroupGood(s: seq<byte>, i: nat) {
    4 * i + 4 <= |s| && GoodGroup(s[4 * i..4 * i + 4])
  }

  lemma UngroupAccepts(c: seq<byte>)
    requires |c| == 4
    ensures Ungroup(c).Some? <==> GoodGroup(c)
    ensures Ungroup(c).Some? ==> |Ungroup(c).value| == if c[2] == 61 then 1 else if c[3] == 61 then 2 else 3
  {
    hide Digit;
  }

  lemma {:induction false} GroupsAccepted(s: seq<byte>)
    requires |s| % 4 == 0
    ensures DecodeGroups(s).Some? <==> forall i: nat :: i < |s| / 4 ==> GroupGood(s, i)
    decreases |s|
  {
    hide Ungroup, GoodGroup;
    if s == [] {
    } else {
      UngroupAccepts(s[..4]);
      GroupsAccepted(s[4..]);
      assert s[0..4] == s[..4];
      assert GroupGood(s, 0) <==> GoodGroup(s[..4]);
      if forall i: nat :: i < |s| / 4 ==> GroupGood(s, i) {
        forall i: nat | i < |s[4..]| / 4
          ensures GroupGood(s[4..], i)
        {
          GroupBehind(s, i);
        }
      } else {
        var i: nat :| i < |s| / 4 && !GroupGood(s, i);
        if i > 0 {
          GroupBehind(s, i - 1);
        }
      }
    }
  }

  lemma GroupBehind(s: seq<byte>, i: nat)
    requires 4 <= |s| && i < |s[4..]| / 4
    ensures GroupGood(s[4..], i) <==> GroupGood(s, i + 1)
  {
    hide GoodGroup;
    assert s[4..][4 * i..4 * i + 4] == s[4 * (i + 1)..4 * (i + 1) + 4];
  }

  /**
   Whatever is left once whitespace is removed is decoded exactly when it is whole groups of four,
     each of digits with at
   most two pads at its end.
   */
  lemma AcceptsExactly(input: seq<byte>)
    ensures var s := Cleaned(input);
            Decode(input).Some? <==> |s| % 4 == 0 && forall i: nat :: i < |s| / 4 ==> GroupGood(s, i)
  {
    hide DecodeGroups, Cleaned, GroupGood;
    if |Cleaned(input)| % 4 == 0 {
      GroupsAccepted(Cleaned(input));
    }
  }
  // ─── The alphabet and the order of the bits ───

  // In short pieces: the prover unfolds a literal character by character, and long ones are dear.
  const UPPER := "ABCDEFGH" + ("IJKLMNOP" + ("QRSTUVWX" + "YZ"))
  const LOWER := "abcdefgh" + ("ijklmnop" + ("qrstuvwx" + "yz"))
  const DIGITS := "01234567" + "89"

  lemma UpperIs(i: nat)
    requires i < 26
    ensures |UPPER| == 26 && UPPER[i] as int == 65 + i
  {
  }

  lemma LowerIs(i: nat)
    requires i < 26
    ensures |LOWER| == 26 && LOWER[i] as int == 97 + i
  {
  }

  lemma DigitsAre(i: nat)
    requires i < 10
    ensures |DIGITS| == 10 && DIGITS[i] as int == 48 + i
  {
  }

  /** The 64 digits are the alphabet of section 4 of RFC 4648, in its order. */
  lemma AlphabetIs(v: nat)
    requires v < 64
    ensures var alphabet := UPPER + LOWER + DIGITS + "+/";
            |alphabet| == 64 && Digit(v) as int == alphabet[v] as int
  {
    hide UPPER, LOWER, DIGITS;
    UpperIs(if v < 26 then v else 0);
    LowerIs(if 26 <= v < 52 then v - 26 else 0);
    DigitsAre(if 52 <= v < 62 then v - 52 else 0);
  }

  /** Every digit of a full group is six bits of the three bytes, the first byte's highest first. */
  lemma GroupIs(a: byte, b: byte, c: byte)
    ensures Group([a, b, c]) == [Digit(a as int / 4), Digit(a as int % 4 * 16 + b as int / 16),
                                 Digit(b as int % 16 * 4 + c as int / 64), Digit(c as int % 64)]
  {
    hide Digit;
    var n := a as int * 65536 + b as int * 256 + c as int;
    var h, l, m, r := b as int / 16, b as int % 16, c as int / 64, c as int % 64;
    SixBits(a as int / 4, a as int % 4, h, l, m, r);
    assert n == ((a as int / 4 * 4 + a as int % 4) * 16 + h) * 4096 + (l * 4 + m) * 64 + r;
  }

  /** Three bytes, six bits at a time. */
  lemma SixBits(p: nat, q: nat, h: nat, l: nat, m: nat, r: nat)
    requires p < 64 && q < 4 && h < 16 && l < 16 && m < 4 && r < 64
    ensures var n := ((p * 4 + q) * 16 + h) * 4096 + (l * 4 + m) * 64 + r;
            n / 262144 == p && n / 4096 % 64 == q * 16 + h && n / 64 % 64 == l * 4 + m && n % 64 == r
  {
    var n := ((p * 4 + q) * 16 + h) * 4096 + (l * 4 + m) * 64 + r;
    assert n == 64 * (4096 * p + 64 * (q * 16 + h) + (l * 4 + m)) + r;
    assert n / 64 == 4096 * p + 64 * (q * 16 + h) + (l * 4 + m);
    assert n / 4096 == 64 * p + (q * 16 + h);
  }
}
