/**
 The two checksums of the document format and the table-driven CRC-32 of the file channel.

 A machine word is its bits, most significant first, so that shifts and exclusive or are
 written out. The functions are the bit-serial definitions; the methods are the loops.
 */
module Checksums {
  import opened Bytes

  type word = w: seq<bool> | |w| == 32 witness seq(32, _ => false)
  type half = w: seq<bool> | |w| == 16 witness seq(16, _ => false)

  function Zeros(n: nat): (z: seq<bool>)
    ensures |z| == n && forall i :: 0 <= i < n ==> !z[i]
  {
    seq(n, _ => false)
  }

  function Ones(n: nat): (z: seq<bool>)
    ensures |z| == n && forall i :: 0 <= i < n ==> z[i]
  {
    seq(n, _ => true)
  }

  function Xor(a: seq<bool>, b: seq<bool>): (c: seq<bool>)
    requires |a| == |b|
    ensures |c| == |a| && forall i :: 0 <= i < |a| ==> c[i] == (a[i] != b[i])
  {
    seq(|a|, i requires 0 <= i < |a| => a[i] != b[i])
  }

  /** Logical shift right. */
  function Shr(a: seq<bool>, n: nat): (c: seq<bool>)
    requires n <= |a|
    ensures |c| == |a|
  {
    Zeros(n) + a[..|a| - n]
  }

  // CRC-32/ISO-HDLC, reversed polynomial 0xEDB88320, initial value and final mask 0xFFFFFFFF.
  const POLYNOMIAL_32: word :=
    [true, true, true, false, true, true, false, true, true, false, true, true, true, false, false, false,
     true, false, false, false, false, false, true, true, false, false, true, false, false, false, false, false]

  // CRC-16/CCITT-FALSE, polynomial 0x1021, initial value 0xFFFF.
  const POLYNOMIAL_16: half :=
    [false, false, false, true, false, false, false, false, false, false, true, false, false, false, false, true]

  /** `byte as u32`. */
  function Wide(b: byte): word {
    Zeros(24) + Bits(b, 8)
  }

  /** `word as u8`. */
  function Low(v: word): byte {
    ByteOf(v[24..])
  }

  /** One bit of polynomial division. */
  function Step(c: word): word {
    if c[31] then Xor(POLYNOMIAL_32, Shr(c, 1)) else Shr(c, 1)
  }

  function Steps(c: word, n: nat): word
    decreases |c| + n
  {
    if n == 0 then c else Steps(Step(c), n - 1)
  }

  /** The register after the message, fed one byte at a time from state `c`. */
  function Fold(c: word, data: seq<byte>): word
    decreases data
  {
    if data == [] then c else Fold(Steps(Xor(c, Wide(data[0])), 8), data[1..])
  }

  /** CRC-32 of a message. */
  function Crc32(data: seq<byte>): word {
    Xor(Ones(32), Fold(Ones(32), data))
  }

  function Step16(c: half): half {
    if c[0] then Xor(c[1..] + [false], POLYNOMIAL_16) else c[1..] + [false]
  }

  function Steps16(c: half, n: nat): half
    decreases |c| + n
  {
    if n == 0 then c else Steps16(Step16(c), n - 1)
  }

  function Fold16(c: half, data: seq<byte>): half
    decreases data
  {
    if data == [] then c else Fold16(Steps16(Xor(c, Bits(data[0], 8) + Zeros(8)), 8), data[1..])
  }

  /** CRC-16/CCITT-FALSE of a message. */
  function Crc16(data: seq<byte>): half {
    Fold16(Ones(16), data)
  }

  // ─── Linearity and injectivity of the division step ───

  lemma StepInjective(a: word, b: word)
    requires Step(a) == Step(b)
    ensures a == b
  {
    assert Step(a)[0] == a[31] && Step(b)[0] == b[31];
    forall i | 0 <= i < 31
      ensures a[i] == b[i]
    {
      assert Step(a)[i + 1] == (a[i] != (a[31] && POLYNOMIAL_32[i + 1]));
      assert Step(b)[i + 1] == (b[i] != (b[31] && POLYNOMIAL_32[i + 1]));
    }
  }

  lemma {:induction false} StepsInjective(a: word, b: word, n: nat)
    requires Steps(a, n) == Steps(b, n)
    ensures a == b
    decreases n
  {
    if n == 0 {
    } else {
      StepsInjective(Step(a), Step(b), n - 1);
      StepInjective(a, b);
    }
  }

  lemma StepLinear(a: word, b: word)
    ensures Step(Xor(a, b)) == Xor(Step(a), Step(b))
  {
    var c := Xor(a, b);
    forall i | 0 <= i < 32
      ensures Step(c)[i] == Xor(Step(a), Step(b))[i]
    {
      if i > 0 {
        assert Shr(c, 1)[i] == c[i - 1] && Shr(a, 1)[i] == a[i - 1] && Shr(b, 1)[i] == b[i - 1];
      }
    }
  }

  lemma {:induction false} StepsLinear(a: word, b: word, n: nat)
    ensures Steps(Xor(a, b), n) == Xor(Steps(a, n), Steps(b, n))
    decreases n
  {
    if n == 0 {
    } else {
      StepLinear(a, b);
      StepsLinear(Step(a), Step(b), n - 1);
    }
  }

  lemma {:induction false} StepsAdd(c: word, m: nat, n: nat)
    ensures Steps(Steps(c, m), n) == Steps(c, m + n)
    decreases m
  {
    if m == 0 {
    } else {
      StepsAdd(Step(c), m - 1, n);
    }
  }

  /** Steps over clear low bits only shift. */
  lemma {:induction false} StepsShift(c: word, n: nat)
    requires n <= 32 && forall i :: 32 - n <= i < 32 ==> !c[i]
    ensures Steps(c, n) == Shr(c, n)
    decreases n
  {
    if n == 0 {
      assert Shr(c, 0) == c;
    } else {
      assert Step(c) == Shr(c, 1);
      StepsShift(Step(c), n - 1);
      assert Shr(Shr(c, 1), n - 1) == Shr(c, n);
    }
  }

  /** The table update is eight steps of the division: the low byte indexes, the rest shifts. */
  lemma TableUpdate(c: word)
    ensures Steps(c, 8) == Xor(Shr(c, 8), Steps(Wide(Low(c)), 8))
  {
    var high: word, low: word := c[..24] + Zeros(8), Zeros(24) + c[24..];
    assert c == Xor(high, low);
    StepsLinear(high, low, 8);
    StepsShift(high, 8);
    assert Shr(high, 8) == Shr(c, 8);
    BitsOfValue(c[24..]);
  }

  lemma XorCancels(c: seq<bool>, a: seq<bool>, b: seq<bool>)
    requires |a| == |b| == |c| && Xor(c, a) == Xor(c, b)
    ensures a == b
  {
    forall i | 0 <= i < |a|
      ensures a[i] == b[i]
    {
      assert Xor(c, a)[i] == Xor(c, b)[i];
    }
  }

  lemma XorCommutes(a: seq<bool>, b: seq<bool>)
    requires |a| == |b|
    ensures Xor(a, b) == Xor(b, a)
  {
  }

  /** Every update is injective in the register, so over one message two registers never merge. */
  lemma {:induction false} FoldInjective(a: word, b: word, data: seq<byte>)
    requires Fold(a, data) == Fold(b, data)
    ensures a == b
    decreases data
  {
    if data == [] {
    } else {
      var w := Wide(data[0]);
      FoldInjective(Steps(Xor(a, w), 8), Steps(Xor(b, w), 8), data[1..]);
      StepsInjective(Xor(a, w), Xor(b, w), 8);
      XorCommutes(a, w);
      XorCommutes(b, w);
      XorCancels(w, a, b);
    }
  }

  lemma {:induction false} FoldConcat(c: word, a: seq<byte>, b: seq<byte>)
    ensures Fold(c, a + b) == Fold(Fold(c, a), b)
    decreases a
  {
    if a == [] {
      assert a + b == b;
    } else {
      assert (a + b)[1..] == a[1..] + b;
      FoldConcat(Steps(Xor(c, Wide(a[0])), 8), a[1..], b);
    }
  }

  /** Up to four bytes as one little-endian word. */
  function Spell(w: seq<byte>): (s: seq<bool>)
    ensures |s| == 8 * |w|
  {
    if w == [] then [] else Spell(w[1..]) + Bits(w[0], 8)
  }

  function Word(w: seq<byte>): word
    requires |w| <= 4
  {
    Zeros(32 - 8 * |w|) + Spell(w)
  }

  lemma {:induction false} SpellInjective(a: seq<byte>, b: seq<byte>)
    requires |a| == |b| && Spell(a) == Spell(b)
    ensures a == b
  {
    if a == [] {
    } else {
      var n := 8 * |a| - 8;
      assert Spell(a)[..n] == Spell(a[1..]) && Spell(b)[..n] == Spell(b[1..]);
      assert Spell(a)[n..] == Bits(a[0], 8) && Spell(b)[n..] == Bits(b[0], 8);
      SpellInjective(a[1..], b[1..]);
      ByteOfBits(a[0]);
      ByteOfBits(b[0]);
      assert a == [a[0]] + a[1..] && b == [b[0]] + b[1..];
    }
  }

  /** A word one byte up, its top byte dropped. */
  function Up(v: word): word {
    v[8..] + Zeros(8)
  }

  lemma XorAssociative(a: seq<bool>, b: seq<bool>, c: seq<bool>)
    requires |a| == |b| == |c|
    ensures Xor(Xor(a, b), c) == Xor(a, Xor(b, c))
  {
  }

  lemma UpThenSteps(v: word)
    requires v[..8] == Zeros(8)
    ensures Steps(Up(v), 8) == v
  {
    StepsShift(Up(v), 8);
    assert Shr(Up(v), 8) == Zeros(8) + v[8..] == v[..8] + v[8..];
  }

  /** A word is its first byte and the word of the rest one byte up. */
  lemma WordSplits(w: seq<byte>)
    requires 0 < |w| <= 4
    ensures Word(w) == Xor(Wide(w[0]), Up(Word(w[1..])))
    ensures Word(w[1..])[..8] == Zeros(8)
  {
    var n := 32 - 8 * |w|;
    var high, low := Spell(w[1..]), Bits(w[0], 8);
    assert Word(w[1..]) == Zeros(n + 8) + high;
    assert Up(Word(w[1..])) == (Zeros(n) + high) + Zeros(8);
    assert Word(w) == (Zeros(n) + high) + low;
    Beside(Zeros(n) + high, low);
  }

  lemma Beside(a: seq<bool>, b: seq<bool>)
    requires |a| == 24 && |b| == 8
    ensures a + b == Xor(Zeros(24) + b, a + Zeros(8))
  {
  }

  lemma EmptyWord(c: word)
    ensures Xor(c, Word([])) == c
  {
  }

  lemma FoldStep(c: word, w: seq<byte>, x: word, rest: word, n: nat)
    requires w != [] && x == Xor(c, Xor(Wide(w[0]), Up(rest))) && rest[..8] == Zeros(8)
    requires Fold(Steps(Xor(c, Wide(w[0])), 8), w[1..]) == Steps(Xor(Steps(Xor(c, Wide(w[0])), 8), rest), n)
    ensures Fold(c, w) == Steps(x, 8 + n)
  {
    FeedWord(c, Wide(w[0]), rest);
    StepsAdd(x, 8, n);
  }

  /** Feeding up to four bytes is dividing the register xored with their word. */
  lemma {:induction false} FoldIsDivision(c: word, w: seq<byte>)
    requires |w| <= 4
    ensures Fold(c, w) == Steps(Xor(c, Word(w)), 8 * |w|)
    decreases w
  {
    if w == [] {
      EmptyWord(c);
    } else {
      WordSplits(w);
      FoldIsDivision(Steps(Xor(c, Wide(w[0])), 8), w[1..]);
      FoldStep(c, w, Xor(c, Word(w)), Word(w[1..]), 8 * |w[1..]|);
    }
  }

  lemma FeedWord(c: word, low: word, rest: word)
    requires rest[..8] == Zeros(8)
    ensures Xor(Steps(Xor(c, low), 8), rest) == Steps(Xor(c, Xor(low, Up(rest))), 8)
  {
    XorAssociative(c, low, Up(rest));
    StepsLinear(Xor(c, low), Up(rest), 8);
    UpThenSteps(rest);
  }

  /** A CRC-32 tells apart any two messages that differ inside one window of four bytes. */
  lemma BurstChangesCrc32(before: seq<byte>, a: seq<byte>, b: seq<byte>, after: seq<byte>)
    requires |a| == |b| <= 4 && a != b
    ensures Crc32(before + a + after) != Crc32(before + b + after)
  {
    var c := Fold(Ones(32), before);
    FoldConcat(Ones(32), before + a, after);
    FoldConcat(Ones(32), before, a);
    FoldConcat(Ones(32), before + b, after);
    FoldConcat(Ones(32), before, b);
    if Crc32(before + a + after) == Crc32(before + b + after) {
      XorCancels(Ones(32), Fold(Fold(c, a), after), Fold(Fold(c, b), after));
      FoldInjective(Fold(c, a), Fold(c, b), after);
      FoldIsDivision(c, a);
      FoldIsDivision(c, b);
      StepsInjective(Xor(c, Word(a)), Xor(c, Word(b)), 8 * |a|);
      XorCancels(c, Word(a), Word(b));
      assert Word(a)[32 - 8 * |a|..] == Spell(a) && Word(b)[32 - 8 * |a|..] == Spell(b);
      SpellInjective(a, b);
      assert false;
    }
  }

  // ─── Checksum fields ───

  /** `u32::to_be_bytes` of a checksum. */
  function Be32Of(v: word): (s: seq<byte>)
    ensures |s| == 4
  {
    BitsToBytes(v)
  }

  /** `u32::from_be_bytes` of a checksum. */
  function Bv32Of(s: seq<byte>): word
    requires |s| == 4
  {
    BytesToBits(s)
  }

  function Be16Of(v: half): (s: seq<byte>)
    ensures |s| == 2
  {
    BitsToBytes(v)
  }

  function Bv16Of(s: seq<byte>): half
    requires |s| == 2
  {
    BytesToBits(s)
  }

  lemma ChecksumFieldInverts(v: word)
    ensures Bv32Of(Be32Of(v)) == v
  {
    BytesToBitsInverts(v);
  }

  lemma HeaderFieldInverts(v: half)
    ensures Bv16Of(Be16Of(v)) == v
  {
    BytesToBitsInverts(v);
  }

  lemma HeaderFieldStores(s: seq<byte>)
    requires |s| == 2
    ensures Be16Of(Bv16Of(s)) == s
  {
    BitsToBytesInverts(s, []);
    assert BytesToBits(s) + [] == BytesToBits(s) && s + [] == s;
  }

  /** Distinct checksum fields store distinct checksums. */
  lemma ChecksumFieldInjective(a: seq<byte>, b: seq<byte>)
    requires |a| == |b| == 4 && Bv32Of(a) == Bv32Of(b)
    ensures a == b
  {
    BitsToBytesInverts(a, []);
    BitsToBytesInverts(b, []);
    assert BytesToBits(a) + [] == BytesToBits(a) && BytesToBits(b) + [] == BytesToBits(b);
    assert a + BitsToBytes([]) == a && b + BitsToBytes([]) == b;
  }

  // ─── The loops ───

  lemma {:induction false} StepsLast(c: word, n: nat)
    ensures Steps(c, n + 1) == Step(Steps(c, n))
    decreases n
  {
    StepsAdd(c, n, 1);
    var d := Steps(c, n);
    assert Steps(d, 1) == Steps(Step(d), 0);
  }

  lemma {:induction false} Steps16Last(c: half, n: nat)
    ensures Steps16(c, n + 1) == Step16(Steps16(c, n))
    decreases n
  {
    if n == 0 {
      assert Steps16(c, 1) == Steps16(Step16(c), 0);
    } else {
      Steps16Last(Step16(c), n - 1);
    }
  }

  lemma FoldLast(c: word, data: seq<byte>, i: nat)
    requires i < |data|
    ensures Fold(c, data[..i + 1]) == Steps(Xor(Fold(c, data[..i]), Wide(data[i])), 8)
  {
    assert data[..i + 1] == data[..i] + [data[i]];
    FoldConcat(c, data[..i], [data[i]]);
  }

  lemma {:induction false} Fold16Concat(c: half, a: seq<byte>, b: seq<byte>)
    ensures Fold16(c, a + b) == Fold16(Fold16(c, a), b)
    decreases a
  {
    if a == [] {
      assert a + b == b;
    } else {
      assert (a + b)[1..] == a[1..] + b;
      Fold16Concat(Steps16(Xor(c, Bits(a[0], 8) + Zeros(8)), 8), a[1..], b);
    }
  }

  lemma Fold16Last(c: half, data: seq<byte>, i: nat)
    requires i < |data|
    ensures Fold16(c, data[..i + 1]) == Steps16(Xor(Fold16(c, data[..i]), Bits(data[i], 8) + Zeros(8)), 8)
  {
    assert data[..i + 1] == data[..i] + [data[i]];
    Fold16Concat(c, data[..i], [data[i]]);
  }

  /** `POLYNOMIAL & (crc & 1).wrapping_neg()`. */
  function MaskedPolynomial(c: word): word {
    var mask: seq<bool> := if c[31] then Ones(32) else Zeros(32);
    seq(32, j requires 0 <= j < 32 => POLYNOMIAL_32[j] && mask[j])
  }

  lemma MaskedStep(c: word)
    ensures Xor(Shr(c, 1), MaskedPolynomial(c)) == Step(c)
  {
    if c[31] {
      assert MaskedPolynomial(c) == POLYNOMIAL_32;
      XorCommutes(Shr(c, 1), POLYNOMIAL_32);
    } else {
      assert MaskedPolynomial(c) == Zeros(32);
    }
  }

  /** The pipeline's CRC-32: eight masked steps a byte. */
  method BitSerialCrc32(data: seq<byte>) returns (r: word)
    ensures r == Crc32(data)
  {
    var crc: word := Ones(32);
    for i := 0 to |data|
      invariant crc == Fold(Ones(32), data[..i])
    {
      FoldLast(Ones(32), data, i);
      crc := Xor(crc, Wide(data[i]));
      ghost var entry := crc;
      for k := 0 to 8
        invariant crc == Steps(entry, k)
      {
        StepsLast(entry, k);
        MaskedStep(crc);
        crc := Xor(Shr(crc, 1), MaskedPolynomial(crc));
      }
    }
    assert data[..|data|] == data;
    r := Xor(Ones(32), crc);
  }

  method BitSerialCrc16(data: seq<byte>) returns (r: half)
    ensures r == Crc16(data)
  {
    var crc: half := Ones(16);
    for i := 0 to |data|
      invariant crc == Fold16(Ones(16), data[..i])
    {
      Fold16Last(Ones(16), data, i);
      crc := Xor(crc, Bits(data[i], 8) + Zeros(8));
      ghost var entry := crc;
      for k := 0 to 8
        invariant crc == Steps16(entry, k)
      {
        Steps16Last(entry, k);
        crc := if crc[0] then Xor(crc[1..] + [false], POLYNOMIAL_16) else crc[1..] + [false];
      }
    }
    assert data[..|data|] == data;
    r := crc;
  }

  ghost predicate IsCrcTable(table: array<word>)
    reads table
  {
    table.Length == 256 && forall n: byte :: table[n] == Steps(Wide(n), 8)
  }

  method TableEntry(n: byte) returns (c: word)
    ensures c == Steps(Wide(n), 8)
  {
    c := Wide(n);
    var k := 0;
    while k < 8
      invariant 0 <= k <= 8 && c == Steps(Wide(n), k)
    {
      StepsLast(Wide(n), k);
      if c[31] {
        c := Xor(POLYNOMIAL_32, Shr(c, 1));
      } else {
        c := Shr(c, 1);
      }
      k := k + 1;
    }
  }

  method MakeCrcTable() returns (table: array<word>)
    ensures fresh(table) && IsCrcTable(table)
  {
    table := new word[256](_ => Zeros(32));
    var n := 0;
    while n < 256
      invariant 0 <= n <= 256
      invariant forall m: byte :: m < n ==> table[m] == Steps(Wide(m), 8)
    {
      var c := TableEntry(n);
      table[n] := c;
      n := n + 1;
    }
  }

  /** The file channel's CRC-32: one table look-up a byte. It is the bit-serial checksum. */
  method TableCrc32(table: array<word>, data: seq<byte>) returns (r: word)
    requires IsCrcTable(table)
    ensures r == Crc32(data)
  {
    var crc: word := Ones(32);
    for i := 0 to |data|
      invariant crc == Fold(Ones(32), data[..i])
    {
      FoldLast(Ones(32), data, i);
      var x := Xor(crc, Wide(data[i]));
      TableUpdate(x);
      var idx := Low(x);
      assert Shr(x, 8) == Shr(crc, 8);
      crc := Xor(Shr(crc, 8), table[idx]);
    }
    assert data[..|data|] == data;
    r := Xor(Ones(32), crc);
  }
  // ─── The generators ───

  /**
   The 32-bit generator, its coefficients reflected, has the powers IEEE 802.3 names beside the 32nd; the 16-bit one,
   highest power first, has the 12th, the fifth and the zeroth beside the 16th.
   */
  lemma Generators()
    ensures forall k :: 0 <= k < 32 ==>
              (POLYNOMIAL_32[k] <==> k in {26, 23, 22, 16, 12, 11, 10, 8, 7, 5, 4, 2, 1, 0})
    ensures forall k :: 0 <= k < 16 ==> (POLYNOMIAL_16[k] <==> 15 - k in {12, 5, 0})
  {
  }

  /** Both registers begin with all ones, and the 32-bit one is inverted at the end. */
  lemma NothingSummed()
    ensures Crc32([]) == Zeros(32) && Crc16([]) == Ones(16)
  {
  }
}
