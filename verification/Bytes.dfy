/** Bytes, bit streams and big-endian numbers, as the document format uses them. */
module Bytes {

  type byte = b: int | 0 <= b < 256

  function Pow2(k: nat): (p: nat)
    ensures p > 0
  {
    if k == 0 then 1 else 2 * Pow2(k - 1)
  }

  /** The `k` low bits of `n`, most significant first. */
  function Bits(n: nat, k: nat): (s: seq<bool>)
    ensures |s| == k
  {
    if k == 0 then [] else Bits(n / 2, k - 1) + [n % 2 == 1]
  }

  /** The number a bit sequence spells, most significant bit first. */
  function Value(s: seq<bool>): (n: nat)
    ensures n < Pow2(|s|)
  {
    if s == [] then 0 else 2 * Value(s[..|s| - 1]) + (if s[|s| - 1] then 1 else 0)
  }

  lemma {:induction false} ValueOfBits(n: nat, k: nat)
    requires n < Pow2(k)
    ensures Value(Bits(n, k)) == n
  {
    if k == 0 {
    } else {
      ValueOfBits(n / 2, k - 1);
      assert Bits(n, k)[..k - 1] == Bits(n / 2, k - 1);
    }
  }

  lemma {:induction false} BitsOfValue(s: seq<bool>)
    ensures Bits(Value(s), |s|) == s
  {
    if s == [] {
    } else {
      BitsOfValue(s[..|s| - 1]);
    }
  }

  lemma EightBits()
    ensures Pow2(8) == 256
  {
    assert Pow2(4) == 16;
  }

  /** Bytes to bits, most significant bit of each byte first. */
  function BytesToBits(bytes: seq<byte>): (s: seq<bool>)
    ensures |s| == 8 * |bytes|
  {
    if bytes == [] then [] else Bits(bytes[0], 8) + BytesToBits(bytes[1..])
  }

  /** The byte eight bits spell. */
  function ByteOf(s: seq<bool>): byte
    requires |s| == 8
  {
    EightBits();
    Value(s)
  }

  /** Bits to bytes; a trailing partial byte is discarded. */
  function BitsToBytes(s: seq<bool>): (bytes: seq<byte>)
    ensures |bytes| == |s| / 8
  {
    if |s| < 8 then [] else [ByteOf(s[..8])] + BitsToBytes(s[8..])
  }

  lemma ByteOfBits(b: byte)
    ensures ByteOf(Bits(b, 8)) == b
  {
    EightBits();
    ValueOfBits(b, 8);
  }

  lemma LeadingByte(b: byte, tail: seq<bool>)
    ensures BitsToBytes(Bits(b, 8) + tail) == [b] + BitsToBytes(tail)
  {
    var s := Bits(b, 8) + tail;
    assert s[..8] == Bits(b, 8) && s[8..] == tail;
    ByteOfBits(b);
  }

  /** Reading back what was laid out, whatever follows it, gives the bytes laid out and then the rest. */
  lemma {:induction false} BitsToBytesInverts(bytes: seq<byte>, rest: seq<bool>)
    ensures BitsToBytes(BytesToBits(bytes) + rest) == bytes + BitsToBytes(rest)
  {
    hide Bits, ByteOf, Pow2;
    if bytes == [] {
      assert BytesToBits(bytes) + rest == rest;
    } else {
      var others := BytesToBits(bytes[1..]) + rest;
      assert BytesToBits(bytes) + rest == Bits(bytes[0], 8) + others;
      LeadingByte(bytes[0], others);
      BitsToBytesInverts(bytes[1..], rest);
      assert bytes + BitsToBytes(rest) == [bytes[0]] + (bytes[1..] + BitsToBytes(rest));
    }
  }

  lemma {:induction false} BytesToBitsInverts(s: seq<bool>)
    requires |s| % 8 == 0
    ensures BytesToBits(BitsToBytes(s)) == s
  {
    if s == [] {
    } else {
      BitsOfValue(s[..8]);
      BytesToBitsInverts(s[8..]);
      assert BitsToBytes(s)[1..] == BitsToBytes(s[8..]);
      assert s == s[..8] + s[8..];
    }
  }

  lemma {:induction false} BytesToBitsConcat(a: seq<byte>, b: seq<byte>)
    ensures BytesToBits(a + b) == BytesToBits(a) + BytesToBits(b)
  {
    hide Bits;
    if a == [] {
      assert a + b == b;
    } else {
      assert (a + b)[1..] == a[1..] + b;
      BytesToBitsConcat(a[1..], b);
      assert Bits(a[0], 8) + (BytesToBits(a[1..]) + BytesToBits(b)) == BytesToBits(a) + BytesToBits(b);
    }
  }

  /** More bits behind leave the whole bytes in front as they were. */
  lemma {:induction false} BitsToBytesFront(a: seq<bool>, b: seq<bool>)
    ensures |BitsToBytes(a)| <= |BitsToBytes(a + b)| && BitsToBytes(a + b)[..|BitsToBytes(a)|] == BitsToBytes(a)
  {
    hide ByteOf;
    if |a| < 8 {
    } else {
      assert (a + b)[..8] == a[..8] && (a + b)[8..] == a[8..] + b;
      BitsToBytesFront(a[8..], b);
    }
  }

  /** `u16::to_be_bytes`. */
  function Be16(n: nat): (s: seq<byte>)
    requires n < 0x1_0000
    ensures |s| == 2 && FromBe16(s) == n
  {
    [n / 256, n % 256]
  }

  /** `u16::from_be_bytes`. */
  function FromBe16(s: seq<byte>): (n: nat)
    requires |s| == 2
    ensures n < 0x1_0000
  {
    256 * (s[0] as int) + s[1] as int
  }

  lemma FromBe16Inverts(s: seq<byte>)
    requires |s| == 2
    ensures Be16(FromBe16(s)) == s
  {
  }

  /** `u32::to_be_bytes`. */
  function Be32(n: nat): (s: seq<byte>)
    requires n < 0x1_0000_0000
    ensures |s| == 4 && FromBe32(s) == n
  {
    var s := Be16(n / 0x1_0000) + Be16(n % 0x1_0000);
    assert s[..2] == Be16(n / 0x1_0000) && s[2..] == Be16(n % 0x1_0000);
    s
  }

  /** `u32::from_be_bytes`. */
  function FromBe32(s: seq<byte>): (n: nat)
    requires |s| == 4
    ensures n < 0x1_0000_0000
  {
    FromBe16(s[..2]) * 0x1_0000 + FromBe16(s[2..])
  }
  /** Bit `i` of a byte, counted from the highest, by its weight. */
  function BitSet(b: byte, i: nat): bool
    requires i < 8
  {
    var n := b as int;
    (match i case 0 => n / 128 case 1 => n / 64 case 2 => n / 32 case 3 => n / 16
             case 4 => n / 8 case 5 => n / 4 case 6 => n / 2 case _ => n) % 2 == 1
  }

  lemma HalfThenWeight(n: nat, w: nat)
    requires w in {1, 2, 4, 8, 16, 32, 64}
    ensures n / 2 / w == n / (2 * w)
  {
  }

  lemma {:induction false} BitByWeight(n: nat, k: nat, i: nat, w: nat)
    requires i < k && w in {1, 2, 4, 8, 16, 32, 64, 128} && w == Pow2(k - 1 - i)
    ensures Bits(n, k)[i] == (n / w % 2 == 1)
    decreases k
  {
    if i == k - 1 {
      assert w == 1;
    } else {
      HalfThenWeight(n, w / 2);
      BitByWeight(n / 2, k - 1, i, w / 2);
    }
  }

  lemma ByteBit(b: byte, i: nat)
    requires i < 8
    ensures Bits(b, 8)[i] == BitSet(b, i)
  {
    hide Bits;
    EightBits();
    BitByWeight(b, 8, i, match i case 0 => 128 case 1 => 64 case 2 => 32 case 3 => 16
                               case 4 => 8 case 5 => 4 case 6 => 2 case _ => 1) by {
      Weights();
    }
  }

  lemma Weights()
    ensures Pow2(0) == 1 && Pow2(1) == 2 && Pow2(2) == 4 && Pow2(3) == 8 && Pow2(4) == 16 && Pow2(5) == 32
    ensures Pow2(6) == 64 && Pow2(7) == 128
  {
    assert Pow2(3) == 8 && Pow2(5) == 32;
  }

  lemma {:induction false} BitsOfByte(bytes: seq<byte>, j: nat, i: nat)
    requires j < |bytes| && i < 8
    ensures BytesToBits(bytes)[8 * j + i] == Bits(bytes[j], 8)[i]
  {
    hide Bits;
    if j == 0 {
    } else {
      BitsOfByte(bytes[1..], j - 1, i);
    }
  }
}
