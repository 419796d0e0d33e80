/** UTF-8 (section 3 of RFC 3629): the encoder and the strict decoder of the string library. */
module Utf8 {
  import opened Results
  import opened Bytes

  function EncodeChar(c: char): (s: seq<byte>)
    ensures 1 <= |s| <= 4
    ensures |s| == 1 <==> (c as int) < 0x80
    ensures if |s| == 1 then s[0] < 0x80 else forall i :: 0 <= i < |s| ==> s[i] >= 0x80
  {
    var n := c as int;
    if n < 0x80 then [n]
    else if n < 0x800 then [0xC0 + n / 64, 0x80 + n % 64]
    else if n < 0x10000 then [0xE0 + n / 4096, 0x80 + n / 64 % 64, 0x80 + n % 64]
    else [0xF0 + n / 262144, 0x80 + n / 4096 % 64, 0x80 + n / 64 % 64, 0x80 + n % 64]
  }

  function Encode(text: string): seq<byte> {
    if text == "" then [] else EncodeChar(text[0]) + Encode(text[1..])
  }

  predicate Continues(b: byte) {
    0x80 <= b < 0xC0
  }

  /** The first character of well-formed bytes and how many bytes it takes. */
  datatype First = First(c: char, len: nat)

  function DecodeFirst(s: seq<byte>): (r: Option<First>)
    requires s != []
    ensures r.Some? ==> 1 <= r.value.len <= 4 && r.value.len <= |s|
    ensures r.Some? && s[0] >= 0x80 ==> r.value.c as int >= 0x80
  {
    var b := s[0] as int;
    if b < 0x80 then Some(First(b as char, 1))
    else if b < 0xC2 then None
    else if b < 0xE0 then
      if |s| >= 2 && Continues(s[1]) then Some(First(((b - 0xC0) * 64 + (s[1] as int - 0x80)) as char, 2)) else None
    else if b < 0xF0 then
      if |s| >= 3 && Continues(s[1]) && Continues(s[2]) && (b == 0xE0 ==> s[1] >= 0xA0) && (b == 0xED ==> s[1] < 0xA0)
      then Some(First(((b - 0xE0) * 4096 + (s[1] as int - 0x80) * 64 + (s[2] as int - 0x80)) as char, 3)) else None
    else if b < 0xF5 then
      if |s| >= 4 && Continues(s[1]) && Continues(s[2]) && Continues(s[3]) &&
         (b == 0xF0 ==> s[1] >= 0x90) && (b == 0xF4 ==> s[1] < 0x90)
      then Some(First(((b - 0xF0) * 262144 + (s[1] as int - 0x80) * 4096 + (s[2] as int - 0x80) * 64 +
                       (s[3] as int - 0x80)) as char, 4))
      else None
    else None
  }

  /** `String::from_utf8`. */
  function Decode(s: seq<byte>): Option<string> {
    if s == [] then Some("")
    else
      var first := DecodeFirst(s);
      if first.None? then None
      else
        var rest := Decode(s[first.value.len..]);
        if rest.None? then None else Some([first.value.c] + rest.value)
  }

  /** Base-64 digits of a code point. */
  lemma Digits(n: nat)
    ensures n == n / 64 * 64 + n % 64
    ensures n / 64 == n / 4096 * 64 + n / 64 % 64
    ensures n / 4096 == n / 262144 * 64 + n / 4096 % 64
  {
    assert n / 64 / 64 == n / 4096;
    assert n / 4096 / 64 == n / 262144;
  }

  lemma DecodeThree(n: nat, s: seq<byte>)
    requires 0x800 <= n < 0x10000 && !(0xD800 <= n < 0xE000) && |s| >= 3
    requires s[0] as int == 0xE0 + n / 4096 && s[1] as int == 0x80 + n / 64 % 64 && s[2] as int == 0x80 + n % 64
    ensures DecodeFirst(s) == Some(First(n as char, 3))
  {
    Digits(n);
  }

  lemma DecodeFour(n: nat, s: seq<byte>)
    requires 0x10000 <= n < 0x110000 && |s| >= 4
    requires s[0] as int == 0xF0 + n / 262144 && s[1] as int == 0x80 + n / 4096 % 64
    requires s[2] as int == 0x80 + n / 64 % 64 && s[3] as int == 0x80 + n % 64
    ensures DecodeFirst(s) == Some(First(n as char, 4))
  {
    Digits(n);
  }

  lemma DecodeEncodedChar(c: char, rest: seq<byte>)
    ensures DecodeFirst(EncodeChar(c) + rest) == Some(First(c, |EncodeChar(c)|))
  {
    var s, e := EncodeChar(c) + rest, EncodeChar(c);
    var n := c as int;
    assert forall i :: 0 <= i < |e| ==> s[i] == e[i];
    if n < 0x800 {
    } else if n < 0x10000 {
      DecodeThree(n, s);
    } else {
      DecodeFour(n, s);
    }
  }

  lemma {:induction false} EncodeConcat(a: string, b: string)
    ensures Encode(a + b) == Encode(a) + Encode(b)
  {
    if a == "" {
      assert a + b == b;
    } else {
      assert (a + b)[1..] == a[1..] + b;
      EncodeConcat(a[1..], b);
    }
  }

  /** Decoding what was encoded gives the text back. */
  lemma {:induction false} DecodeEncode(text: string)
    ensures Decode(Encode(text)) == Some(text)
  {
    if text == "" {
    } else {
      DecodeEncodedChar(text[0], Encode(text[1..]));
      var k := |EncodeChar(text[0])|;
      assert Encode(text)[k..] == Encode(text[1..]);
      DecodeEncode(text[1..]);
      assert [text[0]] + text[1..] == text;
    }
  }

  /** Bytes with the high bit set decode to characters beyond ASCII. */
  lemma {:induction false} HighBytesDecodeHigh(s: seq<byte>)
    requires Decode(s).Some? && forall i :: 0 <= i < |s| ==> s[i] >= 0x80
    ensures forall i :: 0 <= i < |Decode(s).value| ==> Decode(s).value[i] as int >= 0x80
    decreases s
  {
    if s == [] {
    } else {
      HighBytesDecodeHigh(s[DecodeFirst(s).value.len..]);
    }
  }

  lemma {:induction false} AsciiLength(s: string)
    requires forall i :: 0 <= i < |s| ==> s[i] < '\U{0080}'
    ensures |Encode(s)| == |s|
  {
    if s == "" {
    } else {
      AsciiLength(s[1..]);
    }
  }

  /** The strict decoder takes no character from bytes other than the character's own. */
  lemma FirstEncodes(s: seq<byte>)
    requires s != [] && DecodeFirst(s).Some?
    ensures EncodeChar(DecodeFirst(s).value.c) == s[..DecodeFirst(s).value.len]
  {
    var b := s[0] as int;
    if b < 0x80 {
    } else if b < 0xE0 {
      TwoDigits(b - 0xC0, s[1] as int - 0x80);
    } else if b < 0xF0 {
      ThreeDigits(b - 0xE0, s[1] as int - 0x80, s[2] as int - 0x80);
    } else {
      FourDigits(b - 0xF0, s[1] as int - 0x80, s[2] as int - 0x80, s[3] as int - 0x80);
    }
  }

  lemma TwoDigits(a: nat, b: nat)
    requires b < 64
    ensures (a * 64 + b) / 64 == a && (a * 64 + b) % 64 == b
  {
  }

  lemma ThreeDigits(a: nat, b: nat, c: nat)
    requires b < 64 && c < 64
    ensures var n := a * 4096 + b * 64 + c;
            n / 4096 == a && n / 64 % 64 == b && n % 64 == c
  {
    TwoDigits(a * 64 + b, c);
    TwoDigits(a, b);
    Digits(a * 4096 + b * 64 + c);
  }

  lemma FourDigits(a: nat, b: nat, c: nat, d: nat)
    requires b < 64 && c < 64 && d < 64
    ensures var n := a * 262144 + b * 4096 + c * 64 + d;
            n / 262144 == a && n / 4096 % 64 == b && n / 64 % 64 == c && n % 64 == d
  {
    ThreeDigits(a * 64 + b, c, d);
    TwoDigits(a, b);
    Digits(a * 262144 + b * 4096 + c * 64 + d);
  }

  /** So what decodes is exactly the encoding of what it decodes to. */
  lemma {:induction false} EncodeDecode(s: seq<byte>)
    requires Decode(s).Some?
    ensures Encode(Decode(s).value) == s
  {
    hide DecodeFirst, EncodeChar;
    if s == [] {
    } else {
      var first := DecodeFirst(s).value;
      FirstEncodes(s);
      EncodeDecode(s[first.len..]);
      var text := Decode(s).value;
      assert text[1..] == Decode(s[first.len..]).value;
      assert s == s[..first.len] + s[first.len..];
    }
  }
}
