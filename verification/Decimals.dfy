/** Numbers written in decimal digits, zero-padded to a least width. */
module Decimals {
  function Power(w: nat): (n: nat)
    ensures n > 0
  {
    if w == 0 then 1 else 10 * Power(w - 1)
  }

  function DigitChar(n: nat): char
    requires n < 10
  {
    (48 + n) as char
  }

  /** A number in exactly `w` digits, its lowest ones. */
  function Pad(n: nat, w: nat): (s: string)
    ensures |s| == w
    ensures forall i :: 0 <= i < w ==> '0' <= s[i] <= '9'
    decreases w
  {
    if w == 0 then "" else Pad(n / 10, w - 1) + [DigitChar(n % 10)]
  }

  /** Digits a number needs, no fewer than `w`. */
  function WidthFrom(y: nat, w: nat): (r: nat)
    ensures r >= w && y < Power(r) && (r > w ==> Power(r - 1) <= y)
    decreases y - Power(w)
  {
    if y < Power(w) then w else WidthFrom(y, w + 1)
  }

  /** A number in as many digits as it needs, zero-padded to `least`. */
  function Format(n: nat, least: nat): (s: string)
    ensures IsDigits(s)
  {
    Pad(n, WidthFrom(n, least))
  }

  function Decimal(n: nat): (s: string)
    ensures IsDigits(s)
  {
    Format(n, 1)
  }

  predicate IsDigits(s: string) {
    forall i :: 0 <= i < |s| ==> '0' <= s[i] <= '9'
  }

  /** The number a string of digits spells. */
  function Number(s: string): nat
    requires IsDigits(s)
  {
    if s == "" then 0 else 10 * Number(s[..|s| - 1]) + (s[|s| - 1] as int - 48)
  }

  lemma TenTimes(m: nat, w: nat)
    requires w > 0
    ensures m < Power(w) <==> m / 10 < Power(w - 1)
  {
  }

  lemma {:induction false} PowersGrow(a: nat, b: nat)
    requires a <= b
    ensures Power(a) <= Power(b)
  {
    if a == b {
    } else {
      PowersGrow(a, b - 1);
    }
  }

  lemma PowerZero()
    ensures Power(0) == 1
  {
  }

  lemma {:induction false} PadReads(n: nat, w: nat)
    requires n < Power(w)
    ensures Number(Pad(n, w)) == n
    decreases w
  {
    if w == 0 {
    } else {
      TenTimes(n, w);
      PadReads(n / 10, w - 1);
      assert Pad(n, w)[..w - 1] == Pad(n / 10, w - 1);
    }
  }

  /** What is formatted reads back. */
  lemma FormatReads(n: nat, least: nat)
    ensures Number(Format(n, least)) == n
  {
    PadReads(n, WidthFrom(n, least));
  }

  /** Formatting keeps to the least width exactly while the number fits it. */
  lemma FormatWidth(n: nat, least: nat)
    ensures |Format(n, least)| == least <==> n < Power(least)
  {
  }
}
