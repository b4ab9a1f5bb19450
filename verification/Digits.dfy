/** Zero-padded decimal text of a fixed width, as `format!("{:04}")` writes it and `str::parse` reads it. */
module Digits {
  import opened TextOrder

  function Pow10(width: nat): (p: nat)
    ensures p > 0
  {
    if width == 0 then 1 else 10 * Pow10(width - 1)
  }

  predicate IsDigit(c: char) { '0' <= c <= '9' }

  predicate AllDigits(s: string) { forall i :: 0 <= i < |s| ==> IsDigit(s[i]) }

  function DigitChar(d: nat): (c: char)
    requires d < 10
    ensures IsDigit(c)
  {
    ('0' as int + d) as char
  }

  function DigitValue(c: char): (d: nat)
    requires IsDigit(c)
    ensures d < 10
  {
    c as int - '0' as int
  }

  function Pad(n: nat, width: nat): (s: string)
    requires n < Pow10(width)
    ensures |s| == width && AllDigits(s)
  {
    if width == 0 then "" else Pad(n / 10, width - 1) + [DigitChar(n % 10)]
  }

  function ParseNat(s: string): (n: nat)
    requires AllDigits(s)
    ensures n < Pow10(|s|)
  {
    if s == "" then 0 else 10 * ParseNat(s[..|s| - 1]) + DigitValue(s[|s| - 1])
  }

  /** Reading what was printed gives the number back. */
  lemma {:induction false} ParsePad(n: nat, width: nat)
    requires n < Pow10(width)
    ensures ParseNat(Pad(n, width)) == n
  {
    if width > 0 {
      var s := Pad(n, width);
      assert s[..|s| - 1] == Pad(n / 10, width - 1);
      ParsePad(n / 10, width - 1);
    }
  }

  lemma LastDigit(front: nat, digit: nat)
    requires digit < 10
    ensures (10 * front + digit) / 10 == front && (10 * front + digit) % 10 == digit
  {
  }

  lemma DigitOrder(a: nat, b: nat)
    requires a < 10 && b < 10
    ensures Less([DigitChar(a)], [DigitChar(b)]) == (a < b)
  {
  }

  /** Printing what was read, at its own width, gives the text back. */
  lemma {:induction false} PadParse(s: string)
    requires AllDigits(s)
    ensures Pad(ParseNat(s), |s|) == s
  {
    if s != "" {
      var front := s[..|s| - 1];
      PadParse(front);
      LastDigit(ParseNat(front), DigitValue(s[|s| - 1]));
      assert s == front + [s[|s| - 1]];
    }
  }

  /** Numbers printed at one width compare as text exactly as they compare as numbers. */
  lemma {:induction false} PadOrder(a: nat, b: nat, width: nat)
    requires a < Pow10(width) && b < Pow10(width)
    ensures Less(Pad(a, width), Pad(b, width)) == (a < b)
  {
    if width > 0 {
      PadOrder(a / 10, b / 10, width - 1);
      LastDigitOrder(a, b, width);
    }
  }

  /** The last digit decides when the digits before it are the same, and those decide otherwise. */
  lemma LastDigitOrder(a: nat, b: nat, width: nat)
    requires 0 < width && a < Pow10(width) && b < Pow10(width)
    requires Less(Pad(a / 10, width - 1), Pad(b / 10, width - 1)) == (a / 10 < b / 10)
    ensures Less(Pad(a, width), Pad(b, width)) == (a < b)
  {
    hide Less;
    var p, q := Pad(a / 10, width - 1), Pad(b / 10, width - 1);
    if p == q {
      ParsePad(a / 10, width - 1);
      ParsePad(b / 10, width - 1);
      SamePrefix(p, [DigitChar(a % 10)], [DigitChar(b % 10)]);
      DigitOrder(a % 10, b % 10);
    } else {
      PrefixDecides(p, q, [DigitChar(a % 10)], [DigitChar(b % 10)]);
    }
  }
}
