/** The numerals of printf's %u, %llu and %llX, with their lengths and their inverse. */
module Numerals {
  import opened Words

  type Base = b: nat | 2 <= b <= 16 witness 10

  function Pow(base: nat, e: nat): nat {
    if e == 0 then 1 else base * Pow(base, e - 1)
  }

  predicate IsDigit(c: char) {
    '0' <= c <= '9' || 'A' <= c <= 'F'
  }

  function DigitValue(c: char): nat
    requires IsDigit(c)
  {
    if c <= '9' then c as int - '0' as int else c as int - 'A' as int + 10
  }

  function Digit(d: nat): (c: char)
    requires d < 16
    ensures IsDigit(c) && DigitValue(c) == d
  {
    if d < 10 then ('0' as int + d) as char else ('A' as int + d - 10) as char
  }

  predicate AllDigits(s: string) {
    forall i | 0 <= i < |s| :: IsDigit(s[i])
  }

  function Numeral(n: nat, base: Base): (s: string)
    ensures s != "" && AllDigits(s)
  {
    if n < base then [Digit(n)] else Numeral(n / base, base) + [Digit(n % base)]
  }

  function Value(s: string, base: nat): nat
    requires AllDigits(s)
  {
    if s == "" then 0 else Value(s[..|s| - 1], base) * base + DigitValue(s[|s| - 1])
  }

  lemma ValueSnoc(s: string, c: char, base: nat)
    requires AllDigits(s) && IsDigit(c)
    ensures Value(s + [c], base) == Value(s, base) * base + DigitValue(c)
  {
    assert (s + [c])[..|s + [c]| - 1] == s;
  }

  lemma Division(n: nat, base: nat)
    requires 2 <= base
    ensures n == (n / base) * base + n % base
    ensures base <= n ==> n / base < n
  {
  }

  /** Reading a numeral back gives the number it was printed from. */
  lemma {:induction false} ValueOfNumeral(n: nat, base: Base)
    ensures Value(Numeral(n, base), base) == n
  {
    if n < base {
      ValueSnoc("", Digit(n), base);
      assert "" + [Digit(n)] == Numeral(n, base);
    } else {
      var q, d := n / base, n % base;
      Division(n, base);
      ValueOfNumeral(q, base);
      var front := Numeral(q, base);
      ValueSnoc(front, Digit(d), base);
      assert Value(front, base) * base == q * base;
    }
  }

  lemma DivideBound(n: nat, base: nat, m: nat)
    requires 0 < base
    ensures n / base >= m <==> n >= base * m
  {
    assert n == (n / base) * base + n % base;
    if n / base >= m {
      assert (n / base) * base >= m * base;
    } else {
      assert (n / base + 1) * base <= m * base;
    }
  }

  /** A numeral needs at most as many digits as the power its number stays below. */
  lemma {:induction false} NumeralLength(n: nat, base: Base, width: nat)
    requires 1 <= width
    ensures |Numeral(n, base)| <= width <==> n < Pow(base, width)
    decreases width
  {
    if n < base {
      PowGrows(base, width);
    } else if width == 1 {
      assert Pow(base, 1) == base * Pow(base, 0);
      assert |Numeral(n, base)| == |Numeral(n / base, base)| + 1;
    } else {
      var p := Pow(base, width - 1);
      DivideBound(n, base, p);
      NumeralLength(n / base, base, width - 1);
      assert |Numeral(n, base)| == |Numeral(n / base, base)| + 1;
      assert Pow(base, width) == base * p;
    }
  }

  lemma {:induction false} PowGrows(base: Base, e: nat)
    requires 1 <= e
    ensures base <= Pow(base, e)
  {
    if e == 1 {
      assert Pow(base, 1) == base * Pow(base, 0);
    } else {
      PowGrows(base, e - 1);
    }
  }

  lemma DigitIs(d: nat)
    requires d < 16
    ensures Digit(d) == "0123456789ABCDEF"[d]
  {
  }

  /** The number divided i times by 10. */
  function DecimalShifted(n: nat, i: nat): nat {
    if i == 0 then n else DecimalShifted(n / 10, i - 1)
  }

  /** Place i of a decimal numeral, from the right, holds the last digit of the number divided i times. */
  lemma {:induction false} DecimalPlace(n: nat, i: nat)
    requires i < |Numeral(n, 10)|
    ensures var s := Numeral(n, 10); s[|s| - 1 - i] == "0123456789ABCDEF"[DecimalShifted(n, i) % 10]
  {
    DigitIs(DecimalShifted(n, i) % 10);
    if i == 0 {
    } else {
      DecimalPlace(n / 10, i - 1);
    }
  }

  /** The number divided i times by 16. */
  function HexShifted(n: nat, i: nat): nat {
    if i == 0 then n else HexShifted(n / 16, i - 1)
  }

  /** Place i of a hexadecimal numeral, from the right, holds the last digit of the number divided i times. */
  lemma {:induction false} HexPlace(n: nat, i: nat)
    requires i < |Numeral(n, 16)|
    ensures var s := Numeral(n, 16); s[|s| - 1 - i] == "0123456789ABCDEF"[HexShifted(n, i) % 16]
  {
    DigitIs(HexShifted(n, i) % 16);
    if i == 0 {
    } else {
      HexPlace(n / 16, i - 1);
    }
  }

  lemma PowerBounds()
    ensures Pow(10, 4) == 10_000
    ensures TWO_32 <= Pow(10, 10)
    ensures TWO_64 <= Pow(10, 20)
    ensures TWO_64 <= Pow(16, 16)
  {
    assert Pow(10, 4) == 10_000;
    assert Pow(10, 8) == 10_000 * Pow(10, 4);
    assert Pow(10, 10) == 100 * Pow(10, 8);
    assert Pow(10, 15) == 100_000 * Pow(10, 10);
    assert Pow(10, 20) == 100_000 * Pow(10, 15);
    assert Pow(16, 4) == 0x1_0000;
    assert Pow(16, 8) == 0x1_0000 * Pow(16, 4);
    assert Pow(16, 12) == 0x1_0000 * Pow(16, 8);
    assert Pow(16, 16) == 0x1_0000 * Pow(16, 12);
  }
}
