/** Decimal digits and the reading of a digit string as a base-10 natural number.
    A "digit" is an ASCII character '0'..'9'. */
module Decimal {

  predicate IsDigit(c: char) {
    '0' <= c <= '9'
  }

  /** The digits are exactly the ten characters '0' to '9'. */
  lemma DigitsAreTen(c: char)
    ensures IsDigit(c) <==> c in "0123456789"
  {
  }

  predicate AllDigits(s: string) {
    forall i | 0 <= i < |s| :: IsDigit(s[i])
  }

  predicate NoDigits(s: string) {
    forall i | 0 <= i < |s| :: !IsDigit(s[i])
  }

  /** The value of one digit character. */
  function DigitValue(c: char): (v: nat)
    requires IsDigit(c)
    ensures v < 10
  {
    c as int - '0' as int
  }

  /** The digit character of a value below ten; the inverse of DigitValue. */
  function DigitChar(v: nat): (c: char)
    requires v < 10
    ensures IsDigit(c) && DigitValue(c) == v
  {
    ('0' as int + v) as char
  }

  lemma DigitCharOfValue(c: char)
    requires IsDigit(c)
    ensures DigitChar(DigitValue(c)) == c
  {
  }

  function Pow10(k: nat): (p: nat)
    ensures p >= 1
  {
    if k == 0 then 1 else 10 * Pow10(k - 1)
  }

  /** The base-10 value of a digit string, most significant digit first.
      The empty string reads as 0. A string of k digits reads below 10^k. */
  function Read(d: string): (n: nat)
    requires AllDigits(d)
    ensures n < Pow10(|d|)
  {
    if d == [] then 0
    else Read(d[..|d| - 1]) * 10 + DigitValue(d[|d| - 1])
  }

  /** Appending a digit shifts the value one decimal place and adds the digit. */
  lemma {:induction false} ReadSnoc(d: string, c: char)
    requires AllDigits(d) && IsDigit(c)
    ensures AllDigits(d + [c])
    ensures Read(d + [c]) == Read(d) * 10 + DigitValue(c)
  {
  }

  /** A leading zero does not change the value read. */
  lemma {:induction false} ReadLeadingZero(d: string)
    requires AllDigits(d)
    ensures AllDigits(['0'] + d)
    ensures Read(['0'] + d) == Read(d)
  {
    if d != [] {
      var init := d[..|d| - 1];
      ReadLeadingZero(init);
      assert (['0'] + d)[..|d|] == ['0'] + init;
    }
  }

  /** Leading zeros, any number of them, do not change the value read. */
  lemma {:induction false} ReadLeadingZeros(z: string, d: string)
    requires forall i | 0 <= i < |z| :: z[i] == '0'
    requires AllDigits(d)
    ensures AllDigits(z + d)
    ensures Read(z + d) == Read(d)
  {
    if z == [] {
      assert z + d == d;
    } else {
      ReadLeadingZeros(z[1..], d);
      assert z[0] == '0';
      assert z + d == ['0'] + (z[1..] + d);
      ReadLeadingZero(z[1..] + d);
    }
  }

  /** A digit string without superfluous leading zeros: "0", or a string
      that does not start with '0'. */
  predicate Canonical(d: string) {
    AllDigits(d) && d != [] && (d[0] != '0' || |d| == 1)
  }

  /** The canonical decimal spelling of a natural number. */
  function Render(n: nat): (d: string)
    ensures Canonical(d)
    decreases n
  {
    if n < 10 then [DigitChar(n)]
    else Render(n / 10) + [DigitChar(n % 10)]
  }

  /** Reading a rendered number gives the number back. */
  lemma {:induction false} ReadRender(n: nat)
    ensures Read(Render(n)) == n
    decreases n
  {
    if n >= 10 {
      ReadRender(n / 10);
      ReadSnoc(Render(n / 10), DigitChar(n % 10));
    }
  }

  /** A digit string of two or more digits that does not start with '0'
      reads at least 10. */
  lemma {:induction false} ReadAtLeastTen(d: string)
    requires AllDigits(d) && |d| >= 2 && d[0] != '0'
    ensures Read(d) >= 10
  {
    var init := d[..|d| - 1];
    assert init[0] == d[0];
    assert Read(d) >= Read(init) * 10;
    if |d| == 2 {
      assert init[..0] == [];
      assert Read(init) == DigitValue(d[0]) >= 1;
    } else {
      ReadAtLeastTen(init);
    }
  }

  lemma DivMod10(r: nat, v: nat)
    requires v < 10
    ensures (r * 10 + v) / 10 == r && (r * 10 + v) % 10 == v
  {
  }

  /** Rendering the value of a canonical digit string gives the string back,
      so Read is one-to-one on canonical strings. */
  lemma {:induction false} RenderRead(d: string)
    requires Canonical(d)
    ensures Render(Read(d)) == d
  {
    if |d| == 1 {
      DigitCharOfValue(d[0]);
      assert Render(Read(d)) == [d[0]];
    } else {
      var init := d[..|d| - 1];
      var last := d[|d| - 1];
      ReadAtLeastTen(d);
      assert Read(d) == Read(init) * 10 + DigitValue(last);
      DivMod10(Read(init), DigitValue(last));
      assert init[0] == d[0];
      RenderRead(init);
      DigitCharOfValue(last);
      assert Render(Read(d)) == Render(Read(init)) + [DigitChar(DigitValue(last))];
      assert d == init + [last];
    }
  }

  /** A digit string with its leading zeros removed: the empty string when it
      is all zeros, and a canonical string otherwise. */
  function StripZeros(d: string): (c: string)
    requires AllDigits(d)
    ensures |c| <= |d| && c == d[|d| - |c|..]
    ensures forall i | 0 <= i < |d| - |c| :: d[i] == '0'
    ensures c == [] || (Canonical(c) && c[0] != '0')
  {
    if d != [] && d[0] == '0' then StripZeros(d[1..]) else d
  }

  /** Removing the leading zeros does not change the value read. */
  lemma StripZerosRead(d: string)
    requires AllDigits(d)
    ensures Read(StripZeros(d)) == Read(d)
  {
    var c := StripZeros(d);
    var n := |d| - |c|;
    var z := d[..n];
    assert forall i | 0 <= i < |z| :: z[i] == d[i];
    assert c == d[n..];
    assert d == z + c;
    ReadLeadingZeros(z, c);
  }

  /** A non-empty digit string that does not start with '0' reads above 0. */
  lemma ReadPositive(d: string)
    requires AllDigits(d) && d != [] && d[0] != '0'
    ensures Read(d) > 0
  {
    if |d| >= 2 {
      ReadAtLeastTen(d);
    } else {
      assert d[..0] == [];
    }
  }

  /** Two digit strings read the same value exactly when they are equal once
      their leading zeros are removed: leading zeros are all that Read forgets. */
  lemma ReadEqualIff(d1: string, d2: string)
    requires AllDigits(d1) && AllDigits(d2)
    ensures Read(d1) == Read(d2) <==> StripZeros(d1) == StripZeros(d2)
  {
    var c1, c2 := StripZeros(d1), StripZeros(d2);
    StripZerosRead(d1);
    StripZerosRead(d2);
    if Read(d1) == Read(d2) {
      if c1 != [] && c2 != [] {
        CanonicalReadInjective(c1, c2);
      } else if c1 != [] {
        ReadPositive(c1);
      } else if c2 != [] {
        ReadPositive(c2);
      }
    }
  }

  /** Two canonical digit strings with the same value are the same string. */
  lemma CanonicalReadInjective(d1: string, d2: string)
    requires Canonical(d1) && Canonical(d2)
    requires Read(d1) == Read(d2)
    ensures d1 == d2
  {
    RenderRead(d1);
    RenderRead(d2);
  }
}
