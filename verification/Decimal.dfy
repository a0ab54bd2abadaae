/** Decimal text: what `printf` writes for `%u` and `%d`, and what `parseInt` reads. */
module DecimalText {
  import opened Bytes

  predicate IsDigit(b: byte) {
    48 <= b <= 57
  }

  predicate AllDigits(s: Bytes) {
    forall i :: 0 <= i < |s| ==> IsDigit(s[i])
  }

  function Decimal(n: nat): Bytes {
    if n < 10 then [(48 + n) as byte] else Decimal(n / 10) + [(48 + n % 10) as byte]
  }

  function SignedDecimal(n: int): Bytes {
    if n < 0 then [45] + Decimal(-n) else Decimal(n)
  }

  function ParseDecimal(s: Bytes): nat
    requires AllDigits(s)
  {
    if s == [] then 0 else 10 * ParseDecimal(s[..|s| - 1]) + (s[|s| - 1] - 48) as nat
  }

  /** The length of the longest run of digits that starts `s`. */
  function DigitRun(s: Bytes): (d: nat)
    ensures d <= |s|
  {
    if s == [] || !IsDigit(s[0]) then 0 else 1 + DigitRun(s[1..])
  }

  /** Printing and parsing a number is the identity; the text is digits only, and starts with a
      zero exactly when the number is zero. */
  lemma {:induction false} DecimalRoundTrip(n: nat)
    ensures AllDigits(Decimal(n)) && ParseDecimal(Decimal(n)) == n
    ensures Decimal(n) != [] && (Decimal(n)[0] == 48 <==> n == 0)
  {
    if n >= 10 {
      DecimalRoundTrip(n / 10);
      assert Decimal(n)[..|Decimal(n)| - 1] == Decimal(n / 10);
    } else {
      assert Decimal(n)[..0] == [];
    }
  }

  lemma DigitsExactly(s: Bytes)
    ensures AllDigits(s) <==> forall i :: 0 <= i < |s| ==> s[i] in Ascii("0123456789")
  {
    assert Ascii("0123456789") == [48, 49, 50, 51, 52, 53, 54, 55, 56, 57];
  }

  /** Leading zeros do not change a number. */
  lemma {:induction false} LeadingZero(s: Bytes)
    requires AllDigits(s)
    ensures AllDigits([48] + s) && ParseDecimal([48] + s) == ParseDecimal(s)
  {
    var t := [48] + s;
    if s == [] {
      assert t[..0] == [];
    } else {
      LeadingZero(s[..|s| - 1]);
      assert t[..|t| - 1] == [48] + s[..|s| - 1];
    }
  }

  /** The digit run is maximal: digits, up to something that is no digit. */
  lemma {:induction false} DigitRunIs(digits: Bytes, rest: Bytes)
    requires AllDigits(digits) && (rest == [] || !IsDigit(rest[0]))
    ensures DigitRun(digits + rest) == |digits|
  {
    if digits == [] {
      assert digits + rest == rest;
    } else {
      DigitRunIs(digits[1..], rest);
      assert (digits + rest)[1..] == digits[1..] + rest;
    }
  }

  lemma {:induction false} DigitRunIsDigits(s: Bytes)
    ensures AllDigits(s[..DigitRun(s)])
  {
    if s != [] && IsDigit(s[0]) {
      DigitRunIsDigits(s[1..]);
      var d := DigitRun(s);
      assert s[..d] == [s[0]] + s[1..][..d - 1];
    }
  }
}
