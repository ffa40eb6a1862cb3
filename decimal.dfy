/**
 * Decimal text of natural numbers, as JavaScript's `Number.toString` and
 * `String.padStart` produce it, with a reader that inverts it.
 */
module Decimal {

  predicate IsDigit(c: char)
  {
    '0' <= c <= '9'
  }

  predicate AllDigits(s: string)
  {
    forall i :: 0 <= i < |s| ==> IsDigit(s[i])
  }

  function DigitChar(d: nat): (c: char)
    requires d < 10
    ensures IsDigit(c)
  {
    (48 + d) as char
  }

  function DigitValue(c: char): (d: nat)
    ensures IsDigit(c) ==> d < 10
  {
    if IsDigit(c) then (c as int - 48) as nat else 0
  }

  /** Decimal digits of `n`, most significant first, no leading zero (`n.toString()`). */
  function Show(n: nat): (s: string)
    ensures 1 <= |s| && AllDigits(s)
    ensures |s| == 1 <==> n < 10
    ensures n >= 10 ==> s[0] != '0'
  {
    if n < 10 then [DigitChar(n)] else Show(n / 10) + [DigitChar(n % 10)]
  }

  /** The value of a string of decimal digits; the empty string reads as 0. */
  function Read(s: string): nat
  {
    if s == [] then 0 else Read(s[..|s| - 1]) * 10 + DigitValue(s[|s| - 1])
  }

  /** Reading back what Show writes gives the number again. */
  lemma {:induction false} ReadShow(n: nat)
    ensures Read(Show(n)) == n
  {
    if n >= 10 {
      var s := Show(n);
      assert s[..|s| - 1] == Show(n / 10);
      ReadShow(n / 10);
    }
  }

  /** `s.padStart(width, c)`: `s` preceded by as many `c` as it lacks to reach `width`. */
  function PadStart(s: string, width: nat, c: char): (r: string)
    ensures |r| == if |s| < width then width else |s|
    ensures r[|r| - |s|..] == s
    ensures forall i :: 0 <= i < |r| - |s| ==> r[i] == c
  {
    if |s| < width then seq(width - |s|, _ => c) + s else s
  }

  /** Leading zeros do not change the value read. */
  lemma {:induction false} ReadLeadingZeros(z: string, s: string)
    requires forall i :: 0 <= i < |z| ==> z[i] == '0'
    ensures Read(z + s) == Read(s)
    decreases |s|
  {
    if s == [] {
      assert z + s == z;
      ReadZeros(z);
    } else {
      assert (z + s)[..|z + s| - 1] == z + s[..|s| - 1];
      ReadLeadingZeros(z, s[..|s| - 1]);
    }
  }

  lemma {:induction false} ReadZeros(z: string)
    requires forall i :: 0 <= i < |z| ==> z[i] == '0'
    ensures Read(z) == 0
  {
    if z != [] {
      ReadZeros(z[..|z| - 1]);
    }
  }

  /** Reading a zero-padded Show gives the number again. */
  lemma ReadPadded(n: nat, width: nat)
    ensures Read(PadStart(Show(n), width, '0')) == n
  {
    var s := Show(n);
    var r := PadStart(s, width, '0');
    assert r == r[..|r| - |s|] + s;
    ReadLeadingZeros(r[..|r| - |s|], s);
    ReadShow(n);
  }
}
