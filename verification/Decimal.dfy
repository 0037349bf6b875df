/** Decimal numbers as JSON prints them, and a reader for them. */
module Decimal {
  import opened Binary
  import opened Results

  predicate IsDigit(c: byte) {
    48 <= c <= 57
  }

  /** Canonical decimal text: no sign, no leading zero. */
  function Dec(n: nat): (d: Bytes)
    ensures |d| > 0
  {
    if n < 10 then [(48 + n) as byte] else Dec(n / 10) + [(48 + n % 10) as byte]
  }

  function FromDec(d: Bytes): nat
    requires forall i :: 0 <= i < |d| ==> IsDigit(d[i])
  {
    if d == [] then 0
    else
      assert IsDigit(d[|d| - 1]);
      10 * FromDec(d[..|d| - 1]) + (d[|d| - 1] as int - 48)
  }

  function DigitCount(b: Bytes): (n: nat)
    ensures n <= |b|
    ensures forall i :: 0 <= i < n ==> IsDigit(b[i])
    ensures n < |b| ==> !IsDigit(b[n])
  {
    if b == [] || !IsDigit(b[0]) then 0 else 1 + DigitCount(b[1..])
  }

  /** Reads the longest run of digits at the front of `b`. */
  function TakeNat(b: Bytes): Option<(nat, Bytes)> {
    var n := DigitCount(b);
    if n == 0 then None else Some((FromDec(b[..n]), b[n..]))
  }

  function Expect(literal: Bytes, b: Bytes): Option<Bytes> {
    if literal <= b then Some(b[|literal|..]) else None
  }

  predicate NotDigitNext(rest: Bytes) {
    rest != [] ==> !IsDigit(rest[0])
  }

  lemma {:induction false} DecDigits(n: nat)
    ensures forall i :: 0 <= i < |Dec(n)| ==> IsDigit(Dec(n)[i])
    ensures FromDec(Dec(n)) == n
  {
    if n >= 10 {
      DecDigits(n / 10);
      assert Dec(n)[..|Dec(n)| - 1] == Dec(n / 10);
    } else {
      assert Dec(n)[..0] == [];
    }
  }

  lemma TakeDec(n: nat, rest: Bytes)
    requires NotDigitNext(rest)
    ensures TakeNat(Dec(n) + rest) == Some((n, rest))
  {
    DecDigits(n);
    var b := Dec(n) + rest;
    var k := |Dec(n)|;
    assert forall i :: 0 <= i < k ==> b[i] == Dec(n)[i];
    assert rest != [] ==> b[k] == rest[0];
    assert DigitCount(b) == k;
    assert b[..k] == Dec(n) && b[k..] == rest;
  }

  lemma ExpectLiteral(literal: Bytes, rest: Bytes)
    ensures Expect(literal, literal + rest) == Some(rest)
  {
  }

  function Pow10(d: nat): (p: nat)
    ensures p > 0
  {
    if d == 0 then 1 else 10 * Pow10(d - 1)
  }

  lemma {:induction false} DecLength(n: nat, d: nat)
    requires d > 0 && n < Pow10(d)
    ensures |Dec(n)| <= d
  {
    if n >= 10 {
      DecLength(n / 10, d - 1);
    }
  }
}
