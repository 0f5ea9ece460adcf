/** Decimal numerals: `%d` of `printf` for a 32-bit argument, and `strtoul` with base ten for a
    64-bit `unsigned long`. */
module Decimal {
  import opened Wrappers
  import opened Bytes

  const U31: nat := 0x8000_0000

  predicate IsDigit(c: char) {
    '0' <= c <= '9'
  }

  predicate IsSpace(c: char) {
    c == ' ' || 9 <= c as int <= 13
  }

  function DigitOf(n: nat): (c: char)
    requires n < 10
    ensures IsDigit(c) && c as int - '0' as int == n
  {
    '0' + n as char
  }

  function Digits(n: nat): (r: string)
    ensures r != "" && forall i :: 0 <= i < |r| ==> IsDigit(r[i])
  {
    if n < 10 then [DigitOf(n)] else Digits(n / 10) + [DigitOf(n % 10)]
  }

  function NumberOf(s: string): nat
    requires forall i :: 0 <= i < |s| ==> IsDigit(s[i])
  {
    if s == "" then 0
    else
      var c := s[|s| - 1];
      assert IsDigit(c);
      10 * NumberOf(s[..|s| - 1]) + (c as int - '0' as int)
  }

  lemma {:induction false} DigitsValue(n: nat)
    ensures NumberOf(Digits(n)) == n
  {
    var r := Digits(n);
    if n >= 10 {
      DigitsValue(n / 10);
      assert r[..|r| - 1] == Digits(n / 10);
    } else {
      assert NumberOf("") == 0;
      assert r[..0] == "";
    }
  }

  /** `%d` of an unsigned 32-bit value: from 2^31 on it comes out negative. */
  function PercentD(n: u32): string {
    if n < U31 then Digits(n) else "-" + Digits(TWO_32 - n)
  }

  function SkipSpace(s: string): (i: nat)
    ensures i <= |s|
  {
    if s == "" || !IsSpace(s[0]) then 0 else 1 + SkipSpace(s[1..])
  }

  function DigitRun(s: string): (i: nat)
    ensures i <= |s| && forall k :: 0 <= k < i ==> IsDigit(s[k])
    ensures i < |s| ==> !IsDigit(s[i])
  {
    if s == "" || !IsDigit(s[0]) then 0 else 1 + DigitRun(s[1..])
  }

  /** The value and where it ends; an end at zero means that there was no number. */
  datatype Numeral = Numeral(value: nat, end: nat)

  function Strtoul(s: string): (r: Numeral)
    ensures r.value < TWO_64 && r.end <= |s|
  {
    var i := SkipSpace(s);
    var minus := i < |s| && s[i] == '-';
    var j := if i < |s| && (s[i] == '-' || s[i] == '+') then i + 1 else i;
    var n := DigitRun(s[j..]);
    if n == 0 then Numeral(0, 0)
    else
      var v := NumberOf(s[j..j + n]);
      if v >= TWO_64 then Numeral(TWO_64 - 1, j + n)
      else Numeral(if minus then (TWO_64 - v) % TWO_64 else v, j + n)
  }

  /** `strtouint32_t`. */
  function Strtouint32(s: string): Option<u32> {
    var r := Strtoul(s);
    if r.end == 0 || r.end != |s| || r.value >= TWO_32 then None else Some(r.value)
  }

  lemma {:induction false} AllDigits(s: string)
    requires forall i :: 0 <= i < |s| ==> IsDigit(s[i])
    ensures DigitRun(s) == |s|
  {
    if s != "" {
      AllDigits(s[1..]);
    }
  }

  lemma NoSpace(s: string)
    requires s != "" && !IsSpace(s[0])
    ensures SkipSpace(s) == 0
  {
  }

  lemma ReadDigits(n: nat)
    requires n < TWO_64
    ensures Strtoul(Digits(n)) == Numeral(n, |Digits(n)|)
  {
    hide Digits, NumberOf, SkipSpace, DigitRun;
    var s := Digits(n);
    NoSpace(s);
    AllDigits(s);
    DigitsValue(n);
    assert s[0..] == s && s[0..|s|] == s;
  }

  lemma ReadNegative(n: nat)
    requires 0 < n < TWO_64
    ensures Strtoul("-" + Digits(n)) == Numeral(TWO_64 - n, 1 + |Digits(n)|)
  {
    hide Digits, NumberOf, SkipSpace, DigitRun;
    var s := "-" + Digits(n);
    NoSpace(s);
    AllDigits(Digits(n));
    DigitsValue(n);
    assert s[1..] == Digits(n) && s[1..1 + |Digits(n)|] == Digits(n);
  }

  /** What `%d` prints for an index is read back exactly when the index is below 2^31; from there on
      `strtoul` takes the whole text for the index sign-extended to 64 bits. */
  lemma PrintedIndexReadsBack(n: u32)
    ensures Strtouint32(PercentD(n)) == if n < U31 then Some(n) else None
    ensures Strtoul(PercentD(n)) == Numeral(if n < U31 then n else TWO_64 - TWO_32 + n, |PercentD(n)|)
  {
    hide Digits, Strtoul;
    if n < U31 {
      ReadDigits(n);
    } else {
      ReadNegative(TWO_32 - n);
    }
  }

  /** `%d` tells any two values apart, the negative ones too. */
  lemma PercentDTells(m: u32, n: u32)
    ensures PercentD(m) == PercentD(n) <==> m == n
  {
    hide Digits;
    var a, b := if m < U31 then m else TWO_32 - m, if n < U31 then n else TWO_32 - n;
    DigitsValue(a);
    DigitsValue(b);
    assert IsDigit(Digits(a)[0]) && IsDigit(Digits(b)[0]);
    if PercentD(m) == PercentD(n) {
      assert PercentD(m)[0] == PercentD(n)[0];
      assert m >= U31 ==> PercentD(m)[1..] == Digits(a);
      assert n >= U31 ==> PercentD(n)[1..] == Digits(b);
    }
  }
}
