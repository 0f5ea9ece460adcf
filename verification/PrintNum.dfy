/** Counters for people: `print_num` picks a power of 1000 or 1024 and a precision. */
module PrintNum {
  import opened Bytes


  ghost function Pow(base: nat, k: nat): nat {
    if k == 0 then 1 else base * Pow(base, k - 1)
  }

  lemma Powers()
    ensures Pow(1000, 1) == 1000 && Pow(1000, 2) == 1_000_000 && Pow(1000, 3) == 1_000_000_000
    ensures Pow(1000, 4) == 1_000_000_000_000 && Pow(1000, 5) == 1_000_000_000_000_000
    ensures Pow(1000, 6) == 1_000_000_000_000_000_000
    ensures Pow(1024, 1) == 0x400 && Pow(1024, 2) == 0x10_0000 && Pow(1024, 3) == 0x4000_0000
    ensures Pow(1024, 4) == 0x100_0000_0000 && Pow(1024, 5) == 0x4_0000_0000_0000
    ensures Pow(1024, 6) == 0x1000_0000_0000_0000
  {
    assert Pow(1000, 1) == 1000 * Pow(1000, 0) && Pow(1024, 1) == 1024 * Pow(1024, 0);
    assert Pow(1000, 2) == 1000 * Pow(1000, 1) && Pow(1024, 2) == 1024 * Pow(1024, 1);
    assert Pow(1000, 3) == 1000 * Pow(1000, 2) && Pow(1024, 3) == 1024 * Pow(1024, 2);
    assert Pow(1000, 4) == 1000 * Pow(1000, 3) && Pow(1024, 4) == 1024 * Pow(1024, 3);
    assert Pow(1000, 5) == 1000 * Pow(1000, 4) && Pow(1024, 5) == 1024 * Pow(1024, 4);
    assert Pow(1000, 6) == 1000 * Pow(1000, 5) && Pow(1024, 6) == 1024 * Pow(1024, 5);
  }

  /** The two loops of `print_num` for a count that needs a prefix: the prefix is the `k`-th of
      "kMGTPE". Products are cut to the width of their variables, and nothing is ever cut off. */
  method Scale(count: nat, base: nat) returns (k: nat, powi: nat, precision: nat)
    requires (base == 1000 || base == 1024) && base <= count < TWO_64
    ensures 1 <= k <= 6 && powi == Pow(base, k)
    ensures powi <= count < powi * base
    ensures precision == if count / powi < 10 then 2 else if count / powi < 100 then 1 else 0
  {
    hide Pow;
    Powers();
    powi, k := base % TWO_64, 1;
    while count / base >= powi && k < 6
      invariant 1 <= k <= 6 && powi == Pow(base, k) && powi <= count
      decreases 6 - k
    {
      powi := powi * base % TWO_64;
      k := k + 1;
    }
    var powj := 1;
    precision := 2;
    var enough := false;
    while precision > 0 && !enough
      invariant precision <= 2 && (precision == 2 ==> powj == if enough then 10 else 1)
      invariant precision == 1 ==> powj == if enough then 100 else 10
      invariant precision < 2 ==> count / powi >= 10
      invariant precision < 1 ==> count / powi >= 100
      invariant enough ==> precision > 0 && count / powi < powj
      decreases precision, !enough
    {
      powj := powj * 10 % TWO_16;
      enough := count / powi < powj;
      if !enough {
        precision := precision - 1;
      }
    }
  }
}
