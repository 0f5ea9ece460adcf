/** The broadcast address that `ip address add ... broadcast +` or `-` derives, on addresses as
    strings of 32 bits, the most significant first. */
module Broadcast {

  type Bits = seq<bool>

  /** An address belongs to the network of `peer` with prefix length `len`. */
  ghost predicate InNetwork(a: Bits, peer: Bits, len: nat)
    requires |a| == |peer| == 32 && len <= 32
  {
    a[..len] == peer[..len]
  }

  /** The loop of `ipaddr_modify`, from the last bit down to the prefix. */
  method Derive(peer: Bits, len: nat, plus: bool) returns (brd: Bits)
    requires |peer| == 32 && len <= 30
    ensures |brd| == 32 && InNetwork(brd, peer, len)
    ensures forall i :: len <= i < 32 ==> brd[i] == plus
  {
    brd := peer;
    var i := 31;
    while i >= len
      invariant len - 1 <= i <= 31 && |brd| == 32
      invariant brd[..i + 1] == peer[..i + 1]
      invariant forall k :: i < k < 32 ==> brd[k] == plus
    {
      brd := brd[i := plus];
      i := i - 1;
    }
  }

  /** The value of the bits as a number. */
  ghost function Number(a: Bits): nat {
    if a == [] then 0 else 2 * Number(a[..|a| - 1]) + if a[|a| - 1] then 1 else 0
  }

  lemma {:induction false} NumberOrder(p: Bits, a: Bits, b: Bits)
    requires |a| == |b| && forall i :: 0 <= i < |a| ==> a[i] ==> b[i]
    ensures Number(p + a) <= Number(p + b)
    decreases |a|
  {
    if a == [] {
      assert p + a == p + b;
    } else {
      var n := |a| - 1;
      assert (p + a)[..|p + a| - 1] == p + a[..n] && (p + b)[..|p + b| - 1] == p + b[..n];
      NumberOrder(p, a[..n], b[..n]);
    }
  }

  /** With `+` it is the highest address of the network, the directed broadcast of section 3.2.1.3
      of RFC 1122, and with `-` the lowest. */
  lemma DerivedIsExtreme(brd: Bits, peer: Bits, len: nat, plus: bool, a: Bits)
    requires |brd| == |peer| == |a| == 32 && len <= 30
    requires InNetwork(brd, peer, len) && (forall i :: len <= i < 32 ==> brd[i] == plus)
    requires InNetwork(a, peer, len)
    ensures if plus then Number(a) <= Number(brd) else Number(brd) <= Number(a)
  {
    hide Number;
    var p := peer[..len];
    assert a == p + a[len..] && brd == p + brd[len..];
    if plus {
      NumberOrder(p, a[len..], brd[len..]);
    } else {
      NumberOrder(p, brd[len..], a[len..]);
    }
  }
}
