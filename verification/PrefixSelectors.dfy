/** The `root`, `match` and `exact` selectors of `ip route show`, as `filter_nlmsg` applies them.
    Addresses are bit strings in network order; a byte is eight bits and a word thirty-two. */
module PrefixSelectors {
  import opened Wrappers

  type Bits = seq<bool>

  const AF_INET := 2
  const AF_IPX := 4
  const AF_INET6 := 10
  const AF_DECNET := 12
  const AF_MPLS := 28

  /** `inet_prefix.data`: 64 words. */
  const DATA_BITS: nat := 2048

  /** `af_bit_len`. */
  function HostBits(family: nat): (n: nat)
    ensures n <= 128
  {
    if family == AF_INET6 then 128
    else if family == AF_INET then 32
    else if family == AF_DECNET then 16
    else if family == AF_IPX then 80
    else if family == AF_MPLS then 20
    else 0
  }

  /** `inet_prefix`, with its PREFIXLEN_SPECIFIED flag. */
  datatype Prefix = Prefix(family: nat, bitlen: int, specified: bool, data: Bits)

  // ---------------------------------------------------------------- inet_addr_match

  function Xor(x: Bits, y: Bits): (r: Bits)
    requires |x| == |y|
    ensures |r| == |x|
  {
    seq(|x|, i requires 0 <= i < |x| => x[i] != y[i])
  }

  function And(x: Bits, y: Bits): (r: Bits)
    requires |x| == |y|
    ensures |r| == |x|
  {
    seq(|x|, i requires 0 <= i < |x| => x[i] && y[i])
  }

  /** `htonl(0xffffffff << (0x20 - bits))` as it lies in memory. */
  function Mask(bits: nat): (r: Bits)
    ensures |r| == 32
  {
    seq(32, i => i < bits)
  }

  predicate NonZero(x: Bits) {
    exists i :: 0 <= i < |x| && x[i]
  }

  /** `inet_addr_match`: whole words by `memcmp`, the rest of a word under a mask. */
  function InetAddrMatch(a: Bits, b: Bits, bits: nat): int
    requires |a| == |b| == DATA_BITS && bits <= 256
  {
    var words, rest := bits / 32, bits % 32;
    if words > 0 && a[..32 * words] != b[..32 * words] then -1
    else if rest > 0 && NonZero(And(Xor(a[32 * words..32 * words + 32], b[32 * words..32 * words + 32]),
                                    Mask(rest))) then 1
    else 0
  }

  lemma MaskedWord(x: Bits, y: Bits, rest: nat)
    requires |x| == |y| == 32 && rest <= 32
    ensures NonZero(And(Xor(x, y), Mask(rest))) <==> x[..rest] != y[..rest]
  {
    var z := And(Xor(x, y), Mask(rest));
    if x[..rest] != y[..rest] {
      var i :| 0 <= i < rest && x[..rest][i] != y[..rest][i];
      assert z[i];
    }
    if NonZero(z) {
      var i :| 0 <= i < 32 && z[i];
      assert x[..rest][i] != y[..rest][i];
    }
  }

  /** The two comparisons together compare exactly the first `bits` bits. */
  lemma MatchComparesPrefix(a: Bits, b: Bits, bits: nat)
    requires |a| == |b| == DATA_BITS && bits <= 256
    ensures InetAddrMatch(a, b, bits) == 0 <==> a[..bits] == b[..bits]
  {
    var w, rest := 32 * (bits / 32), bits % 32;
    MaskedWord(a[w..w + 32], b[w..w + 32], rest);
    assert a[..bits] == a[..w] + a[w..w + 32][..rest] && b[..bits] == b[..w] + b[w..w + 32][..rest];
    assert a[..bits] == b[..bits] ==>
      a[..w] == a[..bits][..w] == b[..w] && a[w..w + 32][..rest] == a[..bits][w..] == b[w..w + 32][..rest];
  }

  // ---------------------------------------------------------------- filter_nlmsg

  /** One direction of a route: the prefix length of `rtmsg`, and the payload of RTA_DST or RTA_SRC. */
  datatype Side = Side(len: nat, attr: Option<Bits>)

  datatype Route = Route(family: nat, dst: Side, src: Side)

  datatype Filter = Filter(rdst: Prefix, mdst: Prefix, rsrc: Prefix, msrc: Prefix)

  /** The attribute carries at least the bytes that its prefix length calls for. */
  ghost predicate ValidSide(family: nat, s: Side) {
    s.len <= HostBits(family) && (s.attr.Some? ==> 8 * ((s.len + 7) / 8) <= |s.attr.value|)
  }

  ghost predicate ValidRoute(r: Route) {
    ValidSide(r.family, r.dst) && ValidSide(r.family, r.src)
  }

  /** What `get_prefix` leaves, or the reset state with length -1. */
  ghost predicate ValidPrefix(p: Prefix) {
    && |p.data| == DATA_BITS && -1 <= p.bitlen <= 128
    && (p.family != 0 ==> 0 <= p.bitlen <= HostBits(p.family))
    && (p.specified ==> 0 <= p.bitlen)
  }

  predicate Given(p: Prefix) {
    p.family != 0 || p.specified
  }

  /** The early test of a `root` prefix: family and length. */
  predicate RootLengthOk(p: Prefix, family: nat, len: nat) {
    if p.family != 0 then family == p.family && p.bitlen <= len
    else p.specified ==> p.bitlen <= len
  }

  /** The early test of a `match` prefix. */
  predicate MatchLengthOk(p: Prefix, family: nat, len: nat) {
    if p.family != 0 then family == p.family && !(p.bitlen >= 0 && p.bitlen < len)
    else p.specified ==> !(p.bitlen >= 0 && p.bitlen < len)
  }

  /** A zeroed `inet_prefix` into which `(len + 7) / 8` bytes of the attribute are copied. */
  function Copied(s: Side): (d: Bits)
    requires s.len <= 128 && (s.attr.Some? ==> 8 * ((s.len + 7) / 8) <= |s.attr.value|)
    ensures |d| == DATA_BITS
  {
    var zeros := seq(DATA_BITS, _ => false);
    if s.attr.None? then zeros
    else
      var n := 8 * ((s.len + 7) / 8);
      s.attr.value[..n] + zeros[n..]
  }

  predicate RootAddressOk(p: Prefix, d: Bits)
    requires |p.data| == |d| == DATA_BITS && -1 <= p.bitlen <= 128
  {
    Given(p) && p.bitlen >= 0 ==> InetAddrMatch(d, p.data, p.bitlen) == 0
  }

  predicate MatchAddressOk(p: Prefix, d: Bits, len: nat)
    requires |p.data| == |d| == DATA_BITS && len <= 128
  {
    Given(p) ==> InetAddrMatch(d, p.data, len) == 0
  }

  /** The prefix part of `filter_nlmsg`, in its order: all length tests, then all address tests.
      The source address is only copied when a source selector is present. */
  predicate FilterPrefixes(f: Filter, r: Route)
    requires ValidRoute(r) && ValidPrefix(f.rdst) && ValidPrefix(f.mdst) && ValidPrefix(f.rsrc) && ValidPrefix(f.msrc)
  {
    && RootLengthOk(f.rdst, r.family, r.dst.len)
    && MatchLengthOk(f.mdst, r.family, r.dst.len)
    && RootLengthOk(f.rsrc, r.family, r.src.len)
    && MatchLengthOk(f.msrc, r.family, r.src.len)
    && var dst := Copied(r.dst);
       var src := if Given(f.rsrc) || Given(f.msrc) then Copied(r.src) else seq(DATA_BITS, _ => false);
    && RootAddressOk(f.rdst, dst)
    && MatchAddressOk(f.mdst, dst, r.dst.len)
    && RootAddressOk(f.rsrc, src)
    && (f.msrc.bitlen >= 0 ==> MatchAddressOk(f.msrc, src, r.src.len))
  }

  // ---------------------------------------------------------------- prefixes as sets of addresses

  /** The bits of the address a side talks about; a missing attribute means all zeros. */
  ghost function AddressOf(s: Side): Bits {
    if s.attr.Some? then s.attr.value + seq(DATA_BITS, _ => false) else seq(DATA_BITS, _ => false)
  }

  datatype Address = Address(family: nat, bits: Bits)

  /** `a` is one of the addresses of a prefix of length `len`. */
  ghost predicate In(a: Address, family: nat, data: Bits, len: nat)
    requires len <= HostBits(family) <= |data|
  {
    a.family == family && |a.bits| == HostBits(family) && a.bits[..len] == data[..len]
  }

  /** Every address of the second prefix is one of the first. */
  ghost predicate Within(f: nat, p: Bits, m: nat, g: nat, q: Bits, n: nat)
    requires m <= HostBits(f) <= |p| && n <= HostBits(g) <= |q|
  {
    forall a :: In(a, g, q, n) ==> In(a, f, p, m)
  }

  /** Containment of address sets is a matter of family, length and leading bits. */
  lemma WithinIsPrefix(f: nat, p: Bits, m: nat, g: nat, q: Bits, n: nat)
    requires m <= HostBits(f) <= |p| && n <= HostBits(g) <= |q|
    ensures Within(f, p, m, g, q, n) <==> f == g && m <= n && p[..m] == q[..m]
  {
    var base := Address(g, q[..HostBits(g)]);
    assert In(base, g, q, n) by {
      assert base.bits[..n] == q[..n];
    }
    if f == g && m <= n && p[..m] == q[..m] {
      forall a | In(a, g, q, n) ensures In(a, f, p, m) {
        assert a.bits[..m] == a.bits[..n][..m] == q[..n][..m] == q[..m];
      }
    }
    if Within(f, p, m, g, q, n) {
      assert In(base, f, p, m);
      assert p[..m] == q[..m] by {
        assert base.bits[..m] == q[..m];
      }
      if n < m {
        // An address that agrees with the second prefix but differs from the first behind it.
        var other := Address(g, base.bits[m - 1 := !p[m - 1]]);
        assert other.bits[..n] == base.bits[..n] == q[..n];
        assert In(other, g, q, n);
        assert false;
      }
    }
  }

  lemma CopiedKeepsPrefix(s: Side, k: nat)
    requires s.len <= 128 && (s.attr.Some? ==> 8 * ((s.len + 7) / 8) <= |s.attr.value|) && k <= s.len
    ensures Copied(s)[..k] == AddressOf(s)[..k]
  {
  }

  /** `root P` on one side of a route. */
  lemma RootTest(p: Prefix, family: nat, s: Side)
    requires ValidPrefix(p) && p.family != 0 && ValidSide(family, s)
    ensures RootLengthOk(p, family, s.len) && RootAddressOk(p, Copied(s))
            <==> Within(p.family, p.data, p.bitlen, family, AddressOf(s), s.len)
  {
    MatchComparesPrefix(Copied(s), p.data, p.bitlen);
    WithinIsPrefix(p.family, p.data, p.bitlen, family, AddressOf(s), s.len);
    if p.bitlen <= s.len {
      CopiedKeepsPrefix(s, p.bitlen);
    }
  }

  /** `match P` on one side of a route. */
  lemma MatchTest(p: Prefix, family: nat, s: Side)
    requires ValidPrefix(p) && p.family != 0 && ValidSide(family, s)
    ensures MatchLengthOk(p, family, s.len) && MatchAddressOk(p, Copied(s), s.len)
            <==> Within(family, AddressOf(s), s.len, p.family, p.data, p.bitlen)
  {
    MatchComparesPrefix(Copied(s), p.data, s.len);
    WithinIsPrefix(family, AddressOf(s), s.len, p.family, p.data, p.bitlen);
    CopiedKeepsPrefix(s, s.len);
  }

  /** The addresses of the side are all addresses of the prefix; a prefix without a family stands for
      itself in the family of the route, and one that is not given for all addresses. */
  ghost predicate Inside(p: Prefix, family: nat, s: Side)
    requires ValidPrefix(p) && ValidSide(family, s)
  {
    if p.family != 0 then Within(p.family, p.data, p.bitlen, family, AddressOf(s), s.len)
    else p.specified ==> p.bitlen <= s.len && p.data[..p.bitlen] == AddressOf(s)[..p.bitlen]
  }

  /** The other way round: the addresses of the prefix are all addresses of the side. */
  ghost predicate Around(p: Prefix, family: nat, s: Side)
    requires ValidPrefix(p) && ValidSide(family, s)
  {
    if p.family != 0 then Within(family, AddressOf(s), s.len, p.family, p.data, p.bitlen)
    else p.specified ==> s.len <= p.bitlen && p.data[..s.len] == AddressOf(s)[..s.len]
  }

  lemma InsideTest(p: Prefix, family: nat, s: Side)
    requires ValidPrefix(p) && ValidSide(family, s)
    ensures RootLengthOk(p, family, s.len) && RootAddressOk(p, Copied(s)) <==> Inside(p, family, s)
  {
    hide Within, InetAddrMatch, Copied;
    if p.family != 0 {
      RootTest(p, family, s);
    } else if p.specified {
      MatchComparesPrefix(Copied(s), p.data, p.bitlen);
      if p.bitlen <= s.len {
        CopiedKeepsPrefix(s, p.bitlen);
      }
    }
  }

  lemma AroundTest(p: Prefix, family: nat, s: Side)
    requires ValidPrefix(p) && ValidSide(family, s)
    ensures MatchLengthOk(p, family, s.len) && MatchAddressOk(p, Copied(s), s.len) <==> Around(p, family, s)
  {
    hide Within, InetAddrMatch, Copied;
    if p.family != 0 {
      MatchTest(p, family, s);
    } else if p.specified {
      MatchComparesPrefix(Copied(s), p.data, s.len);
      CopiedKeepsPrefix(s, s.len);
    }
  }

  /** For any filter, whichever of its four prefixes are given: a route passes if and only if its
      destination lies inside the `root` prefix and around the `match` prefix of `to`, and its source
      likewise for `from`. */
  lemma FilterMeaning(f: Filter, r: Route)
    requires ValidFilter(f) && ValidRoute(r)
    ensures FilterPrefixes(f, r) <==>
              && Inside(f.rdst, r.family, r.dst) && Around(f.mdst, r.family, r.dst)
              && Inside(f.rsrc, r.family, r.src) && Around(f.msrc, r.family, r.src)
  {
    hide Inside, Around, InetAddrMatch, Copied;
    InsideTest(f.rdst, r.family, r.dst);
    AroundTest(f.mdst, r.family, r.dst);
    InsideTest(f.rsrc, r.family, r.src);
    AroundTest(f.msrc, r.family, r.src);
  }

  ghost predicate ValidFilter(f: Filter) {
    ValidPrefix(f.rdst) && ValidPrefix(f.mdst) && ValidPrefix(f.rsrc) && ValidPrefix(f.msrc)
  }

  /** What `to` selectors of the four shapes put into the filter. */
  datatype Selector = Root(p: Prefix) | Match(p: Prefix) | Exact(p: Prefix)

  function Reset(): Prefix {
    Prefix(0, -1, false, seq(DATA_BITS, _ => false))
  }

  function ToFilter(s: Selector): Filter {
    match s
    case Root(p) => Filter(p, Reset(), Reset(), Reset())
    case Match(p) => Filter(Reset(), p, Reset(), Reset())
    case Exact(p) => Filter(p, p, Reset(), Reset())
  }

  function FromFilter(s: Selector): Filter {
    match s
    case Root(p) => Filter(Reset(), Reset(), p, Reset())
    case Match(p) => Filter(Reset(), Reset(), Reset(), p)
    case Exact(p) => Filter(Reset(), Reset(), p, p)
  }

  /** The selector in terms of address sets: the route inside the prefix, the prefix inside the
      route, or both. */
  ghost predicate Chooses(s: Selector, family: nat, side: Side)
    requires ValidPrefix(s.p) && s.p.family != 0 && ValidSide(family, side)
  {
    var inside := Within(s.p.family, s.p.data, s.p.bitlen, family, AddressOf(side), side.len);
    var around := Within(family, AddressOf(side), side.len, s.p.family, s.p.data, s.p.bitlen);
    match s
    case Root(_) => inside
    case Match(_) => around
    case Exact(_) => inside && around
  }

  /** `to root P`, `to match P` and `to exact P` select exactly the routes whose destination set lies
      inside P, contains P, or equals P. */
  lemma ToSelectors(s: Selector, r: Route)
    requires ValidPrefix(s.p) && s.p.family != 0 && ValidRoute(r)
    ensures ValidFilter(ToFilter(s))
    ensures FilterPrefixes(ToFilter(s), r) <==> Chooses(s, r.family, r.dst)
  {
    FilterMeaning(ToFilter(s), r);
    hide Within, FilterPrefixes, AddressOf;
  }

  /** And `from` does the same for the source. */
  lemma FromSelectors(s: Selector, r: Route)
    requires ValidPrefix(s.p) && s.p.family != 0 && ValidRoute(r)
    ensures ValidFilter(FromFilter(s))
    ensures FilterPrefixes(FromFilter(s), r) <==> Chooses(s, r.family, r.src)
  {
    FilterMeaning(FromFilter(s), r);
    hide Within, FilterPrefixes, AddressOf;
  }

  /** `exact P` is equality of address sets. */
  lemma ExactIsSetEquality(p: Prefix, family: nat, side: Side)
    requires ValidPrefix(p) && p.family != 0 && ValidSide(family, side)
    ensures Chooses(Exact(p), family, side) <==>
              forall a :: In(a, family, AddressOf(side), side.len) <==> In(a, p.family, p.data, p.bitlen)
  {
    hide In;
  }

  /** Without a family, as in `ip route show default`, the exact selector of length zero selects the
      default routes of every family. */
  lemma DefaultSelectsDefaults(p: Prefix, r: Route)
    requires ValidPrefix(p) && p.family == 0 && p.specified && p.bitlen == 0 && ValidRoute(r)
    ensures ValidFilter(ToFilter(Exact(p)))
    ensures FilterPrefixes(ToFilter(Exact(p)), r) <==> r.dst.len == 0
  {
    FilterMeaning(ToFilter(Exact(p)), r);
    hide FilterPrefixes, AddressOf;
  }
}
