/** The options of `nexthop` clauses: what next hop they describe, and what is shown of it. */
module NextHopOptions {
  import opened Wrappers
  import opened Bytes
  import opened NextHops

  const RTA_ENCAP_TYPE := 21
  const RTA_ENCAP := 22
  const AF_UNSPEC: nat := 0
  /** The options of one next hop, after reading of names and addresses. A device name that is not
      known yields index zero. The contents of `encap` and its type are
      taken as given. */
  datatype Opt = Via(family: nat, addr: seq<byte>) | Dev(ifindex: nat) | Weight(w: nat) | Onlink
               | Realms(realm: nat) | Encap(encap: seq<byte>, kind: nat) | As(addr: seq<byte>)

  ghost predicate ValidOpt(o: Opt) {
    match o
    case Via(family, addr) => family < TWO_16 && |addr| <= 256
    case Dev(ifindex) => ifindex < TWO_32
    case Realms(realm) => realm < TWO_32
    case Encap(encap, kind) => |encap| <= 1024 && kind < TWO_16
    case As(addr) => |addr| <= 256
    case _ => true
  }

  ghost predicate AllValid(opts: seq<Opt>) {
    forall i :: 0 <= i < |opts| ==> ValidOpt(opts[i])
  }

  /** A clause being read: the next hop so far, and the family of the route. */
  datatype Draft = Draft(hop: Hop, family: nat)

  /** An unknown device or a weight outside 1..256. */
  predicate Refused(o: Opt) {
    match o
    case Dev(ifindex) => ifindex == 0
    case Weight(w) => w == 0 || w > 256
    case _ => false
  }

  function FamilyAfter(o: Opt, family: nat): nat {
    if o.Via? && family == AF_UNSPEC then o.family else family
  }

  /** The attributes an option adds. A gateway of another family than the route becomes RTA_VIA. */
  function ItemsOf(o: Opt, family: nat): seq<Item> {
    match o
    case Via(f, addr) =>
      if f == FamilyAfter(o, family) then [Item(Attr(RTA_GATEWAY, addr), true)]
      else [Item(Attr(RTA_VIA, [f % 256, f / 256 % 256] + addr), false)]
    case Realms(v) => if v < TWO_32 then [Item(Attr(RTA_FLOW, PutU32(v)), true)] else []
    case Encap(encap, kind) =>
      [Item(Attr(RTA_ENCAP, encap), false), Item(Attr(RTA_ENCAP_TYPE, PutU16(kind % TWO_16)), false)]
    case As(addr) => [Item(Attr(RTA_NEWDST, addr), true)]
    case _ => []
  }

  function Take(d: Draft, o: Opt): Option<Draft> {
    if Refused(o) then None
    else Some(Draft(Hop(d.hop.items + ItemsOf(o, d.family),
                        if o.Onlink? && d.hop.flags / RTNH_F_ONLINK % 2 == 0 then (d.hop.flags + RTNH_F_ONLINK) % 256
                        else d.hop.flags,
                        if o.Weight? && 1 <= o.w <= 256 then o.w - 1 else d.hop.hops,
                        if o.Dev? then o.ifindex else d.hop.ifindex),
                    FamilyAfter(o, d.family)))
  }

  /** One clause: `None` when an option is refused. */
  function Clause(opts: seq<Opt>, family: nat): Option<Draft> {
    if opts == [] then Some(Draft(Hop([], 0, 0, 0), family))
    else
      match Clause(opts[..|opts| - 1], family)
      case None => None
      case Some(d) => Take(d, opts[|opts| - 1])
  }

  /** The clauses read so far, and the family they have left in the route. */
  datatype Progress = Progress(hops: seq<Hop>, family: nat)

  function Clauses(args: seq<seq<Opt>>, family: nat): Option<Progress> {
    if args == [] then Some(Progress([], family))
    else
      match Clauses(args[..|args| - 1], family)
      case None => None
      case Some(p) =>
        match Clause(args[|args| - 1], p.family)
        case None => None
        case Some(d) => Some(Progress(p.hops + [d.hop], d.family))
  }

  function TotalSize(hs: seq<Hop>): nat {
    if hs == [] then 0 else TotalSize(hs[..|hs| - 1]) + Size(hs[|hs| - 1])
  }

  // ---------------------------------------------------------------- families

  /** The family of the route once `n` options have been read: the one it had, or that of the first
      gateway. */
  ghost function RouteFamily(opts: seq<Opt>, family: nat, n: nat): nat
    requires n <= |opts|
  {
    if n == 0 then family
    else if RouteFamily(opts, family, n - 1) == AF_UNSPEC && opts[n - 1].Via? then opts[n - 1].family
    else RouteFamily(opts, family, n - 1)
  }

  lemma {:induction false} FamilyIsKept(opts: seq<Opt>, family: nat, n: nat)
    requires n <= |opts| && family != AF_UNSPEC
    ensures RouteFamily(opts, family, n) == family
  {
    if n > 0 {
      FamilyIsKept(opts, family, n - 1);
    }
  }

  /** Without a family the route takes that of its first gateway. */
  lemma {:induction false} FirstGatewayDecides(opts: seq<Opt>, n: nat, i: nat)
    requires i < n <= |opts| && opts[i].Via? && opts[i].family != AF_UNSPEC && forall j :: 0 <= j < i ==> !opts[j].Via?
    ensures RouteFamily(opts, AF_UNSPEC, i) == AF_UNSPEC && RouteFamily(opts, AF_UNSPEC, n) == opts[i].family
    decreases n
  {
    NoGatewayYet(opts, i);
    if n > i + 1 {
      FirstGatewayDecides(opts, n - 1, i);
    }
  }

  lemma {:induction false} NoGatewayYet(opts: seq<Opt>, n: nat)
    requires n <= |opts| && forall j :: 0 <= j < n ==> !opts[j].Via?
    ensures RouteFamily(opts, AF_UNSPEC, n) == AF_UNSPEC
  {
    if n > 0 {
      NoGatewayYet(opts, n - 1);
    }
  }

  lemma {:induction false} FamilyOfPrefix(opts: seq<Opt>, family: nat, k: nat, n: nat)
    requires n <= k <= |opts|
    ensures RouteFamily(opts[..k], family, n) == RouteFamily(opts, family, n)
  {
    if n > 0 {
      FamilyOfPrefix(opts, family, k, n - 1);
    }
  }

  // ---------------------------------------------------------------- what is shown of a clause

  /** A gateway of the route's own family. */
  ghost predicate SameFamily(opts: seq<Opt>, family: nat, i: nat)
    requires i < |opts|
  {
    opts[i].Via? && opts[i].family == RouteFamily(opts, family, i + 1)
  }

  /** A gateway of another family. */
  ghost predicate OtherFamily(opts: seq<Opt>, family: nat, i: nat)
    requires i < |opts|
  {
    opts[i].Via? && opts[i].family != RouteFamily(opts, family, i + 1)
  }

  ghost predicate FirstSame(opts: seq<Opt>, family: nat, i: nat) {
    i < |opts| && SameFamily(opts, family, i) && forall j :: 0 <= j < i ==> !SameFamily(opts, family, j)
  }

  ghost predicate FirstOther(opts: seq<Opt>, family: nat, i: nat) {
    i < |opts| && OtherFamily(opts, family, i) && forall j :: 0 <= j < i ==> !OtherFamily(opts, family, j)
  }

  ghost predicate FirstRealms(opts: seq<Opt>, i: nat) {
    i < |opts| && opts[i].Realms? && forall j :: 0 <= j < i ==> !opts[j].Realms?
  }

  ghost predicate FirstAs(opts: seq<Opt>, i: nat) {
    i < |opts| && opts[i].As? && forall j :: 0 <= j < i ==> !opts[j].As?
  }

  ghost predicate FirstEncap(opts: seq<Opt>, i: nat) {
    i < |opts| && opts[i].Encap? && forall j :: 0 <= j < i ==> !opts[j].Encap?
  }

  ghost predicate LastDev(opts: seq<Opt>, i: nat) {
    i < |opts| && opts[i].Dev? && forall j :: i < j < |opts| ==> !opts[j].Dev?
  }

  ghost predicate LastWeightAt(opts: seq<Opt>, i: nat) {
    i < |opts| && opts[i].Weight? && forall j :: i < j < |opts| ==> !opts[j].Weight?
  }

  /** What ought to be shown of a clause, given the family of the route before it: the first gateway of
      the route's family and the first of another one, the first realms, destination and encapsulation,
      the last interface and weight, and whether `onlink` was given. */
  ghost predicate ClauseShown(opts: seq<Opt>, family: nat, x: Seen)
    requires AllValid(opts)
  {
    && GatewaysShown(opts, family, x.attrs) && AttrsShown(opts, x.attrs)
    && (forall i: nat :: LastDev(opts, i) ==> x.ifindex == opts[i].ifindex)
    && ((forall i: nat :: !LastDev(opts, i)) ==> x.ifindex == 0)
    && (forall i: nat :: LastWeightAt(opts, i) ==> x.hops as int + 1 == opts[i].w)
    && ((forall i: nat :: !LastWeightAt(opts, i)) ==> x.hops == 0)
    && x.flags == if Onlink in opts then RTNH_F_ONLINK else 0
  }

  ghost predicate GatewaysShown(opts: seq<Opt>, family: nat, attrs: seq<Attr>) {
    && (forall i: nat :: FirstSame(opts, family, i) ==> FirstOf(attrs, RTA_GATEWAY) == Some(opts[i].addr))
    && ((forall i: nat :: !FirstSame(opts, family, i)) ==> FirstOf(attrs, RTA_GATEWAY) == None)
    && (forall i: nat :: FirstOther(opts, family, i) && ValidOpt(opts[i]) ==>
          FirstOf(attrs, RTA_VIA) == Some(PutU16(opts[i].family) + opts[i].addr))
    && ((forall i: nat :: !FirstOther(opts, family, i)) ==> FirstOf(attrs, RTA_VIA) == None)
  }

  ghost predicate AttrsShown(opts: seq<Opt>, attrs: seq<Attr>) {
    && (forall i: nat :: FirstRealms(opts, i) && ValidOpt(opts[i]) ==>
          FirstOf(attrs, RTA_FLOW) == Some(PutU32(opts[i].realm)))
    && ((forall i: nat :: !FirstRealms(opts, i)) ==> FirstOf(attrs, RTA_FLOW) == None)
    && (forall i: nat :: FirstAs(opts, i) ==> FirstOf(attrs, RTA_NEWDST) == Some(opts[i].addr))
    && ((forall i: nat :: !FirstAs(opts, i)) ==> FirstOf(attrs, RTA_NEWDST) == None)
    && (forall i: nat :: FirstEncap(opts, i) && ValidOpt(opts[i]) ==>
          && FirstOf(attrs, RTA_ENCAP) == Some(opts[i].encap)
          && FirstOf(attrs, RTA_ENCAP_TYPE) == Some(PutU16(opts[i].kind)))
    && ((forall i: nat :: !FirstEncap(opts, i)) ==>
          FirstOf(attrs, RTA_ENCAP) == None && FirstOf(attrs, RTA_ENCAP_TYPE) == None)
  }

  // ---------------------------------------------------------------- the first attribute of each kind

  /** The attribute of a kind that one option gives. */
  ghost function Gives(opts: seq<Opt>, family: nat, i: nat, kind: nat): Option<seq<byte>>
    requires i < |opts| && ValidOpt(opts[i])
  {
    match opts[i]
    case Via(f, addr) =>
      if kind == RTA_GATEWAY && SameFamily(opts, family, i) then Some(addr)
      else if kind == RTA_VIA && OtherFamily(opts, family, i) then Some(PutU16(f) + addr)
      else None
    case Realms(realm) => if kind == RTA_FLOW then Some(PutU32(realm)) else None
    case As(addr) => if kind == RTA_NEWDST then Some(addr) else None
    case Encap(encap, t) =>
      if kind == RTA_ENCAP then Some(encap) else if kind == RTA_ENCAP_TYPE then Some(PutU16(t)) else None
    case _ => None
  }

  /** The first attribute of a kind that the options give. */
  ghost function FirstGiven(opts: seq<Opt>, family: nat, n: nat, kind: nat): Option<seq<byte>>
    requires n <= |opts| && AllValid(opts)
  {
    if n == 0 then None
    else if FirstGiven(opts, family, n - 1, kind).Some? then FirstGiven(opts, family, n - 1, kind)
    else Gives(opts, family, n - 1, kind)
  }

  lemma {:induction false} FirstGivenAt(opts: seq<Opt>, family: nat, n: nat, kind: nat, i: nat)
    requires i < n <= |opts| && AllValid(opts) && Gives(opts, family, i, kind).Some?
    requires forall j :: 0 <= j < i ==> Gives(opts, family, j, kind) == None
    ensures FirstGiven(opts, family, n, kind) == Gives(opts, family, i, kind)
    decreases n
  {
    hide Gives, ValidOpt;
    if n > i + 1 {
      FirstGivenAt(opts, family, n - 1, kind, i);
    } else {
      NoneGiven(opts, family, i, kind);
    }
  }

  lemma {:induction false} NoneGiven(opts: seq<Opt>, family: nat, n: nat, kind: nat)
    requires n <= |opts| && AllValid(opts) && forall j :: 0 <= j < n ==> Gives(opts, family, j, kind) == None
    ensures FirstGiven(opts, family, n, kind) == None
  {
    hide Gives, ValidOpt;
    if n > 0 {
      NoneGiven(opts, family, n - 1, kind);
    }
  }

  lemma GivenInPrefix(opts: seq<Opt>, family: nat, k: nat, i: nat, kind: nat)
    requires i < k <= |opts| && ValidOpt(opts[i])
    ensures Gives(opts[..k], family, i, kind) == Gives(opts, family, i, kind)
  {
    FamilyOfPrefix(opts, family, k, i + 1);
  }

  lemma {:induction false} FirstGivenInPrefix(opts: seq<Opt>, family: nat, k: nat, n: nat, kind: nat)
    requires n <= k <= |opts| && AllValid(opts)
    ensures AllValid(opts[..k])
    ensures FirstGiven(opts[..k], family, n, kind) == FirstGiven(opts, family, n, kind)
  {
    hide Gives, ValidOpt;
    if n > 0 {
      FirstGivenInPrefix(opts, family, k, n - 1, kind);
      GivenInPrefix(opts, family, k, n - 1, kind);
    }
  }

  lemma {:induction false} AttrsConcat(a: seq<Item>, b: seq<Item>)
    ensures Attrs(a + b) == Attrs(a) + Attrs(b)
  {
    if a == [] {
      assert a + b == b;
    } else {
      assert (a + b)[1..] == a[1..] + b;
      AttrsConcat(a[1..], b);
    }
  }

  predicate Known(kind: nat) {
    kind == RTA_GATEWAY || kind == RTA_VIA || kind == RTA_FLOW || kind == RTA_NEWDST || kind == RTA_ENCAP
    || kind == RTA_ENCAP_TYPE
  }

  /** One option adds the attribute it gives. */
  lemma ItemGives(opts: seq<Opt>, family: nat, i: nat, kind: nat)
    requires i < |opts| && ValidOpt(opts[i]) && Known(kind)
    ensures FirstOf(Attrs(ItemsOf(opts[i], RouteFamily(opts, family, i))), kind) == Gives(opts, family, i, kind)
  {
    hide Attrs, FirstOf;
    NoAttrs(kind);
    match opts[i]
    case Via(f, addr) =>
      assert PutU16(f) == [f % 256, f / 256 % 256];
      OneAttr(RTA_GATEWAY, addr, true, kind);
      OneAttr(RTA_VIA, PutU16(f) + addr, false, kind);
    case Realms(realm) => OneAttr(RTA_FLOW, PutU32(realm), true, kind);
    case As(addr) => OneAttr(RTA_NEWDST, addr, true, kind);
    case Encap(encap, t) => TwoAttrs(encap, PutU16(t), kind);
    case _ =>
  }

  lemma OneAttr(k: nat, payload: seq<byte>, exact: bool, kind: nat)
    ensures FirstOf(Attrs([Item(Attr(k, payload), exact)]), kind) == if k == kind then Some(payload) else None
  {
    var items := [Item(Attr(k, payload), exact)];
    assert items[1..] == [] && Attrs(items) == [items[0].attr] && Attrs(items)[1..] == [];
  }

  lemma TwoAttrs(encap: seq<byte>, t: seq<byte>, kind: nat)
    ensures FirstOf(Attrs([Item(Attr(RTA_ENCAP, encap), false), Item(Attr(RTA_ENCAP_TYPE, t), false)]), kind)
            == if kind == RTA_ENCAP then Some(encap) else if kind == RTA_ENCAP_TYPE then Some(t) else None
  {
    hide Attrs, FirstOf;
    var a, b := [Item(Attr(RTA_ENCAP, encap), false)], [Item(Attr(RTA_ENCAP_TYPE, t), false)];
    AttrsConcat(a, b);
    FirstOfConcat(Attrs(a), Attrs(b), kind);
    OneAttr(RTA_ENCAP, encap, false, kind);
    OneAttr(RTA_ENCAP_TYPE, t, false, kind);
    assert a + b == [Item(Attr(RTA_ENCAP, encap), false), Item(Attr(RTA_ENCAP_TYPE, t), false)];
  }

  /** The attributes of a next hop are those its options give, in their order. */
  lemma {:induction false} AttrsGiven(opts: seq<Opt>, family: nat, kind: nat)
    requires AllValid(opts) && Clause(opts, family).Some? && Known(kind)
    ensures Clause(opts, family).value.family == RouteFamily(opts, family, |opts|)
    ensures FirstOf(Attrs(Clause(opts, family).value.hop.items), kind) == FirstGiven(opts, family, |opts|, kind)
  {
    hide ValidOpt, ItemsOf, Gives, Attrs, FirstOf, Known;
    if opts == [] {
      NoAttrs(kind);
    } else {
      var n := |opts| - 1;
      var init := opts[..n];
      var d := Clause(init, family).value;
      assert AllValid(init);
      AttrsGiven(init, family, kind);
      FamilyOfPrefix(opts, family, n, n);
      FirstGivenInPrefix(opts, family, n, n, kind);
      AttrsConcat(d.hop.items, ItemsOf(opts[n], d.family));
      FirstOfConcat(Attrs(d.hop.items), Attrs(ItemsOf(opts[n], d.family)), kind);
      ItemGives(opts, family, n, kind);
    }
  }

  lemma NoAttrs(kind: nat)
    ensures FirstOf(Attrs([]), kind) == None
  {
  }

  // ---------------------------------------------------------------- the header

  lemma {:induction false} LastDevice(opts: seq<Opt>, family: nat)
    requires Clause(opts, family).Some?
    ensures forall i: nat :: LastDev(opts, i) ==> Clause(opts, family).value.hop.ifindex == opts[i].ifindex
    ensures (forall i: nat :: !LastDev(opts, i)) ==> Clause(opts, family).value.hop.ifindex == 0
  {
    if opts != [] {
      var n := |opts| - 1;
      var init := opts[..n];
      LastDevice(init, family);
      if opts[n].Dev? {
        assert LastDev(opts, n);
      } else {
        forall i: nat ensures LastDev(opts, i) <==> LastDev(init, i) {
          assert i < n ==> init[i] == opts[i];
          if LastDev(init, i) {
            assert forall j :: i < j < |opts| ==> !opts[j].Dev?;
          }
          if LastDev(opts, i) {
            assert forall j :: i < j < n ==> !init[j].Dev?;
          }
        }
      }
    }
  }

  lemma {:induction false} LastWeightShown(opts: seq<Opt>, family: nat)
    requires Clause(opts, family).Some?
    ensures forall i: nat :: LastWeightAt(opts, i) ==> Clause(opts, family).value.hop.hops as int + 1 == opts[i].w
    ensures (forall i: nat :: !LastWeightAt(opts, i)) ==> Clause(opts, family).value.hop.hops == 0
  {
    if opts != [] {
      var n := |opts| - 1;
      var init := opts[..n];
      LastWeightShown(init, family);
      if opts[n].Weight? {
        assert LastWeightAt(opts, n);
      } else {
        forall i: nat ensures LastWeightAt(opts, i) <==> LastWeightAt(init, i) {
          assert i < n ==> init[i] == opts[i];
          if LastWeightAt(init, i) {
            assert forall j :: i < j < |opts| ==> !opts[j].Weight?;
          }
          if LastWeightAt(opts, i) {
            assert forall j :: i < j < n ==> !init[j].Weight?;
          }
        }
      }
    }
  }

  lemma {:induction false} OnlinkShown(opts: seq<Opt>, family: nat)
    requires Clause(opts, family).Some?
    ensures Clause(opts, family).value.hop.flags == if Onlink in opts then RTNH_F_ONLINK else 0
  {
    if opts != [] {
      var n := |opts| - 1;
      OnlinkShown(opts[..n], family);
      assert opts == opts[..n] + [opts[n]];
    }
  }

  // ---------------------------------------------------------------- clauses and lists

  lemma GatewayShown(opts: seq<Opt>, family: nat, attrs: seq<Attr>)
    requires AllValid(opts)
    requires FirstOf(attrs, RTA_GATEWAY) == FirstGiven(opts, family, |opts|, RTA_GATEWAY)
    requires FirstOf(attrs, RTA_VIA) == FirstGiven(opts, family, |opts|, RTA_VIA)
    ensures forall i: nat :: FirstSame(opts, family, i) ==> FirstOf(attrs, RTA_GATEWAY) == Some(opts[i].addr)
    ensures (forall i: nat :: !FirstSame(opts, family, i)) ==> FirstOf(attrs, RTA_GATEWAY) == None
    ensures forall i: nat :: FirstOther(opts, family, i) && ValidOpt(opts[i]) ==>
              FirstOf(attrs, RTA_VIA) == Some(PutU16(opts[i].family) + opts[i].addr)
    ensures (forall i: nat :: !FirstOther(opts, family, i)) ==> FirstOf(attrs, RTA_VIA) == None
  {
    hide RouteFamily, FirstOf, FirstGiven, PutU16, PutU32, Gives;
    forall i: nat | FirstSame(opts, family, i) ensures FirstOf(attrs, RTA_GATEWAY) == Some(opts[i].addr) {
      SameGives(opts, family, i);
      forall j | 0 <= j < i ensures Gives(opts, family, j, RTA_GATEWAY) == None {
        SameGives(opts, family, j);
      }
      FirstGivenAt(opts, family, |opts|, RTA_GATEWAY, i);
    }
    forall i: nat | FirstOther(opts, family, i) && ValidOpt(opts[i])
      ensures FirstOf(attrs, RTA_VIA) == Some(PutU16(opts[i].family) + opts[i].addr)
    {
      SameGives(opts, family, i);
      forall j | 0 <= j < i ensures Gives(opts, family, j, RTA_VIA) == None {
        SameGives(opts, family, j);
      }
      FirstGivenAt(opts, family, |opts|, RTA_VIA, i);
    }
    if forall i: nat :: !FirstSame(opts, family, i) {
      NeverSame(opts, family, |opts|);
      forall j | 0 <= j < |opts| ensures Gives(opts, family, j, RTA_GATEWAY) == None {
        SameGives(opts, family, j);
      }
      NoneGiven(opts, family, |opts|, RTA_GATEWAY);
    }
    if forall i: nat :: !FirstOther(opts, family, i) {
      NeverOther(opts, family, |opts|);
      forall j | 0 <= j < |opts| ensures Gives(opts, family, j, RTA_VIA) == None {
        SameGives(opts, family, j);
      }
      NoneGiven(opts, family, |opts|, RTA_VIA);
    }
  }

  lemma SameGives(opts: seq<Opt>, family: nat, i: nat)
    requires i < |opts| && AllValid(opts)
    ensures ValidOpt(opts[i])
    ensures Gives(opts, family, i, RTA_GATEWAY) == if SameFamily(opts, family, i) then Some(opts[i].addr) else None
    ensures Gives(opts, family, i, RTA_VIA)
            == if OtherFamily(opts, family, i) then Some(PutU16(opts[i].family) + opts[i].addr) else None
  {
  }

  lemma {:induction false} NeverSame(opts: seq<Opt>, family: nat, n: nat)
    requires n <= |opts| && forall i: nat :: !FirstSame(opts, family, i)
    ensures forall j :: 0 <= j < n ==> !SameFamily(opts, family, j)
  {
    hide SameFamily;
    if n > 0 {
      NeverSame(opts, family, n - 1);
      assert !FirstSame(opts, family, n - 1);
    }
  }

  lemma {:induction false} NeverOther(opts: seq<Opt>, family: nat, n: nat)
    requires n <= |opts| && forall i: nat :: !FirstOther(opts, family, i)
    ensures forall j :: 0 <= j < n ==> !OtherFamily(opts, family, j)
  {
    hide OtherFamily;
    if n > 0 {
      NeverOther(opts, family, n - 1);
      assert !FirstOther(opts, family, n - 1);
    }
  }

  lemma OthersShown(opts: seq<Opt>, family: nat, attrs: seq<Attr>)
    requires AllValid(opts)
    requires FirstOf(attrs, RTA_FLOW) == FirstGiven(opts, family, |opts|, RTA_FLOW)
    requires FirstOf(attrs, RTA_NEWDST) == FirstGiven(opts, family, |opts|, RTA_NEWDST)
    requires FirstOf(attrs, RTA_ENCAP) == FirstGiven(opts, family, |opts|, RTA_ENCAP)
    requires FirstOf(attrs, RTA_ENCAP_TYPE) == FirstGiven(opts, family, |opts|, RTA_ENCAP_TYPE)
    ensures forall i: nat :: FirstRealms(opts, i) && ValidOpt(opts[i]) ==>
              FirstOf(attrs, RTA_FLOW) == Some(PutU32(opts[i].realm))
    ensures (forall i: nat :: !FirstRealms(opts, i)) ==> FirstOf(attrs, RTA_FLOW) == None
    ensures forall i: nat :: FirstAs(opts, i) ==> FirstOf(attrs, RTA_NEWDST) == Some(opts[i].addr)
    ensures (forall i: nat :: !FirstAs(opts, i)) ==> FirstOf(attrs, RTA_NEWDST) == None
    ensures forall i: nat :: FirstEncap(opts, i) && ValidOpt(opts[i]) ==>
              && FirstOf(attrs, RTA_ENCAP) == Some(opts[i].encap)
              && FirstOf(attrs, RTA_ENCAP_TYPE) == Some(PutU16(opts[i].kind))
    ensures (forall i: nat :: !FirstEncap(opts, i)) ==>
              FirstOf(attrs, RTA_ENCAP) == None && FirstOf(attrs, RTA_ENCAP_TYPE) == None
  {
    hide FirstOf, FirstGiven, PutU16, PutU32;
    forall i: nat | FirstRealms(opts, i) && ValidOpt(opts[i])
      ensures FirstOf(attrs, RTA_FLOW) == Some(PutU32(opts[i].realm))
    {
      FirstGivenAt(opts, family, |opts|, RTA_FLOW, i);
    }
    forall i: nat | FirstAs(opts, i) ensures FirstOf(attrs, RTA_NEWDST) == Some(opts[i].addr) {
      FirstGivenAt(opts, family, |opts|, RTA_NEWDST, i);
    }
    forall i: nat | FirstEncap(opts, i) && ValidOpt(opts[i])
      ensures FirstOf(attrs, RTA_ENCAP) == Some(opts[i].encap)
      ensures FirstOf(attrs, RTA_ENCAP_TYPE) == Some(PutU16(opts[i].kind))
    {
      FirstGivenAt(opts, family, |opts|, RTA_ENCAP, i);
      FirstGivenAt(opts, family, |opts|, RTA_ENCAP_TYPE, i);
    }
    if forall i: nat :: !FirstRealms(opts, i) {
      NeverRealms(opts, |opts|);
      NoneGiven(opts, family, |opts|, RTA_FLOW);
    }
    if forall i: nat :: !FirstAs(opts, i) {
      NeverAs(opts, |opts|);
      NoneGiven(opts, family, |opts|, RTA_NEWDST);
    }
    if forall i: nat :: !FirstEncap(opts, i) {
      NeverEncap(opts, |opts|);
      NoneGiven(opts, family, |opts|, RTA_ENCAP);
      NoneGiven(opts, family, |opts|, RTA_ENCAP_TYPE);
    }
  }

  lemma {:induction false} NeverRealms(opts: seq<Opt>, n: nat)
    requires n <= |opts| && forall i: nat :: !FirstRealms(opts, i)
    ensures forall j :: 0 <= j < n ==> !opts[j].Realms?
  {
    if n > 0 {
      NeverRealms(opts, n - 1);
      assert !FirstRealms(opts, n - 1);
    }
  }

  lemma {:induction false} NeverAs(opts: seq<Opt>, n: nat)
    requires n <= |opts| && forall i: nat :: !FirstAs(opts, i)
    ensures forall j :: 0 <= j < n ==> !opts[j].As?
  {
    if n > 0 {
      NeverAs(opts, n - 1);
      assert !FirstAs(opts, n - 1);
    }
  }

  lemma {:induction false} NeverEncap(opts: seq<Opt>, n: nat)
    requires n <= |opts| && forall i: nat :: !FirstEncap(opts, i)
    ensures forall j :: 0 <= j < n ==> !opts[j].Encap?
  {
    if n > 0 {
      NeverEncap(opts, n - 1);
      assert !FirstEncap(opts, n - 1);
    }
  }

  /** What the walk shows of a next hop that survives is what its options ask for. */
  lemma ClauseMeaning(opts: seq<Opt>, family: nat)
    requires AllValid(opts) && Clause(opts, family).Some?
    ensures ClauseShown(opts, family, SeenOf(Clause(opts, family).value.hop))
  {
    hide Clause, Attrs, Tabled, FirstOf, FirstGiven, ValidOpt, PutU16, PutU32, FirstSame, FirstOther, FirstRealms,
         FirstAs, FirstEncap, LastDev, LastWeightAt;
    var h := Clause(opts, family).value.hop;
    var attrs := Tabled(Attrs(h.items));
    KindMeaning(opts, family, RTA_GATEWAY);
    KindMeaning(opts, family, RTA_VIA);
    KindMeaning(opts, family, RTA_FLOW);
    KindMeaning(opts, family, RTA_NEWDST);
    KindMeaning(opts, family, RTA_ENCAP);
    KindMeaning(opts, family, RTA_ENCAP_TYPE);
    GatewayShown(opts, family, attrs);
    OthersShown(opts, family, attrs);
    LastDevice(opts, family);
    LastWeightShown(opts, family);
    OnlinkShown(opts, family);
  }

  lemma KindMeaning(opts: seq<Opt>, family: nat, kind: nat)
    requires AllValid(opts) && Clause(opts, family).Some? && Known(kind)
    ensures FirstOf(Tabled(Attrs(Clause(opts, family).value.hop.items)), kind) == FirstGiven(opts, family, |opts|, kind)
  {
    hide Clause, Attrs, Tabled, FirstOf, FirstGiven, ValidOpt;
    AttrsGiven(opts, family, kind);
    TabledFirst(Attrs(Clause(opts, family).value.hop.items), kind);
  }

  /** The family of the route before clause `k`. */
  ghost function FamilyBefore(args: seq<seq<Opt>>, family: nat, k: nat): nat
    requires k <= |args|
  {
    if k == 0 then family
    else RouteFamily(args[k - 1], FamilyBefore(args, family, k - 1), |args[k - 1]|)
  }

  lemma {:induction false} FamilyBeforePrefix(args: seq<seq<Opt>>, family: nat, n: nat, k: nat)
    requires k <= n <= |args|
    ensures FamilyBefore(args[..n], family, k) == FamilyBefore(args, family, k)
  {
    if k > 0 {
      FamilyBeforePrefix(args, family, n, k - 1);
    }
  }

  ghost predicate ArgsValid(args: seq<seq<Opt>>) {
    forall k :: 0 <= k < |args| ==> AllValid(args[k])
  }

  lemma ClausesLast(args: seq<seq<Opt>>, family: nat)
    ensures args == [] ==> Clauses(args, family) == Some(Progress([], family)) && TotalSize([]) == 0
    ensures args != [] && Clauses(args[..|args| - 1], family).Some? ==>
              var p := Clauses(args[..|args| - 1], family).value;
              Clauses(args, family) ==
                match Clause(args[|args| - 1], p.family)
                case None => None
                case Some(d) => Some(Progress(p.hops + [d.hop], d.family))
  {
    hide Clause;
  }

  /** Each clause is read with the family that those before it leave. */
  lemma {:induction false} ClauseOfList(args: seq<seq<Opt>>, family: nat)
    requires ArgsValid(args) && Clauses(args, family).Some?
    ensures var p := Clauses(args, family).value;
            && |p.hops| == |args| && p.family == FamilyBefore(args, family, |args|)
            && forall k :: 0 <= k < |args| ==>
                 var d := Clause(args[k], FamilyBefore(args, family, k));
                 d.Some? && p.hops[k] == d.value.hop
  {
    hide Clause, Clauses, AllValid, RouteFamily, FamilyBefore;
    ClausesLast(args, family);
    FamilyBeforeLast(args, family);
    if args != [] {
      var n := |args| - 1;
      SomeBefore(args, family);
      ClauseOfList(args[..n], family);
      FamilyBeforePrefix(args, family, n, n);
      AttrsGiven(args[n], FamilyBefore(args, family, n), RTA_GATEWAY);
      forall k | 0 <= k < n ensures FamilyBefore(args[..n], family, k) == FamilyBefore(args, family, k) {
        FamilyBeforePrefix(args, family, n, k);
      }
    }
  }

  lemma SomeBefore(args: seq<seq<Opt>>, family: nat)
    requires args != [] && Clauses(args, family).Some?
    ensures Clauses(args[..|args| - 1], family).Some?
  {
  }

  lemma FamilyBeforeLast(args: seq<seq<Opt>>, family: nat)
    ensures FamilyBefore(args, family, |args|)
            == if args == [] then family
               else RouteFamily(args[|args| - 1], FamilyBefore(args, family, |args| - 1), |args[|args| - 1]|)
  {
  }

  /** What is shown of a list that survives is, clause by clause, what its options ask for. */
  lemma ListMeaning(args: seq<seq<Opt>>, family: nat)
    requires ArgsValid(args) && Clauses(args, family).Some?
    ensures var shown := Tables(Clauses(args, family).value.hops);
            |shown| == |args|
            && forall k :: 0 <= k < |args| ==> ClauseShown(args[k], FamilyBefore(args, family, k), shown[k])
  {
    hide Clause, Clauses, AllValid, FamilyBefore, ClauseShown, Tables, SeenOf;
    ClauseOfList(args, family);
    var hs := Clauses(args, family).value.hops;
    forall k | 0 <= k < |args| ensures ClauseShown(args[k], FamilyBefore(args, family, k), Tables(hs)[k]) {
      TablesAt(hs, k);
      ClauseMeaning(args[k], FamilyBefore(args, family, k));
    }
  }

  // ---------------------------------------------------------------- refusals and lengths

  /** A known interface and a weight from 1 to 256. */
  predicate Fine(o: Opt) {
    (o.Dev? ==> o.ifindex != 0) && (o.Weight? ==> 1 <= o.w <= 256)
  }

  ghost predicate AllFine(opts: seq<Opt>) {
    forall i :: 0 <= i < |opts| ==> Fine(opts[i])
  }

  lemma {:induction false} ClauseRefused(opts: seq<Opt>, family: nat)
    ensures Clause(opts, family).Some? <==> AllFine(opts)
  {
    if opts != [] {
      var n := |opts| - 1;
      ClauseRefused(opts[..n], family);
      assert opts == opts[..n] + [opts[n]];
      assert AllFine(opts) <==> AllFine(opts[..n]) && Fine(opts[n]) by {
        assert forall i :: 0 <= i < n ==> opts[..n][i] == opts[i];
      }
    }
  }

  /** A list is refused exactly for an unknown interface or a weight out of range. */
  lemma {:induction false} ListRefused(args: seq<seq<Opt>>, family: nat)
    ensures Clauses(args, family).Some? <==> forall k :: 0 <= k < |args| ==> AllFine(args[k])
  {
    hide Clause, AllFine;
    if args != [] {
      var n := |args| - 1;
      ListRefused(args[..n], family);
      if Clauses(args[..n], family).Some? {
        ClauseRefused(args[n], Clauses(args[..n], family).value.family);
      }
      assert forall i :: 0 <= i < n ==> args[..n][i] == args[i];
    }
  }

  /** How far one option advances `rtnh_len`: a gateway, destination or realms by its exact length, the
      rest by a multiple of four. */
  ghost function Records(opts: seq<Opt>, family: nat, i: nat): nat
    requires i < |opts|
  {
    match opts[i]
    case Via(_, addr) => if SameFamily(opts, family, i) then 4 + |addr| else Align4(4 + 2 + |addr|)
    case Realms(_) => 4 + 4
    case As(addr) => 4 + |addr|
    case Encap(encap, _) => Align4(4 + |encap|) + Align4(4 + 2)
    case _ => 0
  }

  /** How far it advances `rta_len`. */
  ghost function Takes(opts: seq<Opt>, i: nat, same: bool): nat
    requires i < |opts|
  {
    match opts[i]
    case Via(_, addr) => Align4(4 + (if same then 0 else 2) + |addr|)
    case Realms(_) => 4 + 4
    case As(addr) => Align4(4 + |addr|)
    case Encap(encap, _) => Align4(4 + |encap|) + Align4(4 + 2)
    case _ => 0
  }

  ghost function RecordsUpTo(opts: seq<Opt>, family: nat, n: nat): nat
    requires n <= |opts|
  {
    if n == 0 then 0 else RecordsUpTo(opts, family, n - 1) + Records(opts, family, n - 1)
  }

  ghost function TakesUpTo(opts: seq<Opt>, family: nat, n: nat): nat
    requires n <= |opts|
  {
    if n == 0 then 0 else TakesUpTo(opts, family, n - 1) + Takes(opts, n - 1, SameFamily(opts, family, n - 1))
  }

  lemma {:induction false} LengthsOfPrefix(opts: seq<Opt>, family: nat, k: nat, n: nat)
    requires n <= k <= |opts|
    ensures RecordsUpTo(opts[..k], family, n) == RecordsUpTo(opts, family, n)
    ensures TakesUpTo(opts[..k], family, n) == TakesUpTo(opts, family, n)
  {
    hide RouteFamily, Align4;
    if n > 0 {
      LengthsOfPrefix(opts, family, k, n - 1);
      FamilyOfPrefix(opts, family, k, n);
    }
  }

  lemma {:induction false} LengthsConcat(a: seq<Item>, b: seq<Item>)
    ensures Space(a + b) == Space(a) + Space(b) && Recorded(a + b) == Recorded(a) + Recorded(b)
  {
    hide Align4;
    if a == [] {
      assert a + b == b;
    } else {
      assert (a + b)[1..] == a[1..] + b;
      LengthsConcat(a[1..], b);
    }
  }

  lemma OptionLengths(opts: seq<Opt>, family: nat, i: nat)
    requires i < |opts| && ValidOpt(opts[i])
    ensures var items := ItemsOf(opts[i], RouteFamily(opts, family, i));
            && Recorded(items) == Records(opts, family, i)
            && Space(items) == Takes(opts, i, SameFamily(opts, family, i))
  {
    hide Align4;
    var items := ItemsOf(opts[i], RouteFamily(opts, family, i));
    if |items| == 1 {
      assert items[1..] == [];
    } else if |items| == 2 {
      assert items[1..] == [items[1]] && items[1..][1..] == [];
    }
  }

  /** The two running lengths in terms of the options. */
  lemma {:induction false} ClauseLengths(opts: seq<Opt>, family: nat)
    requires AllValid(opts) && Clause(opts, family).Some?
    ensures var h := Clause(opts, family).value.hop;
            && RtnhLen(h) == RTNH_BYTES + RecordsUpTo(opts, family, |opts|)
            && Size(h) == RTNH_BYTES + TakesUpTo(opts, family, |opts|)
  {
    hide ValidOpt, ItemsOf, Records, Takes, Space, Recorded, RouteFamily;
    if opts == [] {
      NoLength();
    } else {
      var n := |opts| - 1;
      var init := opts[..n];
      var d := Clause(init, family).value;
      assert AllValid(init);
      ClauseLengths(init, family);
      AttrsGiven(init, family, RTA_GATEWAY);
      FamilyOfPrefix(opts, family, n, n);
      LengthsOfPrefix(opts, family, n, n);
      LengthsConcat(d.hop.items, ItemsOf(opts[n], d.family));
      OptionLengths(opts, family, n);
    }
  }

  lemma NoLength()
    ensures Space([]) == 0 && Recorded([]) == 0
  {
  }

  /** `nexthop via A realms R` with a DECnet address: the realms do not survive. */
  lemma DecnetRealmsAreLost(a: byte, b: byte, realm: nat)
    requires realm < TWO_32
    ensures var d := Clause([Via(12, [a, b]), Realms(realm)], 12);
            d.Some? && !Survives(d.value.hop.items)
  {
    var opts := [Via(12, [a, b]), Realms(realm)];
    assert opts[..1] == [opts[0]] && opts[..1][..0] == [];
    var first := Take(Draft(Hop([], 0, 0, 0), 12), opts[0]).value;
    assert Clause(opts[..1], 12) == Some(first);
    var items := first.hop.items + ItemsOf(opts[1], 12);
    assert items == [Item(Attr(RTA_GATEWAY, [a, b]), true), Item(Attr(RTA_FLOW, PutU32(realm)), true)];
    UnalignedGatewayLosesRealms([a, b], PutU32(realm));
  }
}
