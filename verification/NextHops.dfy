/** Multipath next hops of `ip route`: the bytes of RTA_MULTIPATH as `parse_nexthops` and
    `parse_one_nh` lay them out, and as `print_rta_multipath` walks them. */
module NextHops {
  import opened Wrappers
  import opened Bytes
  import opened Sequences

  const RTA_GATEWAY := 5
  const RTA_FLOW := 11
  const RTA_VIA := 18
  const RTA_NEWDST := 19
  const RTA_MAX := 26
  const RTNH_F_ONLINK := 4
  const RTNH_BYTES: nat := 8
  const RTA_HEADER: nat := 4

  datatype Attr = Attr(kind: nat, payload: seq<byte>)

  /** An attribute together with how `rtnh_len` is advanced for it: by its exact length, or by its
      length rounded up to four. `rta_len` is always advanced by the rounded length. */
  datatype Item = Item(attr: Attr, exact: bool)

  ghost predicate ValidAttr(a: Attr) {
    a.kind < TWO_16 && RTA_HEADER + |a.payload| < TWO_16
  }

  /** `RTA_LENGTH` of the attribute. */
  function Length(a: Attr): nat {
    RTA_HEADER + |a.payload|
  }

  function Counted(i: Item): nat {
    if i.exact then Length(i.attr) else Align4(Length(i.attr))
  }

  /** The advance of `rta_len` over some items. */
  function Space(items: seq<Item>): (n: nat)
    ensures n % 4 == 0
  {
    if items == [] then 0 else Align4(Length(items[0].attr)) + Space(items[1..])
  }

  /** The advance of `rtnh_len` over the same items. */
  function Recorded(items: seq<Item>): nat {
    if items == [] then 0 else Counted(items[0]) + Recorded(items[1..])
  }

  function Attrs(items: seq<Item>): (r: seq<Attr>)
    ensures |r| == |items|
  {
    if items == [] then [] else [items[0].attr] + Attrs(items[1..])
  }

  ghost predicate ValidItems(items: seq<Item>) {
    forall i :: 0 <= i < |items| ==> ValidAttr(items[i].attr)
  }

  /** `b` begins with this attribute. */
  ghost predicate StartsWith(b: seq<byte>, a: Attr) {
    && ValidAttr(a) && Length(a) <= |b|
    && GetU16(b, 0) == Length(a) && GetU16(b, 2) == a.kind
    && b[RTA_HEADER..Length(a)] == a.payload
  }

  /** `b` holds exactly these attributes, each padded to four bytes with whatever was there. */
  ghost predicate HoldsItems(b: seq<byte>, items: seq<Item>) {
    if items == [] then b == []
    else
      var n := Align4(Length(items[0].attr));
      n <= |b| && StartsWith(b, items[0].attr) && HoldsItems(b[n..], items[1..])
  }

  /** `parse_rtattr` as a list: `RTA_OK`, then `RTA_NEXT`. */
  function ParseAttrs(b: seq<byte>): seq<Attr>
    decreases |b|
  {
    if |b| >= RTA_HEADER && RTA_HEADER <= GetU16(b, 0) <= |b| then
      var n := GetU16(b, 0);
      [Attr(GetU16(b, 2), b[RTA_HEADER..n])] + (if Align4(n) <= |b| then ParseAttrs(b[Align4(n)..]) else [])
    else
      []
  }

  /** `tb[kind]`: the first attribute of the kind. */
  function FirstOf(attrs: seq<Attr>, kind: nat): Option<seq<byte>> {
    if attrs == [] then None
    else if attrs[0].kind == kind then Some(attrs[0].payload)
    else FirstOf(attrs[1..], kind)
  }

  lemma {:induction false} FirstOfConcat(a: seq<Attr>, b: seq<Attr>, kind: nat)
    ensures FirstOf(a + b, kind) == if FirstOf(a, kind).Some? then FirstOf(a, kind) else FirstOf(b, kind)
  {
    if a == [] {
      assert a + b == b;
    } else {
      assert (a + b)[1..] == a[1..] + b;
      FirstOfConcat(a[1..], b, kind);
    }
  }

  lemma {:induction false} FirstOfHas(attrs: seq<Attr>, kind: nat)
    ensures FirstOf(attrs, kind).Some? <==> HasKind(attrs, kind)
  {
    if attrs != [] {
      FirstOfHas(attrs[1..], kind);
      assert attrs == [attrs[0]] + attrs[1..];
    }
  }

  /** The first of its kind is at the first position of its kind. */
  lemma {:induction false} FirstOfAt(attrs: seq<Attr>, kind: nat, i: nat)
    requires i < |attrs| && attrs[i].kind == kind && forall j :: 0 <= j < i ==> attrs[j].kind != kind
    ensures FirstOf(attrs, kind) == Some(attrs[i].payload)
  {
    if i > 0 {
      FirstOfAt(attrs[1..], kind, i - 1);
    }
  }

  /** The table has the first attribute of each known kind. */
  lemma {:induction false} TabledFirst(attrs: seq<Attr>, kind: nat)
    requires kind <= RTA_MAX
    ensures FirstOf(Tabled(attrs), kind) == FirstOf(attrs, kind)
  {
    if attrs != [] {
      var init, a := attrs[..|attrs| - 1], attrs[|attrs| - 1];
      TabledFirst(init, kind);
      assert attrs == init + [a];
      FirstOfConcat(init, [a], kind);
      FirstOfConcat(Tabled(init), [a], kind);
      FirstOfHas(Tabled(init), kind);
    }
  }

  /** The table of `parse_rtattr`: of each known kind the first attribute, in order of appearance. */
  function Tabled(attrs: seq<Attr>): (r: seq<Attr>)
    ensures |r| <= |attrs|
  {
    if attrs == [] then []
    else
      var a, before := attrs[|attrs| - 1], Tabled(attrs[..|attrs| - 1]);
      if a.kind <= RTA_MAX && !HasKind(before, a.kind) then before + [a] else before
  }

  predicate HasKind(attrs: seq<Attr>, kind: nat) {
    exists i :: 0 <= i < |attrs| && attrs[i].kind == kind
  }

  /** Known kinds, and none of them twice. */
  predicate KindsDiffer(attrs: seq<Attr>) {
    && (forall i :: 0 <= i < |attrs| ==> attrs[i].kind <= RTA_MAX)
    && (forall i, j :: 0 <= i < j < |attrs| ==> attrs[i].kind != attrs[j].kind)
  }

  /** The table holds all attributes exactly when their kinds are known and differ. */
  lemma {:induction false} TabledKeepsAll(attrs: seq<Attr>)
    ensures Tabled(attrs) == attrs <==> KindsDiffer(attrs)
  {
    if attrs != [] {
      var init, a := attrs[..|attrs| - 1], attrs[|attrs| - 1];
      TabledKeepsAll(init);
      assert attrs == init + [a];
      KindsDifferSnoc(init, a);
      if Tabled(attrs) == attrs {
        assert Tabled(init) == attrs[..|attrs| - 1];
      }
    }
  }

  lemma KindsDifferSnoc(attrs: seq<Attr>, a: Attr)
    ensures KindsDiffer(attrs + [a]) <==> KindsDiffer(attrs) && a.kind <= RTA_MAX && !HasKind(attrs, a.kind)
  {
    var r, n := attrs + [a], |attrs|;
    assert r[n] == a && forall i :: 0 <= i < n ==> r[i] == attrs[i];
    if KindsDiffer(r) {
      forall i, j | 0 <= i < j < n ensures attrs[i].kind != attrs[j].kind {
        assert r[i].kind != r[j].kind;
      }
      forall i | 0 <= i < n ensures attrs[i].kind != a.kind {
        assert r[i].kind != r[n].kind;
      }
    }
  }

  /** Of two gateways the first is shown. */
  lemma SecondGatewayIsIgnored(first: seq<byte>, second: seq<byte>)
    ensures Tabled([Attr(RTA_GATEWAY, first), Attr(RTA_GATEWAY, second)]) == [Attr(RTA_GATEWAY, first)]
  {
    var attrs := [Attr(RTA_GATEWAY, first), Attr(RTA_GATEWAY, second)];
    assert attrs[..1] == [attrs[0]] && attrs[..1][..0] == [];
    assert Tabled(attrs[..1]) == [attrs[0]];
    assert Tabled(attrs[..1])[0].kind == RTA_GATEWAY;
  }

  /** The last attribute ends within the first `limit` bytes. */
  predicate LastFits(items: seq<Item>, limit: nat)
    requires items != []
  {
    Space(items[..|items| - 1]) + Length(items[|items| - 1].attr) <= limit
  }

  lemma LastFitsHead(items: seq<Item>, limit: nat)
    requires items != []
    ensures var n := Align4(Length(items[0].attr));
            LastFits(items, limit) <==>
              if |items| == 1 then Length(items[0].attr) <= limit else n <= limit && LastFits(items[1..], limit - n)
  {
    var init := items[..|items| - 1];
    assert |items| > 1 ==> init[0] == items[0] && init[1..] == items[1..][..|items| - 2];
  }

  /** One step of the attribute walk over the first `limit` bytes. */
  lemma ParseStep(b: seq<byte>, a: Attr, limit: nat)
    requires StartsWith(b, a) && limit <= |b|
    ensures var n := Align4(Length(a));
            ParseAttrs(b[..limit]) ==
              if limit < Length(a) then []
              else if limit < n then [a]
              else [a] + ParseAttrs(b[n..][..limit - n])
  {
    hide Align4, GetU16, ParseAttrs;
    var c, n := b[..limit], Align4(Length(a));
    if Length(a) <= limit {
      SameU16(c, b, 0);
      SameU16(c, b, 2);
      assert c[RTA_HEADER..Length(a)] == b[RTA_HEADER..Length(a)];
      assert n <= limit ==> c[n..] == b[n..][..limit - n];
      ParseFirst(c, a);
    } else {
      if limit >= RTA_HEADER {
        SameU16(c, b, 0);
      }
      ParseTooShort(c, a);
    }
  }

  lemma SameU16(b: seq<byte>, c: seq<byte>, at: nat)
    requires at + 2 <= |b| && at + 2 <= |c| && b[at] == c[at] && b[at + 1] == c[at + 1]
    ensures GetU16(b, at) == GetU16(c, at)
  {
  }

  lemma ParseFirst(c: seq<byte>, a: Attr)
    requires StartsWith(c, a)
    ensures var n := Align4(Length(a));
            ParseAttrs(c) == [a] + if n <= |c| then ParseAttrs(c[n..]) else []
  {
    hide Align4;
  }

  lemma ParseTooShort(c: seq<byte>, a: Attr)
    requires |c| < RTA_HEADER || (GetU16(c, 0) == Length(a) && |c| < Length(a))
    ensures ParseAttrs(c) == []
  {
  }

  /** Parsing only the first `limit` bytes recovers the attributes exactly when the last one ends
      within them: otherwise attributes are lost from the end. */
  lemma {:induction false} ParsesWhatFits(b: seq<byte>, items: seq<Item>, limit: nat)
    requires HoldsItems(b, items) && limit <= |b|
    ensures ParseAttrs(b[..limit]) == Attrs(items) <==> (items == [] || LastFits(items, limit))
    ensures items == [] || LastFits(items, limit) || |ParseAttrs(b[..limit])| < |items|
    decreases |items|
  {
    if items == [] {
      assert b[..limit] == [];
    } else {
      hide ParseAttrs, StartsWith, LastFits, Length, Align4, LastFits;
      var a := items[0].attr;
      var n := Align4(Length(a));
      ParseStep(b, a, limit);
      LastFitsHead(items, limit);
      if n <= limit {
        ParsesWhatFits(b[n..], items[1..], limit - n);
        Cancel([a], ParseAttrs(b[n..][..limit - n]), Attrs(items[1..]));
      }
    }
  }

  // ---------------------------------------------------------------- the two running lengths

  /** The attributes of a next hop survive: the last one ends within `rtnh_len`. */
  predicate Survives(items: seq<Item>) {
    items == [] || LastFits(items, Recorded(items))
  }

  lemma {:induction false} SpaceSnoc(items: seq<Item>, x: Item)
    ensures Space(items + [x]) == Space(items) + Align4(Length(x.attr))
    ensures Recorded(items + [x]) == Recorded(items) + Counted(x)
    ensures Attrs(items + [x]) == Attrs(items) + [x.attr]
  {
    if items != [] {
      assert (items + [x])[0] == items[0] && (items + [x])[1..] == items[1..] + [x];
      SpaceSnoc(items[1..], x);
    } else {
      assert items + [x] == [x] && [x][1..] == [];
    }
  }

  lemma {:induction false} RecordedWithinSpace(items: seq<Item>)
    ensures Recorded(items) <= Space(items)
  {
    if items != [] {
      RecordedWithinSpace(items[1..]);
    }
  }

  /** When the attributes survive, rounding `rtnh_len` up leads to where `rta_len` stands: the next
      `rtnexthop` starts at byte `rta_len`. */
  lemma SurvivingStaysInStep(items: seq<Item>)
    requires Survives(items)
    ensures Align4(RTNH_BYTES + Recorded(items)) == RTNH_BYTES + Space(items)
  {
    if items != [] {
      LastDecides(items);
    }
  }

  lemma LastDecides(items: seq<Item>)
    requires items != [] && LastFits(items, Recorded(items))
    ensures Align4(RTNH_BYTES + Recorded(items)) == RTNH_BYTES + Space(items)
  {
    var last := |items| - 1;
    RecordedWithinSpace(items);
    SpaceSnoc(items[..last], items[last]);
    assert items[..last] + [items[last]] == items;
    RoundsUp(Recorded(items), Space(items));
  }

  lemma RoundsUp(r: nat, a: nat)
    requires a % 4 == 0 && r <= a < r + 4
    ensures Align4(RTNH_BYTES + r) == RTNH_BYTES + a
  {
  }

  /** Lengths that are multiples of four always survive, and so does a single attribute. */
  lemma AlignedSurvives(items: seq<Item>)
    requires forall i :: 0 <= i < |items| && items[i].exact ==> |items[i].attr.payload| % 4 == 0
    ensures Recorded(items) == Space(items) && Survives(items)
  {
    hide Recorded, Space;
    AlignedRecorded(items);
    if items != [] {
      var last := |items| - 1;
      SpaceSnoc(items[..last], items[last]);
      assert items[..last] + [items[last]] == items;
    }
  }

  lemma {:induction false} AlignedRecorded(items: seq<Item>)
    requires forall i :: 0 <= i < |items| && items[i].exact ==> |items[i].attr.payload| % 4 == 0
    ensures Recorded(items) == Space(items)
  {
    if items != [] {
      AlignedRecorded(items[1..]);
    }
  }

  /** A two-byte gateway followed by realms: what `ip -f dnet route add ... nexthop via A realms R`
      records is two bytes short, and the realms are lost. */
  lemma UnalignedGatewayLosesRealms(gateway: seq<byte>, realms: seq<byte>)
    requires |gateway| == 2 && |realms| == 4
    ensures !Survives([Item(Attr(RTA_GATEWAY, gateway), true), Item(Attr(RTA_FLOW, realms), true)])
  {
    var a, b := Item(Attr(RTA_GATEWAY, gateway), true), Item(Attr(RTA_FLOW, realms), true);
    assert Space([]) == 0 && Recorded([]) == 0;
    hide Space, Recorded;
    SpaceSnoc([], a);
    SpaceSnoc([a], b);
    assert [] + [a] == [a] && [a] + [b] == [a, b] && [a, b][..1] == [a];
  }

  lemma {:induction false} HoldsItemsSnoc(b: seq<byte>, items: seq<Item>, c: seq<byte>, x: Item)
    requires HoldsItems(b, items) && StartsWith(c, x.attr) && |c| == Align4(Length(x.attr))
    ensures HoldsItems(b + c, items + [x])
    decreases |items|
  {
    hide StartsWith, Length, Align4;
    if items == [] {
      assert b + c == c && items + [x] == [x] && [x][1..] == [];
    } else {
      var n := Align4(Length(items[0].attr));
      assert (items + [x])[0] == items[0] && (items + [x])[1..] == items[1..] + [x];
      HoldsItemsSnoc(b[n..], items[1..], c, x);
      assert (b + c)[n..] == b[n..] + c;
      StartsWithMore(b, c, items[0].attr);
    }
  }

  lemma StartsWithMore(b: seq<byte>, c: seq<byte>, a: Attr)
    requires StartsWith(b, a)
    ensures StartsWith(b + c, a)
  {
    assert (b + c)[RTA_HEADER..Length(a)] == b[RTA_HEADER..Length(a)];
  }

  // ---------------------------------------------------------------- next hops

  datatype Hop = Hop(items: seq<Item>, flags: byte, hops: byte, ifindex: nat)

  /** What the walk shows of one next hop. */
  datatype Seen = Seen(flags: byte, hops: byte, ifindex: nat, attrs: seq<Attr>)

  function Size(h: Hop): (n: nat)
    ensures n >= RTNH_BYTES
  {
    RTNH_BYTES + Space(h.items)
  }

  function RtnhLen(h: Hop): nat {
    RTNH_BYTES + Recorded(h.items)
  }

  /** `struct rtnexthop`. */
  function Header(len: nat, flags: byte, hops: byte, ifindex: nat): (b: seq<byte>)
    requires len < TWO_16 && ifindex < TWO_32
    ensures |b| == RTNH_BYTES
  {
    PutU16(len) + [flags, hops] + PutU32(ifindex)
  }

  ghost predicate ValidHop(h: Hop) {
    ValidItems(h.items) && RtnhLen(h) < TWO_16 && h.ifindex < TWO_32
  }

  /** `b` begins with next hop `h` as far as the walk looks at it: its header, and its attributes
      up to `rtnh_len`. */
  ghost predicate ShowsHop(b: seq<byte>, h: Hop, stored: seq<byte>) {
    && ValidHop(h) && RtnhLen(h) <= |b|
    && b[..RTNH_BYTES] == Header(RtnhLen(h), h.flags, h.hops, h.ifindex)
    && HoldsItems(stored, h.items) && Recorded(h.items) <= |stored|
    && b[RTNH_BYTES..RtnhLen(h)] == stored[..Recorded(h.items)]
  }

  /** What `print_rta_multipath` shows: `None` when it would loop forever on a zero length. */
  function Walk(b: seq<byte>): Option<seq<Seen>>
    decreases |b|
  {
    if |b| < RTNH_BYTES then Some([])
    else
      var n := GetU16(b, 0);
      if n > |b| then Some([])
      else if n == 0 then None
      else
        Prepend(FirstSeen(b), if Align4(n) <= |b| then Walk(b[Align4(n)..]) else Some([]))
  }

  /** The next hop at the start of `b`. */
  function FirstSeen(b: seq<byte>): Seen
    requires RTNH_BYTES <= |b| && GetU16(b, 0) <= |b|
  {
    var n := GetU16(b, 0);
    Seen(b[2], b[3], GetU32(b, 4), if n > RTNH_BYTES then Tabled(ParseAttrs(b[RTNH_BYTES..n])) else [])
  }

  function Prepend(x: Seen, rest: Option<seq<Seen>>): Option<seq<Seen>> {
    match rest case None => None case Some(s) => Some([x] + s)
  }

  /** The attributes of a next hop that the walk shows. */
  ghost function ShownAttrs(h: Hop, stored: seq<byte>): seq<Attr>
    requires Recorded(h.items) <= |stored|
  {
    Tabled(ParseAttrs(stored[..Recorded(h.items)]))
  }

  /** The walk reads a next hop correctly exactly when its attributes survive and no kind is given
      twice; when they survive, it shows their table. */
  lemma WalkReadsHop(b: seq<byte>, h: Hop, stored: seq<byte>)
    requires ShowsHop(b, h, stored)
    ensures var n := RtnhLen(h);
            Walk(b) == Prepend(Seen(h.flags, h.hops, h.ifindex, ShownAttrs(h, stored)),
                               if Align4(n) <= |b| then Walk(b[Align4(n)..]) else Some([]))
    ensures ShownAttrs(h, stored) == Attrs(h.items) <==> Survives(h.items) && KindsDiffer(Attrs(h.items))
    ensures Survives(h.items) ==> ShownAttrs(h, stored) == Tabled(Attrs(h.items))
  {
    hide KindsDiffer, Tabled;
    HeaderFields(b, RtnhLen(h), h.flags, h.hops, h.ifindex);
    ParsesWhatFits(stored, h.items, Recorded(h.items));
    TabledKeepsAll(Attrs(h.items));
    NothingTabled();
    if Recorded(h.items) == 0 {
      assert stored[..0] == [] && ParseAttrs([]) == [];
    }
  }

  lemma NothingTabled()
    ensures Tabled([]) == []
  {
  }

  lemma HeaderFields(b: seq<byte>, len: nat, flags: byte, hops: byte, ifindex: nat)
    requires len < TWO_16 && ifindex < TWO_32 && |b| >= RTNH_BYTES
    requires b[..RTNH_BYTES] == Header(len, flags, hops, ifindex)
    ensures GetU16(b, 0) == len && b[2] == flags && b[3] == hops && GetU32(b, 4) == ifindex
  {
    var c := b[..RTNH_BYTES];
    U32RoundTrip(ifindex, []);
    assert c[4..8] == PutU32(ifindex);
    assert GetU32(b, 4) == GetU32(PutU32(ifindex) + [], 0);
    assert c[0] == len % 256 && c[1] == len / 256 && c[2] == flags && c[3] == hops;
  }

  // ---------------------------------------------------------------- lists of next hops

  /** `b` holds these next hops in step, one starting where the space of the previous one ends. */
  ghost predicate HoldsHops(b: seq<byte>, hs: seq<Hop>) {
    if hs == [] then b == []
    else
      var n := Size(hs[0]);
      n <= |b| && ShowsHop(b, hs[0], b[RTNH_BYTES..n]) && HoldsHops(b[n..], hs[1..])
  }

  predicate AllSurvive(hs: seq<Hop>) {
    forall i :: 0 <= i < |hs| ==> Survives(hs[i].items)
  }

  /** No next hop is given an attribute of one kind twice. */
  predicate AllDiffer(hs: seq<Hop>) {
    forall i :: 0 <= i < |hs| ==> KindsDiffer(Attrs(hs[i].items))
  }

  /** What the user asked for: every attribute given. */
  function Expected(hs: seq<Hop>): (r: seq<Seen>)
    ensures |r| == |hs|
  {
    seq(|hs|, i requires 0 <= i < |hs| => Seen(hs[i].flags, hs[i].hops, hs[i].ifindex, Attrs(hs[i].items)))
  }

  /** What the walk shows of next hops that survive. */
  function Tables(hs: seq<Hop>): (r: seq<Seen>)
    ensures |r| == |hs|
  {
    if hs == [] then [] else [SeenOf(hs[0])] + Tables(hs[1..])
  }

  function SeenOf(h: Hop): Seen {
    Seen(h.flags, h.hops, h.ifindex, Tabled(Attrs(h.items)))
  }

  lemma {:induction false} TablesAt(hs: seq<Hop>, i: nat)
    requires i < |hs|
    ensures Tables(hs)[i] == SeenOf(hs[i])
  {
    if i > 0 {
      TablesAt(hs[1..], i - 1);
    }
  }

  lemma TablesAreExpected(hs: seq<Hop>)
    ensures Tables(hs) == Expected(hs) <==> AllDiffer(hs)
  {
    hide Tabled, Attrs, KindsDiffer, Tables;
    forall i | 0 <= i < |hs| ensures Tables(hs)[i] == Expected(hs)[i] <==> KindsDiffer(Attrs(hs[i].items)) {
      TablesAt(hs, i);
      TabledKeepsAll(Attrs(hs[i].items));
    }
    if Tables(hs) == Expected(hs) {
      forall i | 0 <= i < |hs| ensures KindsDiffer(Attrs(hs[i].items)) {
        assert Tables(hs)[i] == Expected(hs)[i];
      }
    }
  }

  function PrependAll(xs: seq<Seen>, rest: Option<seq<Seen>>): Option<seq<Seen>> {
    match rest case None => None case Some(s) => Some(xs + s)
  }

  lemma WalkSurvivor(b: seq<byte>, h: Hop)
    requires Size(h) <= |b| && ShowsHop(b, h, b[RTNH_BYTES..Size(h)]) && Survives(h.items)
    ensures Walk(b) == Prepend(SeenOf(h), Walk(b[Size(h)..]))
  {
    hide Walk, ParseAttrs, ShowsHop, Align4, Space, Recorded, Attrs, Survives, Tabled, ShownAttrs, KindsDiffer;
    WalkReadsHop(b, h, b[RTNH_BYTES..Size(h)]);
    SurvivingStaysInStep(h.items);
  }

  lemma PrependMore(x: Seen, xs: seq<Seen>, rest: Option<seq<Seen>>)
    ensures Prepend(x, PrependAll(xs, rest)) == PrependAll([x] + xs, rest)
  {
    match rest {
      case None =>
      case Some(s) => assert [x] + (xs + s) == [x] + xs + s;
    }
  }

  /** Next hops that are in step and survive are read back one by one. */
  lemma {:induction false} WalkHops(b: seq<byte>, p: nat, hs: seq<Hop>)
    requires p <= |b| && HoldsHops(b[..p], hs) && AllSurvive(hs)
    ensures Walk(b) == PrependAll(Tables(hs), Walk(b[p..]))
    decreases |hs|
  {
    hide Walk, ShowsHop, Survives, Size, SeenOf;
    if hs == [] {
      assert b[p..] == b;
      match Walk(b) { case None => case Some(s) => assert [] + s == s; }
    } else {
      var h, n := hs[0], Size(hs[0]);
      assert b[..p] + b[p..] == b && b[RTNH_BYTES..n] == b[..p][RTNH_BYTES..n];
      ShowsMore(b[..p], b[p..], h, b[RTNH_BYTES..n]);
      assert Survives(h.items);
      WalkSurvivor(b, h);
      assert b[n..][..p - n] == b[..p][n..] && b[n..][p - n..] == b[p..];
      WalkHops(b[n..], p - n, hs[1..]);
      PrependMore(SeenOf(h), Tables(hs[1..]), Walk(b[p..]));
    }
  }

  lemma ShowsMore(b: seq<byte>, c: seq<byte>, h: Hop, stored: seq<byte>)
    requires ShowsHop(b, h, stored)
    ensures ShowsHop(b + c, h, stored)
  {
    assert (b + c)[..RTNH_BYTES] == b[..RTNH_BYTES];
    assert (b + c)[RTNH_BYTES..RtnhLen(h)] == b[RTNH_BYTES..RtnhLen(h)];
  }

  lemma {:induction false} HoldsHopsSnoc(b: seq<byte>, hs: seq<Hop>, c: seq<byte>, h: Hop)
    requires HoldsHops(b, hs) && |c| == Size(h) && ShowsHop(c, h, c[RTNH_BYTES..Size(h)])
    ensures HoldsHops(b + c, hs + [h])
    decreases |hs|
  {
    hide ShowsHop, Size, HoldsHops;
    HoldsFirst(b, hs);
    HoldsFirst(b + c, hs + [h]);
    if hs == [] {
      assert b + c == c && hs + [h] == [h] && [h][1..] == [] && c[Size(h)..] == [];
      HoldsFirst(c[Size(h)..], [h][1..]);
    } else {
      var n := Size(hs[0]);
      assert (hs + [h])[0] == hs[0] && (hs + [h])[1..] == hs[1..] + [h];
      HoldsHopsSnoc(b[n..], hs[1..], c, h);
      assert (b + c)[n..] == b[n..] + c && (b + c)[RTNH_BYTES..n] == b[RTNH_BYTES..n];
      ShowsMore(b, c, hs[0], b[RTNH_BYTES..n]);
    }
  }

  lemma HoldsFirst(b: seq<byte>, hs: seq<Hop>)
    ensures HoldsHops(b, hs)
            <==> if hs == [] then b == []
                 else
                   && Size(hs[0]) <= |b| && ShowsHop(b, hs[0], b[RTNH_BYTES..Size(hs[0])])
                   && HoldsHops(b[Size(hs[0])..], hs[1..])
  {
  }

  /** One next hop whose attributes do not survive spoils the whole list. */
  lemma BrokenHopShows(b: seq<byte>, p: nat, hs: seq<Hop>, f: nat, stored: seq<byte>)
    requires f < |hs| && p <= |b|
    requires HoldsHops(b[..p], hs[..f]) && AllSurvive(hs[..f])
    requires ShowsHop(b[p..], hs[f], stored) && !Survives(hs[f].items)
    ensures Walk(b) != Some(Expected(hs))
  {
    hide Walk, KindsDiffer, ShownAttrs, Survives, Attrs, Tables, ShowsHop, HoldsHops;
    WalkHops(b, p, hs[..f]);
    WalkReadsHop(b[p..], hs[f], stored);
    assert Walk(b).Some? ==> Walk(b).value[f] == Walk(b[p..]).value[0];
  }

  // ---------------------------------------------------------------- termination

  /** Where the walk finds its `i`-th next hop: each length before it is not zero, within what is
      left, and rounded up to four still so. */
  function Offset(b: seq<byte>, i: nat): (r: Option<nat>)
    ensures r.Some? ==> r.value <= |b|
    decreases i
  {
    if i == 0 then Some(0)
    else if |b| < RTNH_BYTES then None
    else
      var n := Align4(GetU16(b, 0));
      if GetU16(b, 0) == 0 || n > |b| then None
      else
        match Offset(b[n..], i - 1)
        case None => None
        case Some(o) => Some(n + o)
  }

  /** The `i`-th next hop has a header, and its length is zero. */
  predicate ZeroAt(b: seq<byte>, i: nat) {
    var o := Offset(b, i);
    o.Some? && o.value + RTNH_BYTES <= |b| && GetU16(b, o.value) == 0
  }

  ghost predicate ReachesZero(b: seq<byte>) {
    exists i: nat :: ZeroAt(b, i)
  }

  /** A list that begins with a zero length is never left. */
  lemma ZeroLoops(b: seq<byte>)
    requires |b| >= RTNH_BYTES && b[0] == 0 && b[1] == 0
    ensures Walk(b) == None
  {
  }

  lemma ZeroFurther(b: seq<byte>, n: nat, i: nat)
    requires |b| >= RTNH_BYTES && GetU16(b, 0) > 0 && n == Align4(GetU16(b, 0)) <= |b|
    ensures ZeroAt(b, i + 1) <==> ZeroAt(b[n..], i)
  {
    var o := Offset(b[n..], i);
    if o.Some? && o.value + RTNH_BYTES <= |b[n..]| {
      assert b[n..][o.value] == b[n + o.value] && b[n..][o.value + 1] == b[n + o.value + 1];
    }
  }

  /** The walk loops forever exactly when the chain of lengths reaches a next hop of length zero. */
  lemma {:induction false} LoopsForever(b: seq<byte>)
    ensures Walk(b) == None <==> ReachesZero(b)
    decreases |b|
  {
    if |b| >= RTNH_BYTES && 0 < Align4(GetU16(b, 0)) <= |b| {
      var n := Align4(GetU16(b, 0));
      LoopsForever(b[n..]);
      if i: nat :| ZeroAt(b, i) {
        assert i > 0;
        ZeroFurther(b, n, i - 1);
      }
      if i: nat :| ZeroAt(b[n..], i) {
        ZeroFurther(b, n, i);
        assert ZeroAt(b, i + 1);
      }
    } else if |b| >= RTNH_BYTES && GetU16(b, 0) == 0 {
      assert ZeroAt(b, 0);
    } else {
      forall i: nat ensures !ZeroAt(b, i) {
      }
    }
  }

  /** `print_rta_multipath` as it runs: a cursor and a signed remaining length. It is called on bytes
      on which it terminates, which `LoopsForever` shows to be all that reach no zero length. */
  method ShowNextHops(b: seq<byte>) returns (seen: seq<Seen>)
    requires !ReachesZero(b)
    ensures Walk(b) == Some(seen)
  {
    hide Walk, FirstSeen, ReachesZero;
    LoopsForever(b);
    seen := [];
    var nh, len: int := 0, |b|;
    ghost var rest := b;
    assert Walk(b) == PrependAll([], Walk(b)) by {
      assert [] + Walk(b).value == Walk(b).value;
    }
    while len >= RTNH_BYTES && GetU16(b[nh..], 0) <= len
      invariant 0 <= nh && len <= |b| && nh + len == |b|
      invariant if len >= 0 then rest == b[nh..] else rest == []
      invariant Walk(b) == PrependAll(seen, Walk(rest))
      decreases len
    {
      var n := GetU16(b[nh..], 0);
      var x := FirstSeen(b[nh..]);
      WalkStep(rest);
      ghost var next := if Align4(n) <= |rest| then rest[Align4(n)..] else [];
      PrependLast(seen, x, Walk(next));
      seen := seen + [x];
      len, nh := len - Align4(n), nh + Align4(n);
      assert len >= 0 ==> next == b[nh..];
      rest := next;
    }
    WalkEnd(rest);
    assert seen + [] == seen;
  }

  lemma WalkStep(b: seq<byte>)
    requires RTNH_BYTES <= |b| && GetU16(b, 0) <= |b| && Walk(b).Some?
    ensures var n := GetU16(b, 0);
            n > 0 && Walk(b) == Prepend(FirstSeen(b), Walk(if Align4(n) <= |b| then b[Align4(n)..] else []))
  {
  }

  lemma WalkEnd(b: seq<byte>)
    requires |b| < RTNH_BYTES || GetU16(b, 0) > |b|
    ensures Walk(b) == Some([])
  {
  }

  lemma PrependLast(xs: seq<Seen>, x: Seen, rest: Option<seq<Seen>>)
    ensures PrependAll(xs, Prepend(x, rest)) == PrependAll(xs + [x], rest)
  {
    match rest {
      case None =>
      case Some(s) => assert xs + ([x] + s) == xs + [x] + s;
    }
  }
}
