/** `ip address show`: links and addresses are stored in two lists, links without a wanted address
    are cut out of theirs in place, and every link left is printed with its addresses. */
module LinkFilter {
  import opened Wrappers
  import opened LinkedChain
  import opened Sequences

  const RTM_NEWADDR: nat := 20
  const RTM_DELADDR: nat := 21
  const AF_UNSPEC: nat := 0
  const AF_PACKET: nat := 17

  /** `NLMSG_LENGTH(sizeof(struct ifaddrmsg))`. */
  const ADDRESS_HEADER: nat := 24

  /** One stored message, `struct nlmsg_list`. `up` is read from links only, what follows it from
      addresses only; an attribute the message lacks is `None`. */
  datatype Message = Message(kind: nat, len: nat, index: int, up: bool,
                             family: nat, scope: bv32, shortFlags: bv32, flags: Option<bv32>,
                             tag: Option<string>, local: Option<string>, address: Option<string>)

  /** `filter`. The label pattern and the prefix are given by what they match. */
  datatype Filter = Filter(family: nat, ifindex: int, up: bool, scope: bv32, scopemask: bv32,
                           flags: bv32, flagmask: bv32,
                           labelled: (int, Option<string>) -> bool, prefixed: Option<string> -> bool)

  function Flags(a: Message): bv32 {
    if a.flags.Some? then a.flags.value else a.shortFlags
  }

  /** The address the prefix is compared with. */
  function Local(a: Message): Option<string> {
    if a.local.None? then a.address else a.local
  }

  predicate Differ(x: bv32, y: bv32, mask: bv32) {
    (x ^ y) & mask != 0
  }

  predicate ScopeOk(f: Filter, a: Message) {
    !Differ(f.scope, a.scope, f.scopemask)
  }

  predicate FlagsOk(f: Filter, a: Message) {
    !Differ(f.flags, Flags(a), f.flagmask)
  }

  predicate LabelOk(f: Filter, a: Message) {
    f.labelled(a.index, a.tag)
  }

  predicate PrefixOk(f: Filter, a: Message) {
    f.prefixed(Local(a))
  }

  predicate FamilyOk(f: Filter, a: Message) {
    f.family == AF_UNSPEC || f.family == a.family
  }

  // ---------------------------------------------------------------- store_nlmsg

  /** The tail pointer names the last cell. */
  ghost predicate TailAgrees<T>(a: Anchor<T>, s: seq<Cell<T>>)
    reads a
  {
    a.tail == if s == [] then null else s[|s| - 1]
  }

  /** `store_nlmsg`: append through the tail pointer. */
  method StoreNlmsg<T>(a: Anchor<T>, v: T, ghost s: seq<Cell<T>>) returns (ghost r: seq<Cell<T>>)
    requires Chain(a, s) && TailAgrees(a, s)
    modifies a, if s == [] then {} else {s[|s| - 1]}
    ensures Chain(a, r) && TailAgrees(a, r) && Values(r) == Values(s) + [v]
    ensures |r| == |s| + 1 && r[..|s|] == s && fresh(r[|s|])
  {
    var h := new Cell<T>(v);
    if a.tail != null {
      a.tail.next := h;
    } else {
      a.head := h;
    }
    a.tail := h;
    r := s + [h];
  }

  // ---------------------------------------------------------------- ipaddr_filter

  /** The tests of the inner loop after the interface comparison. */
  predicate Wanted(f: Filter, a: Message) {
    FamilyOk(f, a) && ScopeOk(f, a) && FlagsOk(f, a) && LabelOk(f, a) && PrefixOk(f, a)
  }

  /** The words have the same bits where the mask has bits. */
  predicate Agree(x: bv32, y: bv32, mask: bv32) {
    x & mask == y & mask
  }

  lemma XorZero(u: bv32, v: bv32)
    ensures u ^ v == 0 <==> u == v
  {
  }

  lemma XorUnder(x: bv32, y: bv32, mask: bv32)
    ensures (x ^ y) & mask == (x & mask) ^ (y & mask)
  {
  }

  lemma MaskedXor(x: bv32, y: bv32, mask: bv32)
    ensures (x ^ y) & mask == 0 <==> x & mask == y & mask
  {
    XorZero(x & mask, y & mask);
    XorUnder(x, y, mask);
  }

  lemma DifferMeaning(x: bv32, y: bv32, mask: bv32)
    ensures Differ(x, y, mask) <==> !Agree(x, y, mask)
  {
    MaskedXor(x, y, mask);
  }

  /** A zero mask asks for nothing. */
  lemma NoMask(x: bv32, y: bv32)
    ensures !Differ(x, y, 0)
  {
  }

  /** A full mask asks for equality. */
  lemma FullMask(x: bv32, y: bv32)
    ensures Differ(x, y, 0xffff_ffff) <==> x != y
  {
    AllOnes(x ^ y);
    XorZero(x, y);
  }

  lemma AllOnes(u: bv32)
    ensures u & 0xffff_ffff == u
  {
  }

  /** An address is wanted if and only if its family is asked for, its scope and its flags agree under
      their masks, and its label and its address match. IFA_FLAGS goes before the flags of the header
      and IFA_LOCAL before IFA_ADDRESS. */
  lemma WantedMeaning(f: Filter, a: Message)
    ensures Wanted(f, a) <==>
              && (f.family == 0 || f.family == a.family)
              && Agree(f.scope, a.scope, f.scopemask)
              && (a.flags.Some? ==> Agree(f.flags, a.flags.value, f.flagmask))
              && (a.flags.None? ==> Agree(f.flags, a.shortFlags, f.flagmask))
              && f.labelled(a.index, a.tag)
              && (a.local.Some? ==> f.prefixed(a.local)) && (a.local.None? ==> f.prefixed(a.address))
  {
    hide Agree, Differ;
    DifferMeaning(f.scope, a.scope, f.scopemask);
    DifferMeaning(f.flags, Flags(a), f.flagmask);
  }

  ghost predicate HasAddress(index: int, vs: seq<Message>) {
    exists i :: 0 <= i < |vs| && vs[i].index == index
  }

  ghost predicate HasWanted(f: Filter, index: int, vs: seq<Message>) {
    exists i :: 0 <= i < |vs| && vs[i].index == index && Wanted(f, vs[i])
  }

  /** A link stays when it has a wanted address, or no address at all and links are asked for. */
  ghost predicate Stays(f: Filter, index: int, vs: seq<Message>) {
    HasWanted(f, index, vs) || (!HasAddress(index, vs) && (f.family == AF_UNSPEC || f.family == AF_PACKET))
  }

  /** The inner loop over the addresses. */
  method Judge(f: Filter, index: int, ainfo: Anchor<Message>, ghost sa: seq<Cell<Message>>) returns (ok: bool)
    requires Chain(ainfo, sa)
    ensures ok == Stays(f, index, Values(sa))
  {
    hide NoRepeats, Wanted;
    ok := false;
    var missing := true;
    var a := ainfo.head;
    ghost var i := 0;
    ghost var vs := Values(sa);
    while a != null && !ok
      invariant i <= |sa|
      invariant !ok ==> a == CellAt(sa, i)
      invariant ok ==> HasWanted(f, index, vs) && HasAddress(index, vs)
      invariant !ok ==> forall j :: 0 <= j < i ==> !(vs[j].index == index && Wanted(f, vs[j]))
      invariant !ok ==> (missing <==> forall j :: 0 <= j < i ==> vs[j].index != index)
      invariant ok ==> !missing
      decreases |sa| - i, !ok
    {
      assert vs[i] == a.value;
      if a.value.index != index {
        a := a.next;
      } else {
        missing := false;
        if Wanted(f, a.value) {
          ok := true;
        } else {
          a := a.next;
        }
      }
      i := i + 1;
    }
    if missing && (f.family == AF_UNSPEC || f.family == AF_PACKET) {
      ok := true;
    }
  }

  /** The cells of the links that stay, in order. */
  ghost function Kept(f: Filter, s: seq<Cell<Message>>, vs: seq<Message>): seq<Cell<Message>> {
    if s == [] then []
    else Kept(f, s[..|s| - 1], vs) + (if Stays(f, s[|s| - 1].value.index, vs) then [s[|s| - 1]] else [])
  }

  /** Before cell `i` is judged: what was kept so far, and the rest. */
  ghost function Partly(f: Filter, s: seq<Cell<Message>>, vs: seq<Message>, i: nat): seq<Cell<Message>>
    requires i <= |s|
  {
    Kept(f, s[..i], vs) + s[i..]
  }

  ghost function Position(f: Filter, s: seq<Cell<Message>>, vs: seq<Message>, i: nat): nat
    requires i <= |s|
  {
    |Kept(f, s[..i], vs)|
  }

  lemma PartlyAt(f: Filter, s: seq<Cell<Message>>, vs: seq<Message>, i: nat)
    requires i <= |s|
    ensures var r, k := Partly(f, s, vs, i), Position(f, s, vs, i);
            if i < |s| then k < |r| && r[k] == s[i] && CellAt(r, k) == s[i] else k == |r| && CellAt(r, k) == null
  {
    hide Stays, Kept;
  }

  lemma PartlyKept(f: Filter, s: seq<Cell<Message>>, vs: seq<Message>, i: nat)
    requires i < |s| && Stays(f, s[i].value.index, vs)
    ensures Partly(f, s, vs, i + 1) == Partly(f, s, vs, i) && Position(f, s, vs, i + 1) == Position(f, s, vs, i) + 1
  {
    hide Stays;
    assert s[..i + 1][..i] == s[..i];
  }

  lemma PartlyCut(f: Filter, s: seq<Cell<Message>>, vs: seq<Message>, i: nat)
    requires i < |s| && !Stays(f, s[i].value.index, vs)
    ensures Position(f, s, vs, i + 1) == Position(f, s, vs, i) < |Partly(f, s, vs, i)|
    ensures Partly(f, s, vs, i + 1) == RemoveAt(Partly(f, s, vs, i), Position(f, s, vs, i))
  {
    hide Stays;
    assert s[..i + 1][..i] == s[..i];
  }

  lemma PartlyEnds(f: Filter, s: seq<Cell<Message>>, vs: seq<Message>)
    ensures Partly(f, s, vs, 0) == s && Position(f, s, vs, 0) == 0 && Partly(f, s, vs, |s|) == Kept(f, s, vs)
  {
    hide Stays;
    assert s[..|s|] == s;
  }

  lemma {:induction false} KeptMembers(f: Filter, s: seq<Cell<Message>>, vs: seq<Message>, j: nat)
    requires j < |Kept(f, s, vs)|
    ensures Kept(f, s, vs)[j] in s
  {
    hide Stays;
    if j < |Kept(f, s[..|s| - 1], vs)| {
      KeptMembers(f, s[..|s| - 1], vs, j);
    }
  }

  /** The links that stay, as values. */
  ghost function Staying(f: Filter, links: seq<Message>, vs: seq<Message>): seq<Message> {
    if links == [] then []
    else (if Stays(f, links[0].index, vs) then [links[0]] else []) + Staying(f, links[1..], vs)
  }

  lemma {:induction false} StayingSnoc(f: Filter, links: seq<Message>, x: Message, vs: seq<Message>)
    ensures Staying(f, links + [x], vs) == Staying(f, links, vs) + (if Stays(f, x.index, vs) then [x] else [])
  {
    hide Stays;
    if links != [] {
      StayingSnoc(f, links[1..], x, vs);
      assert (links + [x])[1..] == links[1..] + [x];
    }
  }

  lemma {:induction false} KeptValues(f: Filter, s: seq<Cell<Message>>, vs: seq<Message>)
    ensures Values(Kept(f, s, vs)) == Staying(f, Values(s), vs)
  {
    hide Stays;
    if s != [] {
      var init, last := s[..|s| - 1], s[|s| - 1];
      KeptValues(f, init, vs);
      assert Values(s) == Values(init) + [last.value];
      StayingSnoc(f, Values(init), last.value, vs);
    }
  }

  /** Deletion does not touch the tail pointer, so it is right afterwards exactly when the last link
      stayed. */
  lemma TailAfterwards(f: Filter, s: seq<Cell<Message>>, vs: seq<Message>)
    requires NoRepeats(s) && s != []
    ensures var r := Kept(f, s, vs);
            (r != [] && r[|r| - 1] == s[|s| - 1]) <==> Stays(f, s[|s| - 1].value.index, vs)
  {
    hide Stays;
    var r := Kept(f, s, vs);
    var init := s[..|s| - 1];
    if !Stays(f, s[|s| - 1].value.index, vs) && r != [] {
      KeptMembers(f, init, vs, |r| - 1);
      var j :| 0 <= j < |init| && init[j] == r[|r| - 1];
      Different(s, j, |s| - 1);
    }
  }

  lemma SameLink(s: seq<Cell<Message>>, k: nat)
    requires k < |s|
    ensures |RemoveAt(s, k)| == |s| - 1 && LinkBefore(RemoveAt(s, k), k) == LinkBefore(s, k)
    ensures forall j :: 0 <= j < |s| - 1 ==> RemoveAt(s, k)[j] in s
  {
  }

  /** The outer loop. */
  method CutLinks(f: Filter, linfo: Anchor<Message>, ainfo: Anchor<Message>, ghost sl: seq<Cell<Message>>,
                  ghost sa: seq<Cell<Message>>)
    returns (ghost r: seq<Cell<Message>>)
    requires Chain(linfo, sl) && Chain(ainfo, sa) && linfo != ainfo && forall c :: c in sl ==> c !in sa
    modifies linfo`head, sl`next
    ensures Chain(linfo, r) && r == Kept(f, sl, Values(sa))
  {
    hide *;
    ghost var vs := Values(sa);
    ghost var i := 0;
    r := sl;
    PartlyEnds(f, sl, vs);
    PartlyAt(f, sl, vs, 0);
    var lp: Link<Message> := AtHead;
    FirstLink(r);
    LinkTarget(linfo, r, 0);
    var l := Get(linfo, lp);
    while l != null
      invariant i <= |sl| && r == Partly(f, sl, vs, i)
      invariant Chain(linfo, r) && Chain(ainfo, sa)
      invariant Position(f, sl, vs, i) <= |r| && lp == LinkBefore(r, Position(f, sl, vs, i))
      invariant l == CellAt(r, Position(f, sl, vs, i)) && (i < |sl| <==> l != null)
      invariant forall j :: 0 <= j < |r| ==> r[j] in sl
      decreases |sl| - i
    {
      PartlyAt(f, sl, vs, i);
      PartlyAt(f, sl, vs, i + 1);
      ghost var k := Position(f, sl, vs, i);
      var ok := Judge(f, l.value.index, ainfo, sa);
      if !ok {
        PartlyCut(f, sl, vs, i);
        RemoveHere(linfo, lp, l, r, k);
        SameLink(r, k);
        r := RemoveAt(r, k);
        LinkTarget(linfo, r, k);
      } else {
        PartlyKept(f, sl, vs, i);
        lp := AtNext(l);
        NextLink(r, k, l);
        LinkTarget(linfo, r, k + 1);
      }
      l := Get(linfo, lp);
      i := i + 1;
    }
  }

  lemma NextLink(s: seq<Cell<Message>>, k: nat, l: Cell<Message>)
    requires k < |s| && s[k] == l
    ensures LinkBefore(s, k + 1) == AtNext(l)
  {
  }

  lemma FirstLink(s: seq<Cell<Message>>)
    ensures LinkBefore(s, 0) == AtHead
  {
  }

  /** `ipaddr_filter`. */
  method IpaddrFilter(f: Filter, linfo: Anchor<Message>, ainfo: Anchor<Message>, ghost sl: seq<Cell<Message>>,
                      ghost sa: seq<Cell<Message>>)
    returns (ghost r: seq<Cell<Message>>)
    requires Chain(linfo, sl) && Chain(ainfo, sa) && linfo != ainfo && forall c :: c in sl ==> c !in sa
    modifies linfo`head, sl`next
    ensures Chain(linfo, r) && Values(r) == Staying(f, Values(sl), Values(sa))
    ensures old(TailAgrees(linfo, sl)) ==>
              (TailAgrees(linfo, r) <==> sl == [] || Stays(f, sl[|sl| - 1].value.index, Values(sa)))
  {
    hide Stays, Staying, NoRepeats, Values;
    if sl != [] {
      TailAfterwards(f, sl, Values(sa));
    }
    KeptValues(f, sl, Values(sa));
    r := CutLinks(f, linfo, ainfo, sl, sa);
  }

  // ---------------------------------------------------------------- print_selected_addrinfo

  /** The tests of `print_addrinfo`, in its own order: does it print the message? */
  predicate Accepts(f: Filter, a: Message) {
    && (a.kind == RTM_NEWADDR || a.kind == RTM_DELADDR)
    && a.len >= ADDRESS_HEADER
    && (f.ifindex == 0 || f.ifindex == a.index)
    && ScopeOk(f, a) && FlagsOk(f, a) && FamilyOk(f, a) && LabelOk(f, a) && PrefixOk(f, a)
  }

  /** A truncated address: the printer gives up on it. */
  predicate Short(a: Message) {
    a.kind == RTM_NEWADDR && a.len < ADDRESS_HEADER
  }

  /** Is `a` printed under the link, when the printer gets that far? */
  ghost predicate Belongs(f: Filter, l: Message, a: Message) {
    && a.kind == RTM_NEWADDR && a.index == l.index && Wanted(f, a)
    && (f.ifindex == 0 || f.ifindex == l.index)
    && (f.up ==> l.up)
  }

  /** The addresses that belong to the link up to the first truncated one. */
  ghost function Printable(f: Filter, l: Message, vs: seq<Message>): seq<Message> {
    if vs == [] || Short(vs[0]) then []
    else (if Belongs(f, l, vs[0]) then [vs[0]] else []) + Printable(f, l, vs[1..])
  }

  /** `print_selected_addrinfo`. */
  method PrintSelected(f: Filter, l: Message, ainfo: Anchor<Message>, ghost sa: seq<Cell<Message>>)
    returns (ok: bool, printed: seq<Message>)
    requires Chain(ainfo, sa)
    ensures printed == Printable(f, l, Values(sa))
    ensures ok <==> forall i :: 0 <= i < |sa| ==> !Short(sa[i].value)
  {
    hide Chain, CellAt, Values, Short, Accepts, Belongs, Printable;
    ok, printed := true, [];
    Visit(ainfo, sa, 0);
    var a := ainfo.head;
    ghost var i := 0;
    ghost var vs := Values(sa);
    assert vs[0..] == vs;
    while a != null && ok
      invariant i <= |sa| && a == CellAt(sa, i) && (a == null ==> i == |sa|)
      invariant ok ==> printed + Printable(f, l, vs[i..]) == Printable(f, l, vs)
      invariant !ok ==> i < |sa| && Short(sa[i].value) && printed == Printable(f, l, vs)
      invariant forall j :: 0 <= j < i ==> !Short(sa[j].value)
      decreases |sa| - i, ok
    {
      Visit(ainfo, sa, i);
      PrintableNext(f, l, vs, i, printed);
      var n := a.value;
      ShortMeans(n);
      if n.kind == RTM_NEWADDR && n.len < ADDRESS_HEADER {
        ok := false;
      } else {
        Testing(f, l, n);
        if n.kind != RTM_NEWADDR {
        } else if n.index != l.index || (f.family != AF_UNSPEC && f.family != n.family) {
        } else if f.up && !l.up {
        } else if Accepts(f, n) {
          printed := printed + [n];
        }
        a := a.next;
        i := i + 1;
        Visit(ainfo, sa, i);
      }
    }
    if ok {
      assert vs[i..] == [];
      PrintableNothing(f, l, printed);
    }
  }

  lemma ShortMeans(n: Message)
    ensures Short(n) <==> n.kind == RTM_NEWADDR && n.len < ADDRESS_HEADER
  {
  }

  /** The tests of both functions, one after the other, let through what belongs to the link. */
  lemma Testing(f: Filter, l: Message, n: Message)
    requires !Short(n)
    ensures Belongs(f, l, n) <==>
              && n.kind == RTM_NEWADDR && n.index == l.index && (f.family == AF_UNSPEC || f.family == n.family)
              && !(f.up && !l.up) && Accepts(f, n)
  {
  }

  lemma PrintableNext(f: Filter, l: Message, vs: seq<Message>, i: nat, printed: seq<Message>)
    requires i < |vs|
    ensures printed + Printable(f, l, vs[i..])
            == if Short(vs[i]) then printed
               else if Belongs(f, l, vs[i]) then printed + [vs[i]] + Printable(f, l, vs[i + 1..])
               else printed + Printable(f, l, vs[i + 1..])
  {
    hide Belongs;
    assert vs[i..][0] == vs[i] && vs[i..][1..] == vs[i + 1..];
  }

  lemma PrintableNothing(f: Filter, l: Message, printed: seq<Message>)
    ensures printed + Printable(f, l, []) == printed
  {
  }

  ghost predicate PrintsAt(f: Filter, l: Message, vs: seq<Message>, i: nat)
    requires i < |vs|
  {
    Belongs(f, l, vs[i]) && forall j :: 0 <= j <= i ==> !Short(vs[j])
  }

  /** Something is printed exactly when an address belongs to the link and none is truncated before. */
  lemma {:induction false} PrintsSomething(f: Filter, l: Message, vs: seq<Message>)
    ensures Printable(f, l, vs) != [] <==> exists i :: 0 <= i < |vs| && PrintsAt(f, l, vs, i)
  {
    hide Belongs, Short;
    if vs != [] {
      var rest := vs[1..];
      PrintsSomething(f, l, rest);
      assert forall i :: 0 < i < |vs| ==> vs[i] == rest[i - 1];
      if i :| 0 <= i < |rest| && PrintsAt(f, l, rest, i) {
        assert !Short(vs[0]) ==> PrintsAt(f, l, vs, i + 1);
      }
      if i :| 0 <= i < |vs| && PrintsAt(f, l, vs, i) {
        assert !Short(vs[0]);
        assert i > 0 ==> PrintsAt(f, l, rest, i - 1) by {
          assert forall j :: 0 <= j < i ==> rest[j] == vs[j + 1];
        }
        assert i == 0 ==> Belongs(f, l, vs[0]);
      }
      assert Belongs(f, l, vs[0]) && !Short(vs[0]) ==> PrintsAt(f, l, vs, 0);
    }
  }

  /** A link that stays prints an address, or has none at all: given whole address messages and no
      interface or state filter, the two sets of tests agree. */
  lemma StayingLinkPrints(f: Filter, l: Message, vs: seq<Message>)
    requires f.ifindex == 0 && !f.up
    requires forall i :: 0 <= i < |vs| ==> vs[i].kind == RTM_NEWADDR && vs[i].len >= ADDRESS_HEADER
    ensures Stays(f, l.index, vs)
            <==> || Printable(f, l, vs) != []
                 || (!HasAddress(l.index, vs) && (f.family == AF_UNSPEC || f.family == AF_PACKET))
  {
    hide Wanted;
    PrintsSomething(f, l, vs);
    if HasWanted(f, l.index, vs) {
      var i :| 0 <= i < |vs| && vs[i].index == l.index && Wanted(f, vs[i]);
      assert PrintsAt(f, l, vs, i);
    }
  }
}
