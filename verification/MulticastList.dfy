/** `ip maddr show`: entries from three files are inserted into one list sorted by interface, and the
    printer opens a group whenever the interface changes. */
module MulticastList {
  import opened LinkedChain
  import opened StableSort
  import opened Sequences

  /** `struct ma_info`: the interface index and whatever else is printed. */
  datatype Maddr = Maddr(index: int, what: nat)

  const AF_INET: nat := 2
  const AF_INET6: nat := 10
  const AF_PACKET: nat := 17

  const INDEX: Maddr -> int := (m: Maddr) => m.index

  /** Where `maddr_ins` inserts: in front of the first entry with a greater index. */
  ghost function InsertPoint(vs: seq<Maddr>, index: int): (k: nat)
    ensures k <= |vs|
    ensures forall i :: 0 <= i < k ==> vs[i].index <= index
    ensures k < |vs| ==> vs[k].index > index
  {
    if vs == [] || vs[0].index > index then 0 else 1 + InsertPoint(vs[1..], index)
  }

  ghost function Inserted(vs: seq<Maddr>, x: Maddr): seq<Maddr> {
    InsertAt(vs, InsertPoint(vs, x.index), x)
  }

  /** `maddr_ins`. */
  method MaddrIns(a: Anchor<Maddr>, m: Cell<Maddr>, ghost s: seq<Cell<Maddr>>) returns (ghost r: seq<Cell<Maddr>>)
    requires Chain(a, s) && m !in s
    modifies a`head, m`next, s`next
    ensures Chain(a, r) && Values(r) == Inserted(Values(s), m.value)
    ensures forall i :: 0 <= i < |r| ==> r[i] == m || r[i] in s
  {
    hide NoRepeats, InsertAt;
    var lp: Link<Maddr> := AtHead;
    ghost var k := 0;
    LinkTarget(a, s, 0);
    var mp := a.head;
    while mp != null && mp.value.index <= m.value.index
      invariant k <= |s| && lp == LinkBefore(s, k) && mp == CellAt(s, k)
      invariant forall i :: 0 <= i < k ==> s[i].value.index <= m.value.index
      decreases |s| - k
    {
      lp := AtNext(mp);
      mp := mp.next;
      k := k + 1;
    }
    PointIsUnique(Values(s), m.value.index, k);
    InsertKeepsValues(a, s, k, m);
    InsertMembers(s, k, m);
    InsertHere(a, lp, m, s, k);
    r := InsertAt(s, k, m);
  }

  lemma PointIsUnique(vs: seq<Maddr>, index: int, k: nat)
    requires k <= |vs| && (forall i :: 0 <= i < k ==> vs[i].index <= index) && (k < |vs| ==> vs[k].index > index)
    ensures k == InsertPoint(vs, index)
  {
  }

  lemma InsertMembers(s: seq<Cell<Maddr>>, k: nat, m: Cell<Maddr>)
    requires k <= |s|
    ensures forall i :: 0 <= i < |InsertAt(s, k, m)| ==> InsertAt(s, k, m)[i] == m || InsertAt(s, k, m)[i] in s
  {
  }

  lemma InsertKeepsValues(a: Anchor<Maddr>, s: seq<Cell<Maddr>>, k: nat, m: Cell<Maddr>)
    requires Chain(a, s) && k <= |s| && m !in s
    ensures Values(InsertAt(s, k, m)) == InsertAt(Values(s), k, m.value)
  {
    InsertKeeps(s, k, m);
  }

  // ---------------------------------------------------------------- the list is a stable sort

  ghost function InsertAll(vs: seq<Maddr>, xs: seq<Maddr>): seq<Maddr> {
    if xs == [] then vs else Inserted(InsertAll(vs, xs[..|xs| - 1]), xs[|xs| - 1])
  }

  lemma InsertedSorted(vs: seq<Maddr>, x: Maddr)
    requires Sorted(vs, INDEX)
    ensures Sorted(Inserted(vs, x), INDEX)
  {
    var k := InsertPoint(vs, x.index);
    var r := Inserted(vs, x);
    forall i, j | 0 <= i < j < |r| ensures KeyOf(INDEX, r[i]) <= KeyOf(INDEX, r[j]) {
      var i', j' := if i < k then i else i - 1, if j < k then j else j - 1;
      assert i != k ==> r[i] == vs[i'];
      assert j != k ==> r[j] == vs[j'];
      assert i != k && j != k && i' < j' ==> KeyOf(INDEX, vs[i']) <= KeyOf(INDEX, vs[j']);
      assert j > k && k < j' ==> KeyOf(INDEX, vs[k]) <= KeyOf(INDEX, vs[j']);
    }
  }

  /** The new entry goes behind all entries of its own interface. */
  lemma InsertedOfKey(vs: seq<Maddr>, x: Maddr, k: int)
    requires Sorted(vs, INDEX)
    ensures OfKey(Inserted(vs, x), INDEX, k) == OfKey(vs, INDEX, k) + (if x.index == k then [x] else [])
  {
    var p := InsertPoint(vs, x.index);
    var a, b := vs[..p], vs[p..];
    assert vs == a + b && Inserted(vs, x) == a + [x] + b;
    if x.index == k {
      NoneBehind(vs, p, k);
    }
    hide OfKey, Inserted;
    OfKeyConcat(a, b, INDEX, k);
    OfKeyConcat(a + [x], b, INDEX, k);
    OfKeySnoc(a, x, INDEX, k);
  }

  lemma NoneBehind(vs: seq<Maddr>, p: nat, k: int)
    requires Sorted(vs, INDEX) && p <= |vs| && (p < |vs| ==> vs[p].index > k)
    ensures OfKey(vs[p..], INDEX, k) == []
  {
    var b := vs[p..];
    if OfKey(b, INDEX, k) != [] {
      OfKeyMembers(b, INDEX, k, 0);
    }
  }

  /** Whatever the order of the files, the list is the stable sort of what they contain. */
  lemma {:induction false} ListIsAStableSort(xs: seq<Maddr>)
    ensures IsStableSort(InsertAll([], xs), xs, INDEX)
  {
    if xs != [] {
      var x, init := xs[|xs| - 1], xs[..|xs| - 1];
      ListIsAStableSort(init);
      var vs := InsertAll([], init);
      InsertedSorted(vs, x);
      forall k ensures OfKey(Inserted(vs, x), INDEX, k) == OfKey(xs, INDEX, k) {
        InsertedOfKey(vs, x, k);
        OfKeySnoc(init, x, INDEX, k);
        assert xs == init + [x];
      }
    }
  }

  lemma {:induction false} InsertAllConcat(vs: seq<Maddr>, xs: seq<Maddr>, ys: seq<Maddr>)
    ensures InsertAll(InsertAll(vs, xs), ys) == InsertAll(vs, xs + ys)
    decreases |ys|
  {
    if ys == [] {
      assert xs + ys == xs;
    } else {
      assert (xs + ys)[..|xs + ys| - 1] == xs + ys[..|ys| - 1];
      InsertAllConcat(vs, xs, ys[..|ys| - 1]);
    }
  }

  lemma InsertAllStart(vs: seq<Maddr>, xs: seq<Maddr>)
    ensures InsertAll(vs, xs[..0]) == vs
  {
  }

  lemma InsertAllNext(vs: seq<Maddr>, xs: seq<Maddr>, j: nat)
    requires j < |xs|
    ensures InsertAll(vs, xs[..j + 1]) == Inserted(InsertAll(vs, xs[..j]), xs[j])
  {
    assert xs[..j + 1][..j] == xs[..j] && xs[..j + 1][j] == xs[j];
  }

  /** One reader: `maddr_ins` for each of its entries. */
  method Read(a: Anchor<Maddr>, xs: seq<Maddr>, ghost s: seq<Cell<Maddr>>) returns (ghost r: seq<Cell<Maddr>>)
    requires Chain(a, s)
    modifies a`head, s`next
    ensures Chain(a, r) && Values(r) == InsertAll(Values(s), xs)
    ensures forall i :: 0 <= i < |r| ==> r[i] in s || fresh(r[i])
  {
    hide Inserted, InsertAll, Values, NoRepeats;
    r := s;
    InsertAllStart(Values(s), xs);
    for j := 0 to |xs|
      invariant Chain(a, r) && Values(r) == InsertAll(Values(s), xs[..j])
      invariant forall i :: 0 <= i < |r| ==> r[i] in s || fresh(r[i])
    {
      InsertAllNext(Values(s), xs, j);
      var m := new Cell<Maddr>(xs[j]);
      r := MaddrIns(a, m, r);
    }
    assert xs[..|xs|] == xs;
  }

  // ---------------------------------------------------------------- print_mlist

  /** What the printer emits: it opens and closes one JSON object with an array per group. */
  datatype Event = Open(index: int) | Line(m: Maddr) | Close

  /** The loop of `print_mlist` from the entry at hand on, given `cur_index`. */
  function Printed(vs: seq<Maddr>, cur: int, oneline: bool): seq<Event> {
    if vs == [] then (if cur != 0 then [Close] else [])
    else Header(vs[0], cur, oneline) + [Line(vs[0])] + Printed(vs[1..], vs[0].index, oneline)
  }

  function Header(m: Maddr, cur: int, oneline: bool): seq<Event> {
    if m.index == cur && !oneline then []
    else if cur != 0 then [Close, Open(m.index)]
    else [Open(m.index)]
  }

  /** `print_mlist`. */
  method PrintMlist(a: Anchor<Maddr>, oneline: bool, ghost s: seq<Cell<Maddr>>) returns (out: seq<Event>)
    requires Chain(a, s)
    ensures out == Printed(Values(s), 0, oneline)
  {
    hide Printed, Header, Chain, CellAt, Values;
    out := [];
    var cur := 0;
    Visit(a, s, 0);
    var list := a.head;
    ghost var k := 0;
    ghost var vs := Values(s);
    assert vs[0..] == vs;
    while list != null
      invariant k <= |s| && list == CellAt(s, k) && (list == null ==> k == |s|)
      invariant out + Printed(vs[k..], cur, oneline) == Printed(vs, 0, oneline)
      decreases |s| - k
    {
      ghost var before, c := out, cur;
      Visit(a, s, k);
      if list.value.index != cur || oneline {
        if cur != 0 {
          out := out + [Close];
        }
        out := out + [Open(list.value.index)];
        cur := list.value.index;
      }
      out := out + [Line(list.value)];
      PrintOne(before, vs, k, c, oneline);
      list := list.next;
      k := k + 1;
      Visit(a, s, k);
    }
    assert vs[k..] == [];
    PrintNone(cur, oneline);
    assert out + [] == out;
    if cur != 0 {
      out := out + [Close];
    }
  }

  lemma PrintNone(cur: int, oneline: bool)
    ensures Printed([], cur, oneline) == if cur != 0 then [Close] else []
  {
  }

  lemma PrintOne(out: seq<Event>, vs: seq<Maddr>, k: nat, cur: int, oneline: bool)
    requires k < |vs|
    ensures out + Printed(vs[k..], cur, oneline)
            == out + (if vs[k].index != cur || oneline then (if cur != 0 then [Close] else []) + [Open(vs[k].index)]
                      else [])
                   + [Line(vs[k])] + Printed(vs[k + 1..], vs[k].index, oneline)
  {
    assert vs[k..][0] == vs[k] && vs[k..][1..] == vs[k + 1..];
  }

  // ---------------------------------------------------------------- groups

  /** A reader of the events: outside of any group, or inside the group of one interface. It breaks
      on a line of another interface or outside of any group, and on a group inside a group. */
  datatype Nesting = Outside | Inside(index: int) | Broken

  function Step(n: Nesting, e: Event): Nesting {
    match (n, e)
    case (Outside, Open(i)) => Inside(i)
    case (Inside(i), Line(m)) => if m.index == i then n else Broken
    case (Inside(_), Close) => Outside
    case _ => Broken
  }

  function Nest(n: Nesting, es: seq<Event>): Nesting
    decreases |es|
  {
    if es == [] then n else Nest(Step(n, es[0]), es[1..])
  }

  lemma {:induction false} NestConcat(n: Nesting, es: seq<Event>, fs: seq<Event>)
    ensures Nest(n, es + fs) == Nest(Nest(n, es), fs)
    decreases |es|
  {
    if es == [] {
      assert es + fs == fs;
    } else {
      assert (es + fs)[1..] == es[1..] + fs;
      NestConcat(Step(n, es[0]), es[1..], fs);
    }
  }

  lemma {:induction false} BrokenStays(es: seq<Event>)
    ensures Nest(Broken, es) == Broken
  {
    if es != [] {
      BrokenStays(es[1..]);
    }
  }

  function GroupOf(cur: int): Nesting {
    if cur != 0 then Inside(cur) else Outside
  }

  lemma HeaderNests(m: Maddr, cur: int, oneline: bool)
    ensures Nest(GroupOf(cur), Header(m, cur, oneline) + [Line(m)])
            == if m.index == 0 && cur == 0 && !oneline then Broken else Inside(m.index)
  {
    hide Nest;
    var n := GroupOf(cur);
    NestConcat(n, Header(m, cur, oneline), [Line(m)]);
    NestOne(Nest(n, Header(m, cur, oneline)), Line(m));
    if m.index != cur || oneline {
      NestOne(Outside, Open(m.index));
      NestOne(n, Close);
      NestConcat(n, [Close], [Open(m.index)]);
      assert [Close] + [Open(m.index)] == [Close, Open(m.index)];
    } else {
      NestEmpty(n);
    }
  }

  lemma NestOne(n: Nesting, e: Event)
    ensures Nest(n, [e]) == Step(n, e)
  {
  }

  /** Every group opened is closed, and every line stands in the group of its interface, exactly
      when no entry has interface index zero: zero cannot be told from "no group open". */
  lemma {:induction false} GroupsNest(vs: seq<Maddr>, cur: int, oneline: bool)
    ensures Nest(GroupOf(cur), Printed(vs, cur, oneline)) == Outside <==> forall i :: 0 <= i < |vs| ==> vs[i].index != 0
    decreases |vs|
  {
    hide Nest, Header;
    if vs == [] {
      PrintNone(cur, oneline);
      NestNothing(cur);
    } else {
      var v, rest := vs[0], vs[1..];
      var h, tail := Header(v, cur, oneline) + [Line(v)], Printed(rest, v.index, oneline);
      assert forall i :: 0 < i < |vs| ==> vs[i] == rest[i - 1];
      HeaderNests(v, cur, oneline);
      NestConcat(GroupOf(cur), h, tail);
      if v.index == 0 {
        BrokenStays(tail);
        ZeroBreaks(rest, oneline);
      } else {
        GroupsNest(rest, v.index, oneline);
      }
    }
  }

  lemma NestNothing(cur: int)
    ensures Nest(GroupOf(cur), if cur != 0 then [Close] else []) == Outside
  {
    if cur != 0 {
      assert [Close][1..] == [];
    }
  }

  /** After an entry with index zero its group is never closed. */
  lemma {:induction false} ZeroBreaks(vs: seq<Maddr>, oneline: bool)
    ensures Nest(Inside(0), Printed(vs, 0, oneline)) != Outside
    decreases |vs|
  {
    hide Nest;
    if vs == [] {
      NestEmpty(Inside(0));
    } else {
      var v, rest := vs[0], vs[1..];
      var tail := Printed(rest, v.index, oneline);
      var es := Printed(vs, 0, oneline);
      if v.index != 0 || oneline {
        assert es[0] == Open(v.index);
        NestFirst(Inside(0), es);
        BrokenStays(es[1..]);
      } else {
        assert es == [Line(v)] + tail && es[1..] == tail;
        NestFirst(Inside(0), es);
        ZeroBreaks(rest, oneline);
      }
    }
  }

  lemma NestEmpty(n: Nesting)
    ensures Nest(n, []) == n
  {
  }

  lemma NestFirst(n: Nesting, es: seq<Event>)
    requires es != []
    ensures Nest(n, es) == Nest(Step(n, es[0]), es[1..])
  {
  }

  /** The interfaces for which a group is opened, in order. */
  function Opened(es: seq<Event>): seq<int> {
    if es == [] then []
    else (if es[0].Open? then [es[0].index] else []) + Opened(es[1..])
  }

  lemma {:induction false} OpenedConcat(es: seq<Event>, fs: seq<Event>)
    ensures Opened(es + fs) == Opened(es) + Opened(fs)
  {
    hide Opened;
    if es == [] {
      OpenedNone();
      assert es + fs == fs;
    } else {
      assert (es + fs)[1..] == es[1..] + fs;
      OpenedConcat(es[1..], fs);
      OpenedFirst(es);
      OpenedFirst(es + fs);
    }
  }

  lemma OpenedFirst(es: seq<Event>)
    requires es != []
    ensures Opened(es) == (if es[0].Open? then [es[0].index] else []) + Opened(es[1..])
  {
  }

  lemma HeaderOpens(m: Maddr, cur: int)
    ensures Opened(Header(m, cur, false) + [Line(m)]) == if m.index == cur then [] else [m.index]
  {
    hide Opened;
    OpenedConcat(Header(m, cur, false), [Line(m)]);
    OpenedNone();
    OpenedOne(m);
    if m.index != cur {
      OpenedConcat([Close], [Open(m.index)]);
      assert [Close] + [Open(m.index)] == [Close, Open(m.index)];
    }
  }

  lemma OpenedOne(m: Maddr)
    ensures Opened([Open(m.index)]) == [m.index] && Opened([Line(m)]) == []
  {
  }

  ghost predicate Increasing(ks: seq<int>) {
    forall i, j :: 0 <= i < j < |ks| ==> ks[i] < ks[j]
  }

  ghost predicate AnyWith(vs: seq<Maddr>, k: int) {
    exists i :: 0 <= i < |vs| && vs[i].index == k
  }

  /** A sorted list of positive indices gets one group per interface: no interface twice, none left
      out, none invented. */
  lemma {:induction false} OneGroupPerInterface(vs: seq<Maddr>, cur: int)
    requires Sorted(vs, INDEX) && forall i :: 0 <= i < |vs| ==> vs[i].index >= cur
    ensures Increasing(Opened(Printed(vs, cur, false)))
    ensures forall k :: k in Opened(Printed(vs, cur, false)) <==> k != cur && AnyWith(vs, k)
    decreases |vs|
  {
    hide Opened, Header, Increasing, Sorted;
    if vs == [] {
      PrintNone(cur, false);
      OpenedNone();
    } else {
      var v, rest := vs[0], vs[1..];
      var h, tail := Header(v, cur, false) + [Line(v)], Printed(rest, v.index, false);
      HeaderOpens(v, cur);
      OpenedConcat(h, tail);
      RestSorted(vs);
      OneGroupPerInterface(rest, v.index);
      GroupInFront(vs, cur, Opened(tail));
    }
  }

  lemma GroupInFront(vs: seq<Maddr>, cur: int, kt: seq<int>)
    requires vs != [] && (forall i :: 0 <= i < |vs| ==> vs[i].index >= vs[0].index >= cur)
    requires Increasing(kt) && forall k :: k in kt <==> k != vs[0].index && AnyWith(vs[1..], k)
    ensures var ks := (if vs[0].index == cur then [] else [vs[0].index]) + kt;
            Increasing(ks) && forall k :: k in ks <==> k != cur && AnyWith(vs, k)
  {
    hide AnyWith;
    var v := vs[0];
    forall k ensures AnyWith(vs, k) <==> k == v.index || AnyWith(vs[1..], k) {
      AnyWithFirst(vs, k);
    }
    forall j | 0 <= j < |kt| ensures kt[j] > v.index {
      assert kt[j] in kt;
      AnyWithFirst(vs, kt[j]);
    }
    assert [] + kt == kt;
  }

  lemma AnyWithFirst(vs: seq<Maddr>, k: int)
    requires vs != []
    ensures AnyWith(vs, k) <==> k == vs[0].index || AnyWith(vs[1..], k)
    ensures AnyWith(vs, k) && (forall i :: 0 <= i < |vs| ==> vs[i].index >= vs[0].index) ==> k >= vs[0].index
  {
    if AnyWith(vs[1..], k) {
      var i :| 0 <= i < |vs[1..]| && vs[1..][i].index == k;
      assert vs[i + 1].index == k;
    }
    assert forall i :: 0 < i < |vs| ==> vs[i] == vs[1..][i - 1];
  }

  lemma OpenedNone()
    ensures Opened([]) == [] && Opened([Close]) == [] && Increasing([])
  {
  }

  lemma RestSorted(vs: seq<Maddr>)
    requires Sorted(vs, INDEX) && vs != []
    ensures Sorted(vs[1..], INDEX) && forall i :: 0 <= i < |vs[1..]| ==> vs[1..][i].index >= vs[0].index
  {
    forall i | 0 <= i < |vs[1..]| ensures vs[1..][i].index >= vs[0].index {
      assert KeyOf(INDEX, vs[0]) <= KeyOf(INDEX, vs[i + 1]);
    }
  }

  lemma SameInterfaces(vs: seq<Maddr>, xs: seq<Maddr>, k: int)
    requires IsStableSort(vs, xs, INDEX) && AnyWith(vs, k)
    ensures AnyWith(xs, k)
  {
    hide OfKey;
    var i :| 0 <= i < |vs| && vs[i].index == k;
    OfKeyFinds(vs, INDEX, i);
    OfKeyMembers(xs, INDEX, k, 0);
  }

  /** What `ip maddr show` prints for entries `xs` with positive interface indices: groups that
      nest, one for each interface that has an entry, in increasing order. */
  lemma GroupsOfTheFiles(vs: seq<Maddr>, xs: seq<Maddr>)
    requires IsStableSort(vs, xs, INDEX) && forall k :: AnyWith(xs, k) ==> k > 0
    ensures Nest(Outside, Printed(vs, 0, false)) == Outside
    ensures Increasing(Opened(Printed(vs, 0, false)))
    ensures forall k :: k in Opened(Printed(vs, 0, false)) <==> AnyWith(xs, k)
  {
    hide Nest, Printed, Opened, Increasing, Sorted, OfKey;
    forall k ensures AnyWith(vs, k) <==> AnyWith(xs, k) {
      if AnyWith(vs, k) {
        SameInterfaces(vs, xs, k);
      }
      if AnyWith(xs, k) {
        SameInterfacesBack(vs, xs, k);
      }
    }
    forall i | 0 <= i < |vs| ensures vs[i].index > 0 {
      assert AnyWith(vs, vs[i].index);
    }
    GroupsNest(vs, 0, false);
    OneGroupPerInterface(vs, 0);
  }

  lemma SameInterfacesBack(vs: seq<Maddr>, xs: seq<Maddr>, k: int)
    requires IsStableSort(vs, xs, INDEX) && AnyWith(xs, k)
    ensures AnyWith(vs, k)
  {
    hide OfKey;
    var i :| 0 <= i < |xs| && xs[i].index == k;
    OfKeyFinds(xs, INDEX, i);
    OfKeyMembers(vs, INDEX, k, 0);
  }

  /** The groups of any stable sort nest, on one line or not, exactly when no entry has index zero. */
  lemma NestsWithoutZero(vs: seq<Maddr>, xs: seq<Maddr>, oneline: bool)
    requires IsStableSort(vs, xs, INDEX)
    ensures Nest(Outside, Printed(vs, 0, oneline)) == Outside <==> !AnyWith(xs, 0)
  {
    hide Nest, Printed, Sorted, OfKey;
    GroupsNest(vs, 0, oneline);
    if AnyWith(vs, 0) {
      SameInterfaces(vs, xs, 0);
    }
    if AnyWith(xs, 0) {
      SameInterfacesBack(vs, xs, 0);
    }
  }

  // ---------------------------------------------------------------- lines

  /** The entries for which a line is printed, in order. */
  function Lines(es: seq<Event>): seq<Maddr> {
    if es == [] then []
    else (if es[0].Line? then [es[0].m] else []) + Lines(es[1..])
  }

  lemma {:induction false} LinesConcat(es: seq<Event>, fs: seq<Event>)
    ensures Lines(es + fs) == Lines(es) + Lines(fs)
  {
    hide Lines;
    if es == [] {
      assert es + fs == fs && Lines([]) == [] by {
        NoLines();
      }
    } else {
      assert (es + fs)[1..] == es[1..] + fs;
      LinesConcat(es[1..], fs);
      LinesFirst(es);
      LinesFirst(es + fs);
    }
  }

  lemma NoLines()
    ensures Lines([]) == []
  {
  }

  lemma LinesFirst(es: seq<Event>)
    requires es != []
    ensures Lines(es) == (if es[0].Line? then [es[0].m] else []) + Lines(es[1..])
  {
  }

  lemma HeaderLines(m: Maddr, cur: int, oneline: bool)
    ensures Lines(Header(m, cur, oneline) + [Line(m)]) == [m]
  {
    LinesConcat(Header(m, cur, oneline), [Line(m)]);
    assert Lines([Close, Open(m.index)]) == Lines([Open(m.index)]) == [];
  }

  /** One line for each entry of the list, in the order of the list. */
  lemma {:induction false} LinesOfPrinted(vs: seq<Maddr>, cur: int, oneline: bool)
    ensures Lines(Printed(vs, cur, oneline)) == vs
    decreases |vs|
  {
    hide Header;
    if vs == [] {
      PrintNone(cur, oneline);
      assert Lines([Close]) == [];
    } else {
      hide Lines;
      HeaderLines(vs[0], cur, oneline);
      LinesConcat(Header(vs[0], cur, oneline) + [Line(vs[0])], Printed(vs[1..], vs[0].index, oneline));
      LinesOfPrinted(vs[1..], vs[0].index, oneline);
    }
  }

  /** On one line each entry opens a group of its own. */
  lemma {:induction false} OnelineOpens(vs: seq<Maddr>, cur: int)
    ensures |Opened(Printed(vs, cur, true))| == |vs|
    ensures forall i :: 0 <= i < |vs| ==> Opened(Printed(vs, cur, true))[i] == vs[i].index
    decreases |vs|
  {
    hide Opened;
    OpenedNone();
    if vs != [] {
      var v := vs[0];
      OnelineOpens(vs[1..], v.index);
      OpenedConcat(Header(v, cur, true) + [Line(v)], Printed(vs[1..], v.index, true));
      OpenedConcat(Header(v, cur, true), [Line(v)]);
      OpenedOne(v);
      OpenedConcat([Close], [Open(v.index)]);
      assert [Close] + [Open(v.index)] == [Close, Open(v.index)];
    }
  }

  predicate Wants(family: nat, reader: nat) {
    family == 0 || family == reader
  }

  /** For each interface: its entries in the file of link addresses, then those in the IPv4 file, then
      those in the IPv6 file, each file only where it is wanted. */
  ghost function Expected(family: nat, link: seq<Maddr>, inet: seq<Maddr>, inet6: seq<Maddr>, k: int): seq<Maddr> {
    (if Wants(family, 17) then OfKey(link, INDEX, k) else [])
      + (if Wants(family, 2) then OfKey(inet, INDEX, k) else [])
      + (if Wants(family, 10) then OfKey(inet6, INDEX, k) else [])
  }

  lemma GatheredOfKey(family: nat, link: seq<Maddr>, inet: seq<Maddr>, inet6: seq<Maddr>, k: int)
    ensures OfKey(Gathered(family, link, inet, inet6), INDEX, k) == Expected(family, link, inet, inet6, k)
  {
    hide OfKey;
    var x := if family == 0 || family == AF_PACKET then link else [];
    var y := if family == 0 || family == AF_INET then inet else [];
    var z := if family == 0 || family == AF_INET6 then inet6 else [];
    OfKeyConcat(x, y, INDEX, k);
    OfKeyConcat(x + y, z, INDEX, k);
    OfKeyNone(k);
  }

  lemma OfKeyNone(k: int)
    ensures OfKey([], INDEX, k) == []
  {
  }

  /** The entries of the readers that the wanted family calls, in their order. */
  function Gathered(family: nat, link: seq<Maddr>, inet: seq<Maddr>, inet6: seq<Maddr>): seq<Maddr> {
    (if family == 0 || family == AF_PACKET then link else [])
      + (if family == 0 || family == AF_INET then inet else [])
      + (if family == 0 || family == AF_INET6 then inet6 else [])
  }

  /** `multiaddr_list`: read the files the family calls for and print the list. */
  method MultiaddrList(family: nat, link: seq<Maddr>, inet: seq<Maddr>, inet6: seq<Maddr>, oneline: bool)
    returns (out: seq<Event>)
    ensures out == Printed(InsertAll([], Gathered(family, link, inet, inet6)), 0, oneline)
    ensures Sorted(Lines(out), INDEX)
    ensures forall k :: OfKey(Lines(out), INDEX, k) == Expected(family, link, inet, inet6, k)
    ensures Nest(Outside, out) == Outside <==> !AnyWith(Gathered(family, link, inet, inet6), 0)
    ensures oneline ==> |Opened(out)| == |Lines(out)| && forall i :: 0 <= i < |Opened(out)| ==>
                          Opened(out)[i] == Lines(out)[i].index
    ensures !oneline && (forall k :: AnyWith(Gathered(family, link, inet, inet6), k) ==> k > 0) ==>
              && Increasing(Opened(out))
              && forall k :: k in Opened(out) <==> AnyWith(Gathered(family, link, inet, inet6), k)
  {
    hide Inserted, NoRepeats, InsertAll, IsStableSort, Printed, Nest, Opened, Increasing, AnyWith, Lines, OfKey;
    hide Sorted, Expected;
    var a := new Anchor<Maddr>();
    ghost var s: seq<Cell<Maddr>> := [];
    var x := if family == 0 || family == AF_PACKET then link else [];
    var y := if family == 0 || family == AF_INET then inet else [];
    var z := if family == 0 || family == AF_INET6 then inet6 else [];
    s := Read(a, x, s);
    assert forall i :: 0 <= i < |s| ==> fresh(s[i]);
    s := Read(a, y, s);
    assert forall i :: 0 <= i < |s| ==> fresh(s[i]);
    s := Read(a, z, s);
    assert Values<Maddr>([]) == [];
    InsertAllConcat([], x, y);
    InsertAllConcat([], x + y, z);
    ListIsAStableSort(x + y + z);
    out := PrintMlist(a, oneline, s);
    NestsWithoutZero(InsertAll([], x + y + z), x + y + z, oneline);
    LinesOfFiles(family, link, inet, inet6, oneline);
    if !oneline && forall k :: AnyWith(x + y + z, k) ==> k > 0 {
      GroupsOfTheFiles(InsertAll([], x + y + z), x + y + z);
    }
  }

  lemma LinesOfFiles(family: nat, link: seq<Maddr>, inet: seq<Maddr>, inet6: seq<Maddr>, oneline: bool)
    ensures var out := Printed(InsertAll([], Gathered(family, link, inet, inet6)), 0, oneline);
            && Sorted(Lines(out), INDEX)
            && (forall k :: OfKey(Lines(out), INDEX, k) == Expected(family, link, inet, inet6, k))
            && (oneline ==> |Opened(out)| == |Lines(out)| && forall i :: 0 <= i < |Opened(out)| ==>
                              Opened(out)[i] == Lines(out)[i].index)
  {
    hide InsertAll, Printed, Opened, Lines, Sorted, OfKey, Expected, Gathered;
    var xs := Gathered(family, link, inet, inet6);
    ListIsAStableSort(xs);
    LinesOfPrinted(InsertAll([], xs), 0, oneline);
    OnelineOpens(InsertAll([], xs), 0);
    forall k ensures OfKey(InsertAll([], xs), INDEX, k) == Expected(family, link, inet, inet6, k) {
      GatheredOfKey(family, link, inet, inet6, k);
    }
  }
}
