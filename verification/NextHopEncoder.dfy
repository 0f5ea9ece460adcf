/** `parse_nexthops` and `parse_one_nh`: how the options of each `nexthop` clause become bytes. */
module NextHopEncoder {
  import opened Wrappers
  import opened Bytes
  import opened NextHops
  import opened NextHopOptions
  import opened Sequences

  /** `buf` in `parse_nexthops`. The bound of 4096 that the attribute writers check is larger, so it
      never refuses an attribute that fits. */
  const BUF_BYTES: nat := 1024

  // ---------------------------------------------------------------- one clause in memory

  /** The buffer while a clause is read: its header at `rtnh`, its attributes from `start` on, and
      nothing else touched. */
  ghost predicate ClauseInMemory(b: seq<byte>, b0: seq<byte>, rtnh: nat, start: nat, rtaLen: nat, h: Hop) {
    && |b| == |b0| && rtnh + RTNH_BYTES <= start <= rtaLen <= |b| && rtaLen % 4 == 0 && start % 4 == 0
    && ValidHop(h) && rtaLen == start + Space(h.items)
    && b[..rtnh] == b0[..rtnh] && b[rtnh + RTNH_BYTES..start] == b0[rtnh + RTNH_BYTES..start]
    && b[rtnh..rtnh + RTNH_BYTES] == Header(RtnhLen(h), h.flags, h.hops, h.ifindex)
    && HoldsItems(b[start..rtaLen], h.items)
  }

  function AttrBytes(a: Attr): seq<byte>
    requires a.kind < TWO_16 && Length(a) < TWO_16
  {
    PutU16(Length(a)) + PutU16(a.kind) + a.payload
  }

  lemma AttrBytesStart(a: Attr, rest: seq<byte>)
    requires ValidAttr(a)
    ensures StartsWith(AttrBytes(a) + rest, a) && |AttrBytes(a)| == Length(a)
  {
    var b := AttrBytes(a) + rest;
    assert b[RTA_HEADER..Length(a)] == a.payload;
  }

  /** Rewriting the header alone. */
  lemma HeaderStored(b: seq<byte>, b0: seq<byte>, rtnh: nat, start: nat, rtaLen: nat, h: Hop, h': Hop)
    requires ClauseInMemory(b, b0, rtnh, start, rtaLen, h) && ValidHop(h') && h'.items == h.items
    ensures ClauseInMemory(Overwrite(b, rtnh, Header(RtnhLen(h'), h'.flags, h'.hops, h'.ifindex)), b0, rtnh, start,
                           rtaLen, h')
  {
    var header := Header(RtnhLen(h'), h'.flags, h'.hops, h'.ifindex);
    OverwriteElsewhere(b, rtnh, header, 0, rtnh);
    OverwriteElsewhere(b, rtnh, header, rtnh + RTNH_BYTES, start);
    OverwriteElsewhere(b, rtnh, header, start, rtaLen);
    hide ValidHop, HoldsItems, Header, Space, RtnhLen;
  }

  /** Appending an attribute and advancing both lengths. */
  lemma AttrStored(b: seq<byte>, b0: seq<byte>, rtnh: nat, start: nat, rtaLen: nat, h: Hop, x: Item)
    requires ClauseInMemory(b, b0, rtnh, start, rtaLen, h) && ValidAttr(x.attr)
    requires ValidHop(h.(items := h.items + [x]))
    requires rtaLen + Align4(Length(x.attr)) <= |b|
    ensures var h' := h.(items := h.items + [x]);
            && |AttrBytes(x.attr)| == Length(x.attr)
            && ClauseInMemory(Overwrite(Overwrite(b, rtaLen, AttrBytes(x.attr)), rtnh,
                                        Header(RtnhLen(h'), h'.flags, h'.hops, h'.ifindex)),
                              b0, rtnh, start, rtaLen + Align4(Length(x.attr)), h')
  {
    hide HoldsItems, AttrBytes, StartsWith, Overwrite, Space, Recorded, Header, ValidItems;
    var h' := h.(items := h.items + [x]);
    var end, bytes := rtaLen + Align4(Length(x.attr)), AttrBytes(x.attr);
    AttrBytesStart(x.attr, []);
    var c := Overwrite(b, rtaLen, bytes);
    ItemStored(b, start, rtaLen, h.items, x);
    OverwriteElsewhere(b, rtaLen, bytes, 0, rtnh);
    OverwriteElsewhere(b, rtaLen, bytes, rtnh + RTNH_BYTES, start);
    SpaceSnoc(h.items, x);
    var header := Header(RtnhLen(h'), h'.flags, h'.hops, h'.ifindex);
    OverwriteElsewhere(c, rtnh, header, 0, rtnh);
    OverwriteElsewhere(c, rtnh, header, rtnh + RTNH_BYTES, start);
    OverwriteElsewhere(c, rtnh, header, start, end);
  }

  lemma ItemStored(b: seq<byte>, start: nat, rtaLen: nat, items: seq<Item>, x: Item)
    requires start <= rtaLen && ValidAttr(x.attr) && rtaLen + Align4(Length(x.attr)) <= |b|
    requires HoldsItems(b[start..rtaLen], items)
    ensures |AttrBytes(x.attr)| == Length(x.attr)
    ensures HoldsItems(Overwrite(b, rtaLen, AttrBytes(x.attr))[start..rtaLen + Align4(Length(x.attr))], items + [x])
  {
    hide HoldsItems, AttrBytes, StartsWith, Overwrite;
    AttrBytesStart(x.attr, []);
    var end, len := rtaLen + Align4(Length(x.attr)), Length(x.attr);
    var c := Overwrite(b, rtaLen, AttrBytes(x.attr));
    OverwriteElsewhere(b, rtaLen, AttrBytes(x.attr), start, rtaLen);
    AttrBytesStart(x.attr, c[rtaLen + len..end]);
    assert c[rtaLen..end] == c[rtaLen..rtaLen + len] + c[rtaLen + len..end];
    HoldsItemsSnoc(b[start..rtaLen], items, c[rtaLen..end], x);
    assert c[start..end] == c[start..rtaLen] + c[rtaLen..end];
  }

  /** `rta_addattr_l` followed by the advance of `rtnh_len`. */
  method AddItem(buf: array<byte>, rtnh: nat, rtaLen: nat, h: Hop, x: Item, ghost b0: seq<byte>, ghost start: nat)
    returns (rtaLen': nat, h': Hop)
    requires ClauseInMemory(buf[..], b0, rtnh, start, rtaLen, h) && ValidAttr(x.attr)
    requires rtaLen + Align4(Length(x.attr)) <= buf.Length <= BUF_BYTES
    modifies buf
    ensures ClauseInMemory(buf[..], b0, rtnh, start, rtaLen', h')
    ensures rtaLen' == rtaLen + Align4(Length(x.attr)) && h' == h.(items := h.items + [x])
  {
    hide HoldsItems, AttrBytes, StartsWith, Overwrite, Space, Recorded, ValidItems;
    h' := h.(items := h.items + [x]);
    rtaLen' := rtaLen + Align4(Length(x.attr));
    ItemKeepsValid(h, x, rtaLen, start);
    AttrStored(buf[..], b0, rtnh, start, rtaLen, h, x);
    hide ClauseInMemory;
    Store(buf, rtaLen, AttrBytes(x.attr));
    Store(buf, rtnh, Header(RtnhLen(h'), h'.flags, h'.hops, h'.ifindex));
  }

  lemma ItemKeepsValid(h: Hop, x: Item, rtaLen: nat, start: nat)
    requires ValidHop(h) && ValidAttr(x.attr) && rtaLen == start + Space(h.items)
    requires RTNH_BYTES <= start && rtaLen + Align4(Length(x.attr)) <= BUF_BYTES
    ensures ValidHop(h.(items := h.items + [x]))
  {
    SpaceSnoc(h.items, x);
    RecordedWithinSpace(h.items + [x]);
  }

  lemma {:induction false} SpaceConcat(xs: seq<Item>, ys: seq<Item>)
    ensures Space(xs + ys) == Space(xs) + Space(ys)
    decreases |ys|
  {
    if ys == [] {
      assert xs + ys == xs;
    } else {
      var last := |ys| - 1;
      SpaceConcat(xs, ys[..last]);
      SpaceSnoc(xs + ys[..last], ys[last]);
      SpaceSnoc(ys[..last], ys[last]);
      assert ys[..last] + [ys[last]] == ys && xs + ys[..last] + [ys[last]] == xs + ys;
    }
  }

  /** All attributes of one option. */
  method AddItems(buf: array<byte>, rtnh: nat, rtaLen: nat, h: Hop, xs: seq<Item>, ghost b0: seq<byte>,
                  ghost start: nat)
    returns (rtaLen': nat, h': Hop)
    requires ClauseInMemory(buf[..], b0, rtnh, start, rtaLen, h) && ValidItems(xs)
    requires rtaLen + Space(xs) <= buf.Length <= BUF_BYTES
    modifies buf
    ensures ClauseInMemory(buf[..], b0, rtnh, start, rtaLen', h')
    ensures rtaLen' == rtaLen + Space(xs) && h' == h.(items := h.items + xs)
  {
    hide ClauseInMemory, Space;
    rtaLen', h' := rtaLen, h;
    ghost var done := [];
    assert h.items + [] == h.items;
    assert Space([]) == 0 by {
      SpaceEmpty();
    }
    for i := 0 to |xs|
      invariant ClauseInMemory(buf[..], b0, rtnh, start, rtaLen', h')
      invariant done == xs[..i] && rtaLen' == rtaLen + Space(done) && h' == h.(items := h.items + done)
    {
      SpaceSnoc(done, xs[i]);
      SpaceConcat(xs[..i + 1], xs[i + 1..]);
      assert xs[..i + 1] == done + [xs[i]] && xs[..i + 1] + xs[i + 1..] == xs;
      rtaLen', h' := AddItem(buf, rtnh, rtaLen', h', xs[i], b0, start);
      done := done + [xs[i]];
      assert h.items + xs[..i] + [xs[i]] == h.items + done;
    }
    assert xs[..|xs|] == xs;
  }

  lemma SpaceEmpty()
    ensures Space([]) == 0
  {
  }

  /** Whatever of the clause is accepted fits the buffer. */
  ghost predicate ClauseFits(opts: seq<Opt>, family: nat, start: nat, size: nat) {
    forall j :: 0 <= j <= |opts| && Clause(opts[..j], family).Some? ==>
      start + Space(Clause(opts[..j], family).value.hop.items) <= size
  }

  lemma ItemsAreValid(o: Opt, family: nat)
    requires ValidOpt(o)
    ensures ValidItems(ItemsOf(o, family))
  {
  }

  /** One accepted option of a clause. */
  method ReadOption(buf: array<byte>, rtnh: nat, rtaLen: nat, d: Draft, o: Opt, ghost b0: seq<byte>, ghost start: nat)
    returns (d': Draft, rtaLen': nat)
    requires ClauseInMemory(buf[..], b0, rtnh, start, rtaLen, d.hop)
    requires ValidOpt(o) && !Refused(o)
    requires start + Space(Take(d, o).value.hop.items) <= buf.Length <= BUF_BYTES
    modifies buf
    ensures Some(d') == Take(d, o)
    ensures ClauseInMemory(buf[..], b0, rtnh, start, rtaLen', d'.hop)
  {
    d' := Take(d, o).value;
    SpaceConcat(d.hop.items, ItemsOf(o, d.family));
    ItemsAreValid(o, d.family);
    var h;
    rtaLen', h := AddItems(buf, rtnh, rtaLen, d.hop, ItemsOf(o, d.family), b0, start);
    HeaderStored(buf[..], b0, rtnh, start, rtaLen', h, d'.hop);
    Store(buf, rtnh, Header(RtnhLen(d'.hop), d'.hop.flags, d'.hop.hops, d'.hop.ifindex));
  }

  /** `parse_one_nh`. */
  method ReadClause(buf: array<byte>, rtnh: nat, start: nat, opts: seq<Opt>, family: nat, ghost b0: seq<byte>)
    returns (d: Option<Draft>, rtaLen: nat)
    requires ClauseInMemory(buf[..], b0, rtnh, start, start, Hop([], 0, 0, 0))
    requires (forall i :: 0 <= i < |opts| ==> ValidOpt(opts[i])) && buf.Length <= BUF_BYTES
    requires ClauseFits(opts, family, start, buf.Length)
    modifies buf
    ensures d == Clause(opts, family)
    ensures d.Some? ==> ClauseInMemory(buf[..], b0, rtnh, start, rtaLen, d.value.hop)
  {
    hide *;
    d, rtaLen := Some(Draft(Hop([], 0, 0, 0), family)), start;
    ClauseStart(opts, family);
    var i := 0;
    while i < |opts| && d.Some?
      invariant i <= |opts| && d == Clause(opts[..i], family)
      invariant d.Some? ==> ClauseInMemory(buf[..], b0, rtnh, start, rtaLen, d.value.hop)
      invariant d.None? ==> Clause(opts, family) == None
    {
      var o := opts[i];
      ClauseStep(opts, i, family, start, buf.Length);
      if Refused(o) {
        d := None;
        RefusedStays(opts, i + 1, family);
      } else {
        var d', rtaLen' := ReadOption(buf, rtnh, rtaLen, d.value, o, b0, start);
        d, rtaLen := Some(d'), rtaLen';
      }
      i := i + 1;
    }
    assert opts[..|opts|] == opts;
  }

  lemma ClauseStart(opts: seq<Opt>, family: nat)
    ensures Clause(opts[..0], family) == Some(Draft(Hop([], 0, 0, 0), family))
  {
  }

  lemma ClauseStep(opts: seq<Opt>, i: nat, family: nat, start: nat, size: nat)
    requires i < |opts| && Clause(opts[..i], family).Some? && ClauseFits(opts, family, start, size)
    ensures var t := Take(Clause(opts[..i], family).value, opts[i]);
            && Clause(opts[..i + 1], family) == t
            && (t == None <==> Refused(opts[i]))
            && (t.Some? ==> start + Space(t.value.hop.items) <= size)
  {
    assert opts[..i + 1][..i] == opts[..i] && opts[..i + 1][i] == opts[i];
  }

  lemma {:induction false} RefusedStays(opts: seq<Opt>, i: nat, family: nat)
    requires i <= |opts| && Clause(opts[..i], family) == None
    ensures Clause(opts, family) == None
    decreases |opts|
  {
    if i == |opts| {
      assert opts[..i] == opts;
    } else {
      assert opts[..|opts| - 1][..i] == opts[..i];
      RefusedStays(opts[..|opts| - 1], i, family);
    }
  }

  // ---------------------------------------------------------------- all clauses

  /** Where the first next hop that does not survive sits in the buffer. */
  datatype Fault = Fault(index: nat, at: nat, end: nat, stored: seq<byte>)

  /** The buffer between clauses. As long as every next hop survives, the two lengths agree and the
      next hops lie one behind the other; after that, the first fault stays visible. */
  ghost predicate ListInMemory(b: seq<byte>, rtnh: nat, rtaLen: nat, hs: seq<Hop>, fault: Option<Fault>) {
    && RTA_HEADER <= rtnh <= rtaLen <= |b| && rtaLen % 4 == 0
    && rtaLen == RTA_HEADER + TotalSize(hs)
    && match fault
       case None => AllSurvive(hs) && rtnh == rtaLen && HoldsHops(b[RTA_HEADER..rtaLen], hs)
       case Some(x) => FaultShows(b, rtnh, hs, x)
  }

  ghost predicate FaultShows(b: seq<byte>, rtnh: nat, hs: seq<Hop>, x: Fault) {
    && x.index < |hs| && RTA_HEADER <= x.at <= x.end <= rtnh <= |b|
    && HoldsHops(b[RTA_HEADER..x.at], hs[..x.index]) && AllSurvive(hs[..x.index])
    && !Survives(hs[x.index].items) && ShowsHop(b[x.at..x.end], hs[x.index], x.stored)
  }

  lemma TotalSizeSnoc(hs: seq<Hop>, h: Hop)
    ensures TotalSize(hs + [h]) == TotalSize(hs) + Size(h)
  {
    assert (hs + [h])[..|hs|] == hs;
  }

  /** A clause read in step is a next hop in its place, seen up to any point from `rtnh_len` on. */
  lemma ClauseShows(b: seq<byte>, b0: seq<byte>, rtnh: nat, rtaLen: nat, h: Hop, e: nat)
    requires ClauseInMemory(b, b0, rtnh, rtnh + RTNH_BYTES, rtaLen, h)
    requires rtnh + RtnhLen(h) <= e <= rtaLen
    ensures ShowsHop(b[rtnh..e], h, b[rtnh + RTNH_BYTES..rtaLen])
  {
    hide HoldsItems, Space, Recorded, ValidItems, Header;
    RecordedWithinSpace(h.items);
    var start := rtnh + RTNH_BYTES;
    SliceOfSlice(b, rtnh, e, 0, RTNH_BYTES);
    SliceOfSlice(b, rtnh, e, RTNH_BYTES, RtnhLen(h));
    SliceOfSlice(b, start, rtaLen, 0, Recorded(h.items));
  }

  lemma ClauseEnds(b: seq<byte>, b0: seq<byte>, rtnh: nat, start: nat, rtaLen: nat, h: Hop)
    requires ClauseInMemory(b, b0, rtnh, start, rtaLen, h)
    ensures RtnhLen(h) <= Align4(RtnhLen(h)) <= Size(h) && rtaLen == start + Size(h) - RTNH_BYTES
    ensures rtnh + RTNH_BYTES <= start <= rtaLen <= |b|
  {
    hide HoldsItems, Space, Recorded, ValidItems, Header;
    RecordedWithinSpace(h.items);
  }

  /** One more clause while everything is in step. */
  lemma StepInStep(b: seq<byte>, b0: seq<byte>, rtnh: nat, rtaLen: nat, hs: seq<Hop>, h: Hop)
    requires ListInMemory(b0, rtnh, rtnh, hs, None)
    requires ClauseInMemory(b, b0, rtnh, rtnh + RTNH_BYTES, rtaLen, h)
    ensures var rtnh' := rtnh + Align4(RtnhLen(h));
            ListInMemory(b, rtnh', rtaLen, hs + [h],
                         if Survives(h.items) then None
                           else Some(Fault(|hs|, rtnh, rtnh', b[rtnh + RTNH_BYTES..rtaLen])))
  {
    hide HoldsItems, HoldsHops, ShowsHop, Survives, Header, Space, Recorded, TotalSize, ValidHop;
    var rtnh' := rtnh + Align4(RtnhLen(h));
    ClauseEnds(b, b0, rtnh, rtnh + RTNH_BYTES, rtaLen, h);
    TotalSizeSnoc(hs, h);
    SamePrefix(b, b0, rtnh, RTA_HEADER, rtnh);
    assert (hs + [h])[..|hs|] == hs && (hs + [h])[|hs|] == h;
    if Survives(h.items) {
      SurvivingStaysInStep(h.items);
      ClauseShows(b, b0, rtnh, rtaLen, h, rtaLen);
      SliceOfSlice(b, rtnh, rtaLen, RTNH_BYTES, rtaLen - rtnh);
      HoldsHopsSnoc(b[RTA_HEADER..rtnh], hs, b[rtnh..rtaLen], h);
      SliceSplit(b, RTA_HEADER, rtnh, rtaLen);
    } else {
      ClauseShows(b, b0, rtnh, rtaLen, h, rtnh');
    }
  }

  /** One more clause after a fault: everything is written behind it. */
  lemma StepAfterFault(b: seq<byte>, b0: seq<byte>, rtnh: nat, rta0: nat, rtaLen: nat, hs: seq<Hop>, h: Hop, x: Fault)
    requires ListInMemory(b0, rtnh, rta0, hs, Some(x))
    requires ClauseInMemory(b, b0, rtnh, rta0 + RTNH_BYTES, rtaLen, h)
    ensures ListInMemory(b, rtnh + Align4(RtnhLen(h)), rtaLen, hs + [h], Some(x))
  {
    hide HoldsItems, HoldsHops, ShowsHop, Survives, Header, Space, Recorded, TotalSize, ValidHop;
    ClauseEnds(b, b0, rtnh, rta0 + RTNH_BYTES, rtaLen, h);
    TotalSizeSnoc(hs, h);
    assert (hs + [h])[..x.index] == hs[..x.index];
    SamePrefix(b, b0, rtnh, RTA_HEADER, x.at);
    SamePrefix(b, b0, rtnh, x.at, x.end);
  }

  /** What the receiver makes of the finished list. */
  lemma ListDecodes(b: seq<byte>, rtnh: nat, rtaLen: nat, hs: seq<Hop>, fault: Option<Fault>)
    requires ListInMemory(b, rtnh, rtaLen, hs, fault)
    ensures Walk(b[RTA_HEADER..rtaLen]) == Some(Expected(hs)) <==> AllSurvive(hs) && AllDiffer(hs)
    ensures AllSurvive(hs) ==> Walk(b[RTA_HEADER..rtaLen]) == Some(Tables(hs))
  {
    hide HoldsHops, ShowsHop, Survives, Walk, TotalSize, Tables, Expected, AllDiffer;
    var p := b[RTA_HEADER..rtaLen];
    match fault {
      case None =>
        assert p[..|p|] == p && p[|p|..] == [];
        WalkHops(p, |p|, hs);
        WalkNothing(Tables(hs));
        TablesAreExpected(hs);
      case Some(x) =>
        var at := x.at - RTA_HEADER;
        SliceOfSlice(b, RTA_HEADER, rtaLen, 0, at);
        SliceOfSlice(b, RTA_HEADER, rtaLen, at, |p|);
        ShowsMore(b[x.at..x.end], b[x.end..rtaLen], hs[x.index], x.stored);
        SliceSplit(b, x.at, x.end, rtaLen);
        BrokenHopShows(p, at, hs, x.index, x.stored);
    }
  }

  lemma WalkNothing(e: seq<Seen>)
    ensures PrependAll(e, Walk([])) == Some(e)
  {
    assert e + [] == e;
  }

  /** Every clause that is read fits the buffer. */
  ghost predicate ClausesFit(args: seq<seq<Opt>>, family: nat, size: nat) {
    forall k :: 0 <= k < |args| && Clauses(args[..k], family).Some? ==>
      var p := Clauses(args[..k], family).value;
      ClauseFits(args[k], p.family, RTA_HEADER + TotalSize(p.hops) + RTNH_BYTES, size)
  }

  ghost predicate ValidArgs(args: seq<seq<Opt>>) {
    forall k, i :: 0 <= k < |args| && 0 <= i < |args[k]| ==> ValidOpt(args[k][i])
  }

  /** `memset(rtnh, 0, sizeof(*rtnh)); rtnh->rtnh_len = sizeof(*rtnh)`. */
  lemma FreshHeader(b: seq<byte>, rtnh: nat, rtaLen: nat)
    requires RTA_HEADER <= rtnh <= rtaLen && rtaLen + RTNH_BYTES <= |b| && rtaLen % 4 == 0
    ensures var start := rtaLen + RTNH_BYTES;
            ClauseInMemory(Overwrite(b, rtnh, Header(RTNH_BYTES, 0, 0, 0)), b, rtnh, start, start, Hop([], 0, 0, 0))
  {
    var c := Overwrite(b, rtnh, Header(RTNH_BYTES, 0, 0, 0));
    var start := rtaLen + RTNH_BYTES;
    OverwriteElsewhere(b, rtnh, Header(RTNH_BYTES, 0, 0, 0), rtnh + RTNH_BYTES, start);
    assert c[start..start] == [];
  }

  lemma ClausesStep(args: seq<seq<Opt>>, k: nat, family: nat, size: nat)
    requires k < |args| && ValidArgs(args) && ClausesFit(args, family, size) && Clauses(args[..k], family).Some?
    ensures var p := Clauses(args[..k], family).value;
            var c := Clause(args[k], p.family);
            && ClauseFits(args[k], p.family, RTA_HEADER + TotalSize(p.hops) + RTNH_BYTES, size)
            && RTA_HEADER + TotalSize(p.hops) + RTNH_BYTES <= size
            && (forall i :: 0 <= i < |args[k]| ==> ValidOpt(args[k][i]))
            && Clauses(args[..k + 1], family) ==
                 match c case None => None case Some(d) => Some(Progress(p.hops + [d.hop], d.family))
  {
    assert args[..k + 1][..k] == args[..k] && args[..k + 1][k] == args[k];
    var p := Clauses(args[..k], family).value;
    assert args[k][..0] == [] && Clause(args[k][..0], p.family).Some?;
  }

  lemma {:induction false} FailureStays(args: seq<seq<Opt>>, i: nat, family: nat)
    requires i <= |args| && Clauses(args[..i], family) == None
    ensures Clauses(args, family) == None
    decreases |args|
  {
    if i == |args| {
      assert args[..i] == args;
    } else {
      assert args[..|args| - 1][..i] == args[..i];
      FailureStays(args[..|args| - 1], i, family);
    }
  }

  /** One `nexthop` clause: fresh header, options, and the step to the next `rtnexthop`. */
  method EncodeClause(buf: array<byte>, rtnh: nat, rtaLen: nat, opts: seq<Opt>, family: nat,
                      ghost hs: seq<Hop>, ghost fault: Option<Fault>)
    returns (d: Option<Draft>, rtnh': nat, rtaLen': nat, ghost fault': Option<Fault>)
    requires ListInMemory(buf[..], rtnh, rtaLen, hs, fault)
    requires (forall i :: 0 <= i < |opts| ==> ValidOpt(opts[i])) && rtaLen + RTNH_BYTES <= buf.Length <= BUF_BYTES
    requires ClauseFits(opts, family, rtaLen + RTNH_BYTES, buf.Length)
    modifies buf
    ensures d == Clause(opts, family)
    ensures d.Some? ==> ListInMemory(buf[..], rtnh', rtaLen', hs + [d.value.hop], fault')
  {
    hide ClauseInMemory, ListInMemory, Clause, ClauseFits, ValidOpt, Header;
    ghost var b0 := buf[..];
    ListBounds(b0, rtnh, rtaLen, hs, fault);
    FreshHeader(b0, rtnh, rtaLen);
    Store(buf, rtnh, Header(RTNH_BYTES, 0, 0, 0));
    d, rtaLen' := ReadClause(buf, rtnh, rtaLen + RTNH_BYTES, opts, family, b0);
    rtnh', fault' := rtnh, fault;
    if d.Some? {
      var h := d.value.hop;
      rtnh' := rtnh + Align4(RtnhLen(h));
      match fault {
        case None =>
          ClauseEnds(buf[..], b0, rtnh, rtaLen + RTNH_BYTES, rtaLen', h);
          StepInStep(buf[..], b0, rtnh, rtaLen', hs, h);
          fault' := if Survives(h.items) then None
            else Some(Fault(|hs|, rtnh, rtnh', buf[..][rtnh + RTNH_BYTES..rtaLen']));
        case Some(x) =>
          StepAfterFault(buf[..], b0, rtnh, rtaLen, rtaLen', hs, h, x);
      }
    }
  }

  lemma ListBounds(b: seq<byte>, rtnh: nat, rtaLen: nat, hs: seq<Hop>, fault: Option<Fault>)
    requires ListInMemory(b, rtnh, rtaLen, hs, fault)
    ensures RTA_HEADER <= rtnh <= rtaLen <= |b| && rtaLen % 4 == 0
    ensures rtaLen == RTA_HEADER + TotalSize(hs)
    ensures fault == None ==> rtnh == rtaLen
  {
  }

  /** The word `nexthop` with nothing after it. */
  predicate Dangling(args: seq<seq<Opt>>) {
    args != [] && args[|args| - 1] == []
  }

  /** The loop of `parse_nexthops`. The receiver reads back exactly the next hops that were given, in
      order, if and only if each of them survives and is given no kind of attribute twice. */
  method EncodeNextHops(args: seq<seq<Opt>>, family: nat) returns (ok: bool, payload: seq<byte>)
    requires ValidArgs(args) && ClausesFit(args, family, BUF_BYTES)
    ensures ok <==> Clauses(args, family).Some? && !Dangling(args)
    ensures ok <==> (forall k :: 0 <= k < |args| ==> AllFine(args[k])) && !Dangling(args)
    // What is shown of a list that survives is what the options of each clause ask for.
    ensures ok && AllSurvive(Clauses(args, family).value.hops) ==>
              && Walk(payload).Some? && |Walk(payload).value| == |args| && ArgsValid(args)
              && forall k :: 0 <= k < |args| ==>
                   ClauseShown(args[k], FamilyBefore(args, family, k), Walk(payload).value[k])
    ensures ok ==> var hs := Clauses(args, family).value.hops;
                   && |payload| == TotalSize(hs) && RTA_HEADER + |payload| <= BUF_BYTES && |payload| % 4 == 0
                   && (Walk(payload) == Some(Expected(hs)) <==> AllSurvive(hs) && AllDiffer(hs))
                   && (AllSurvive(hs) ==> Walk(payload) == Some(Tables(hs)))
  {
    hide ListInMemory, Clauses, ClausesFit, ValidArgs, ClauseFits, Clause, AllSurvive, AllDiffer, Tables, Expected,
         Walk, TotalSize, ClauseShown, AllFine, FamilyBefore, ArgsValid;
    ListRefused(args, family);
    ArgsAreValid(args);
    var buf := new byte[BUF_BYTES](_ => 0);
    var rtnh, rtaLen, fam := RTA_HEADER, RTA_HEADER, family;
    ghost var fault: Option<Fault> := None;
    ghost var p := Some(Progress([], family));
    EmptyList(buf[..], args, family);
    ok := true;
    var k := 0;
    while k < |args| && ok
      invariant k <= |args|
      invariant ok ==> p == Clauses(args[..k], family) && p.Some? && fam == p.value.family
      invariant ok ==> ListInMemory(buf[..], rtnh, rtaLen, p.value.hops, fault)
      invariant !ok ==> Clauses(args, family) == None || Dangling(args)
      invariant ok && k == |args| ==> !Dangling(args)
      decreases |args| - k, ok
    {
      if k == |args| - 1 && args[k] == [] {
        ok := false;
      } else {
        ClausesStep(args, k, family, BUF_BYTES);
        ListBounds(buf[..], rtnh, rtaLen, p.value.hops, fault);
        var d;
        d, rtnh, rtaLen, fault := EncodeClause(buf, rtnh, rtaLen, args[k], fam, p.value.hops, fault);
        k := k + 1;
        if d.Some? {
          p, fam := Some(Progress(p.value.hops + [d.value.hop], d.value.family)), d.value.family;
        } else {
          ok := false;
          FailureStays(args, k, family);
        }
      }
    }
    payload := [];
    if ok {
      assert args[..k] == args;
      ListBounds(buf[..], rtnh, rtaLen, p.value.hops, fault);
      payload := buf[RTA_HEADER..rtaLen];
      ListDecodes(buf[..], rtnh, rtaLen, p.value.hops, fault);
      assert payload == buf[..][RTA_HEADER..rtaLen];
      ListMeaning(args, family);
    }
  }

  lemma ArgsAreValid(args: seq<seq<Opt>>)
    requires ValidArgs(args)
    ensures ArgsValid(args)
  {
  }

  lemma EmptyList(b: seq<byte>, args: seq<seq<Opt>>, family: nat)
    requires |b| >= RTA_HEADER
    ensures ListInMemory(b, RTA_HEADER, RTA_HEADER, [], None)
    ensures Clauses(args[..0], family) == Some(Progress([], family)) && (args == [] ==> !Dangling(args))
  {
  }

  // ---------------------------------------------------------------- into the request

  const RTA_MULTIPATH := 9
  /** The bound that `parse_nexthops` gives to `addattr_l`. */
  const REQUEST_BYTES: nat := 1024

  /** `addattr_l` has room for a payload of `n` bytes behind a message of `len`. */
  predicate HasRoom(len: nat, n: nat) {
    Align4(len) + Align4(RTA_HEADER + n) <= REQUEST_BYTES
  }

  /** Bytes of alignment; the request is zero to begin with. */
  function Padding(len: nat): (r: seq<byte>)
    ensures len + |r| == Align4(len)
  {
    seq(Align4(len) - len, _ => 0)
  }

  /** `parse_nexthops` on the request built so far. The list becomes its RTA_MULTIPATH attribute
      exactly when it is not empty and there is room; otherwise the request stays as it is and the
      caller is not told. */
  method ParseNexthops(m: seq<byte>, args: seq<seq<Opt>>, family: nat) returns (ok: bool, r: seq<byte>)
    requires ValidArgs(args) && ClausesFit(args, family, BUF_BYTES)
    ensures ok <==> Clauses(args, family).Some? && !Dangling(args)
    ensures ok && !(args != [] && HasRoom(|m|, TotalSize(Clauses(args, family).value.hops))) ==> r == m
    ensures ok && args != [] && HasRoom(|m|, TotalSize(Clauses(args, family).value.hops)) ==>
              var hs := Clauses(args, family).value.hops;
              var at := Align4(|m|);
              && |r| == at + RTA_HEADER + TotalSize(hs) <= REQUEST_BYTES && m <= r
              && StartsWith(r[at..], Attr(RTA_MULTIPATH, r[at + RTA_HEADER..]))
              && (Walk(r[at + RTA_HEADER..]) == Some(Expected(hs)) <==> AllSurvive(hs) && AllDiffer(hs))
  {
    hide Clauses, ClausesFit, ValidArgs, AllSurvive, AllDiffer, Expected, Walk, TotalSize, StartsWith;
    var payload;
    ok, payload := EncodeNextHops(args, family);
    r := m;
    if ok {
      PayloadLength(args, family);
      if |payload| > 0 && HasRoom(|m|, |payload|) {
        AttrBytesStart(Attr(RTA_MULTIPATH, payload), []);
        r := m + Padding(|m|) + AttrBytes(Attr(RTA_MULTIPATH, payload));
        AttrBytesPayload(Attr(RTA_MULTIPATH, payload));
        Behind(m + Padding(|m|), AttrBytes(Attr(RTA_MULTIPATH, payload)), payload);
      }
    }
  }

  lemma Behind(before: seq<byte>, attr: seq<byte>, payload: seq<byte>)
    requires |attr| == RTA_HEADER + |payload| && attr[RTA_HEADER..] == payload
    ensures (before + attr)[|before|..] == attr + [] && (before + attr)[|before| + RTA_HEADER..] == payload
  {
  }

  lemma AttrBytesPayload(a: Attr)
    requires ValidAttr(a)
    ensures |AttrBytes(a)| == RTA_HEADER + |a.payload| && AttrBytes(a)[RTA_HEADER..] == a.payload
  {
  }

  lemma PayloadLength(args: seq<seq<Opt>>, family: nat)
    requires Clauses(args, family).Some?
    ensures TotalSize(Clauses(args, family).value.hops) > 0 <==> args != []
  {
    hide Clause, Size;
  }

  /** The gateways and new destinations have lengths that are multiples of four, as those of IPv4,
      IPv6 and MPLS do. */
  predicate AlignedOpts(opts: seq<Opt>) {
    forall i :: 0 <= i < |opts| ==>
      (opts[i].Via? ==> |opts[i].addr| % 4 == 0) && (opts[i].As? ==> |opts[i].addr| % 4 == 0)
  }

  lemma {:induction false} AlignedClause(opts: seq<Opt>, family: nat)
    requires AlignedOpts(opts) && Clause(opts, family).Some?
    ensures forall x :: x in Clause(opts, family).value.hop.items && x.exact ==> |x.attr.payload| % 4 == 0
  {
    if opts != [] {
      AlignedClause(opts[..|opts| - 1], family);
    }
  }

  /** For such arguments every next hop survives. */
  lemma {:induction false} AlignedArgsSurvive(args: seq<seq<Opt>>, family: nat)
    requires Clauses(args, family).Some? && forall k :: 0 <= k < |args| ==> AlignedOpts(args[k])
    ensures AllSurvive(Clauses(args, family).value.hops)
  {
    if args != [] {
      var n := |args| - 1;
      AlignedArgsSurvive(args[..n], family);
      var p := Clauses(args[..n], family).value;
      AlignedClause(args[n], p.family);
      AlignedSurvives(Clause(args[n], p.family).value.hop.items);
    }
  }

  function LastWeight(opts: seq<Opt>): nat {
    if opts == [] then 1
    else if opts[|opts| - 1].Weight? then opts[|opts| - 1].w
    else LastWeight(opts[..|opts| - 1])
  }

  /** The weight shown, `rtnh_hops + 1`, is the last one given, 1 if none was. */
  lemma {:induction false} WeightIsShown(opts: seq<Opt>, family: nat)
    requires Clause(opts, family).Some?
    ensures Clause(opts, family).value.hop.hops as int + 1 == LastWeight(opts) && 1 <= LastWeight(opts) <= 256
  {
    if opts != [] {
      WeightIsShown(opts[..|opts| - 1], family);
    }
  }

  // ---------------------------------------------------------------- a list that is dropped

  /** `nexthop dev D` so many times. */
  function Repeated(n: nat, ifindex: nat): (r: seq<seq<Opt>>)
    ensures |r| == n
  {
    seq(n, _ => [Dev(ifindex)])
  }

  lemma {:induction false} RepeatedClauses(n: nat, ifindex: nat, family: nat)
    requires 0 < ifindex < TWO_32
    ensures var p := Clauses(Repeated(n, ifindex), family);
            p.Some? && p.value.family == family && TotalSize(p.value.hops) == RTNH_BYTES * n
  {
    hide Clause, Clauses, TotalSize;
    var args := Repeated(n, ifindex);
    ClausesLast(args, family);
    if n > 0 {
      RepeatedClauses(n - 1, ifindex, family);
      assert args[..n - 1] == Repeated(n - 1, ifindex);
      OneDevice(ifindex, family);
      TotalSizeSnoc(Clauses(args[..n - 1], family).value.hops, Hop([], 0, 0, ifindex));
    }
  }

  lemma OneDevice(ifindex: nat, family: nat)
    requires 0 < ifindex < TWO_32
    ensures Clause([Dev(ifindex)], family) == Some(Draft(Hop([], 0, 0, ifindex), family))
  {
    var opts := [Dev(ifindex)];
    assert opts[..0] == [] && opts[..1] == opts;
    assert Clause(opts[..0], family) == Some(Draft(Hop([], 0, 0, 0), family));
    assert [] + ItemsOf(Dev(ifindex), family) == [];
  }

  lemma DeviceFits(ifindex: nat, family: nat, start: nat, size: nat)
    requires 0 < ifindex < TWO_32 && start <= size
    ensures ClauseFits([Dev(ifindex)], family, start, size)
  {
    hide Clause;
    var opts := [Dev(ifindex)];
    OneDevice(ifindex, family);
    ClauseStart(opts, family);
    assert opts[..1] == opts;
    forall j | 0 <= j <= |opts| && Clause(opts[..j], family).Some?
      ensures start + Space(Clause(opts[..j], family).value.hop.items) <= size
    {
      assert j == 0 || j == 1;
    }
  }

  /** 125 next hops fit the buffer, but not behind the 28 bytes of an empty route request: they are
      dropped, and 124 are not. */
  lemma TooManyHopsAreDropped(ifindex: nat, family: nat)
    requires 0 < ifindex < TWO_32
    ensures var args := Repeated(125, ifindex);
            && ValidArgs(args) && ClausesFit(args, family, BUF_BYTES) && !Dangling(args)
            && Clauses(args, family).Some? && !HasRoom(28, TotalSize(Clauses(args, family).value.hops))
    ensures var args := Repeated(124, ifindex);
            Clauses(args, family).Some? && HasRoom(28, TotalSize(Clauses(args, family).value.hops))
  {
    hide Clauses, Clause, ClauseFits, TotalSize;
    RepeatedClauses(125, ifindex, family);
    RepeatedClauses(124, ifindex, family);
    var args := Repeated(125, ifindex);
    forall k | 0 <= k < |args| && Clauses(args[..k], family).Some?
      ensures var p := Clauses(args[..k], family).value;
              ClauseFits(args[k], p.family, RTA_HEADER + TotalSize(p.hops) + RTNH_BYTES, BUF_BYTES)
    {
      assert args[..k] == Repeated(k, ifindex);
      RepeatedClauses(k, ifindex, family);
      DeviceFits(ifindex, family, RTA_HEADER + RTNH_BYTES * k + RTNH_BYTES, BUF_BYTES);
    }
  }
}
