/** `ip neigh flush`. Deleting a neighbour may leave it visible in state FAILED, so after each
    round FAILED is cleared from the mask of states to flush. */
module NeighbourFlush {
  import opened Bytes
  import opened NetlinkMessages
  import opened FlushBuffer
  import opened FlushRounds
  import opened FlushRuns

  const NUD_FAILED: bv32 := 0x20
  const NUD_NONE_BIT: bv32 := 0x100
  const AF_DECNET := 12
  const NDMSG_BYTES := 12
  const MAX_ROUNDS: nat := 10

  /** Family, interface, and the tests of `print_neigh` that do not look at the state: the
      address prefix and the reference count. */
  datatype NeighFilter = NeighFilter(family: nat, index: nat, rest: Entry -> bool)

  /** A 16-bit number as bits. */
  function Word(v: nat): bv32
    requires v < TWO_16
  {
    Bits(v) as bv32
  }

  function Bits(v: nat): bv16
    requires v < TWO_16
  {
    v as bv16
  }

  function StateOf(e: Entry): bv32
    requires |e| >= NDMSG_BYTES
  {
    Word(GetU16(e, 8))
  }

  predicate IsProxy(e: Entry)
    requires |e| >= NDMSG_BYTES
  {
    e[10] / 8 % 2 == 1
  }

  predicate Overlap(x: bv32, y: bv32) {
    x & y != 0
  }

  /** The four-way state test of `print_neigh`. */
  predicate StateSelected(mask: bv32, e: Entry)
    requires |e| >= NDMSG_BYTES
  {
    || Overlap(mask, StateOf(e))
    || IsProxy(e)
    || (StateOf(e) == 0 && mask & NUD_NONE_BIT != 0)
    || e[0] == AF_DECNET
  }

  function NeighVerdict(filter: NeighFilter, mask: bv32, e: Entry): Verdict {
    if |e| < NDMSG_BYTES then Bug
    else if filter.family != 0 && filter.family != e[0] as int then Skip
    else if filter.index != 0 && filter.index != GetU32(e, 4) then Skip
    else if !StateSelected(mask, e) then Skip
    else if !filter.rest(e) then Skip
    else Take
  }

  function NeighSelect(filter: NeighFilter, mask: bv32): Entry -> Verdict {
    e => NeighVerdict(filter, mask, e)
  }

  // ---------------------------------------------------------------- the verdict from the bytes

  /** One of the sixteen state bits is set in both. */
  predicate CommonBit(x: bv32, y: bv32) {
    || (x & 0x0001 != 0 && y & 0x0001 != 0) || (x & 0x0002 != 0 && y & 0x0002 != 0)
    || (x & 0x0004 != 0 && y & 0x0004 != 0) || (x & 0x0008 != 0 && y & 0x0008 != 0)
    || (x & 0x0010 != 0 && y & 0x0010 != 0) || (x & 0x0020 != 0 && y & 0x0020 != 0)
    || (x & 0x0040 != 0 && y & 0x0040 != 0) || (x & 0x0080 != 0 && y & 0x0080 != 0)
    || (x & 0x0100 != 0 && y & 0x0100 != 0) || (x & 0x0200 != 0 && y & 0x0200 != 0)
    || (x & 0x0400 != 0 && y & 0x0400 != 0) || (x & 0x0800 != 0 && y & 0x0800 != 0)
    || (x & 0x1000 != 0 && y & 0x1000 != 0) || (x & 0x2000 != 0 && y & 0x2000 != 0)
    || (x & 0x4000 != 0 && y & 0x4000 != 0) || (x & 0x8000 != 0 && y & 0x8000 != 0)
  }

  /** The tests of `print_neigh` on the bytes of an entry: family and interface as asked, the other tests,
      and a state bit that the mask has, or no state and bit 8 of the mask, or the proxy flag, or DECnet. */
  ghost predicate Meets(filter: NeighFilter, mask: bv32, e: Entry) {
    && |e| >= 12
    && (filter.family == 0 || e[0] as int == filter.family)
    && (filter.index == 0 || GetU32(e, 4) == filter.index)
    && filter.rest(e)
    && (|| CommonBit(Word(e[8] as int + 256 * (e[9] as int)), mask)
        || (e[8] == 0 && e[9] == 0 && mask & 0x100 != 0)
        || e[10] / 8 % 2 == 1
        || e[0] == 12)
  }

  lemma CommonBits(x: bv16, y: bv32)
    ensures Overlap(y, x as bv32) <==> CommonBit(x as bv32, y)
  {
  }

  lemma WordBits(v: nat, y: bv32)
    requires v < TWO_16
    ensures Overlap(y, Word(v)) <==> CommonBit(Word(v), y)
  {
    hide CommonBit, Bits, Overlap;
    CommonBits(Bits(v), y);
  }

  lemma NoState(v: nat)
    requires v < TWO_16
    ensures Word(v) == 0 <==> v == 0
  {
  }

  /** The verdict is exactly what the bytes say. */
  lemma VerdictExactly(filter: NeighFilter, mask: bv32, e: Entry)
    ensures NeighVerdict(filter, mask, e) == Take <==> Meets(filter, mask, e)
    ensures NeighVerdict(filter, mask, e) == Bug <==> |e| < 12
  {
    hide CommonBit, StateSelected;
    if |e| >= NDMSG_BYTES {
      StateExactly(mask, e);
    }
  }

  lemma StateExactly(mask: bv32, e: Entry)
    requires |e| >= NDMSG_BYTES
    ensures StateSelected(mask, e)
            <==> || CommonBit(Word(e[8] as int + 256 * (e[9] as int)), mask)
                 || (e[8] == 0 && e[9] == 0 && mask & 0x100 != 0)
                 || e[10] / 8 % 2 == 1
                 || e[0] == 12
  {
    hide CommonBit, Word, GetU16, Overlap;
    StateWord(e);
    WordBits(GetU16(e, 8), mask);
    NoState(GetU16(e, 8));
  }

  lemma StateWord(e: Entry)
    requires |e| >= NDMSG_BYTES
    ensures GetU16(e, 8) == e[8] as int + 256 * (e[9] as int)
    ensures GetU16(e, 8) == 0 <==> e[8] == 0 && e[9] == 0
  {
  }

  // ---------------------------------------------------------------- entries that turn FAILED

  /** `e` is what is left of `o` once its deletion has been accepted but not completed: the same family
      and proxy flag and state FAILED. Its other bytes may be anything. */
  ghost predicate FailedForm(o: Entry, e: Entry) {
    && |o| >= NDMSG_BYTES && |e| >= NDMSG_BYTES
    && e[0] == o[0] && IsProxy(e) == IsProxy(o) && StateOf(e) == NUD_FAILED
  }

  /** The tests of `print_neigh` other than the one on the state. */
  predicate OtherwiseSelected(filter: NeighFilter, e: Entry)
    requires |e| >= NDMSG_BYTES
  {
    && (filter.family == 0 || filter.family == e[0] as int)
    && (filter.index == 0 || filter.index == GetU32(e, 4))
    && filter.rest(e)
  }

  /** `steady`: turning FAILED does not change the outcome of the other tests. */
  ghost predicate Turns(filter: NeighFilter, steady: bool, o: Entry, e: Entry) {
    FailedForm(o, e) && (steady ==> (OtherwiseSelected(filter, e) <==> OtherwiseSelected(filter, o)))
  }

  /** A proxy or DECnet neighbour: these match in any state. */
  predicate AnyState(e: Entry)
    requires |e| >= NDMSG_BYTES
  {
    IsProxy(e) || e[0] == AF_DECNET
  }

  /** An entry that no mask spares. */
  ghost predicate Sticky(filter: NeighFilter, e: Entry) {
    |e| >= NDMSG_BYTES && AnyState(e) && OtherwiseSelected(filter, e)
  }

  ghost predicate HasSticky(filter: NeighFilter, table: Table) {
    exists e :: e in table && Sticky(filter, e)
  }

  function Cleared(mask: bv32): bv32 {
    mask & !NUD_FAILED
  }

  /** Clearing takes FAILED from the mask and nothing else. */
  lemma ClearedMeaning(mask: bv32, b: bv32)
    ensures Cleared(mask) & 0x20 == 0
    ensures b & 0x20 == 0 ==> Cleared(mask) & b == mask & b
  {
  }

  /** Clearing FAILED never makes an entry match that did not match before. */
  lemma ClearedMaskSelectsLess(filter: NeighFilter, mask: bv32, e: Entry)
    requires NeighVerdict(filter, Cleared(mask), e) == Take
    ensures NeighVerdict(filter, mask, e) == Take
  {
  }

  /** With FAILED cleared from the mask, an entry that has turned FAILED is selected exactly when it is
      a proxy or a DECnet neighbour that passes the other tests. */
  lemma FailedIsSpared(filter: NeighFilter, mask: bv32, o: Entry, e: Entry)
    requires FailedForm(o, e)
    ensures NeighVerdict(filter, Cleared(mask), e) == Take <==> AnyState(o) && OtherwiseSelected(filter, e)
  {
    assert mask & !NUD_FAILED & NUD_FAILED == 0;
  }

  /** A sticky entry is selected under every mask, and it is still sticky once it has turned FAILED. */
  lemma StickyIsTaken(filter: NeighFilter, mask: bv32, e: Entry)
    requires Sticky(filter, e)
    ensures NeighVerdict(filter, mask, e) == Take
    ensures forall f :: Turns(filter, true, e, f) ==> Sticky(filter, f)
  {
  }

  lemma StickyIsWhole(filter: NeighFilter, e: Entry)
    requires Sticky(filter, e)
    ensures |e| >= NDMSG_BYTES
  {
  }

  // ---------------------------------------------------------------- what datagrams leave behind

  /** Untouched because no request named it, or turned FAILED. */
  ghost predicate Leftover(filter: NeighFilter, steady: bool, e: Entry, table: Table, named: set<Entry>) {
    || (e in table && e !in named)
    || (exists o :: o in table && Turns(filter, steady, o, e))
  }

  /** A delete removes an entry or turns it FAILED, and nothing is added. What is left still fits. */
  ghost predicate DeletesOrFails(kernel: Kernel, filter: NeighFilter, steady: bool) {
    && (forall k, table, datagram, e ::
          e in Apply(kernel, k, table, datagram) ==> Leftover(filter, steady, e, table, Bodies(Messages(datagram))))
    && (forall k, table, datagram :: FitTable(table) ==> FitTable(Apply(kernel, k, table, datagram)))
  }

  ghost predicate Remains(filter: NeighFilter, o: Entry, table: Table) {
    o in table || exists e :: e in table && Turns(filter, true, o, e)
  }

  /** A delete never does more than turn a neighbour FAILED. */
  ghost predicate OnlyMarks(kernel: Kernel, filter: NeighFilter) {
    && DeletesOrFails(kernel, filter, true)
    && forall k, table, datagram, o ::
         o in table && |o| >= NDMSG_BYTES ==> Remains(filter, o, Apply(kernel, k, table, datagram))
  }

  lemma TurnsAgain(filter: NeighFilter, steady: bool, o: Entry, p: Entry, e: Entry)
    requires Turns(filter, steady, o, p) && Turns(filter, steady, p, e)
    ensures Turns(filter, steady, o, e)
  {
  }

  lemma LeftoverStep(filter: NeighFilter, steady: bool, e: Entry, table: Table, next: Table, now: set<Entry>,
                     later: set<Entry>)
    requires forall x :: x in next ==> Leftover(filter, steady, x, table, now)
    requires Leftover(filter, steady, e, next, later)
    ensures Leftover(filter, steady, e, table, now + later)
  {
    hide Turns;
    if e in next && e !in later {
      assert Leftover(filter, steady, e, table, now);
    } else {
      var p :| p in next && Turns(filter, steady, p, e);
      assert Leftover(filter, steady, p, table, now);
      if !(p in table && p !in now) {
        var o :| o in table && Turns(filter, steady, o, p);
        TurnsAgain(filter, steady, o, p, e);
      }
    }
  }

  lemma {:induction false} LeftoverFrom(kernel: Kernel, filter: NeighFilter, steady: bool, table: Table,
                                        wire: seq<seq<byte>>, lo: nat, e: Entry)
    requires DeletesOrFails(kernel, filter, steady) && lo <= |wire|
    requires e in ApplyFrom(kernel, table, wire, lo)
    ensures Leftover(filter, steady, e, table, Bodies(DeliveredFrom(wire, lo)))
    decreases |wire| - lo
  {
    hide Turns, Messages, Leftover;
    if lo < |wire| {
      var next := Apply(kernel, lo, table, wire[lo]);
      LeftoverFrom(kernel, filter, steady, next, wire, lo + 1, e);
      BodiesConcat(Messages(wire[lo]), DeliveredFrom(wire, lo + 1));
      LeftoverStep(filter, steady, e, table, next, Bodies(Messages(wire[lo])), Bodies(DeliveredFrom(wire, lo + 1)));
    } else {
      NothingNamed(filter, steady, e, table);
      assert Bodies(DeliveredFrom(wire, lo)) == {};
    }
  }

  lemma NothingNamed(filter: NeighFilter, steady: bool, e: Entry, table: Table)
    requires e in table
    ensures Leftover(filter, steady, e, table, {})
  {
  }

  lemma {:induction false} FitFrom(kernel: Kernel, filter: NeighFilter, steady: bool, table: Table,
                                   wire: seq<seq<byte>>, lo: nat)
    requires DeletesOrFails(kernel, filter, steady) && FitTable(table) && lo <= |wire|
    ensures FitTable(ApplyFrom(kernel, table, wire, lo))
    decreases |wire| - lo
  {
    hide Leftover, Messages, FitTable;
    if lo < |wire| {
      FitFrom(kernel, filter, steady, Apply(kernel, lo, table, wire[lo]), wire, lo + 1);
    }
  }

  /** No datagrams rid the table of its sticky entries. */
  lemma {:induction false} StickySurvives(kernel: Kernel, filter: NeighFilter, table: Table, wire: seq<seq<byte>>,
                                          lo: nat)
    requires OnlyMarks(kernel, filter) && HasSticky(filter, table) && lo <= |wire|
    ensures HasSticky(filter, ApplyFrom(kernel, table, wire, lo))
    decreases |wire| - lo
  {
    hide Messages, Turns, Sticky, DeletesOrFails;
    if lo < |wire| {
      var next := Apply(kernel, lo, table, wire[lo]);
      var o :| o in table && Sticky(filter, o);
      StickyIsTaken(filter, 0, o);
      StickyIsWhole(filter, o);
      assert Remains(filter, o, next);
      StickySurvives(kernel, filter, next, wire, lo + 1);
    }
  }

  // ---------------------------------------------------------------- one round

  /** The neighbours that match in any state fail the other tests, steadily. Without steadiness: there
      are none. */
  ghost predicate Calm(filter: NeighFilter, steady: bool, table: Table) {
    forall e :: e in table && |e| >= NDMSG_BYTES && AnyState(e) ==> steady && !OtherwiseSelected(filter, e)
  }

  lemma LeftoverIsSpared(filter: NeighFilter, steady: bool, mask: bv32, dump: seq<Msg>, table: Table,
                         named: set<Entry>, e: Entry)
    requires Calm(filter, steady, table) && Announces(dump, NEIGHBOURS, table)
    requires named == Bodies(Selected(dump, Callback(NEIGHBOURS, NeighSelect(filter, mask))))
    requires Leftover(filter, steady, e, table, named)
    ensures Wanted(NeighSelect(filter, Cleared(mask)), e) != Take
    ensures |e| >= NDMSG_BYTES && AnyState(e) ==> steady && !OtherwiseSelected(filter, e)
  {
    hide OtherwiseSelected, NeighVerdict, Selected, Cleared, IsProxy, StateOf;
    if e in table && e !in named {
      SelectedBodies(dump, NEIGHBOURS, NeighSelect(filter, mask), table, e);
      if NeighVerdict(filter, Cleared(mask), e) == Take {
        ClearedMaskSelectsLess(filter, mask, e);
      }
    } else {
      var o :| o in table && Turns(filter, steady, o, e);
      FailedIsSpared(filter, mask, o, e);
    }
  }

  /** After one round in which a delete removes an entry or turns it FAILED, nothing is left that
      the next round would select. */
  lemma SecondRoundIsClean(kernel: Kernel, filter: NeighFilter, steady: bool, mask: bv32, dump: seq<Msg>, table: Table,
                           wire: seq<seq<byte>>, lo: nat)
    requires DeletesOrFails(kernel, filter, steady) && Calm(filter, steady, table)
    requires Announces(dump, NEIGHBOURS, table) && lo <= |wire|
    requires Bodies(DeliveredFrom(wire, lo)) == Bodies(Selected(dump, Callback(NEIGHBOURS, NeighSelect(filter, mask))))
    ensures AllSpared(ApplyFrom(kernel, table, wire, lo), NeighSelect(filter, Cleared(mask)))
    ensures Calm(filter, steady, ApplyFrom(kernel, table, wire, lo))
  {
    hide Leftover, DeletesOrFails, Announces, OtherwiseSelected, IsProxy, Wanted, Selected, Messages, ApplyFrom;
    forall e | e in ApplyFrom(kernel, table, wire, lo)
      ensures Wanted(NeighSelect(filter, Cleared(mask)), e) != Take
      ensures |e| >= NDMSG_BYTES && AnyState(e) ==> steady && !OtherwiseSelected(filter, e)
    {
      LeftoverFrom(kernel, filter, steady, table, wire, lo, e);
      LeftoverIsSpared(filter, steady, mask, dump, table, Bodies(DeliveredFrom(wire, lo)), e);
    }
  }

  /** What is known of the table after some rounds. */
  ghost predicate NeighEffect(kernel: Kernel, filter: NeighFilter, table0: Table, rounds: nat, table: Table,
                              mask: bv32, clean: bool)
  {
    && (rounds == 0 ==> table == table0)
    && (clean && Shows(kernel, NEIGHBOURS, table) ==> AllSpared(table, NeighSelect(filter, mask)))
    && CalmEffect(kernel, filter, false, table0, rounds, table, mask)
    && CalmEffect(kernel, filter, true, table0, rounds, table, mask)
    && (OnlyMarks(kernel, filter) && HasSticky(filter, table0) ==> HasSticky(filter, table))
  }

  ghost predicate CalmEffect(kernel: Kernel, filter: NeighFilter, steady: bool, table0: Table, rounds: nat,
                             table: Table, mask: bv32)
  {
    Shows(kernel, NEIGHBOURS, table0) && DeletesOrFails(kernel, filter, steady) ==>
      && FitTable(table)
      && (Calm(filter, steady, table0) ==>
            && rounds <= 1 && Calm(filter, steady, table)
            && (rounds == 1 ==> AllSpared(table, NeighSelect(filter, mask))))
  }

  lemma CalmRound(kernel: Kernel, filter: NeighFilter, steady: bool, table0: Table, rounds: nat, table: Table,
                  mask: bv32, chosen: seq<Msg>, wire: seq<seq<byte>>, lo: nat)
    requires CalmEffect(kernel, filter, steady, table0, rounds, table, mask) && lo <= |wire|
    requires chosen == Selected(DumpOf(kernel, rounds, table), Callback(NEIGHBOURS, NeighSelect(filter, mask)))
    requires chosen != [] && Bodies(DeliveredFrom(wire, lo)) == Bodies(chosen)
    ensures CalmEffect(kernel, filter, steady, table0, rounds + 1, ApplyFrom(kernel, table, wire, lo), Cleared(mask))
  {
    hide Calm, Selected, AllSpared, DeletesOrFails, Messages, ApplyFrom, Announces, Cleared, FitTable;
    if Shows(kernel, NEIGHBOURS, table0) && DeletesOrFails(kernel, filter, steady) {
      FitFrom(kernel, filter, steady, table, wire, lo);
      if Calm(filter, steady, table0) {
        var dump := DumpOf(kernel, rounds, table);
        assert Announces(dump, NEIGHBOURS, table);
        SomethingWanted(kernel, NEIGHBOURS, NeighSelect(filter, mask), rounds, table);
        SecondRoundIsClean(kernel, filter, steady, mask, dump, table, wire, lo);
      }
    }
  }

  lemma NeighRound(kernel: Kernel, filter: NeighFilter, table0: Table, rounds: nat, table: Table, mask: bv32,
                   chosen: seq<Msg>, wire: seq<seq<byte>>, lo: nat)
    requires NeighEffect(kernel, filter, table0, rounds, table, mask, false) && lo <= |wire|
    requires chosen == Selected(DumpOf(kernel, rounds, table), Callback(NEIGHBOURS, NeighSelect(filter, mask)))
    requires chosen != [] ==> Bodies(DeliveredFrom(wire, lo)) == Bodies(chosen)
    ensures chosen == [] ==> NeighEffect(kernel, filter, table0, rounds, table, mask, true)
    ensures chosen != [] ==>
              NeighEffect(kernel, filter, table0, rounds + 1, ApplyFrom(kernel, table, wire, lo), Cleared(mask), false)
  {
    hide CalmEffect, Selected, AllSpared, Shows, OnlyMarks, HasSticky, ApplyFrom, Messages, Cleared;
    if chosen == [] {
      CleanRound(kernel, NEIGHBOURS, NeighSelect(filter, mask), rounds, table);
    } else {
      CalmRound(kernel, filter, false, table0, rounds, table, mask, chosen, wire, lo);
      CalmRound(kernel, filter, true, table0, rounds, table, mask, chosen, wire, lo);
      if OnlyMarks(kernel, filter) && HasSticky(filter, table0) {
        StickySurvives(kernel, filter, table, wire, lo);
      }
    }
  }

  lemma EffectAtStart(kernel: Kernel, filter: NeighFilter, table0: Table, mask: bv32)
    ensures NeighEffect(kernel, filter, table0, 0, table0, mask, false)
  {
  }

  lemma EffectAtEnd(kernel: Kernel, filter: NeighFilter, table0: Table, rounds: nat, table: Table, mask: bv32,
                    clean: bool)
    requires NeighEffect(kernel, filter, table0, rounds, table, mask, clean)
    ensures clean && Shows(kernel, NEIGHBOURS, table) ==> AllSpared(table, NeighSelect(filter, mask))
    ensures Shows(kernel, NEIGHBOURS, table0) && Calm(filter, false, table0) ==>
              DeletesOrFails(kernel, filter, false) ==>
              rounds <= 1
    ensures Shows(kernel, NEIGHBOURS, table0) && OnlyMarks(kernel, filter) ==>
              if HasSticky(filter, table0) then !clean else rounds <= 1
  {
    hide Snapshot, DeletesOrFails, NeighVerdict, OtherwiseSelected, IsProxy;
    if clean && Shows(kernel, NEIGHBOURS, table0) && OnlyMarks(kernel, filter) && HasSticky(filter, table0) {
      var e :| e in table && Sticky(filter, e);
      StickyIsTaken(filter, mask, e);
    }
  }

  // ---------------------------------------------------------------- whole runs

  /** The mask in force after some rounds. */
  function MaskAfter(mask0: bv32, rounds: nat): bv32 {
    if rounds == 0 then mask0 else Cleared(MaskAfter(mask0, rounds - 1))
  }

  /** From the first deleting round on, the mask is the given one without FAILED. */
  lemma {:induction false} MaskMeaning(mask0: bv32, rounds: nat, b: bv32)
    requires rounds > 0
    ensures MaskAfter(mask0, rounds) & 0x20 == 0
    ensures b & 0x20 == 0 ==> MaskAfter(mask0, rounds) & b == mask0 & b
  {
    hide Cleared, MaskAfter;
    NoRounds(mask0);
    MaskStep(mask0, rounds);
    ClearedMeaning(MaskAfter(mask0, rounds - 1), b);
    if rounds > 1 {
      MaskMeaning(mask0, rounds - 1, b);
    }
  }

  lemma NoRounds(mask0: bv32)
    ensures MaskAfter(mask0, 0) == mask0
  {
  }

  lemma MaskStep(mask0: bv32, rounds: nat)
    requires rounds > 0
    ensures MaskAfter(mask0, rounds) == Cleared(MaskAfter(mask0, rounds - 1))
  {
  }

  /** No round selects a neighbour that its mask does not select. */
  ghost predicate OnlyMasked(log: seq<seq<Msg>>, filter: NeighFilter, mask0: bv32) {
    forall i, m :: 0 <= i < |log| && m in log[i] ==>
      && |m| >= HEADER && TypeOf(m) == NEIGHBOURS.newType
      && Wanted(NeighSelect(filter, MaskAfter(mask0, i)), Body(m)) == Take
  }

  lemma ChosenMasked(log: seq<seq<Msg>>, dump: seq<Msg>, filter: NeighFilter, mask0: bv32)
    requires OnlyMasked(log, filter, mask0)
    ensures OnlyMasked(log + [Selected(dump, Callback(NEIGHBOURS, NeighSelect(filter, MaskAfter(mask0, |log|))))],
                       filter, mask0)
  {
    hide NeighVerdict, MaskAfter, Selected;
    var select := NeighSelect(filter, MaskAfter(mask0, |log|));
    var cb := Callback(NEIGHBOURS, select);
    forall m | m in Selected(dump, cb)
      ensures |m| >= HEADER && TypeOf(m) == NEIGHBOURS.newType && Wanted(select, Body(m)) == Take
    {
      SelectedMembers(dump, cb, m);
    }
  }

  /** A message of the first dump that announces an entry which meets the tests. */
  ghost predicate Announced(kernel: Kernel, filter: NeighFilter, mask: bv32, table: Table, m: Msg) {
    m in DumpOf(kernel, 0, table) && |m| >= HEADER && TypeOf(m) == 28 && Meets(filter, mask, Body(m))
  }

  lemma AskedFor(kernel: Kernel, filter: NeighFilter, mask: bv32, table: Table, m: Msg)
    ensures m in Selected(DumpOf(kernel, 0, table), Callback(NEIGHBOURS, NeighSelect(filter, mask)))
            <==> Announced(kernel, filter, mask, table, m)
  {
    hide Selected, Meets, NeighVerdict, TypeOf;
    SelectedMembers(DumpOf(kernel, 0, table), Callback(NEIGHBOURS, NeighSelect(filter, mask)), m);
    if |m| >= HEADER {
      VerdictExactly(filter, mask, Body(m));
    }
  }

  datatype NeighResult = Running | Done | Bailed | Exited

  /** One round in terms of the whole run. */
  method NeighbourRound(s: FlushState, kernel: Kernel, filter: NeighFilter, mask: bv32, rounds: nat, table: Table,
                        ghost table0: Table, ghost issued: seq<Msg>, ghost log: seq<seq<Msg>>, ghost seq0: nat)
    returns (end: RoundEnd, after: Table, ghost chosen: seq<Msg>, ghost handled: nat)
    requires InStep(s, NEIGHBOURS, issued, log, seq0)
    requires SendsMessages(kernel) && NeighEffect(kernel, filter, table0, rounds, table, mask, false)
    modifies s, s.flushb
    ensures s.Valid()
    ensures end != Fatal ==> InStep(s, NEIGHBOURS, issued, log + [chosen], seq0)
    ensures handled <= |DumpOf(kernel, rounds, table)| && LogOfMessages(log + [chosen])
    ensures chosen ==
              Selected(DumpOf(kernel, rounds, table)[..handled], Callback(NEIGHBOURS, NeighSelect(filter, mask)))
    ensures end != Fatal ==>
              chosen == Selected(DumpOf(kernel, rounds, table), Callback(NEIGHBOURS, NeighSelect(filter, mask)))
    ensures Delivered(s.wire) <= issued + LogRequests(log + [chosen], NEIGHBOURS.delType, seq0)
    ensures end == Fatal ==> Excused(kernel, NEIGHBOURS, NeighSelect(filter, mask), rounds, table, |s.wire|)
    ensures end == Clean ==> chosen == [] && NeighEffect(kernel, filter, table0, rounds, after, mask, true)
    ensures end == Deleted ==> NeighEffect(kernel, filter, table0, rounds + 1, after, Cleared(mask), false)
  {
    hide Messages, Packed, Delivered, DeliveredFrom, DeleteRequests, Selected, SeqAfter, ApplyFrom, IsMessage,
         LogEnd, LogRequests, NeighEffect, Cleared, LogOfMessages, Excused;
    ghost var lo := |s.wire|;
    end, after, chosen, handled := RunRound(s, kernel, NEIGHBOURS, NeighSelect(filter, mask), rounds, table);
    LogSnoc(issued, log, chosen, NEIGHBOURS.delType, seq0);
    if end != Fatal {
      NeighRound(kernel, filter, table0, rounds, table, mask, chosen, s.wire, lo);
    }
  }

  /** The flush loop of `do_show_or_flush`. A kernel whose deletes may leave entries visible as FAILED
      is flushed in one deleting round if no neighbour matches in any state; a kernel that never does
      more than turn entries FAILED is flushed exactly when it has no sticky entry. */
  method FlushNeighbours(s: FlushState, kernel: Kernel, filter: NeighFilter, mask0: bv32, table0: Table)
    returns (result: NeighResult, rounds: nat, table: Table, mask: bv32, ghost log: seq<seq<Msg>>)
    requires s.Valid() && s.flushp == 0 && s.flushb.Length == FLUSH_BYTES
    requires SendsMessages(kernel)
    modifies s, s.flushb
    ensures s.Valid() && result != Running
    ensures rounds <= MAX_ROUNDS && (result == Bailed ==> rounds == MAX_ROUNDS)
    ensures mask == MaskAfter(mask0, rounds)
    ensures result == Exited ==>
              Excused(kernel, NEIGHBOURS, NeighSelect(filter, mask), rounds, table, |s.wire|)
    // Only what the mask of each round selects is asked for, also in a run that is cut short.
    ensures LogOfMessages(log) && OnlyMasked(log, filter, mask0)
    ensures result == Exited ==>
              Delivered(s.wire) <= old(s.Requests()) + LogRequests(log, NEIGHBOURS.delType, old(s.seqNo))
    ensures result != Exited ==>
              && s.flushp == 0
              && s.Requests() == old(s.Requests()) + LogRequests(log, NEIGHBOURS.delType, old(s.seqNo))
    ensures result == Done ==> |log| == rounds + 1 && log[rounds] == []
    // A run that is not cut short asks in its first round for every entry that meets the tests.
    ensures result != Exited ==> log != [] && forall m :: m in log[0] <==> Announced(kernel, filter, mask0, table0, m)
    ensures result == Done && Shows(kernel, NEIGHBOURS, table) ==> AllSpared(table, NeighSelect(filter, mask))
    ensures Shows(kernel, NEIGHBOURS, table0) && Calm(filter, false, table0) ==>
              DeletesOrFails(kernel, filter, false) ==>
              result != Exited ==> result == Done && rounds <= 1
    ensures Shows(kernel, NEIGHBOURS, table0) && OnlyMarks(kernel, filter) && result != Exited ==>
              (result == Done <==> !HasSticky(filter, table0))
  {
    hide *;
    result, rounds, table, mask, log := Running, 0, table0, mask0, [];
    ghost var issued, seq0 := s.Requests(), s.seqNo;
    Opening(s, kernel, filter, table0, mask0);
    while result == Running && rounds < MAX_ROUNDS
      invariant s.Valid() && rounds <= MAX_ROUNDS && result != Bailed
      invariant mask == MaskAfter(mask0, rounds)
      invariant LogOfMessages(log) && OnlyMasked(log, filter, mask0)
      invariant result == Running ==> |log| == rounds
      invariant result != Exited && log != [] ==>
                  log[0] == Selected(DumpOf(kernel, 0, table0), Callback(NEIGHBOURS, NeighSelect(filter, mask0)))
      invariant result == Running && log == [] ==> table == table0 && mask == mask0
      invariant result == Done ==> log != []
      invariant result == Done ==> |log| == rounds + 1 && log[rounds] == []
      invariant result == Exited ==>
                  Excused(kernel, NEIGHBOURS, NeighSelect(filter, mask), rounds, table, |s.wire|)
      invariant result == Exited ==> Delivered(s.wire) <= issued + LogRequests(log, NEIGHBOURS.delType, seq0)
      invariant result != Exited ==> InStep(s, NEIGHBOURS, issued, log, seq0)
      invariant result != Exited ==> NeighEffect(kernel, filter, table0, rounds, table, mask, result == Done)
      decreases MAX_ROUNDS - rounds, result == Running
    {
      var end, after;
      ghost var chosen, handled;
      end, after, chosen, handled := NeighbourRound(s, kernel, filter, mask, rounds, table, table0, issued, log, seq0);
      ChosenMasked(log, DumpOf(kernel, rounds, table)[..handled], filter, mask0);
      log := log + [chosen];
      if end == Fatal {
        result := Exited;
      } else {
        table := after;
        if end == Clean {
          result := Done;
        } else {
          rounds := rounds + 1;
          mask := Cleared(mask);
          MaskStep(mask0, rounds);
        }
      }
    }
    if result != Exited {
      EffectAtEnd(kernel, filter, table0, rounds, table, mask, result == Done);
      Closing(s, issued, log, seq0);
      forall m ensures m in log[0] <==> Announced(kernel, filter, mask0, table0, m) {
        AskedFor(kernel, filter, mask0, table0, m);
      }
    }
    if result == Running {
      result := Bailed;
    }
  }

  lemma Opening(s: FlushState, kernel: Kernel, filter: NeighFilter, table0: Table, mask0: bv32)
    requires s.Valid() && s.flushp == 0 && s.flushb.Length == FLUSH_BYTES
    ensures InStep(s, NEIGHBOURS, s.Requests(), [], s.seqNo) && LogOfMessages([])
    ensures NEIGHBOURS.delType < TWO_16 && s.seqNo < TWO_32
    ensures NeighEffect(kernel, filter, table0, 0, table0, mask0, false)
    ensures OnlyMasked([], filter, mask0) && MaskAfter(mask0, 0) == mask0 && MAX_ROUNDS > 1
  {
    hide NeighEffect, NeighVerdict;
    EffectAtStart(kernel, filter, table0, mask0);
  }

  lemma Closing(s: FlushState, issued: seq<Msg>, log: seq<seq<Msg>>, seq0: nat)
    requires InStep(s, NEIGHBOURS, issued, log, seq0)
    ensures s.flushp == 0 && seq0 < TWO_32 && KnownKind(NEIGHBOURS) && LogOfMessages(log)
    ensures s.Requests() == issued + LogRequests(log, NEIGHBOURS.delType, seq0)
  {
  }
}
