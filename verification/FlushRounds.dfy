/** The rounds of a flush: dump, delete what was selected, and dump again until nothing is
    selected. The kernel is the environment: it owns the table, may drop more than it is asked
    to, and answers each datagram with success or an error. */
module FlushRounds {
  import opened Bytes
  import opened NetlinkMessages
  import opened FlushBuffer

  /** An object is known by the body of the message that describes it. */
  type Entry = seq<byte>
  type Table = set<Entry>

  /** What the kernel does: the dump it sends in a round, what a datagram (counted from the first
      one ever sent) leaves of the table, and how the send is answered. */
  datatype Kernel = Kernel(dump: (nat, Table) -> seq<Msg>,
                           apply: (nat, Table, seq<byte>) -> Table,
                           results: nat -> SendResult)

  function DumpOf(kernel: Kernel, round: nat, table: Table): seq<Msg> {
    kernel.dump(round, table)
  }

  function Apply(kernel: Kernel, k: nat, table: Table, datagram: seq<byte>): Table {
    kernel.apply(k, table, datagram)
  }

  /** The table after the datagrams from the `lo`-th on. */
  function ApplyFrom(kernel: Kernel, table: Table, wire: seq<seq<byte>>, lo: nat): Table
    requires lo <= |wire|
    decreases |wire| - lo
  {
    if lo == |wire| then table
    else ApplyFrom(kernel, Apply(kernel, lo, table, wire[lo]), wire, lo + 1)
  }

  /** The entries a list of messages names. */
  ghost function Bodies(ms: seq<Msg>): set<Entry> {
    set m | m in ms && |m| >= HEADER :: Body(m)
  }

  /** A dump callback: the decision about a message that announces an object depends on the object
      alone; of other messages none is selected. */
  function Callback(kind: Kind, select: Entry -> Verdict): Msg -> Verdict {
    m => if |m| < HEADER then Skip
         else if TypeOf(m) == kind.newType then select(Body(m))
         else if TypeOf(m) in kind.others then (if |Body(m)| < kind.least then Bug else Skip)
         else if kind.strict then Bug
         else Skip
  }

  /** What becomes of each type of message in the three flushes. Types 20, 24 and 28 announce, 21, 25 and
      29 delete, 30 is a neighbour query. */
  lemma CallbackMeaning(select: Entry -> Verdict, m: Msg)
    requires |m| >= HEADER
    ensures Decide(Callback(ADDRESSES, select), m)
            == if TypeOf(m) == 20 then Wanted(select, Body(m))
               else if TypeOf(m) == 21 && |m| < HEADER + 8 then Bug
               else Skip
    ensures Decide(Callback(ROUTES, select), m)
            == if TypeOf(m) == 24 then Wanted(select, Body(m)) else if TypeOf(m) == 25 then Skip else Bug
    ensures Decide(Callback(NEIGHBOURS, select), m)
            == if TypeOf(m) == 28 then Wanted(select, Body(m))
               else if (TypeOf(m) == 29 || TypeOf(m) == 30) && |m| < HEADER + 12 then Bug
               else Skip
  {
    assert |Body(m)| == |m| - HEADER;
  }

  function Wanted(select: Entry -> Verdict, e: Entry): Verdict {
    select(e)
  }

  /** Every dump is made of whole messages that fit the flush buffer. */
  ghost predicate SendsMessages(kernel: Kernel) {
    forall round, table :: AllFit(DumpOf(kernel, round, table))
  }

  ghost predicate AllFit(dump: seq<Msg>) {
    forall i :: 0 <= i < |dump| ==> IsMessage(dump[i]) && |dump[i]| <= FLUSH_BYTES
  }

  /** An entry whose announcement fits the flush buffer. */
  ghost predicate Fits(e: Entry) {
    HEADER + |e| <= FLUSH_BYTES
  }

  ghost predicate FitTable(table: Table) {
    forall e :: e in table ==> Fits(e)
  }

  /** A dump announces each entry of the table, and nothing else. */
  ghost predicate Snapshot(kernel: Kernel, kind: Kind) {
    forall round, table :: FitTable(table) ==> Announces(DumpOf(kernel, round, table), kind, table)
  }

  /** The kernel dumps what it holds, and it holds this table. */
  ghost predicate Shows(kernel: Kernel, kind: Kind, table: Table) {
    Snapshot(kernel, kind) && FitTable(table)
  }

  ghost predicate Announces(dump: seq<Msg>, kind: Kind, table: Table) {
    && (forall m :: m in dump ==> |m| >= HEADER && TypeOf(m) == kind.newType && Body(m) in table)
    && (forall e :: e in table ==> exists m :: m in dump && |m| >= HEADER && Body(m) == e)
  }

  /** A datagram removes at least what it names, and nothing is ever added. */
  ghost predicate Deletes(kernel: Kernel) {
    forall k, table, datagram ::
      Apply(kernel, k, table, datagram) <= table - Bodies(Messages(datagram))
  }

  /** A weaker kernel: nothing is added, and a datagram that names an entry removes some entry. */
  ghost predicate Progresses(kernel: Kernel) {
    forall k, table, datagram ::
      && Apply(kernel, k, table, datagram) <= table
      && (Bodies(Messages(datagram)) * table != {} ==> Apply(kernel, k, table, datagram) != table)
  }

  lemma DeletesProgresses(kernel: Kernel)
    requires Deletes(kernel)
    ensures Progresses(kernel)
  {
    forall k, table, datagram
      ensures Apply(kernel, k, table, datagram) <= table
      ensures Bodies(Messages(datagram)) * table != {} ==> Apply(kernel, k, table, datagram) != table
    {
      assert Apply(kernel, k, table, datagram) <= table - Bodies(Messages(datagram));
      if e :| e in Bodies(Messages(datagram)) * table {
        assert e !in Apply(kernel, k, table, datagram);
      }
    }
  }

  // ---------------------------------------------------------------- what datagrams do to the table

  /** What a receiver decodes from the datagrams from the `lo`-th on. */
  ghost function DeliveredFrom(wire: seq<seq<byte>>, lo: nat): seq<Msg>
    requires lo <= |wire|
    decreases |wire| - lo
  {
    if lo == |wire| then [] else Messages(wire[lo]) + DeliveredFrom(wire, lo + 1)
  }

  lemma {:induction false} DeliveredSplits(wire: seq<seq<byte>>, lo: nat)
    requires lo <= |wire|
    ensures Delivered(wire) == Delivered(wire[..lo]) + DeliveredFrom(wire, lo)
    decreases |wire| - lo
  {
    hide Delivered, Messages;
    if lo == |wire| {
      assert wire[..lo] == wire;
      assert Delivered(wire) + [] == Delivered(wire);
    } else {
      DeliveredSplits(wire, lo + 1);
      DeliveredNext(wire, lo);
    }
  }

  lemma DeliveredNext(wire: seq<seq<byte>>, lo: nat)
    requires lo < |wire|
    ensures Delivered(wire[..lo + 1]) == Delivered(wire[..lo]) + Messages(wire[lo])
  {
    hide Messages;
    assert wire[..lo + 1][..lo] == wire[..lo];
  }

  lemma BodiesConcat(a: seq<Msg>, b: seq<Msg>)
    ensures Bodies(a + b) == Bodies(a) + Bodies(b)
  {
  }

  lemma {:induction false} DeletesAll(kernel: Kernel, table: Table, wire: seq<seq<byte>>, lo: nat)
    requires Deletes(kernel) && lo <= |wire|
    ensures ApplyFrom(kernel, table, wire, lo) <= table - Bodies(DeliveredFrom(wire, lo))
    decreases |wire| - lo
  {
    if lo < |wire| {
      var next := Apply(kernel, lo, table, wire[lo]);
      assert next <= table - Bodies(Messages(wire[lo]));
      DeletesAll(kernel, next, wire, lo + 1);
      BodiesConcat(Messages(wire[lo]), DeliveredFrom(wire, lo + 1));
    }
  }

  lemma {:induction false} ProgressesSome(kernel: Kernel, table: Table, wire: seq<seq<byte>>, lo: nat)
    requires Progresses(kernel) && lo <= |wire|
    ensures ApplyFrom(kernel, table, wire, lo) <= table
    ensures Bodies(DeliveredFrom(wire, lo)) * table != {} ==> ApplyFrom(kernel, table, wire, lo) < table
    decreases |wire| - lo
  {
    if lo < |wire| {
      var next := Apply(kernel, lo, table, wire[lo]);
      assert next <= table;
      ProgressesSome(kernel, next, wire, lo + 1);
      BodiesConcat(Messages(wire[lo]), DeliveredFrom(wire, lo + 1));
      if Bodies(DeliveredFrom(wire, lo)) * table != {} && next == table {
        assert Bodies(Messages(wire[lo])) * table == {};
        assert Bodies(DeliveredFrom(wire, lo + 1)) * table != {};
      }
    }
  }

  // ---------------------------------------------------------------- what a round selects

  lemma {:induction false} RequestBodies(ms: seq<Msg>, delType: nat, seq0: nat)
    requires AllMessages(ms) && delType < TWO_16 && seq0 < TWO_32
    ensures Bodies(DeleteRequests(ms, delType, seq0)) == Bodies(ms)
  {
    var rs := DeleteRequests(ms, delType, seq0);
    forall i | 0 <= i < |ms|
      ensures |rs[i]| >= HEADER && |ms[i]| >= HEADER && Body(rs[i]) == Body(ms[i])
    {
      DeleteRequestsMeaning(ms, delType, seq0, i);
    }
    forall e | e in Bodies(ms) ensures e in Bodies(rs) {
      var m :| m in ms && |m| >= HEADER && Body(m) == e;
      var i :| 0 <= i < |ms| && ms[i] == m;
      assert rs[i] in rs;
    }
    forall e | e in Bodies(rs) ensures e in Bodies(ms) {
      var r :| r in rs && |r| >= HEADER && Body(r) == e;
      var i :| 0 <= i < |rs| && rs[i] == r;
      assert ms[i] in ms;
    }
  }

  /** With a snapshot dump, the selected messages name exactly the wanted entries of the table. */
  lemma {:induction false} SelectedBodies(dump: seq<Msg>, kind: Kind, select: Entry -> Verdict, table: Table, e: Entry)
    requires Announces(dump, kind, table)
    ensures e in Bodies(Selected(dump, Callback(kind, select))) <==> e in table && Wanted(select, e) == Take
  {
    var cb := Callback(kind, select);
    if e in table {
      var m :| m in dump && |m| >= HEADER && Body(m) == e;
      SelectedMembers(dump, cb, m);
      assert Wanted(select, e) == Take ==> Decide(cb, m) == Take;
    }
    if e in Bodies(Selected(dump, cb)) {
      var m :| m in Selected(dump, cb) && |m| >= HEADER && Body(m) == e;
      SelectedMembers(dump, cb, m);
    }
  }

  // ---------------------------------------------------------------- one round

  datatype RoundEnd = Clean | Deleted | Fatal

  /** The table a round leaves behind, stated for the three kinds of kernel. */
  ghost predicate RoundEffect(kernel: Kernel, kind: Kind, select: Entry -> Verdict, before: Table, end: RoundEnd,
                              after: Table) {
    && (end == Clean ==> after == before)
    && (Shows(kernel, kind, before) && end == Clean ==> AllSpared(before, select))
    && (Progresses(kernel) ==> after <= before)
    && (Shows(kernel, kind, before) && Progresses(kernel) && end == Deleted ==> after < before)
    && (Shows(kernel, kind, before) && Deletes(kernel) && end == Deleted ==> AllSpared(after, select))
  }

  /** No entry of the table is one that the flush wants to delete. */
  ghost predicate AllSpared(table: Table, select: Entry -> Verdict) {
    forall e :: e in table ==> Wanted(select, e) != Take
  }

  lemma CleanRound(kernel: Kernel, kind: Kind, select: Entry -> Verdict, round: nat, table: Table)
    requires Selected(DumpOf(kernel, round, table), Callback(kind, select)) == []
    ensures RoundEffect(kernel, kind, select, table, Clean, table)
  {
    var dump := DumpOf(kernel, round, table);
    if Shows(kernel, kind, table) {
      assert Announces(dump, kind, table);
      forall e | e in table ensures Wanted(select, e) != Take {
        SelectedBodies(dump, kind, select, table, e);
      }
    }
  }

  lemma DeletingRound(kernel: Kernel, kind: Kind, select: Entry -> Verdict, dump: seq<Msg>, chosen: seq<Msg>,
                      table: Table, wire: seq<seq<byte>>, lo: nat)
    requires lo <= |wire|
    requires Shows(kernel, kind, table) ==> Announces(dump, kind, table)
    requires chosen == Selected(dump, Callback(kind, select)) && chosen != [] && AllMessages(chosen)
    requires Bodies(DeliveredFrom(wire, lo)) == Bodies(chosen)
    ensures RoundEffect(kernel, kind, select, table, Deleted, ApplyFrom(kernel, table, wire, lo))
  {
    var after := ApplyFrom(kernel, table, wire, lo);
    if Progresses(kernel) {
      ProgressesSome(kernel, table, wire, lo);
    }
    if Shows(kernel, kind, table) {
      var named := Body(chosen[0]);
      assert named in Bodies(chosen);
      SelectedBodies(dump, kind, select, table, named);
      assert named in Bodies(DeliveredFrom(wire, lo)) * table;
      if Deletes(kernel) {
        DeletesAll(kernel, table, wire, lo);
        forall e | e in after ensures Wanted(select, e) != Take {
          SelectedBodies(dump, kind, select, table, e);
        }
      }
    }
  }

  lemma RoundSent(chosen: seq<Msg>, wire: seq<seq<byte>>, lo: nat, delType: nat, seq0: nat)
    requires lo <= |wire| && delType < TWO_16 && seq0 < TWO_32 && AllMessages(chosen)
    requires Delivered(wire) == Delivered(wire[..lo]) + DeleteRequests(chosen, delType, seq0)
    ensures Bodies(DeliveredFrom(wire, lo)) == Bodies(chosen)
  {
    DeliveredSplits(wire, lo);
    RequestBodies(chosen, delType, seq0);
    assert DeliveredFrom(wire, lo) == Delivered(wire)[|Delivered(wire[..lo])|..];
    assert DeliveredFrom(wire, lo) == DeleteRequests(chosen, delType, seq0);
  }

  /** Why a round may end in an error: a message of its dump that the callback cannot handle, or the
      answer to the last of the datagrams sent so far. */
  ghost predicate Excused(kernel: Kernel, kind: Kind, select: Entry -> Verdict, round: nat, table: Table, sent: nat) {
    || (exists m :: m in DumpOf(kernel, round, table) && Decide(Callback(kind, select), m) == Bug)
    || (sent > 0 && !Tolerated(kind, ResultAt(kernel.results, sent - 1)))
  }

  lemma DumpFits(kernel: Kernel, round: nat, table: Table, callback: Msg -> Verdict)
    requires SendsMessages(kernel)
    ensures var dump := DumpOf(kernel, round, table);
            && AllMessages(dump) && EachFits(dump, callback, FLUSH_BYTES)
            && forall k :: 0 <= k <= |dump| ==> AllMessages(Selected(dump[..k], callback))
  {
    assert AllFit(DumpOf(kernel, round, table));
  }

  /** What has been sent comes before what is pending. */
  lemma SentIsPrefix(s: FlushState)
    requires s.flushp <= s.flushb.Length
    ensures Delivered(s.wire) <= s.Requests()
  {
  }

  /** One pass of the loop body up to and including the send of the last batch. A round that ends in an
      error has considered the first `handled` messages of the dump, and what it has sent is the
      beginning of the delete requests for those it selected. */
  method RunRound(s: FlushState, kernel: Kernel, kind: Kind, select: Entry -> Verdict, round: nat, before: Table)
    returns (end: RoundEnd, after: Table, ghost chosen: seq<Msg>, ghost handled: nat)
    requires s.Valid() && s.flushp == 0 && s.flushb.Length == FLUSH_BYTES
    requires KnownKind(kind) && SendsMessages(kernel)
    modifies s, s.flushb
    ensures s.Valid()
    ensures old(s.wire) <= s.wire
    ensures end == Clean ==> after == before
    ensures end == Deleted ==>
              && after == ApplyFrom(kernel, before, s.wire, |old(s.wire)|)
              && Bodies(DeliveredFrom(s.wire, |old(s.wire)|)) == Bodies(chosen)
    ensures handled <= |DumpOf(kernel, round, before)| && AllMessages(chosen)
    ensures chosen == Selected(DumpOf(kernel, round, before)[..handled], Callback(kind, select))
    ensures Delivered(s.wire) <= old(s.Requests()) + DeleteRequests(chosen, kind.delType, NextSeq(old(s.seqNo)))
    ensures end == Fatal ==> Excused(kernel, kind, select, round, before, |s.wire|)
    ensures end != Fatal ==>
              && chosen == Selected(DumpOf(kernel, round, before), Callback(kind, select)) && s.flushp == 0
              && s.flushed == |chosen| && (end == Clean <==> chosen == [])
              && s.seqNo == SeqAfter(NextSeq(old(s.seqNo)), |chosen|)
              && s.Requests() == old(s.Requests()) + DeleteRequests(chosen, kind.delType, NextSeq(old(s.seqNo)))
  {
    hide Messages, Packed, Delivered, DeliveredFrom, DeleteRequests, Selected, SeqAfter, ApplyFrom, IsMessage,
         FillAfter, Lengths, SendsMessages, AllFit, AllMessages, EachFits, NoBug, Decide, Callback, Tolerated, Bodies,
         ResultAt, DumpOf;
    s.EmptyBuffer();
    s.seqNo := NextSeq(s.seqNo);
    s.flushed := 0;
    var lo := |s.wire|;
    var dump := DumpOf(kernel, round, before);
    DumpFits(kernel, round, before, Callback(kind, select));
    var dumped, seen := s.ProcessDump(dump, Callback(kind, select), kind, kernel.results);
    assert dump[..|dump|] == dump;
    handled := seen;
    chosen, after := Selected(dump[..handled], Callback(kind, select)), before;
    SentIsPrefix(s);
    if dumped != Complete {
      end := Fatal;
    } else if s.flushed == 0 {
      end := Clean;
    } else {
      var ok := s.FlushUpdate(kind, ResultAt(kernel.results, |s.wire|));
      after := ApplyFrom(kernel, before, s.wire, lo);
      end := if ok then Deleted else Fatal;
      assert s.wire[..lo] == old(s.wire);
      RoundSent(chosen, s.wire, lo, kind.delType, NextSeq(old(s.seqNo)));
    }
  }
}
