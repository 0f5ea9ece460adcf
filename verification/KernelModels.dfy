/** Kernels that meet the assumptions under which the flushes are proved to complete: the assumptions
    do not contradict each other, nor do those on the neighbours. */
module KernelModels {
  import opened Bytes
  import opened NetlinkMessages
  import opened FlushBuffer
  import opened FlushRounds
  import opened NeighbourFlush

  // ---------------------------------------------------------------- dumps

  /** The message that announces an entry. */
  ghost function Announcement(newType: nat, e: Entry): Msg
    requires newType < TWO_16 && Fits(e)
  {
    PutU32(HEADER + |e|) + PutU16(newType) + PutU16(0) + PutU32(0) + PutU32(0) + e
  }

  lemma AnnouncementMeaning(newType: nat, e: Entry)
    requires newType < TWO_16 && Fits(e)
    ensures var m := Announcement(newType, e);
            IsMessage(m) && |m| == HEADER + |e| <= FLUSH_BYTES && TypeOf(m) == newType && Body(m) == e
  {
    hide PutU16, PutU32, GetU16, GetU32;
    var m := Announcement(newType, e);
    assert m[0..4] == PutU32(HEADER + |e|);
    StoredU32(m, 0, HEADER + |e|);
    assert m[4..6] == PutU16(newType);
    StoredU16(m, 4, newType);
    assert m[HEADER..] == e;
  }

  /** A dump of the entries that fit, in some order. */
  ghost function DumpFor(newType: nat, table: Table): seq<Msg>
    requires newType < TWO_16
    decreases |table|
  {
    if table == {} then []
    else
      var e :| e in table;
      (if Fits(e) then [Announcement(newType, e)] else []) + DumpFor(newType, table - {e})
  }

  lemma {:induction false} DumpForIsFit(newType: nat, table: Table)
    requires newType < TWO_16
    ensures AllFit(DumpFor(newType, table))
    decreases |table|
  {
    hide IsMessage, Announcement;
    if table != {} {
      var e :| e in table && DumpFor(newType, table)
        == (if Fits(e) then [Announcement(newType, e)] else []) + DumpFor(newType, table - {e});
      DumpForIsFit(newType, table - {e});
      if Fits(e) {
        AnnouncementMeaning(newType, e);
      }
    }
  }

  lemma {:induction false} DumpForMembers(newType: nat, table: Table, m: Msg)
    requires newType < TWO_16
    ensures m in DumpFor(newType, table) <==> exists e :: e in table && Fits(e) && m == Announcement(newType, e)
    decreases |table|
  {
    hide Announcement;
    if table != {} {
      var e :| e in table && DumpFor(newType, table)
        == (if Fits(e) then [Announcement(newType, e)] else []) + DumpFor(newType, table - {e});
      DumpForMembers(newType, table - {e}, m);
    }
  }

  lemma DumpForAnnounces(kind: Kind, table: Table)
    requires KnownKind(kind) && FitTable(table)
    ensures Announces(DumpFor(kind.newType, table), kind, table)
  {
    hide Announcement, DumpFor, IsMessage;
    var dump := DumpFor(kind.newType, table);
    forall m | m in dump ensures |m| >= HEADER && TypeOf(m) == kind.newType && Body(m) in table {
      DumpForMembers(kind.newType, table, m);
      var e :| e in table && Fits(e) && m == Announcement(kind.newType, e);
      AnnouncementMeaning(kind.newType, e);
    }
    forall e | e in table ensures exists m :: m in dump && |m| >= HEADER && Body(m) == e {
      var m := Announcement(kind.newType, e);
      AnnouncementMeaning(kind.newType, e);
      DumpForMembers(kind.newType, table, m);
    }
  }

  ghost function KernelWith(newType: nat, apply: (nat, Table, seq<byte>) -> Table): Kernel
    requires newType < TWO_16
  {
    Kernel((round: nat, table: Table) => DumpFor(newType, table), apply, (k: nat) => Sent)
  }

  lemma KernelWithDumps(kind: Kind, apply: (nat, Table, seq<byte>) -> Table)
    requires KnownKind(kind)
    ensures var kernel := KernelWith(kind.newType, apply);
            && SendsMessages(kernel) && Snapshot(kernel, kind)
            && forall k :: Tolerated(kind, ResultAt(kernel.results, k))
  {
    hide DumpFor, AllFit, Announces;
    var kernel := KernelWith(kind.newType, apply);
    forall round, table ensures AllFit(DumpOf(kernel, round, table)) {
      DumpForIsFit(kind.newType, table);
    }
    forall round, table | FitTable(table) ensures Announces(DumpOf(kernel, round, table), kind, table) {
      DumpForAnnounces(kind, table);
    }
  }

  // ---------------------------------------------------------------- a kernel that deletes

  /** There is a kernel that dumps what it holds, honours every delete, and answers every send with
      success. */
  lemma SomeKernelDeletes(kind: Kind) returns (kernel: Kernel)
    requires KnownKind(kind)
    ensures SendsMessages(kernel) && Snapshot(kernel, kind) && Deletes(kernel) && Progresses(kernel)
    ensures forall k :: Tolerated(kind, ResultAt(kernel.results, k))
  {
    hide SendsMessages, Snapshot, Messages, Bodies;
    var apply := (k: nat, table: Table, datagram: seq<byte>) => table - Bodies(Messages(datagram));
    kernel := KernelWith(kind.newType, apply);
    KernelWithDumps(kind, apply);
    DeletesProgresses(kernel);
  }

  // ---------------------------------------------------------------- a kernel that marks

  /** The entry with its state set to FAILED. */
  ghost function Marked(e: Entry): Entry
    requires |e| >= NDMSG_BYTES
  {
    e[..8] + [0x20, 0] + e[10..]
  }

  lemma MarkedIsFailed(filter: NeighFilter, e: Entry)
    requires |e| >= NDMSG_BYTES && filter.rest(Marked(e)) == filter.rest(e)
    ensures Turns(filter, true, e, Marked(e)) && Turns(filter, false, e, Marked(e)) && (Fits(e) ==> Fits(Marked(e)))
  {
    assert GetU16(Marked(e), 8) == 0x20;
    assert GetU32(Marked(e), 4) == GetU32(e, 4);
  }

  /** What is left after the entries `named` have been asked for: neighbours turn FAILED, and what is
      too short to be one goes. */
  ghost function Markings(table: Table, named: set<Entry>): Table {
    (table - named) + set e | e in table && e in named && |e| >= NDMSG_BYTES :: Marked(e)
  }

  /** The other tests of the filter do not look at the state. */
  ghost predicate IgnoresState(filter: NeighFilter) {
    forall e: Entry :: |e| >= NDMSG_BYTES ==> filter.rest(Marked(e)) == filter.rest(e)
  }

  lemma MarkingsLeave(filter: NeighFilter, steady: bool, table: Table, named: set<Entry>)
    requires IgnoresState(filter)
    ensures forall e :: e in Markings(table, named) ==> Leftover(filter, steady, e, table, named)
    ensures FitTable(table) ==> FitTable(Markings(table, named))
    ensures forall o :: o in table && |o| >= NDMSG_BYTES ==> Remains(filter, o, Markings(table, named))
  {
    hide Turns, Marked;
    var left := Markings(table, named);
    forall e | e in left ensures Leftover(filter, steady, e, table, named) && (FitTable(table) ==> Fits(e)) {
      if !(e in table && e !in named) {
        var o :| o in table && o in named && |o| >= NDMSG_BYTES && e == Marked(o);
        MarkedIsFailed(filter, o);
      }
    }
    forall o | o in table && |o| >= NDMSG_BYTES ensures Remains(filter, o, left) {
      if o in named {
        assert Marked(o) in left;
        MarkedIsFailed(filter, o);
      }
    }
  }

  /** For every filter that does not look at the state beyond the mask there is a kernel that dumps what
      it holds and whose deletes only turn neighbours FAILED. */
  lemma SomeKernelMarks(filter: NeighFilter) returns (kernel: Kernel)
    requires IgnoresState(filter)
    ensures SendsMessages(kernel) && Snapshot(kernel, NEIGHBOURS)
    ensures OnlyMarks(kernel, filter) && DeletesOrFails(kernel, filter, false)
    ensures forall k :: Tolerated(NEIGHBOURS, ResultAt(kernel.results, k))
  {
    hide SendsMessages, Snapshot, Messages, Bodies, Leftover, Remains, FitTable, Markings, IgnoresState;
    KnownKinds();
    var apply := (k: nat, table: Table, datagram: seq<byte>) => Markings(table, Bodies(Messages(datagram)));
    kernel := KernelWith(NEIGHBOURS.newType, apply);
    KernelWithDumps(NEIGHBOURS, apply);
    forall k, table, datagram
      ensures var left := Apply(kernel, k, table, datagram);
              && (forall e :: e in left ==> Leftover(filter, true, e, table, Bodies(Messages(datagram))))
              && (forall e :: e in left ==> Leftover(filter, false, e, table, Bodies(Messages(datagram))))
              && (FitTable(table) ==> FitTable(left))
              && (forall o :: o in table && |o| >= NDMSG_BYTES ==> Remains(filter, o, left))
    {
      MarkingsLeave(filter, true, table, Bodies(Messages(datagram)));
      MarkingsLeave(filter, false, table, Bodies(Messages(datagram)));
    }
  }

  /** A proxy entry that a flush of everything never gets rid of, and an ordinary one that it does. */
  lemma ProxySticks(address: seq<byte>)
    requires |address| <= 16
    ensures var filter := NeighFilter(0, 0, (e: Entry) => true);
            var proxy := [2, 0, 0, 0, 1, 0, 0, 0, 2, 0, 8, 0] + address;
            var plain := [2, 0, 0, 0, 1, 0, 0, 0, 2, 0, 0, 0] + address;
            && IgnoresState(filter) && Fits(proxy) && Fits(plain)
            && HasSticky(filter, {proxy}) && !HasSticky(filter, {plain}) && Calm(filter, false, {plain})
  {
    var filter := NeighFilter(0, 0, (e: Entry) => true);
    var proxy := [2, 0, 0, 0, 1, 0, 0, 0, 2, 0, 8, 0] + address;
    assert proxy in {proxy} && Sticky(filter, proxy);
  }
}
