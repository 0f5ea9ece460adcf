/** Whole runs of a flush: what the rounds so far have asked for, and what they have done to the table. */
module FlushRuns {
  import opened Bytes
  import opened NetlinkMessages
  import opened FlushBuffer
  import opened FlushRounds

  /** `rth.seq` after the logged rounds: each one also spends a number on its dump request. */
  ghost function LogEnd(log: seq<seq<Msg>>, seq0: nat): (r: nat)
    requires seq0 < TWO_32
    ensures r < TWO_32
  {
    if log == [] then seq0
    else SeqAfter(NextSeq(LogEnd(log[..|log| - 1], seq0)), |log[|log| - 1]|)
  }

  ghost predicate LogOfMessages(log: seq<seq<Msg>>) {
    forall i :: 0 <= i < |log| ==> AllMessages(log[i])
  }

  /** The delete requests of a whole run, given what each round selected. */
  ghost function LogRequests(log: seq<seq<Msg>>, delType: nat, seq0: nat): seq<Msg>
    requires LogOfMessages(log) && delType < TWO_16 && seq0 < TWO_32
  {
    if log == [] then []
    else
      var n := |log| - 1;
      LogRequests(log[..n], delType, seq0) + DeleteRequests(log[n], delType, NextSeq(LogEnd(log[..n], seq0)))
  }

  lemma LogSnoc(issued: seq<Msg>, log: seq<seq<Msg>>, chosen: seq<Msg>, delType: nat, seq0: nat)
    requires LogOfMessages(log) && AllMessages(chosen) && delType < TWO_16 && seq0 < TWO_32
    ensures LogOfMessages(log + [chosen])
    ensures LogEnd(log + [chosen], seq0) == SeqAfter(NextSeq(LogEnd(log, seq0)), |chosen|)
    ensures issued + LogRequests(log, delType, seq0) + DeleteRequests(chosen, delType, NextSeq(LogEnd(log, seq0)))
         == issued + LogRequests(log + [chosen], delType, seq0)
  {
    assert (log + [chosen])[..|log|] == log;
  }

  /** How many messages the rounds selected. */
  ghost function Count(log: seq<seq<Msg>>): nat {
    if log == [] then 0 else Count(log[..|log| - 1]) + |log[|log| - 1]|
  }

  lemma {:induction false} LogEndModulo(log: seq<seq<Msg>>, seq0: nat)
    requires seq0 < TWO_32
    ensures LogEnd(log, seq0) == (seq0 + |log| + Count(log)) % TWO_32
  {
    hide SeqAfter;
    if log != [] {
      var n := |log| - 1;
      var before := LogEnd(log[..n], seq0);
      LogEndModulo(log[..n], seq0);
      SeqAfterModulo(NextSeq(before), |log[n]|);
      CounterSum(before, seq0 + n + Count(log[..n]), 1);
      CounterSum(NextSeq(before), seq0 + n + Count(log[..n]) + 1, |log[n]|);
    }
  }

  lemma CounterSum(r: nat, a: nat, b: nat)
    requires r == a % TWO_32
    ensures (r + b) % TWO_32 == (a + b) % TWO_32
  {
  }

  /** The request for message `j` of round `i` stands behind those of all earlier messages, names its
      object, and carries the number it has when every dump request is counted too. */
  lemma {:induction false} LogRequestAt(log: seq<seq<Msg>>, delType: nat, seq0: nat, i: nat, j: nat)
    requires LogOfMessages(log) && delType < TWO_16 && seq0 < TWO_32 && i < |log| && j < |log[i]|
    ensures |LogRequests(log, delType, seq0)| == Count(log)
    ensures var k := Count(log[..i]) + j;
            && k < Count(log)
            && var r := LogRequests(log, delType, seq0)[k];
            && IsMessage(r) && TypeOf(r) == delType && FlagsOf(r) == NLM_F_REQUEST
            && Body(r) == Body(log[i][j]) && SeqOf(r) == (seq0 + i + 1 + k + 1) % TWO_32
  {
    hide DeleteRequests, SeqAfter, IsMessage, SeqOf, TypeOf, FlagsOf, Body, LogEnd;
    var n := |log| - 1;
    var init := log[..n];
    LogLength(init, delType, seq0);
    if i < n {
      LogRequestAt(init, delType, seq0, i, j);
      assert init[..i] == log[..i];
    } else {
      var s := NextSeq(LogEnd(init, seq0));
      DeleteRequestsMeaning(log[n], delType, s, j);
      LogEndModulo(init, seq0);
      SeqAfterModulo(s, j + 1);
      CounterSum(LogEnd(init, seq0), seq0 + n + Count(init), 1);
      CounterSum(s, seq0 + n + Count(init) + 1, j + 1);
    }
  }

  lemma {:induction false} LogLength(log: seq<seq<Msg>>, delType: nat, seq0: nat)
    requires LogOfMessages(log) && delType < TWO_16 && seq0 < TWO_32
    ensures |LogRequests(log, delType, seq0)| == Count(log)
  {
    if log != [] {
      LogLength(log[..|log| - 1], delType, seq0);
    }
  }

  /** No round selects anything but announcements of objects that the filter wants deleted. */
  ghost predicate OnlyWanted(log: seq<seq<Msg>>, kind: Kind, select: Entry -> Verdict) {
    forall i, m :: 0 <= i < |log| && m in log[i] ==>
      |m| >= HEADER && TypeOf(m) == kind.newType && Wanted(select, Body(m)) == Take
  }

  lemma ChosenWanted(log: seq<seq<Msg>>, dump: seq<Msg>, kind: Kind, select: Entry -> Verdict)
    requires OnlyWanted(log, kind, select)
    ensures OnlyWanted(log + [Selected(dump, Callback(kind, select))], kind, select)
  {
    var cb := Callback(kind, select);
    forall m | m in Selected(dump, cb)
      ensures |m| >= HEADER && TypeOf(m) == kind.newType && Wanted(select, Body(m)) == Take
    {
      SelectedMembers(dump, cb, m);
    }
  }

  lemma SmallerTable(a: Table, b: Table)
    requires a < b
    ensures |a| < |b|
  {
    assert b == a + (b - a);
  }

  /** What the rounds so far have done to the table, for a kernel that dumps what it holds. */
  ghost predicate RunEffect(kernel: Kernel, kind: Kind, select: Entry -> Verdict, table0: Table, rounds: nat,
                            table: Table, clean: bool) {
    && (rounds == 0 ==> table == table0)
    && (clean && Shows(kernel, kind, table) ==> AllSpared(table, select))
    && (Shows(kernel, kind, table0) && Progresses(kernel) ==> table <= table0 && rounds + |table| <= |table0|)
    && (Shows(kernel, kind, table0) && Deletes(kernel) ==>
          && rounds <= 1
          && (rounds == 1 ==> AllSpared(table, select) && !AllSpared(table0, select)))
  }

  lemma RunEffectStep(kernel: Kernel, kind: Kind, select: Entry -> Verdict, table0: Table, rounds: nat, table: Table,
                      end: RoundEnd, after: Table)
    requires RunEffect(kernel, kind, select, table0, rounds, table, false) && end != Fatal
    requires RoundEffect(kernel, kind, select, table, end, after)
    requires end == Deleted && Shows(kernel, kind, table) ==> !AllSpared(table, select)
    ensures end == Clean ==> RunEffect(kernel, kind, select, table0, rounds, after, true)
    ensures end == Deleted ==> RunEffect(kernel, kind, select, table0, rounds + 1, after, false)
    ensures end == Deleted && Shows(kernel, kind, table0) && Progresses(kernel) ==> |after| < |table|
  {
    if Deletes(kernel) {
      DeletesProgresses(kernel);
    }
    if end == Deleted && Shows(kernel, kind, table0) && Progresses(kernel) {
      SmallerTable(after, table);
    }
  }

  lemma SomethingWanted(kernel: Kernel, kind: Kind, select: Entry -> Verdict, round: nat, table: Table)
    requires Shows(kernel, kind, table)
    requires Selected(DumpOf(kernel, round, table), Callback(kind, select)) != []
    ensures !AllSpared(table, select)
  {
    var dump := DumpOf(kernel, round, table);
    assert Announces(dump, kind, table);
    var chosen := Selected(dump, Callback(kind, select));
    SelectedMembers(dump, Callback(kind, select), chosen[0]);
    SelectedBodies(dump, kind, select, table, Body(chosen[0]));
  }

  /** Between rounds: nothing is pending, and what has been asked for since `issued` is exactly
      what the logged rounds selected. */
  ghost predicate InStep(s: FlushState, kind: Kind, issued: seq<Msg>, log: seq<seq<Msg>>, seq0: nat)
    reads s, s.flushb
  {
    && s.Valid() && s.flushp == 0 && s.flushb.Length == FLUSH_BYTES
    && KnownKind(kind) && seq0 < TWO_32 && LogOfMessages(log)
    && s.seqNo == LogEnd(log, seq0)
    && s.Requests() == issued + LogRequests(log, kind.delType, seq0)
  }

  /** The effect of one round in terms of the whole run. */
  method LoggedRound(s: FlushState, kernel: Kernel, kind: Kind, select: Entry -> Verdict, rounds: nat, table: Table,
                      ghost table0: Table, ghost issued: seq<Msg>, ghost log: seq<seq<Msg>>, ghost seq0: nat)
    returns (end: RoundEnd, after: Table, ghost chosen: seq<Msg>, ghost handled: nat)
    requires InStep(s, kind, issued, log, seq0) && SendsMessages(kernel)
    requires RunEffect(kernel, kind, select, table0, rounds, table, false)
    modifies s, s.flushb
    ensures s.Valid()
    ensures end != Fatal ==> InStep(s, kind, issued, log + [chosen], seq0)
    ensures handled <= |DumpOf(kernel, rounds, table)| && LogOfMessages(log + [chosen])
    ensures chosen == Selected(DumpOf(kernel, rounds, table)[..handled], Callback(kind, select))
    ensures end != Fatal ==> chosen == Selected(DumpOf(kernel, rounds, table), Callback(kind, select))
    ensures Delivered(s.wire) <= issued + LogRequests(log + [chosen], kind.delType, seq0)
    ensures end == Fatal ==> Excused(kernel, kind, select, rounds, table, |s.wire|)
    ensures end == Clean ==>
              chosen == [] && after == table && RunEffect(kernel, kind, select, table0, rounds, after, true)
    ensures end == Deleted ==> chosen != [] && RunEffect(kernel, kind, select, table0, rounds + 1, after, false)
    ensures end == Deleted && Shows(kernel, kind, table0) && Progresses(kernel) ==> |after| < |table|
  {
    hide Messages, Packed, Delivered, DeliveredFrom, DeleteRequests, Selected, SeqAfter, ApplyFrom, IsMessage,
         LogEnd, LogRequests, RunEffect, Shows, Progresses, Deletes, LogOfMessages,
         Excused;
    end, after, chosen, handled := RunRound(s, kernel, kind, select, rounds, table);
    LogSnoc(issued, log, chosen, kind.delType, seq0);
    if end != Fatal {
      if end == Clean {
        CleanRound(kernel, kind, select, rounds, table);
      } else {
        DeletedRound(kernel, kind, select, rounds, table, chosen, s.wire, |old(s.wire)|);
      }
      RunEffectStep(kernel, kind, select, table0, rounds, table, end, after);
    }
  }

  lemma DeletedRound(kernel: Kernel, kind: Kind, select: Entry -> Verdict, rounds: nat, table: Table, chosen: seq<Msg>,
                     wire: seq<seq<byte>>, lo: nat)
    requires chosen == Selected(DumpOf(kernel, rounds, table), Callback(kind, select))
    requires chosen != [] && AllMessages(chosen) && lo <= |wire|
    requires Bodies(DeliveredFrom(wire, lo)) == Bodies(chosen)
    ensures RoundEffect(kernel, kind, select, table, Deleted, ApplyFrom(kernel, table, wire, lo))
    ensures Shows(kernel, kind, table) ==> !AllSpared(table, select)
  {
    var dump := DumpOf(kernel, rounds, table);
    if Shows(kernel, kind, table) {
      assert Announces(dump, kind, table);
      SomethingWanted(kernel, kind, select, rounds, table);
    }
    DeletingRound(kernel, kind, select, dump, chosen, table, wire, lo);
  }

  lemma Starting(s: FlushState, kernel: Kernel, kind: Kind, select: Entry -> Verdict, table0: Table)
    requires s.Valid() && s.flushp == 0 && s.flushb.Length == FLUSH_BYTES && KnownKind(kind)
    ensures InStep(s, kind, s.Requests(), [], s.seqNo) && RunEffect(kernel, kind, select, table0, 0, table0, false)
    ensures OnlyWanted([], kind, select) && LogOfMessages([])
  {
  }

  lemma Ending(s: FlushState, kernel: Kernel, kind: Kind, select: Entry -> Verdict, table0: Table, rounds: nat,
               table: Table, clean: bool, issued: seq<Msg>, log: seq<seq<Msg>>, seq0: nat)
    requires InStep(s, kind, issued, log, seq0) && RunEffect(kernel, kind, select, table0, rounds, table, clean)
    ensures s.flushp == 0 && KnownKind(kind) && seq0 < TWO_32 && LogOfMessages(log)
    ensures s.Requests() == issued + LogRequests(log, kind.delType, seq0)
    ensures clean && rounds == 0 && Shows(kernel, kind, table0) ==> AllSpared(table0, select)
    ensures Shows(kernel, kind, table0) && Deletes(kernel) ==>
              rounds <= 1 && (rounds == 1 ==> !AllSpared(table0, select))
  {
    hide Messages, Delivered, DeleteRequests, LogEnd, LogRequests, Shows, Deletes, Progresses;
  }
}
