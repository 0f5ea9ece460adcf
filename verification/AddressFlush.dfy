/** `ip addr flush`: rounds of dump and delete until a dump selects nothing, at most
    `max_flush_loops` of them (zero: no limit), and only one when primary addresses are meant. */
module AddressFlush {
  import opened NetlinkMessages
  import opened FlushBuffer
  import opened FlushRounds
  import opened FlushRuns

  datatype FlushResult = Running | Done | Incomplete | Aborted

  /** `ipaddr_flush`. */
  method FlushAddresses(s: FlushState, kernel: Kernel, select: Entry -> Verdict, table0: Table,
                        maxLoops: nat, primaryOnly: bool)
    returns (result: FlushResult, rounds: nat, table: Table, ghost log: seq<seq<Msg>>)
    requires s.Valid() && s.flushp == 0 && s.flushb.Length == FLUSH_BYTES
    requires SendsMessages(kernel)
    requires maxLoops > 0 || (Shows(kernel, ADDRESSES, table0) && Progresses(kernel))
    modifies s, s.flushb
    ensures s.Valid() && result != Running
    ensures OnlyWanted(log, ADDRESSES, select) && LogOfMessages(log)
    ensures maxLoops > 0 ==> rounds <= maxLoops
    // Nothing is pending at the end, and what was asked for is exactly what the dumps selected.
    ensures result == Aborted ==> Excused(kernel, ADDRESSES, select, rounds, table, |s.wire|)
    // Not even a run that is cut short asks for more than its dumps selected.
    ensures result == Aborted ==>
              Delivered(s.wire) <= old(s.Requests()) + LogRequests(log, ADDRESSES.delType, old(s.seqNo))
    ensures result != Aborted ==>
              && s.flushp == 0
              && s.Requests() == old(s.Requests()) + LogRequests(log, ADDRESSES.delType, old(s.seqNo))
    ensures result != Aborted ==>
              RunEffect(kernel, ADDRESSES, select, table0, rounds, table, result == Done && !primaryOnly)
    ensures result == Done && !primaryOnly ==> log != [] && log[|log| - 1] == []
    ensures result == Incomplete ==> rounds == maxLoops
    ensures Shows(kernel, ADDRESSES, table0) && Deletes(kernel) && result != Aborted ==>
              (result == Done <==> maxLoops != 1 || primaryOnly || AllSpared(table0, select))
  {
    hide *;
    result, rounds, table, log := Running, 0, table0, [];
    ghost var issued, seq0 := s.Requests(), s.seqNo;
    KnownKinds();
    Starting(s, kernel, ADDRESSES, select, table0);
    while result == Running && (maxLoops == 0 || rounds < maxLoops)
      invariant s.Valid() && OnlyWanted(log, ADDRESSES, select) && LogOfMessages(log)
      invariant maxLoops > 0 ==> rounds <= maxLoops
      invariant result != Incomplete
      invariant result == Aborted ==> Excused(kernel, ADDRESSES, select, rounds, table, |s.wire|)
      invariant result == Aborted ==> Delivered(s.wire) <= issued + LogRequests(log, ADDRESSES.delType, seq0)
      invariant result != Aborted ==>
                  InStep(s, ADDRESSES, issued, log, seq0)
                    && RunEffect(kernel, ADDRESSES, select, table0, rounds, table, result == Done && !primaryOnly)
      invariant result == Running && primaryOnly ==> rounds == 0
      invariant result == Done ==> maxLoops != 1 || primaryOnly || rounds == 0
      invariant result == Done && !primaryOnly ==> log != [] && log[|log| - 1] == []
      decreases if maxLoops == 0 then |table| else maxLoops - rounds, result == Running
    {
      var end, after;
      ghost var chosen, handled;
      end, after, chosen, handled :=
        LoggedRound(s, kernel, ADDRESSES, select, rounds, table, table0, issued, log, seq0);
      ChosenWanted(log, DumpOf(kernel, rounds, table)[..handled], ADDRESSES, select);
      log := log + [chosen];
      if end == Fatal {
        result := Aborted;
      } else {
        table := after;
        if end == Clean {
          result := Done;
        } else {
          rounds := rounds + 1;
          if primaryOnly {
            result := Done;
          }
        }
      }
    }
    if result != Aborted {
      Ending(s, kernel, ADDRESSES, select, table0, rounds, table, result == Done && !primaryOnly, issued, log, seq0);
    }
    if result == Running {
      result := Incomplete;
    }
  }
}
