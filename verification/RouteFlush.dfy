/** `ip route flush`: rounds of dump and delete until a dump selects nothing or half a minute is over. */
module RouteFlush {
  import opened NetlinkMessages
  import opened FlushBuffer
  import opened FlushRounds
  import opened FlushRuns

  datatype FlushResult = Running | Done | Late | Aborted

  function Over(late: nat -> bool, round: nat): bool {
    late(round)
  }

  /** Time passes: some round ends after the deadline. */
  ghost predicate Ends(late: nat -> bool, deadline: nat) {
    forall round :: round >= deadline ==> Over(late, round)
  }

  /** `iproute_flush`; `late` says after which rounds more than thirty seconds have passed. */
  method FlushRoutes(s: FlushState, kernel: Kernel, select: Entry -> Verdict, table0: Table, late: nat -> bool,
                     ghost deadline: nat)
    returns (result: FlushResult, rounds: nat, table: Table, ghost log: seq<seq<Msg>>)
    requires s.Valid() && s.flushp == 0 && s.flushb.Length == FLUSH_BYTES
    requires SendsMessages(kernel) && Ends(late, deadline)
    modifies s, s.flushb
    ensures s.Valid() && result != Running
    ensures OnlyWanted(log, ROUTES, select) && LogOfMessages(log)
    ensures result == Aborted ==> Excused(kernel, ROUTES, select, rounds, table, |s.wire|)
    // Not even a run that is cut short asks for more than its dumps selected.
    ensures result == Aborted ==>
              Delivered(s.wire) <= old(s.Requests()) + LogRequests(log, ROUTES.delType, old(s.seqNo))
    ensures result != Aborted ==>
              && s.flushp == 0
              && s.Requests() == old(s.Requests()) + LogRequests(log, ROUTES.delType, old(s.seqNo))
    ensures result != Aborted ==> RunEffect(kernel, ROUTES, select, table0, rounds, table, result == Done)
    ensures result == Done ==> log != [] && log[|log| - 1] == []
    ensures result == Late ==> rounds > 0 && Over(late, rounds)
    ensures Shows(kernel, ROUTES, table0) && Deletes(kernel) && result != Aborted ==>
              (result == Done <==> AllSpared(table0, select) || !Over(late, 1))
  {
    hide *;
    result, rounds, table, log := Running, 0, table0, [];
    ghost var issued, seq0 := s.Requests(), s.seqNo;
    KnownKinds();
    Starting(s, kernel, ROUTES, select, table0);
    while result == Running
      invariant s.Valid() && OnlyWanted(log, ROUTES, select) && LogOfMessages(log)
      invariant result == Aborted ==> Excused(kernel, ROUTES, select, rounds, table, |s.wire|)
      invariant result == Aborted ==> Delivered(s.wire) <= issued + LogRequests(log, ROUTES.delType, seq0)
      invariant result != Aborted ==>
                  InStep(s, ROUTES, issued, log, seq0)
                    && RunEffect(kernel, ROUTES, select, table0, rounds, table, result == Done)
      invariant result == Running ==> forall k :: 0 < k <= rounds ==> !Over(late, k)
      invariant result == Late ==> rounds > 0 && Over(late, rounds)
      invariant result == Done ==> log != [] && log[|log| - 1] == [] && forall k :: 0 < k <= rounds ==> !Over(late, k)
      decreases deadline - rounds, result == Running
    {
      Soon(late, deadline, rounds);
      var end, after;
      ghost var chosen, handled;
      end, after, chosen, handled := LoggedRound(s, kernel, ROUTES, select, rounds, table, table0, issued, log, seq0);
      ChosenWanted(log, DumpOf(kernel, rounds, table)[..handled], ROUTES, select);
      log := log + [chosen];
      if end == Fatal {
        result := Aborted;
      } else {
        table := after;
        if end == Clean {
          result := Done;
        } else {
          rounds := rounds + 1;
          if Over(late, rounds) {
            result := Late;
          }
        }
      }
    }
    if result != Aborted {
      Ending(s, kernel, ROUTES, select, table0, rounds, table, result == Done, issued, log, seq0);
    }
  }

  lemma Soon(late: nat -> bool, deadline: nat, rounds: nat)
    requires Ends(late, deadline) && forall k :: 0 < k <= rounds ==> !Over(late, k)
    ensures rounds == 0 || rounds < deadline
  {
    assert rounds > 0 ==> !Over(late, rounds);
  }
}
