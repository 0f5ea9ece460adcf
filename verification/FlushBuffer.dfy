/** The flush buffer shared by `ip addr flush`, `ip route flush` and `ip neigh flush`: a dump
    callback turns every selected message into a delete request, packs the requests into a
    fixed buffer and sends the buffer when the next request does not fit. */
module FlushBuffer {
  import opened Bytes
  import opened NetlinkMessages

  const EADDRNOTAVAIL := 99

  /** The size of `flushb` in all three commands. */
  const FLUSH_BYTES: nat := 4096 - 512

  /** What differs between the three flushers: the message types, the send errors that are ignored,
      and what the callback makes of messages that announce nothing. Messages of the types `others` are
      passed over if they have at least `least` bytes of body; `strict` callbacks return an error for
      any further type, the others pass over it. */
  datatype Kind = Kind(newType: nat, delType: nat, ignored: set<int>, others: set<nat>, least: nat, strict: bool)

  const ADDRESSES := Kind(20, 21, {EADDRNOTAVAIL}, {21}, 8, false)
  const ROUTES := Kind(24, 25, {}, {25}, 0, true)
  const NEIGHBOURS := Kind(28, 29, {}, {29, 30}, 12, false)

  predicate KnownKind(kind: Kind) {
    kind.newType < TWO_16 && kind.delType < TWO_16
  }

  /** The types are those of rtnetlink, and a delete has the type after that of the announcement. */
  lemma KnownKinds()
    ensures KnownKind(ADDRESSES) && KnownKind(ROUTES) && KnownKind(NEIGHBOURS)
    ensures ADDRESSES.newType == 20 && ROUTES.newType == 24 && NEIGHBOURS.newType == 28
    ensures ADDRESSES.delType == ADDRESSES.newType + 1 && ROUTES.delType == ROUTES.newType + 1
    ensures NEIGHBOURS.delType == NEIGHBOURS.newType + 1
  {
  }

  /** The outcome of `rtnl_send_check`. */
  datatype SendResult = Sent | Failed(errno: int)

  predicate Tolerated(kind: Kind, r: SendResult) {
    r.Sent? || r.errno in kind.ignored
  }

  /** What a dump callback decides about a message: not selected, selected, or an error return. */
  datatype Verdict = Skip | Take | Bug

  function Decide(verdict: Msg -> Verdict, m: Msg): Verdict {
    verdict(m)
  }

  function ResultAt(results: nat -> SendResult, k: nat): SendResult {
    results(k)
  }

  /** How a dump ended: after the last message, by an error return of the callback, or by a send. */
  datatype DumpEnd = Complete | CallbackError | SendError

  /** `++rth.seq` on a 32-bit unsigned counter. */
  function NextSeq(s: nat): nat {
    if s == TWO_32 - 1 then 0 else s + 1
  }

  /** The counter `k` requests later. */
  function SeqAfter(s: nat, k: nat): (r: nat)
    requires s < TWO_32
    ensures r < TWO_32
  {
    if k == 0 then s else NextSeq(SeqAfter(s, k - 1))
  }

  lemma {:induction false} SeqAfterModulo(s: nat, k: nat)
    requires s < TWO_32
    ensures SeqAfter(s, k) == (s + k) % TWO_32
  {
    if k > 0 {
      SeqAfterModulo(s, k - 1);
      NextModulo(s + k - 1);
    }
  }

  lemma NextModulo(n: nat)
    ensures NextSeq(n % TWO_32) == (n + 1) % TWO_32
  {
    var q, r := n / TWO_32, n % TWO_32;
    assert n == q * TWO_32 + r;
    if r == TWO_32 - 1 {
      assert n + 1 == (q + 1) * TWO_32;
    } else {
      assert n + 1 == q * TWO_32 + (r + 1);
    }
  }

  ghost predicate AllMessages(ms: seq<Msg>) {
    forall i :: 0 <= i < |ms| ==> IsMessage(ms[i])
  }

  /** The selected messages of a dump, in dump order. */
  ghost function Selected(dump: seq<Msg>, verdict: Msg -> Verdict): (r: seq<Msg>)
    ensures AllMessages(dump) ==> AllMessages(r)
  {
    if dump == [] then []
    else
      var last := |dump| - 1;
      Selected(dump[..last], verdict) + (if Decide(verdict, dump[last]) == Take then [dump[last]] else [])
  }

  /** No message of the dump makes the callback return an error. */
  ghost predicate NoBug(dump: seq<Msg>, verdict: Msg -> Verdict) {
    forall m :: m in dump ==> Decide(verdict, m) != Bug
  }

  /** Every selected message fits an empty buffer. */
  ghost predicate EachFits(dump: seq<Msg>, verdict: Msg -> Verdict, size: nat) {
    forall m :: m in dump && Decide(verdict, m) == Take ==> |m| <= size
  }

  lemma {:induction false} SelectedMembers(dump: seq<Msg>, verdict: Msg -> Verdict, m: Msg)
    ensures m in Selected(dump, verdict) <==> m in dump && Decide(verdict, m) == Take
  {
    if dump != [] {
      var last := |dump| - 1;
      assert dump == dump[..last] + [dump[last]];
      SelectedMembers(dump[..last], verdict, m);
    }
  }

  lemma SelectedSnoc(dump: seq<Msg>, verdict: Msg -> Verdict, k: nat)
    requires k < |dump|
    ensures NoBug(dump[..k + 1], verdict) <==> NoBug(dump[..k], verdict) && Decide(verdict, dump[k]) != Bug
    ensures Selected(dump[..k + 1], verdict)
         == Selected(dump[..k], verdict) + (if Decide(verdict, dump[k]) == Take then [dump[k]] else [])
  {
    assert dump[..k + 1][..k] == dump[..k];
    assert dump[..k + 1] == dump[..k] + [dump[k]];
  }

  lemma NextOfDump(dump: seq<Msg>, verdict: Msg -> Verdict, size: nat, k: nat)
    requires k < |dump| && AllMessages(dump) && EachFits(dump, verdict, size)
    ensures IsMessage(dump[k]) && AllMessages(Selected(dump[..k], verdict))
            && AllMessages(Selected(dump[..k + 1], verdict))
    ensures Decide(verdict, dump[k]) == Take ==> |dump[k]| <= size
  {
  }

  /** One delete request for each message, numbered from the sequence number after `seq0`. */
  ghost function DeleteRequests(ms: seq<Msg>, delType: nat, seq0: nat): (r: seq<Msg>)
    requires AllMessages(ms) && delType < TWO_16 && seq0 < TWO_32
    ensures |r| == |ms|
  {
    seq(|ms|, i requires 0 <= i < |ms| => DeleteRequest(ms[i], delType, SeqAfter(seq0, i + 1)))
  }

  lemma DeleteRequestsSnoc(issued: seq<Msg>, ms: seq<Msg>, m: Msg, delType: nat, seq0: nat, s: nat)
    requires AllMessages(ms) && IsMessage(m) && delType < TWO_16 && seq0 < TWO_32
    requires s == NextSeq(SeqAfter(seq0, |ms|))
    ensures s < TWO_32
    ensures issued + DeleteRequests(ms + [m], delType, seq0)
         == issued + DeleteRequests(ms, delType, seq0) + [DeleteRequest(m, delType, s)]
  {
  }

  /** Request `i` asks for the deletion of the object of message `i` and of no other, and the
      requests carry consecutive sequence numbers. */
  lemma {:induction false} DeleteRequestsMeaning(ms: seq<Msg>, delType: nat, seq0: nat, i: nat)
    requires AllMessages(ms) && delType < TWO_16 && seq0 < TWO_32 && i < |ms|
    ensures var r := DeleteRequests(ms, delType, seq0)[i];
            && IsMessage(r) && TypeOf(r) == delType && FlagsOf(r) == NLM_F_REQUEST
            && Body(r) == Body(ms[i]) && SeqOf(r) == SeqAfter(seq0, i + 1)
  {
    DeleteRequestMeaning(ms[i], delType, SeqAfter(seq0, i + 1));
  }

  /** Strictly increasing exactly as long as the 32-bit counter does not wrap in between. */
  lemma {:induction false} SequenceNumbersIncrease(ms: seq<Msg>, delType: nat, seq0: nat, i: nat, j: nat)
    requires AllMessages(ms) && delType < TWO_16 && seq0 < TWO_32 && i < j < |ms| <= TWO_32
    ensures var r := DeleteRequests(ms, delType, seq0);
            && IsMessage(r[i]) && IsMessage(r[j])
            && (SeqOf(r[i]) < SeqOf(r[j]) <==> (seq0 + 1 + i) / TWO_32 == (seq0 + 1 + j) / TWO_32)
  {
    hide DeleteRequests, SeqAfter, AllMessages, IsMessage, SeqOf, TypeOf, FlagsOf, Body;
    DeleteRequestsMeaning(ms, delType, seq0, i);
    DeleteRequestsMeaning(ms, delType, seq0, j);
    SeqAfterModulo(seq0, i + 1);
    SeqAfterModulo(seq0, j + 1);
    CounterOrder(seq0 + 1 + i, seq0 + 1 + j);
  }

  lemma CounterOrder(a: nat, b: nat)
    requires a < b < a + TWO_32
    ensures a % TWO_32 < b % TWO_32 <==> a / TWO_32 == b / TWO_32
  {
  }

  lemma DumpStart(dump: seq<Msg>, verdict: Msg -> Verdict, delType: nat, seq0: nat, before: seq<Msg>)
    requires delType < TWO_16 && seq0 < TWO_32
    ensures Selected(dump[..0], verdict) == [] && NoBug(dump[..0], verdict) && SeqAfter(seq0, 0) == seq0
    ensures AllMessages([]) && before + DeleteRequests([], delType, seq0) == before
  {
  }

  lemma NothingFilled(start: nat, size: nat)
    ensures FillAfter(start, Lengths([]), size) == start
  {
  }

  /** Everything a receiver decodes from the datagrams sent so far. */
  ghost function Delivered(wire: seq<seq<byte>>): seq<Msg> {
    if wire == [] then []
    else Delivered(wire[..|wire| - 1]) + Messages(wire[|wire| - 1])
  }

  class FlushState {
    const flushb: array<byte>
    var flushp: nat
    var flushed: nat
    /** `rth.seq` */
    var seqNo: nat
    /** The byte strings handed to `rtnl_send_check`, oldest first. */
    var wire: seq<seq<byte>>
    ghost var pending: seq<Msg>

    ghost predicate Valid()
      reads this, flushb
    {
      && flushp <= flushb.Length
      && seqNo < TWO_32
      && Packed(flushb[..flushp], pending)
    }

    /** The delete requests issued so far: those sent, then those decoded from the buffer. */
    ghost function Requests(): seq<Msg>
      reads this, flushb
      requires flushp <= flushb.Length
    {
      Delivered(wire) + Messages(flushb[..flushp])
    }

    lemma EmptyBuffer()
      requires flushp == 0
      ensures Requests() == Delivered(wire)
    {
    }

    constructor (seqNo: nat)
      requires seqNo < TWO_32
      ensures Valid() && fresh(flushb) && flushb.Length == FLUSH_BYTES
      ensures flushp == 0 && flushed == 0 && wire == [] && this.seqNo == seqNo && pending == []
      ensures Requests() == []
    {
      flushb := new byte[FLUSH_BYTES](_ => 0);
      flushp, flushed, wire, pending := 0, 0, [], [];
      this.seqNo := seqNo;
    }

    /** `flush_update`. The buffer is emptied exactly when the send is not an error. */
    method FlushUpdate(kind: Kind, result: SendResult) returns (ok: bool)
      requires Valid()
      modifies this`flushp, this`wire, this`pending
      ensures Valid()
      ensures ok <==> Tolerated(kind, result)
      ensures wire == old(wire) + [flushb[..old(flushp)]]
      ensures Delivered(wire) == old(Requests())
      ensures ok ==> flushp == 0 && pending == [] && Requests() == old(Requests())
      ensures !ok ==> flushp == old(flushp) && pending == old(pending)
    {
      wire := wire + [flushb[..flushp]];
      assert wire[..|wire| - 1] == old(wire);
      if result.Failed? && result.errno !in kind.ignored {
        return false;
      }
      flushp := 0;
      pending := [];
      assert flushb[..flushp] == [];
      return true;
    }

    /** The flush branch of `print_addrinfo`, `print_route` and `print_neigh`. `result` is what a
        send would answer if this message makes the buffer overflow. */
    method Queue(n: Msg, kind: Kind, result: SendResult) returns (ok: bool)
      requires Valid() && KnownKind(kind)
      requires IsMessage(n) && |n| <= flushb.Length
      modifies this, flushb
      ensures Valid()
      ensures ok ==> seqNo == NextSeq(old(seqNo)) && flushed == old(flushed) + 1 && flushp > 0
      ensures ok ==> Requests() == old(Requests()) + [DeleteRequest(n, kind.delType, seqNo)]
      ensures ok ==> flushp == NextFill(old(flushp), |n|, flushb.Length)
      ensures !ok ==> seqNo == old(seqNo) && flushed == old(flushed) && !Tolerated(kind, result)
      ensures !ok ==> Delivered(wire) == old(Requests())
      ensures old(Align4(flushp)) + |n| <= flushb.Length ==> ok && wire == old(wire)
      ensures old(Align4(flushp)) + |n| > flushb.Length ==> wire == old(wire) + [old(flushb[..flushp])]
    {
      if Align4(flushp) + |n| > flushb.Length {
        ok := FlushUpdate(kind, result);
        if !ok {
          return;
        }
      }
      seqNo := NextSeq(seqNo);
      flushed := flushed + 1;
      DeleteRequestMeaning(n, kind.delType, seqNo);
      Append(DeleteRequest(n, kind.delType, seqNo));
      return true;
    }

    /** The copy into the buffer and the advance of the fill pointer. */
    method Append(fn: Msg)
      requires Valid() && IsMessage(fn)
      requires Align4(flushp) + |fn| <= flushb.Length
      modifies this`flushp, this`pending, flushb
      ensures Valid()
      ensures flushp == old(Align4(flushp)) + |fn|
      ensures Requests() == old(Requests()) + [fn]
    {
      hide Messages, Packed, Delivered, IsMessage;
      ghost var before, pad := flushb[..flushp], flushb[flushp..Align4(flushp)];
      PackedGrows(before, pending, pad, fn);
      Store(flushb, Align4(flushp), fn);
      flushp := Align4(flushp) + |fn|;
      pending := pending + [fn];
      assert flushb[..flushp] == before + pad + fn;
    }

    /** `Queue` in terms of the run so far: `before` was issued when the dump began, and `done` has
        been selected from it since. */
    method QueueNext(m: Msg, kind: Kind, result: SendResult, ghost before: seq<Msg>, ghost done: seq<Msg>,
                     ghost seq0: nat)
      returns (ok: bool)
      requires Valid() && KnownKind(kind) && seq0 < TWO_32
      requires IsMessage(m) && |m| <= flushb.Length && AllMessages(done)
      requires seqNo == SeqAfter(seq0, |done|)
      requires Requests() == before + DeleteRequests(done, kind.delType, seq0)
      modifies this, flushb
      ensures Valid()
      ensures ok ==> flushed == old(flushed) + 1 && flushp > 0 && seqNo == SeqAfter(seq0, |done + [m]|)
      ensures ok ==> flushp == NextFill(old(flushp), |m|, flushb.Length)
      ensures ok ==> Requests() == before + DeleteRequests(done + [m], kind.delType, seq0)
      ensures !ok ==> flushed == old(flushed) && seqNo == old(seqNo)
      ensures !ok ==> Delivered(wire) == before + DeleteRequests(done, kind.delType, seq0)
      ensures !ok ==> !Tolerated(kind, result) && |wire| == |old(wire)| + 1
      ensures old(wire) <= wire
    {
      ok := Queue(m, kind, result);
      if ok {
        DeleteRequestsSnoc(before, done, m, kind.delType, seq0, seqNo);
      }
    }

    /** `rtnl_dump_filter` over one dump with a flushing callback. Whatever the dump, what has been
        sent followed by what the buffer holds is exactly the selected messages in dump order, each
        rewritten into a delete request; an error return stops the dump at message `handled`. */
    method ProcessDump(dump: seq<Msg>, verdict: Msg -> Verdict, kind: Kind, results: nat -> SendResult)
      returns (end: DumpEnd, handled: nat)
      requires Valid() && KnownKind(kind) && AllMessages(dump)
      requires EachFits(dump, verdict, flushb.Length)
      modifies this, flushb
      ensures Valid()
      ensures handled <= |dump| && (end == Complete <==> handled == |dump|)
      ensures flushed == old(flushed) + |Selected(dump[..handled], verdict)|
      ensures seqNo == SeqAfter(old(seqNo), |Selected(dump[..handled], verdict)|)
      ensures end != SendError ==>
                Requests() == old(Requests())
                  + DeleteRequests(Selected(dump[..handled], verdict), kind.delType, old(seqNo))
      ensures end == SendError ==>
                Delivered(wire) == old(Requests())
                  + DeleteRequests(Selected(dump[..handled], verdict), kind.delType, old(seqNo))
      ensures NoBug(dump[..handled], verdict) && (end == CallbackError ==> Decide(verdict, dump[handled]) == Bug)
      ensures end == SendError ==> |wire| > 0 && !Tolerated(kind, ResultAt(results, |wire| - 1))
      ensures old(wire) <= wire
      ensures end == Complete ==>
                flushp == FillAfter(old(flushp), Lengths(Selected(dump, verdict)), flushb.Length)
      ensures end == Complete && flushed > old(flushed) ==> flushp > 0
      ensures end == Complete && flushed == old(flushed) ==> wire == old(wire) && flushp == old(flushp)
    {
      hide Messages, Packed, Delivered, DeleteRequests, Selected, IsMessage, AllMessages, EachFits, NoBug, SeqAfter,
           Decide, ResultAt, FillAfter, Lengths, NextFill;
      handled, end := 0, Complete;
      ghost var done, before := [], Requests();
      DumpStart(dump, verdict, kind.delType, seqNo, before);
      NothingFilled(flushp, flushb.Length);
      while handled < |dump| && end == Complete
        invariant handled <= |dump| && (end != Complete ==> handled < |dump|)
        invariant Valid()
        invariant done == Selected(dump[..handled], verdict) && AllMessages(done)
        invariant flushed == old(flushed) + |done|
        invariant seqNo == SeqAfter(old(seqNo), |done|)
        invariant end != SendError ==> Requests() == before + DeleteRequests(done, kind.delType, old(seqNo))
        invariant end == SendError ==> Delivered(wire) == before + DeleteRequests(done, kind.delType, old(seqNo))
        invariant NoBug(dump[..handled], verdict) && (end == CallbackError ==> Decide(verdict, dump[handled]) == Bug)
        invariant end == SendError ==> |wire| > 0 && !Tolerated(kind, ResultAt(results, |wire| - 1))
        invariant old(wire) <= wire
        invariant end == Complete ==> flushp == FillAfter(old(flushp), Lengths(done), flushb.Length)
        invariant end == Complete && done != [] ==> flushp > 0
        invariant end == Complete && done == [] ==> wire == old(wire) && flushp == old(flushp)
        decreases |dump| - handled, end == Complete
      {
        var m := dump[handled];
        SelectedSnoc(dump, verdict, handled);
        NextOfDump(dump, verdict, flushb.Length, handled);
        match Decide(verdict, m) {
          case Bug =>
            end := CallbackError;
          case Skip =>
            handled := handled + 1;
          case Take =>
            var queued := QueueNext(m, kind, ResultAt(results, |wire|), before, done, old(seqNo));
            if queued {
              FillNext(old(flushp), done, m, flushb.Length);
              handled, done := handled + 1, done + [m];
            } else {
              end := SendError;
            }
        }
      }
      assert dump[..|dump|] == dump;
    }
  }

  /** The fill pointer after one more request of `n` bytes, in a buffer of `size` bytes. */
  function NextFill(p: nat, n: nat, size: nat): nat {
    if Align4(p) + n > size then n else Align4(p) + n
  }

  /** The fill pointer after requests of these lengths, from `start` on. */
  function FillAfter(start: nat, lengths: seq<nat>, size: nat): nat {
    if lengths == [] then start
    else NextFill(FillAfter(start, lengths[..|lengths| - 1], size), lengths[|lengths| - 1], size)
  }

  ghost function Lengths(ms: seq<Msg>): (r: seq<nat>)
    ensures |r| == |ms|
  {
    seq(|ms|, i requires 0 <= i < |ms| => |ms[i]|)
  }

  lemma FillNext(start: nat, ms: seq<Msg>, m: Msg, size: nat)
    ensures FillAfter(start, Lengths(ms + [m]), size) == NextFill(FillAfter(start, Lengths(ms), size), |m|, size)
  {
    assert Lengths(ms + [m])[..|ms|] == Lengths(ms);
  }

  /** Emptying the buffer first is enough exactly when each request alone fits: then, and only
      then, the fill pointer stays within the buffer at every step of every run. */
  lemma {:induction false} FillStaysInside(start: nat, lengths: seq<nat>, size: nat)
    requires start <= size
    ensures (forall k :: 0 <= k <= |lengths| ==> FillAfter(start, lengths[..k], size) <= size)
            <==> (forall i :: 0 <= i < |lengths| ==> lengths[i] <= size)
  {
    forall k | 0 <= k < |lengths|
      ensures FillAfter(start, lengths[..k + 1], size)
              == NextFill(FillAfter(start, lengths[..k], size), lengths[k], size)
    {
      assert lengths[..k + 1][..k] == lengths[..k];
    }
    if i :| 0 <= i < |lengths| && lengths[i] > size {
      assert FillAfter(start, lengths[..i + 1], size) > size;
    }
    if forall i :: 0 <= i < |lengths| ==> lengths[i] <= size {
      forall k | 0 <= k <= |lengths| ensures FillAfter(start, lengths[..k], size) <= size {
        if k > 0 {
          assert FillAfter(start, lengths[..(k - 1) + 1], size)
              == NextFill(FillAfter(start, lengths[..k - 1], size), lengths[k - 1], size);
        }
      }
    }
  }
}
