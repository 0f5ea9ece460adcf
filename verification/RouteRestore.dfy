/** `ip route save` and `ip route restore`: the dump file as bytes, and the three passes in which
    its routes are requested again. */
module RouteRestore {
  import opened Wrappers
  import opened Bytes
  import opened NetlinkMessages
  import opened NextHops
  import opened StableSort

  const BUFFER := 16384

  /** The file `save_route` writes: each message with its own length, and no padding. */
  function Saved(ms: seq<Msg>): seq<byte> {
    if ms == [] then [] else ms[0] + Saved(ms[1..])
  }

  /** The messages handed to the handler, and whether the file was read to its end. */
  datatype Loaded = Loaded(ms: seq<Msg>, complete: bool)

  function More(m: Msg, rest: Loaded): Loaded {
    rest.(ms := [m] + rest.ms)
  }

  /** The sixteen bytes `fread` leaves in the buffer: a short read keeps the end of the last header. */
  function HeaderRead(b: seq<byte>, stale: seq<byte>): (h: seq<byte>)
    requires b != [] && |stale| == HEADER
    ensures |h| == HEADER
  {
    if |b| >= HEADER then b[..HEADER] else b + stale[|b|..]
  }

  function Behind(b: seq<byte>): seq<byte> {
    if |b| >= HEADER then b[HEADER..] else []
  }

  /** How far a payload of `l` bytes is read. */
  function Taken(l: nat, available: nat): nat {
    if Align4(l) <= available then Align4(l) else available
  }

  /** One round of `rtnl_from_file`: end of file, malformed or truncated, or one message. */
  datatype Reading = End | Broken | Got(m: Msg, rest: seq<byte>)

  function ReadOne(b: seq<byte>, stale: seq<byte>): (r: Reading)
    requires |stale| == HEADER
    ensures r.Got? ==> |r.m| >= HEADER && |r.rest| < |b|
  {
    if b == [] then End
    else
      var h := HeaderRead(b, stale);
      var len := GetU32(h, 0);
      if len < HEADER || len > BUFFER || |Behind(b)| < len - HEADER then Broken
      else Got(h + Behind(b)[..len - HEADER], Behind(b)[Taken(len - HEADER, |Behind(b)|)..])
  }

  /** `rtnl_from_file`: a header, then the payload rounded up to four bytes, until the end. */
  function Load(b: seq<byte>, stale: seq<byte>): Loaded
    requires |stale| == HEADER
    decreases |b|
  {
    match ReadOne(b, stale)
    case End => Loaded([], true)
    case Broken => Loaded([], false)
    case Got(m, rest) => More(m, Load(rest, m[..HEADER]))
  }

  ghost predicate Savable(ms: seq<Msg>) {
    forall i :: 0 <= i < |ms| ==> IsMessage(ms[i]) && |ms[i]| <= BUFFER
  }

  /** Every message but the last has a length that is a multiple of four. */
  predicate AlignedButLast(ms: seq<Msg>) {
    forall i :: 0 <= i < |ms| - 1 ==> |ms[i]| % 4 == 0
  }

  /** Reading one whole message from the front of a file: its padding is taken from what follows. */
  lemma ReadFirst(m: Msg, rest: seq<byte>, stale: seq<byte>)
    requires |stale| == HEADER && IsMessage(m) && |m| <= BUFFER
    ensures var pad := Align4(|m|) - |m|;
            ReadOne(m + rest, stale) == Got(m, if pad <= |rest| then rest[pad..] else [])
  {
    hide GetU32, Align4;
    var b, l := m + rest, |m| - HEADER;
    assert HeaderRead(b, stale) == m[..HEADER];
    assert m[..HEADER][..4] == m[..4];
    SameU32(m[..HEADER], m);
    assert Behind(b) == m[HEADER..] + rest;
    assert Behind(b)[..l] == m[HEADER..] && m[..HEADER] + m[HEADER..] == m;
    AlignShift(|m|, HEADER);
    RestBehind(m[HEADER..], rest, Taken(l, |Behind(b)|));
  }

  lemma RestBehind(a: seq<byte>, rest: seq<byte>, n: nat)
    requires |a| <= n <= |a| + |rest|
    ensures (a + rest)[n..] == rest[n - |a|..]
  {
  }

  /** A file whose messages all have aligned lengths, except perhaps the last, is read back. */
  lemma {:induction false} AlignedIsReadBack(ms: seq<Msg>, stale: seq<byte>)
    requires |stale| == HEADER && Savable(ms) && AlignedButLast(ms)
    ensures Load(Saved(ms), stale) == Loaded(ms, true)
    decreases |ms|
  {
    hide ReadOne, IsMessage, Load;
    if ms == [] {
      LoadNothing(stale);
    } else {
      var m, rest := ms[0], Saved(ms[1..]);
      ReadFirst(m, rest, stale);
      var pad := Align4(|m|) - |m|;
      LoadStep(m + rest, stale, m, if pad <= |rest| then rest[pad..] else []);
      if |ms| == 1 {
        LoadNothing(m[..HEADER]);
        assert ms == [m];
      } else {
        assert |ms[0]| % 4 == 0;
        assert forall i :: 0 <= i < |ms[1..]| ==> ms[1..][i] == ms[i + 1];
        AlignedIsReadBack(ms[1..], m[..HEADER]);
        assert rest[0..] == rest;
      }
    }
  }

  lemma LoadNothing(stale: seq<byte>)
    requires |stale| == HEADER
    ensures Load([], stale) == Loaded([], true)
  {
  }

  lemma LoadStep(b: seq<byte>, stale: seq<byte>, m: Msg, rest: seq<byte>)
    requires |stale| == HEADER && ReadOne(b, stale) == Got(m, rest)
    ensures |m| >= HEADER && Load(b, stale) == More(m, Load(rest, m[..HEADER]))
  {
    hide ReadOne;
  }

  /** A length field that repeats after one or two bytes would be zero; one that repeats after
      three bytes belongs to a length that is a multiple of 256. */
  lemma RepeatedLength(m: Msg, p: nat)
    requires IsMessage(m) && |m| <= BUFFER && 1 <= p <= 3 && m[..4] == m[p..p + 4]
    ensures p == 3 && |m| >= 256 && Align4(|m| - HEADER) == |m| - HEADER
  {
    assert m[2] == 0 && m[3] == 0;
    assert m[0] == m[..4][0] == m[p..p + 4][0] == m[p];
    assert m[1] == m[..4][1] == m[p..p + 4][1] == m[p + 1];
    assert m[2] == m[..4][2] == m[p..p + 4][2] == m[p + 2];
  }

  lemma GotHeader(b: seq<byte>, stale: seq<byte>)
    requires |stale| == HEADER && ReadOne(b, stale).Got?
    ensures b != [] && ReadOne(b, stale).m[..HEADER] == HeaderRead(b, stale)
    ensures |ReadOne(b, stale).m| - HEADER <= |Behind(b)|
    ensures ReadOne(b, stale).rest == Behind(b)[Taken(|ReadOne(b, stale).m| - HEADER, |Behind(b)|)..]
  {
  }

  lemma LateHeader(m: Msg, after: seq<byte>, p: nat, stale: seq<byte>)
    requires |stale| == HEADER && |m| >= HEADER && 1 <= p <= 3
    requires HeaderRead((m + after)[p..], stale) == m[..HEADER]
    ensures m[..4] == m[p..p + 4]
  {
    var c := (m + after)[p..];
    var h := HeaderRead(c, stale);
    assert h[..4] == c[..4] == m[p..p + 4];
    assert h[..4] == m[..HEADER][..4] == m[..4];
  }

  /** What a reader that is `p` bytes late sees at the front of a file. */
  lemma LateReading(m: Msg, after: seq<byte>, p: nat, stale: seq<byte>)
    requires |stale| == HEADER && IsMessage(m) && |m| <= BUFFER && 1 <= p <= 3
    requires var r := ReadOne((m + after)[p..], stale); r.Got? && r.m == m
    ensures p == 3 && p <= |after| && ReadOne((m + after)[p..], stale).rest == after[p..]
  {
    MessageHasHeader(m);
    hide ReadOne, IsMessage, HeaderRead, Align4;
    var c, l := (m + after)[p..], |m| - HEADER;
    GotHeader(c, stale);
    LateHeader(m, after, p, stale);
    RepeatedLength(m, p);
    assert Behind(c) == m[p + HEADER..] + after;
    assert (m[p + HEADER..] + after)[l..] == after[p..];
  }

  lemma MessageHasHeader(m: Msg)
    requires IsMessage(m)
    ensures |m| >= HEADER
  {
  }

  /** A reader that is one to three bytes late never reads the remaining messages correctly. */
  lemma {:induction false} LateReaderFails(ms: seq<Msg>, p: nat, stale: seq<byte>)
    requires |stale| == HEADER && Savable(ms) && ms != [] && 1 <= p <= 3
    ensures |Saved(ms)| >= p && Load(Saved(ms)[p..], stale) != Loaded(ms, true)
    decreases |ms|
  {
    hide ReadOne, IsMessage;
    var m, after := ms[0], Saved(ms[1..]);
    assert |m| >= HEADER by {
      MessageHasHeader(m);
    }
    if Load(Saved(ms)[p..], stale) == Loaded(ms, true) {
      LateReading(m, after, p, stale);
      if |ms| > 1 {
        assert Savable(ms[1..]);
        LateReaderFails(ms[1..], p, m[..HEADER]);
      }
    }
  }

  /** The dump file round trip, exactly: it holds if and only if every message but the last has a
      length that is a multiple of four, because messages are written without the padding that the
      reader skips. */
  lemma SaveRestoreRoundTrip(ms: seq<Msg>, stale: seq<byte>)
    requires |stale| == HEADER && Savable(ms)
    ensures Load(Saved(ms), stale) == Loaded(ms, true) <==> AlignedButLast(ms)
  {
    if AlignedButLast(ms) {
      AlignedIsReadBack(ms, stale);
    } else {
      UnalignedIsNotReadBack(ms, stale);
    }
  }

  /** A message of 17 bytes in front of any other: the second one is not read back. */
  lemma SeventeenBytes(m: Msg, last: byte, stale: seq<byte>)
    requires |stale| == HEADER && IsMessage(m) && |m| <= BUFFER
    ensures var first := PutU32(17) + seq(12, _ => 0) + [last];
            IsMessage(first) && Load(Saved([first, m]), stale) != Loaded([first, m], true)
  {
    var first: Msg := PutU32(17) + seq(12, _ => 0) + [last];
    assert first[0..4] == PutU32(17);
    StoredU32(first, 0, 17);
    assert [first, m][0] == first && |first| % 4 != 0;
    SaveRestoreRoundTrip([first, m], stale);
  }

  lemma {:induction false} UnalignedIsNotReadBack(ms: seq<Msg>, stale: seq<byte>)
    requires |stale| == HEADER && Savable(ms) && !AlignedButLast(ms)
    ensures Load(Saved(ms), stale) != Loaded(ms, true)
    decreases |ms|
  {
    hide ReadOne, IsMessage, AlignedButLast;
    SomeUnaligned(ms);
    var m, after := ms[0], Saved(ms[1..]);
    ReadFirst(m, after, stale);
    MessageHasHeader(m);
    assert Savable(ms[1..]);
    if |m| % 4 != 0 {
      LateReaderFails(ms[1..], Align4(|m|) - |m|, m[..HEADER]);
    } else {
      assert after[0..] == after;
      UnalignedIsNotReadBack(ms[1..], m[..HEADER]);
    }
  }

  lemma SomeUnaligned(ms: seq<Msg>)
    requires !AlignedButLast(ms)
    ensures |ms| > 1 && (|ms[0]| % 4 != 0 || !AlignedButLast(ms[1..]))
  {
    var i :| 0 <= i < |ms| - 1 && |ms[i]| % 4 != 0;
    assert i > 0 ==> ms[1..][i - 1] == ms[i];
  }

  // ---------------------------------------------------------------- the three passes

  const RTA_DST := 1
  const RTA_PREFSRC := 7
  const ROUTE_DUMP_MAGIC: nat := 0x45311224
  const RTMSG_BYTES := 12

  function AttrsOf(m: Msg): seq<Attr> {
    if |m| < HEADER + RTMSG_BYTES then [] else ParseAttrs(m[HEADER + RTMSG_BYTES..])
  }

  /** `rtattr_cmp` returns zero. */
  predicate SameAttr(a: Option<seq<byte>>, b: Option<seq<byte>>) {
    a.Some? && b.Some? && a.value == b.value
  }

  /** The three tests of `restore_handler`. */
  predicate Handles(prio: int, m: Msg) {
    var gateway := FirstOf(AttrsOf(m), RTA_GATEWAY);
    var prefsrc := FirstOf(AttrsOf(m), RTA_PREFSRC);
    var dst := FirstOf(AttrsOf(m), RTA_DST);
    if prio == 0 && gateway.None? && (prefsrc.None? || SameAttr(prefsrc, dst)) then true
    else if prio == 1 && gateway.None? && prefsrc.Some? && !SameAttr(prefsrc, dst) then true
    else prio == 2 && gateway.Some?
  }

  /** Local address, local network, or behind a gateway. */
  datatype Class = LocalAddress | LocalNetwork | Remote {
    function Rank(): (r: nat)
      ensures r < 3
    {
      match this case LocalAddress => 0 case LocalNetwork => 1 case Remote => 2
    }
  }

  function ClassOf(m: Msg): Class {
    var prefsrc := FirstOf(AttrsOf(m), RTA_PREFSRC);
    if FirstOf(AttrsOf(m), RTA_GATEWAY).Some? then Remote
    else if prefsrc.Some? && prefsrc != FirstOf(AttrsOf(m), RTA_DST) then LocalNetwork
    else LocalAddress
  }

  ghost predicate HasAttr(m: Msg, kind: nat) {
    HasKind(AttrsOf(m), kind)
  }

  /** The classes in terms of the attributes behind the 28 bytes of the two headers: a gateway (5) makes
      a route remote; without one, a preferred source (7) other than the destination (1) makes it a local
      network. */
  lemma ClassMeaning(m: Msg)
    ensures |m| >= 28 ==> AttrsOf(m) == ParseAttrs(m[28..])
    ensures ClassOf(m) == Remote <==> HasAttr(m, 5)
    ensures ClassOf(m) == LocalNetwork <==>
              && !HasAttr(m, 5) && HasAttr(m, 7)
              && !(HasAttr(m, 1) && FirstOf(AttrsOf(m), 7) == FirstOf(AttrsOf(m), 1))
  {
    FirstOfHas(AttrsOf(m), 5);
    FirstOfHas(AttrsOf(m), 7);
    FirstOfHas(AttrsOf(m), 1);
  }

  /** Every route is handled in exactly one pass, the one of its class. */
  lemma OnePassEach(m: Msg, prio: int)
    ensures Handles(prio, m) <==> prio == ClassOf(m).Rank()
  {
  }

  const RANK: Msg -> int := m => ClassOf(m).Rank()

  /** The routes of one class, in file order. */
  ghost function OfClass(ms: seq<Msg>, c: Class): seq<Msg> {
    OfKey(ms, RANK, c.Rank())
  }

  /** What the passes request, in order. */
  ghost function Passes(ms: seq<Msg>): seq<Msg> {
    OfClass(ms, LocalAddress) + OfClass(ms, LocalNetwork) + OfClass(ms, Remote)
  }

  lemma {:induction false} OfClassOnly(ms: seq<Msg>, c: Class)
    ensures forall i :: 0 <= i < |OfClass(ms, c)| ==> KeyOf(RANK, OfClass(ms, c)[i]) == c.Rank()
  {
    forall i | 0 <= i < |OfClass(ms, c)| ensures KeyOf(RANK, OfClass(ms, c)[i]) == c.Rank() {
      OfKeyMembers(ms, RANK, c.Rank(), i);
    }
  }

  /** The passes request the routes in the stable order of their classes; by `StableSortPermutes` and
      `StableSortIsUnique` that is each route exactly once, and no other order. */
  lemma PassesAreAStableSort(ms: seq<Msg>)
    ensures IsStableSort(Passes(ms), ms, RANK)
  {
    var a, b, r := OfClass(ms, LocalAddress), OfClass(ms, LocalNetwork), OfClass(ms, Remote);
    OfClassOnly(ms, LocalAddress);
    OfClassOnly(ms, LocalNetwork);
    OfClassOnly(ms, Remote);
    hide ClassOf, OfKey, KeyOf;
    forall k ensures OfKey(Passes(ms), RANK, k) == OfKey(ms, RANK, k) {
      OfKeyConcat(a + b, r, RANK, k);
      OfKeyConcat(a, b, RANK, k);
      OfKeyAgain(a, RANK, 0, k);
      OfKeyAgain(b, RANK, 1, k);
      OfKeyAgain(r, RANK, 2, k);
      if k < 0 || k > 2 {
        NoOtherClass(ms, k);
      }
    }
  }

  lemma NoOtherClass(ms: seq<Msg>, k: int)
    requires k < 0 || k > 2
    ensures OfKey(ms, RANK, k) == []
  {
    if OfKey(ms, RANK, k) != [] {
      OfKeyMembers(ms, RANK, k, 0);
    }
  }

  // ---------------------------------------------------------------- iproute_restore

  /** `n->nlmsg_flags |= NLM_F_REQUEST | NLM_F_CREATE | NLM_F_ACK`. */
  function Request(m: Msg): Msg
    requires |m| >= HEADER
  {
    m[..6] + PutU16(FlagNumber(FlagBits(FlagsOf(m)) | 0x405)) + m[8..]
  }

  /** A request is the saved message, length, type, number, sender and all behind the header, with the
      flags for a request, for creation and for an acknowledgement set in addition to its own. */
  ghost predicate RequestOf(r: Msg, m: Msg)
    requires |m| >= HEADER
  {
    && |r| == |m| && TypeOf(r) == TypeOf(m) && SeqOf(r) == SeqOf(m) && r[12..16] == m[12..16] && Body(r) == Body(m)
    && (IsMessage(m) ==> IsMessage(r))
    && FlagBits(FlagsOf(r)) & 0x405 == 0x405
    && FlagBits(FlagsOf(r)) & !0x405 == FlagBits(FlagsOf(m)) & !0x405
  }

  function FlagBits(flags: nat): bv16
    requires flags < TWO_16
  {
    flags as bv16
  }

  function FlagNumber(bits: bv16): (n: nat)
    ensures n < TWO_16
  {
    bits as int
  }

  lemma FlagsBack(bits: bv16)
    ensures FlagBits(FlagNumber(bits)) == bits
  {
  }

  lemma FlagsAdded(bits: bv16)
    ensures (bits | 0x405) & 0x405 == 0x405 && (bits | 0x405) & !0x405 == bits & !0x405
  {
  }

  lemma RequestMeaning(m: Msg)
    requires |m| >= HEADER
    ensures RequestOf(Request(m), m)
  {
    hide FlagBits, FlagNumber, PutU16, GetU16, GetU32;
    var r := Request(m);
    var flags := FlagNumber(FlagBits(FlagsOf(m)) | 0x405);
    FlagsBack(FlagBits(FlagsOf(m)) | 0x405);
    FlagsAdded(FlagBits(FlagsOf(m)));
    assert r[6..8] == PutU16(flags);
    StoredU16(r, 6, flags);
    assert r[..4] == m[..4] && r[8..] == m[8..];
    SameU32(r, m);
    SameHeader(r, m);
    assert r[8..][8..] == r[HEADER..] && m[8..][8..] == m[HEADER..];
  }

  lemma SameHeader(r: Msg, m: Msg)
    requires |r| == |m| >= HEADER && r[..6] == m[..6] && r[8..] == m[8..]
    ensures TypeOf(r) == TypeOf(m) && SeqOf(r) == SeqOf(m) && r[12..16] == m[12..16]
  {
    assert forall i :: 0 <= i < 6 ==> r[i] == r[..6][i] && m[i] == m[..6][i];
    assert forall i :: 8 <= i < |m| ==> r[i] == r[8..][i - 8] && m[i] == m[8..][i - 8];
  }

  ghost function Requests(ms: seq<Msg>): (r: seq<Msg>)
    requires forall i :: 0 <= i < |ms| ==> |ms[i]| >= HEADER
    ensures |r| == |ms|
  {
    seq(|ms|, i requires 0 <= i < |ms| => Request(ms[i]))
  }

  lemma {:induction false} LoadedHaveHeaders(b: seq<byte>, stale: seq<byte>, i: nat)
    requires |stale| == HEADER && i < |Load(b, stale).ms|
    ensures |Load(b, stale).ms[i]| >= HEADER
    decreases |b|
  {
    if i > 0 {
      var r := ReadOne(b, stale);
      LoadedHaveHeaders(r.rest, r.m[..HEADER], i - 1);
    }
  }

  predicate Refuses(refused: Msg -> bool, m: Msg) {
    refused(m)
  }

  /** A pass reaches its end: no route of its class is refused. */
  ghost predicate NoneRefused(ms: seq<Msg>, c: Class, refused: Msg -> bool) {
    forall i :: 0 <= i < |ms| && ClassOf(ms[i]) == c ==> !Refuses(refused, ms[i])
  }

  lemma PassStep(ms: seq<Msg>, i: nat, c: Class, refused: Msg -> bool)
    requires i < |ms| && forall j :: 0 <= j < |ms| ==> |ms[j]| >= HEADER
    requires NoneRefused(ms[..i], c, refused)
    ensures Headed(OfClass(ms[..i], c)) && Headed(OfClass(ms[..i + 1], c))
    ensures NoneRefused(ms[..i + 1], c, refused) <==> ClassOf(ms[i]) != c || !Refuses(refused, ms[i])
    ensures ClassOf(ms[i]) == c && Refuses(refused, ms[i]) ==> !NoneRefused(ms, c, refused)
    ensures Requests(OfClass(ms[..i + 1], c)) ==
              Requests(OfClass(ms[..i], c)) + (if ClassOf(ms[i]) == c then [Request(ms[i])] else [])
  {
    hide ClassOf, Refuses, Request;
    assert ms[..i + 1][..i] == ms[..i] && ms[..i + 1][i] == ms[i];
    OfClassHeaded(ms[..i], c);
    OfClassHeaded(ms[..i + 1], c);
    assert forall j :: 0 <= j < i ==> ms[..i + 1][j] == ms[..i][j];
  }

  ghost predicate Headed(ms: seq<Msg>) {
    forall i :: 0 <= i < |ms| ==> |ms[i]| >= HEADER
  }

  lemma {:induction false} OfClassHeaded(ms: seq<Msg>, c: Class)
    requires Headed(ms)
    ensures Headed(OfClass(ms, c))
  {
    hide ClassOf;
    if ms != [] {
      OfClassHeaded(ms[..|ms| - 1], c);
    }
  }

  /** The handler calls of one pass; `refused` are the routes whose request ends in an error other
      than EEXIST. The pass ends behind the first of them, at message `handled`. */
  method Pass(ms: seq<Msg>, prio: nat, c: Class, refused: Msg -> bool) returns (ok: bool, sent: seq<Msg>, handled: nat)
    requires Headed(ms) && prio == c.Rank()
    ensures Headed(OfClass(ms, c))
    ensures ok <==> NoneRefused(ms, c, refused)
    ensures ok ==> handled == |ms| && sent == Requests(OfClass(ms, c))
    ensures handled <= |ms| && Headed(OfClass(ms[..handled], c)) && sent == Requests(OfClass(ms[..handled], c))
    ensures !ok ==>
              && handled > 0 && ClassOf(ms[handled - 1]) == c && Refuses(refused, ms[handled - 1])
              && NoneRefused(ms[..handled - 1], c, refused)
  {
    hide ClassOf, Refuses, Handles, Request, OfClass;
    ok, sent, handled := true, [], 0;
    assert ms[..0] == [] && OfClass(ms[..0], c) == [] by {
      NoClassInNothing(c);
    }
    while handled < |ms| && ok
      invariant handled <= |ms|
      invariant Headed(OfClass(ms[..handled], c)) && sent == Requests(OfClass(ms[..handled], c))
      invariant ok ==> NoneRefused(ms[..handled], c, refused)
      invariant !ok ==>
                  && handled > 0 && ClassOf(ms[handled - 1]) == c && Refuses(refused, ms[handled - 1])
                  && NoneRefused(ms[..handled - 1], c, refused) && !NoneRefused(ms, c, refused)
    {
      PassStep(ms, handled, c, refused);
      OnePassEach(ms[handled], prio);
      if Handles(prio, ms[handled]) {
        sent := sent + [Request(ms[handled])];
        ok := !Refuses(refused, ms[handled]);
      }
      handled := handled + 1;
    }
    OfClassHeaded(ms, c);
    assert ms[..|ms|] == ms;
  }

  lemma NoClassInNothing(c: Class)
    ensures OfClass([], c) == []
  {
  }

  /** What the first `k` passes request. */
  ghost function FirstPasses(ms: seq<Msg>, k: nat): seq<Msg> {
    (if k > 0 then OfClass(ms, LocalAddress) else [])
    + (if k > 1 then OfClass(ms, LocalNetwork) else [])
    + (if k > 2 then OfClass(ms, Remote) else [])
  }

  function ClassOfPass(prio: nat): (c: Class)
    requires prio < 3
    ensures c.Rank() == prio
  {
    match prio case 0 => LocalAddress case 1 => LocalNetwork case 2 => Remote
  }

  lemma NextPass(ms: seq<Msg>, prio: nat)
    requires prio < 3 && Headed(ms)
    ensures Headed(FirstPasses(ms, prio)) && Headed(FirstPasses(ms, prio + 1)) && Headed(OfClass(ms, ClassOfPass(prio)))
    ensures Requests(FirstPasses(ms, prio + 1)) == Requests(FirstPasses(ms, prio))
            + Requests(OfClass(ms, ClassOfPass(prio)))
  {
    hide OfClass, Request;
    OfClassHeaded(ms, LocalAddress);
    OfClassHeaded(ms, LocalNetwork);
    OfClassHeaded(ms, Remote);
    assert FirstPasses(ms, prio + 1) == FirstPasses(ms, prio) + OfClass(ms, ClassOfPass(prio));
  }

  /** The file starts with the magic number and is read to its end. */
  predicate Readable(file: seq<byte>, stale: seq<byte>)
    requires |stale| == HEADER
  {
    |file| >= 4 && GetU32(file, 0) == ROUTE_DUMP_MAGIC && Load(file[4..], stale).complete
  }

  function Routes(file: seq<byte>, stale: seq<byte>): seq<Msg>
    requires |stale| == HEADER && Readable(file, stale)
  {
    Load(file[4..], stale).ms
  }

  /** `iproute_restore`: the magic number, then three passes over the same bytes. It succeeds exactly
      when the whole file can be read and no request is refused, and then the requests are the routes
      of the file in stable class order. */
  method Restore(file: seq<byte>, stale: seq<byte>, refused: Msg -> bool) returns (code: int, sent: seq<Msg>)
    requires |stale| == HEADER
    ensures code == 0 <==>
              Readable(file, stale) && forall c :: NoneRefused(Routes(file, stale), c, refused)
    ensures code == 0 ==> Headed(Passes(Routes(file, stale))) && sent == Requests(Passes(Routes(file, stale)))
    // Each is a route of the file, whole.
    ensures code == 0 ==>
              var routes := Passes(Routes(file, stale));
              && |sent| == |routes|
              && forall i :: 0 <= i < |sent| ==> |routes[i]| >= HEADER && RequestOf(sent[i], routes[i])
  {
    hide Load, NoneRefused, Request, ClassOf, OfClass, FirstPasses, RequestOf;
    code, sent := 0, [];
    if |file| < 4 || GetU32(file, 0) != ROUTE_DUMP_MAGIC {
      code := -1;
    } else {
      var loaded := Load(file[4..], stale);
      var ms := loaded.ms;
      forall i | 0 <= i < |ms| ensures |ms[i]| >= HEADER {
        LoadedHaveHeaders(file[4..], stale, i);
      }
      PassesCovered(ms);
      var prio := 0;
      while prio < 3 && code == 0
        invariant prio <= 3
        invariant code == 0 ==> Headed(FirstPasses(ms, prio)) && sent == Requests(FirstPasses(ms, prio))
        invariant code == 0 ==> prio > 0 ==> loaded.complete
        invariant code == 0 ==> forall c: Class :: c.Rank() < prio ==> NoneRefused(ms, c, refused)
        invariant code != 0 ==> !loaded.complete || exists c :: !NoneRefused(ms, c, refused)
      {
        NextPass(ms, prio);
        var ok, more, _ := Pass(ms, prio, ClassOfPass(prio), refused);
        sent := sent + more;
        if !ok || !loaded.complete {
          code := -2;
        }
        prio := prio + 1;
      }
      if code == 0 {
        assert loaded.complete;
        forall c: Class ensures NoneRefused(ms, c, refused) {
          assert c.Rank() < prio;
        }
        assert Readable(file, stale) && Routes(file, stale) == ms;
        forall i | 0 <= i < |sent| ensures RequestOf(sent[i], Passes(ms)[i]) {
          RequestMeaning(Passes(ms)[i]);
        }
      } else if Readable(file, stale) {
        assert Routes(file, stale) == ms;
        assert exists c :: !NoneRefused(ms, c, refused);
      }
    }
  }

  lemma PassesCovered(ms: seq<Msg>)
    ensures FirstPasses(ms, 0) == [] && FirstPasses(ms, 3) == Passes(ms)
  {
  }

  /** So a file written by `ip route save` is restored route for route when its lengths are aligned. */
  lemma SavedFileIsReadable(ms: seq<Msg>, stale: seq<byte>)
    requires |stale| == HEADER && Savable(ms) && AlignedButLast(ms)
    ensures var file := PutU32(ROUTE_DUMP_MAGIC) + Saved(ms);
            Readable(file, stale) && Routes(file, stale) == ms
  {
    hide Load;
    var file := PutU32(ROUTE_DUMP_MAGIC) + Saved(ms);
    U32RoundTrip(ROUTE_DUMP_MAGIC, Saved(ms));
    SaveRestoreRoundTrip(ms, stale);
    assert file[4..] == Saved(ms);
  }
}
