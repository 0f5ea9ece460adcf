/** VLAN ranges of `bridge vlan`: the begin/end encoding of `add_vlan_info_range` and
    `add_tunnel_info_range`, and the streaming printers with their tristate filter. */
module VlanRanges {
  import opened Bytes
  import opened Sequences

  /** `struct bridge_vlan_info`, with the two range flags of its `flags` field; `other` are the
      remaining flags. */
  datatype Info = Info(vid: nat, begin: bool, end: bool, other: nat)

  /** A nested attribute of IFLA_AF_SPEC: VLAN information, or something the printer skips. */
  datatype Attr = Vlan(info: Info) | Unrelated

  datatype Range = Range(lo: nat, hi: nat)

  /** `filter_vlan_check`: stop, skip or print. Filter zero means no filter. */
  datatype Check = Stop | SkipIt | PrintIt

  function FilterVlanCheck(filter: nat, i: Info): Check {
    if filter != 0 && i.vid > filter && !i.end then Stop
    else if i.begin || i.vid < filter then SkipIt
    else PrintIt
  }

  /** The printer as a function of the attributes still to come and of `last_vid_start`. */
  function Shown(attrs: seq<Attr>, filter: nat, last: nat): seq<Range> {
    if attrs == [] then []
    else
      match attrs[0]
      case Unrelated => Shown(attrs[1..], filter, last)
      case Vlan(i) =>
        var start := if i.end then last else i.vid;
        match FilterVlanCheck(filter, i)
        case Stop => []
        case SkipIt => Shown(attrs[1..], filter, start)
        case PrintIt => [Range(start, i.vid)] + Shown(attrs[1..], filter, start)
  }

  /** `print_vlan_info`. */
  method PrintVlanInfo(attrs: seq<Attr>, filter: nat) returns (out: seq<Range>)
    ensures out == Shown(attrs, filter, 0)
  {
    hide FilterVlanCheck;
    out := [];
    var last, k, stopped := 0, 0, false;
    assert attrs[0..] == attrs;
    while k < |attrs| && !stopped
      invariant k <= |attrs|
      invariant if stopped then out == Shown(attrs, filter, 0)
                else out + Shown(attrs[k..], filter, last) == Shown(attrs, filter, 0)
      decreases |attrs| - k, !stopped
    {
      assert attrs[k..][0] == attrs[k] && attrs[k..][1..] == attrs[k + 1..];
      if attrs[k].Vlan? {
        var i := attrs[k].info;
        if !i.end {
          last := i.vid;
        }
        match FilterVlanCheck(filter, i) {
          case Stop =>
            stopped := true;
          case SkipIt =>
          case PrintIt =>
            Regroup(out, Range(last, i.vid), Shown(attrs[k + 1..], filter, last));
            out := out + [Range(last, i.vid)];
        }
      }
      k := k + 1;
    }
  }

  // ---------------------------------------------------------------- ranges and their encoding

  /** The entries of one range: a single VLAN, or a begin and an end. */
  ghost predicate Encodes(es: seq<Info>, r: Range) {
    || (|es| == 1 && r.lo == r.hi && !es[0].begin && !es[0].end && es[0].vid == r.lo)
    || (|es| == 2 && r.lo < r.hi && es[0].begin && !es[0].end && es[0].vid == r.lo
        && !es[1].begin && es[1].end && es[1].vid == r.hi)
  }

  function Infos(attrs: seq<Attr>): seq<Info> {
    if attrs == [] then []
    else (if attrs[0].Vlan? then [attrs[0].info] else []) + Infos(attrs[1..])
  }

  /** The stream is the encodings of the ranges, one behind the other. */
  ghost predicate Streams(es: seq<Info>, rs: seq<Range>) {
    if rs == [] then es == []
    else
      var n := if rs[0].lo == rs[0].hi then 1 else 2;
      n <= |es| && Encodes(es[..n], rs[0]) && Streams(es[n..], rs[1..])
  }

  predicate Contains(r: Range, v: nat) {
    r.lo <= v <= r.hi
  }

  /** What ought to be shown: the ranges that contain the filter, or all of them. */
  function Wanted(rs: seq<Range>, filter: nat): seq<Range> {
    if rs == [] then []
    else (if filter == 0 || Contains(rs[0], filter) then [rs[0]] else []) + Wanted(rs[1..], filter)
  }

  /** No range above the filter comes before a range that contains it. */
  predicate StopLosesNothing(rs: seq<Range>, filter: nat) {
    forall i, j :: 0 <= i < j < |rs| && rs[i].lo > filter ==> !Contains(rs[j], filter)
  }

  function ShownInfos(es: seq<Info>, filter: nat, last: nat): seq<Range> {
    if es == [] then []
    else
      var start := if es[0].end then last else es[0].vid;
      match FilterVlanCheck(filter, es[0])
      case Stop => []
      case SkipIt => ShownInfos(es[1..], filter, start)
      case PrintIt => [Range(start, es[0].vid)] + ShownInfos(es[1..], filter, start)
  }

  lemma {:induction false} UnrelatedSkipped(attrs: seq<Attr>, filter: nat, last: nat)
    ensures Shown(attrs, filter, last) == ShownInfos(Infos(attrs), filter, last)
  {
    if attrs != [] {
      var rest := attrs[1..];
      match attrs[0] {
        case Unrelated =>
          UnrelatedSkipped(rest, filter, last);
          assert Infos(attrs) == Infos(rest);
        case Vlan(i) =>
          UnrelatedSkipped(rest, filter, if i.end then last else i.vid);
          assert Infos(attrs)[0] == i && Infos(attrs)[1..] == Infos(rest);
      }
    }
  }

  /** One range: printed, skipped, or the end of the output. */
  lemma ShownRange(es: seq<Info>, r: Range, filter: nat, last: nat)
    requires var n := if r.lo == r.hi then 1 else 2; n <= |es| && Encodes(es[..n], r)
    ensures var n := if r.lo == r.hi then 1 else 2;
            ShownInfos(es, filter, last) ==
              if filter != 0 && r.lo > filter then []
              else (if filter == 0 || Contains(r, filter) then [r] else []) + ShownInfos(es[n..], filter, r.lo)
  {
    if r.lo != r.hi {
      assert es[..2][0] == es[0] && es[..2][1] == es[1] && es[1..][1..] == es[2..];
      assert ShownInfos(es, filter, last) == if filter != 0 && r.lo > filter then []
             else ShownInfos(es[1..], filter, r.lo);
    } else {
      assert es[..1][0] == es[0];
    }
  }

  /** The printer shows exactly the wanted ranges if and only if its early stop loses nothing;
      without a filter it shows every range. */
  lemma {:induction false} ShowsWanted(es: seq<Info>, rs: seq<Range>, filter: nat, last: nat)
    requires Streams(es, rs)
    ensures ShownInfos(es, filter, last) == Wanted(rs, filter) <==> filter == 0 || StopLosesNothing(rs, filter)
    decreases |rs|
  {
    hide Encodes, ShownInfos, StopLosesNothing;
    if rs == [] {
      NothingShown(filter, last);
    } else {
      var r := rs[0];
      var n := if r.lo == r.hi then 1 else 2;
      ShownRange(es, r, filter, last);
      if filter != 0 && r.lo > filter {
        NoneWanted(rs, filter);
      } else {
        ShowsWanted(es[n..], rs[1..], filter, r.lo);
        if filter != 0 {
          StopTail(rs, filter);
        }
        var head := if filter == 0 || Contains(r, filter) then [r] else [];
        Cancel(head, ShownInfos(es[n..], filter, r.lo), Wanted(rs[1..], filter));
      }
    }
  }

  lemma NothingShown(filter: nat, last: nat)
    ensures ShownInfos([], filter, last) == [] && StopLosesNothing([], filter)
  {
  }

  lemma StopTail(rs: seq<Range>, filter: nat)
    requires rs != [] && rs[0].lo <= filter
    ensures StopLosesNothing(rs, filter) <==> StopLosesNothing(rs[1..], filter)
  {
    if !StopLosesNothing(rs, filter) {
      var i, j :| 0 <= i < j < |rs| && rs[i].lo > filter && Contains(rs[j], filter);
      assert rs[1..][i - 1] == rs[i] && rs[1..][j - 1] == rs[j];
    }
  }

  lemma NoneWanted(rs: seq<Range>, filter: nat)
    requires rs != [] && filter != 0 && rs[0].lo > filter
    ensures Wanted(rs, filter) == [] <==> StopLosesNothing(rs, filter)
  {
    WantedEmpty(rs, filter);
    if forall j :: 0 <= j < |rs| ==> !Contains(rs[j], filter) {
      assert StopLosesNothing(rs, filter);
    } else {
      var j :| 0 <= j < |rs| && Contains(rs[j], filter);
      assert rs[0].lo > filter && 0 < j;
    }
  }

  lemma {:induction false} WantedEmpty(rs: seq<Range>, filter: nat)
    requires filter != 0
    ensures Wanted(rs, filter) == [] <==> forall j :: 0 <= j < |rs| ==> !Contains(rs[j], filter)
  {
    if rs != [] {
      WantedEmpty(rs[1..], filter);
      assert forall j :: 0 < j < |rs| ==> rs[j] == rs[1..][j - 1];
    }
  }

  ghost predicate SortedDisjoint(rs: seq<Range>) {
    forall i, j :: 0 <= i < j < |rs| ==> rs[i].hi < rs[j].lo
  }

  /** The kernel sends ranges in order, and then nothing is lost for any filter. */
  lemma SortedShowsWanted(attrs: seq<Attr>, rs: seq<Range>, filter: nat)
    requires Streams(Infos(attrs), rs) && SortedDisjoint(rs) && forall i :: 0 <= i < |rs| ==> rs[i].lo <= rs[i].hi
    ensures Shown(attrs, filter, 0) == Wanted(rs, filter)
  {
    UnrelatedSkipped(attrs, filter, 0);
    ShowsWanted(Infos(attrs), rs, filter, 0);
  }

  // ---------------------------------------------------------------- vlan_modify and its encoders

  /** The `vid` argument of `bridge vlan add`: the numbers as typed, and whether a dash was given. */
  datatype VidArgs = VidArgs(first: int, last: int, dash: bool, pvid: bool, other: nat) {
    /** `vid`. */
    function Vid(): int {
      Short(first)
    }

    /** `vid_end`, which keeps its initial -1 without a dash. */
    function VidEnd(): int {
      if dash then Short(last) else -1
    }

    /** The last VLAN that is meant. */
    function Last(): int {
      if dash then last else first
    }
  }

  /** Conversion of an `int` to `short`. */
  function Short(v: int): int {
    (v + TWO_16 / 2) % TWO_16 - TWO_16 / 2
  }

  /** Conversion of a `short` to `__u16`. */
  function U16(v: int): nat {
    v % TWO_16
  }

  /** The validation in `vlan_modify`. */
  predicate Accepted(a: VidArgs) {
    && a.Vid() != -1 && a.Vid() < 4096
    && (a.dash ==> a.VidEnd() != -1 && a.VidEnd() < 4096 && a.Vid() < a.VidEnd() && !a.pvid)
  }

  /** `add_vlan_info_range`: an end is sent exactly when `vid_end` is not -1. */
  function AddVlanInfoRange(a: VidArgs): seq<Info> {
    var first := Info(U16(a.Vid()), a.dash, false, a.other);
    if a.VidEnd() != -1 then [first, first.(begin := false, end := true, vid := U16(a.VidEnd()))]
    else [first]
  }

  /** Every entry sent carries the flags given; a dash, and only a dash, makes two of them, of which the
      first begins the range and the second ends it. */
  lemma FlagsAreSent(a: VidArgs, i: nat)
    requires Accepted(a) && i < |AddVlanInfoRange(a)|
    ensures var e := AddVlanInfoRange(a)[i];
            && e.other == a.other && e.begin == (a.dash && i == 0) && e.end == (a.dash && i == 1)
            && |AddVlanInfoRange(a)| == if a.dash then 2 else 1
  {
  }

  /** What was typed, as a range, is what is sent. */
  ghost predicate SentAsTyped(a: VidArgs) {
    0 <= a.first <= a.Last() && Streams(AddVlanInfoRange(a), [Range(a.first, a.Last())])
  }

  lemma ShortOfU16(v: int)
    ensures U16(Short(v)) == v % TWO_16
  {
  }

  /** The stream for one range. */
  lemma OneRange(es: seq<Info>, r: Range)
    ensures Streams(es, [r]) <==> Encodes(es, r)
  {
    hide Encodes;
    var n := if r.lo == r.hi then 1 else 2;
    assert [r][1..] == [];
    EncodedLength(es, r);
    if n <= |es| {
      EncodedLength(es[..n], r);
      assert |es| == n ==> es[..n] == es;
    }
  }

  lemma EncodedLength(es: seq<Info>, r: Range)
    ensures Encodes(es, r) ==> |es| == if r.lo == r.hi then 1 else 2
  {
  }

  /** The ids sent for accepted arguments are VLAN ids exactly when the first one does not become a
      negative `short`: the validation has no lower bound. */
  lemma SentIdsAreVlans(a: VidArgs)
    requires Accepted(a)
    ensures (forall i :: 0 <= i < |AddVlanInfoRange(a)| ==> AddVlanInfoRange(a)[i].vid < 4096) <==> 0 <= a.Vid()
  {
    assert AddVlanInfoRange(a)[0].vid == U16(a.Vid());
  }

  /** Accepted arguments are sent as the range that was typed exactly when its ids fit sixteen bits
      and are in order, and then every filter shows it correctly. */
  lemma AcceptedRangeRoundTrips(a: VidArgs)
    requires Accepted(a)
    ensures SentAsTyped(a) <==> 0 <= a.first <= a.Last() < TWO_16
    ensures SentAsTyped(a) ==> forall filter, last: nat ::
              ShownInfos(AddVlanInfoRange(a), filter, last) == Wanted([Range(a.first, a.Last())], filter)
  {
    var es := AddVlanInfoRange(a);
    ShortOfU16(a.first);
    ShortOfU16(a.last);
    if 0 <= a.first <= a.Last() {
      OneRange(es, Range(a.first, a.Last()));
    }
    if SentAsTyped(a) {
      forall filter, last: nat
        ensures ShownInfos(es, filter, last) == Wanted([Range(a.first, a.Last())], filter)
      {
        ShowsWanted(es, [Range(a.first, a.Last())], filter, last);
      }
    }
  }

  /** `vid 40000-100` is accepted, and sent and shown as a range that contains nothing. */
  lemma BackwardRangeIsAccepted(other: nat)
    ensures var a := VidArgs(40000, 100, true, false, other);
            && Accepted(a) && !SentAsTyped(a)
            && ShownInfos(AddVlanInfoRange(a), 0, 0) == [Range(40000, 100)]
  {
    var es := AddVlanInfoRange(VidArgs(40000, 100, true, false, other));
    assert es[1..][1..] == [];
    assert ShownInfos(es, 0, 0) == ShownInfos(es[1..], 0, 40000);
    assert ShownInfos(es[1..], 0, 40000) == [Range(40000, 100)] + ShownInfos(es[1..][1..], 0, 40000);
  }

  // ---------------------------------------------------------------- tunnels

  /** One IFLA_BRIDGE_VLAN_TUNNEL_INFO nest. */
  datatype Tunnel = Tunnel(info: Info, id: nat)

  /** `add_tunnel_info_range`. */
  function AddTunnelInfoRange(a: VidArgs, idFirst: nat, idLast: nat): seq<Tunnel> {
    if a.VidEnd() != -1 && a.VidEnd() - U16(a.Vid()) > 0 then
      [Tunnel(Info(U16(a.Vid()), true, false, 0), idFirst), Tunnel(Info(U16(a.VidEnd()), false, true, 0), idLast)]
    else
      [Tunnel(Info(U16(a.Vid()), false, false, 0), idFirst)]
  }

  datatype TunnelRange = TunnelRange(vids: Range, ids: Range)

  /** `print_range` takes its arguments as 16-bit numbers. */
  function Cut(r: TunnelRange): TunnelRange {
    TunnelRange(r.vids, Range(r.ids.lo % TWO_16, r.ids.hi % TWO_16))
  }

  /** The printer of tunnels as a function of the nests still to come. */
  function ShownTunnels(ts: seq<Tunnel>, filter: nat, lastVid: nat, lastId: nat): seq<TunnelRange> {
    if ts == [] then []
    else
      var i := ts[0].info;
      var vid, id := if i.end then lastVid else i.vid, if i.end then lastId else ts[0].id;
      match FilterVlanCheck(filter, i)
      case Stop => []
      case SkipIt => ShownTunnels(ts[1..], filter, vid, id)
      case PrintIt =>
        [Cut(TunnelRange(Range(vid, i.vid), Range(id, ts[0].id)))] + ShownTunnels(ts[1..], filter, vid, id)
  }

  lemma ShownTunnelsAt(out: seq<TunnelRange>, ts: seq<Tunnel>, k: nat, filter: nat, lastVid: nat, lastId: nat)
    requires k < |ts|
    ensures var i := ts[k].info;
            var vid, id := if i.end then lastVid else i.vid, if i.end then lastId else ts[k].id;
            out + ShownTunnels(ts[k..], filter, lastVid, lastId) ==
              match FilterVlanCheck(filter, i)
              case Stop => out
              case SkipIt => out + ShownTunnels(ts[k + 1..], filter, vid, id)
              case PrintIt =>
                out + [Cut(TunnelRange(Range(vid, i.vid), Range(id, ts[k].id)))]
                  + ShownTunnels(ts[k + 1..], filter, vid, id)
  {
    hide FilterVlanCheck, Cut;
    assert ts[k..][1..] == ts[k + 1..];
  }

  /** `print_vlan_tunnel_info`, over the nests that have a VLAN id. */
  method PrintVlanTunnelInfo(ts: seq<Tunnel>, filter: nat) returns (out: seq<TunnelRange>)
    ensures out == ShownTunnels(ts, filter, 0, 0)
  {
    hide FilterVlanCheck, Cut, ShownTunnels;
    out := [];
    var lastVid, lastId, k, stopped := 0, 0, 0, false;
    assert ts[0..] == ts && [] + ShownTunnels(ts, filter, 0, 0) == ShownTunnels(ts, filter, 0, 0);
    while k < |ts| && !stopped
      invariant k <= |ts|
      invariant ShownTunnels(ts, filter, 0, 0) ==
                  if stopped then out else out + ShownTunnels(ts[k..], filter, lastVid, lastId)
      decreases |ts| - k, !stopped
    {
      ShownTunnelsAt(out, ts, k, filter, lastVid, lastId);
      var i := ts[k].info;
      if !i.end {
        lastVid, lastId := i.vid, ts[k].id;
      }
      match FilterVlanCheck(filter, i) {
        case Stop =>
          stopped := true;
        case SkipIt =>
        case PrintIt =>
          out := out + [Cut(TunnelRange(Range(lastVid, i.vid), Range(lastId, ts[k].id)))];
      }
      k := k + 1;
    }
    if !stopped {
      NoTunnels(out, ts, filter, lastVid, lastId);
    }
  }

  lemma NoTunnels(out: seq<TunnelRange>, ts: seq<Tunnel>, filter: nat, lastVid: nat, lastId: nat)
    ensures out + ShownTunnels(ts[|ts|..], filter, lastVid, lastId) == out
  {
  }

  ghost predicate EncodesTunnels(ts: seq<Tunnel>, r: TunnelRange) {
    Encodes(InfosOf(ts), r.vids) && ts != [] && ts[0].id == r.ids.lo && ts[|ts| - 1].id == r.ids.hi
  }

  ghost function InfosOf(ts: seq<Tunnel>): seq<Info> {
    seq(|ts|, i requires 0 <= i < |ts| => ts[i].info)
  }

  ghost function VidsOf(rs: seq<TunnelRange>): seq<Range> {
    seq(|rs|, i requires 0 <= i < |rs| => rs[i].vids)
  }

  ghost predicate StreamsTunnels(ts: seq<Tunnel>, rs: seq<TunnelRange>) {
    if rs == [] then ts == []
    else
      var n := if rs[0].vids.lo == rs[0].vids.hi then 1 else 2;
      n <= |ts| && EncodesTunnels(ts[..n], rs[0]) && StreamsTunnels(ts[n..], rs[1..])
  }

  function WantedTunnels(rs: seq<TunnelRange>, filter: nat): seq<TunnelRange> {
    if rs == [] then []
    else (if filter == 0 || Contains(rs[0].vids, filter) then [rs[0]] else []) + WantedTunnels(rs[1..], filter)
  }

  ghost function CutAll(rs: seq<TunnelRange>): seq<TunnelRange> {
    seq(|rs|, i requires 0 <= i < |rs| => Cut(rs[i]))
  }

  /** One tunnel range: printed with its ids cut, skipped, or the end of the output. */
  lemma ShownTunnelRange(ts: seq<Tunnel>, r: TunnelRange, filter: nat, lastVid: nat, lastId: nat)
    requires var n := if r.vids.lo == r.vids.hi then 1 else 2; n <= |ts| && EncodesTunnels(ts[..n], r)
    ensures var n := if r.vids.lo == r.vids.hi then 1 else 2;
            ShownTunnels(ts, filter, lastVid, lastId) ==
              if filter != 0 && r.vids.lo > filter then []
              else (if filter == 0 || Contains(r.vids, filter) then [Cut(r)] else [])
                   + ShownTunnels(ts[n..], filter, r.vids.lo, r.ids.lo)
  {
    hide Cut;
    if r.vids.lo != r.vids.hi {
      assert InfosOf(ts[..2])[0] == ts[0].info && InfosOf(ts[..2])[1] == ts[1].info;
      assert ts[1..][1..] == ts[2..];
      assert ShownTunnels(ts, filter, lastVid, lastId) ==
        if filter != 0 && r.vids.lo > filter then [] else ShownTunnels(ts[1..], filter, r.vids.lo, r.ids.lo);
    } else {
      assert InfosOf(ts[..1])[0] == ts[0].info;
    }
  }

  /** What is shown is what is wanted with its ids cut, exactly when the early stop loses nothing. */
  lemma {:induction false} ShowsTunnels(ts: seq<Tunnel>, rs: seq<TunnelRange>, filter: nat, lastVid: nat, lastId: nat)
    requires StreamsTunnels(ts, rs)
    ensures var shown := ShownTunnels(ts, filter, lastVid, lastId);
            if filter == 0 || StopLosesNothing(VidsOf(rs), filter) then shown == CutAll(WantedTunnels(rs, filter))
            else VidsOf(shown) != VidsOf(WantedTunnels(rs, filter))
    decreases |rs|
  {
    hide EncodesTunnels, ShownTunnels, StopLosesNothing, Cut, Contains;
    if rs == [] {
      NoTunnels([], ts, filter, lastVid, lastId);
      assert ts[|ts|..] == ts && VidsOf(rs) == [];
      NothingShown(filter, lastVid);
    } else {
      var r := rs[0];
      var n := if r.vids.lo == r.vids.hi then 1 else 2;
      var head := if filter == 0 || Contains(r.vids, filter) then [r] else [];
      ShownTunnelRange(ts, r, filter, lastVid, lastId);
      assert VidsOf(rs)[1..] == VidsOf(rs[1..]);
      WantedVids(rs, filter);
      if filter != 0 && r.vids.lo > filter {
        NoneWanted(VidsOf(rs), filter);
        assert VidsOf([]) == [];
        assert WantedTunnels(rs, filter) == [] <==> VidsOf(WantedTunnels(rs, filter)) == [];
      } else {
        ShowsTunnels(ts[n..], rs[1..], filter, r.vids.lo, r.ids.lo);
        if filter != 0 {
          StopTail(VidsOf(rs), filter);
        }
        var more := WantedTunnels(rs[1..], filter);
        var shown := ShownTunnels(ts[n..], filter, r.vids.lo, r.ids.lo);
        CutConcat(head, more);
        VidsConcat(head, more);
        VidsConcat(CutAll(head), shown);
        Cancel(VidsOf(head), VidsOf(shown), VidsOf(more));
      }
    }
  }

  lemma CutConcat(a: seq<TunnelRange>, b: seq<TunnelRange>)
    ensures CutAll(a + b) == CutAll(a) + CutAll(b) && VidsOf(CutAll(a)) == VidsOf(a)
    ensures CutAll([]) == [] && (|a| == 1 ==> CutAll(a) == [Cut(a[0])])
  {
  }

  lemma VidsConcat(a: seq<TunnelRange>, b: seq<TunnelRange>)
    ensures VidsOf(a + b) == VidsOf(a) + VidsOf(b)
  {
  }

  lemma {:induction false} WantedVids(rs: seq<TunnelRange>, filter: nat)
    ensures VidsOf(WantedTunnels(rs, filter)) == Wanted(VidsOf(rs), filter)
  {
    hide Contains;
    if rs != [] {
      WantedVids(rs[1..], filter);
      assert VidsOf(rs)[1..] == VidsOf(rs[1..]);
      var head := if filter == 0 || Contains(rs[0].vids, filter) then [rs[0]] else [];
      VidsConcat(head, WantedTunnels(rs[1..], filter));
    }
  }

  ghost predicate IdsFit(rs: seq<TunnelRange>) {
    forall i :: 0 <= i < |rs| ==> rs[i].ids.lo < TWO_16 && rs[i].ids.hi < TWO_16
  }

  /** A stream of tunnel ranges is shown as it is exactly when the early stop loses nothing and the
      ids of the wanted ranges fit sixteen bits. */
  lemma TunnelsShownAsSent(ts: seq<Tunnel>, rs: seq<TunnelRange>, filter: nat)
    requires StreamsTunnels(ts, rs)
    ensures ShownTunnels(ts, filter, 0, 0) == WantedTunnels(rs, filter)
            <==> (filter == 0 || StopLosesNothing(VidsOf(rs), filter)) && IdsFit(WantedTunnels(rs, filter))
  {
    hide StreamsTunnels, ShownTunnels, WantedTunnels, StopLosesNothing;
    ShowsTunnels(ts, rs, filter, 0, 0);
    var w := WantedTunnels(rs, filter);
    if CutAll(w) == w {
      forall i | 0 <= i < |w| ensures w[i].ids.lo < TWO_16 && w[i].ids.hi < TWO_16 {
        assert CutAll(w)[i] == w[i];
      }
    }
  }

  /** Accepted arguments are sent as the tunnel range that was typed exactly when its VLANs are in
      order and, for a range, VLAN ids. */
  lemma TunnelRangeRoundTrips(a: VidArgs, idFirst: nat, idLast: nat)
    requires Accepted(a)
    ensures (0 <= a.first <= a.Last()
             && StreamsTunnels(AddTunnelInfoRange(a, idFirst, idLast),
                               [TunnelRange(Range(a.first, a.Last()),
                                            Range(idFirst, if a.dash then idLast else idFirst))]))
            <==> 0 <= a.first <= a.Last() < if a.dash then 4096 else TWO_16
  {
    var ts := AddTunnelInfoRange(a, idFirst, idLast);
    if 0 <= a.first <= a.Last() {
      var r := TunnelRange(Range(a.first, a.Last()), Range(idFirst, if a.dash then idLast else idFirst));
      var n := if r.vids.lo == r.vids.hi then 1 else 2;
      ShortOfU16(a.first);
      ShortOfU16(a.last);
      assert [r][1..] == [];
      assert n <= |ts| ==> InfosOf(ts[..n])[0] == ts[0].info;
      assert |ts| == 2 && n == 2 ==> InfosOf(ts[..n])[1] == ts[1].info;
      assert n == |ts| ==> ts[..n] == ts && ts[n..] == [];
    }
  }
}
