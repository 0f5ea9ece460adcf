/** `devlink sb occupancy show`: the items of two dumps are collected per port. */
module Occupancy {
  import opened Wrappers

  datatype Item = Item(index: nat, cur: nat, max: nat, bound: nat)

  datatype Which = Pool | Ingress | Egress

  /** A message of the dumps. A binding of unknown pool type has no list. */
  datatype Message = Message(bus: string, dev: string, port: nat, sb: nat, which: Option<Which>, item: Item)

  /** `struct occ_port`. */
  datatype OccPort = OccPort(index: nat, pool: seq<Item>, ingress: seq<Item>, egress: seq<Item>)

  /** The options given: a device or one port of it, and the shared buffer. */
  datatype Options = Options(bus: string, dev: string, port: Option<nat>, sb: nat)

  /** `dl_dump_filter`, for messages that have all the attributes. */
  predicate Accepts(o: Options, m: Message) {
    m.bus == o.bus && m.dev == o.dev && (o.port.Some? ==> m.port == o.port.value) && m.sb == o.sb
  }

  function Put(p: OccPort, m: Message): OccPort {
    if m.which.None? then p
    else
      match m.which.value
      case Pool => p.(pool := p.pool + [m.item])
      case Ingress => p.(ingress := p.ingress + [m.item])
      case Egress => p.(egress := p.egress + [m.item])
  }

  class Show {
    const options: Options
    var ports: seq<OccPort>

    constructor (options: Options)
      ensures ports == [] && this.options == options
    {
      this.options := options;
      ports := [];
    }

    /** `occ_port_get`: search from the end, and append when there is none. */
    method PortGet(index: nat) returns (k: nat)
      modifies this`ports
      ensures k < |ports| && ports[k].index == index && |old(ports)| <= |ports| && ports[..|old(ports)|] == old(ports)
      ensures k < |old(ports)| ==> ports == old(ports)
      ensures k >= |old(ports)| ==> k == |old(ports)| && ports == old(ports) + [OccPort(index, [], [], [])]
                                    && forall i :: 0 <= i < k ==> old(ports)[i].index != index
    {
      var i := |ports|;
      while i > 0 && ports[i - 1].index != index
        invariant 0 <= i <= |ports| && forall j :: i <= j < |ports| ==> ports[j].index != index
      {
        i := i - 1;
      }
      if i > 0 {
        k := i - 1;
      } else {
        k := |ports|;
        ports := ports + [OccPort(index, [], [], [])];
      }
    }

    /** `cmd_sb_occ_port_pool_process` and `cmd_sb_occ_tc_pool_process`. */
    method Process(m: Message, ghost ms: seq<Message>)
      requires ports == Collected(options, ms)
      modifies this`ports
      ensures ports == Collected(options, ms + [m])
    {
      hide Collected, Put, Seen;
      if Accepts(options, m) {
        var k := PortGet(m.port);
        CollectedNext(options, ms, m, ports, k);
        ports := ports[k := Put(ports[k], m)];
      } else {
        CollectedSame(options, ms, m);
      }
    }
  }

  // ---------------------------------------------------------------- what is collected

  /** The accepted ports in the order in which they are first seen. */
  ghost function Seen(o: Options, ms: seq<Message>): seq<nat> {
    if ms == [] then []
    else
      var m, before := ms[|ms| - 1], Seen(o, ms[..|ms| - 1]);
      if Accepts(o, m) && m.port !in before then before + [m.port] else before
  }

  /** The items of one list of one port, in order. */
  ghost function Items(o: Options, ms: seq<Message>, port: nat, w: Which): seq<Item> {
    if ms == [] then []
    else
      var m := ms[|ms| - 1];
      Items(o, ms[..|ms| - 1], port, w) + if Accepts(o, m) && m.port == port && m.which == Some(w) then [m.item] else []
  }

  ghost function PortOf(o: Options, ms: seq<Message>, port: nat): OccPort {
    OccPort(port, Items(o, ms, port, Pool), Items(o, ms, port, Ingress), Items(o, ms, port, Egress))
  }

  ghost function Collected(o: Options, ms: seq<Message>): seq<OccPort> {
    seq(|Seen(o, ms)|, i requires 0 <= i < |Seen(o, ms)| => PortOf(o, ms, Seen(o, ms)[i]))
  }

  lemma SeenNext(o: Options, ms: seq<Message>, m: Message)
    ensures Seen(o, ms + [m]) == if Accepts(o, m) && m.port !in Seen(o, ms) then Seen(o, ms) + [m.port] else Seen(o, ms)
  {
    hide Accepts;
    assert (ms + [m])[..|ms|] == ms;
  }

  lemma ItemsNext(o: Options, ms: seq<Message>, m: Message, port: nat, w: Which)
    ensures Items(o, ms + [m], port, w)
            == Items(o, ms, port, w) + if Accepts(o, m) && m.port == port && m.which == Some(w) then [m.item] else []
  {
    hide Accepts;
    assert (ms + [m])[..|ms|] == ms;
  }

  lemma PortOfNext(o: Options, ms: seq<Message>, m: Message, port: nat)
    ensures PortOf(o, ms + [m], port)
            == if Accepts(o, m) && m.port == port then Put(PortOf(o, ms, port), m) else PortOf(o, ms, port)
  {
    hide Accepts, Items;
    ItemsNext(o, ms, m, port, Pool);
    ItemsNext(o, ms, m, port, Ingress);
    ItemsNext(o, ms, m, port, Egress);
  }

  /** No port twice. */
  lemma {:induction false} SeenOnce(o: Options, ms: seq<Message>)
    ensures forall i, j :: 0 <= i < j < |Seen(o, ms)| ==> Seen(o, ms)[i] != Seen(o, ms)[j]
  {
    hide Accepts;
    if ms != [] {
      SeenOnce(o, ms[..|ms| - 1]);
    }
  }

  /** A port is listed exactly when an accepted message names it. */
  lemma {:induction false} SeenIffNamed(o: Options, ms: seq<Message>, port: nat)
    ensures port in Seen(o, ms) <==> exists i :: 0 <= i < |ms| && Accepts(o, ms[i]) && ms[i].port == port
  {
    hide Accepts;
    if ms != [] {
      var init, m := ms[..|ms| - 1], ms[|ms| - 1];
      SeenIffNamed(o, init, port);
      assert ms == init + [m];
      SeenNext(o, init, m);
    }
  }

  lemma {:induction false} NothingOfUnseen(o: Options, ms: seq<Message>, port: nat, w: Which)
    requires port !in Seen(o, ms)
    ensures Items(o, ms, port, w) == []
  {
    hide Accepts;
    if ms != [] {
      NothingOfUnseen(o, ms[..|ms| - 1], port, w);
    }
  }

  lemma CollectedSame(o: Options, ms: seq<Message>, m: Message)
    requires !Accepts(o, m)
    ensures Collected(o, ms + [m]) == Collected(o, ms)
  {
    hide Accepts, Seen, PortOf;
    SeenNext(o, ms, m);
    forall i | 0 <= i < |Seen(o, ms)| ensures PortOf(o, ms + [m], Seen(o, ms)[i]) == PortOf(o, ms, Seen(o, ms)[i]) {
      PortOfNext(o, ms, m, Seen(o, ms)[i]);
    }
  }

  /** `ports` is what `occ_port_get` leaves, and `k` the port it returns. */
  lemma CollectedNext(o: Options, ms: seq<Message>, m: Message, ports: seq<OccPort>, k: nat)
    requires Accepts(o, m)
    requires var before := Collected(o, ms);
             || (k < |before| && ports == before && before[k].index == m.port)
             || (&& k == |before| && ports == before + [OccPort(m.port, [], [], [])]
                 && forall i :: 0 <= i < k ==> before[i].index != m.port)
    ensures k < |ports| && Collected(o, ms + [m]) == ports[k := Put(ports[k], m)]
  {
    hide Accepts, Seen, Put, Items;
    SeenNext(o, ms, m);
    SeenOnce(o, ms);
    var seen := Seen(o, ms);
    if k < |seen| {
      assert seen[k] == m.port;
    } else {
      forall i | 0 <= i < |seen| ensures seen[i] != m.port {
        assert Collected(o, ms)[i].index != m.port;
      }
      NothingOfUnseen(o, ms, m.port, Pool);
      NothingOfUnseen(o, ms, m.port, Ingress);
      NothingOfUnseen(o, ms, m.port, Egress);
    }
    var r := Collected(o, ms + [m]);
    assert |r| == |ports|;
    forall i | 0 <= i < |r| ensures r[i] == ports[k := Put(ports[k], m)][i] {
      PortOfNext(o, ms, m, Seen(o, ms + [m])[i]);
    }
  }

  /** Nothing is merged by the port index alone: two accepted messages for one port agree in
      everything else that identifies it. */
  lemma SamePortSameKey(o: Options, a: Message, b: Message)
    requires Accepts(o, a) && Accepts(o, b)
    ensures a.port == b.port <==> (a.bus, a.dev, a.port, a.sb) == (b.bus, b.dev, b.port, b.sb)
  {
  }

  /** Asking for one port gives exactly what the dump of the whole device has for it. */
  lemma OnePort(o: Options, ms: seq<Message>)
    requires o.port.Some?
    ensures var all := o.(port := None);
            var p := o.port.value;
            Collected(o, ms) == if p in Seen(all, ms) then [PortOf(all, ms, p)] else []
  {
    hide Seen, Items;
    OnePortSeen(o, ms);
    OnePortItems(o, ms, Pool);
    OnePortItems(o, ms, Ingress);
    OnePortItems(o, ms, Egress);
  }

  lemma {:induction false} OnePortSeen(o: Options, ms: seq<Message>)
    requires o.port.Some?
    ensures Seen(o, ms) == if o.port.value in Seen(o.(port := None), ms) then [o.port.value] else []
  {
    if ms != [] {
      OnePortSeen(o, ms[..|ms| - 1]);
    }
  }

  lemma {:induction false} OnePortItems(o: Options, ms: seq<Message>, w: Which)
    requires o.port.Some?
    ensures Items(o, ms, o.port.value, w) == Items(o.(port := None), ms, o.port.value, w)
  {
    if ms != [] {
      OnePortItems(o, ms[..|ms| - 1], w);
    }
  }

  ghost function ListOf(p: OccPort, w: Which): seq<Item> {
    match w
    case Pool => p.pool
    case Ingress => p.ingress
    case Egress => p.egress
  }

  /** The item of every accepted message is in the list of its kind under its port, behind the items of
      the messages before it. */
  lemma ItemIsListed(o: Options, ms: seq<Message>, j: nat)
    requires j < |ms| && Accepts(o, ms[j]) && ms[j].which.Some?
    ensures var m := ms[j];
            var list := ListOf(PortOf(o, ms, m.port), m.which.value);
            var before := ListOf(PortOf(o, ms[..j], m.port), m.which.value);
            m.port in Seen(o, ms) && |before| < |list| && list[..|before|] == before && list[|before|] == m.item
  {
    hide Accepts, Seen, Items;
    SeenIffNamed(o, ms, ms[j].port);
    ItemAt(o, ms, j, ms[j].which.value);
  }

  lemma {:induction false} ItemAt(o: Options, ms: seq<Message>, j: nat, w: Which)
    requires j < |ms| && Accepts(o, ms[j]) && ms[j].which == Some(w)
    ensures var list, before := Items(o, ms, ms[j].port, w), Items(o, ms[..j], ms[j].port, w);
            |before| < |list| && list[..|before|] == before && list[|before|] == ms[j].item
  {
    hide Accepts;
    var n := |ms| - 1;
    if j < n {
      ItemAt(o, ms[..n], j, w);
      assert ms[..n][..j] == ms[..j];
    }
  }

  // ---------------------------------------------------------------- conservation

  ghost function SizeOf(p: OccPort): nat {
    |p.pool| + |p.ingress| + |p.egress|
  }

  ghost function Total(ports: seq<OccPort>): nat {
    if ports == [] then 0 else Total(ports[..|ports| - 1]) + SizeOf(ports[|ports| - 1])
  }

  ghost function Listed(o: Options, ms: seq<Message>): nat {
    if ms == [] then 0
    else Listed(o, ms[..|ms| - 1]) + if Accepts(o, ms[|ms| - 1]) && ms[|ms| - 1].which.Some? then 1 else 0
  }

  lemma {:induction false} TotalUpdate(ports: seq<OccPort>, k: nat, p: OccPort)
    requires k < |ports|
    ensures Total(ports[k := p]) + SizeOf(ports[k]) == Total(ports) + SizeOf(p)
  {
    hide SizeOf;
    var r, n := ports[k := p], |ports| - 1;
    if k < n {
      assert r[..n] == ports[..n][k := p];
      TotalUpdate(ports[..n], k, p);
    } else {
      assert r[..n] == ports[..n];
    }
  }

  lemma PutAddsOne(p: OccPort, m: Message)
    ensures SizeOf(Put(p, m)) == SizeOf(p) + if m.which.Some? then 1 else 0
  {
  }

  lemma TotalAppend(ports: seq<OccPort>, p: OccPort)
    ensures Total(ports + [p]) == Total(ports) + SizeOf(p)
  {
    assert (ports + [p])[..|ports|] == ports;
  }

  /** As many items are collected as accepted messages have a list. */
  lemma {:induction false} ItemsAreConserved(o: Options, ms: seq<Message>)
    ensures Total(Collected(o, ms)) == Listed(o, ms)
  {
    hide Accepts, Collected, Total, SizeOf, Put, Seen;
    if ms == [] {
      NothingCollected(o);
    } else {
      var init, m := ms[..|ms| - 1], ms[|ms| - 1];
      ItemsAreConserved(o, init);
      assert ms == init + [m];
      if Accepts(o, m) {
        ghost var before := Collected(o, init);
        var k := Position(before, m.port);
        var ports := if k < |before| then before else before + [OccPort(m.port, [], [], [])];
        TotalAppend(before, OccPort(m.port, [], [], []));
        EmptyPort(m.port);
        CollectedNext(o, init, m, ports, k);
        TotalUpdate(ports, k, Put(ports[k], m));
        PutAddsOne(ports[k], m);
      } else {
        CollectedSame(o, init, m);
      }
    }
  }

  lemma EmptyPort(port: nat)
    ensures SizeOf(OccPort(port, [], [], [])) == 0
  {
  }

  lemma NothingCollected(o: Options)
    ensures Total(Collected(o, [])) == 0
  {
  }

  ghost function Position(ports: seq<OccPort>, port: nat): (k: nat)
    ensures k <= |ports| && (k < |ports| ==> ports[k].index == port)
    ensures forall i :: 0 <= i < k ==> ports[i].index != port
  {
    if ports == [] || ports[0].index == port then 0 else 1 + Position(ports[1..], port)
  }
}
