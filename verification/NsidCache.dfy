/** The network-namespace id cache of `ip/ipnetns.c`: records indexed by two hash tables, one
    over the id and one over the name. */
module NsidCache {
  import opened Wrappers
  import opened Sequences
  import opened Hlist
  import opened Bytes

  const NSIDMAP_SIZE: nat := 128
  const EEXIST := 17
  const ENOMEM := 12

  /** `nsid & (NSIDMAP_SIZE - 1)` on a two's complement int. */
  function NsidBucket(nsid: int): (b: nat)
    ensures b < NSIDMAP_SIZE
  {
    nsid % NSIDMAP_SIZE
  }

  /** `namehash`: hash * 33 + c from 5381, modulo 2^32. */
  function NameHash(name: string, hash: nat): nat {
    if name == "" then hash else NameHash(name[1..], (hash * 33 + name[0] as int) % TWO_32)
  }

  function NameBucket(name: string): (b: nat)
    ensures b < NSIDMAP_SIZE
  {
    NameHash(name, 5381) % NSIDMAP_SIZE
  }

  /** `struct nsid_cache` without its list nodes. */
  datatype Record = Record(nsid: int, name: string)

  /** The index over ids holds only records, each in the bucket of its id. */
  ghost predicate OwnNsidBuckets(records: map<Addr, Record>, chains: seq<seq<Addr>>) {
    forall b, n :: 0 <= b < |chains| && n in chains[b] ==> n in records && NsidBucket(records[n].nsid) == b
  }

  /** The index over names likewise. */
  ghost predicate OwnNameBuckets(records: map<Addr, Record>, chains: seq<seq<Addr>>) {
    forall b, n :: 0 <= b < |chains| && n in chains[b] ==> n in records && NameBucket(records[n].name) == b
  }

  /** The records are the plain map `m`: one record for each id. */
  ghost predicate Represents(records: map<Addr, Record>, m: map<int, string>) {
    && (forall n :: n in records ==> records[n].nsid in m && m[records[n].nsid] == records[n].name)
    && (forall nsid :: nsid in m ==> exists n :: n in records && records[n].nsid == nsid)
    && (forall n, o :: n in records && o in records && records[n].nsid == records[o].nsid ==> n == o)
  }

  lemma RepresentsAdd(records: map<Addr, Record>, m: map<int, string>, n: Addr, nsid: int, name: string)
    requires Represents(records, m) && n !in records && nsid !in m
    ensures Represents(records[n := Record(nsid, name)], m[nsid := name])
  {
    var r := records[n := Record(nsid, name)];
    var m' := m[nsid := name];
    forall x | x in m' ensures exists o :: o in r && r[o].nsid == x {
      if x == nsid {
        assert r[n].nsid == x;
      } else {
        var o :| o in records && records[o].nsid == x;
        assert o in r && r[o].nsid == x;
      }
    }
  }

  lemma RepresentsDel(records: map<Addr, Record>, m: map<int, string>, n: Addr)
    requires Represents(records, m) && n in records
    ensures Represents(records - {n}, m - {records[n].nsid})
  {
    var r := records - {n};
    forall x | x in m - {records[n].nsid} ensures exists o :: o in r && r[o].nsid == x {
      var o :| o in records && records[o].nsid == x;
      assert o in r;
    }
  }

  lemma OwnAfterAdd(records: map<Addr, Record>, nsidChains: seq<seq<Addr>>, nameChains: seq<seq<Addr>>, n: Addr,
                    r: Record)
    requires |nsidChains| == |nameChains| == NSIDMAP_SIZE && n !in records
    requires OwnNsidBuckets(records, nsidChains) && OwnNameBuckets(records, nameChains)
    ensures var a, b := NsidBucket(r.nsid), NameBucket(r.name);
            && OwnNsidBuckets(records[n := r], nsidChains[a := [n] + nsidChains[a]])
            && OwnNameBuckets(records[n := r], nameChains[b := [n] + nameChains[b]])
  {
  }

  lemma OwnAfterDel(records: map<Addr, Record>, nsidChains: seq<seq<Addr>>, nameChains: seq<seq<Addr>>,
                    a: nat, j: nat, b: nat, k: nat, n: Addr)
    requires OwnNsidBuckets(records, nsidChains) && OwnNameBuckets(records, nameChains)
    requires a < |nsidChains| && j < |nsidChains[a]| && nsidChains[a][j] == n && NoRepeats(nsidChains[a])
    requires b < |nameChains| && k < |nameChains[b]| && nameChains[b][k] == n && NoRepeats(nameChains[b])
    requires Partition(nsidChains, records.Keys) && Partition(nameChains, records.Keys)
    ensures OwnNsidBuckets(records - {n}, nsidChains[a := RemoveAt(nsidChains[a], j)])
    ensures OwnNameBuckets(records - {n}, nameChains[b := RemoveAt(nameChains[b], k)])
  {
    PartitionRemove(nsidChains, records.Keys, a, j);
    PartitionRemove(nameChains, records.Keys, b, k);
    hide NsidBucket, NameBucket;
  }

  ghost predicate Below(records: map<Addr, Record>, brk: Addr) {
    forall n :: n in records ==> n < brk
  }

  lemma NextAddress(records: map<Addr, Record>, brk: Addr, r: Record)
    requires Below(records, brk)
    ensures brk !in records && Below(records[brk := r], brk + 1)
  {
  }

  lemma BelowDel(records: map<Addr, Record>, brk: Addr, n: Addr)
    requires Below(records, brk)
    ensures Below(records - {n}, brk)
  {
  }

  class Cache {
    const byNsid: Table
    const byName: Table
    var records: map<Addr, Record>
    /** The next address `malloc` hands out; addresses are not reused. */
    var brk: Addr
    ghost var contents: map<int, string>

    ghost predicate Valid()
      reads this, byNsid, byName
    {
      && byNsid != byName
      && byNsid.Valid() && |byNsid.heads| == |byNsid.chains| == NSIDMAP_SIZE && byNsid.cells.Keys == records.Keys
      && byName.Valid() && |byName.heads| == |byName.chains| == NSIDMAP_SIZE && byName.cells.Keys == records.Keys
      && OwnNsidBuckets(records, byNsid.chains) && OwnNameBuckets(records, byName.chains)
      && Represents(records, contents) && Below(records, brk)
    }

    constructor ()
      ensures Valid() && contents == map[]
      ensures fresh(byNsid) && fresh(byName)
    {
      byNsid := new Table(NSIDMAP_SIZE);
      byName := new Table(NSIDMAP_SIZE);
      records, brk, contents := map[], 0, map[];
    }

    /** `netns_map_get_by_nsid`. */
    method GetByNsid(nsid: int) returns (r: Ptr)
      requires Valid()
      ensures r.Some? <==> nsid in contents
      ensures r.Some? ==> r.value in records && records[r.value] == Record(nsid, contents[nsid])
    {
      hide Layout, Represents, RemoveAt, OwnNsidBuckets, OwnNameBuckets, Partition, NoRepeats, Below, NsidBucket,
           NameBucket, NodeAt;
      var h := NsidBucket(nsid);
      ghost var s, i := byNsid.chains[h], 0;
      ghost var m := Memory(byNsid.heads, byNsid.cells);
      InBucket(records, m, byNsid.chains, h, 0);
      r := byNsid.heads[h];
      while r.Some? && records[r.value].nsid != nsid
        invariant 0 <= i <= |s| && r == NodeAt(s, i) && (r.Some? ==> r.value in records) && (r.None? ==> i == |s|)
        invariant forall j :: 0 <= j < i ==> s[j] in records && records[s[j]].nsid != nsid
        decreases |s| - i
      {
        InBucket(records, m, byNsid.chains, h, i);
        r, i := byNsid.cells[r.value].next, i + 1;
        InBucket(records, m, byNsid.chains, h, i);
      }
      if r.None? {
        Absent(records, contents, byNsid.heads, byNsid.cells, byNsid.chains, nsid);
      } else {
        Present(records, contents, r.value);
      }
    }

    /** The insertion part of `netns_map_add`. */
    method Insert(nsid: int, name: string)
      requires Valid() && nsid !in contents
      modifies this, byNsid, byName
      ensures Valid()
      ensures contents == old(contents)[nsid := name]
    {
      hide Layout, Represents, RemoveAt, OwnNsidBuckets, OwnNameBuckets, Partition, NoRepeats, Below, NsidBucket,
           NameBucket;
      var c := brk;
      NextAddress(records, brk, Record(nsid, name));
      RepresentsAdd(records, contents, c, nsid, name);
      OwnAfterAdd(records, byNsid.chains, byName.chains, c, Record(nsid, name));
      byNsid.AddHead(c, NsidBucket(nsid));
      byName.AddHead(c, NameBucket(name));
      brk := brk + 1;
      records := records[c := Record(nsid, name)];
      contents := contents[nsid := name];
    }

    /** `netns_map_add`; `memory` says whether `malloc` succeeds. */
    method Add(nsid: int, name: string, memory: bool) returns (code: int)
      requires Valid()
      modifies this, byNsid, byName
      ensures Valid()
      ensures code == if nsid in old(contents) then -EEXIST else if !memory then -ENOMEM else 0
      ensures contents == if code == 0 then old(contents)[nsid := name] else old(contents)
    {
      var found := GetByNsid(nsid);
      code := if found.Some? then -EEXIST else if !memory then -ENOMEM else 0;
      if code == 0 {
        Insert(nsid, name);
      }
    }

    /** `netns_map_del`. */
    method Delete(c: Addr)
      requires Valid() && c in records
      modifies this, byNsid, byName
      ensures Valid()
      ensures contents == old(contents) - {old(records[c].nsid)}
    {
      hide Layout, Represents, RemoveAt, OwnNsidBuckets, OwnNameBuckets, Partition, NoRepeats, Below, NsidBucket,
           NameBucket;
      RepresentsDel(records, contents, c);
      BelowDel(records, brk, c);
      ghost var a, j := Position(byNsid.heads, byNsid.cells, byNsid.chains, c);
      ghost var b, k := Position(byName.heads, byName.cells, byName.chains, c);
      OwnAfterDel(records, byNsid.chains, byName.chains, a, j, b, k, c);
      byName.Del(c, b, k);
      byNsid.Del(c, a, j);
      contents := contents - {records[c].nsid};
      records := records - {c};
    }
  }

  /** The nodes of a bucket are records, linked one behind the other. */
  lemma InBucket(records: map<Addr, Record>, m: Memory, chains: seq<seq<Addr>>, h: nat, i: nat)
    requires Layout(m, chains) && h < |chains| && m.cells.Keys == records.Keys && i <= |chains[h]|
    ensures h < |m.heads| && m.heads[h] == NodeAt(chains[h], 0)
    ensures NodeAt(chains[h], i) == if i < |chains[h]| then Some(chains[h][i]) else None
    ensures i < |chains[h]| ==>
              chains[h][i] in records && chains[h][i] in m.cells
                && m.cells[chains[h][i]].next == NodeAt(chains[h], i + 1)
  {
    assert Chain(m, h, chains[h]);
    if i < |chains[h]| {
      assert Holds(m, chains[h][i], NodeAt(chains[h], i + 1), SlotBefore(h, chains[h], i));
    }
  }

  lemma Position(heads: seq<Ptr>, cells: map<Addr, Cell>, chains: seq<seq<Addr>>, n: Addr) returns (b: nat, k: nat)
    requires Layout(Memory(heads, cells), chains) && n in cells
    ensures b < |chains| && b < |heads| && k < |chains[b]| && chains[b][k] == n && NoRepeats(chains[b])
    ensures Partition(chains, cells.Keys)
  {
    b :| 0 <= b < |chains| && n in chains[b];
    k :| 0 <= k < |chains[b]| && chains[b][k] == n;
    assert Chain(Memory(heads, cells), b, chains[b]);
  }

  /** A record with the id would be in the bucket of the id. */
  lemma Absent(records: map<Addr, Record>, contents: map<int, string>, heads: seq<Ptr>, cells: map<Addr, Cell>,
               chains: seq<seq<Addr>>, nsid: int)
    requires Layout(Memory(heads, cells), chains) && Represents(records, contents) && |chains| == NSIDMAP_SIZE
    requires cells.Keys == records.Keys
    requires OwnNsidBuckets(records, chains)
    requires forall j :: 0 <= j < |chains[NsidBucket(nsid)]| ==> chains[NsidBucket(nsid)][j] in records
    requires forall j :: 0 <= j < |chains[NsidBucket(nsid)]| ==> records[chains[NsidBucket(nsid)][j]].nsid != nsid
    ensures nsid !in contents
  {
    hide Layout, Partition, NoRepeats, NsidBucket;
    forall n | n in records ensures records[n].nsid != nsid {
      var b, k := Position(heads, cells, chains, n);
      assert NsidBucket(records[chains[b][k]].nsid) == b;
    }
  }

  lemma Present(records: map<Addr, Record>, contents: map<int, string>, n: Addr)
    requires Represents(records, contents) && n in records
    ensures records[n].nsid in contents && records[n] == Record(records[n].nsid, contents[records[n].nsid])
  {
  }

  // ---------------------------------------------------------------- whole runs

  /** What drives the cache: a directory entry read by `netns_map_init` (its id, negative if it has
      none), or a netlink notification seen by `print_nsid` together with the name that a search of
      the directory would find for a new id. */
  datatype Event = DirEntry(name: string, nsid: int, memory: bool)
                 | NewNsid(nsid: int, found: Option<string>, memory: bool)
                 | DelNsid(nsid: int)

  /** The effect of one event on a plain map. */
  function Step(m: map<int, string>, e: Event): map<int, string> {
    match e
    case DirEntry(name, nsid, memory) =>
      if name == "." || name == ".." || nsid < 0 || nsid in m || !memory then m else m[nsid := name]
    case NewNsid(nsid, found, memory) =>
      if nsid in m then m - {nsid}
      else if found.Some? && memory then m[nsid := found.value] else m
    case DelNsid(nsid) => m - {nsid}
  }

  function Run(m: map<int, string>, es: seq<Event>): map<int, string> {
    if es == [] then m else Step(Run(m, es[..|es| - 1]), es[|es| - 1])
  }

  /** One directory entry of `netns_map_init`, or the cache steps of `print_nsid`. */
  method Handle(c: Cache, e: Event)
    requires c.Valid()
    modifies c, c.byNsid, c.byName
    ensures c.Valid()
    ensures c.contents == Step(old(c.contents), e)
  {
    hide Cache.Valid;
    match e {
      case DirEntry(name, nsid, memory) =>
        if name != "." && name != ".." && nsid >= 0 {
          var _ := c.Add(nsid, name, memory);
        }
      case NewNsid(nsid, found, memory) =>
        var r := c.GetByNsid(nsid);
        if r.Some? {
          c.Delete(r.value);
        } else if found.Some? {
          var _ := c.Add(nsid, found.value, memory);
        }
      case DelNsid(nsid) =>
        var r := c.GetByNsid(nsid);
        if r.Some? {
          c.Delete(r.value);
        }
    }
  }

  /** After any run both indexes are intact and the cache is the plain map. */
  method HandleAll(c: Cache, es: seq<Event>)
    requires c.Valid()
    modifies c, c.byNsid, c.byName
    ensures c.Valid()
    ensures c.contents == Run(old(c.contents), es)
  {
    for i := 0 to |es|
      invariant c.Valid()
      invariant c.contents == Run(old(c.contents), es[..i])
    {
      assert es[..i + 1][..i] == es[..i];
      Handle(c, es[i]);
    }
    assert es[..|es|] == es;
  }

  // ---------------------------------------------------------------- which ids are cached

  /** What an event does to one id: nothing, cache it, drop it, or turn one state into the other. A
      notification that finds no name, or no memory for it, can only drop the id. */
  datatype Effect = Keep | Set | Reset | Toggle

  function EffectOn(e: Event, nsid: int): Effect {
    match e
    case DirEntry(name, id, memory) =>
      if id == nsid && name != "." && name != ".." && nsid >= 0 && memory then Set else Keep
    case NewNsid(id, found, memory) =>
      if id != nsid then Keep else if found.Some? && memory then Toggle else Reset
    case DelNsid(id) => if id == nsid then Reset else Keep
  }

  /** How much of the run there is up to the last event that sets or resets the id. */
  function Settled(es: seq<Event>, nsid: int): (n: nat)
    ensures n <= |es| && (n > 0 ==> EffectOn(es[n - 1], nsid) in {Set, Reset})
    ensures forall i :: n <= i < |es| ==> EffectOn(es[i], nsid) in {Keep, Toggle}
  {
    if es == [] then 0
    else if EffectOn(es[|es| - 1], nsid) in {Set, Reset} then |es|
    else Settled(es[..|es| - 1], nsid)
  }

  /** The notifications for the id in the last part of a run. */
  function Toggles(es: seq<Event>, nsid: int): nat {
    if es == [] then 0
    else Toggles(es[..|es| - 1], nsid) + if EffectOn(es[|es| - 1], nsid) == Toggle then 1 else 0
  }

  predicate CachedAt(m: map<int, string>, es: seq<Event>, nsid: int) {
    var n := Settled(es, nsid);
    if n == 0 then nsid in m else EffectOn(es[n - 1], nsid) == Set
  }

  predicate InCache(m: map<int, string>, es: seq<Event>, nsid: int) {
    CachedAt(m, es, nsid) == (Toggles(es[Settled(es, nsid)..], nsid) % 2 == 0)
  }

  lemma StepEffect(m: map<int, string>, e: Event, nsid: int)
    ensures nsid in Step(m, e) <==>
              match EffectOn(e, nsid)
              case Keep => nsid in m
              case Set => true
              case Reset => false
              case Toggle => nsid !in m
  {
  }

  /** Over a whole run: an id is cached at the end exactly when it was cached at its last fixed point,
      the last event that sets or resets it, and has been announced an even number of times since, or
      was not and has been announced an odd number of times. */
  lemma {:induction false} CachedAfterRun(m: map<int, string>, es: seq<Event>, nsid: int)
    ensures nsid in Run(m, es) <==> InCache(m, es, nsid)
  {
    hide EffectOn, Step;
    if es == [] {
      assert es[0..] == [];
    } else {
      var init, e := es[..|es| - 1], es[|es| - 1];
      CachedAfterRun(m, init, nsid);
      StepEffect(Run(m, init), e, nsid);
      var n := Settled(es, nsid);
      if n == |es| {
        assert es[n..] == [];
      } else {
        assert es[n..][..|es| - 1 - n] == init[n..];
        assert n > 0 ==> es[n - 1] == init[n - 1];
      }
    }
  }

  // ---------------------------------------------------------------- under which names

  /** The name an event carries: that of the directory entry, or the one found for the notification. */
  function NameIn(e: Event): Option<string> {
    match e
    case DirEntry(name, _, _) => Some(name)
    case NewNsid(_, found, _) => found
    case DelNsid(_) => None
  }

  /** Event `i` of the run caches the id, which was not cached before it. */
  ghost predicate CachesAt(m: map<int, string>, es: seq<Event>, nsid: int, i: int) {
    0 <= i < |es| && EffectOn(es[i], nsid) in {Set, Toggle} && !InCache(m, es[..i], nsid)
  }

  lemma StepName(m: map<int, string>, e: Event, nsid: int)
    requires nsid in Step(m, e)
    ensures if nsid in m then Step(m, e)[nsid] == m[nsid] else Some(Step(m, e)[nsid]) == NameIn(e)
  {
  }

  /** How much of the run there is up to the last event that caches the id. */
  ghost function Named(m: map<int, string>, es: seq<Event>, nsid: int): (n: nat)
    ensures n <= |es|
  {
    if es == [] then 0
    else if CachesAt(m, es, nsid, |es| - 1) then |es|
    else Named(m, es[..|es| - 1], nsid)
  }

  lemma {:induction false} NamedIsLast(m: map<int, string>, es: seq<Event>, nsid: int)
    ensures var n := Named(m, es, nsid);
            && (n > 0 ==> CachesAt(m, es, nsid, n - 1))
            && forall i :: n <= i < |es| ==> !CachesAt(m, es, nsid, i)
  {
    hide EffectOn, InCache;
    if es != [] && !CachesAt(m, es, nsid, |es| - 1) {
      var init := es[..|es| - 1];
      NamedIsLast(m, init, nsid);
      forall i | 0 <= i < |init| ensures CachesAt(m, es, nsid, i) <==> CachesAt(m, init, nsid, i) {
        assert init[..i] == es[..i];
      }
    }
  }

  /** Over a whole run: a cached id has the name that the last event to cache it carried, or its name at
      the start where no event cached it. */
  lemma {:induction false} NameAfterRun(m: map<int, string>, es: seq<Event>, nsid: int)
    requires nsid in Run(m, es)
    ensures var n := Named(m, es, nsid);
            if n == 0 then nsid in m && Run(m, es)[nsid] == m[nsid]
            else Some(Run(m, es)[nsid]) == NameIn(es[n - 1])
  {
    if es != [] {
      hide EffectOn, Step, InCache;
      var init, e := es[..|es| - 1], es[|es| - 1];
      CachedAfterRun(m, init, nsid);
      StepEffect(Run(m, init), e, nsid);
      StepName(Run(m, init), e, nsid);
      if nsid in Run(m, init) {
        NameAfterRun(m, init, nsid);
      }
    }
  }

  /** So announcing an id again caches it exactly when it is not cached already. */
  lemma NewTwiceForgets(m: map<int, string>, es: seq<Event>, nsid: int, name: string)
    ensures nsid in Run(m, es + [NewNsid(nsid, Some(name), true)]) <==> nsid !in Run(m, es)
  {
    var e := NewNsid(nsid, Some(name), true);
    assert (es + [e])[..|es|] == es;
    StepEffect(Run(m, es), e, nsid);
  }
}
