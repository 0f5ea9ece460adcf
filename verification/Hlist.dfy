/** The hash-chain lists of `include/list.h` (`hlist_head`, `hlist_node`): a table of list heads
    together with the nodes linked into it. Memory is explicit: a node is known by its address,
    and `next` and `pprev` map addresses to what is stored there. */
module Hlist {
  import opened Wrappers
  import opened Sequences

  type Addr = nat
  type Ptr = Option<Addr>

  /** The address of the pointer that refers to a node: `&heads[b].first` or `&node->next`. */
  datatype Slot = OfHead(bucket: nat) | OfNext(node: Addr)

  ghost function NodeAt(s: seq<Addr>, i: nat): Ptr {
    if i < |s| then Some(s[i]) else None
  }

  ghost function SlotBefore(b: nat, s: seq<Addr>, i: nat): Slot
    requires i <= |s|
  {
    if i == 0 then OfHead(b) else OfNext(s[i - 1])
  }

  /** `struct hlist_node`. */
  datatype Cell = Cell(next: Ptr, pprev: Slot)

  /** The list heads and the linked nodes. */
  datatype Memory = Memory(heads: seq<Ptr>, cells: map<Addr, Cell>)

  ghost predicate Holds(m: Memory, n: Addr, next: Ptr, pprev: Slot) {
    n in m.cells && m.cells[n] == Cell(next, pprev)
  }

  /** The chain of bucket `b` is `s`: no node twice, `next` leads from each node to the following
      one, and each `pprev` points at the very pointer that refers to its node. */
  ghost predicate Chain(m: Memory, b: nat, s: seq<Addr>) {
    && NoRepeats(s)
    && b < |m.heads| && m.heads[b] == NodeAt(s, 0)
    && forall i :: 0 <= i < |s| ==> Holds(m, s[i], NodeAt(s, i + 1), SlotBefore(b, s, i))
  }

  /** Every node of `nodes` is in exactly one chain, and the chains hold no other nodes. */
  ghost predicate Partition(chains: seq<seq<Addr>>, nodes: set<Addr>) {
    && (forall b, n :: 0 <= b < |chains| && n in chains[b] ==> n in nodes)
    && (forall n :: n in nodes ==> exists b :: 0 <= b < |chains| && n in chains[b])
    && (forall a, b, n :: 0 <= a < b < |chains| && n in chains[a] ==> n !in chains[b])
  }

  lemma Apart(chains: seq<seq<Addr>>, nodes: set<Addr>, a: nat, b: nat)
    requires Partition(chains, nodes) && a < |chains| && b < |chains|
    ensures a != b ==> forall m :: m in chains[a] ==> m !in chains[b]
    ensures forall m :: m in chains[a] ==> m in nodes
  {
  }

  lemma PartitionInsert(chains: seq<seq<Addr>>, nodes: set<Addr>, b: nat, n: Addr)
    requires Partition(chains, nodes) && b < |chains| && n !in nodes
    ensures Partition(chains[b := [n] + chains[b]], nodes + {n})
  {
    var c := chains[b := [n] + chains[b]];
    assert n in c[b];
    forall m | m in nodes ensures exists a :: 0 <= a < |c| && m in c[a] {
      var a :| 0 <= a < |chains| && m in chains[a];
      assert m in c[a];
    }
  }

  lemma WithoutMembers(s: seq<Addr>, k: nat, n: Addr)
    requires k < |s| && NoRepeats(s)
    ensures n in RemoveAt(s, k) <==> n in s && n != s[k]
  {
    if n in s && n != s[k] {
      var i :| 0 <= i < |s| && s[i] == n;
      assert n == RemoveAt(s, k)[if i < k then i else i - 1];
    }
  }

  lemma PartitionRemove(chains: seq<seq<Addr>>, nodes: set<Addr>, b: nat, k: nat)
    requires Partition(chains, nodes) && b < |chains| && k < |chains[b]| && NoRepeats(chains[b])
    ensures Partition(chains[b := RemoveAt(chains[b], k)], nodes - {chains[b][k]})
  {
    var c := chains[b := RemoveAt(chains[b], k)];
    forall n | n in nodes ensures n in c[b] <==> n in chains[b] && n != chains[b][k] {
      WithoutMembers(chains[b], k, n);
    }
    forall m | m in nodes && m != chains[b][k] ensures exists a :: 0 <= a < |c| && m in c[a] {
      var a :| 0 <= a < |chains| && m in chains[a];
      assert m in c[a];
    }
  }

  /** The whole table in memory: every bucket has its chain, and exactly the linked nodes are in
      the chains, each once. */
  ghost predicate Layout(m: Memory, chains: seq<seq<Addr>>) {
    && |chains| == |m.heads|
    && (forall b :: 0 <= b < |chains| ==> Chain(m, b, chains[b]))
    && Partition(chains, m.cells.Keys)
  }

  // ---------------------------------------------------------------- hlist_add_head

  predicate PointsInside(m: Memory, p: Ptr) {
    p.Some? ==> p.value in m.cells
  }

  /** The memory after the four stores of `hlist_add_head`. */
  function Push(m: Memory, n: Addr, b: nat): Memory
    requires b < |m.heads| && PointsInside(m, m.heads[b])
  {
    var first := m.heads[b];
    var cells := m.cells[n := Cell(first, OfHead(b))];
    Memory(m.heads[b := Some(n)],
           if first.Some? then cells[first.value := cells[first.value].(pprev := OfNext(n))] else cells)
  }

  lemma PushFirst(m: Memory, b: nat, s: seq<Addr>)
    requires Chain(m, b, s)
    ensures PointsInside(m, m.heads[b])
  {
    assert s != [] ==> Holds(m, s[0], NodeAt(s, 1), SlotBefore(b, s, 0));
  }

  lemma PushChain(m: Memory, n: Addr, b: nat, s: seq<Addr>)
    requires Chain(m, b, s) && n !in s
    requires PointsInside(m, m.heads[b])
    ensures Chain(Push(m, n, b), b, [n] + s)
  {
    var m', r := Push(m, n, b), [n] + s;
    forall i | 0 <= i < |r| ensures Holds(m', r[i], NodeAt(r, i + 1), SlotBefore(b, r, i)) {
      if i > 0 {
        assert Holds(m, s[i - 1], NodeAt(s, i), SlotBefore(b, s, i - 1));
        assert r[i] == s[i - 1] && (i > 1 ==> s[0] != s[i - 1]);
      }
    }
  }

  lemma PushOther(m: Memory, n: Addr, b: nat, s: seq<Addr>, a: nat, t: seq<Addr>)
    requires Chain(m, b, s) && PointsInside(m, m.heads[b])
    requires Chain(m, a, t) && a != b && n !in t && forall x :: x in t ==> x !in s
    ensures Chain(Push(m, n, b), a, t)
  {
    assert s != [] ==> s[0] in s;
    forall i | 0 <= i < |t| ensures Holds(Push(m, n, b), t[i], NodeAt(t, i + 1), SlotBefore(a, t, i)) {
      assert t[i] in t && Holds(m, t[i], NodeAt(t, i + 1), SlotBefore(a, t, i));
    }
  }

  /** The keys and the number of buckets after a push. */
  lemma PushKeys(m: Memory, n: Addr, b: nat)
    requires b < |m.heads| && PointsInside(m, m.heads[b])
    ensures Push(m, n, b).cells.Keys == m.cells.Keys + {n} && |Push(m, n, b).heads| == |m.heads|
  {
  }

  lemma PushLayout(m: Memory, n: Addr, b: nat, chains: seq<seq<Addr>>)
    requires Layout(m, chains) && b < |m.heads| && n !in m.cells
    ensures PointsInside(m, m.heads[b])
    ensures Layout(Push(m, n, b), chains[b := [n] + chains[b]])
  {
    hide Chain, Push, Partition, PointsInside;
    assert Chain(m, b, chains[b]);
    PushFirst(m, b, chains[b]);
    PushKeys(m, n, b);
    PartitionInsert(chains, m.cells.Keys, b, n);
    var c := chains[b := [n] + chains[b]];
    forall a | 0 <= a < |c| ensures Chain(Push(m, n, b), a, c[a]) {
      Apart(chains, m.cells.Keys, a, b);
      if a == b {
        PushChain(m, n, b, chains[b]);
      } else {
        assert Chain(m, a, chains[a]);
        PushOther(m, n, b, chains[b], a, chains[a]);
      }
    }
  }

  // ---------------------------------------------------------------- hlist_del

  predicate CanPop(m: Memory, n: Addr) {
    && n in m.cells
    && PointsInside(m, m.cells[n].next)
    && match m.cells[n].pprev
       case OfHead(b) => b < |m.heads|
       case OfNext(p) => p in m.cells
  }

  /** The memory after `hlist_del` and the release of the node. */
  function Pop(m: Memory, n: Addr): Memory
    requires CanPop(m, n)
  {
    var Cell(next, pprev) := m.cells[n];
    var m1 := match pprev
              case OfHead(b) => m.(heads := m.heads[b := next])
              case OfNext(p) => m.(cells := m.cells[p := m.cells[p].(next := next)]);
    var cells := if next.Some? then m1.cells[next.value := m1.cells[next.value].(pprev := pprev)] else m1.cells;
    Memory(m1.heads, cells - {n})
  }

  lemma PopAllowed(m: Memory, b: nat, s: seq<Addr>, k: nat)
    requires Chain(m, b, s) && k < |s|
    ensures CanPop(m, s[k])
  {
    assert Holds(m, s[k], NodeAt(s, k + 1), SlotBefore(b, s, k));
    assert k > 0 ==> Holds(m, s[k - 1], NodeAt(s, k), SlotBefore(b, s, k - 1));
    assert k + 1 < |s| ==> Holds(m, s[k + 1], NodeAt(s, k + 2), SlotBefore(b, s, k + 1));
  }

  lemma PopKeys(m: Memory, n: Addr)
    requires CanPop(m, n)
    ensures Pop(m, n).cells.Keys == m.cells.Keys - {n} && |Pop(m, n).heads| == |m.heads|
  {
  }

  /** What a pop does to one other node: at most its link to the popped node is rerouted. */
  lemma PopCell(m: Memory, n: Addr, x: Addr)
    requires CanPop(m, n) && x in m.cells && x != n
    ensures x in Pop(m, n).cells
    ensures Pop(m, n).cells[x].next == if m.cells[n].pprev == OfNext(x) then m.cells[n].next else m.cells[x].next
    ensures Pop(m, n).cells[x].pprev == if m.cells[n].next == Some(x) then m.cells[n].pprev else m.cells[x].pprev
  {
  }

  lemma PopHead(m: Memory, n: Addr, a: nat)
    requires CanPop(m, n) && a < |m.heads|
    ensures |Pop(m, n).heads| == |m.heads|
    ensures Pop(m, n).heads[a] == if m.cells[n].pprev == OfHead(a) then m.cells[n].next else m.heads[a]
  {
  }

  lemma WithoutIndex(b: nat, s: seq<Addr>, k: nat, i: nat)
    requires k < |s| && i <= |s| - 1
    ensures |RemoveAt(s, k)| == |s| - 1
    ensures i < |s| - 1 ==> RemoveAt(s, k)[i] == s[if i < k then i else i + 1]
    ensures NodeAt(RemoveAt(s, k), i) == NodeAt(s, if i < k then i else i + 1)
    ensures SlotBefore(b, RemoveAt(s, k), i) == SlotBefore(b, s, if i <= k then i else i + 1)
  {
  }

  lemma WithoutKeeps(s: seq<Addr>, k: nat)
    requires k < |s| && NoRepeats(s)
    ensures NoRepeats(RemoveAt(s, k))
  {
  }

  lemma PopChain(m: Memory, b: nat, s: seq<Addr>, k: nat)
    requires Chain(m, b, s) && k < |s| && CanPop(m, s[k])
    ensures Chain(Pop(m, s[k]), b, RemoveAt(s, k))
  {
    var m', r, n := Pop(m, s[k]), RemoveAt(s, k), s[k];
    assert Holds(m, s[k], NodeAt(s, k + 1), SlotBefore(b, s, k));
    WithoutKeeps(s, k);
    WithoutIndex(b, s, k, 0);
    PopHead(m, n, b);
    hide Pop, RemoveAt, CanPop;
    forall i | 0 <= i < |r| ensures Holds(m', r[i], NodeAt(r, i + 1), SlotBefore(b, r, i)) {
      var j := if i < k then i else i + 1;
      WithoutIndex(b, s, k, i);
      WithoutIndex(b, s, k, i + 1);
      PopNode(m, b, s, k, j);
    }
  }

  lemma PopNode(m: Memory, b: nat, s: seq<Addr>, k: nat, j: nat)
    requires Chain(m, b, s) && k < |s| && CanPop(m, s[k]) && j < |s| && j != k
    ensures Holds(Pop(m, s[k]), s[j], NodeAt(s, if j + 1 == k then k + 1 else j + 1),
                  SlotBefore(b, s, if j == k + 1 then k else j))
  {
    assert Holds(m, s[k], NodeAt(s, k + 1), SlotBefore(b, s, k));
    assert Holds(m, s[j], NodeAt(s, j + 1), SlotBefore(b, s, j));
    assert s[j] != s[k] && (k > 0 && j != k - 1 ==> s[j] != s[k - 1])
           && (k + 1 < |s| && j != k + 1 ==> s[j] != s[k + 1]);
    PopCell(m, s[k], s[j]);
  }

  lemma PopOther(m: Memory, b: nat, s: seq<Addr>, k: nat, a: nat, t: seq<Addr>)
    requires Chain(m, b, s) && k < |s| && CanPop(m, s[k])
    requires Chain(m, a, t) && a != b && forall x :: x in t ==> x !in s
    ensures Chain(Pop(m, s[k]), a, t)
  {
    var n := s[k];
    assert Holds(m, n, NodeAt(s, k + 1), SlotBefore(b, s, k));
    assert n in s && (k > 0 ==> s[k - 1] in s) && (k + 1 < |s| ==> s[k + 1] in s);
    PopHead(m, n, a);
    hide Pop, CanPop;
    forall i | 0 <= i < |t| ensures Holds(Pop(m, n), t[i], NodeAt(t, i + 1), SlotBefore(a, t, i)) {
      assert t[i] in t && Holds(m, t[i], NodeAt(t, i + 1), SlotBefore(a, t, i));
      PopCell(m, n, t[i]);
    }
  }

  lemma PopLayout(m: Memory, chains: seq<seq<Addr>>, b: nat, k: nat)
    requires Layout(m, chains) && b < |chains| && k < |chains[b]|
    ensures CanPop(m, chains[b][k])
    ensures Layout(Pop(m, chains[b][k]), chains[b := RemoveAt(chains[b], k)])
  {
    var s := chains[b];
    assert NoRepeats(s) by {
      assert Chain(m, b, s);
    }
    hide Chain, Pop, Partition, CanPop, RemoveAt, NoRepeats;
    assert Chain(m, b, s);
    PopAllowed(m, b, s, k);
    PopKeys(m, s[k]);
    PartitionRemove(chains, m.cells.Keys, b, k);
    var c := chains[b := RemoveAt(s, k)];
    forall a | 0 <= a < |c| ensures Chain(Pop(m, s[k]), a, c[a]) {
      Apart(chains, m.cells.Keys, a, b);
      if a == b {
        PopChain(m, b, s, k);
      } else {
        assert Chain(m, a, chains[a]);
        PopOther(m, b, s, k, a, chains[a]);
      }
    }
  }

  /** A static array of list heads and the nodes linked into it. */
  class Table {
    var heads: seq<Ptr>
    var cells: map<Addr, Cell>
    ghost var chains: seq<seq<Addr>>

    ghost predicate Valid()
      reads this
    {
      Layout(Memory(heads, cells), chains)
    }

    constructor (size: nat)
      ensures Valid() && |heads| == size && cells == map[]
      ensures chains == seq(size, _ => [])
    {
      heads := seq(size, _ => None);
      cells := map[];
      chains := seq(size, _ => []);
    }

    /** `hlist_add_head(n, &heads[b])`. */
    method AddHead(n: Addr, b: nat)
      requires Valid() && b < |heads| && n !in cells
      modifies this
      ensures Valid() && |heads| == |old(heads)|
      ensures chains == old(chains)[b := [n] + old(chains[b])]
      ensures cells.Keys == old(cells.Keys) + {n}
    {
      PushLayout(Memory(heads, cells), n, b, chains);
      PushKeys(Memory(heads, cells), n, b);
      hide Layout;
      var first := heads[b];
      cells := cells[n := Cell(first, OfHead(b))];
      if first.Some? {
        cells := cells[first.value := cells[first.value].(pprev := OfNext(n))];
      }
      heads := heads[b := Some(n)];
      assert Memory(heads, cells) == Push(old(Memory(heads, cells)), n, b);
      chains := chains[b := [n] + chains[b]];
    }

    /** `hlist_del(n)`, and the node is gone: found through its own `pprev`, without its head. */
    method Del(n: Addr, ghost b: nat, ghost k: nat)
      requires Valid() && b < |heads| && b < |chains| && k < |chains[b]| && chains[b][k] == n
      modifies this
      ensures Valid() && |heads| == |old(heads)|
      ensures chains == old(chains)[b := RemoveAt(old(chains[b]), k)]
      ensures cells.Keys == old(cells.Keys) - {n}
    {
      hide Layout, RemoveAt, Chain, Partition, NoRepeats;
      PopLayout(Memory(heads, cells), chains, b, k);
      PopKeys(Memory(heads, cells), n);
      var next, pprev := cells[n].next, cells[n].pprev;
      match pprev {
        case OfHead(h) => heads := heads[h := next];
        case OfNext(p) => cells := cells[p := cells[p].(next := next)];
      }
      if next.Some? {
        cells := cells[next.value := cells[next.value].(pprev := pprev)];
      }
      cells := cells - {n};
      assert Memory(heads, cells) == Pop(old(Memory(heads, cells)), n);
      chains := chains[b := RemoveAt(chains[b], k)];
    }
  }
}
