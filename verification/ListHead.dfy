/** The circular doubly linked list of `include/list.h`. */
module ListHead {
  import opened Sequences

  class Node {
    var next: Node
    var prev: Node

    /** `INIT_LIST_HEAD`. */
    constructor ()
      ensures next == this && prev == this
      ensures Ring(this, [])
    {
      next := this;
      prev := this;
    }
  }

  /** Once around the ring, from `head` back to `head`. */
  ghost function Around(head: Node, s: seq<Node>): (c: seq<Node>)
    ensures |c| == |s| + 2
  {
    [head] + s + [head]
  }

  ghost predicate Apart(head: Node, s: seq<Node>) {
    head !in s && NoRepeats(s)
  }

  /** `head` anchors a ring whose other members are `s`, in order: no node occurs twice, and
      `next` and `prev` are inverse to each other all the way around. */
  ghost predicate Ring(head: Node, s: seq<Node>)
    reads head, s
  {
    && Apart(head, s)
    && forall i {:trigger Around(head, s)[i]} :: 0 <= i <= |s| ==> Linked(Around(head, s)[i], Around(head, s)[i + 1])
  }

  ghost predicate Linked(a: Node, b: Node)
    reads a, b
  {
    a.next == b && b.prev == a
  }

  lemma Member(head: Node, s: seq<Node>, i: nat)
    requires i <= |s| + 1
    ensures Around(head, s)[i] == head || Around(head, s)[i] in s
  {
  }

  lemma AroundAt(head: Node, s: seq<Node>, k: nat)
    requires k < |s|
    ensures Around(head, s)[k + 1] == s[k]
  {
  }

  lemma InsertKeeps(head: Node, s: seq<Node>, k: nat, x: Node)
    requires Apart(head, s) && k <= |s| && x != head && x !in s
    ensures Apart(head, InsertAt(s, k, x)) && |InsertAt(s, k, x)| == |s| + 1
  {
  }

  lemma RemoveKeeps(head: Node, s: seq<Node>, k: nat)
    requires Apart(head, s) && k < |s|
    ensures Apart(head, RemoveAt(s, k)) && |RemoveAt(s, k)| == |s| - 1
  {
  }

  lemma InsertIndex(head: Node, s: seq<Node>, k: nat, x: Node, i: nat)
    requires k <= |s| && i <= |s| + 2
    ensures |InsertAt(s, k, x)| == |s| + 1
    ensures var c := Around(head, s);
            Around(head, InsertAt(s, k, x))[i] == if i <= k then c[i] else if i == k + 1 then x else c[i - 1]
  {
  }

  lemma RemoveIndex(head: Node, s: seq<Node>, k: nat, i: nat)
    requires k < |s| && i <= |s|
    ensures |RemoveAt(s, k)| == |s| - 1
    ensures Around(head, RemoveAt(s, k))[i] == Around(head, s)[if i <= k then i else i + 1]
  {
  }

  /** From the head on every node is met once, and so it is up to the head again. */
  lemma FrontDistinct(head: Node, s: seq<Node>, i: nat, j: nat)
    requires Apart(head, s) && i <= |s| && j <= |s| && i != j
    ensures Around(head, s)[i] != Around(head, s)[j]
  {
    var c := Around(head, s);
    assert i > 0 ==> c[i] == s[i - 1] && c[i] in s;
    assert j > 0 ==> c[j] == s[j - 1] && c[j] in s;
  }

  lemma BackDistinct(head: Node, s: seq<Node>, i: nat, j: nat)
    requires Apart(head, s) && 0 < i <= |s| + 1 && 0 < j <= |s| + 1 && i != j
    ensures Around(head, s)[i] != Around(head, s)[j]
  {
    var c := Around(head, s);
    assert i <= |s| ==> c[i] == s[i - 1] && c[i] in s;
    assert j <= |s| ==> c[j] == s[j - 1] && c[j] in s;
  }

  /** `__list_add`, between the member before position `k` and the member at position `k`. */
  method Link(x: Node, prev: Node, next: Node, ghost head: Node, ghost s: seq<Node>, ghost k: nat)
    requires Ring(head, s) && x != head && x !in s && k <= |s|
    requires prev == Around(head, s)[k] && next == Around(head, s)[k + 1]
    modifies x, prev, next
    ensures Ring(head, InsertAt(s, k, x))
  {
    ghost var c, c' := Around(head, s), Around(head, InsertAt(s, k, x));
    InsertKeeps(head, s, k, x);
    hide Around, InsertAt, NoRepeats;
    next.prev := x;
    x.next := next;
    x.prev := prev;
    prev.next := x;
    forall i | 0 <= i <= |s| + 1 ensures Linked(c'[i], c'[i + 1]) {
      InsertIndex(head, s, k, x, i);
      InsertIndex(head, s, k, x, i + 1);
      if i != k && i != k + 1 {
        ghost var j := if i < k then i else i - 1;
        assert old(Linked(c[j], c[j + 1]));
        FrontDistinct(head, s, j, k);
        BackDistinct(head, s, j + 1, k + 1);
        Member(head, s, j);
        Member(head, s, j + 1);
      }
    }
  }

  /** `list_add`. */
  method Add(x: Node, head: Node, ghost s: seq<Node>)
    requires Ring(head, s) && x != head && x !in s
    modifies x, head, head.next
    ensures Ring(head, [x] + s)
  {
    assert Linked(Around(head, s)[0], Around(head, s)[1]);
    Link(x, head, head.next, head, s, 0);
    assert InsertAt(s, 0, x) == [x] + s;
  }

  /** `list_add_tail`. */
  method AddTail(x: Node, head: Node, ghost s: seq<Node>)
    requires Ring(head, s) && x != head && x !in s
    modifies x, head, head.prev
    ensures Ring(head, s + [x])
  {
    assert Linked(Around(head, s)[|s|], Around(head, s)[|s| + 1]);
    Link(x, head.prev, head, head, s, |s|);
    assert InsertAt(s, |s|, x) == s + [x];
  }

  /** `list_del`: the neighbours are joined; the removed node keeps its own links. */
  method Del(entry: Node, ghost head: Node, ghost s: seq<Node>, ghost k: nat)
    requires Ring(head, s) && k < |s| && s[k] == entry
    modifies entry.prev, entry.next
    ensures Ring(head, RemoveAt(s, k))
    ensures entry.next == old(entry.next) && entry.prev == old(entry.prev)
  {
    hide Around, RemoveAt, Apart;
    ghost var c, c' := Around(head, s), Around(head, RemoveAt(s, k));
    RemoveKeeps(head, s, k);
    AroundAt(head, s, k);
    assert Linked(c[k], c[k + 1]) && Linked(c[k + 1], c[k + 2]);
    FrontDistinct(head, s, k + 1, k);
    BackDistinct(head, s, k + 1, k + 2);
    var prev, next := entry.prev, entry.next;
    next.prev := prev;
    prev.next := next;
    forall i | 0 <= i < |s| ensures Linked(c'[i], c'[i + 1]) {
      RemoveIndex(head, s, k, i);
      RemoveIndex(head, s, k, i + 1);
      if i != k {
        ghost var j := if i < k then i else i + 1;
        Member(head, s, j);
        Member(head, s, j + 1);
        FrontDistinct(head, s, j, k);
        BackDistinct(head, s, j + 1, k + 2);
        assert old(Linked(c[j], c[j + 1]));
      }
    }
  }

  /** `list_empty`. */
  method IsEmpty(head: Node, ghost s: seq<Node>) returns (r: bool)
    requires Ring(head, s)
    ensures r <==> s == []
  {
    assert Linked(Around(head, s)[0], Around(head, s)[1]);
    r := head.next == head;
  }

  /** `list_for_each_entry`: visits exactly the members, first to last. */
  method Forward(head: Node, ghost s: seq<Node>) returns (visited: seq<Node>)
    requires Ring(head, s)
    ensures visited == s
  {
    visited := [];
    ghost var c := Around(head, s);
    assert Linked(c[0], c[1]);
    var pos := head.next;
    while pos != head
      invariant |visited| <= |s| && visited == s[..|visited|] && pos == c[|visited| + 1]
      decreases |s| - |visited|
    {
      assert Linked(c[|visited| + 1], c[|visited| + 2]);
      visited := visited + [pos];
      pos := pos.next;
    }
  }

  ghost function Reversed(s: seq<Node>): seq<Node> {
    if s == [] then [] else [s[|s| - 1]] + Reversed(s[..|s| - 1])
  }

  lemma {:induction false} ReversedAt(s: seq<Node>, i: nat)
    requires i < |s|
    ensures |Reversed(s)| == |s| && Reversed(s)[i] == s[|s| - 1 - i]
  {
    if |s| > 1 {
      ReversedAt(s[..|s| - 1], if i > 0 then i - 1 else 0);
    }
  }

  /** `list_for_each_entry_reverse`: the same members, last to first. */
  method Backward(head: Node, ghost s: seq<Node>) returns (visited: seq<Node>)
    requires Ring(head, s)
    ensures visited == Reversed(s)
  {
    visited := [];
    ghost var c := Around(head, s);
    assert Linked(c[|s|], c[|s| + 1]) && s[..|s|] == s;
    var pos := head.prev;
    while pos != head
      invariant |visited| <= |s| && pos == c[|s| - |visited|]
      invariant visited + Reversed(s[..|s| - |visited|]) == Reversed(s)
      decreases |s| - |visited|
    {
      ghost var left := s[..|s| - |visited|];
      assert left != [] && pos == left[|left| - 1] && left[..|left| - 1] == s[..|s| - |visited| - 1];
      assert Linked(c[|s| - |visited| - 1], c[|s| - |visited|]);
      visited := visited + [pos];
      pos := pos.prev;
    }
  }

  /** `list_for_each_entry_safe` around `list_del`, as in `ifname_map_fini` and `dpipe_ctx_fini`:
      every original member is visited once, in order, and the list ends empty. */
  method DrainSafely(head: Node, ghost s: seq<Node>) returns (visited: seq<Node>)
    requires Ring(head, s)
    modifies head, s
    ensures visited == s
    ensures Ring(head, [])
  {
    visited := [];
    ghost var rest := s;
    assert Linked(Around(head, rest)[0], Around(head, rest)[1]);
    var pos := head.next;
    var n := pos.next;
    while pos != head
      invariant |visited| <= |s| && rest == s[|visited|..] && visited == s[..|visited|]
      invariant Ring(head, rest)
      invariant pos == Around(head, rest)[1]
      invariant rest != [] ==> n == Around(head, rest)[2]
      decreases |rest|
    {
      ghost var c := Around(head, rest);
      assert rest != [] && Linked(c[0], c[1]) && Linked(c[1], c[2]);
      hide NoRepeats;
      Del(pos, head, rest, 0);
      visited := visited + [pos];
      rest := rest[1..];
      assert RemoveAt(s[|visited| - 1..], 0) == rest;
      pos := n;
      if rest != [] {
        assert Linked(Around(head, rest)[1], Around(head, rest)[2]);
      }
      n := n.next;
    }
  }
}
