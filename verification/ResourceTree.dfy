/** The resource tree of `devlink resource`: built recursively from nested attributes, each node in
    the list of its parent and with a link back to it. */
module ResourceTree {
  import opened Wrappers

  /** A nested resource attribute. `parses` is the verdict of the attribute parser, `complete` says
      that the sizes and the unit are there. A missing list of children is an empty one. */
  datatype Attr = Attr(parses: bool, name: Option<string>, id: Option<nat>, complete: bool, list: seq<Attr>)

  /** What a well-formed attribute describes. */
  datatype Tree = Tree(name: string, id: nat, kids: seq<Tree>)

  /** `struct resource`, addressed by its position: allocation order is position order. */
  datatype Node = Node(name: string, id: nat, parent: Option<nat>, children: seq<nat>)

  predicate Complete(a: Attr) {
    a.parses && a.name.Some? && a.id.Some? && a.complete
  }

  ghost predicate AllGood(xs: seq<Attr>)
    decreases xs
  {
    xs == [] || (AllGood(xs[..|xs| - 1]) && Complete(xs[|xs| - 1]) && AllGood(xs[|xs| - 1].list))
  }

  ghost function TreeOf(x: Attr): Tree
    requires Complete(x) && AllGood(x.list)
    decreases x, 0
  {
    Tree(x.name.value, x.id.value, TreesOf(x.list))
  }

  ghost function TreesOf(xs: seq<Attr>): (r: seq<Tree>)
    requires AllGood(xs)
    ensures |r| == |xs|
    decreases xs
  {
    if xs == [] then [] else TreesOf(xs[..|xs| - 1]) + [TreeOf(xs[|xs| - 1])]
  }

  /** What is built of an attribute, also when it is bad: nothing but a node of an incomplete one, and of
      a complete one all up to the first bad attribute in its list. */
  ghost function GotTree(x: Attr): Tree
    decreases x, 0
  {
    if Complete(x) then Tree(x.name.value, x.id.value, Got(x.list)) else Tree("", 0, [])
  }

  /** The trees up to the first bad attribute, and what is built of that one. */
  ghost function Got(xs: seq<Attr>): seq<Tree>
    decreases xs
  {
    if xs == [] then []
    else if AllGood(xs[..|xs| - 1]) then Got(xs[..|xs| - 1]) + [GotTree(xs[|xs| - 1])]
    else Got(xs[..|xs| - 1])
  }

  ghost function Size(ts: seq<Tree>): nat
    decreases ts
  {
    if ts == [] then 0 else Size(ts[..|ts| - 1]) + 1 + Size(ts[|ts| - 1].kids)
  }

  /** Positions of the trees' roots when the first is put at `base`. */
  ghost function Roots(ts: seq<Tree>, base: nat): (r: seq<nat>)
    ensures |r| == |ts|
  {
    if ts == [] then [] else Roots(ts[..|ts| - 1], base) + [base + Size(ts[..|ts| - 1])]
  }

  /** The nodes of the trees in preorder, from position `base` on. */
  ghost function Layout(ts: seq<Tree>, base: nat, parent: Option<nat>): (r: seq<Node>)
    ensures |r| == Size(ts)
    decreases ts
  {
    if ts == [] then []
    else
      var t, here := ts[|ts| - 1], base + Size(ts[..|ts| - 1]);
      Layout(ts[..|ts| - 1], base, parent)
        + [Node(t.name, t.id, parent, Roots(t.kids, here + 1))]
        + Layout(t.kids, here + 1, Some(here))
  }

  // ---------------------------------------------------------------- appending one tree

  lemma AllGoodNext(xs: seq<Attr>, j: nat)
    requires j < |xs|
    ensures AllGood(xs[..j + 1]) <==> AllGood(xs[..j]) && Complete(xs[j]) && AllGood(xs[j].list)
    ensures AllGood(xs[..j + 1]) ==> TreesOf(xs[..j + 1]) == TreesOf(xs[..j]) + [TreeOf(xs[j])]
  {
    assert xs[..j + 1][..j] == xs[..j];
  }

  lemma GotNext(xs: seq<Attr>, j: nat)
    requires j < |xs| && AllGood(xs[..j])
    ensures Got(xs[..j + 1]) == Got(xs[..j]) + [GotTree(xs[j])]
  {
    hide GotTree;
    assert xs[..j + 1][..j] == xs[..j];
  }

  /** Nothing is built behind the first bad attribute. */
  lemma {:induction false} GotStops(xs: seq<Attr>, j: nat)
    requires j <= |xs| && !AllGood(xs[..j])
    ensures Got(xs) == Got(xs[..j]) && !AllGood(xs)
  {
    hide GotTree;
    if j == |xs| {
      assert xs[..j] == xs;
    } else {
      assert xs[..|xs| - 1][..j] == xs[..j];
      GotStops(xs[..|xs| - 1], j);
    }
  }

  /** Of good attributes everything is built. */
  lemma {:induction false} GotAll(xs: seq<Attr>)
    requires AllGood(xs)
    ensures Got(xs) == TreesOf(xs)
    decreases xs
  {
    if xs != [] {
      GotAll(xs[..|xs| - 1]);
      GotAll(xs[|xs| - 1].list);
    }
  }

  /** The trees have the names and ids of the attributes and, below them, those of their lists. */
  ghost predicate Describe(ts: seq<Tree>, xs: seq<Attr>)
    decreases xs
  {
    && |ts| == |xs|
    && forall i :: 0 <= i < |xs| ==>
         xs[i].name == Some(ts[i].name) && xs[i].id == Some(ts[i].id) && Describe(ts[i].kids, xs[i].list)
  }

  lemma {:induction false} TreesDescribe(xs: seq<Attr>)
    requires AllGood(xs)
    ensures Describe(TreesOf(xs), xs)
    decreases xs
  {
    if xs != [] {
      var n := |xs| - 1;
      TreesDescribe(xs[..n]);
      TreesDescribe(xs[n].list);
      assert Describe(TreesOf(xs[..n]), xs[..n]);
      forall i | 0 <= i < n ensures xs[i].name == Some(TreesOf(xs)[i].name) && xs[i].id == Some(TreesOf(xs)[i].id)
                                    && Describe(TreesOf(xs)[i].kids, xs[i].list) {
        assert xs[..n][i] == xs[i] && TreesOf(xs)[i] == TreesOf(xs[..n])[i];
      }
    }
  }

  /** A list is good if and only if every attribute of it is complete and has a good list. */
  lemma {:induction false} GoodMeaning(xs: seq<Attr>)
    ensures AllGood(xs) <==> forall i :: 0 <= i < |xs| ==> Complete(xs[i]) && AllGood(xs[i].list)
  {
    if xs != [] {
      var n := |xs| - 1;
      GoodMeaning(xs[..n]);
      assert xs == xs[..n] + [xs[n]];
      assert forall i :: 0 <= i < n ==> xs[i] == xs[..n][i];
    }
  }

  lemma SizeNext(ts: seq<Tree>, t: Tree)
    ensures Size(ts + [t]) == Size(ts) + 1 + Size(t.kids)
  {
    assert (ts + [t])[..|ts|] == ts;
  }

  lemma RootsNext(ts: seq<Tree>, t: Tree, base: nat)
    ensures Roots(ts + [t], base) == Roots(ts, base) + [base + Size(ts)]
  {
    assert (ts + [t])[..|ts|] == ts;
  }

  lemma LayoutNext(ts: seq<Tree>, t: Tree, base: nat, parent: Option<nat>)
    ensures Layout(ts + [t], base, parent)
            == Layout(ts, base, parent)
               + [Node(t.name, t.id, parent, Roots(t.kids, base + Size(ts) + 1))]
               + Layout(t.kids, base + Size(ts) + 1, Some(base + Size(ts)))
  {
    assert (ts + [t])[..|ts|] == ts;
  }

  // ---------------------------------------------------------------- resource_get

  const EMPTY: Node := Node("", 0, None, [])

  /** The nodes with the list of `me` replaced. */
  ghost function WithList(nodes: seq<Node>, me: Option<nat>, list: seq<nat>): (r: seq<Node>)
    requires me.Some? ==> me.value < |nodes|
    ensures |r| == |nodes|
  {
    if me.None? then nodes else nodes[me.value := nodes[me.value].(children := list)]
  }

  ghost function ListOf(nodes: seq<Node>, me: Option<nat>): seq<nat>
    requires me.Some? ==> me.value < |nodes|
  {
    if me.None? then [] else nodes[me.value].children
  }

  /** The nodes after an empty one has been appended to the list of `me`. */
  ghost function Added(nodes: seq<Node>, me: Option<nat>): seq<Node>
    requires me.Some? ==> me.value < |nodes|
  {
    WithList(nodes, me, ListOf(nodes, me) + [|nodes|]) + [EMPTY]
  }

  /** The nodes after `ts` has been put below `me`. */
  ghost function Filled(nodes: seq<Node>, me: Option<nat>, ts: seq<Tree>): seq<Node>
    requires me.Some? ==> me.value < |nodes|
  {
    WithList(nodes, me, Roots(ts, |nodes|)) + Layout(ts, |nodes|, me)
  }

  /** The nodes when the attribute of the last one turned out bad: it was left as allocated. */
  ghost function Ended(ok: bool, nodes: seq<Node>): seq<Node> {
    if ok || nodes == [] then nodes else nodes[|nodes| - 1 := EMPTY]
  }

  lemma FilledNone(nodes: seq<Node>, me: Option<nat>)
    requires me.Some? ==> me.value < |nodes| && nodes[me.value].children == []
    ensures Filled(nodes, me, []) == nodes
  {
  }

  lemma EndedWell(nodes: seq<Node>)
    ensures Ended(true, nodes) == nodes
  {
  }

  lemma EndedEmpty(nodes: seq<Node>, parent: Option<nat>)
    requires nodes != [] && nodes[|nodes| - 1] == EMPTY
    ensures var me := |nodes| - 1;
            Ended(false, nodes[me := Node("", 0, parent, Roots([], |nodes|))] + Layout([], |nodes|, Some(me))) == nodes
  {
  }

  lemma FilledBelow(nodes: seq<Node>, me: nat, n: Node, ts: seq<Tree>)
    requires me < |nodes|
    ensures Filled(nodes[me := n], Some(me), ts)
            == nodes[me := n.(children := Roots(ts, |nodes|))] + Layout(ts, |nodes|, Some(me))
  {
  }

  lemma NoneGood(xs: seq<Attr>)
    ensures AllGood(xs[..0]) && Got(xs[..0]) == []
  {
  }

  lemma FilledLength(nodes: seq<Node>, me: Option<nat>, ts: seq<Tree>)
    requires me.Some? ==> me.value < |nodes|
    ensures |Filled(nodes, me, ts)| == |nodes| + Size(ts)
    ensures |Added(Filled(nodes, me, ts), me)| == |nodes| + Size(ts) + 1
    ensures Added(Filled(nodes, me, ts), me)[|nodes| + Size(ts)] == EMPTY
  {
  }

  /** Allocating a node, linking it, filling it in and putting its children below it. */
  lemma FilledNext(nodes: seq<Node>, me: Option<nat>, ts: seq<Tree>, t: Tree)
    requires me.Some? ==> me.value < |nodes|
    ensures var child := |nodes| + Size(ts);
            && |Added(Filled(nodes, me, ts), me)| == child + 1
            && Filled(nodes, me, ts + [t])
               == Added(Filled(nodes, me, ts), me)[child := Node(t.name, t.id, me, Roots(t.kids, child + 1))]
                  + Layout(t.kids, child + 1, Some(child))
  {
    hide Layout, Roots, WithList, ListOf, Size;
    var child := |nodes| + Size(ts);
    var n := Node(t.name, t.id, me, Roots(t.kids, child + 1));
    var below := Layout(t.kids, child + 1, Some(child));
    LayoutNext(ts, t, |nodes|, me);
    RootsNext(ts, t, |nodes|);
    LinkedUpdate(nodes, Layout(ts, |nodes|, me), me, Roots(ts, |nodes|), child);
    FillLast(WithList(nodes, me, Roots(ts, |nodes|) + [child]), Layout(ts, |nodes|, me), n, below);
  }

  lemma LinkedUpdate(nodes: seq<Node>, more: seq<Node>, me: Option<nat>, list: seq<nat>, child: nat)
    requires me.Some? ==> me.value < |nodes|
    ensures var n := WithList(nodes, me, list) + more;
            WithList(n, me, ListOf(n, me) + [child]) == WithList(nodes, me, list + [child]) + more
  {
  }

  lemma FillLast(p: seq<Node>, q: seq<Node>, n: Node, more: seq<Node>)
    ensures (p + q + [EMPTY])[|p| + |q| := n] + more == p + (q + [n] + more)
  {
  }

  // ---------------------------------------------------------------- reading the layout

  lemma {:induction false} SizePrefix(ts: seq<Tree>, j: nat)
    requires j < |ts|
    ensures Size(ts[..j + 1]) == Size(ts[..j]) + 1 + Size(ts[j].kids) <= Size(ts)
  {
    if j == |ts| - 1 {
      assert ts[..j + 1] == ts;
    } else {
      SizePrefix(ts[..|ts| - 1], j);
      assert ts[..|ts| - 1][..j] == ts[..j] && ts[..|ts| - 1][..j + 1] == ts[..j + 1];
    }
  }

  lemma {:induction false} RootAt(ts: seq<Tree>, base: nat, j: nat)
    requires j < |ts|
    ensures Roots(ts, base)[j] == base + Size(ts[..j])
  {
    if j < |ts| - 1 {
      RootAt(ts[..|ts| - 1], base, j);
      assert ts[..|ts| - 1][..j] == ts[..j];
    }
  }

  /** Where the `j`-th tree of a list is: its root first, then what is below it. */
  lemma {:induction false} LayoutAt(ts: seq<Tree>, base: nat, parent: Option<nat>, j: nat)
    requires j < |ts|
    ensures var at := Size(ts[..j]); var end := at + 1 + Size(ts[j].kids);
            && end <= Size(ts)
            && Layout(ts, base, parent)[at] == Node(ts[j].name, ts[j].id, parent, Roots(ts[j].kids, base + at + 1))
            && Layout(ts, base, parent)[at + 1..end] == Layout(ts[j].kids, base + at + 1, Some(base + at))
  {
    hide Size, Roots, Layout;
    SizePrefix(ts, j);
    var init, t := ts[..|ts| - 1], ts[|ts| - 1];
    assert ts == init + [t];
    LayoutNext(init, t, base, parent);
    if j < |ts| - 1 {
      LayoutAt(init, base, parent, j);
      assert init[..j] == ts[..j];
    } else {
      assert init == ts[..j];
    }
  }

  /** A node in `r`, a piece of memory that starts at `base`, is in the list of its parent: that of
      the whole piece, or a node before it in the piece. */
  ghost predicate Linked(r: seq<Node>, base: nat, parent: Option<nat>, roots: seq<nat>, k: nat)
    requires k < |r|
  {
    || (r[k].parent == parent && base + k in roots)
    || (&& r[k].parent.Some? && base <= r[k].parent.value < base + k
        && base + k in r[r[k].parent.value - base].children)
  }

  lemma {:induction false} LayoutLinked(ts: seq<Tree>, base: nat, parent: Option<nat>, k: nat)
    requires k < Size(ts)
    ensures Linked(Layout(ts, base, parent), base, parent, Roots(ts, base), k)
    decreases ts
  {
    hide Size, Roots, Layout;
    NothingThere(ts);
    var init, t := ts[..|ts| - 1], ts[|ts| - 1];
    assert ts == init + [t];
    var here := Size(init);
    LayoutNext(init, t, base, parent);
    RootsNext(init, t, base);
    SizeNext(init, t);
    if k < here {
      LayoutLinked(init, base, parent, k);
    } else if k > here {
      LayoutLinked(t.kids, base + here + 1, Some(base + here), k - here - 1);
    }
  }

  lemma NothingThere(ts: seq<Tree>)
    requires Size(ts) > 0
    ensures ts != []
  {
  }

  class Resources {
    var nodes: seq<Node>
    var top: seq<nat>

    constructor ()
      ensures nodes == [] && top == []
    {
      nodes, top := [], [];
    }

    /** The list that holds the children of `me`, or the top list. */
    function List(me: Option<nat>): seq<nat>
      requires me.Some? ==> me.value < |nodes|
      reads this
    {
      if me.None? then top else nodes[me.value].children
    }

    /** `list_add_tail` of a node just allocated. */
    method AddTail(me: Option<nat>) returns (child: nat)
      requires me.Some? ==> me.value < |nodes|
      modifies this
      ensures child == |old(nodes)|
      ensures nodes == Added(old(nodes), me)
      ensures top == if me.None? then old(top) + [child] else old(top)
    {
      child := |nodes|;
      if me.None? {
        top := top + [child];
      } else {
        nodes := nodes[me.value := nodes[me.value].(children := nodes[me.value].children + [child])];
      }
      nodes := nodes + [EMPTY];
    }

    /** The loop of `resource_get`: a node for each attribute of the list, below `me`, behind the
        trees `ts` that are there already, up to the first bad one. */
    method GetList(me: Option<nat>, xs: seq<Attr>, ghost before: seq<Node>, ghost ts: seq<Tree>) returns (ok: bool)
      requires me.Some? ==> me.value < |before|
      requires nodes == Filled(before, me, ts)
      requires me.None? ==> before == [] && top == Roots(ts, 0)
      modifies this
      decreases xs
      ensures ok <==> AllGood(xs)
      ensures nodes == Ended(ok, Filled(before, me, ts + Got(xs)))
      ensures top == if me.None? then Roots(ts + Got(xs), 0) else old(top)
    {
      hide AllGood, Got, GotTree, Roots, Layout, Filled, Added, Size, Ended;
      ok := true;
      NoneGood(xs);
      assert ts + [] == ts;
      EndedWell(nodes);
      var j := 0;
      ghost var us := ts;
      while j < |xs| && ok
        invariant j <= |xs| && us == ts + Got(xs[..j])
        invariant ok <==> AllGood(xs[..j])
        invariant nodes == Ended(ok, Filled(before, me, us))
        invariant top == if me.None? then Roots(us, 0) else old(top)
      {
        AllGoodNext(xs, j);
        GotNext(xs, j);
        FilledLength(before, me, us);
        EndedWell(Filled(before, me, us));
        var child := AddTail(me);
        ok := GetOne(child, me, xs[j]);
        FilledNext(before, me, us, GotTree(xs[j]));
        RootsNext(us, GotTree(xs[j]), 0);
        us := us + [GotTree(xs[j])];
        assert us == ts + Got(xs[..j + 1]);
        j := j + 1;
      }
      assert xs[..|xs|] == xs;
      if !ok {
        GotStops(xs, j);
      }
    }

    /** `resource_get` for one resource just allocated: parse it, link it to its parent, and go on with
        its list. */
    method GetOne(me: nat, parent: Option<nat>, x: Attr) returns (ok: bool)
      requires me == |nodes| - 1 && nodes[me] == EMPTY
      modifies this
      decreases x, 0
      ensures ok <==> Complete(x) && AllGood(x.list)
      ensures top == old(top)
      ensures var t := GotTree(x);
              nodes == Ended(ok, old(nodes)[me := Node(t.name, t.id, parent, Roots(t.kids, |old(nodes)|))]
                                 + Layout(t.kids, |old(nodes)|, Some(me)))
    {
      hide AllGood, Got, Layout, Roots, Size, Filled, Ended;
      ok := Complete(x);
      if ok {
        ghost var n := nodes[me].(name := x.name.value, id := x.id.value, parent := parent);
        nodes := nodes[me := nodes[me].(name := x.name.value, id := x.id.value, parent := parent)];
        FilledNone(nodes, Some(me));
        ok := GetList(Some(me), x.list, nodes, []);
        assert [] + Got(x.list) == Got(x.list);
        FilledBelow(old(nodes), me, n, Got(x.list));
      } else {
        EndedEmpty(nodes, parent);
      }
    }

    /** The forest that is in memory. */
    ghost predicate Holds(ts: seq<Tree>)
      reads this
    {
      nodes == Layout(ts, 0, None) && top == Roots(ts, 0)
    }

    /** `resources_get` for one message, behind the trees of earlier ones. */
    method ResourcesGet(xs: seq<Attr>, ghost ts: seq<Tree>) returns (ok: bool)
      requires Holds(ts)
      modifies this
      ensures ok <==> AllGood(xs)
      ensures ok ==> Holds(ts + TreesOf(xs))
      ensures nodes == Ended(ok, Layout(ts + Got(xs), 0, None)) && top == Roots(ts + Got(xs), 0)
    {
      hide AllGood, TreesOf, Got, Layout, Roots;
      ok := GetList(None, xs, [], ts);
      if ok {
        GotAll(xs);
      }
    }
  }
}
