/** Singly linked lists that are changed through the address of a link: `struct ma_info` of
    `ip/ipmaddr.c` and `struct nlmsg_list` of `ip/ipaddress.c`. */
module LinkedChain {
  import opened Sequences

  class Cell<T> {
    const value: T
    var next: Cell?<T>

    constructor (value: T)
      ensures this.value == value && next == null
    {
      this.value := value;
      next := null;
    }
  }

  /** The variable that holds the first pointer, and for `nlmsg_chain` also the last one. */
  class Anchor<T> {
    var head: Cell?<T>
    var tail: Cell?<T>

    constructor ()
      ensures head == null && tail == null
      ensures Chain(this, [])
    {
      head, tail := null, null;
    }
  }

  /** The address of a link: `&anchor->head`, or `&cell->next`. */
  datatype Link<!T> = AtHead | AtNext(cell: Cell<T>)

  lemma Different<T>(s: seq<Cell<T>>, i: nat, j: nat)
    requires NoRepeats(s) && i < |s| && j < |s| && i != j
    ensures s[i] != s[j]
  {
  }

  ghost function CellAt<T>(s: seq<Cell<T>>, i: nat): Cell?<T> {
    if i < |s| then s[i] else null
  }

  /** The cells reachable from the anchor are `s`, in order. */
  ghost predicate Chain<T>(a: Anchor<T>, s: seq<Cell<T>>)
    reads a, s
  {
    && NoRepeats(s)
    && a.head == CellAt(s, 0)
    && forall i :: 0 <= i < |s| ==> s[i].next == CellAt(s, i + 1)
  }

  /** The link in front of position `i`. */
  ghost function LinkBefore<T>(s: seq<Cell<T>>, i: nat): Link<T>
    requires i <= |s|
  {
    if i == 0 then AtHead else AtNext(s[i - 1])
  }

  ghost function Values<T>(s: seq<Cell<T>>): (r: seq<T>)
    ensures |r| == |s|
  {
    seq(|s|, i requires 0 <= i < |s| => s[i].value)
  }

  /** `*lp`. */
  function Get<T>(a: Anchor<T>, lp: Link<T>): Cell?<T>
    reads a, if lp.AtNext? then {lp.cell} else {}
  {
    match lp case AtHead => a.head case AtNext(c) => c.next
  }

  /** A walk over the chain at position `i`. */
  lemma Visit<T>(a: Anchor<T>, s: seq<Cell<T>>, i: nat)
    requires Chain(a, s) && i <= |s|
    ensures a.head == CellAt(s, 0) && CellAt(s, i) == if i < |s| then s[i] else null
    ensures i < |s| ==> s[i].next == CellAt(s, i + 1) && Values(s)[i] == s[i].value
  {
  }

  lemma LinkTarget<T>(a: Anchor<T>, s: seq<Cell<T>>, k: nat)
    requires Chain(a, s) && k <= |s|
    ensures Get(a, LinkBefore(s, k)) == CellAt(s, k)
  {
  }

  lemma InsertIndex<T>(s: seq<Cell<T>>, k: nat, x: Cell<T>, i: nat)
    requires k <= |s| && i <= |s| + 1
    ensures |InsertAt(s, k, x)| == |s| + 1
    ensures CellAt(InsertAt(s, k, x), i) == if i < k then CellAt(s, i) else if i == k then x else CellAt(s, i - 1)
    ensures i <= |s| ==> InsertAt(s, k, x)[i] == if i < k then s[i] else if i == k then x else s[i - 1]
  {
  }

  lemma InsertKeeps<T>(s: seq<Cell<T>>, k: nat, x: Cell<T>)
    requires NoRepeats(s) && k <= |s| && x !in s
    ensures NoRepeats(InsertAt(s, k, x)) && Values(InsertAt(s, k, x)) == InsertAt(Values(s), k, x.value)
  {
  }

  /** `m->next = *lp; *lp = m;` */
  method InsertHere<T>(a: Anchor<T>, lp: Link<T>, m: Cell<T>, ghost s: seq<Cell<T>>, ghost k: nat)
    requires Chain(a, s) && k <= |s| && lp == LinkBefore(s, k) && m !in s
    modifies a`head, m`next, s`next
    ensures Chain(a, InsertAt(s, k, m))
  {
    hide InsertAt, Values, NoRepeats, CellAt;
    LinkTarget(a, s, k);
    m.next := Get(a, lp);
    match lp {
      case AtHead => a.head := m;
      case AtNext(c) => c.next := m;
    }
    ghost var r := InsertAt(s, k, m);
    InsertKeeps(s, k, m);
    InsertIndex(s, k, m, 0);
    forall i | 0 <= i < |r| ensures r[i].next == CellAt(r, i + 1) {
      InsertIndex(s, k, m, i);
      InsertIndex(s, k, m, i + 1);
      if i != k {
        ghost var j := if i < k then i else i - 1;
        assert old(s[j].next) == CellAt(s, j + 1);
        if k > 0 && j != k - 1 {
          Different(s, j, k - 1);
        }
      }
    }
  }

  lemma RemoveIndex<T>(s: seq<Cell<T>>, k: nat, i: nat)
    requires k < |s| && i <= |s| - 1
    ensures |RemoveAt(s, k)| == |s| - 1
    ensures CellAt(RemoveAt(s, k), i) == CellAt(s, if i < k then i else i + 1)
    ensures i < |s| - 1 ==> RemoveAt(s, k)[i] == s[if i < k then i else i + 1]
  {
  }

  lemma RemoveKeeps<T>(s: seq<Cell<T>>, k: nat)
    requires NoRepeats(s) && k < |s|
    ensures NoRepeats(RemoveAt(s, k)) && Values(RemoveAt(s, k)) == RemoveAt(Values(s), k)
  {
  }

  /** `*lp = l->next;` */
  method RemoveHere<T>(a: Anchor<T>, lp: Link<T>, l: Cell<T>, ghost s: seq<Cell<T>>, ghost k: nat)
    requires Chain(a, s) && k < |s| && lp == LinkBefore(s, k) && l == s[k]
    modifies a`head, s`next
    ensures Chain(a, RemoveAt(s, k))
    ensures l.next == old(l.next)
  {
    hide RemoveAt, Values, NoRepeats, CellAt;
    match lp {
      case AtHead => a.head := l.next;
      case AtNext(c) => c.next := l.next;
    }
    ghost var r := RemoveAt(s, k);
    RemoveKeeps(s, k);
    RemoveIndex(s, k, 0);
    forall i | 0 <= i < |r| ensures r[i].next == CellAt(r, i + 1) {
      RemoveIndex(s, k, i);
      RemoveIndex(s, k, i + 1);
      ghost var j := if i < k then i else i + 1;
      assert old(s[j].next) == CellAt(s, j + 1);
      if k > 0 && j != k - 1 {
        Different(s, j, k - 1);
      }
    }
    if k > 0 {
      Different(s, k, k - 1);
    }
  }
}
