/** Paths of resources: printed from an id into a buffer filled from its end, and parsed back by
    walking down the tree. */
module ResourcePath {
  import opened Wrappers
  import opened ResourceTree
  import opened Sequences
  import opened Bytes

  // ---------------------------------------------------------------- resource_find

  ghost predicate Absent(nodes: seq<Node>, lo: nat, hi: nat, id: nat) {
    forall k :: lo <= k < hi && k < |nodes| ==> nodes[k].id != id
  }

  ghost predicate Piece(nodes: seq<Node>, ts: seq<Tree>, base: nat, parent: Option<nat>) {
    base + Size(ts) <= |nodes| && nodes[base..base + Size(ts)] == Layout(ts, base, parent)
  }

  lemma PieceAt(nodes: seq<Node>, ts: seq<Tree>, base: nat, parent: Option<nat>, j: nat)
    requires Piece(nodes, ts, base, parent) && j < |ts|
    ensures var at := base + Size(ts[..j]);
            && at < base + Size(ts) <= |nodes|
            && nodes[at] == Node(ts[j].name, ts[j].id, parent, Roots(ts[j].kids, at + 1))
            && Piece(nodes, ts[j].kids, at + 1, Some(at))
            && Roots(ts, base)[j] == at
            && base + Size(ts[..j + 1]) == at + 1 + Size(ts[j].kids) <= base + Size(ts)
  {
    hide Size, Layout, Roots;
    LayoutAt(ts, base, parent, j);
    RootAt(ts, base, j);
    SizePrefix(ts, j);
    var at, n := Size(ts[..j]), Size(ts[j].kids);
    var piece := nodes[base..base + Size(ts)];
    assert piece[at] == nodes[base + at];
    SliceOfSlice(nodes, base, base + Size(ts), at + 1, at + 1 + n);
  }

  /** `resource_find`: the first node in preorder with the id. */
  method ResourceFind(rs: Resources, me: Option<nat>, id: nat, ghost ts: seq<Tree>, ghost base: nat)
    returns (r: Option<nat>)
    requires me.Some? ==> me.value < |rs.nodes|
    requires Piece(rs.nodes, ts, base, me) && rs.List(me) == Roots(ts, base)
    decreases ts
    ensures r.None? ==> Absent(rs.nodes, base, base + Size(ts), id)
    ensures r.Some? ==>
              && base <= r.value < |rs.nodes| && rs.nodes[r.value].id == id
              && Absent(rs.nodes, base, r.value, id)
  {
    hide Size, Roots, Piece;
    var list := rs.List(me);
    r := None;
    var j := 0;
    NothingBefore(ts);
    while j < |list| && r.None?
      invariant j <= |list|
      invariant r.None? ==> Absent(rs.nodes, base, base + Size(ts[..j]), id)
      invariant r.Some? ==>
                  && base <= r.value < |rs.nodes| && rs.nodes[r.value].id == id
                  && Absent(rs.nodes, base, r.value, id)
      decreases |list| - j
    {
      PieceAt(rs.nodes, ts, base, me, j);
      var c := list[j];
      if rs.nodes[c].id == id {
        r := Some(c);
      } else {
        r := ResourceFind(rs, Some(c), id, ts[j].kids, c + 1);
      }
      j := j + 1;
    }
    assert ts[..|ts|] == ts;
  }

  lemma NothingBefore(ts: seq<Tree>)
    ensures Size(ts[..0]) == 0
  {
  }

  // ---------------------------------------------------------------- resource_path_print

  /** Parents come before their children. */
  ghost predicate Ordered(nodes: seq<Node>) {
    forall k :: 0 <= k < |nodes| ==> nodes[k].parent.Some? ==> nodes[k].parent.value < k
  }

  /** The names on the way down to a node. */
  ghost function Names(nodes: seq<Node>, k: nat): (r: seq<string>)
    requires Ordered(nodes) && k < |nodes|
    ensures r != []
  {
    (if nodes[k].parent.None? then [] else Names(nodes, nodes[k].parent.value)) + [nodes[k].name]
  }

  ghost function Joined(names: seq<string>): string {
    if names == [] then "" else Joined(names[..|names| - 1]) + "/" + names[|names| - 1]
  }

  ghost function PathAbove(nodes: seq<Node>, p: Option<nat>): string
    requires Ordered(nodes) && (p.Some? ==> p.value < |nodes|)
  {
    if p.None? then "" else Joined(Names(nodes, p.value))
  }

  lemma PathOfNode(nodes: seq<Node>, k: nat)
    requires Ordered(nodes) && k < |nodes|
    ensures PathAbove(nodes, Some(k)) == PathAbove(nodes, nodes[k].parent) + "/" + nodes[k].name
  {
    var above := if nodes[k].parent.None? then [] else Names(nodes, nodes[k].parent.value);
    assert Names(nodes, k) == above + [nodes[k].name];
    assert (above + [nodes[k].name])[..|above|] == above;
    assert Joined(above) == PathAbove(nodes, nodes[k].parent);
    assert Joined(above + [nodes[k].name]) == Joined(above) + "/" + nodes[k].name;
  }

  /** `memcpy(buf + at, what, strlen(what))`. */
  method CopyIn(buf: array<char>, at: nat, what: string)
    requires at + |what| <= buf.Length
    modifies buf
    ensures buf[at..] == what + old(buf[at + |what|..])
    ensures buf[..at] == old(buf[..at])
  {
    for i := 0 to |what|
      invariant buf[..at] == old(buf[..at])
      invariant buf[at..at + i] == what[..i]
      invariant buf[at + |what|..] == old(buf[at + |what|..])
    {
      buf[at + i] := what[i];
    }
    assert buf[at..] == buf[at..at + |what|] + buf[at + |what|..];
  }

  /** The two loops of `resource_path_print`: measure the path, then fill the buffer from its end. */
  method FillPath(nodes: seq<Node>, k: nat) returns (buf: array<char>, cursor: int)
    requires Ordered(nodes) && k < |nodes|
    ensures cursor == 0
    ensures buf[..] == Joined(Names(nodes, k)) + ['\0']
  {
    hide PathAbove, Joined, Names;
    var len := 0;
    var p: Option<nat> := Some(k);
    while p.Some?
      invariant p.Some? ==> p.value < |nodes|
      invariant len + |PathAbove(nodes, p)| == |PathAbove(nodes, Some(k))|
      decreases if p.Some? then p.value + 1 else 0
    {
      PathOfNode(nodes, p.value);
      len := len + |nodes[p.value].name| + 1;
      p := nodes[p.value].parent;
    }
    NoPathAbove(nodes, k);
    len := len + 1;
    buf := new char[len](_ => '\0');
    cursor := len - 1;
    p := Some(k);
    while p.Some?
      invariant p.Some? ==> p.value < |nodes|
      invariant 0 <= cursor <= buf.Length && cursor == |PathAbove(nodes, p)|
      invariant PathAbove(nodes, p) + buf[cursor..] == PathAbove(nodes, Some(k)) + ['\0']
      decreases if p.Some? then p.value + 1 else 0
    {
      PathOfNode(nodes, p.value);
      var name := nodes[p.value].name;
      PutInFront(PathAbove(nodes, nodes[p.value].parent), name, buf[cursor..]);
      cursor := cursor - |name|;
      CopyIn(buf, cursor, name);
      cursor := cursor - 1;
      CopyIn(buf, cursor, "/");
      p := nodes[p.value].parent;
    }
    assert buf[0..] == buf[..];
  }

  lemma PutInFront(above: string, name: string, rest: string)
    ensures above + "/" + name + rest == above + ("/" + (name + rest))
  {
  }

  lemma NoPathAbove(nodes: seq<Node>, k: nat)
    requires Ordered(nodes) && k < |nodes|
    ensures PathAbove(nodes, None) == "" && PathAbove(nodes, Some(k)) == Joined(Names(nodes, k))
  {
  }

  lemma HeldIsOrdered(ts: seq<Tree>)
    ensures Ordered(Layout(ts, 0, None))
  {
    hide Size, Layout, Roots;
    var nodes := Layout(ts, 0, None);
    forall k | 0 <= k < |nodes| ensures nodes[k].parent.Some? ==> nodes[k].parent.value < k {
      LayoutLinked(ts, 0, None, k);
    }
  }

  lemma HeldIsAPiece(ts: seq<Tree>)
    ensures Piece(Layout(ts, 0, None), ts, 0, None)
  {
    hide Size, Layout;
    assert Layout(ts, 0, None)[0..] == Layout(ts, 0, None);
  }

  ghost predicate FirstWith(nodes: seq<Node>, k: nat, id: nat) {
    k < |nodes| && nodes[k].id == id && Absent(nodes, 0, k, id)
  }

  /** `resource_path_print`: the path of the first resource with the id, if there is one. */
  method ResourcePathPrint(rs: Resources, id: nat, ghost ts: seq<Tree>)
    returns (found: bool, buf: array<char>, ghost k: nat)
    requires rs.Holds(ts)
    ensures Ordered(rs.nodes)
    ensures !found ==> Absent(rs.nodes, 0, |rs.nodes|, id)
    ensures found ==> FirstWith(rs.nodes, k, id) && buf[..] == Joined(Names(rs.nodes, k)) + ['\0']
  {
    hide Size, Layout, Roots, Piece, Ordered, Joined, Names;
    HeldIsOrdered(ts);
    HeldIsAPiece(ts);
    var r := ResourceFind(rs, None, id, ts, 0);
    found := r.Some?;
    if found {
      k := r.value;
      var cursor;
      buf, cursor := FillPath(rs.nodes, r.value);
    } else {
      k := 0;
      buf := new char[0];
    }
  }

  // ---------------------------------------------------------------- strtok

  /** The maximal pieces without a slash. */
  ghost function Tokens(s: string): seq<string> {
    if s == "" then []
    else if s[0] == '/' then Tokens(s[1..])
    else [s[..TokenEnd(s)]] + Tokens(s[TokenEnd(s)..])
  }

  ghost function TokenEnd(s: string): (n: nat)
    ensures n <= |s| && (forall i :: 0 <= i < n ==> s[i] != '/') && (n < |s| ==> s[n] == '/')
    ensures s != "" && s[0] != '/' ==> n > 0
  {
    if s == "" || s[0] == '/' then 0 else 1 + TokenEnd(s[1..])
  }

  /** `strtok`: skip slashes, take up to the next one, and go on behind it. */
  method Strtok(s: string, pos: nat) returns (token: Option<string>, next: nat)
    requires pos <= |s|
    ensures pos <= next <= |s| && (token.Some? ==> pos < next)
    ensures Tokens(s[pos..]) == if token.Some? then [token.value] + Tokens(s[next..]) else []
  {
    hide Tokens;
    var start := pos;
    while start < |s| && s[start] == '/'
      invariant pos <= start <= |s|
      invariant Tokens(s[pos..]) == Tokens(s[start..])
    {
      TokensSlash(s, start);
      start := start + 1;
    }
    TokensEnd(s);
    if start == |s| {
      token, next := None, start;
    } else {
      var end := start;
      while end < |s| && s[end] != '/'
        invariant start <= end <= |s|
        invariant forall i :: start <= i < end ==> s[i] != '/'
      {
        end := end + 1;
      }
      TokensWord(s, start, end);
      if end < |s| {
        TokensSlash(s, end);
      }
      token, next := Some(s[start..end]), if end < |s| then end + 1 else end;
    }
  }

  lemma TokensEnd(s: string)
    ensures Tokens(s[|s|..]) == []
  {
  }

  lemma TokensSlash(s: string, i: nat)
    requires i < |s| && s[i] == '/'
    ensures Tokens(s[i..]) == Tokens(s[i + 1..])
  {
    assert s[i..][1..] == s[i + 1..];
  }

  lemma TokensWord(s: string, i: nat, j: nat)
    requires i < j <= |s| && (forall k :: i <= k < j ==> s[k] != '/') && (j < |s| ==> s[j] == '/')
    ensures Tokens(s[i..]) == [s[i..j]] + Tokens(s[j..])
  {
    var t := s[i..];
    var n := TokenEnd(t);
    assert forall k :: 0 <= k < |t| ==> t[k] == s[i + k];
    assert n == j - i;
    assert t[..n] == s[i..j] && t[n..] == s[j..];
  }

  // ---------------------------------------------------------------- resource_path_parse

  ghost predicate InRange(nodes: seq<Node>, top: seq<nat>) {
    && (forall i :: 0 <= i < |top| ==> top[i] < |nodes|)
    && (forall k, i :: 0 <= k < |nodes| && 0 <= i < |nodes[k].children| ==> nodes[k].children[i] < |nodes|)
  }

  ghost function ListIn(nodes: seq<Node>, top: seq<nat>, me: Option<nat>): seq<nat> {
    if me.None? || me.value >= |nodes| then top else nodes[me.value].children
  }

  /** The first in a list with the name. */
  ghost function ByName(nodes: seq<Node>, list: seq<nat>, name: string): (r: Option<nat>)
    ensures r.Some? ==> r.value in list && r.value < |nodes| && nodes[r.value].name == name
  {
    if list == [] then None
    else if list[0] < |nodes| && nodes[list[0]].name == name then Some(list[0])
    else ByName(nodes, list[1..], name)
  }

  /** Where the names lead, from the top: `Some(None)` is the top itself. */
  ghost function Walk(nodes: seq<Node>, top: seq<nat>, names: seq<string>): (r: Option<Option<nat>>)
    ensures r.Some? && r.value.Some? ==> r.value.value < |nodes|
  {
    if names == [] then Some(None)
    else
      var above := Walk(nodes, top, names[..|names| - 1]);
      if above.None? then None
      else
        var r := ByName(nodes, ListIn(nodes, top, above.value), names[|names| - 1]);
        if r.None? then None else Some(r)
  }

  /** The id that a path stands for: cut to 32 bits, and zero for a path without names. */
  ghost function ParsedId(nodes: seq<Node>, at: Option<Option<nat>>): Option<nat>
    requires at.Some? && at.value.Some? ==> at.value.value < |nodes|
  {
    if at.None? then None else if at.value.None? then Some(0) else Some(nodes[at.value.value].id % TWO_32)
  }

  lemma ByNameNext(nodes: seq<Node>, list: seq<nat>, name: string, j: nat)
    requires j < |list| && list[j] < |nodes|
    ensures ByName(nodes, list[j..], name) == if nodes[list[j]].name == name then Some(list[j])
            else ByName(nodes, list[j + 1..], name)
  {
    assert list[j..][1..] == list[j + 1..];
  }

  /** `resource_find_by_name`. */
  method FindByName(rs: Resources, list: seq<nat>, name: string) returns (r: Option<nat>)
    requires forall i :: 0 <= i < |list| ==> list[i] < |rs.nodes|
    ensures r == ByName(rs.nodes, list, name)
  {
    hide ByName;
    r := None;
    var j := 0;
    assert list[0..] == list;
    while j < |list| && r.None?
      invariant j <= |list|
      invariant ByName(rs.nodes, list, name) == if r.Some? then r else ByName(rs.nodes, list[j..], name)
      decreases |list| - j
    {
      ByNameNext(rs.nodes, list, name, j);
      if rs.nodes[list[j]].name == name {
        r := Some(list[j]);
      }
      j := j + 1;
    }
    ByNameNone(rs.nodes, list, name);
  }

  lemma ByNameNone(nodes: seq<Node>, list: seq<nat>, name: string)
    ensures ByName(nodes, list[|list|..], name) == None
  {
  }

  lemma WalkNext(nodes: seq<Node>, top: seq<nat>, names: seq<string>, name: string)
    ensures Walk(nodes, top, names + [name])
            == if Walk(nodes, top, names).None? then None
               else var r := ByName(nodes, ListIn(nodes, top, Walk(nodes, top, names).value), name);
                    if r.None? then None else Some(r)
  {
    assert (names + [name])[..|names|] == names;
  }

  lemma {:induction false} WalkFails(nodes: seq<Node>, top: seq<nat>, names: seq<string>, more: seq<string>)
    requires Walk(nodes, top, names).None?
    ensures Walk(nodes, top, names + more).None?
    decreases |more|
  {
    hide Walk, ByName;
    if more == [] {
      assert names + more == names;
    } else {
      WalkFails(nodes, top, names, more[..|more| - 1]);
      WalkNext(nodes, top, names + more[..|more| - 1], more[|more| - 1]);
      assert names + more[..|more| - 1] + [more[|more| - 1]] == names + more;
    }
  }

  lemma WalkStart(nodes: seq<Node>, top: seq<nat>)
    ensures Walk(nodes, top, []) == Some(None)
  {
  }

  /** `resource_path_parse`: `None` when a name is not found. */
  method ResourcePathParse(rs: Resources, path: string) returns (id: Option<nat>)
    requires InRange(rs.nodes, rs.top)
    ensures id == ParsedId(rs.nodes, Walk(rs.nodes, rs.top, Tokens(path)))
  {
    hide Walk, Tokens, ByName;
    var nodes, top := rs.nodes, rs.top;
    var list := top;
    ghost var at: Option<nat>, done: seq<string> := None, [];
    WalkStart(nodes, top);
    assert path[0..] == path && [] + Tokens(path) == Tokens(path);
    id := Some(0);
    var token, pos := Strtok(path, 0);
    while token.Some? && id.Some?
      invariant pos <= |path|
      invariant Tokens(path) == done + (if token.Some? then [token.value] + Tokens(path[pos..]) else [])
      invariant id.Some? ==> Walk(nodes, top, done) == Some(at) && list == ListIn(nodes, top, at)
      invariant id.Some? ==> id == ParsedId(nodes, Some(at))
      invariant id.None? ==> Walk(nodes, top, Tokens(path)).None?
      decreases |path| - pos, token.Some?, id.Some?
    {
      WalkNext(nodes, top, done, token.value);
      var resource := FindByName(rs, list, token.value);
      Regroup(done, token.value, Tokens(path[pos..]));
      if resource.None? {
        WalkFails(nodes, top, done + [token.value], Tokens(path[pos..]));
        id := None;
      } else {
        list := nodes[resource.value].children;
        id := Some(nodes[resource.value].id % TWO_32);
        at := resource;
        done := done + [token.value];
        token, pos := Strtok(path, pos);
      }
    }
    assert done + [] == done;
  }

  // ---------------------------------------------------------------- round trip

  lemma {:induction false} TokensConcat(s: string, t: string)
    requires t != "" && t[0] == '/'
    ensures Tokens(s + t) == Tokens(s) + Tokens(t)
    decreases |s|
  {
    hide Tokens, TokenEnd;
    assert s[0..] == s && (s + t)[0..] == s + t;
    if s == "" {
      assert s + t == t;
      TokensEnd(s);
    } else if s[0] == '/' {
      TokensSlash(s, 0);
      TokensSlash(s + t, 0);
      TokensConcat(s[1..], t);
      CutConcat(s, t, 1);
    } else {
      var n := TokenEnd(s);
      TokensWord(s, 0, n);
      TokensWord(s + t, 0, n);
      TokensConcat(s[n..], t);
      CutConcat(s, t, n);
    }
  }

  lemma CutConcat(s: string, t: string, n: nat)
    requires n <= |s|
    ensures (s + t)[0..n] == s[0..n] && (s + t)[n..] == s[n..] + t
  {
  }

  ghost predicate PlainName(name: string) {
    name != "" && '/' !in name
  }

  lemma TokensOfName(name: string)
    requires PlainName(name)
    ensures Tokens("/" + name) == [name]
  {
    var s := "/" + name;
    assert s[0..] == s && s[1..] == name && s[1..|s|] == name;
    TokensSlash(s, 0);
    TokensWord(s, 1, |s|);
    TokensEnd(s);
  }

  lemma {:induction false} TokensOfPath(names: seq<string>)
    requires forall i :: 0 <= i < |names| ==> PlainName(names[i])
    ensures Tokens(Joined(names)) == names
  {
    hide Tokens, PlainName;
    if names != [] {
      var init, last := names[..|names| - 1], names[|names| - 1];
      TokensOfPath(init);
      TokensConcat(Joined(init), "/" + last);
      TokensOfName(last);
      assert Joined(init) + "/" + last == Joined(init) + ("/" + last);
      assert names == init + [last];
    } else {
      TokensEnd("");
    }
  }

  ghost predicate AllLinked(nodes: seq<Node>, top: seq<nat>) {
    forall k :: 0 <= k < |nodes| ==> Linked(nodes, 0, None, top, k)
  }

  ghost predicate NamesDiffer(nodes: seq<Node>, list: seq<nat>) {
    forall i, j :: 0 <= i < j < |list| && list[i] < |nodes| && list[j] < |nodes| ==>
      nodes[list[i]].name != nodes[list[j]].name
  }

  /** No two resources with the same name in one list. */
  ghost predicate SiblingsDiffer(nodes: seq<Node>, top: seq<nat>) {
    NamesDiffer(nodes, top) && forall k :: 0 <= k < |nodes| ==> NamesDiffer(nodes, nodes[k].children)
  }

  lemma {:induction false} ByNameFinds(nodes: seq<Node>, list: seq<nat>, k: nat)
    requires NamesDiffer(nodes, list) && k in list && k < |nodes|
    ensures ByName(nodes, list, nodes[k].name) == Some(k)
  {
    if list[0] != k {
      var j :| 0 < j < |list| && list[j] == k;
      assert list[1..][j - 1] == k;
      ByNameFinds(nodes, list[1..], k);
    }
  }

  lemma {:induction false} NamesLeadBack(nodes: seq<Node>, top: seq<nat>, k: nat)
    requires Ordered(nodes) && AllLinked(nodes, top) && SiblingsDiffer(nodes, top) && k < |nodes|
    ensures Walk(nodes, top, Names(nodes, k)) == Some(Some(k))
  {
    hide Walk, ByName, NamesDiffer;
    var p := nodes[k].parent;
    var above := if p.None? then [] else Names(nodes, p.value);
    assert Linked(nodes, 0, None, top, k);
    WalkStart(nodes, top);
    if p.Some? {
      NamesLeadBack(nodes, top, p.value);
    }
    WalkNext(nodes, top, above, nodes[k].name);
    ByNameFinds(nodes, ListIn(nodes, top, p), k);
  }

  lemma {:induction false} NamesArePlain(nodes: seq<Node>, k: nat, i: nat)
    requires Ordered(nodes) && k < |nodes| && i < |Names(nodes, k)|
    requires forall j :: 0 <= j < |nodes| ==> PlainName(nodes[j].name)
    ensures PlainName(Names(nodes, k)[i])
  {
    hide PlainName;
    if nodes[k].parent.Some? && i < |Names(nodes, nodes[k].parent.value)| {
      NamesArePlain(nodes, nodes[k].parent.value, i);
    }
  }

  /** The path printed for a node parses to the low 32 bits of its id. */
  lemma PathLeadsBack(nodes: seq<Node>, top: seq<nat>, k: nat)
    requires Ordered(nodes) && AllLinked(nodes, top) && SiblingsDiffer(nodes, top) && k < |nodes|
    requires forall j :: 0 <= j < |nodes| ==> PlainName(nodes[j].name)
    ensures ParsedId(nodes, Walk(nodes, top, Tokens(Joined(Names(nodes, k))))) == Some(nodes[k].id % TWO_32)
  {
    hide Walk, Tokens, Joined, Names, PlainName, AllLinked, Ordered, SiblingsDiffer;
    forall i | 0 <= i < |Names(nodes, k)| ensures PlainName(Names(nodes, k)[i]) {
      NamesArePlain(nodes, k, i);
    }
    TokensOfPath(Names(nodes, k));
    NamesLeadBack(nodes, top, k);
  }

  lemma {:induction false} RootsInside(ts: seq<Tree>, base: nat, i: nat)
    requires i < |ts|
    ensures Roots(ts, base)[i] < base + Size(ts)
  {
    SizePrefix(ts, i);
    RootAt(ts, base, i);
  }

  lemma {:induction false} ChildrenInside(ts: seq<Tree>, base: nat, parent: Option<nat>, k: nat, i: nat)
    requires k < Size(ts) && i < |Layout(ts, base, parent)[k].children|
    ensures Layout(ts, base, parent)[k].children[i] < base + Size(ts)
    decreases ts
  {
    hide Size, Layout, Roots;
    NothingThere(ts);
    var init, t := ts[..|ts| - 1], ts[|ts| - 1];
    assert ts == init + [t];
    var here := Size(init);
    LayoutNext(init, t, base, parent);
    SizeNext(init, t);
    if k < here {
      ChildrenInside(init, base, parent, k, i);
    } else if k > here {
      ChildrenInside(t.kids, base + here + 1, Some(base + here), k - here - 1, i);
    } else {
      RootsInside(t.kids, base + here + 1, i);
    }
  }

  lemma HeldIsLinked(ts: seq<Tree>)
    ensures InRange(Layout(ts, 0, None), Roots(ts, 0)) && AllLinked(Layout(ts, 0, None), Roots(ts, 0))
  {
    hide Size, Layout, Roots, Linked;
    var nodes, top := Layout(ts, 0, None), Roots(ts, 0);
    forall i | 0 <= i < |top| ensures top[i] < |nodes| {
      RootsInside(ts, 0, i);
    }
    forall k, i | 0 <= k < |nodes| && 0 <= i < |nodes[k].children| ensures nodes[k].children[i] < |nodes| {
      ChildrenInside(ts, 0, None, k, i);
    }
    forall k | 0 <= k < |nodes| ensures Linked(nodes, 0, None, top, k) {
      LayoutLinked(ts, 0, None, k);
    }
  }

  /** A path printed for an id and parsed again yields the id exactly when it fits 32 bits. */
  method PrintThenParse(rs: Resources, id: nat, ghost ts: seq<Tree>) returns (found: bool, back: Option<nat>)
    requires rs.Holds(ts) && SiblingsDiffer(rs.nodes, rs.top)
    requires forall j :: 0 <= j < |rs.nodes| ==> PlainName(rs.nodes[j].name)
    ensures found <==> !Absent(rs.nodes, 0, |rs.nodes|, id)
    ensures found ==> back.Some? && (back.value == id <==> id < TWO_32)
  {
    hide Size, Layout, Roots, Ordered, SiblingsDiffer, AllLinked, Walk, Tokens, Joined, Names, PlainName, InRange;
    HeldIsLinked(ts);
    var buf;
    ghost var k;
    found, buf, k := ResourcePathPrint(rs, id, ts);
    back := None;
    if found {
      PathLeadsBack(rs.nodes, rs.top, k);
      var text := buf[..buf.Length - 1];
      assert text == Joined(Names(rs.nodes, k));
      back := ResourcePathParse(rs, text);
    }
  }
}
