/** Port handles of `devlink`: printed as a network device name or as `bus/dev/index`, and parsed by
    counting slashes and splitting at the last one. */
module PortHandle {
  import opened Wrappers
  import opened Bytes
  import opened Decimal

  datatype Port = Port(bus: string, dev: string, index: u32)

  /** `struct ifname_map`. */
  datatype Entry = Entry(port: Port, ifname: string)

  // ---------------------------------------------------------------- the interface map

  ghost function ByName(list: seq<Entry>, ifname: string): Option<Port> {
    if list == [] then None
    else if list[0].ifname == ifname then Some(list[0].port)
    else ByName(list[1..], ifname)
  }

  function ByPort(list: seq<Entry>, p: Port): Option<string> {
    if list == [] then None
    else if list[0].port == p then Some(list[0].ifname)
    else ByPort(list[1..], p)
  }

  lemma ByNameAt(list: seq<Entry>, ifname: string, i: nat)
    requires i <= |list|
    ensures ByName(list[i..], ifname)
            == if i == |list| then None else if list[i].ifname == ifname then Some(list[i].port)
              else ByName(list[i + 1..], ifname)
  {
    assert i < |list| ==> list[i..][1..] == list[i + 1..];
  }

  lemma ByPortAt(list: seq<Entry>, p: Port, i: nat)
    requires i <= |list|
    ensures ByPort(list[i..], p)
            == if i == |list| then None else if list[i].port == p then Some(list[i].ifname)
              else ByPort(list[i + 1..], p)
  {
    assert i < |list| ==> list[i..][1..] == list[i + 1..];
  }

  /** `ifname_map_lookup`. */
  method Lookup(list: seq<Entry>, ifname: string) returns (r: Option<Port>)
    ensures r == ByName(list, ifname)
  {
    hide ByName;
    r := None;
    var i := 0;
    assert list[0..] == list;
    while i < |list| && r.None?
      invariant i <= |list|
      invariant ByName(list, ifname) == if r.None? then ByName(list[i..], ifname) else r
    {
      ByNameAt(list, ifname, i);
      if list[i].ifname == ifname {
        r := Some(list[i].port);
      }
      i := i + 1;
    }
    ByNameAt(list, ifname, |list|);
  }

  /** `ifname_map_rev_lookup`. */
  method RevLookup(list: seq<Entry>, p: Port) returns (r: Option<string>)
    ensures r == ByPort(list, p)
  {
    hide ByPort;
    r := None;
    var i := 0;
    assert list[0..] == list;
    while i < |list| && r.None?
      invariant i <= |list|
      invariant ByPort(list, p) == if r.None? then ByPort(list[i..], p) else r
    {
      ByPortAt(list, p, i);
      if list[i].port == p {
        r := Some(list[i].ifname);
      }
      i := i + 1;
    }
    ByPortAt(list, p, |list|);
  }

  /** Interface names are unique: then the map leads back from the name it gives for a port. */
  lemma {:induction false} NameLeadsBack(list: seq<Entry>, p: Port)
    requires forall i, j :: 0 <= i < j < |list| ==> list[i].ifname != list[j].ifname
    requires ByPort(list, p).Some?
    ensures ByName(list, ByPort(list, p).value) == Some(p)
  {
    if list[0].port != p {
      NameLeadsBack(list[1..], p);
      NameIsThere(list[1..], p);
    }
  }

  lemma {:induction false} NameIsThere(list: seq<Entry>, p: Port)
    requires ByPort(list, p).Some?
    ensures exists i :: 0 <= i < |list| && list[i].ifname == ByPort(list, p).value
  {
    if list[0].port != p {
      NameIsThere(list[1..], p);
      var i :| 0 <= i < |list[1..]| && list[1..][i].ifname == ByPort(list, p).value;
      assert list[i + 1].ifname == ByPort(list, p).value;
    }
  }

  /** Entry `k` is the first for the port. */
  ghost predicate FirstFor(list: seq<Entry>, p: Port, k: nat) {
    k < |list| && list[k].port == p && forall i :: 0 <= i < k ==> list[i].port != p
  }

  ghost predicate FirstNamed(list: seq<Entry>, ifname: string, k: nat) {
    k < |list| && list[k].ifname == ifname && forall i :: 0 <= i < k ==> list[i].ifname != ifname
  }

  lemma {:induction false} ByPortFirst(list: seq<Entry>, p: Port)
    ensures forall k: nat :: FirstFor(list, p, k) ==> ByPort(list, p) == Some(list[k].ifname)
    ensures ByPort(list, p).None? <==> forall i :: 0 <= i < |list| ==> list[i].port != p
  {
    if list != [] && list[0].port != p {
      ByPortFirst(list[1..], p);
      assert forall i :: 0 < i < |list| ==> list[i] == list[1..][i - 1];
      forall k: nat | FirstFor(list, p, k) ensures ByPort(list, p) == Some(list[k].ifname) {
        assert FirstFor(list[1..], p, k - 1);
      }
    }
  }

  lemma {:induction false} ByNameFirst(list: seq<Entry>, ifname: string)
    ensures forall k: nat :: FirstNamed(list, ifname, k) ==> ByName(list, ifname) == Some(list[k].port)
    ensures ByName(list, ifname).None? <==> forall i :: 0 <= i < |list| ==> list[i].ifname != ifname
  {
    if list != [] && list[0].ifname != ifname {
      ByNameFirst(list[1..], ifname);
      assert forall i :: 0 < i < |list| ==> list[i] == list[1..][i - 1];
      forall k: nat | FirstNamed(list, ifname, k) ensures ByName(list, ifname) == Some(list[k].port) {
        assert FirstNamed(list[1..], ifname, k - 1);
      }
    }
  }

  // ---------------------------------------------------------------- slashes

  ghost function Slashes(s: string): nat {
    if s == "" then 0 else Slashes(s[..|s| - 1]) + if s[|s| - 1] == '/' then 1 else 0
  }

  lemma {:induction false} SlashesConcat(s: string, t: string)
    ensures Slashes(s + t) == Slashes(s) + Slashes(t)
    decreases |t|
  {
    if t == "" {
      assert s + t == s;
    } else {
      SlashesConcat(s, t[..|t| - 1]);
      assert (s + t)[..|s + t| - 1] == s + t[..|t| - 1];
    }
  }

  lemma {:induction false} NoSlashes(s: string)
    ensures Slashes(s) == 0 <==> '/' !in s
  {
    if s != "" {
      NoSlashes(s[..|s| - 1]);
      assert s == s[..|s| - 1] + [s[|s| - 1]];
    }
  }

  /** `strslashcount`, which goes from slash to slash. */
  method SlashCount(s: string) returns (n: nat)
    ensures n == Slashes(s)
  {
    n := 0;
    var pos := 0;
    while pos < |s|
      invariant pos <= |s| && n == Slashes(s[..pos])
    {
      assert s[..pos + 1][..pos] == s[..pos];
      if s[pos] == '/' {
        n := n + 1;
      }
      pos := pos + 1;
    }
    assert s[..|s|] == s;
  }

  datatype Split = NoSlash | Split(before: string, after: string)

  ghost predicate SplitOf(s: string, r: Split) {
    match r
    case NoSlash => '/' !in s
    case Split(before, after) => s == before + "/" + after && '/' !in after
  }

  /** `strslashrsplit`. */
  method SlashRSplit(s: string) returns (r: Split)
    ensures SplitOf(s, r)
  {
    var i := |s|;
    while i > 0 && s[i - 1] != '/'
      invariant 0 <= i <= |s| && forall k :: i <= k < |s| ==> s[k] != '/'
    {
      i := i - 1;
    }
    if i == 0 {
      r := NoSlash;
    } else {
      r := Split(s[..i - 1], s[i..]);
    }
  }

  lemma SplitIsUnique(s: string, before: string, after: string, r: Split)
    requires s == before + "/" + after && '/' !in after && SplitOf(s, r)
    ensures r == Split(before, after)
  {
    assert s[|before|] == '/';
    if r.Split? {
      assert s[|r.before|] == '/';
      LastSlash(before, after, |r.before|);
      LastSlash(r.before, r.after, |before|);
      assert before == s[..|before|] && r.before == s[..|r.before|];
      assert after == s[|before| + 1..] && r.after == s[|r.before| + 1..];
    }
  }

  lemma LastSlash(before: string, after: string, k: nat)
    requires '/' !in after && k < |before + "/" + after| && (before + "/" + after)[k] == '/'
    ensures k <= |before|
  {
    assert forall i :: |before| < i < |before + "/" + after| ==> (before + "/" + after)[i] == after[i - |before| - 1];
  }

  // ---------------------------------------------------------------- printing

  /** The nice name of a port, when it has one and it is wanted. */
  function Nice(list: seq<Entry>, wanted: bool, p: Port): Option<string> {
    if wanted then ByPort(list, p) else None
  }

  function Plain(p: Port): string {
    p.bus + "/" + p.dev + "/" + PercentD(p.index)
  }

  /** The key of a port: its nice name, or its place. */
  function PortText(list: seq<Entry>, wanted: bool, p: Port): string {
    if Nice(list, wanted, p).Some? then Nice(list, wanted, p).value else Plain(p)
  }

  /** A nice name is printed if and only if one is wanted and the map has the port, and then it is the
      first one of the port; otherwise the port is printed in full. */
  lemma PortTextMeaning(list: seq<Entry>, wanted: bool, p: Port)
    ensures !wanted || (forall i :: 0 <= i < |list| ==> list[i].port != p) ==>
              Nice(list, wanted, p).None? && PortText(list, wanted, p) == p.bus + "/" + p.dev + "/" + PercentD(p.index)
    ensures forall k: nat :: wanted && FirstFor(list, p, k) ==> PortText(list, wanted, p) == list[k].ifname
    ensures wanted && (exists i :: 0 <= i < |list| && list[i].port == p) ==> Nice(list, wanted, p).Some?
  {
    hide ByPort, PercentD;
    ByPortFirst(list, p);
  }

  /** The name that `__pr_out_port_handle_start` prints. */
  method PrintPort(list: seq<Entry>, wanted: bool, p: Port) returns (s: string)
    ensures s == PortText(list, wanted, p)
  {
    hide PercentD, ByPort;
    var r := None;
    if wanted {
      r := RevLookup(list, p);
    }
    if r.Some? {
      s := r.value;
    } else {
      s := p.bus + "/" + p.dev + "/" + PercentD(p.index);
    }
  }

  /** `dl_argv_handle_port`. */
  method ParsePort(list: seq<Entry>, s: string) returns (r: Option<Port>)
    ensures Slashes(s) == 0 ==> r == ByName(list, s)
    ensures Slashes(s) != 0 && Slashes(s) != 2 ==> r == None
    ensures Slashes(s) == 2 ==> forall bus, dev, index :: Written(s, bus, dev, index) ==>
                r == if Strtouint32(index).Some? then Some(Port(bus, dev, Strtouint32(index).value)) else None
  {
    hide Slashes, ByName, Strtouint32, SplitOf;
    var n := SlashCount(s);
    r := None;
    if n == 0 {
      r := Lookup(list, s);
    } else if n == 2 {
      var outer := SlashRSplit(s);
      if outer.Split? {
        var index := Strtouint32(outer.after);
        var inner := SlashRSplit(outer.before);
        if index.Some? && inner.Split? {
          r := Some(Port(inner.before, inner.after, index.value));
        }
        forall bus, dev, idx | Written(s, bus, dev, idx)
          ensures outer == Split(bus + "/" + dev, idx) && inner == Split(bus, dev)
        {
          SplitIsUnique(s, bus + "/" + dev, idx, outer);
          SplitIsUnique(outer.before, bus, dev, inner);
        }
      } else {
        forall bus, dev, idx | Written(s, bus, dev, idx) ensures false {
          SplitIsUnique(s, bus + "/" + dev, idx, outer);
        }
      }
    }
  }

  /** The string is `bus/dev/index` with no slash in the last two. */
  ghost predicate Written(s: string, bus: string, dev: string, index: string) {
    s == bus + "/" + dev + "/" + index && '/' !in dev && '/' !in index
  }

  // ---------------------------------------------------------------- round trip

  lemma DigitsHaveNoSlash(n: u32)
    ensures '/' !in PercentD(n)
  {
    hide Digits;
    assert forall c :: IsDigit(c) ==> c != '/';
  }

  lemma PlainSlashes(p: Port)
    ensures Slashes(Plain(p)) == 2 + Slashes(p.bus) + Slashes(p.dev)
  {
    hide PercentD, Slashes;
    SlashesConcat(p.bus, "/");
    SlashesConcat(p.bus + "/", p.dev);
    SlashesConcat(p.bus + "/" + p.dev, "/");
    SlashesConcat(p.bus + "/" + p.dev + "/", PercentD(p.index));
    DigitsHaveNoSlash(p.index);
    NoSlashes(PercentD(p.index));
    OneSlash();
  }

  lemma OneSlash()
    ensures Slashes("/") == 1
  {
    assert "/"[..0] == "";
  }

  ghost predicate LeadsBack(list: seq<Entry>, wanted: bool, p: Port) {
    var nice := Nice(list, wanted, p);
    if nice.Some? then ByName(list, nice.value) == Some(p)
    else '/' !in p.bus && '/' !in p.dev && p.index < U31
  }

  /** What is printed for a port parses back to it: exactly when its nice name is the first entry of
      that name, or, printed in full, when the names have no slash and the index is below 2^31. */
  method PrintThenParse(list: seq<Entry>, wanted: bool, p: Port) returns (back: Option<Port>)
    requires Nice(list, wanted, p).Some? ==> '/' !in Nice(list, wanted, p).value
    ensures back == Some(p) <==> LeadsBack(list, wanted, p)
  {
    hide Slashes, ByName, ByPort, Strtouint32, PercentD, Plain;
    var s := PrintPort(list, wanted, p);
    back := ParsePort(list, s);
    NoSlashes(s);
    NoSlashes(p.bus);
    NoSlashes(p.dev);
    if Nice(list, wanted, p).None? {
      PlainSlashes(p);
      DigitsHaveNoSlash(p.index);
      PrintedIndexReadsBack(p.index);
      PlainIsWritten(p);
    }
  }

  lemma PlainIsWritten(p: Port)
    ensures '/' !in p.dev ==> Written(Plain(p), p.bus, p.dev, PercentD(p.index))
  {
    DigitsHaveNoSlash(p.index);
  }

  /** With unique interface names and no slash in bus and device, only the index can spoil the round
      trip, and only where there is no nice name. */
  lemma UniqueNamesLeadBack(list: seq<Entry>, wanted: bool, p: Port)
    requires forall i, j :: 0 <= i < j < |list| ==> list[i].ifname != list[j].ifname
    requires '/' !in p.bus && '/' !in p.dev
    ensures LeadsBack(list, wanted, p) <==> Nice(list, wanted, p).Some? || p.index < U31
  {
    if Nice(list, wanted, p).Some? {
      NameLeadsBack(list, p);
    }
  }

  // ---------------------------------------------------------------- keys

  lemma FirstSlash(a: string, b: string, c: string, d: string)
    requires '/' !in a && '/' !in c
    ensures a + "/" + b == c + "/" + d <==> a == c && b == d
  {
    var s, t := a + "/" + b, c + "/" + d;
    if s == t {
      assert s[|a|] == '/' && t[|c|] == '/';
      assert forall k :: 0 <= k < |a| ==> s[k] == a[k] && s[k] != '/';
      assert forall k :: 0 <= k < |c| ==> t[k] == c[k] && t[k] != '/';
      assert s[..|a|] == a && t[..|c|] == c;
      assert s[|a| + 1..] == b && t[|c| + 1..] == d;
    }
  }

  /** Two ports printed in full share a key exactly when they have the same index and their bus and
      device names run together to the same text. */
  lemma PlainTells(p: Port, q: Port)
    ensures Plain(p) == Plain(q) <==> p.index == q.index && p.bus + "/" + p.dev == q.bus + "/" + q.dev
  {
    hide PercentD;
    var d, e := p.bus + "/" + p.dev, q.bus + "/" + q.dev;
    DigitsHaveNoSlash(p.index);
    DigitsHaveNoSlash(q.index);
    PercentDTells(p.index, q.index);
    assert Plain(p) == d + "/" + PercentD(p.index) && Plain(q) == e + "/" + PercentD(q.index);
    if Plain(p) == Plain(q) {
      SplitIsUnique(Plain(p), d, PercentD(p.index), Split(e, PercentD(q.index)));
    }
  }

  lemma PlainHasSlash(p: Port)
    ensures '/' in Plain(p)
  {
    assert Plain(p)[|p.bus|] == '/';
  }

  /** Exactly when two ports share a key: both have a nice name, the same one, or both are printed in
      full to the same text. A nice name never collides with a full one. */
  lemma PortTextTells(list: seq<Entry>, wanted: bool, p: Port, q: Port)
    requires forall i :: 0 <= i < |list| ==> '/' !in list[i].ifname
    ensures var a, b := Nice(list, wanted, p), Nice(list, wanted, q);
            PortText(list, wanted, p) == PortText(list, wanted, q)
            <==> a == b && (a.None? ==> p.index == q.index && p.bus + "/" + p.dev == q.bus + "/" + q.dev)
  {
    hide Plain, ByPort;
    PlainTells(p, q);
    PlainHasSlash(p);
    PlainHasSlash(q);
    if Nice(list, wanted, p).Some? {
      NameIsThere(list, p);
    }
    if Nice(list, wanted, q).Some? {
      NameIsThere(list, q);
    }
  }

  /** With unique interface names and no slash in the buses, the key tells the port. */
  lemma UniqueNamesTell(list: seq<Entry>, wanted: bool, p: Port, q: Port)
    requires forall i :: 0 <= i < |list| ==> '/' !in list[i].ifname
    requires forall i, j :: 0 <= i < j < |list| ==> list[i].ifname != list[j].ifname
    requires '/' !in p.bus && '/' !in q.bus
    ensures PortText(list, wanted, p) == PortText(list, wanted, q) <==> p == q
  {
    hide ByPort, PortText;
    PortTextTells(list, wanted, p, q);
    FirstSlash(p.bus, p.dev, q.bus, q.dev);
    if Nice(list, wanted, p).Some? && Nice(list, wanted, q).Some? {
      NameLeadsBack(list, p);
      NameLeadsBack(list, q);
    }
  }
}
