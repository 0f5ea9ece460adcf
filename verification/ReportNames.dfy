/** Names in the objects that `devlink` prints: within each report they differ, at every depth, so
    that a member is found by its name. */
module ReportNames {
  import opened Wrappers
  import opened JsonWriter
  import opened DevlinkReports
  import opened Bytes
  import opened Sequences

  ghost predicate NamesDiffer(ms: seq<Member>) {
    forall i, j :: 0 <= i < j < |ms| ==> ms[i].name != ms[j].name
  }

  /** In every object of the document the names differ, section 4 of RFC 8259. */
  ghost predicate WellNamed(j: Json) {
    match j
    case Leaf(_) => true
    case Object(ms) => NamesDiffer(ms) && forall i :: 0 <= i < |ms| ==> WellNamed(ms[i].value)
    case Array(js) => forall i :: 0 <= i < |js| ==> WellNamed(js[i])
  }

  /** What a reader finds under a name. */
  ghost function Find(ms: seq<Member>, name: string): Option<Json> {
    if ms == [] then None
    else if ms[0].name == name then Some(ms[0].value)
    else Find(ms[1..], name)
  }

  lemma {:induction false} FindConcat(a: seq<Member>, b: seq<Member>, name: string)
    ensures Find(a + b, name) == if Find(a, name).Some? then Find(a, name) else Find(b, name)
  {
    if a == [] {
      assert a + b == b;
    } else {
      assert (a + b)[1..] == a[1..] + b;
      FindConcat(a[1..], b, name);
    }
  }

  // ---------------------------------------------------------------- members that may be missing

  ghost function Maybe(name: string, v: Option<Json>): seq<Member> {
    if v.Some? then [Member(name, v.value)] else []
  }

  /** The members with these names in this order, without those that have no value. */
  ghost function Given(names: seq<string>, vals: seq<Option<Json>>): seq<Member>
    requires |names| == |vals|
  {
    if names == [] then []
    else
      var n := |names| - 1;
      Given(names[..n], vals[..n]) + Maybe(names[n], vals[n])
  }

  lemma NoneGiven()
    ensures Given([], []) == []
  {
  }

  lemma Then(names: seq<string>, vals: seq<Option<Json>>, name: string, v: Option<Json>)
    returns (x: seq<string>, y: seq<Option<Json>>)
    requires |names| == |vals|
    ensures x == names + [name] && y == vals + [v] && Given(x, y) == Given(names, vals) + Maybe(name, v)
  {
    x, y := names + [name], vals + [v];
    assert x[..|names|] == names && y[..|names|] == vals;
  }

  lemma {:induction false} FindsOther(names: seq<string>, vals: seq<Option<Json>>, name: string)
    requires |names| == |vals| && name !in names
    ensures Find(Given(names, vals), name) == None
  {
    if names != [] {
      var n := |names| - 1;
      FindsOther(names[..n], vals[..n], name);
      FindConcat(Given(names[..n], vals[..n]), Maybe(names[n], vals[n]), name);
      assert names[n] in names;
    }
  }

  /** Under each name stands its value, if it has one, and nothing else. */
  lemma {:induction false} FindsGiven(names: seq<string>, vals: seq<Option<Json>>, k: nat)
    requires k < |names| == |vals| && NoRepeats(names)
    ensures Find(Given(names, vals), names[k]) == vals[k]
  {
    var n := |names| - 1;
    FindConcat(Given(names[..n], vals[..n]), Maybe(names[n], vals[n]), names[k]);
    if k < n {
      FindsGiven(names[..n], vals[..n], k);
    } else {
      FindsOther(names[..n], vals[..n], names[n]);
    }
  }

  lemma {:induction false} GivenMembers(names: seq<string>, vals: seq<Option<Json>>, i: nat) returns (k: nat)
    requires |names| == |vals| && i < |Given(names, vals)|
    ensures k < |names| && vals[k].Some? && Given(names, vals)[i] == Member(names[k], vals[k].value)
  {
    var n := |names| - 1;
    if i < |Given(names[..n], vals[..n])| {
      k := GivenMembers(names[..n], vals[..n], i);
    } else {
      k := n;
    }
  }

  lemma {:induction false} GivenDiffer(names: seq<string>, vals: seq<Option<Json>>)
    requires |names| == |vals| && NoRepeats(names)
    ensures NamesDiffer(Given(names, vals))
  {
    if names != [] {
      var n := |names| - 1;
      var init := Given(names[..n], vals[..n]);
      GivenDiffer(names[..n], vals[..n]);
      forall i | 0 <= i < |init| ensures init[i].name != names[n] {
        var k := GivenMembers(names[..n], vals[..n], i);
      }
    }
  }

  ghost predicate WellValues(vals: seq<Option<Json>>) {
    forall k :: 0 <= k < |vals| && vals[k].Some? ==> WellNamed(vals[k].value)
  }

  lemma GivenWell(names: seq<string>, vals: seq<Option<Json>>)
    requires |names| == |vals| && NoRepeats(names) && WellValues(vals)
    ensures WellNamed(Object(Given(names, vals)))
  {
    var ms := Given(names, vals);
    GivenDiffer(names, vals);
    forall i | 0 <= i < |ms| ensures WellNamed(ms[i].value) {
      var k := GivenMembers(names, vals, i);
    }
  }

  // ---------------------------------------------------------------- names of each kind of object

  const OP_NAMES: seq<string> := ["type", "header", "field", "mapping"]

  const VALUE_NAMES: seq<string> := OP_NAMES + ["mapping_value", "value_mask", "value"]

  const TABLE_NAMES: seq<string> :=
    ["name", "size", "counters_enabled", "resource_path", "resource_units", "match", "action"]

  const ENTRY_NAMES: seq<string> := ["index", "counter", "match_value", "action_value"]

  const SCALAR_NAMES: seq<string> := ["name", "resource_path", "size", "size_new", "occ", "unit"]

  const LIMIT_NAMES: seq<string> := ["size_min", "size_max", "size_gran"]

  const RESOURCE_NAMES: seq<string> :=
    SCALAR_NAMES + LIMIT_NAMES + ["dpipe_tables", "size_valid", "resources"]

  lemma DistinctNames()
    ensures NoRepeats(OP_NAMES) && NoRepeats(VALUE_NAMES) && NoRepeats(TABLE_NAMES) && NoRepeats(ENTRY_NAMES)
  {
  }

  lemma DistinctResourceNames()
    ensures NoRepeats(RESOURCE_NAMES)
  {
  }

  // ---------------------------------------------------------------- values under those names

  function Word(text: string): Json {
    Leaf(Text(text))
  }

  function Cut(n: nat): Json {
    Leaf(Number(n % TWO_32))
  }

  function Size(n: nat): Json {
    if n == U64_MAX then Word("unlimited") else Cut(n)
  }

  function When(b: bool, j: Json): Option<Json> {
    if b then Some(j) else None
  }

  function MaybeWord(t: Option<string>): Option<Json> {
    if t.Some? then Some(Word(t.value)) else None
  }

  function MaybeCut(n: Option<nat>): Option<Json> {
    if n.Some? then Some(Cut(n.value)) else None
  }

  function MaybeLeaf(s: Option<Scalar>): Option<Json> {
    if s.Some? then Some(Leaf(s.value)) else None
  }

  function OpValues(op: Op): seq<Option<Json>> {
    [Some(Word(op.kind)), Some(Word(op.header)), Some(Word(op.field)), MaybeWord(op.mapping)]
  }

  function ValueValues(v: Value): seq<Option<Json>> {
    OpValues(v.op) + [MaybeCut(v.mapping), MaybeLeaf(v.mask), MaybeLeaf(v.value)]
  }

  ghost function TableValues(t: Table): seq<Option<Json>> {
    [Some(Word(t.name)), Some(Cut(t.size)), Some(Word(if t.counters then "true" else "false")),
     if t.usage.Some? then MaybeWord(t.usage.value.path) else None,
     if t.usage.Some? then Some(Cut(t.usage.value.units)) else None,
     Some(Array(OpItems(t.matches))), When(OpsParse(t.matches), Array(OpItems(t.actions)))]
  }

  ghost function EntryValues(e: Entry): seq<Option<Json>> {
    [Some(Cut(e.index)), MaybeCut(e.counter), Some(Array(ValueItems(e.matches))),
     When(ValuesOk(e.matches), Array(ValueItems(e.actions)))]
  }

  function ScalarValues(r: Resource): seq<Option<Json>> {
    [Some(Word(r.name)), MaybeWord(r.path), Some(Size(r.size)), When(r.size != r.newSize, Size(r.newSize)),
     MaybeCut(r.occ), Some(Word(r.unit))]
  }

  function LimitValues(r: Resource): seq<Option<Json>> {
    [When(r.min != r.max, Cut(r.min)), When(r.min != r.max, Size(r.max)), When(r.min != r.max, Cut(r.gran))]
  }

  function ResourceValues(r: Resource, tables: seq<TableUse>, pending: bool): seq<Option<Json>> {
    ScalarValues(r) + LimitValues(r)
      + [Some(UseMember(tables, r.id).value),
         When(pending && r.kids != [], Word(if r.valid then "true" else "false")),
         When(r.kids != [], Array(ResourceItems(r.kids, tables, pending)))]
  }

  lemma OpGiven(op: Op)
    ensures OpMembers(op) == Given(OP_NAMES, OpValues(op))
  {
    hide Given;
    NoneGiven();
    var x, y := Then([], [], "type", Some(Word(op.kind)));
    x, y := Then(x, y, "header", Some(Word(op.header)));
    x, y := Then(x, y, "field", Some(Word(op.field)));
    x, y := Then(x, y, "mapping", MaybeWord(op.mapping));
    assert x == OP_NAMES && y == OpValues(op);
  }

  lemma ValueGiven(v: Value)
    ensures |OP_NAMES| == |OpValues(v.op)| && ValueMembers(v) == Given(VALUE_NAMES, ValueValues(v))
  {
    hide Given, OpMembers;
    OpGiven(v.op);
    var x, y := Then(OP_NAMES, OpValues(v.op), "mapping_value", MaybeCut(v.mapping));
    x, y := Then(x, y, "value_mask", MaybeLeaf(v.mask));
    x, y := Then(x, y, "value", MaybeLeaf(v.value));
    assert x == VALUE_NAMES && y == ValueValues(v);
  }

  lemma TableGiven(t: Table)
    requires t.complete
    ensures TableMembers(t) == Given(TABLE_NAMES, TableValues(t))
  {
    hide Given, OpItems, OpsParse;
    NoneGiven();
    var x, y := Then([], [], "name", Some(Word(t.name)));
    x, y := Then(x, y, "size", Some(Cut(t.size)));
    x, y := Then(x, y, "counters_enabled", Some(Word(if t.counters then "true" else "false")));
    x, y := Then(x, y, "resource_path", if t.usage.Some? then MaybeWord(t.usage.value.path) else None);
    x, y := Then(x, y, "resource_units", if t.usage.Some? then Some(Cut(t.usage.value.units)) else None);
    assert Given(x, y) == TableScalars(t);
    x, y := Then(x, y, "match", Some(Array(OpItems(t.matches))));
    x, y := Then(x, y, "action", When(OpsParse(t.matches), Array(OpItems(t.actions))));
    assert x == TABLE_NAMES && y == TableValues(t);
  }

  lemma EntryGiven(e: Entry)
    requires e.complete
    ensures EntryMembers(e) == Given(ENTRY_NAMES, EntryValues(e))
  {
    hide Given, ValueItems, ValuesOk;
    NoneGiven();
    var x, y := Then([], [], "index", Some(Cut(e.index)));
    x, y := Then(x, y, "counter", MaybeCut(e.counter));
    assert Given(x, y) == EntryScalars(e);
    x, y := Then(x, y, "match_value", Some(Array(ValueItems(e.matches))));
    x, y := Then(x, y, "action_value", When(ValuesOk(e.matches), Array(ValueItems(e.actions))));
    assert x == ENTRY_NAMES && y == EntryValues(e);
  }

  lemma SizeGiven(name: string, b: bool, n: nat)
    ensures Maybe(name, When(b, Size(n))) == if b then [U64(name, n)] else []
    ensures Maybe(name, Some(Size(n))) == [U64(name, n)]
  {
  }

  lemma ScalarsGiven(r: Resource)
    ensures Given(SCALAR_NAMES, ScalarValues(r)) + SizeLimits(r) == ResourceScalars(r)
  {
    hide Given, Size, U64, SizeLimits;
    NoneGiven();
    SizeGiven("size", true, r.size);
    SizeGiven("size_new", r.size != r.newSize, r.newSize);
    var x, y := Then([], [], "name", Some(Word(r.name)));
    x, y := Then(x, y, "resource_path", MaybeWord(r.path));
    x, y := Then(x, y, "size", Some(Size(r.size)));
    x, y := Then(x, y, "size_new", When(r.size != r.newSize, Size(r.newSize)));
    x, y := Then(x, y, "occ", MaybeCut(r.occ));
    x, y := Then(x, y, "unit", Some(Word(r.unit)));
    assert x == SCALAR_NAMES && y == ScalarValues(r);
  }

  lemma LimitsGiven(r: Resource, names: seq<string>, vals: seq<Option<Json>>)
    requires |names| == |vals|
    ensures Given(names + LIMIT_NAMES, vals + LimitValues(r)) == Given(names, vals) + SizeLimits(r)
  {
    hide Given, Size, U64;
    SizeGiven("size_max", r.min != r.max, r.max);
    var x, y := Then(names, vals, "size_min", When(r.min != r.max, Cut(r.min)));
    x, y := Then(x, y, "size_max", When(r.min != r.max, Size(r.max)));
    x, y := Then(x, y, "size_gran", When(r.min != r.max, Cut(r.gran)));
    assert x == names + LIMIT_NAMES && y == vals + LimitValues(r);
  }

  lemma ResourceGiven(r: Resource, tables: seq<TableUse>, pending: bool)
    ensures ResourceMembers(r, tables, pending) == Given(RESOURCE_NAMES, ResourceValues(r, tables, pending))
  {
    hide Given, ResourceItems, UseItems, ResourceMembers, ResourceScalars, SizeLimits;
    ScalarsGiven(r);
    LimitsGiven(r, SCALAR_NAMES, ScalarValues(r));
    MembersOfResource(r, tables, pending);
    var x, y := SCALAR_NAMES + LIMIT_NAMES, ScalarValues(r) + LimitValues(r);
    x, y := Then(x, y, "dpipe_tables", Some(UseMember(tables, r.id).value));
    x, y := Then(x, y, "size_valid", When(pending && r.kids != [], Word(if r.valid then "true" else "false")));
    x, y := Then(x, y, "resources", When(r.kids != [], Array(ResourceItems(r.kids, tables, pending))));
    assert x == RESOURCE_NAMES && y == ResourceValues(r, tables, pending);
  }

  // ---------------------------------------------------------------- whole reports

  lemma ItemWell(j: Json, js: seq<Json>)
    requires WellNamed(j) && WellNamed(Array(js))
    ensures WellNamed(Array([j] + js))
  {
    forall i | 0 <= i < |[j] + js| ensures WellNamed(([j] + js)[i]) {
      assert i > 0 ==> ([j] + js)[i] == js[i - 1];
    }
  }

  lemma NoItemWell()
    ensures WellNamed(Array([])) && WellNamed(Object([])) && WellNamed(Array([Object([])]))
  {
    assert WellNamed(Object([]));
  }

  lemma {:induction false} OpItemsWell(ops: seq<Op>)
    ensures WellNamed(Array(OpItems(ops)))
  {
    hide OpMembers, Given;
    NoItemWell();
    if ops != [] && ops[0].parses {
      OpItemsWell(ops[1..]);
      OpGiven(ops[0]);
      DistinctNames();
      GivenWell(OP_NAMES, OpValues(ops[0]));
      ItemWell(Object(OpMembers(ops[0])), OpItems(ops[1..]));
    }
  }

  lemma {:induction false} ValueItemsWell(vs: seq<Value>)
    ensures WellNamed(Array(ValueItems(vs)))
  {
    hide ValueMembers, Given;
    NoItemWell();
    if vs != [] && ValueOk(vs[0]) {
      ValueItemsWell(vs[1..]);
      ValueGiven(vs[0]);
      DistinctNames();
      GivenWell(VALUE_NAMES, ValueValues(vs[0]));
      ItemWell(Object(ValueMembers(vs[0])), ValueItems(vs[1..]));
    }
  }

  lemma TableWell(t: Table)
    ensures WellNamed(Object(TableMembers(t)))
  {
    hide OpItems, OpsParse, Given;
    NoItemWell();
    if t.complete {
      OpItemsWell(t.matches);
      OpItemsWell(t.actions);
      TableGiven(t);
      DistinctNames();
      GivenWell(TABLE_NAMES, TableValues(t));
    }
  }

  lemma EntryWell(e: Entry)
    ensures WellNamed(Object(EntryMembers(e)))
  {
    hide ValueItems, ValuesOk, Given;
    NoItemWell();
    if e.complete {
      ValueItemsWell(e.matches);
      ValueItemsWell(e.actions);
      EntryGiven(e);
      DistinctNames();
      GivenWell(ENTRY_NAMES, EntryValues(e));
    }
  }

  lemma {:induction false} UseItemsWell(tables: seq<TableUse>, id: nat)
    ensures WellNamed(Array(UseItems(tables, id)))
  {
    if tables != [] {
      UseItemsWell(tables[1..], id);
      OneNameWell(Str("table_name", tables[0].name));
      hide WellNamed;
      if tables[0].resource == Some(id) {
        ItemWell(Object([Str("table_name", tables[0].name)]), UseItems(tables[1..], id));
      } else {
        assert [] + UseItems(tables[1..], id) == UseItems(tables[1..], id);
      }
    }
  }

  lemma OneNameWell(m: Member)
    requires m.value.Leaf?
    ensures WellNamed(Object([m]))
  {
  }

  lemma UseMemberWell(tables: seq<TableUse>, id: nat)
    ensures WellNamed(UseMember(tables, id).value)
  {
    UseItemsWell(tables, id);
  }

  lemma {:induction false} ResourceWell(r: Resource, tables: seq<TableUse>, pending: bool)
    ensures WellNamed(Object(ResourceMembers(r, tables, pending)))
    decreases r, 0
  {
    hide UseMember, ResourceItems, ResourceMembers, Given;
    UseMemberWell(tables, r.id);
    KidsWell(r.kids, tables, pending);
    ResourceGiven(r, tables, pending);
    DistinctResourceNames();
    GivenWell(RESOURCE_NAMES, ResourceValues(r, tables, pending));
  }

  lemma {:induction false} KidsWell(rs: seq<Resource>, tables: seq<TableUse>, pending: bool)
    ensures WellNamed(Array(ResourceItems(rs, tables, pending)))
    decreases rs, 1
  {
    hide WellNamed, ResourceMembers;
    NoItemWell();
    if rs != [] {
      ResourceWell(rs[0], tables, pending);
      KidsWell(rs[1..], tables, pending);
      ItemWell(Object(ResourceMembers(rs[0], tables, pending)), ResourceItems(rs[1..], tables, pending));
    }
  }
}
