/** What a reader of a report finds under each name: the field of that name, a number cut to 32 bits
    or the word for the greatest size, and nothing under a name whose field is missing. */
module ReportValues {
  import opened Wrappers
  import opened JsonWriter
  import opened DevlinkReports
  import opened ReportNames
  import opened Sequences
  import opened Bytes

  /** No member has another name. */
  ghost predicate Only(ms: seq<Member>, names: seq<string>) {
    forall i :: 0 <= i < |ms| ==> ms[i].name in names
  }

  ghost predicate Has(ms: seq<Member>, name: string, v: Option<Json>) {
    Find(ms, name) == v
  }

  /** Each name leads to its value. */
  ghost predicate Leads(ms: seq<Member>, names: seq<string>, vals: seq<Option<Json>>) {
    |names| == |vals| && forall k :: 0 <= k < |names| ==> Has(ms, names[k], vals[k])
  }

  lemma GivenLeads(names: seq<string>, vals: seq<Option<Json>>)
    requires |names| == |vals| && NoRepeats(names)
    ensures Leads(Given(names, vals), names, vals) && Only(Given(names, vals), names)
  {
    var ms := Given(names, vals);
    forall k | 0 <= k < |names| ensures Has(ms, names[k], vals[k]) {
      FindsGiven(names, vals, k);
    }
    forall i | 0 <= i < |ms| ensures ms[i].name in names {
      var k := GivenMembers(names, vals, i);
    }
  }

  // ---------------------------------------------------------------- matches and actions

  ghost predicate ShowsOp(ms: seq<Member>, op: Op) {
    && Find(ms, "type") == Some(Leaf(Text(op.kind)))
    && Find(ms, "header") == Some(Leaf(Text(op.header)))
    && Find(ms, "field") == Some(Leaf(Text(op.field)))
    && Find(ms, "mapping") == MaybeWord(op.mapping)
  }

  /** All of them, or those up to and with the first that cannot be parsed, in whose place stands an
      empty object. */
  ghost predicate ShowsOps(j: Json, ops: seq<Op>) {
    && j.Array? && |j.items| <= |ops|
    && (|j.items| < |ops| ==> j.items != [] && !ops[|j.items| - 1].parses)
    && (forall i :: 0 <= i < |j.items| - 1 ==> ops[i].parses)
    && (forall i :: 0 <= i < |j.items| ==> OpShown(j.items[i], ops[i]))
  }

  ghost predicate OpShown(j: Json, op: Op) {
    j.Object? && if op.parses then ShowsOp(j.members, op) && Only(j.members, OP_NAMES) else j.members == []
  }

  lemma LeadsOp(ms: seq<Member>, op: Op)
    requires Leads(ms, OP_NAMES, OpValues(op))
    ensures ShowsOp(ms, op)
  {
    hide Find;
    var v := OpValues(op);
    assert Has(ms, OP_NAMES[0], v[0]) && Has(ms, OP_NAMES[1], v[1]);
    assert Has(ms, OP_NAMES[2], v[2]) && Has(ms, OP_NAMES[3], v[3]);
  }

  lemma OpShows(op: Op)
    ensures ShowsOp(OpMembers(op), op) && Only(OpMembers(op), OP_NAMES)
  {
    hide ShowsOp, Leads, Only, OpMembers, Given;
    OpGiven(op);
    DistinctNames();
    GivenLeads(OP_NAMES, OpValues(op));
    LeadsOp(OpMembers(op), op);
  }

  lemma {:induction false} OpsShown(ops: seq<Op>)
    ensures ShowsOps(Array(OpItems(ops)), ops)
  {
    hide ShowsOp, Only, OpMembers;
    if ops != [] && ops[0].parses {
      var js, ks := OpItems(ops), OpItems(ops[1..]);
      OpsShown(ops[1..]);
      OpShows(ops[0]);
      assert ShowsOps(Array(ks), ops[1..]);
      forall i | 0 <= i < |js| ensures i < |js| - 1 ==> ops[i].parses
        ensures OpShown(js[i], ops[i])
      {
        if i > 0 {
          assert js[i] == ks[i - 1] && ops[i] == ops[1..][i - 1];
        }
      }
    }
  }

  // ---------------------------------------------------------------- tables

  /** An attribute that is not complete leaves an empty object; actions follow only where every match
      could be parsed. */
  ghost predicate ShowsTable(ms: seq<Member>, t: Table) {
    if !t.complete then ms == []
    else
      && Only(ms, TABLE_NAMES)
      && Find(ms, "name") == Some(Leaf(Text(t.name)))
      && Find(ms, "size") == Some(Cut(t.size))
      && Find(ms, "counters_enabled") == Some(Leaf(Text(if t.counters then "true" else "false")))
      && Find(ms, "resource_path") == (if t.usage.Some? then MaybeWord(t.usage.value.path) else None)
      && Find(ms, "resource_units") == (if t.usage.Some? then Some(Cut(t.usage.value.units)) else None)
      && Find(ms, "match").Some? && ShowsOps(Find(ms, "match").value, t.matches)
      && (Find(ms, "action").Some? <==> forall i :: 0 <= i < |t.matches| ==> t.matches[i].parses)
      && (Find(ms, "action").Some? ==> ShowsOps(Find(ms, "action").value, t.actions))
  }

  lemma LeadsTable(ms: seq<Member>, t: Table)
    requires t.complete && Only(ms, TABLE_NAMES) && Leads(ms, TABLE_NAMES, TableValues(t))
    requires ShowsOps(Array(OpItems(t.matches)), t.matches) && ShowsOps(Array(OpItems(t.actions)), t.actions)
    ensures ShowsTable(ms, t)
  {
    hide Find, Only, ShowsOps, OpItems;
    var v := TableValues(t);
    assert Has(ms, TABLE_NAMES[0], v[0]) && Has(ms, TABLE_NAMES[1], v[1]) && Has(ms, TABLE_NAMES[2], v[2]);
    assert Has(ms, TABLE_NAMES[3], v[3]) && Has(ms, TABLE_NAMES[4], v[4]);
    assert Has(ms, TABLE_NAMES[5], v[5]) && Has(ms, TABLE_NAMES[6], v[6]);
  }

  lemma TableShows(t: Table)
    ensures ShowsTable(TableMembers(t), t)
  {
    hide ShowsTable, Leads, Only, OpItems, OpsParse, Given;
    if t.complete {
      OpsShown(t.matches);
      OpsShown(t.actions);
      TableGiven(t);
      DistinctNames();
      GivenLeads(TABLE_NAMES, TableValues(t));
      LeadsTable(TableMembers(t), t);
    } else {
      NoTable(t);
    }
  }

  lemma NoTable(t: Table)
    requires !t.complete
    ensures ShowsTable(TableMembers(t), t)
  {
  }

  // ---------------------------------------------------------------- values and entries

  ghost predicate ShowsValue(ms: seq<Member>, v: Value) {
    && Only(ms, VALUE_NAMES) && ShowsOp(ms, v.op)
    && Find(ms, "mapping_value") == MaybeCut(v.mapping)
    && Find(ms, "value_mask") == MaybeLeaf(v.mask)
    && Find(ms, "value") == MaybeLeaf(v.value)
  }

  /** All of them, or those before the first incomplete one, or those up to and with the first whose
      match or action cannot be parsed, in whose place stands an empty object. */
  ghost predicate ShowsValues(j: Json, vs: seq<Value>) {
    && j.Array? && |j.items| <= |vs|
    && (forall i :: 0 <= i < |j.items| ==> vs[i].complete && ValueShown(j.items[i], vs[i]))
    && (forall i :: 0 <= i < |j.items| - 1 ==> vs[i].op.parses)
    && (|j.items| < |vs| ==> (j.items != [] && !vs[|j.items| - 1].op.parses) || !vs[|j.items|].complete)
  }

  ghost predicate ValueShown(j: Json, v: Value) {
    j.Object? && if v.op.parses then ShowsValue(j.members, v) else j.members == []
  }

  lemma LeadsValue(ms: seq<Member>, v: Value)
    requires Only(ms, VALUE_NAMES) && Leads(ms, VALUE_NAMES, ValueValues(v))
    ensures ShowsValue(ms, v)
  {
    hide Find, Only, ShowsOp;
    var w := ValueValues(v);
    forall k | 0 <= k < |OP_NAMES| ensures Has(ms, OP_NAMES[k], OpValues(v.op)[k]) {
      assert Has(ms, VALUE_NAMES[k], w[k]);
    }
    LeadsOp(ms, v.op);
    assert Has(ms, VALUE_NAMES[4], w[4]) && Has(ms, VALUE_NAMES[5], w[5]) && Has(ms, VALUE_NAMES[6], w[6]);
  }

  lemma ValueShows(v: Value)
    ensures ShowsValue(ValueMembers(v), v)
  {
    hide ShowsValue, Leads, Only, ValueMembers, Given;
    ValueGiven(v);
    DistinctNames();
    GivenLeads(VALUE_NAMES, ValueValues(v));
    LeadsValue(ValueMembers(v), v);
  }

  lemma {:induction false} ValuesShown(vs: seq<Value>)
    ensures ShowsValues(Array(ValueItems(vs)), vs)
  {
    hide ShowsValue, ValueMembers;
    if vs != [] && ValueOk(vs[0]) {
      var js, ks := ValueItems(vs), ValueItems(vs[1..]);
      ValuesShown(vs[1..]);
      ValueShows(vs[0]);
      assert ShowsValues(Array(ks), vs[1..]);
      forall i | 0 <= i < |js| ensures i < |js| - 1 ==> vs[i].op.parses
        ensures vs[i].complete && ValueShown(js[i], vs[i])
      {
        if i > 0 {
          assert js[i] == ks[i - 1] && vs[i] == vs[1..][i - 1];
        }
      }
    }
  }

  ghost predicate ShowsEntry(ms: seq<Member>, e: Entry) {
    if !e.complete then ms == []
    else
      && Only(ms, ENTRY_NAMES)
      && Find(ms, "index") == Some(Cut(e.index))
      && Find(ms, "counter") == MaybeCut(e.counter)
      && Find(ms, "match_value").Some? && ShowsValues(Find(ms, "match_value").value, e.matches)
      && (Find(ms, "action_value").Some?
          <==> forall i :: 0 <= i < |e.matches| ==> e.matches[i].complete && e.matches[i].op.parses)
      && (Find(ms, "action_value").Some? ==> ShowsValues(Find(ms, "action_value").value, e.actions))
  }

  lemma LeadsEntry(ms: seq<Member>, e: Entry)
    requires e.complete && Only(ms, ENTRY_NAMES) && Leads(ms, ENTRY_NAMES, EntryValues(e))
    requires ShowsValues(Array(ValueItems(e.matches)), e.matches)
    requires ShowsValues(Array(ValueItems(e.actions)), e.actions)
    ensures ShowsEntry(ms, e)
  {
    hide Find, Only, ShowsValues, ValueItems;
    var v := EntryValues(e);
    assert Has(ms, ENTRY_NAMES[0], v[0]) && Has(ms, ENTRY_NAMES[1], v[1]);
    assert Has(ms, ENTRY_NAMES[2], v[2]) && Has(ms, ENTRY_NAMES[3], v[3]);
  }

  lemma EntryShows(e: Entry)
    ensures ShowsEntry(EntryMembers(e), e)
  {
    hide ShowsEntry, Leads, Only, ValueItems, ValuesOk, Given;
    if e.complete {
      ValuesShown(e.matches);
      ValuesShown(e.actions);
      EntryGiven(e);
      DistinctNames();
      GivenLeads(ENTRY_NAMES, EntryValues(e));
      LeadsEntry(EntryMembers(e), e);
    } else {
      NoEntry(e);
    }
  }

  lemma NoEntry(e: Entry)
    requires !e.complete
    ensures ShowsEntry(EntryMembers(e), e)
  {
  }

  // ---------------------------------------------------------------- the tables that use a resource

  /** How many of the first `n` tables use the resource. */
  ghost function Users(tables: seq<TableUse>, id: nat, n: nat): nat
    requires n <= |tables|
  {
    if n == 0 then 0 else Users(tables, id, n - 1) + if tables[n - 1].resource == Some(id) then 1 else 0
  }

  /** The tables that use the resource, each at its place among them, and nothing else; or a word. */
  ghost predicate ShowsUses(j: Json, tables: seq<TableUse>, id: nat) {
    if Users(tables, id, |tables|) == 0 then j == Leaf(Text("none"))
    else
      && j.Array? && |j.items| == Users(tables, id, |tables|)
      && forall k :: 0 <= k < |tables| && tables[k].resource == Some(id) ==>
           Users(tables, id, k) < |j.items| && NamesTable(j.items[Users(tables, id, k)], tables[k].name)
  }

  ghost predicate NamesTable(j: Json, name: string) {
    j == Object([Member("table_name", Leaf(Text(name)))])
  }

  lemma {:induction false} UsersGrow(tables: seq<TableUse>, id: nat, k: nat, n: nat)
    requires k < n <= |tables| && tables[k].resource == Some(id)
    ensures Users(tables, id, k) < Users(tables, id, n)
  {
    if k + 1 < n {
      UsersGrow(tables, id, k, n - 1);
    }
  }

  lemma {:induction false} UsersOfRest(tables: seq<TableUse>, id: nat, n: nat)
    requires 0 < n <= |tables|
    ensures Users(tables, id, n)
            == (if tables[0].resource == Some(id) then 1 else 0) + Users(tables[1..], id, n - 1)
  {
    if n > 1 {
      UsersOfRest(tables, id, n - 1);
      assert tables[n - 1] == tables[1..][n - 2];
    }
  }

  lemma {:induction false} UseItemsShown(tables: seq<TableUse>, id: nat)
    ensures |UseItems(tables, id)| == Users(tables, id, |tables|)
    ensures forall k :: 0 <= k < |tables| && tables[k].resource == Some(id) ==>
              Users(tables, id, k) < |UseItems(tables, id)|
              && NamesTable(UseItems(tables, id)[Users(tables, id, k)], tables[k].name)
  {
    hide Users, NamesTable;
    NoUsers(tables, id);
    if tables != [] {
      var js, ks := UseItems(tables, id), UseItems(tables[1..], id);
      UseItemsShown(tables[1..], id);
      UsersOfRest(tables, id, |tables|);
      forall k | 0 <= k < |tables| && tables[k].resource == Some(id)
        ensures Users(tables, id, k) < |js| && NamesTable(js[Users(tables, id, k)], tables[k].name)
      {
        if k == 0 {
          UsersGrow(tables, id, 0, |tables|);
          NamedTable(tables[0].name);
        } else {
          UsersOfRest(tables, id, k);
          assert tables[k] == tables[1..][k - 1];
        }
      }
    }
  }

  lemma NoUsers(tables: seq<TableUse>, id: nat)
    ensures Users(tables, id, 0) == 0
  {
  }

  lemma NamedTable(name: string)
    ensures NamesTable(Object([Str("table_name", name)]), name)
  {
  }

  lemma UsesShown(tables: seq<TableUse>, id: nat)
    ensures ShowsUses(UseMember(tables, id).value, tables, id)
  {
    hide UseItems, Users, NamesTable;
    UseItemsShown(tables, id);
  }

  // ---------------------------------------------------------------- resources

  /** Limits are there if and only if the least and the greatest size differ, the new size if and only
      if it differs from the size, the validity if and only if a change is pending below; `resources`
      lists the children in order. */
  ghost predicate ShowsResource(ms: seq<Member>, r: Resource, tables: seq<TableUse>, pending: bool)
    decreases r, 0
  {
    && Only(ms, RESOURCE_NAMES) && ShowsSizes(ms, r)
    && Find(ms, "name") == Some(Leaf(Text(r.name)))
    && Find(ms, "resource_path") == MaybeWord(r.path)
    && Find(ms, "unit") == Some(Leaf(Text(r.unit)))
    && Find(ms, "dpipe_tables").Some? && ShowsUses(Find(ms, "dpipe_tables").value, tables, r.id)
    && Find(ms, "size_valid") == When(pending && r.kids != [], Leaf(Text(if r.valid then "true" else "false")))
    && (Find(ms, "resources").Some? <==> r.kids != [])
    && (r.kids != [] ==> ShowsKids(Find(ms, "resources").value, r.kids, tables, pending))
  }

  ghost predicate ShowsSizes(ms: seq<Member>, r: Resource) {
    && Find(ms, "size") == Some(Size(r.size))
    && Find(ms, "size_new") == When(r.size != r.newSize, Size(r.newSize))
    && Find(ms, "occ") == MaybeCut(r.occ)
    && Find(ms, "size_min") == When(r.min != r.max, Cut(r.min))
    && Find(ms, "size_max") == When(r.min != r.max, Size(r.max))
    && Find(ms, "size_gran") == When(r.min != r.max, Cut(r.gran))
  }

  ghost predicate ShowsKids(j: Json, rs: seq<Resource>, tables: seq<TableUse>, pending: bool)
    decreases rs, 1
  {
    && j.Array? && |j.items| == |rs|
    && forall i :: 0 <= i < |rs| ==> j.items[i].Object? && ShowsResource(j.items[i].members, rs[i], tables, pending)
  }

  lemma LeadsSizes(ms: seq<Member>, r: Resource, tables: seq<TableUse>, pending: bool)
    requires Leads(ms, RESOURCE_NAMES, ResourceValues(r, tables, pending))
    ensures ShowsSizes(ms, r)
  {
    hide Find, UseMember, ResourceItems, Size, Cut;
    var v := ResourceValues(r, tables, pending);
    assert Has(ms, RESOURCE_NAMES[2], v[2]) && Has(ms, RESOURCE_NAMES[3], v[3]) && Has(ms, RESOURCE_NAMES[4], v[4]);
    assert Has(ms, RESOURCE_NAMES[6], v[6]) && Has(ms, RESOURCE_NAMES[7], v[7]) && Has(ms, RESOURCE_NAMES[8], v[8]);
  }

  lemma LeadsResource(ms: seq<Member>, r: Resource, tables: seq<TableUse>, pending: bool)
    requires Only(ms, RESOURCE_NAMES) && Leads(ms, RESOURCE_NAMES, ResourceValues(r, tables, pending))
    requires ShowsUses(UseMember(tables, r.id).value, tables, r.id)
    requires ShowsKids(Array(ResourceItems(r.kids, tables, pending)), r.kids, tables, pending)
    ensures ShowsResource(ms, r, tables, pending)
  {
    hide Find, Only, UseMember, ResourceItems, Size, Cut, ShowsUses, ShowsSizes, ShowsKids;
    var v := ResourceValues(r, tables, pending);
    LeadsSizes(ms, r, tables, pending);
    assert Has(ms, RESOURCE_NAMES[0], v[0]) && Has(ms, RESOURCE_NAMES[1], v[1]) && Has(ms, RESOURCE_NAMES[5], v[5]);
    assert Has(ms, RESOURCE_NAMES[9], v[9]) && Has(ms, RESOURCE_NAMES[10], v[10]) && Has(ms, RESOURCE_NAMES[11], v[11]);
  }

  lemma {:induction false} ResourceShows(r: Resource, tables: seq<TableUse>, pending: bool)
    ensures ShowsResource(ResourceMembers(r, tables, pending), r, tables, pending)
    decreases r, 0
  {
    hide ShowsResource, Leads, Only, ResourceMembers, UseMember, ResourceItems, Given, ShowsUses, ShowsKids;
    UsesShown(tables, r.id);
    KidsShown(r.kids, tables, pending);
    ResourceGiven(r, tables, pending);
    DistinctResourceNames();
    GivenLeads(RESOURCE_NAMES, ResourceValues(r, tables, pending));
    LeadsResource(ResourceMembers(r, tables, pending), r, tables, pending);
  }

  lemma {:induction false} KidsShown(rs: seq<Resource>, tables: seq<TableUse>, pending: bool)
    ensures ShowsKids(Array(ResourceItems(rs, tables, pending)), rs, tables, pending)
    decreases rs, 1
  {
    hide ShowsResource, ResourceMembers;
    if rs != [] {
      var js, ks := ResourceItems(rs, tables, pending), ResourceItems(rs[1..], tables, pending);
      ResourceShows(rs[0], tables, pending);
      KidsShown(rs[1..], tables, pending);
      assert ShowsKids(Array(ks), rs[1..], tables, pending);
      forall i | 0 <= i < |rs| ensures js[i].Object? && ShowsResource(js[i].members, rs[i], tables, pending) {
        if i > 0 {
          assert js[i] == ks[i - 1] && rs[i] == rs[1..][i - 1];
        }
      }
    }
  }

  // ---------------------------------------------------------------- what a reader makes of a report

  /** The number under a name. */
  ghost function NumberAt(ms: seq<Member>, name: string): Option<nat> {
    if Find(ms, name).Some? then NumberShown(Member(name, Find(ms, name).value)) else None
  }

  lemma ReadNumber(ms: seq<Member>, name: string, n: nat)
    ensures Find(ms, name) == Some(Size(n)) ==> (NumberAt(ms, name) == Some(n) <==> n < TWO_32 || n == U64_MAX)
    ensures Find(ms, name) == Some(Cut(n)) ==> (NumberAt(ms, name) == Some(n) <==> n < TWO_32)
  {
    hide Find;
  }

  /** The number `n` is read under the name if and only if it is printed there and shown unchanged. */
  ghost predicate ReadIff(ms: seq<Member>, name: string, n: nat, shown: bool) {
    NumberAt(ms, name) == Some(n) <==> shown
  }

  /** A resource report is parsed back, each name leads to the field of that name, and a reader takes
      the right number exactly where it fits 32 bits or, for sizes, is the greatest one. */
  lemma ResourceIsRead(r: Resource, tables: seq<TableUse>, pending: bool)
    ensures var j := Parse(Tokens(Object(ResourceMembers(r, tables, pending))));
            && j.Some? && j.value.Object? && ShowsResource(j.value.members, r, tables, pending)
            && ReadIff(j.value.members, "size", r.size, r.size < TWO_32 || r.size == U64_MAX)
            && ReadIff(j.value.members, "size_new", r.newSize,
                       r.size != r.newSize && (r.newSize < TWO_32 || r.newSize == U64_MAX))
            && (r.occ.Some? ==> ReadIff(j.value.members, "occ", r.occ.value, r.occ.value < TWO_32))
            && ReadIff(j.value.members, "size_min", r.min, r.min != r.max && r.min < TWO_32)
            && ReadIff(j.value.members, "size_max", r.max, r.min != r.max && (r.max < TWO_32 || r.max == U64_MAX))
            && ReadIff(j.value.members, "size_gran", r.gran, r.min != r.max && r.gran < TWO_32)
  {
    hide Find, Only, ResourceMembers, ShowsUses, ShowsKids, Size, Cut, Tokens, Parse;
    var ms := ResourceMembers(r, tables, pending);
    ParseWritten(Object(ms));
    ResourceShows(r, tables, pending);
    NumbersRead(ms, r);
  }

  lemma NumbersRead(ms: seq<Member>, r: Resource)
    requires ShowsSizes(ms, r)
    ensures ReadIff(ms, "size", r.size, r.size < TWO_32 || r.size == U64_MAX)
    ensures ReadIff(ms, "size_new", r.newSize, r.size != r.newSize && (r.newSize < TWO_32 || r.newSize == U64_MAX))
    ensures r.occ.Some? ==> ReadIff(ms, "occ", r.occ.value, r.occ.value < TWO_32)
    ensures ReadIff(ms, "size_min", r.min, r.min != r.max && r.min < TWO_32)
    ensures ReadIff(ms, "size_max", r.max, r.min != r.max && (r.max < TWO_32 || r.max == U64_MAX))
    ensures ReadIff(ms, "size_gran", r.gran, r.min != r.max && r.gran < TWO_32)
  {
    hide Find, Size, Cut, NumberShown;
    ReadNumber(ms, "size", r.size);
    ReadNumber(ms, "size_new", r.newSize);
    ReadNumber(ms, "size_min", r.min);
    ReadNumber(ms, "size_max", r.max);
    ReadNumber(ms, "size_gran", r.gran);
    if r.occ.Some? {
      ReadNumber(ms, "occ", r.occ.value);
    }
  }
}
