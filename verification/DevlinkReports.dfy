/** What `devlink` prints for one pipeline table, table entry or resource: members of an object that
    is already open. An attribute that cannot be parsed ends the report early, and what was opened
    is closed again. */
module DevlinkReports {
  import opened Wrappers
  import opened JsonWriter
  import opened Bytes

  const U64_MAX: nat := TWO_64 - 1

  // ---------------------------------------------------------------- scalars

  function Str(name: string, text: string): Member {
    Member(name, Leaf(Text(text)))
  }

  /** `pr_out_uint` takes an `unsigned int`. */
  function Uint(name: string, n: nat): Member {
    Member(name, Leaf(Number(n % TWO_32)))
  }

  /** `pr_out_u64`, which goes through `pr_out_uint`. */
  function U64(name: string, n: nat): Member {
    if n == U64_MAX then Str(name, "unlimited") else Uint(name, n)
  }

  /** The number that a reader takes a printed scalar for. */
  function NumberShown(m: Member): Option<nat> {
    if !m.value.Leaf? then None
    else
      match m.value.scalar
      case Number(n) => Some(n)
      case Text(t) => if t == "unlimited" then Some(U64_MAX) else None
  }

  /** A number is shown as it is exactly when it fits 32 bits or, where sizes are printed, is the
      greatest 64-bit number. */
  lemma NumbersShown(name: string, n: nat)
    ensures NumberShown(Uint(name, n)) == Some(n) <==> n < TWO_32
    ensures NumberShown(U64(name, n)) == Some(n) <==> n < TWO_32 || n == U64_MAX
  {
  }

  // ---------------------------------------------------------------- positions in the output

  /** Where a list of members or items starts: what is out by then, whether a comma is due, and how
      deep it is nested. */
  datatype Mark = Mark(out: seq<Token>, sep: bool, depth: nat)

  /** Since the mark, exactly the members `ms` have been written. */
  ghost predicate Wrote(jw: Writer, mk: Mark, ms: seq<Member>)
    reads jw
  {
    jw.out == mk.out + MemberTokens(mk.sep, ms) && jw.sep == (mk.sep || ms != []) && jw.depth == mk.depth
  }

  ghost predicate WroteItems(jw: Writer, mk: Mark, js: seq<Json>)
    reads jw
  {
    jw.out == mk.out + ItemTokens(mk.sep, js) && jw.sep == (mk.sep || js != []) && jw.depth == mk.depth
  }

  /** Inside the array `name` that follows the members `ms`. */
  ghost function InArray(mk: Mark, ms: seq<Member>, name: string): Mark {
    Mark(mk.out + MemberTokens(mk.sep, ms) + Separator(mk.sep || ms != []) + [Key(name)] + [OpenArray], false,
         mk.depth + 1)
  }

  /** Inside the object that follows the items `js`. */
  ghost function InObject(mk: Mark, js: seq<Json>): Mark {
    Mark(mk.out + ItemTokens(mk.sep, js) + Separator(mk.sep || js != []) + [OpenObject], false, mk.depth + 1)
  }

  /** `pr_out_str`, `pr_out_uint` and `pr_out_u64`. */
  method Append(jw: Writer, m: Member, ghost mk: Mark, ghost ms: seq<Member>)
    requires m.value.Leaf? && Wrote(jw, mk, ms)
    modifies jw
    ensures Wrote(jw, mk, ms + [m])
  {
    hide MemberTokens;
    MembersConcat(mk.sep, ms, [m]);
    jw.Field(m.name, m.value.scalar);
  }

  /** `pr_out_array_start`. */
  method ArrayStart(jw: Writer, name: string, ghost mk: Mark, ghost ms: seq<Member>)
    requires Wrote(jw, mk, ms)
    modifies jw
    ensures WroteItems(jw, InArray(mk, ms, name), [])
  {
    jw.Name(name);
    jw.Begin(OpenArray);
  }

  /** `pr_out_array_end`. */
  method ArrayEnd(jw: Writer, ghost name: string, ghost mk: Mark, ghost ms: seq<Member>, ghost js: seq<Json>)
    requires WroteItems(jw, InArray(mk, ms, name), js)
    modifies jw
    ensures Wrote(jw, mk, ms + [Member(name, Array(js))])
  {
    hide MemberTokens, ItemTokens;
    ghost var m := Member(name, Array(js));
    MembersConcat(mk.sep, ms, [m]);
    OneMember(mk.sep || ms != [], m);
    jw.End(CloseArray);
  }

  /** `pr_out_entry_start`. */
  method EntryStart(jw: Writer, ghost mk: Mark, ghost js: seq<Json>)
    requires WroteItems(jw, mk, js)
    modifies jw
    ensures Wrote(jw, InObject(mk, js), [])
  {
    jw.Begin(OpenObject);
  }

  /** `pr_out_entry_end`. */
  method EntryEnd(jw: Writer, ghost mk: Mark, ghost js: seq<Json>, ghost ms: seq<Member>)
    requires Wrote(jw, InObject(mk, js), ms)
    modifies jw
    ensures WroteItems(jw, mk, js + [Object(ms)])
  {
    hide MemberTokens, ItemTokens;
    ItemsConcat(mk.sep, js, [Object(ms)]);
    OneItem(mk.sep || js != [], Object(ms));
    jw.End(CloseObject);
  }

  /** Scalars one after the other. */
  method AppendAll(jw: Writer, ns: seq<Member>, ghost mk: Mark, ghost ms: seq<Member>)
    requires (forall i :: 0 <= i < |ns| ==> ns[i].value.Leaf?) && Wrote(jw, mk, ms)
    modifies jw
    ensures Wrote(jw, mk, ms + ns)
  {
    hide Wrote;
    assert ms + ns[..0] == ms;
    for i := 0 to |ns|
      invariant Wrote(jw, mk, ms + ns[..i])
    {
      Append(jw, ns[i], mk, ms + ns[..i]);
      assert ms + ns[..i] + [ns[i]] == ms + ns[..i + 1];
    }
    assert ns[..|ns|] == ns;
  }

  // ---------------------------------------------------------------- matches and actions

  /** A match or an action of a table. */
  datatype Op = Op(parses: bool, kind: string, header: string, field: string, mapping: Option<string>)

  function OpMembers(op: Op): (r: seq<Member>)
    ensures forall i :: 0 <= i < |r| ==> r[i].value.Leaf?
  {
    [Str("type", op.kind), Str("header", op.header), Str("field", op.field)]
      + if op.mapping.Some? then [Str("mapping", op.mapping.value)] else []
  }

  /** One object each, up to the first that cannot be parsed, which leaves an empty one. */
  function OpItems(ops: seq<Op>): seq<Json> {
    if ops == [] then []
    else if !ops[0].parses then [Object([])]
    else [Object(OpMembers(ops[0]))] + OpItems(ops[1..])
  }

  ghost predicate OpsParse(ops: seq<Op>) {
    forall i :: 0 <= i < |ops| ==> ops[i].parses
  }

  lemma OpItemsAt(js: seq<Json>, ops: seq<Op>, i: nat)
    requires i < |ops|
    ensures js + OpItems(ops[i..])
            == if ops[i].parses then js + [Object(OpMembers(ops[i]))] + OpItems(ops[i + 1..]) else js + [Object([])]
  {
    hide OpMembers;
    assert ops[i..][1..] == ops[i + 1..];
  }

  lemma NoOpItems(ops: seq<Op>)
    ensures OpItems(ops[|ops|..]) == []
  {
  }

  /** `dpipe_table_matches_show` and `dpipe_table_actions_show`. */
  method OpsShow(jw: Writer, ops: seq<Op>, ghost mk: Mark) returns (ok: bool)
    requires WroteItems(jw, mk, [])
    modifies jw
    ensures WroteItems(jw, mk, OpItems(ops))
    ensures ok <==> OpsParse(ops)
  {
    hide Wrote, WroteItems, InObject, OpItems, OpMembers;
    ok := true;
    ghost var js: seq<Json> := [];
    var i := 0;
    assert ops[0..] == ops && [] + OpItems(ops) == OpItems(ops);
    while i < |ops| && ok
      invariant i <= |ops| && WroteItems(jw, mk, js)
      invariant OpItems(ops) == if ok then js + OpItems(ops[i..]) else js
      invariant ok ==> forall k :: 0 <= k < i ==> ops[k].parses
      invariant !ok ==> !OpsParse(ops)
    {
      OpItemsAt(js, ops, i);
      EntryStart(jw, mk, js);
      if !ops[i].parses {
        EntryEnd(jw, mk, js, []);
        js := js + [Object([])];
        ok := false;
      } else {
        AppendAll(jw, OpMembers(ops[i]), InObject(mk, js), []);
        assert [] + OpMembers(ops[i]) == OpMembers(ops[i]);
        EntryEnd(jw, mk, js, OpMembers(ops[i]));
        js := js + [Object(OpMembers(ops[i]))];
      }
      i := i + 1;
    }
    if ok {
      NoOpItems(ops);
      assert js + [] == js;
    }
  }

  // ---------------------------------------------------------------- tables

  datatype Usage = Usage(path: Option<string>, units: nat)

  /** A table attribute; `complete` says that it parses and that nothing it must have is missing. */
  datatype Table = Table(complete: bool, name: string, size: nat, counters: bool, usage: Option<Usage>,
                         matches: seq<Op>, actions: seq<Op>)

  function Bool(b: bool): string {
    if b then "true" else "false"
  }

  function TableScalars(t: Table): (r: seq<Member>)
    ensures forall i :: 0 <= i < |r| ==> r[i].value.Leaf?
  {
    [Str("name", t.name), Uint("size", t.size), Str("counters_enabled", Bool(t.counters))]
      + if t.usage.None? then []
        else (if t.usage.value.path.Some? then [Str("resource_path", t.usage.value.path.value)] else [])
             + [Uint("resource_units", t.usage.value.units)]
  }

  ghost function TableMembers(t: Table): seq<Member> {
    if !t.complete then []
    else TableScalars(t) + [Member("match", Array(OpItems(t.matches)))]
         + if OpsParse(t.matches) then [Member("action", Array(OpItems(t.actions)))] else []
  }

  ghost predicate TableOk(t: Table) {
    t.complete && OpsParse(t.matches) && OpsParse(t.actions)
  }

  /** `dpipe_table_show`. */
  method TableShow(jw: Writer, t: Table, ghost mk: Mark) returns (ok: bool)
    requires Wrote(jw, mk, [])
    modifies jw
    ensures Wrote(jw, mk, TableMembers(t))
    ensures ok <==> TableOk(t)
  {
    hide Wrote, WroteItems, InArray, OpsParse, OpItems, TableScalars;
    ok := t.complete;
    if ok {
      ghost var ms := TableScalars(t);
      AppendAll(jw, TableScalars(t), mk, []);
      assert [] + ms == ms;
      ArrayStart(jw, "match", mk, ms);
      ok := OpsShow(jw, t.matches, InArray(mk, ms, "match"));
      ArrayEnd(jw, "match", mk, ms, OpItems(t.matches));
      if ok {
        ms := ms + [Member("match", Array(OpItems(t.matches)))];
        ArrayStart(jw, "action", mk, ms);
        ok := OpsShow(jw, t.actions, InArray(mk, ms, "action"));
        ArrayEnd(jw, "action", mk, ms, OpItems(t.actions));
      } else {
        assert TableMembers(t) == ms + [Member("match", Array(OpItems(t.matches)))];
      }
    }
  }

  // ---------------------------------------------------------------- table entries

  /** A value of an entry: the match or action it belongs to, and what is printed of it. */
  datatype Value = Value(complete: bool, op: Op, mapping: Option<nat>, mask: Option<Scalar>, value: Option<Scalar>)

  function ValueMembers(v: Value): (r: seq<Member>)
    ensures forall i :: 0 <= i < |r| ==> r[i].value.Leaf?
  {
    OpMembers(v.op)
      + (if v.mapping.Some? then [Uint("mapping_value", v.mapping.value)] else [])
      + (if v.mask.Some? then [Member("value_mask", Leaf(v.mask.value))] else [])
      + if v.value.Some? then [Member("value", Leaf(v.value.value))] else []
  }

  predicate ValueOk(v: Value) {
    v.complete && v.op.parses
  }

  /** Up to the first bad value, which leaves an empty object or nothing. */
  function ValueItems(vs: seq<Value>): seq<Json> {
    if vs == [] then []
    else if !vs[0].complete then []
    else if !vs[0].op.parses then [Object([])]
    else [Object(ValueMembers(vs[0]))] + ValueItems(vs[1..])
  }

  ghost predicate ValuesOk(vs: seq<Value>) {
    forall i :: 0 <= i < |vs| ==> ValueOk(vs[i])
  }

  lemma ValueItemsAt(js: seq<Json>, vs: seq<Value>, i: nat)
    requires i < |vs|
    ensures js + ValueItems(vs[i..])
            == if !vs[i].complete then js
               else if !vs[i].op.parses then js + [Object([])]
               else js + [Object(ValueMembers(vs[i]))] + ValueItems(vs[i + 1..])
  {
    hide ValueMembers;
    assert vs[i..][1..] == vs[i + 1..];
  }

  lemma NoValueItems(vs: seq<Value>)
    ensures ValueItems(vs[|vs|..]) == []
  {
  }

  /** `dpipe_tables_match_values_show` and `dpipe_tables_action_values_show`. */
  method ValuesShow(jw: Writer, vs: seq<Value>, ghost mk: Mark) returns (ok: bool)
    requires WroteItems(jw, mk, [])
    modifies jw
    ensures WroteItems(jw, mk, ValueItems(vs))
    ensures ok <==> ValuesOk(vs)
  {
    hide Wrote, WroteItems, InObject, ValueItems, ValueMembers;
    ok := true;
    ghost var js: seq<Json> := [];
    var i := 0;
    assert vs[0..] == vs && [] + ValueItems(vs) == ValueItems(vs);
    while i < |vs| && ok
      invariant i <= |vs| && WroteItems(jw, mk, js)
      invariant ValueItems(vs) == if ok then js + ValueItems(vs[i..]) else js
      invariant ok ==> forall k :: 0 <= k < i ==> ValueOk(vs[k])
      invariant !ok ==> !ValuesOk(vs)
    {
      ValueItemsAt(js, vs, i);
      ok := ValueOk(vs[i]);
      if vs[i].complete {
        EntryStart(jw, mk, js);
        if vs[i].op.parses {
          AppendAll(jw, ValueMembers(vs[i]), InObject(mk, js), []);
          assert [] + ValueMembers(vs[i]) == ValueMembers(vs[i]);
          EntryEnd(jw, mk, js, ValueMembers(vs[i]));
          js := js + [Object(ValueMembers(vs[i]))];
        } else {
          EntryEnd(jw, mk, js, []);
          js := js + [Object([])];
        }
      }
      i := i + 1;
    }
    if ok {
      NoValueItems(vs);
      assert js + [] == js;
    }
  }

  datatype Entry = Entry(complete: bool, index: nat, counter: Option<nat>, matches: seq<Value>, actions: seq<Value>)

  function EntryScalars(e: Entry): (r: seq<Member>)
    ensures forall i :: 0 <= i < |r| ==> r[i].value.Leaf?
  {
    [Uint("index", e.index)] + if e.counter.Some? then [Uint("counter", e.counter.value)] else []
  }

  ghost function EntryMembers(e: Entry): seq<Member> {
    if !e.complete then []
    else EntryScalars(e) + [Member("match_value", Array(ValueItems(e.matches)))]
         + if ValuesOk(e.matches) then [Member("action_value", Array(ValueItems(e.actions)))] else []
  }

  ghost predicate EntryOk(e: Entry) {
    e.complete && ValuesOk(e.matches) && ValuesOk(e.actions)
  }

  /** `dpipe_entry_show`. */
  method EntryShow(jw: Writer, e: Entry, ghost mk: Mark) returns (ok: bool)
    requires Wrote(jw, mk, [])
    modifies jw
    ensures Wrote(jw, mk, EntryMembers(e))
    ensures ok <==> EntryOk(e)
  {
    hide Wrote, WroteItems, InArray, ValuesOk, ValueItems, EntryScalars;
    ok := e.complete;
    if ok {
      ghost var ms := EntryScalars(e);
      AppendAll(jw, EntryScalars(e), mk, []);
      assert [] + ms == ms;
      ArrayStart(jw, "match_value", mk, ms);
      ok := ValuesShow(jw, e.matches, InArray(mk, ms, "match_value"));
      ArrayEnd(jw, "match_value", mk, ms, ValueItems(e.matches));
      if ok {
        ms := ms + [Member("match_value", Array(ValueItems(e.matches)))];
        ArrayStart(jw, "action_value", mk, ms);
        ok := ValuesShow(jw, e.actions, InArray(mk, ms, "action_value"));
        ArrayEnd(jw, "action_value", mk, ms, ValueItems(e.actions));
      } else {
        assert EntryMembers(e) == ms + [Member("match_value", Array(ValueItems(e.matches)))];
      }
    }
  }

  // ---------------------------------------------------------------- resources

  /** A resource with what hangs below it. `path` is there in verbose mode. */
  datatype Resource = Resource(id: nat, name: string, path: Option<string>, size: nat, newSize: nat, occ: Option<nat>,
                               unit: string, min: nat, max: nat, gran: nat, valid: bool, kids: seq<Resource>)

  /** A known table and the resource it uses. */
  datatype TableUse = TableUse(name: string, resource: Option<nat>)

  function SizeLimits(r: Resource): seq<Member> {
    if r.min != r.max then [Uint("size_min", r.min), U64("size_max", r.max), Uint("size_gran", r.gran)] else []
  }

  function ResourceScalars(r: Resource): (ms: seq<Member>)
    ensures forall i :: 0 <= i < |ms| ==> ms[i].value.Leaf?
  {
    [Str("name", r.name)]
      + (if r.path.Some? then [Str("resource_path", r.path.value)] else [])
      + [U64("size", r.size)]
      + (if r.size != r.newSize then [U64("size_new", r.newSize)] else [])
      + (if r.occ.Some? then [Uint("occ", r.occ.value)] else [])
      + [Str("unit", r.unit)]
      + SizeLimits(r)
  }

  function UseItems(tables: seq<TableUse>, id: nat): seq<Json> {
    if tables == [] then []
    else
      (if tables[0].resource == Some(id) then [Object([Str("table_name", tables[0].name)])] else [])
      + UseItems(tables[1..], id)
  }

  function UseMember(tables: seq<TableUse>, id: nat): Member {
    if UseItems(tables, id) == [] then Str("dpipe_tables", "none")
    else Member("dpipe_tables", Array(UseItems(tables, id)))
  }

  function ResourceMembers(r: Resource, tables: seq<TableUse>, pending: bool): seq<Member>
    decreases r, 0
  {
    ResourceScalars(r) + [UseMember(tables, r.id)]
      + if r.kids == [] then []
        else (if pending then [Str("size_valid", Bool(r.valid))] else [])
             + [Member("resources", Array(ResourceItems(r.kids, tables, pending)))]
  }

  function ResourceItems(rs: seq<Resource>, tables: seq<TableUse>, pending: bool): seq<Json>
    decreases rs, 1
  {
    if rs == [] then [] else [Object(ResourceMembers(rs[0], tables, pending))] + ResourceItems(rs[1..], tables, pending)
  }

  lemma UseItemsAt(js: seq<Json>, tables: seq<TableUse>, id: nat, i: nat)
    requires i < |tables|
    ensures js + UseItems(tables[i..], id)
            == js + (if tables[i].resource == Some(id) then [Object([Str("table_name", tables[i].name)])] else [])
              + UseItems(tables[i + 1..], id)
  {
    assert tables[i..][1..] == tables[i + 1..];
  }

  lemma {:induction false} NoUse(tables: seq<TableUse>, id: nat)
    ensures UseItems(tables, id) == [] <==> forall i :: 0 <= i < |tables| ==> tables[i].resource != Some(id)
  {
    if tables != [] {
      NoUse(tables[1..], id);
      assert forall i :: 0 < i < |tables| ==> tables[i] == tables[1..][i - 1];
    }
  }

  /** The loops over the tables in `resource_show`: one to see whether there is an array, one to fill it. */
  method UsesShow(jw: Writer, tables: seq<TableUse>, id: nat, ghost mk: Mark, ghost ms: seq<Member>)
    requires Wrote(jw, mk, ms)
    modifies jw
    ensures Wrote(jw, mk, ms + [UseMember(tables, id)])
  {
    hide Wrote, WroteItems, InArray, InObject, UseItems, Str;
    var used := false;
    for i := 0 to |tables|
      invariant used <==> exists k :: 0 <= k < i && tables[k].resource == Some(id)
    {
      if tables[i].resource == Some(id) {
        used := true;
      }
    }
    NoUse(tables, id);
    if used {
      ArrayStart(jw, "dpipe_tables", mk, ms);
      UsesLoop(jw, tables, id, InArray(mk, ms, "dpipe_tables"));
      ArrayEnd(jw, "dpipe_tables", mk, ms, UseItems(tables, id));
    } else {
      StrIsLeaf("dpipe_tables", "none");
      Append(jw, Str("dpipe_tables", "none"), mk, ms);
    }
  }

  lemma StrIsLeaf(name: string, text: string)
    ensures Str(name, text).value.Leaf?
  {
  }

  method UsesLoop(jw: Writer, tables: seq<TableUse>, id: nat, ghost mk: Mark)
    requires WroteItems(jw, mk, [])
    modifies jw
    ensures WroteItems(jw, mk, UseItems(tables, id))
  {
    hide Wrote, WroteItems, InObject, UseItems, Str;
    ghost var js: seq<Json> := [];
    assert tables[0..] == tables && [] + UseItems(tables, id) == UseItems(tables, id);
    for i := 0 to |tables|
      invariant WroteItems(jw, mk, js)
      invariant UseItems(tables, id) == js + UseItems(tables[i..], id)
    {
      UseItemsAt(js, tables, id, i);
      if tables[i].resource == Some(id) {
        var m := Str("table_name", tables[i].name);
        StrIsLeaf("table_name", tables[i].name);
        EntryStart(jw, mk, js);
        Append(jw, m, InObject(mk, js), []);
        assert [] + [m] == [m];
        EntryEnd(jw, mk, js, [m]);
        js := js + [Object([m])];
      } else {
        assert js + [] == js;
      }
    }
    NoneLeft(js, tables, id);
  }

  lemma NoneLeft(js: seq<Json>, tables: seq<TableUse>, id: nat)
    ensures js + UseItems(tables[|tables|..], id) == js
  {
  }

  /** `resource_show`, which calls itself for the children. */
  method ResourceShow(jw: Writer, r: Resource, tables: seq<TableUse>, pending: bool, ghost mk: Mark)
    requires Wrote(jw, mk, [])
    modifies jw
    decreases r, 0
    ensures Wrote(jw, mk, ResourceMembers(r, tables, pending))
  {
    hide Wrote, WroteItems, InArray, ResourceScalars, ResourceItems, UseMember, Str;
    ghost var ms := ResourceScalars(r);
    AppendAll(jw, ResourceScalars(r), mk, []);
    assert [] + ms == ms;
    UsesShow(jw, tables, r.id, mk, ms);
    ms := ms + [UseMember(tables, r.id)];
    if r.kids != [] {
      if pending {
        StrIsLeaf("size_valid", Bool(r.valid));
        Append(jw, Str("size_valid", Bool(r.valid)), mk, ms);
        ms := ms + [Str("size_valid", Bool(r.valid))];
      }
      ArrayStart(jw, "resources", mk, ms);
      KidsShow(jw, r.kids, tables, pending, InArray(mk, ms, "resources"));
      ArrayEnd(jw, "resources", mk, ms, ResourceItems(r.kids, tables, pending));
    }
    MembersOfResource(r, tables, pending);
  }

  lemma MembersOfResource(r: Resource, tables: seq<TableUse>, pending: bool)
    ensures ResourceMembers(r, tables, pending)
            == if r.kids == [] then ResourceScalars(r) + [UseMember(tables, r.id)]
               else if pending then ResourceScalars(r) + [UseMember(tables, r.id)] + [Str("size_valid", Bool(r.valid))]
                                    + [Member("resources", Array(ResourceItems(r.kids, tables, pending)))]
               else ResourceScalars(r) + [UseMember(tables, r.id)]
                    + [Member("resources", Array(ResourceItems(r.kids, tables, pending)))]
  {
    hide ResourceScalars, UseMember, Str, ResourceItems;
  }

  /** The loop over the children. */
  method KidsShow(jw: Writer, rs: seq<Resource>, tables: seq<TableUse>, pending: bool, ghost mk: Mark)
    requires WroteItems(jw, mk, [])
    modifies jw
    decreases rs, 1
    ensures WroteItems(jw, mk, ResourceItems(rs, tables, pending))
  {
    hide Wrote, WroteItems, InObject, ResourceItems, ResourceMembers;
    ghost var js: seq<Json> := [];
    assert rs[0..] == rs && [] + ResourceItems(rs, tables, pending) == ResourceItems(rs, tables, pending);
    for i := 0 to |rs|
      invariant WroteItems(jw, mk, js)
      invariant ResourceItems(rs, tables, pending) == js + ResourceItems(rs[i..], tables, pending)
    {
      KidsAt(js, rs, tables, pending, i);
      EntryStart(jw, mk, js);
      ResourceShow(jw, rs[i], tables, pending, InObject(mk, js));
      EntryEnd(jw, mk, js, ResourceMembers(rs[i], tables, pending));
      js := js + [Object(ResourceMembers(rs[i], tables, pending))];
    }
    NoKids(js, rs, tables, pending);
  }

  lemma KidsAt(js: seq<Json>, rs: seq<Resource>, tables: seq<TableUse>, pending: bool, i: nat)
    requires i < |rs|
    ensures js + ResourceItems(rs[i..], tables, pending)
            == js + [Object(ResourceMembers(rs[i], tables, pending))] + ResourceItems(rs[i + 1..], tables, pending)
  {
    hide ResourceMembers;
    assert rs[i..][1..] == rs[i + 1..];
  }

  lemma NoKids(js: seq<Json>, rs: seq<Resource>, tables: seq<TableUse>, pending: bool)
    ensures js + ResourceItems(rs[|rs|..], tables, pending) == js
  {
  }
}
