/** A section of `devlink` output: one object per report, grouped into an array per device or port.
    The array stays open until a report for another handle comes or the section ends; `arr_last`
    remembers whose it is. */
module DevlinkSections {
  import opened Wrappers
  import opened JsonWriter
  import opened DevlinkReports
  import opened ReportNames
  import opened Bytes
  import PortHandle
  import JsonStrings

  datatype Handle = Device(bus: string, dev: string) | Port(bus: string, dev: string, index: u32)

  /** How a handle is printed: `bus/dev`, or what the port printer makes of it. */
  type Printer = Handle -> string

  /** An array of reports under one handle. */
  datatype Group = Group(handle: Handle, items: seq<Json>)

  function HandleText(name: Printer, h: Handle): string {
    name(h)
  }

  ghost function GroupMembers(name: Printer, gs: seq<Group>): seq<Member> {
    if gs == [] then []
    else GroupMembers(name, gs[..|gs| - 1]) + [Member(HandleText(name, gs[|gs| - 1].handle), Array(gs[|gs| - 1].items))]
  }

  // ---------------------------------------------------------------- positions in a section

  /** Inside the two objects that start a section. */
  ghost function InSection(section: string): Mark {
    Mark([OpenObject] + [Key(section)] + [OpenObject], false, 2)
  }

  /** Inside the array of the last group. */
  ghost function InLast(name: Printer, section: string, gs: seq<Group>): Mark
    requires gs != []
  {
    InArray(InSection(section), GroupMembers(name, gs[..|gs| - 1]), HandleText(name, gs[|gs| - 1].handle))
  }

  ghost function LastHandle(gs: seq<Group>): Option<Handle> {
    if gs == [] then None else Some(gs[|gs| - 1].handle)
  }

  class Section {
    const jw: Writer
    const name: Printer
    var arrLast: Option<Handle>

    constructor (name: Printer)
      ensures arrLast == None && fresh(jw) && jw.out == [] && jw.depth == 0 && !jw.sep && this.name == name
    {
      this.name := name;
      arrLast := None;
      jw := new Writer();
    }

    /** Between two reports: the groups `gs` are out, and the last one is still open. */
    ghost predicate At(section: string, gs: seq<Group>)
      reads this, jw
    {
      && arrLast == LastHandle(gs)
      && if gs == [] then Wrote(jw, InSection(section), [])
         else WroteItems(jw, InLast(name, section, gs), gs[|gs| - 1].items)
    }

    /** `pr_out_section_start`. */
    method Start(section: string)
      requires arrLast == None && jw.out == [] && jw.depth == 0 && !jw.sep
      modifies this, jw
      ensures At(section, [])
    {
      jw.Begin(OpenObject);
      jw.Name(section);
      jw.Begin(OpenObject);
    }

    /** `pr_out_section_end`. */
    method End(section: string, ghost gs: seq<Group>)
      requires At(section, gs)
      modifies this, jw
      ensures jw.out == Tokens(Object([Member(section, Object(GroupMembers(name, gs)))])) && jw.depth == 0
    {
      hide Wrote, WroteItems, InSection, HandleText, Tokens, MemberTokens;
      if arrLast.Some? {
        ghost var last := gs[|gs| - 1];
        ArrayEnd(jw, HandleText(name, last.handle), InSection(section), GroupMembers(name, gs[..|gs| - 1]), last.items);
      }
      Closing(jw, section, GroupMembers(name, gs));
      jw.End(CloseObject);
      jw.End(CloseObject);
    }

    /** `pr_out_handle_start_arr` and `pr_out_port_handle_start_arr`. */
    method HandleStart(h: Handle, section: string, ghost gs: seq<Group>) returns (ghost hs: seq<Group>)
      requires At(section, gs)
      modifies this, jw
      ensures arrLast == Some(h) && hs != []
      ensures hs == (if LastHandle(gs) == Some(h) then gs else gs + [Group(h, [])])
      ensures Wrote(jw, InObject(InLast(name, section, hs), hs[|hs| - 1].items), [])
    {
      hide Wrote, WroteItems, InSection, InObject, HandleText, GroupMembers;
      if arrLast == Some(h) {
        hs := gs;
      } else {
        hs := gs + [Group(h, [])];
        assert hs[..|gs|] == gs;
        GroupsNext(name, gs);
        if arrLast.Some? {
          ghost var last := gs[|gs| - 1];
          ArrayEnd(jw, HandleText(name, last.handle), InSection(section), GroupMembers(name, gs[..|gs| - 1]),
                   last.items);
        }
        ArrayStart(jw, HandleText(name, h), InSection(section), GroupMembers(name, gs));
        arrLast := Some(h);
      }
      EntryStart(jw, InLast(name, section, hs), hs[|hs| - 1].items);
    }

    /** `pr_out_handle_end`. */
    method HandleEnd(section: string, ghost hs: seq<Group>, ghost ms: seq<Member>)
      requires hs != [] && arrLast == LastHandle(hs)
      requires Wrote(jw, InObject(InLast(name, section, hs), hs[|hs| - 1].items), ms)
      modifies jw
      ensures At(section, WithItem(hs, Object(ms)))
    {
      hide Wrote, WroteItems, InSection, InObject, InArray, GroupMembers;
      ghost var last := hs[|hs| - 1];
      SameFront(hs, Object(ms));
      EntryEnd(jw, InLast(name, section, hs), last.items, ms);
    }
  }

  /** The last group with one more report. */
  ghost function WithItem(gs: seq<Group>, j: Json): (r: seq<Group>)
    requires gs != []
    ensures |r| == |gs|
  {
    gs[..|gs| - 1] + [Group(gs[|gs| - 1].handle, gs[|gs| - 1].items + [j])]
  }

  lemma SameFront(gs: seq<Group>, j: Json)
    requires gs != []
    ensures var r := WithItem(gs, j);
            && r[..|r| - 1] == gs[..|gs| - 1]
            && r[|r| - 1] == Group(gs[|gs| - 1].handle, gs[|gs| - 1].items + [j])
  {
  }

  lemma GroupsNext(name: Printer, gs: seq<Group>)
    ensures GroupMembers(name, []) == []
    ensures gs != [] ==> GroupMembers(name, gs) == GroupMembers(name, gs[..|gs| - 1])
                         + [Member(HandleText(name, gs[|gs| - 1].handle), Array(gs[|gs| - 1].items))]
  {
    hide HandleText;
  }

  /** Two braces complete the document. */
  lemma Closing(jw: Writer, section: string, ms: seq<Member>)
    requires Wrote(jw, InSection(section), ms)
    ensures jw.depth == 2
    ensures jw.out + [CloseObject] + [CloseObject] == Tokens(Object([Member(section, Object(ms))]))
  {
    OneMember(false, Member(section, Object(ms)));
  }

  // ---------------------------------------------------------------- one callback

  /** What is printed under a handle in one object. */
  datatype Report = TableReport(table: Table) | EntryReport(entry: Entry)
                  | ResourceReport(resource: Resource, tables: seq<TableUse>, pending: bool)
                  | ScalarReport(fields: seq<(string, Scalar)>)

  function Fields(fs: seq<(string, Scalar)>): (r: seq<Member>)
    ensures forall i :: 0 <= i < |r| ==> r[i].value.Leaf?
  {
    if fs == [] then [] else [Member(fs[0].0, Leaf(fs[0].1))] + Fields(fs[1..])
  }

  ghost function ReportMembers(r: Report): seq<Member> {
    match r
    case TableReport(t) => TableMembers(t)
    case EntryReport(e) => EntryMembers(e)
    case ResourceReport(x, tables, pending) => ResourceMembers(x, tables, pending)
    case ScalarReport(fs) => Fields(fs)
  }

  ghost predicate ReportOk(r: Report) {
    match r
    case TableReport(t) => TableOk(t)
    case EntryReport(e) => EntryOk(e)
    case _ => true
  }

  method ReportShow(jw: Writer, r: Report, ghost mk: Mark) returns (ok: bool)
    requires Wrote(jw, mk, [])
    modifies jw
    ensures Wrote(jw, mk, ReportMembers(r))
    ensures ok <==> ReportOk(r)
  {
    hide Wrote, TableMembers, EntryMembers, ResourceMembers, Fields, TableOk, EntryOk;
    match r
    case TableReport(t) => ok := TableShow(jw, t, mk);
    case EntryReport(e) => ok := EntryShow(jw, e, mk);
    case ResourceReport(x, tables, pending) =>
      ResourceShow(jw, x, tables, pending, mk);
      ok := true;
    case ScalarReport(fs) =>
      AppendAll(jw, Fields(fs), mk, []);
      assert [] + Fields(fs) == Fields(fs);
      ok := true;
  }

  /** A report that went out under a handle. */
  datatype Shown = Shown(handle: Handle, members: seq<Member>)

  /** A message of the dump; one that lacks attributes is refused before anything is printed. */
  datatype Message = Message(complete: bool, handle: Handle, reports: seq<Report>)

  /** The reports of a message that go out: up to the first bad one, and that one too. */
  ghost function ShownOf(h: Handle, rs: seq<Report>): seq<Shown> {
    if rs == [] then []
    else [Shown(h, ReportMembers(rs[0]))] + if ReportOk(rs[0]) then ShownOf(h, rs[1..]) else []
  }

  ghost predicate ReportsOk(rs: seq<Report>) {
    forall i :: 0 <= i < |rs| ==> ReportOk(rs[i])
  }

  /** What a dump prints: message by message, until one is refused or goes bad. */
  ghost function ShownAll(ms: seq<Message>): seq<Shown> {
    if ms == [] || !ms[0].complete then []
    else ShownOf(ms[0].handle, ms[0].reports) + if ReportsOk(ms[0].reports) then ShownAll(ms[1..]) else []
  }

  /** One more report: in the last group when it has the same handle, in a new one otherwise. */
  ghost function AddTo(gs: seq<Group>, s: Shown): seq<Group> {
    WithItem(if LastHandle(gs) == Some(s.handle) then gs else gs + [Group(s.handle, [])], Object(s.members))
  }

  ghost function Grouped(ss: seq<Shown>): seq<Group> {
    if ss == [] then [] else AddTo(Grouped(ss[..|ss| - 1]), ss[|ss| - 1])
  }

  lemma GroupedNext(ss: seq<Shown>, s: Shown)
    ensures Grouped(ss + [s]) == AddTo(Grouped(ss), s)
  {
    assert (ss + [s])[..|ss|] == ss;
  }

  lemma ShownAt(done: seq<Shown>, h: Handle, rs: seq<Report>, i: nat)
    requires i < |rs|
    ensures done + ShownOf(h, rs[i..])
            == if ReportOk(rs[i]) then done + [Shown(h, ReportMembers(rs[i]))] + ShownOf(h, rs[i + 1..])
               else done + [Shown(h, ReportMembers(rs[i]))]
  {
    hide ReportMembers, ReportOk;
    assert rs[i..][1..] == rs[i + 1..];
  }

  lemma NoneShown(h: Handle, rs: seq<Report>)
    ensures ShownOf(h, rs[|rs|..]) == []
  {
  }

  /** A callback: `dpipe_tables_show`, `dpipe_table_entries_show`, `resources_show` or a single report. */
  method Callback(sec: Section, section: string, h: Handle, rs: seq<Report>, ghost before: seq<Shown>)
    returns (ok: bool)
    requires sec.At(section, Grouped(before))
    modifies sec, sec.jw
    ensures sec.At(section, Grouped(before + ShownOf(h, rs)))
    ensures ok <==> ReportsOk(rs)
  {
    hide Section.At, Wrote, InObject, InLast, Grouped, ShownOf, ReportMembers, ReportOk, WithItem, LastHandle;
    ok := true;
    ghost var done := before;
    var i := 0;
    assert rs[0..] == rs;
    while i < |rs| && ok
      invariant i <= |rs| && sec.At(section, Grouped(done))
      invariant before + ShownOf(h, rs) == if ok then done + ShownOf(h, rs[i..]) else done
      invariant ok ==> forall k :: 0 <= k < i ==> ReportOk(rs[k])
      invariant !ok ==> !ReportsOk(rs)
    {
      ShownAt(done, h, rs, i);
      ghost var s := Shown(h, ReportMembers(rs[i]));
      GroupedNext(done, s);
      ghost var hs := sec.HandleStart(h, section, Grouped(done));
      LastOf(Grouped(done), h);
      ok := ReportShow(sec.jw, rs[i], InObject(InLast(sec.name, section, hs), hs[|hs| - 1].items));
      sec.HandleEnd(section, hs, ReportMembers(rs[i]));
      done := done + [s];
      i := i + 1;
    }
    if ok {
      NoneShown(h, rs);
      assert done + [] == done;
    }
  }

  lemma LastOf(gs: seq<Group>, h: Handle)
    ensures LastHandle(if LastHandle(gs) == Some(h) then gs else gs + [Group(h, [])]) == Some(h)
  {
  }

  // ---------------------------------------------------------------- a whole section

  ghost function Document(name: Printer, section: string, ss: seq<Shown>): Json {
    Object([Member(section, Object(GroupMembers(name, Grouped(ss))))])
  }

  lemma MessagesAt(done: seq<Shown>, ms: seq<Message>, i: nat)
    requires i < |ms|
    ensures done + ShownAll(ms[i..])
            == if !ms[i].complete then done
               else if ReportsOk(ms[i].reports) then done + ShownOf(ms[i].handle, ms[i].reports) + ShownAll(ms[i + 1..])
               else done + ShownOf(ms[i].handle, ms[i].reports)
  {
    hide ShownOf, ReportsOk;
    assert ms[i..][1..] == ms[i + 1..];
  }

  lemma NoMessages(ms: seq<Message>)
    ensures ShownAll(ms[|ms|..]) == []
  {
  }

  /** A section from a fresh context: whatever the messages, and wherever they go bad, the output is
      one complete document, and it is the document of the reports shown. */
  method RunSection(name: Printer, section: string, ms: seq<Message>) returns (sec: Section)
    ensures sec.jw.depth == 0
    ensures Parse(sec.jw.out) == Some(Document(name, section, ShownAll(ms)))
  {
    hide *;
    sec := new Section(name);
    sec.Start(section);
    NothingGrouped();
    ghost var done: seq<Shown> := [];
    var ok := true;
    var i := 0;
    assert ms[0..] == ms && [] + ShownAll(ms) == ShownAll(ms);
    while i < |ms| && ok
      invariant i <= |ms| && sec.name == name && fresh(sec) && fresh(sec.jw) && sec.At(section, Grouped(done))
      invariant ShownAll(ms) == if ok then done + ShownAll(ms[i..]) else done
    {
      MessagesAt(done, ms, i);
      ok := ms[i].complete;
      if ok {
        ok := Callback(sec, section, ms[i].handle, ms[i].reports, done);
        done := done + ShownOf(ms[i].handle, ms[i].reports);
      }
      i := i + 1;
    }
    if ok {
      NoMessages(ms);
      assert done + [] == done;
    }
    sec.End(section, Grouped(done));
    DocumentMeans(name, section, done);
    ParseWritten(Document(name, section, ShownAll(ms)));
  }

  lemma DocumentMeans(name: Printer, section: string, ss: seq<Shown>)
    ensures Document(name, section, ss) == Object([Member(section, Object(GroupMembers(name, Grouped(ss))))])
  {
  }

  lemma NothingGrouped()
    ensures Grouped([]) == []
  {
  }

  // ---------------------------------------------------------------- the groups

  ghost function Under<K>(k: K, js: seq<Json>): seq<(K, Json)> {
    seq(|js|, i requires 0 <= i < |js| => (k, js[i]))
  }

  /** The reports in the groups, each with the handle of its group. */
  ghost function Reports(gs: seq<Group>): seq<(Handle, Json)> {
    if gs == [] then [] else Reports(gs[..|gs| - 1]) + Under(gs[|gs| - 1].handle, gs[|gs| - 1].items)
  }

  ghost function AsReports(ss: seq<Shown>): seq<(Handle, Json)> {
    seq(|ss|, i requires 0 <= i < |ss| => (ss[i].handle, Object(ss[i].members)))
  }

  lemma ReportsAdd(gs: seq<Group>, s: Shown)
    ensures Reports(AddTo(gs, s)) == Reports(gs) + [(s.handle, Object(s.members))]
  {
    hide Reports;
    var hs := if LastHandle(gs) == Some(s.handle) then gs else gs + [Group(s.handle, [])];
    var r := AddTo(gs, s);
    var last := hs[|hs| - 1];
    SameFront(hs, Object(s.members));
    ReportsLast(r);
    ReportsLast(hs);
    assert Under(s.handle, last.items + [Object(s.members)])
        == Under(s.handle, last.items) + [(s.handle, Object(s.members))];
    if hs != gs {
      assert hs[..|gs|] == gs && Reports(gs) + Under(s.handle, []) == Reports(gs);
    }
  }

  lemma ReportsLast(gs: seq<Group>)
    requires gs != []
    ensures Reports(gs) == Reports(gs[..|gs| - 1]) + Under(gs[|gs| - 1].handle, gs[|gs| - 1].items)
  {
  }

  /** Grouping loses no report, invents none, keeps their order and puts each under its own handle. */
  lemma {:induction false} GroupingKeepsReports(ss: seq<Shown>)
    ensures Reports(Grouped(ss)) == AsReports(ss)
  {
    hide Reports, AddTo;
    if ss == [] {
      NoReports();
    } else {
      var init, s := ss[..|ss| - 1], ss[|ss| - 1];
      GroupingKeepsReports(init);
      ReportsAdd(Grouped(init), s);
      assert AsReports(ss) == AsReports(init) + [(s.handle, Object(s.members))];
    }
  }

  lemma NoReports()
    ensures Reports([]) == []
  {
  }

  /** All reports of a handle come in one run. */
  ghost predicate Contiguous(ss: seq<Shown>) {
    forall i, j, k :: 0 <= i < j < k < |ss| && ss[i].handle == ss[k].handle ==> ss[j].handle == ss[i].handle
  }

  ghost predicate HandlesDiffer(gs: seq<Group>) {
    forall i, j :: 0 <= i < j < |gs| ==> gs[i].handle != gs[j].handle
  }

  ghost predicate HasGroup(gs: seq<Group>, h: Handle) {
    exists i :: 0 <= i < |gs| && gs[i].handle == h
  }

  ghost predicate HasShown(ss: seq<Shown>, h: Handle) {
    exists i :: 0 <= i < |ss| && ss[i].handle == h
  }

  lemma AddToHandle(gs: seq<Group>, s: Shown)
    ensures var r := AddTo(gs, s);
            && |r| == (if LastHandle(gs) == Some(s.handle) then |gs| else |gs| + 1) > 0
            && r[|r| - 1].handle == s.handle && LastHandle(r) == Some(s.handle)
            && forall i :: 0 <= i < |gs| ==> r[i].handle == gs[i].handle
  {
  }

  lemma AddToGroups(gs: seq<Group>, s: Shown, h: Handle)
    ensures HasGroup(AddTo(gs, s), h) <==> HasGroup(gs, h) || h == s.handle
  {
    hide AddTo;
    var r := AddTo(gs, s);
    AddToHandle(gs, s);
    assert r[|r| - 1].handle == s.handle;
    if i :| 0 <= i < |gs| && gs[i].handle == h {
      assert r[i].handle == h;
    }
  }

  lemma AddToDiffer(gs: seq<Group>, s: Shown)
    ensures HandlesDiffer(AddTo(gs, s)) <==>
              HandlesDiffer(gs) && (HasGroup(gs, s.handle) ==> LastHandle(gs) == Some(s.handle))
  {
    hide AddTo;
    var r := AddTo(gs, s);
    AddToHandle(gs, s);
    if HandlesDiffer(r) {
      forall i, j | 0 <= i < j < |gs| ensures gs[i].handle != gs[j].handle {
        assert r[i].handle != r[j].handle;
      }
    }
  }

  lemma ShownNext(ss: seq<Shown>, s: Shown, h: Handle)
    ensures HasShown(ss + [s], h) <==> HasShown(ss, h) || h == s.handle
  {
    var r, n := ss + [s], |ss|;
    assert r[n] == s && forall i :: 0 <= i < n ==> r[i] == ss[i];
    if i :| 0 <= i < n && ss[i].handle == h {
      assert r[i].handle == h;
    }
  }

  lemma ContiguousNext(ss: seq<Shown>, s: Shown)
    ensures Contiguous(ss + [s])
            <==> Contiguous(ss) && (HasShown(ss, s.handle) ==> ss[|ss| - 1].handle == s.handle)
  {
    var r, n := ss + [s], |ss|;
    assert r[n] == s && forall i :: 0 <= i < n ==> r[i] == ss[i];
    if Contiguous(r) {
      forall i, j, k | 0 <= i < j < k < n && ss[i].handle == ss[k].handle ensures ss[j].handle == ss[i].handle {
        assert r[i].handle == r[k].handle && r[j].handle == r[i].handle;
      }
      if i :| 0 <= i < n && ss[i].handle == s.handle && i < n - 1 {
        assert r[i].handle == r[n].handle && r[n - 1].handle == r[i].handle;
      }
    }
    if Contiguous(ss) && (HasShown(ss, s.handle) ==> ss[n - 1].handle == s.handle) {
      forall i, j, k | 0 <= i < j < k < |r| && r[i].handle == r[k].handle ensures r[j].handle == r[i].handle {
        if k == n {
          assert ss[i].handle == s.handle;
          assert j < n - 1 ==> ss[j].handle == ss[i].handle;
        }
      }
    }
  }

  lemma {:induction false} GroupsOfShown(ss: seq<Shown>, h: Handle)
    ensures HasGroup(Grouped(ss), h) <==> HasShown(ss, h)
    ensures ss != [] ==> LastHandle(Grouped(ss)) == Some(ss[|ss| - 1].handle)
  {
    hide AddTo, LastHandle, HasGroup, HasShown, HandlesDiffer;
    NoGroups();
    if ss != [] {
      var init, s := ss[..|ss| - 1], ss[|ss| - 1];
      assert ss == init + [s];
      GroupsOfShown(init, h);
      AddToHandle(Grouped(init), s);
      AddToGroups(Grouped(init), s, h);
      ShownNext(init, s, h);
    }
  }

  /** No handle is opened twice exactly when the messages are contiguous per handle. */
  lemma {:induction false} OneGroupPerHandle(ss: seq<Shown>)
    ensures HandlesDiffer(Grouped(ss)) <==> Contiguous(ss)
  {
    hide AddTo, LastHandle, HasGroup, HasShown, HandlesDiffer, Contiguous;
    NoGroups();
    if ss != [] {
      var init, s := ss[..|ss| - 1], ss[|ss| - 1];
      assert ss == init + [s];
      OneGroupPerHandle(init);
      GroupsOfShown(init, s.handle);
      AddToDiffer(Grouped(init), s);
      ContiguousNext(init, s);
    }
  }

  lemma NoGroups()
    ensures HandlesDiffer([]) && Contiguous([]) && forall h :: !HasGroup([], h) && !HasShown([], h)
  {
  }

  // ---------------------------------------------------------------- keys

  /** `sprintf(buf, "%s/%s", bus_name, dev_name)`. */
  function DeviceText(h: Handle): string {
    h.bus + "/" + h.dev
  }

  function AsPort(h: Handle): PortHandle.Port {
    PortHandle.Port(h.bus, h.dev, if h.Port? then h.index else 0)
  }

  function NiceName(list: seq<PortHandle.Entry>, wanted: bool, h: Handle): Option<string> {
    PortHandle.Nice(list, wanted, AsPort(h))
  }

  /** The printer of a section of ports, with the interface map and whether nice names are wanted. */
  function PortPrinter(list: seq<PortHandle.Entry>, wanted: bool): Printer {
    (h: Handle) => if h.Port? then PortHandle.PortText(list, wanted, AsPort(h)) else DeviceText(h)
  }

  /** Splitting the key at its last slash gives the bus and then the device exactly when the device has
      no slash in its name. */
  lemma DeviceTextSplits(h: Handle, r: PortHandle.Split)
    requires PortHandle.SplitOf(DeviceText(h), r)
    ensures r == PortHandle.Split(h.bus, h.dev) <==> '/' !in h.dev
  {
    if '/' !in h.dev {
      PortHandle.SplitIsUnique(DeviceText(h), h.bus, h.dev, r);
    }
  }

  lemma DeviceTextTells(g: Handle, h: Handle)
    requires g.Device? && h.Device? && '/' !in g.bus && '/' !in h.bus
    ensures DeviceText(g) == DeviceText(h) <==> g == h
  {
    PortHandle.FirstSlash(g.bus, g.dev, h.bus, h.dev);
  }

  lemma {:induction false} GroupMemberAt(name: Printer, gs: seq<Group>, i: nat)
    requires i < |gs|
    ensures |GroupMembers(name, gs)| == |gs|
    ensures GroupMembers(name, gs)[i] == Member(HandleText(name, gs[i].handle), Array(gs[i].items))
  {
    if i < |gs| - 1 {
      GroupMemberAt(name, gs[..|gs| - 1], i);
    } else if i > 0 {
      GroupMemberAt(name, gs[..|gs| - 1], 0);
    }
  }

  /** The printer tells apart the handles that are shown. */
  ghost predicate Tells(name: Printer, ss: seq<Shown>) {
    forall i, j :: 0 <= i < |ss| && 0 <= j < |ss| ==>
      HandleText(name, ss[i].handle) == HandleText(name, ss[j].handle) ==> ss[i].handle == ss[j].handle
  }

  ghost predicate KeysDiffer(name: Printer, gs: seq<Group>) {
    forall i, j :: 0 <= i < j < |gs| ==> HandleText(name, gs[i].handle) != HandleText(name, gs[j].handle)
  }

  lemma KeysAreNames(name: Printer, gs: seq<Group>)
    ensures NamesDiffer(GroupMembers(name, gs)) <==> KeysDiffer(name, gs)
    ensures |GroupMembers(name, gs)| == |gs|
  {
    hide GroupMembers, HandleText;
    if gs == [] {
      GroupsNext(name, gs);
    } else {
      GroupMemberAt(name, gs, 0);
      forall i | 0 <= i < |gs| ensures GroupMembers(name, gs)[i].name == HandleText(name, gs[i].handle) {
        GroupMemberAt(name, gs, i);
      }
    }
  }

  /** For any printer: no key occurs twice in the section exactly when the reports of each handle are
      contiguous and the printer tells the handles apart. */
  lemma EachKeyOnce(name: Printer, ss: seq<Shown>)
    ensures NamesDiffer(GroupMembers(name, Grouped(ss))) <==> Contiguous(ss) && Tells(name, ss)
  {
    hide GroupMembers, Grouped, Contiguous, NamesDiffer, HandleText;
    var gs := Grouped(ss);
    KeysAreNames(name, gs);
    OneGroupPerHandle(ss);
    if KeysDiffer(name, gs) {
      forall i, j | 0 <= i < |ss| && 0 <= j < |ss| && HandleText(name, ss[i].handle) == HandleText(name, ss[j].handle)
        ensures ss[i].handle == ss[j].handle
      {
        GroupsOfShown(ss, ss[i].handle);
        GroupsOfShown(ss, ss[j].handle);
        assert HasShown(ss, ss[i].handle) && HasShown(ss, ss[j].handle);
      }
    }
    if Contiguous(ss) && Tells(name, ss) {
      forall i, j | 0 <= i < j < |gs| ensures HandleText(name, gs[i].handle) != HandleText(name, gs[j].handle) {
        GroupsOfShown(ss, gs[i].handle);
        GroupsOfShown(ss, gs[j].handle);
        assert HasGroup(gs, gs[i].handle) && HasGroup(gs, gs[j].handle);
        assert gs[i].handle != gs[j].handle;
      }
    }
  }

  /** A section of devices on buses without a slash in their names. */
  lemma EachDeviceKeyOnce(ss: seq<Shown>)
    requires forall k :: 0 <= k < |ss| ==> ss[k].handle.Device? && '/' !in ss[k].handle.bus
    ensures NamesDiffer(GroupMembers(DeviceText, Grouped(ss))) <==> Contiguous(ss)
  {
    hide GroupMembers, Grouped, Contiguous, NamesDiffer, DeviceText;
    EachKeyOnce(DeviceText, ss);
    forall i, j | 0 <= i < |ss| && 0 <= j < |ss|
                  && HandleText(DeviceText, ss[i].handle) == HandleText(DeviceText, ss[j].handle)
      ensures ss[i].handle == ss[j].handle
    {
      DeviceTextTells(ss[i].handle, ss[j].handle);
    }
  }

  /** No two different ports of the section have the same nice name. */
  ghost predicate NiceNamesDiffer(list: seq<PortHandle.Entry>, wanted: bool, ss: seq<Shown>) {
    forall i, j :: 0 <= i < |ss| && 0 <= j < |ss| && ss[i].handle != ss[j].handle ==>
      var a, b := NiceName(list, wanted, ss[i].handle), NiceName(list, wanted, ss[j].handle);
      a.None? || b.None? || a.value != b.value
  }

  /** A section of ports on buses without a slash in their names, printed with interface names that
      have none either: only a nice name that two of its ports share can spoil it. */
  lemma EachPortKeyOnce(list: seq<PortHandle.Entry>, wanted: bool, ss: seq<Shown>)
    requires forall k :: 0 <= k < |ss| ==> ss[k].handle.Port? && '/' !in ss[k].handle.bus
    requires forall i :: 0 <= i < |list| ==> '/' !in list[i].ifname
    ensures NamesDiffer(GroupMembers(PortPrinter(list, wanted), Grouped(ss)))
            <==> Contiguous(ss) && NiceNamesDiffer(list, wanted, ss)
  {
    hide GroupMembers, Grouped, Contiguous, NamesDiffer, PortHandle.PortText, PortHandle.Nice;
    var name := PortPrinter(list, wanted);
    EachKeyOnce(name, ss);
    forall i, j | 0 <= i < |ss| && 0 <= j < |ss|
      ensures var a, b := NiceName(list, wanted, ss[i].handle), NiceName(list, wanted, ss[j].handle);
              HandleText(name, ss[i].handle) == HandleText(name, ss[j].handle)
              <==> ss[i].handle == ss[j].handle || (a.Some? && b.Some? && a.value == b.value)
    {
      var p, q := AsPort(ss[i].handle), AsPort(ss[j].handle);
      PortHandle.PortTextTells(list, wanted, p, q);
      PortHandle.FirstSlash(p.bus, p.dev, q.bus, q.dev);
    }
  }

  /** With unique interface names nothing can. */
  lemma UniqueNamesDiffer(list: seq<PortHandle.Entry>, wanted: bool, ss: seq<Shown>)
    requires forall k :: 0 <= k < |ss| ==> ss[k].handle.Port?
    requires forall i, j :: 0 <= i < j < |list| ==> list[i].ifname != list[j].ifname
    ensures NiceNamesDiffer(list, wanted, ss)
  {
    hide PortHandle.ByPort, PortHandle.ByName;
    forall i, j | 0 <= i < |ss| && 0 <= j < |ss| && ss[i].handle != ss[j].handle
      ensures var a, b := NiceName(list, wanted, ss[i].handle), NiceName(list, wanted, ss[j].handle);
              a.None? || b.None? || a.value != b.value
    {
      var p, q := AsPort(ss[i].handle), AsPort(ss[j].handle);
      if PortHandle.Nice(list, wanted, p).Some? && PortHandle.Nice(list, wanted, q).Some? {
        PortHandle.NameLeadsBack(list, p);
        PortHandle.NameLeadsBack(list, q);
      }
    }
  }

  // ---------------------------------------------------------------- names in the whole document

  /** The names of single reports differ, where they are not fixed. */
  ghost predicate ScalarsDiffer(ms: seq<Message>) {
    forall i, j :: 0 <= i < |ms| && 0 <= j < |ms[i].reports| ==> ScalarNamesDiffer(ms[i].reports[j])
  }

  ghost predicate ScalarNamesDiffer(r: Report) {
    r.ScalarReport? ==> NamesDiffer(Fields(r.fields))
  }

  ghost predicate ShownWell(ss: seq<Shown>) {
    forall i :: 0 <= i < |ss| ==> WellNamed(Object(ss[i].members))
  }

  lemma ReportWell(r: Report)
    requires ScalarNamesDiffer(r)
    ensures WellNamed(Object(ReportMembers(r)))
  {
    hide TableMembers, EntryMembers, ResourceMembers, Fields, NamesDiffer;
    match r
    case TableReport(t) => TableWell(t);
    case EntryReport(e) => EntryWell(e);
    case ResourceReport(x, tables, pending) => ResourceWell(x, tables, pending);
    case ScalarReport(fs) =>
  }

  lemma ShownWellConcat(a: seq<Shown>, b: seq<Shown>)
    requires ShownWell(a) && ShownWell(b)
    ensures ShownWell(a + b)
  {
    hide WellNamed;
  }

  lemma {:induction false} ShownOfWell(h: Handle, rs: seq<Report>)
    requires forall j :: 0 <= j < |rs| ==> ScalarNamesDiffer(rs[j])
    ensures ShownWell(ShownOf(h, rs))
  {
    hide WellNamed, ReportMembers, ReportOk, ScalarNamesDiffer;
    if rs != [] {
      ReportWell(rs[0]);
      ShownOfWell(h, rs[1..]);
      ShownWellConcat([Shown(h, ReportMembers(rs[0]))], if ReportOk(rs[0]) then ShownOf(h, rs[1..]) else []);
    }
  }

  lemma {:induction false} ShownAllWell(ms: seq<Message>)
    requires ScalarsDiffer(ms)
    ensures ShownWell(ShownAll(ms))
  {
    hide WellNamed, ShownOf, ScalarNamesDiffer, ReportsOk;
    if ms != [] {
      ShownOfWell(ms[0].handle, ms[0].reports);
      ShownAllWell(ms[1..]);
      ShownWellConcat(ShownOf(ms[0].handle, ms[0].reports), if ReportsOk(ms[0].reports) then ShownAll(ms[1..]) else []);
    }
  }

  ghost predicate GroupsWell(gs: seq<Group>) {
    forall i :: 0 <= i < |gs| ==> WellNamed(Array(gs[i].items))
  }

  lemma MoreItemsWell(js: seq<Json>, j: Json)
    requires WellNamed(Array(js)) && WellNamed(j)
    ensures WellNamed(Array(js + [j]))
  {
  }

  lemma AddToWell(gs: seq<Group>, s: Shown)
    requires GroupsWell(gs) && WellNamed(Object(s.members))
    ensures GroupsWell(AddTo(gs, s))
  {
    hide WellNamed;
    NoItemWell();
    var hs := if LastHandle(gs) == Some(s.handle) then gs else gs + [Group(s.handle, [])];
    MoreItemsWell(hs[|hs| - 1].items, Object(s.members));
  }

  lemma {:induction false} GroupedWell(ss: seq<Shown>)
    requires ShownWell(ss)
    ensures GroupsWell(Grouped(ss))
  {
    hide WellNamed, AddTo;
    if ss != [] {
      GroupedWell(ss[..|ss| - 1]);
      AddToWell(Grouped(ss[..|ss| - 1]), ss[|ss| - 1]);
    }
  }

  lemma DocumentNames(name: Printer, section: string, ss: seq<Shown>)
    requires ShownWell(ss)
    ensures WellNamed(Document(name, section, ss)) <==> NamesDiffer(GroupMembers(name, Grouped(ss)))
  {
    var gs := Grouped(ss);
    var inner := Object(GroupMembers(name, gs));
    assert WellNamed(Object([Member(section, inner)])) <==> WellNamed(inner) by {
      assert [Member(section, inner)][0].value == inner;
    }
    hide Grouped, GroupMembers, NamesDiffer;
    GroupedWell(ss);
    KeysAreNames(name, gs);
    forall i | 0 <= i < |gs| ensures WellNamed(GroupMembers(name, gs)[i].value) {
      GroupMemberAt(name, gs, i);
    }
  }

  /** In the document of a section the names of every object differ, at every depth, exactly when the
      reports of each handle are contiguous and the printer tells the handles apart. */
  lemma DocumentIsWellNamed(name: Printer, section: string, ms: seq<Message>)
    requires ScalarsDiffer(ms)
    ensures WellNamed(Document(name, section, ShownAll(ms))) <==> Contiguous(ShownAll(ms)) && Tells(name, ShownAll(ms))
  {
    hide *;
    ShownAllWell(ms);
    DocumentNames(name, section, ShownAll(ms));
    EachKeyOnce(name, ShownAll(ms));
  }

  // ---------------------------------------------------------------- names as they are written

  /** The literals of the names differ; `jsonw_puts` writes some different names alike. */
  ghost predicate LiteralsDiffer(ms: seq<Member>) {
    forall i, j :: 0 <= i < j < |ms| ==> JsonStrings.Escaped(ms[i].name) != JsonStrings.Escaped(ms[j].name)
  }

  /** The printer tells the handles apart even with backslashes taken for newlines. */
  ghost predicate TellsLiterally(name: Printer, ss: seq<Shown>) {
    forall i, j :: 0 <= i < |ss| && 0 <= j < |ss| ==>
      JsonStrings.MeantAll(HandleText(name, ss[i].handle)) == JsonStrings.MeantAll(HandleText(name, ss[j].handle)) ==>
        ss[i].handle == ss[j].handle
  }

  ghost function Collapsed(name: Printer): Printer {
    (h: Handle) => JsonStrings.MeantAll(HandleText(name, h))
  }

  lemma CollapsedKeys(name: Printer, gs: seq<Group>)
    ensures LiteralsDiffer(GroupMembers(name, gs)) <==> KeysDiffer(Collapsed(name), gs)
  {
    hide GroupMembers, JsonStrings.Escaped, JsonStrings.MeantAll;
    var ms := GroupMembers(name, gs);
    KeysAreNames(name, gs);
    forall i, j | 0 <= i < j < |gs|
      ensures JsonStrings.Escaped(ms[i].name) == JsonStrings.Escaped(ms[j].name)
              <==> HandleText(Collapsed(name), gs[i].handle) == HandleText(Collapsed(name), gs[j].handle)
    {
      GroupMemberAt(name, gs, i);
      GroupMemberAt(name, gs, j);
      JsonStrings.LiteralTells(ms[i].name, ms[j].name);
    }
  }

  /** No key is written twice exactly when the reports of each handle are contiguous and the printer
      tells the handles apart literally. */
  lemma EachLiteralOnce(name: Printer, ss: seq<Shown>)
    ensures LiteralsDiffer(GroupMembers(name, Grouped(ss))) <==> Contiguous(ss) && TellsLiterally(name, ss)
  {
    hide GroupMembers, Grouped, Contiguous, NamesDiffer, KeysDiffer, LiteralsDiffer, JsonStrings.MeantAll;
    CollapsedKeys(name, Grouped(ss));
    KeysAreNames(Collapsed(name), Grouped(ss));
    EachKeyOnce(Collapsed(name), ss);
  }

  /** In every object the names are written differently. */
  ghost predicate LiterallyNamed(j: Json) {
    match j
    case Leaf(_) => true
    case Object(ms) => LiteralsDiffer(ms) && forall i :: 0 <= i < |ms| ==> LiterallyNamed(ms[i].value)
    case Array(js) => forall i :: 0 <= i < |js| ==> LiterallyNamed(js[i])
  }

  /** No name has a backslash, at any depth. */
  ghost predicate PlainNames(j: Json) {
    match j
    case Leaf(_) => true
    case Object(ms) => forall i :: 0 <= i < |ms| ==> '\\' !in ms[i].name && PlainNames(ms[i].value)
    case Array(js) => forall i :: 0 <= i < |js| ==> PlainNames(js[i])
  }

  lemma PlainLiteral(s: string, t: string)
    requires '\\' !in s && '\\' !in t
    ensures JsonStrings.Escaped(s) == JsonStrings.Escaped(t) <==> s == t
  {
    JsonStrings.LiteralTells(s, t);
    assert JsonStrings.MeantAll(s) == s && JsonStrings.MeantAll(t) == t;
  }

  lemma PlainLiterals(ms: seq<Member>)
    requires forall i :: 0 <= i < |ms| ==> '\\' !in ms[i].name
    ensures LiteralsDiffer(ms) <==> NamesDiffer(ms)
  {
    hide JsonStrings.Escaped;
    forall i, j | 0 <= i < j < |ms|
      ensures JsonStrings.Escaped(ms[i].name) == JsonStrings.Escaped(ms[j].name) <==> ms[i].name == ms[j].name
    {
      PlainLiteral(ms[i].name, ms[j].name);
    }
  }

  lemma {:induction false} PlainlyNamed(j: Json)
    requires PlainNames(j)
    ensures LiterallyNamed(j) <==> WellNamed(j)
  {
    hide LiteralsDiffer, NamesDiffer;
    match j
    case Leaf(_) =>
    case Object(ms) =>
      PlainLiterals(ms);
      forall i | 0 <= i < |ms| ensures LiterallyNamed(ms[i].value) <==> WellNamed(ms[i].value) {
        PlainlyNamed(ms[i].value);
      }
    case Array(js) =>
      forall i | 0 <= i < |js| ensures LiterallyNamed(js[i]) <==> WellNamed(js[i]) {
        PlainlyNamed(js[i]);
      }
  }

  /** Without backslashes in its names, the document is literally well named exactly when the reports are
      contiguous and the printer tells the handles apart. */
  lemma DocumentIsLiterallyNamed(name: Printer, section: string, ms: seq<Message>)
    requires ScalarsDiffer(ms) && PlainNames(Document(name, section, ShownAll(ms)))
    ensures LiterallyNamed(Document(name, section, ShownAll(ms)))
            <==> Contiguous(ShownAll(ms)) && Tells(name, ShownAll(ms))
  {
    hide *;
    PlainlyNamed(Document(name, section, ShownAll(ms)));
    DocumentIsWellNamed(name, section, ms);
  }
}
