/** What a reader of a whole section of `devlink` output finds: the reports that were due, in order,
    each under the text of its handle, up to the first message or report that is bad. */
module SectionReports {
  import opened Wrappers
  import opened JsonWriter
  import opened DevlinkReports
  import opened ReportNames
  import opened ReportValues
  import opened DevlinkSections

  // ---------------------------------------------------------------- reading the document

  /** The items of the arrays, each with the name its array stands under. */
  ghost function Entries(ms: seq<Member>): seq<(string, Json)> {
    if ms == [] then []
    else
      var last := ms[|ms| - 1];
      Entries(ms[..|ms| - 1]) + if last.value.Array? then Under(last.name, last.value.items) else []
  }

  ghost function Texts(name: Printer, rs: seq<(Handle, Json)>): seq<(string, Json)> {
    seq(|rs|, i requires 0 <= i < |rs| => (HandleText(name, rs[i].0), rs[i].1))
  }

  lemma EntriesNext(ms: seq<Member>, name: string, js: seq<Json>)
    ensures Entries(ms + [Member(name, Array(js))]) == Entries(ms) + Under(name, js)
  {
    assert (ms + [Member(name, Array(js))])[..|ms|] == ms;
  }

  lemma {:induction false} EntriesOfGroups(name: Printer, gs: seq<Group>)
    ensures Entries(GroupMembers(name, gs)) == Texts(name, Reports(gs))
  {
    if gs != [] {
      hide HandleText, Entries;
      var init, last := gs[..|gs| - 1], gs[|gs| - 1];
      EntriesOfGroups(name, init);
      EntriesNext(GroupMembers(name, init), HandleText(name, last.handle), last.items);
      assert Texts(name, Reports(gs)) == Texts(name, Reports(init)) + Under(HandleText(name, last.handle), last.items);
    }
  }

  // ---------------------------------------------------------------- what was due

  datatype Step = Refused | Due(handle: Handle, report: Report)

  ghost function StepsOf(h: Handle, rs: seq<Report>): seq<Step> {
    seq(|rs|, i requires 0 <= i < |rs| => Due(h, rs[i]))
  }

  /** Every report of every message in order; a message that lacks attributes is one refusal. */
  ghost function Steps(ms: seq<Message>): seq<Step> {
    if ms == [] then []
    else (if ms[0].complete then StepsOf(ms[0].handle, ms[0].reports) else [Refused]) + Steps(ms[1..])
  }

  ghost predicate ShowsReport(ms: seq<Member>, r: Report) {
    match r
    case TableReport(t) => ShowsTable(ms, t)
    case EntryReport(e) => ShowsEntry(ms, e)
    case ResourceReport(x, tables, pending) => ShowsResource(ms, x, tables, pending)
    case ScalarReport(fs) =>
      |ms| == |fs| && forall i :: 0 <= i < |fs| ==> ms[i] == Member(fs[i].0, Leaf(fs[i].1))
  }

  ghost predicate StepShown(s: Shown, step: Step) {
    step.Due? && s.handle == step.handle && ShowsReport(s.members, step.report)
  }

  ghost predicate StepOk(step: Step) {
    step.Due? && ReportOk(step.report)
  }

  /** Everything due is shown, or everything up to a refusal, or up to and with the first bad report. */
  ghost predicate ShowsSteps(ss: seq<Shown>, steps: seq<Step>) {
    && |ss| <= |steps|
    && (forall i :: 0 <= i < |ss| ==> StepShown(ss[i], steps[i]))
    && (forall i :: 0 <= i < |ss| - 1 ==> StepOk(steps[i]))
    && (|ss| < |steps| ==> steps[|ss|].Refused? || (ss != [] && !StepOk(steps[|ss| - 1])))
  }

  lemma {:induction false} FieldsShown(fs: seq<(string, Scalar)>)
    ensures ShowsReport(Fields(fs), ScalarReport(fs))
  {
    if fs != [] {
      FieldsShown(fs[1..]);
    }
  }

  lemma ReportIsShown(r: Report)
    ensures ShowsReport(ReportMembers(r), r)
  {
    hide Fields, TableMembers, EntryMembers, ResourceMembers, ShowsTable, ShowsEntry, ShowsResource;
    match r
    case TableReport(t) => TableShows(t);
    case EntryReport(e) => EntryShows(e);
    case ResourceReport(x, tables, pending) => ResourceShows(x, tables, pending);
    case ScalarReport(fs) => FieldsShown(fs);
  }

  /** One more step before the others. */
  lemma OneStep(s: Shown, step: Step, ss: seq<Shown>, steps: seq<Step>)
    requires StepShown(s, step)
    requires if StepOk(step) then ShowsSteps(ss, steps) else ss == []
    ensures ShowsSteps([s] + ss, [step] + steps)
  {
    hide StepShown, StepOk;
    var r, t := [s] + ss, [step] + steps;
    forall i | 0 <= i < |r| ensures StepShown(r[i], t[i]) && (i < |r| - 1 ==> StepOk(t[i])) {
      if i > 0 {
        assert r[i] == ss[i - 1] && t[i] == steps[i - 1];
      }
    }
  }

  /** The reports of one message, and after them those of the messages that follow. */
  lemma {:induction false} ReportsShown(h: Handle, rs: seq<Report>, more: seq<Shown>, steps: seq<Step>)
    requires if ReportsOk(rs) then ShowsSteps(more, steps) else more == []
    ensures ShowsSteps(ShownOf(h, rs) + more, StepsOf(h, rs) + steps)
  {
    hide ReportMembers, ReportOk, ShowsReport, ShowsSteps;
    if rs == [] {
      assert ShownOf(h, rs) + more == more && StepsOf(h, rs) + steps == steps;
    } else {
      var s, step := Shown(h, ReportMembers(rs[0])), Due(h, rs[0]);
      ReportIsShown(rs[0]);
      assert StepsOf(h, rs) + steps == [step] + (StepsOf(h, rs[1..]) + steps);
      if ReportOk(rs[0]) {
        OkRest(rs);
        ReportsShown(h, rs[1..], more, steps);
        OneStep(s, step, ShownOf(h, rs[1..]) + more, StepsOf(h, rs[1..]) + steps);
        assert ShownOf(h, rs) + more == [s] + (ShownOf(h, rs[1..]) + more);
      } else {
        assert !ReportsOk(rs) by {
          assert !ReportOk(rs[0]);
        }
        OneStep(s, step, [], StepsOf(h, rs[1..]) + steps);
        assert ShownOf(h, rs) + more == [s] + [];
      }
    }
  }

  lemma OkRest(rs: seq<Report>)
    requires rs != [] && ReportOk(rs[0])
    ensures ReportsOk(rs) <==> ReportsOk(rs[1..])
  {
    hide ReportOk;
    assert rs == [rs[0]] + rs[1..];
  }

  lemma {:induction false} AllShown(ms: seq<Message>)
    ensures ShowsSteps(ShownAll(ms), Steps(ms))
  {
    hide ShownOf, StepsOf, StepShown, StepOk, ReportsOk;
    if ms != [] && ms[0].complete {
      hide ShowsSteps;
      var more := if ReportsOk(ms[0].reports) then ShownAll(ms[1..]) else [];
      AllShown(ms[1..]);
      ReportsShown(ms[0].handle, ms[0].reports, more, Steps(ms[1..]));
    }
  }

  // ---------------------------------------------------------------- the document of a section

  /** The item stands under the text of the handle and shows the report. */
  ghost predicate EntryShown(name: Printer, e: (string, Json), step: Step) {
    step.Due? && e.0 == name(step.handle) && e.1.Object? && ShowsReport(e.1.members, step.report)
  }

  ghost predicate ShowsSection(j: Json, name: Printer, section: string, steps: seq<Step>) {
    && j.Object? && |j.members| == 1 && j.members[0].name == section && j.members[0].value.Object?
    && var es := Entries(j.members[0].value.members);
    && |es| <= |steps|
    && (forall i :: 0 <= i < |es| ==> EntryShown(name, es[i], steps[i]))
    && (forall i :: 0 <= i < |es| - 1 ==> StepOk(steps[i]))
    && (|es| < |steps| ==> steps[|es|].Refused? || (es != [] && !StepOk(steps[|es| - 1])))
  }

  /** The document that the section prints is parsed back, and its items are the reports that were
      due, in order, with the values of their fields. */
  lemma SectionIsRead(name: Printer, section: string, ms: seq<Message>)
    ensures var j := Parse(Tokens(Document(name, section, ShownAll(ms))));
            j.Some? && ShowsSection(j.value, name, section, Steps(ms))
  {
    hide Tokens, Parse, Grouped, GroupMembers, Reports, Entries, ShownAll, Steps, ShowsReport, StepOk;
    var ss := ShownAll(ms);
    ParseWritten(Document(name, section, ss));
    AllShown(ms);
    GroupingKeepsReports(ss);
    EntriesOfGroups(name, Grouped(ss));
    var es := Entries(GroupMembers(name, Grouped(ss)));
    assert es == Texts(name, AsReports(ss));
    forall i | 0 <= i < |es| ensures EntryShown(name, es[i], Steps(ms)[i]) {
      assert StepShown(ss[i], Steps(ms)[i]);
    }
  }
}
