/** The intake and lifecycle engine: duplicate-merging report intake, status
    changes and department assignment with their audit rows, the read-side
    lookups, and the analytics scan. Every operation maps the state of the
    three tables and the identifier generator to the next state. */
module IssueService {
  import opened Wrappers
  import opened IssueModel
  import IssueDao
  import CitizenIssueMapDao
  import IssueTimelineDao
  import IssueIdGenerator
  import Collections

  /** Everything the engine reads and writes. */
  datatype World = World(
    issues: IssueDao.Table,
    links: CitizenIssueMapDao.Links,
    timeline: IssueTimelineDao.Log,
    generator: IssueIdGenerator.GenState)

  /** The state every operation keeps: the issues table is keyed, and every
      link and audit row names a stored issue. */
  ghost predicate Valid(w: World) {
    && IssueDao.WellFormed(w.issues)
    && (forall k :: 0 <= k < |w.links| ==> IssueDao.HasId(w.issues, w.links[k].issueId))
    && (forall k :: 0 <= k < |w.timeline| ==> IssueDao.HasId(w.issues, w.timeline[k].issueId))
  }

  /** What the Java code throws: `SQLException("Issue not found")`, a rejected
      insert, or a `NullPointerException`. */
  datatype ServiceError = IssueNotFound | StoreRejected(cause: IssueDao.StoreError) | NullPointer

  /** The outcome of an operation together with the state after it. */
  datatype Step<T> = Step(result: Result<T, ServiceError>, after: World)

  /** `GeoUtil.isWithinRadius(lat1, lng1, lat2, lng2, 0.1)`: within the
      100-metre duplicate radius. */
  type Near = (real, real, real, real) -> bool

  /** `GeoUtil.getBoundingBox(lat, lng, 0.1)`: the search window around a
      report. */
  type BoundingBox = (real, real) -> IssueDao.Box

  const REPORTED_REMARKS := "Issue reported by citizen"

  // ----- duplicate detection -----

  /** The test `findDuplicate` applies to each candidate: not RESOLVED, and
      within the radius of the new report. The category is not re-checked;
      the query already filtered it. */
  predicate IsMergeTarget(newIssue: Issue, candidate: Issue, near: Near) {
    && candidate.status != Some(RESOLVED)
    && near(candidate.locationLat, candidate.locationLng, newIssue.locationLat, newIssue.locationLng)
  }

  /** The position of the first merge target, if any. */
  function FirstMergeTarget(newIssue: Issue, candidates: seq<Issue>, near: Near): (k: Option<nat>)
    ensures k.None? <==> forall j :: 0 <= j < |candidates| ==> !IsMergeTarget(newIssue, candidates[j], near)
    ensures k.Some? ==> k.value < |candidates| && IsMergeTarget(newIssue, candidates[k.value], near)
    ensures k.Some? ==> forall j :: 0 <= j < k.value ==> !IsMergeTarget(newIssue, candidates[j], near)
  {
    if |candidates| == 0 then None
    else if IsMergeTarget(newIssue, candidates[0], near) then Some(0)
    else
      match FirstMergeTarget(newIssue, candidates[1..], near)
      case None => None
      case Some(k) => Some(k + 1)
  }

  /** `findDuplicate`: the first candidate, in list order, that is a merge
      target; none when no candidate is. A RESOLVED candidate is never
      chosen, however close it lies. */
  function FindDuplicate(newIssue: Issue, candidates: seq<Issue>, near: Near): (r: Option<Issue>)
    ensures r.None? <==> forall j :: 0 <= j < |candidates| ==> !IsMergeTarget(newIssue, candidates[j], near)
    ensures r.Some? ==> exists k :: (0 <= k < |candidates| && candidates[k] == r.value
      && IsMergeTarget(newIssue, r.value, near)
      && forall j :: 0 <= j < k ==> !IsMergeTarget(newIssue, candidates[j], near))
    ensures r.Some? ==> r.value.status != Some(RESOLVED)
  {
    match FirstMergeTarget(newIssue, candidates, near)
    case None => None
    case Some(k) => Some(candidates[k])
  }

  // ----- intake -----

  /** The result map of `reportIssue`. */
  datatype Report = Report(issueId: string, merged: bool, reportCount: int)

  /** The candidates `reportIssue` fetches for a report. */
  function Candidates(w: World, newIssue: Issue, box: BoundingBox): (c: seq<Issue>)
    ensures forall k :: 0 <= k < |c| ==> c[k] in w.issues
  {
    IssueDao.FindNearbyIssues(w.issues, newIssue.category, newIssue.locationLat, newIssue.locationLng,
                              box(newIssue.locationLat, newIssue.locationLng))
  }

  /** The duplicate `reportIssue` would merge into, if any. */
  function DuplicateOf(w: World, newIssue: Issue, box: BoundingBox, near: Near): (r: Option<Issue>)
    requires IssueDao.WellFormed(w.issues)
    ensures r.Some? ==> r.value in w.issues && r.value.issueId.Some?
  {
    var d := FindDuplicate(newIssue, Candidates(w, newIssue, box), near);
    if d.Some? then
      var k :| 0 <= k < |w.issues| && w.issues[k] == d.value;
      d
    else d
  }

  /** The row a new report becomes, before the table stamps it. */
  function Prepared(newIssue: Issue, issueId: string): Issue {
    newIssue.(issueId := Some(issueId), status := Some(REPORTED), reportCount := 1)
  }

  /** `reportIssue`. With a duplicate: bump its count, link the citizen to it
      and answer with the refreshed count. Without: take a new identifier,
      store the report as a REPORTED issue with one report, link the citizen
      and write the first audit row. The date and `now` stand for the clock. */
  function ReportIssue(w: World, newIssue: Issue, citizenId: int, date: string, now: Time,
                       box: BoundingBox, near: Near): (s: Step<Report>)
    requires IssueDao.WellFormed(w.issues)
    ensures s.result.Success? ==>
      s.after.links == CitizenIssueMapDao.Create(w.links, citizenId, s.result.value.issueId, now)
    ensures s.result.Failure? ==>
      s.after.issues == w.issues && s.after.links == w.links && s.after.timeline == w.timeline
    ensures s.result.Failure? && s.result.error == NullPointer ==> s.after == w
    ensures s.result.Failure? && s.result.error.StoreRejected? ==>
      && newIssue.category.Some?
      && s.after.generator == IssueIdGenerator.Generate(w.generator, newIssue.category.value, date).next
    ensures s.result.Success? && s.result.value.merged ==>
      s.after.timeline == w.timeline && s.after.generator == w.generator && |s.after.issues| == |w.issues|
    ensures s.result.Success? && !s.result.value.merged ==>
      |s.after.issues| == |w.issues| + 1 && |s.after.timeline| == |w.timeline| + 1
  {
    match DuplicateOf(w, newIssue, box, near)
    case Some(dup) =>
      var id := dup.issueId.value;
      var issues := IssueDao.IncrementReportCount(w.issues, id);
      var links := CitizenIssueMapDao.Create(w.links, citizenId, id, now);
      IssueDao.IncrementThenFind(w.issues, id);
      var refreshed := IssueDao.FindById(issues, id).value;
      Step(Success(Report(id, true, refreshed.reportCount)), w.(issues := issues, links := links))
    case None =>
      match newIssue.category
      case None => Step(Failure(NullPointer), w)
      case Some(category) =>
        var g := IssueIdGenerator.Generate(w.generator, category, date);
        match IssueDao.Create(w.issues, Prepared(newIssue, g.issueId), now)
        case Failure(e) => Step(Failure(StoreRejected(e)), w.(generator := g.next))
        case Success(issues) =>
          var links := CitizenIssueMapDao.Create(w.links, citizenId, g.issueId, now);
          var timeline := IssueTimelineDao.Create(w.timeline, g.issueId, Some(REPORTED), citizenId,
                                                  Some(REPORTED_REMARKS), None, now);
          Step(Success(Report(g.issueId, false, 1)), World(issues, links, timeline, g.next))
  }

  /** The merge path: the result names the duplicate, its stored count goes
      up by exactly one and the result carries that refreshed count; no issue
      is created, no other issue changes, no audit row is written and the
      generator is not consulted. */
  lemma ReportMerges(w: World, newIssue: Issue, citizenId: int, date: string, now: Time,
                     box: BoundingBox, near: Near)
    requires IssueDao.WellFormed(w.issues)
    requires DuplicateOf(w, newIssue, box, near).Some?
    ensures var dup := DuplicateOf(w, newIssue, box, near).value;
      var s := ReportIssue(w, newIssue, citizenId, date, now, box, near);
      && s.result == Success(Report(dup.issueId.value, true, dup.reportCount + 1))
      && IssueDao.FindById(s.after.issues, dup.issueId.value) == Some(IssueModel.IncrementReportCount(dup))
      && IssueDao.WellFormed(s.after.issues)
      && (forall other :: other != dup.issueId.value ==>
            IssueDao.FindById(s.after.issues, other) == IssueDao.FindById(w.issues, other))
      && s.after.timeline == w.timeline && s.after.generator == w.generator
      && CitizenIssueMapDao.GetReporterCount(s.after.links, dup.issueId.value) ==
         CitizenIssueMapDao.GetReporterCount(w.links, dup.issueId.value) + 1
  {
    var dup := DuplicateOf(w, newIssue, box, near).value;
    var id := dup.issueId.value;
    var k :| 0 <= k < |w.issues| && w.issues[k] == dup;
    IssueDao.FindByIdIsRow(w.issues, k);
    IssueDao.IncrementThenFind(w.issues, id);
    forall other | other != id
      ensures IssueDao.FindById(IssueDao.IncrementReportCount(w.issues, id), other) == IssueDao.FindById(w.issues, other)
    {
      IssueDao.IncrementLeavesOthers(w.issues, id, other);
    }
    CitizenIssueMapDao.CreateEffects(w.links, citizenId, id, now);
  }

  /** The new-issue path: the report is stored under the generated id as a
      REPORTED issue with one report; the result is unmerged with count 1;
      exactly one audit row is appended (REPORTED, by the citizen, with the
      fixed remark) and the generator advances. */
  lemma ReportCreates(w: World, newIssue: Issue, citizenId: int, date: string, now: Time,
                      box: BoundingBox, near: Near)
    requires IssueDao.WellFormed(w.issues)
    requires DuplicateOf(w, newIssue, box, near).None? && newIssue.category.Some?
    requires !IssueDao.HasId(w.issues, IssueIdGenerator.Generate(w.generator, newIssue.category.value, date).issueId)
    ensures var g := IssueIdGenerator.Generate(w.generator, newIssue.category.value, date);
      var s := ReportIssue(w, newIssue, citizenId, date, now, box, near);
      && s.result == Success(Report(g.issueId, false, 1))
      && IssueDao.WellFormed(s.after.issues)
      && IssueDao.FindById(s.after.issues, g.issueId) == Some(IssueDao.Inserted(Prepared(newIssue, g.issueId), now))
      && (forall other :: other != g.issueId ==>
            IssueDao.FindById(s.after.issues, other) == IssueDao.FindById(w.issues, other))
      && s.after.timeline == w.timeline +
           [IssueTimelineDao.Entry(g.issueId, Some(REPORTED), citizenId, Some(REPORTED_REMARKS), None, now)]
      && s.after.generator == g.next
  {
    var g := IssueIdGenerator.Generate(w.generator, newIssue.category.value, date);
    IssueDao.CreateThenFind(w.issues, Prepared(newIssue, g.issueId), now);
  }

  /** A failed report changes no table. It fails only on the new-issue path:
      with a null category, or when the generated id is already stored (the
      generator restarts per date, so an id can come round again); the
      generator has advanced in the latter case. */
  lemma ReportFailsOnlyWithoutDuplicate(w: World, newIssue: Issue, citizenId: int, date: string, now: Time,
                                        box: BoundingBox, near: Near)
    requires IssueDao.WellFormed(w.issues)
    ensures var s := ReportIssue(w, newIssue, citizenId, date, now, box, near);
      s.result.Failure? <==>
        && DuplicateOf(w, newIssue, box, near).None?
        && (newIssue.category.None? ||
            IssueDao.HasId(w.issues, IssueIdGenerator.Generate(w.generator, newIssue.category.value, date).issueId))
  {
    if DuplicateOf(w, newIssue, box, near).Some? {
      ReportMerges(w, newIssue, citizenId, date, now, box, near);
    }
  }

  /** Intake keeps the state valid: the table stays keyed and the new link
      and audit row name a stored issue. */
  lemma ReportKeepsValid(w: World, newIssue: Issue, citizenId: int, date: string, now: Time,
                         box: BoundingBox, near: Near)
    requires Valid(w)
    ensures Valid(ReportIssue(w, newIssue, citizenId, date, now, box, near).after)
  {
    var s := ReportIssue(w, newIssue, citizenId, date, now, box, near);
    if DuplicateOf(w, newIssue, box, near).Some? {
      MergeKeepsValid(w, newIssue, citizenId, date, now, box, near);
    } else if s.result.Success? {
      CreateKeepsValid(w, newIssue, citizenId, date, now, box, near);
    }
  }

  lemma MergeKeepsValid(w: World, newIssue: Issue, citizenId: int, date: string, now: Time,
                        box: BoundingBox, near: Near)
    requires Valid(w) && DuplicateOf(w, newIssue, box, near).Some?
    ensures Valid(ReportIssue(w, newIssue, citizenId, date, now, box, near).after)
  {
    var s := ReportIssue(w, newIssue, citizenId, date, now, box, near);
    ReportMerges(w, newIssue, citizenId, date, now, box, near);
    var id := DuplicateOf(w, newIssue, box, near).value.issueId.value;
    KeyedStorePreserved(w.issues, s.after.issues, id);
    GrowKeepsValid(w, s.after, id);
  }

  lemma CreateKeepsValid(w: World, newIssue: Issue, citizenId: int, date: string, now: Time,
                         box: BoundingBox, near: Near)
    requires Valid(w) && DuplicateOf(w, newIssue, box, near).None?
    requires ReportIssue(w, newIssue, citizenId, date, now, box, near).result.Success?
    ensures Valid(ReportIssue(w, newIssue, citizenId, date, now, box, near).after)
  {
    var s := ReportIssue(w, newIssue, citizenId, date, now, box, near);
    ReportFailsOnlyWithoutDuplicate(w, newIssue, citizenId, date, now, box, near);
    ReportCreates(w, newIssue, citizenId, date, now, box, near);
    var id := s.result.value.issueId;
    KeyedStorePreserved(w.issues, s.after.issues, id);
    GrowKeepsValid(w, s.after, id);
  }

  /** A step that keeps every stored id, stores `id`, and appends at most a
      link and an audit row, both for `id`, keeps the state valid. */
  lemma GrowKeepsValid(w: World, w': World, id: string)
    requires Valid(w) && IssueDao.WellFormed(w'.issues)
    requires forall x :: IssueDao.HasId(w.issues, x) ==> IssueDao.HasId(w'.issues, x)
    requires IssueDao.HasId(w'.issues, id)
    requires || w'.links == w.links
             || (&& |w'.links| == |w.links| + 1 && w'.links[..|w.links|] == w.links
                 && w'.links[|w.links|].issueId == id)
    requires || w'.timeline == w.timeline
             || (&& |w'.timeline| == |w.timeline| + 1 && w'.timeline[..|w.timeline|] == w.timeline
                 && w'.timeline[|w.timeline|].issueId == id)
    ensures Valid(w')
  {
    forall k | 0 <= k < |w'.links|
      ensures IssueDao.HasId(w'.issues, w'.links[k].issueId)
    {
      if k < |w.links| {
        assert w'.links[k] == w.links[k];
      }
    }
    forall k | 0 <= k < |w'.timeline|
      ensures IssueDao.HasId(w'.issues, w'.timeline[k].issueId)
    {
      if k < |w.timeline| {
        assert w'.timeline[k] == w.timeline[k];
      }
    }
  }

  /** When lookups of every id but `id` are unchanged and `id` is found after,
      every id found before is found after. */
  lemma KeyedStorePreserved(t: IssueDao.Table, t': IssueDao.Table, id: string)
    requires forall other :: other != id ==> IssueDao.FindById(t', other) == IssueDao.FindById(t, other)
    requires IssueDao.FindById(t', id).Some?
    ensures forall x :: IssueDao.HasId(t, x) ==> IssueDao.HasId(t', x)
  {
    forall x | IssueDao.HasId(t, x)
      ensures IssueDao.HasId(t', x)
    {
      if x != id {
        assert IssueDao.FindById(t', x) == IssueDao.FindById(t, x);
      }
    }
  }

  /** Two reports of the same category at the same spot, on an empty table:
      the first creates an issue, the second merges into it and brings its
      count to two. Assumes only that the radius test accepts a point
      against itself and that the search window holds its own centre. */
  lemma SecondReportMerges(w: World, category: string, lat: real, lng: real,
                           c1: int, c2: int, date: string, now1: Time, now2: Time,
                           box: BoundingBox, near: Near)
    requires w.issues == []
    requires near(lat, lng, lat, lng)
    requires box(lat, lng).minLat <= lat <= box(lat, lng).maxLat
    requires box(lat, lng).minLng <= lng <= box(lat, lng).maxLng
    ensures var report := NewIssue(Some(category), lat, lng, None, None);
      var s1 := ReportIssue(w, report, c1, date, now1, box, near);
      var s2 := ReportIssue(s1.after, report, c2, date, now2, box, near);
      && s1.result.Success? && !s1.result.value.merged
      && s2.result == Success(Report(s1.result.value.issueId, true, 2))
  {
    var report := NewIssue(Some(category), lat, lng, None, None);
    assert DuplicateOf(w, report, box, near).None?;
    var g := IssueIdGenerator.Generate(w.generator, category, date);
    var stored := IssueDao.Inserted(Prepared(report, g.issueId), now1);
    var s1 := ReportIssue(w, report, c1, date, now1, box, near);
    assert s1.after.issues == [stored];
    assert IssueDao.MatchesNearby(stored, Some(category), box(lat, lng));
    var cands := Candidates(s1.after, report, box);
    assert stored in cands;
    assert cands == [stored];
    assert DuplicateOf(s1.after, report, box, near) == Some(stored);
    ReportMerges(s1.after, report, c2, date, now2, box, near);
  }

  // ----- lifecycle -----

  /** `issueDAO.findById` on an argument that may be null: no row has a null
      key, so a null id finds nothing. */
  function Lookup(t: IssueDao.Table, issueId: Option<string>): (r: Option<Issue>)
    ensures r.Some? <==> issueId.Some? && IssueDao.HasId(t, issueId.value)
    ensures r.Some? ==> r.value in t && r.value.issueId == issueId
  {
    match issueId
    case None => None
    case Some(id) =>
      var r := IssueDao.FindById(t, id);
      if r.Some? then
        var k :| 0 <= k < |t| && t[k] == r.value;
        r
      else r
  }

  /** The issue as `updateIssueStatus` writes it back: the new status, and a
      fresh resolution time only when the new status is RESOLVED. Any other
      status keeps the stored resolution time, whatever it was. */
  function WithStatus(issue: Issue, newStatus: Option<string>, now: Time): (r: Issue)
    ensures r.status == newStatus
    ensures newStatus == Some(RESOLVED) ==> r.resolvedAt == Some(now)
    ensures newStatus != Some(RESOLVED) ==> r.resolvedAt == issue.resolvedAt
    ensures r.(status := issue.status, resolvedAt := issue.resolvedAt) == issue
  {
    var i := issue.(status := newStatus);
    if newStatus == Some(RESOLVED) then i.(resolvedAt := Some(now)) else i
  }

  /** `updateIssueStatus`: an unknown id fails and changes nothing; otherwise
      the stored issue takes the new status (and, for RESOLVED, the
      resolution time) and one audit row records the change. The status is
      not checked against the vocabulary. */
  function UpdateIssueStatus(w: World, issueId: Option<string>, newStatus: Option<string>, updatedBy: int,
                             remarks: Option<string>, proofImageUrl: Option<string>, now: Time): (s: Step<()>)
    ensures s.result.Failure? <==> Lookup(w.issues, issueId).None?
    ensures s.result.Failure? ==> s.result.error == IssueNotFound && s.after == w
    ensures s.result.Success? ==>
      && s.after.links == w.links && s.after.generator == w.generator
      && s.after.timeline == w.timeline +
           [IssueTimelineDao.Entry(issueId.value, newStatus, updatedBy, remarks, proofImageUrl, now)]
  {
    match Lookup(w.issues, issueId)
    case None => Step(Failure(IssueNotFound), w)
    case Some(issue) =>
      var issues := IssueDao.Update(w.issues, WithStatus(issue, newStatus, now));
      var timeline := IssueTimelineDao.Create(w.timeline, issueId.value, newStatus, updatedBy,
                                              remarks, proofImageUrl, now);
      Step(Success(()), w.(issues := issues, timeline := timeline))
  }

  /** What a status update does to the table: the next lookup of the issue
      sees the new status, every other column as before except the
      resolution time for RESOLVED, and every other issue is untouched. */
  lemma UpdateStatusEffects(w: World, id: string, newStatus: Option<string>, updatedBy: int,
                            remarks: Option<string>, proofImageUrl: Option<string>, now: Time)
    requires IssueDao.WellFormed(w.issues) && IssueDao.HasId(w.issues, id)
    ensures var s := UpdateIssueStatus(w, Some(id), newStatus, updatedBy, remarks, proofImageUrl, now);
      var before := IssueDao.FindById(w.issues, id).value;
      && IssueDao.WellFormed(s.after.issues)
      && IssueDao.FindById(s.after.issues, id) == Some(WithStatus(before, newStatus, now))
      && forall other :: other != id ==> IssueDao.FindById(s.after.issues, other) == IssueDao.FindById(w.issues, other)
  {
    var before := IssueDao.FindById(w.issues, id).value;
    var written := WithStatus(before, newStatus, now);
    IssueDao.UpdateThenFind(w.issues, written, id);
    assert IssueDao.Overwrite(before, written) == written;
    forall other | other != id
      ensures IssueDao.FindById(IssueDao.Update(w.issues, written), other) == IssueDao.FindById(w.issues, other)
    {
      IssueDao.UpdateThenFind(w.issues, written, other);
    }
  }

  /** A department as `departmentDAO.findById` returns it; only its name is
      read here, and it may be null. */
  datatype Department = Department(deptName: Option<string>)

  /** The active-department lookup. */
  type Departments = int -> Option<Department>

  /** Java string concatenation of a possibly null string. */
  function ConcatNullable(prefix: string, s: Option<string>): (r: string)
    ensures |r| >= |prefix| && r[..|prefix|] == prefix
    ensures s.Some? ==> r[|prefix|..] == s.value
    ensures s.None? ==> r[|prefix|..] == "null"
  {
    prefix + s.GetOr("null")
  }

  /** The remark an assignment records: the department's name when the
      department is found, the word "department" otherwise. */
  function AssignmentRemarks(dept: Option<Department>): (r: string)
    ensures dept.None? ==> r == "Assigned to department"
    ensures dept.Some? ==> r == ConcatNullable("Assigned to ", dept.value.deptName)
  {
    match dept
    case None => "Assigned to department"
    case Some(d) => ConcatNullable("Assigned to ", d.deptName)
  }

  /** `assignIssueToDepartment`: an unknown id fails and changes nothing;
      otherwise the issue takes the department and the ASSIGNED status (the
      department need not exist) and one ASSIGNED audit row names it. */
  function AssignIssueToDepartment(w: World, issueId: Option<string>, deptId: int, adminId: int,
                                   departments: Departments, now: Time): (s: Step<()>)
    ensures s.result.Failure? <==> Lookup(w.issues, issueId).None?
    ensures s.result.Failure? ==> s.result.error == IssueNotFound && s.after == w
    ensures s.result.Success? ==>
      && s.after.links == w.links && s.after.generator == w.generator
      && s.after.timeline == w.timeline +
           [IssueTimelineDao.Entry(issueId.value, Some(ASSIGNED), adminId,
                                   Some(AssignmentRemarks(departments(deptId))), None, now)]
  {
    match Lookup(w.issues, issueId)
    case None => Step(Failure(IssueNotFound), w)
    case Some(issue) =>
      var issues := IssueDao.Update(w.issues, issue.(deptId := Some(deptId), status := Some(ASSIGNED)));
      var timeline := IssueTimelineDao.Create(w.timeline, issueId.value, Some(ASSIGNED), adminId,
                                              Some(AssignmentRemarks(departments(deptId))), None, now);
      Step(Success(()), w.(issues := issues, timeline := timeline))
  }

  /** What an assignment does to the table: the issue gains the department
      and the ASSIGNED status and keeps everything else, including a
      resolution time it may carry; no other issue changes. */
  lemma AssignEffects(w: World, id: string, deptId: int, adminId: int, departments: Departments, now: Time)
    requires IssueDao.WellFormed(w.issues) && IssueDao.HasId(w.issues, id)
    ensures var s := AssignIssueToDepartment(w, Some(id), deptId, adminId, departments, now);
      var before := IssueDao.FindById(w.issues, id).value;
      && IssueDao.WellFormed(s.after.issues)
      && IssueDao.FindById(s.after.issues, id) == Some(before.(deptId := Some(deptId), status := Some(ASSIGNED)))
      && forall other :: other != id ==> IssueDao.FindById(s.after.issues, other) == IssueDao.FindById(w.issues, other)
  {
    var before := IssueDao.FindById(w.issues, id).value;
    var written := before.(deptId := Some(deptId), status := Some(ASSIGNED));
    IssueDao.UpdateThenFind(w.issues, written, id);
    assert IssueDao.Overwrite(before, written) == written;
    forall other | other != id
      ensures IssueDao.FindById(IssueDao.Update(w.issues, written), other) == IssueDao.FindById(w.issues, other)
    {
      IssueDao.UpdateThenFind(w.issues, written, other);
    }
  }

  /** Resolving and then assigning leaves an ASSIGNED issue that still
      carries its resolution time: the code does not keep "resolved_at is
      set exactly when the status is RESOLVED". */
  lemma ReassignKeepsResolvedAt(w: World, id: string, actor: int, deptId: int, departments: Departments,
                                t1: Time, t2: Time)
    requires IssueDao.WellFormed(w.issues) && IssueDao.HasId(w.issues, id)
    ensures var s1 := UpdateIssueStatus(w, Some(id), Some(RESOLVED), actor, None, None, t1);
      var s2 := AssignIssueToDepartment(s1.after, Some(id), deptId, actor, departments, t2);
      var after := IssueDao.FindById(s2.after.issues, id);
      after.Some? && after.value.status == Some(ASSIGNED) && after.value.resolvedAt == Some(t1)
  {
    UpdateStatusEffects(w, id, Some(RESOLVED), actor, None, None, t1);
    var s1 := UpdateIssueStatus(w, Some(id), Some(RESOLVED), actor, None, None, t1);
    AssignEffects(s1.after, id, deptId, actor, departments, t2);
  }

  /** A status update keeps the state valid: keys are untouched and the new
      audit row names a stored issue. */
  lemma UpdateKeepsValid(w: World, issueId: Option<string>, newStatus: Option<string>, actor: int,
                         remarks: Option<string>, proof: Option<string>, now: Time)
    requires Valid(w)
    ensures Valid(UpdateIssueStatus(w, issueId, newStatus, actor, remarks, proof, now).after)
  {
    if Lookup(w.issues, issueId).Some? {
      var id := issueId.value;
      var s := UpdateIssueStatus(w, issueId, newStatus, actor, remarks, proof, now);
      UpdateStatusEffects(w, id, newStatus, actor, remarks, proof, now);
      KeyedStorePreserved(w.issues, s.after.issues, id);
      GrowKeepsValid(w, s.after, id);
    }
  }

  /** An assignment keeps the state valid. */
  lemma AssignKeepsValid(w: World, issueId: Option<string>, deptId: int, actor: int,
                         departments: Departments, now: Time)
    requires Valid(w)
    ensures Valid(AssignIssueToDepartment(w, issueId, deptId, actor, departments, now).after)
  {
    if Lookup(w.issues, issueId).Some? {
      var id := issueId.value;
      var s := AssignIssueToDepartment(w, issueId, deptId, actor, departments, now);
      AssignEffects(w, id, deptId, actor, departments, now);
      KeyedStorePreserved(w.issues, s.after.issues, id);
      GrowKeepsValid(w, s.after, id);
    }
  }

  // ----- lookups -----

  /** The result map of `getIssueDetails`: the issue, its timeline, and the
      department when the issue has one and the lookup finds it (the
      `departmentName` key is present exactly then). */
  datatype Details = Details(issue: Issue, timeline: seq<IssueTimelineDao.EntryView>,
                             department: Option<Department>)

  /** `getIssueDetails`: nothing for an unknown id; otherwise the stored
      issue, its joined timeline oldest first, and its department. */
  function GetIssueDetails(w: World, issueId: Option<string>, users: IssueTimelineDao.Users,
                           departments: Departments): (r: Option<Details>)
    ensures r.None? <==> Lookup(w.issues, issueId).None?
    ensures r.Some? ==> r.value.issue in w.issues && r.value.issue.issueId == issueId
    ensures r.Some? ==> forall v :: v in r.value.timeline <==>
      v.entry in w.timeline && Some(v.entry.issueId) == issueId && users(v.entry.updatedBy) == Some(v.actor)
    ensures r.Some? ==> (r.value.department.Some? <==>
      r.value.issue.deptId.Some? && departments(r.value.issue.deptId.value).Some?)
    ensures r.Some? ==> r.value.timeline == IssueTimelineDao.FindByIssueId(w.timeline, issueId.value, users)
    ensures r.Some? && r.value.issue.deptId.Some? ==> r.value.department == departments(r.value.issue.deptId.value)
    ensures r.Some? && r.value.issue.deptId.None? ==> r.value.department.None?
  {
    match Lookup(w.issues, issueId)
    case None => None
    case Some(issue) =>
      var timeline := IssueTimelineDao.FindByIssueId(w.timeline, issueId.value, users);
      var department := if issue.deptId.Some? then departments(issue.deptId.value) else None;
      Some(Details(issue, timeline, department))
  }

  /** After a status update whose actor is a known user, the issue's details
      show the new status and a timeline holding the audit row just written. */
  lemma DetailsShowUpdate(w: World, id: string, newStatus: Option<string>, actor: int,
                          remarks: Option<string>, proof: Option<string>, now: Time,
                          users: IssueTimelineDao.Users, departments: Departments)
    requires IssueDao.WellFormed(w.issues) && IssueDao.HasId(w.issues, id)
    requires users(actor).Some?
    ensures var s := UpdateIssueStatus(w, Some(id), newStatus, actor, remarks, proof, now);
      var d := GetIssueDetails(s.after, Some(id), users, departments);
      && d.Some? && d.value.issue.status == newStatus
      && IssueTimelineDao.EntryView(IssueTimelineDao.Entry(id, newStatus, actor, remarks, proof, now),
                                    users(actor).value) in d.value.timeline
  {
    UpdateStatusEffects(w, id, newStatus, actor, remarks, proof, now);
    var s := UpdateIssueStatus(w, Some(id), newStatus, actor, remarks, proof, now);
    assert s.after.timeline[|w.timeline|] == IssueTimelineDao.Entry(id, newStatus, actor, remarks, proof, now);
  }

  /** The stored issues of `ids`, in order, skipping ids nothing is stored
      under. */
  function ResolveIds(t: IssueDao.Table, ids: seq<string>): (r: seq<Issue>)
    ensures |r| <= |ids|
    ensures forall x :: x in r <==> exists k :: 0 <= k < |ids| && IssueDao.FindById(t, ids[k]) == Some(x)
    ensures (forall k :: 0 <= k < |ids| ==> IssueDao.HasId(t, ids[k])) ==>
      |r| == |ids| && forall k :: 0 <= k < |ids| ==> Some(r[k]) == IssueDao.FindById(t, ids[k])
  {
    if |ids| == 0 then []
    else
      var rest := ResolveIds(t, ids[1..]);
      assert forall k :: 1 <= k < |ids| ==> ids[k] == ids[1..][k - 1];
      match IssueDao.FindById(t, ids[0])
      case None => rest
      case Some(x) => [x] + rest
  }

  /** One id resolves to the issue stored under it, or to nothing. */
  lemma ResolveOne(t: IssueDao.Table, id: string)
    ensures ResolveIds(t, [id]) == match IssueDao.FindById(t, id) case None => [] case Some(x) => [x]
  {
    assert [id][1..] == [];
  }

  /** Resolving a concatenation resolves each part and concatenates, so the
      results keep the order of their ids and a missing id drops out without
      disturbing the rest. With `ResolveOne` this pins the result down. */
  lemma {:induction false} ResolveIdsAppend(t: IssueDao.Table, a: seq<string>, b: seq<string>)
    ensures ResolveIds(t, a + b) == ResolveIds(t, a) + ResolveIds(t, b)
    decreases |a|
  {
    if |a| > 0 {
      assert (a + b)[0] == a[0] && (a + b)[1..] == a[1..] + b;
      ResolveIdsAppend(t, a[1..], b);
    } else {
      assert a + b == b;
    }
  }

  /** `getCitizenIssues`: the issues the citizen is linked to, most recent
      link first; an issue appears once per link. */
  function GetCitizenIssues(w: World, citizenId: int): (r: seq<Issue>)
    ensures forall x :: x in r ==>
      x in w.issues && x.issueId.Some? && CitizenIssueMapDao.IsCitizenMapped(w.links, citizenId, x.issueId.value)
  {
    var ids := CitizenIssueMapDao.FindIssueIdsByCitizen(w.links, citizenId);
    var r := ResolveIds(w.issues, ids);
    forall x | x in r
      ensures x in w.issues && x.issueId.Some? && CitizenIssueMapDao.IsCitizenMapped(w.links, citizenId, x.issueId.value)
    {
      var k :| 0 <= k < |ids| && IssueDao.FindById(w.issues, ids[k]) == Some(x);
      assert ids[k] in ids;
    }
    r
  }

  /** In a valid state no link dangles, so a citizen sees one issue per link
      they hold, and every stored issue they are linked to. */
  lemma CitizenIssuesComplete(w: World, citizenId: int)
    requires Valid(w)
    ensures |GetCitizenIssues(w, citizenId)| == Collections.Count(w.links, CitizenIssueMapDao.LinkCitizen, citizenId)
    ensures forall x :: x in GetCitizenIssues(w, citizenId) <==>
      x in w.issues && x.issueId.Some? && CitizenIssueMapDao.IsCitizenMapped(w.links, citizenId, x.issueId.value)
  {
    var ids := CitizenIssueMapDao.FindIssueIdsByCitizen(w.links, citizenId);
    forall k | 0 <= k < |ids|
      ensures IssueDao.HasId(w.issues, ids[k])
    {
      assert ids[k] in ids;
      var j :| 0 <= j < |w.links| && w.links[j].citizenId == citizenId && w.links[j].issueId == ids[k];
    }
    forall x | x in w.issues && x.issueId.Some? && CitizenIssueMapDao.IsCitizenMapped(w.links, citizenId, x.issueId.value)
      ensures x in GetCitizenIssues(w, citizenId)
    {
      var i := IssueDao.FindIndex(w.issues, x);
      IssueDao.FindByIdIsRow(w.issues, i);
      assert x.issueId.value in ids;
      var k :| 0 <= k < |ids| && ids[k] == x.issueId.value;
    }
  }

  /** A report, merged or not, makes its issue show up in the reporter's list. */
  lemma ReportShowsForCitizen(w: World, newIssue: Issue, citizenId: int, date: string, now: Time,
                              box: BoundingBox, near: Near)
    requires Valid(w)
    requires ReportIssue(w, newIssue, citizenId, date, now, box, near).result.Success?
    ensures var s := ReportIssue(w, newIssue, citizenId, date, now, box, near);
      exists x :: x in GetCitizenIssues(s.after, citizenId) && x.issueId == Some(s.result.value.issueId)
  {
    var s := ReportIssue(w, newIssue, citizenId, date, now, box, near);
    var id := s.result.value.issueId;
    ReportKeepsValid(w, newIssue, citizenId, date, now, box, near);
    CitizenIssueMapDao.CreateEffects(w.links, citizenId, id, now);
    assert s.after.links[|w.links|].issueId == id;
    var x := IssueDao.FindById(s.after.issues, id).value;
    CitizenIssuesComplete(s.after, citizenId);
  }

  // ----- analytics -----

  /** The result map of `getAnalytics`. */
  datatype Analytics = Analytics(totalIssues: nat, reportedIssues: nat, assignedIssues: nat, inProgressIssues: nat,
                                 resolvedIssues: nat, pendingIssues: nat, byCategory: map<Option<string>, nat>)

  /** How many issues carry `status`. */
  function StatusCount(t: seq<Issue>, status: string): nat {
    Collections.Count(t, StatusOf, Some(status))
  }

  /** What a successful analytics result says about a list of issues: the
      total, one count per named status, pending as the sum of the three
      open ones, and per category (null included) its number of issues. A
      status outside the four named ones is counted only in the total. */
  ghost predicate IsAnalyticsOf(t: seq<Issue>, a: Analytics) {
    && a.totalIssues == |t|
    && a.reportedIssues == StatusCount(t, REPORTED)
    && a.assignedIssues == StatusCount(t, ASSIGNED)
    && a.inProgressIssues == StatusCount(t, IN_PROGRESS)
    && a.resolvedIssues == StatusCount(t, RESOLVED)
    && a.pendingIssues == a.reportedIssues + a.assignedIssues + a.inProgressIssues
    && (forall c :: c in a.byCategory <==> exists k :: 0 <= k < |t| && t[k].category == c)
    && (forall c :: c in a.byCategory ==> a.byCategory[c] == Collections.Count(t, CategoryOf, c))
    && Collections.SumValues(a.byCategory) == |t|
  }

  /** `getAnalytics`: one pass over `findAll`. A null status makes the
      `switch` throw. */
  method GetAnalytics(t: IssueDao.Table) returns (r: Result<Analytics, ServiceError>)
    ensures r.Failure? <==> exists k :: 0 <= k < |t| && t[k].status.None?
    ensures r.Failure? ==> r.error == NullPointer
    ensures r.Success? ==> IsAnalyticsOf(t, r.value)
  {
    var all := IssueDao.FindAll(t);
    r := Tally(all);
    TallyTransfer(all, t);
    if r.Success? {
      AnalyticsOfReordering(all, t, r.value);
    }
  }

  /** The loop of `getAnalytics`, over the issues in the order given. */
  method Tally(all: seq<Issue>) returns (r: Result<Analytics, ServiceError>)
    ensures r.Failure? <==> exists k :: 0 <= k < |all| && all[k].status.None?
    ensures r.Failure? ==> r.error == NullPointer
    ensures r.Success? ==> IsAnalyticsOf(all, r.value)
  {
    var reportedIssues, assignedIssues, inProgressIssues, resolvedIssues := 0, 0, 0, 0;
    var byCategory: map<Option<string>, nat> := map[];
    var i := 0;
    while i < |all|
      invariant 0 <= i <= |all|
      invariant forall k :: 0 <= k < i ==> all[k].status.Some?
      invariant reportedIssues == StatusCount(all[..i], REPORTED)
      invariant assignedIssues == StatusCount(all[..i], ASSIGNED)
      invariant inProgressIssues == StatusCount(all[..i], IN_PROGRESS)
      invariant resolvedIssues == StatusCount(all[..i], RESOLVED)
      invariant TalliesCategories(byCategory, all[..i])
    {
      var issue := all[i];
      if issue.status.None? {
        return Failure(NullPointer);
      }
      TallyStep(all, i);
      var status := issue.status.value;
      if status == REPORTED {
        reportedIssues := reportedIssues + 1;
      } else if status == ASSIGNED {
        assignedIssues := assignedIssues + 1;
      } else if status == IN_PROGRESS {
        inProgressIssues := inProgressIssues + 1;
      } else if status == RESOLVED {
        resolvedIssues := resolvedIssues + 1;
      }
      CategoryStep(all, i, byCategory);
      byCategory := Collections.Bump(byCategory, issue.category);
      i := i + 1;
    }
    assert all[..i] == all;
    assert TalliesCategories(byCategory, all);
    forall c
      ensures c in byCategory <==> exists k :: 0 <= k < |all| && all[k].category == c
    {
      Collections.CountPositive(all, CategoryOf, c);
    }
    return Success(Analytics(|all|, reportedIssues, assignedIssues, inProgressIssues, resolvedIssues,
                             reportedIssues + assignedIssues + inProgressIssues, byCategory));
  }

  /** `m` counts the categories of `prefix`: exactly the categories present
      are keys, each with its number of issues, and the values add up to the
      length. */
  ghost predicate TalliesCategories(m: map<Option<string>, nat>, prefix: seq<Issue>) {
    && (forall c :: c !in m ==> Collections.Count(prefix, CategoryOf, c) == 0)
    && (forall c :: c in m ==> m[c] == Collections.Count(prefix, CategoryOf, c) > 0)
    && Collections.SumValues(m) == |prefix|
  }

  /** Counting one more issue keeps the category map in step. */
  lemma CategoryStep(all: seq<Issue>, i: nat, m: map<Option<string>, nat>)
    requires i < |all| && TalliesCategories(m, all[..i])
    ensures TalliesCategories(Collections.Bump(m, all[i].category), all[..i + 1])
  {
    Collections.SumValuesBump(m, all[i].category);
    forall c
      ensures Collections.Count(all[..i + 1], CategoryOf, c) ==
        Collections.Count(all[..i], CategoryOf, c) + (if all[i].category == c then 1 else 0)
    {
      Collections.CountPrefixStep(all, i, CategoryOf, c);
    }
  }

  /** The analytics of a list are those of any reordering of it. */
  lemma AnalyticsOfReordering(all: seq<Issue>, t: seq<Issue>, a: Analytics)
    requires multiset(all) == multiset(t) && IsAnalyticsOf(all, a)
    ensures IsAnalyticsOf(t, a)
  {
    TallyTransfer(all, t);
    forall c
      ensures c in a.byCategory <==> exists k :: 0 <= k < |t| && t[k].category == c
    {
      Collections.CountPositive(all, CategoryOf, c);
      Collections.CountPositive(t, CategoryOf, c);
    }
  }

  /** One more issue raises the count of its own status by one and leaves
      the others. */
  lemma TallyStep(all: seq<Issue>, i: nat)
    requires i < |all|
    ensures forall status ::
      StatusCount(all[..i + 1], status) == StatusCount(all[..i], status) + (if all[i].status == Some(status) then 1 else 0)
  {
    forall status
      ensures StatusCount(all[..i + 1], status) ==
        StatusCount(all[..i], status) + (if all[i].status == Some(status) then 1 else 0)
    {
      Collections.CountPrefixStep(all, i, StatusOf, Some(status));
    }
  }

  /** The tallies of a reordering are the tallies of the original. */
  lemma TallyTransfer(all: seq<Issue>, t: seq<Issue>)
    requires multiset(all) == multiset(t)
    ensures (exists k :: 0 <= k < |all| && all[k].status.None?) <==> exists k :: 0 <= k < |t| && t[k].status.None?
    ensures |all| == |t|
    ensures forall status :: StatusCount(all, status) == StatusCount(t, status)
    ensures forall c :: Collections.Count(all, CategoryOf, c) == Collections.Count(t, CategoryOf, c)
  {
    assert |multiset(all)| == |multiset(t)|;
    forall k | 0 <= k < |t|
      ensures t[k] in all
    {
      assert t[k] in multiset(all);
    }
    forall k | 0 <= k < |all|
      ensures all[k] in t
    {
      assert all[k] in multiset(t);
    }
    forall status
      ensures StatusCount(all, status) == StatusCount(t, status)
    {
      Collections.CountPermutation(all, t, StatusOf, Some(status));
    }
    forall c
      ensures Collections.Count(all, CategoryOf, c) == Collections.Count(t, CategoryOf, c)
    {
      Collections.CountPermutation(all, t, CategoryOf, c);
    }
  }

  /** Whether a status is one of the four the engine names. */
  predicate IsKnownStatus(i: Issue) {
    i.status in {Some(REPORTED), Some(ASSIGNED), Some(IN_PROGRESS), Some(RESOLVED)}
  }

  /** Every issue falls in exactly one bucket: the four named statuses plus
      the rest make up the whole table. */
  lemma {:induction false} StatusBucketsPartition(t: seq<Issue>)
    ensures StatusCount(t, REPORTED) + StatusCount(t, ASSIGNED) + StatusCount(t, IN_PROGRESS) +
            StatusCount(t, RESOLVED) + Collections.Count(t, IsKnownStatus, false) == |t|
  {
    if |t| > 0 {
      StatusBucketsPartition(t[..|t| - 1]);
    }
  }

  /** So the pending figure is the total minus the resolved ones exactly
      when every issue carries one of the four statuses; otherwise it is
      smaller. */
  lemma PendingIsUnresolved(t: seq<Issue>)
    ensures StatusCount(t, REPORTED) + StatusCount(t, ASSIGNED) + StatusCount(t, IN_PROGRESS)
            <= |t| - StatusCount(t, RESOLVED)
    ensures (StatusCount(t, REPORTED) + StatusCount(t, ASSIGNED) + StatusCount(t, IN_PROGRESS)
             == |t| - StatusCount(t, RESOLVED)) <==> forall k :: 0 <= k < |t| ==> IsKnownStatus(t[k])
  {
    StatusBucketsPartition(t);
    Collections.CountPositive(t, IsKnownStatus, false);
  }
}
