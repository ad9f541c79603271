/** The `issues` table and the queries the core issues against it. The table
    is the sequence of its rows in storage order; `issue_id` is its primary
    key, so a well-formed table has a non-null, distinct id on every row. */
module IssueDao {
  import opened Wrappers
  import opened IssueModel
  import Collections

  type Table = seq<Issue>

  /** Why an insert is refused: the primary key is null or already taken. */
  datatype StoreError = NullKey | DuplicateKey

  /** A latitude/longitude window, bounds included. */
  datatype Box = Box(minLat: real, maxLat: real, minLng: real, maxLng: real)

  /** `LIMIT 50` of the nearby-issue query. */
  const NEARBY_LIMIT: nat := 50

  ghost predicate HasId(t: Table, id: string) {
    exists k :: 0 <= k < |t| && t[k].issueId == Some(id)
  }

  /** The primary-key constraint. */
  ghost predicate WellFormed(t: Table) {
    && (forall k :: 0 <= k < |t| ==> t[k].issueId.Some?)
    && (forall j, k :: 0 <= j < k < |t| ==> t[j].issueId != t[k].issueId)
  }

  /** `findById`: `SELECT * FROM issues WHERE issue_id = ?`. */
  function FindById(t: Table, id: string): (r: Option<Issue>)
    ensures r.None? <==> !HasId(t, id)
    ensures r.Some? ==> exists k :: 0 <= k < |t| && t[k] == r.value && r.value.issueId == Some(id)
  {
    if |t| == 0 then None
    else if t[0].issueId == Some(id) then Some(t[0])
    else
      var r := FindById(t[1..], id);
      assert HasId(t[1..], id) ==> HasId(t, id);
      assert r.Some? ==> r.value == t[1..][FindIndex(t[1..], r.value)];
      r
  }

  /** An index holding `x`, for the proof of `FindById`. */
  ghost function FindIndex(t: Table, x: Issue): (k: nat)
    requires x in t
    ensures k < |t| && t[k] == x
  {
    var k :| 0 <= k < |t| && t[k] == x; k
  }

  /** In a well-formed table a lookup by a row's own id returns that row. */
  lemma {:induction false} FindByIdIsRow(t: Table, k: nat)
    requires WellFormed(t) && k < |t|
    ensures FindById(t, t[k].issueId.value) == Some(t[k])
  {
    if k > 0 {
      FindByIdIsRow(t[1..], k - 1);
    }
  }

  /** The row `create` stores: the record's columns, `created_at` stamped by
      the database, `resolved_at` left null because the insert does not list
      it. */
  function Inserted(issue: Issue, now: Time): (row: Issue)
    ensures row.createdAt == Some(now) && row.resolvedAt.None?
    ensures row.(createdAt := issue.createdAt, resolvedAt := issue.resolvedAt) == issue
  {
    issue.(createdAt := Some(now), resolvedAt := None)
  }

  /** `create`: one INSERT, refused when the key is null or taken. */
  function Create(t: Table, issue: Issue, now: Time): (r: Result<Table, StoreError>)
    ensures r.Failure? <==> issue.issueId.None? || HasId(t, issue.issueId.value)
    ensures r.Success? ==> r.value == t + [Inserted(issue, now)]
  {
    match issue.issueId
    case None => Failure(NullKey)
    case Some(id) => if FindById(t, id).Some? then Failure(DuplicateKey) else Success(t + [Inserted(issue, now)])
  }

  /** After a successful insert the table is still keyed, the new id finds the
      new row and every other id finds what it found before. */
  lemma CreateThenFind(t: Table, issue: Issue, now: Time)
    requires WellFormed(t) && Create(t, issue, now).Success?
    ensures WellFormed(Create(t, issue, now).value)
    ensures FindById(Create(t, issue, now).value, issue.issueId.value) == Some(Inserted(issue, now))
    ensures forall id :: id != issue.issueId.value ==> FindById(Create(t, issue, now).value, id) == FindById(t, id)
  {
    var t' := Create(t, issue, now).value;
    FindByIdIsRow(t', |t|);
    forall id | id != issue.issueId.value
      ensures FindById(t', id) == FindById(t, id)
    {
      FindByIdAppend(t, Inserted(issue, now), id);
    }
  }

  lemma {:induction false} FindByIdAppend(t: Table, row: Issue, id: string)
    requires row.issueId != Some(id)
    ensures FindById(t + [row], id) == FindById(t, id)
  {
    if |t| > 0 {
      assert (t + [row])[1..] == t[1..] + [row];
      FindByIdAppend(t[1..], row, id);
    }
  }

  /** The WHERE clause of `findNearbyIssues`: same (non-null) category, an
      open status, and both coordinates inside the box, bounds included. */
  predicate MatchesNearby(row: Issue, category: Option<string>, box: Box) {
    && category.Some? && row.category == category
    && IsOpenStatus(row.status)
    && box.minLat <= row.locationLat <= box.maxLat
    && box.minLng <= row.locationLng <= box.maxLng
  }

  /** Every matching row, in storage order. */
  function AllNearby(t: Table, category: Option<string>, box: Box): (r: Table)
    ensures forall x :: x in r <==> x in t && MatchesNearby(x, category, box)
    ensures |r| <= |t|
  {
    if |t| == 0 then []
    else
      var init := t[..|t| - 1];
      var last := t[|t| - 1];
      var rest := AllNearby(init, category, box);
      assert t == init + [last];
      if MatchesNearby(last, category, box) then rest + [last] else rest
  }

  /** A newly appended row joins the end of the matches if it matches. */
  lemma AllNearbyAppend(t: Table, row: Issue, category: Option<string>, box: Box)
    ensures AllNearby(t + [row], category, box) ==
      AllNearby(t, category, box) + (if MatchesNearby(row, category, box) then [row] else [])
  {
    assert (t + [row])[..|t|] == t;
  }

  /** `findNearbyIssues`: the first 50 matching rows. The query binds only the
      category and the box, so the centre `lat`/`lng` play no part. The query
      has no ORDER BY; the model returns rows in storage order. */
  function FindNearbyIssues(t: Table, category: Option<string>, lat: real, lng: real, box: Box): (r: Table)
    ensures |r| <= NEARBY_LIMIT
    ensures forall k :: 0 <= k < |r| ==> r[k] in t && MatchesNearby(r[k], category, box)
    ensures |r| <= |AllNearby(t, category, box)| && r == AllNearby(t, category, box)[..|r|]
    ensures |r| < NEARBY_LIMIT ==> forall x :: x in t && MatchesNearby(x, category, box) ==> x in r
  {
    var all := AllNearby(t, category, box);
    if |all| <= NEARBY_LIMIT then all else all[..NEARBY_LIMIT]
  }

  /** The centre coordinates do not influence the result. */
  lemma NearbyIgnoresCentre(t: Table, category: Option<string>, lat1: real, lng1: real,
                            lat2: real, lng2: real, box: Box)
    ensures FindNearbyIssues(t, category, lat1, lng1, box) == FindNearbyIssues(t, category, lat2, lng2, box)
  {
  }

  /** The columns `update` writes; the others keep the stored values. */
  function Overwrite(row: Issue, issue: Issue): Issue {
    row.(status := issue.status, reportCount := issue.reportCount, deptId := issue.deptId,
         imageUrl := issue.imageUrl, resolvedAt := issue.resolvedAt)
  }

  /** `update`: `UPDATE issues SET status, report_count, dept_id, image_url,
      resolved_at WHERE issue_id = ?`. */
  function Update(t: Table, issue: Issue): (r: Table)
    ensures |r| == |t|
    ensures forall k :: 0 <= k < |t| ==>
      && r[k].issueId == t[k].issueId && r[k].category == t[k].category
      && r[k].locationLat == t[k].locationLat && r[k].locationLng == t[k].locationLng
      && r[k].address == t[k].address && r[k].description == t[k].description
      && r[k].createdAt == t[k].createdAt
    ensures forall k :: 0 <= k < |t| && issue.issueId.Some? && t[k].issueId == issue.issueId ==>
      && r[k].status == issue.status && r[k].reportCount == issue.reportCount
      && r[k].deptId == issue.deptId && r[k].imageUrl == issue.imageUrl
      && r[k].resolvedAt == issue.resolvedAt
    ensures forall k :: 0 <= k < |t| && (issue.issueId.None? || t[k].issueId != issue.issueId) ==> r[k] == t[k]
  {
    if |t| == 0 then []
    else
      var head := if issue.issueId.Some? && t[0].issueId == issue.issueId then Overwrite(t[0], issue) else t[0];
      [head] + Update(t[1..], issue)
  }

  /** `incrementReportCount`: `report_count = report_count + 1` on the row with
      that id, if there is one; nothing else changes. */
  function IncrementReportCount(t: Table, id: string): (r: Table)
    ensures |r| == |t|
    ensures forall k :: 0 <= k < |t| && t[k].issueId == Some(id) ==>
      r[k] == t[k].(reportCount := t[k].reportCount + 1)
    ensures forall k :: 0 <= k < |t| && t[k].issueId != Some(id) ==> r[k] == t[k]
  {
    if |t| == 0 then []
    else
      var head := if t[0].issueId == Some(id) then t[0].(reportCount := t[0].reportCount + 1) else t[0];
      [head] + IncrementReportCount(t[1..], id)
  }

  /** Two tables whose rows carry the same ids position by position. */
  ghost predicate SameKeys(t: Table, t': Table) {
    |t'| == |t| && forall k :: 0 <= k < |t| ==> t'[k].issueId == t[k].issueId
  }

  /** A table with the keys of a keyed table is keyed, and holds the same
      ids. */
  lemma SameKeysWellFormed(t: Table, t': Table, id: string)
    requires WellFormed(t) && SameKeys(t, t')
    ensures WellFormed(t')
    ensures HasId(t', id) <==> HasId(t, id)
  {
    if HasId(t', id) {
      var k :| 0 <= k < |t'| && t'[k].issueId == Some(id);
      assert t[k].issueId == Some(id);
    }
  }

  /** In two tables with the same keys, a lookup lands on the same position. */
  lemma SameKeysFindAt(t: Table, t': Table, k: nat)
    requires WellFormed(t) && SameKeys(t, t') && k < |t|
    ensures FindById(t, t[k].issueId.value) == Some(t[k])
    ensures FindById(t', t[k].issueId.value) == Some(t'[k])
  {
    SameKeysWellFormed(t, t', t[k].issueId.value);
    FindByIdIsRow(t, k);
    FindByIdIsRow(t', k);
  }

  /** An update is seen by the next lookup of that id, and by no other. */
  lemma UpdateThenFind(t: Table, issue: Issue, id: string)
    requires WellFormed(t)
    ensures WellFormed(Update(t, issue))
    ensures FindById(Update(t, issue), id) ==
      match FindById(t, id)
      case None => None
      case Some(row) => Some(if issue.issueId == Some(id) then Overwrite(row, issue) else row)
  {
    var t' := Update(t, issue);
    assert SameKeys(t, t');
    SameKeysWellFormed(t, t', id);
    if HasId(t, id) {
      var k :| 0 <= k < |t| && t[k].issueId == Some(id);
      SameKeysFindAt(t, t', k);
    }
  }

  /** An increment keeps every row's id in place. */
  lemma IncrementKeepsKeys(t: Table, id: string)
    ensures SameKeys(t, IncrementReportCount(t, id))
  {
    var t' := IncrementReportCount(t, id);
    forall k | 0 <= k < |t|
      ensures t'[k].issueId == t[k].issueId
    {
      if t[k].issueId == Some(id) {
        assert t'[k] == t[k].(reportCount := t[k].reportCount + 1);
      }
    }
  }

  /** After an increment the row at the incremented id is the old row with
      one more report, and the next lookup finds it. */
  lemma IncrementFindAt(t: Table, id: string, k: nat)
    requires WellFormed(t) && k < |t| && t[k].issueId == Some(id)
    ensures FindById(t, id) == Some(t[k])
    ensures FindById(IncrementReportCount(t, id), id) == Some(IssueModel.IncrementReportCount(t[k]))
  {
    IncrementKeepsKeys(t, id);
    SameKeysFindAt(t, IncrementReportCount(t, id), k);
    IncrementRowAt(t, id, k);
  }

  /** The incremented row, position by position. */
  lemma IncrementRowAt(t: Table, id: string, k: nat)
    requires k < |t| && t[k].issueId == Some(id)
    ensures IncrementReportCount(t, id)[k] == IssueModel.IncrementReportCount(t[k])
  {
  }

  /** After an increment the table is still keyed and the next lookup of
      that id sees the same issue with exactly one more report. */
  lemma IncrementThenFind(t: Table, id: string)
    requires WellFormed(t)
    ensures WellFormed(IncrementReportCount(t, id))
    ensures FindById(t, id).None? ==> FindById(IncrementReportCount(t, id), id).None?
    ensures FindById(t, id).Some? ==>
      FindById(IncrementReportCount(t, id), id) == Some(IssueModel.IncrementReportCount(FindById(t, id).value))
  {
    IncrementKeepsKeys(t, id);
    SameKeysWellFormed(t, IncrementReportCount(t, id), id);
    if HasId(t, id) {
      var k :| 0 <= k < |t| && t[k].issueId == Some(id);
      IncrementFindAt(t, id, k);
    }
  }

  /** An increment is invisible to lookups of any other id. */
  lemma IncrementLeavesOthers(t: Table, id: string, other: string)
    requires WellFormed(t) && other != id
    ensures FindById(IncrementReportCount(t, id), other) == FindById(t, other)
  {
    var t' := IncrementReportCount(t, id);
    IncrementKeepsKeys(t, id);
    SameKeysWellFormed(t, t', other);
    if HasId(t, other) {
      var k :| 0 <= k < |t| && t[k].issueId == Some(other);
      SameKeysFindAt(t, t', k);
    }
  }

  /** The `ORDER BY created_at DESC` key; MySQL puts null last in descending
      order. */
  function CreatedKey(i: Issue): int {
    match i.createdAt
    case Some(at) => at
    case None => -1
  }

  /** `findAll`: every stored issue, newest `created_at` first. */
  function FindAll(t: Table): (r: Table)
    ensures multiset(r) == multiset(t) && |r| == |t|
    ensures forall j, k :: 0 <= j < k < |r| ==> CreatedKey(r[j]) >= CreatedKey(r[k])
  {
    Collections.SortDesc(t, CreatedKey)
  }
}
