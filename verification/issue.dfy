/** The issue record and its status vocabulary. */
module IssueModel {
  import opened Wrappers

  /** A timestamp, supplied by the caller instead of read from a clock. */
  type Time = nat

  const REPORTED := "REPORTED"
  const ASSIGNED := "ASSIGNED"
  const IN_PROGRESS := "IN_PROGRESS"
  const RESOLVED := "RESOLVED"

  /** One tracked civic problem. Every reference field of the Java class may
      be `null`, and those whose nullness changes behaviour are `Option`s.
      Status is free text: nothing validates it. Coordinates are reals. */
  datatype Issue = Issue(
    issueId: Option<string>,
    category: Option<string>,
    locationLat: real,
    locationLng: real,
    address: Option<string>,
    description: Option<string>,
    status: Option<string>,
    reportCount: int,
    deptId: Option<int>,
    imageUrl: Option<string>,
    createdAt: Option<Time>,
    resolvedAt: Option<Time>)

  /** The statuses under which an issue may still absorb duplicate reports. */
  predicate IsOpenStatus(status: Option<string>) {
    status == Some(REPORTED) || status == Some(ASSIGNED) || status == Some(IN_PROGRESS)
  }

  function StatusOf(i: Issue): Option<string> {
    i.status
  }

  function CategoryOf(i: Issue): Option<string> {
    i.category
  }

  /** The no-argument constructor: every reference null, numbers zero. */
  function BlankIssue(): (i: Issue)
    ensures i.status.None? && i.reportCount == 0
    ensures i.issueId.None? && i.category.None? && i.deptId.None? && i.imageUrl.None?
    ensures i.createdAt.None? && i.resolvedAt.None?
    ensures i.address.None? && i.description.None?
    ensures i.locationLat == 0.0 && i.locationLng == 0.0
  {
    Issue(None, None, 0.0, 0.0, None, None, None, 0, None, None, None, None)
  }

  /** The five-argument constructor a citizen report is built with: the
      report's own fields are copied, the issue starts REPORTED with one
      report, and identity, department, image and timestamps stay null. */
  function NewIssue(category: Option<string>, lat: real, lng: real,
                    address: Option<string>, description: Option<string>): (i: Issue)
    ensures i.category == category && i.locationLat == lat && i.locationLng == lng
    ensures i.address == address && i.description == description
    ensures i.status == Some(REPORTED) && i.reportCount == 1
    ensures i.issueId.None? && i.deptId.None? && i.imageUrl.None?
    ensures i.createdAt.None? && i.resolvedAt.None?
  {
    Issue(None, category, lat, lng, address, description, Some(REPORTED), 1, None, None, None, None)
  }

  /** `incrementReportCount`: one more report, nothing else touched. */
  function IncrementReportCount(i: Issue): (r: Issue)
    ensures r.reportCount == i.reportCount + 1
    ensures r.(reportCount := i.reportCount) == i
  {
    i.(reportCount := i.reportCount + 1)
  }

  /** `setStatus`: writing back the old status restores the record. */
  function SetStatus(i: Issue, status: Option<string>): (r: Issue)
    ensures r.status == status
    ensures r.(status := i.status) == i
  {
    i.(status := status)
  }

  /** `setDeptId`: writing back the old department restores the record. */
  function SetDeptId(i: Issue, deptId: Option<int>): (r: Issue)
    ensures r.deptId == deptId
    ensures r.(deptId := i.deptId) == i
  {
    i.(deptId := deptId)
  }

  /** `setResolvedAt`: writing back the old stamp restores the record. */
  function SetResolvedAt(i: Issue, at: Option<Time>): (r: Issue)
    ensures r.resolvedAt == at
    ensures r.(resolvedAt := i.resolvedAt) == i
  {
    i.(resolvedAt := at)
  }

  /** `setIssueId`: writing back the old id restores the record. */
  function SetIssueId(i: Issue, id: Option<string>): (r: Issue)
    ensures r.issueId == id
    ensures r.(issueId := i.issueId) == i
  {
    i.(issueId := id)
  }

  /** `setReportCount`: writing back the old count restores the record. */
  function SetReportCount(i: Issue, n: int): (r: Issue)
    ensures r.reportCount == n
    ensures r.(reportCount := i.reportCount) == i
  {
    i.(reportCount := n)
  }
}
