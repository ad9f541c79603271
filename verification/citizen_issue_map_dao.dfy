/** The `citizen_issue_map` table: one row per report a citizen made, whether
    that report created an issue or was merged into one. Rows are only ever
    inserted, never deduplicated, edited or removed. */
module CitizenIssueMapDao {
  import opened IssueModel
  import Collections

  /** One report: who, which issue, and `reported_at` (stamped at insert). */
  datatype Link = Link(citizenId: int, issueId: string, reportedAt: Time)

  type Links = seq<Link>

  function LinkIssue(l: Link): string {
    l.issueId
  }

  function LinkCitizen(l: Link): int {
    l.citizenId
  }

  function ReportedKey(l: Link): int {
    l.reportedAt
  }

  /** `create`: an INSERT, so a repeated (citizen, issue) pair adds another
      row. Earlier rows are kept as they were. */
  function Create(links: Links, citizenId: int, issueId: string, now: Time): (r: Links)
    ensures |r| == |links| + 1 && r[..|links|] == links
    ensures r[|links|] == Link(citizenId, issueId, now)
  {
    links + [Link(citizenId, issueId, now)]
  }

  /** `isCitizenMapped`: `COUNT(*) > 0` over the rows for that pair. */
  function IsCitizenMapped(links: Links, citizenId: int, issueId: string): (b: bool)
    ensures b <==> exists k :: 0 <= k < |links| && links[k].citizenId == citizenId && links[k].issueId == issueId
  {
    if |links| == 0 then false
    else
      var last := links[|links| - 1];
      var rest := links[..|links| - 1];
      assert forall k :: 0 <= k < |rest| ==> rest[k] == links[k];
      (last.citizenId == citizenId && last.issueId == issueId) || IsCitizenMapped(rest, citizenId, issueId)
  }

  /** `getReporterCount`: `COUNT(*)` over the rows for that issue, repeats
      included. */
  function GetReporterCount(links: Links, issueId: string): (n: nat)
    ensures n <= |links|
    ensures n > 0 <==> exists k :: 0 <= k < |links| && links[k].issueId == issueId
    ensures n == |RowsOf(links, issueId)|
  {
    Collections.CountPositive(links, LinkIssue, issueId);
    ReporterCountIsRows(links, issueId);
    Collections.Count(links, LinkIssue, issueId)
  }

  /** The positions of the rows naming `issueId`. */
  ghost function RowsOf(links: Links, issueId: string): set<int> {
    set k | 0 <= k < |links| && links[k].issueId == issueId
  }

  /** Counting by key is counting the rows naming the issue. */
  lemma {:induction false} ReporterCountIsRows(links: Links, issueId: string)
    ensures Collections.Count(links, LinkIssue, issueId) == |RowsOf(links, issueId)|
  {
    if |links| > 0 {
      var p := links[..|links| - 1];
      ReporterCountIsRows(p, issueId);
      if links[|links| - 1].issueId == issueId {
        assert RowsOf(links, issueId) == RowsOf(p, issueId) + {|links| - 1};
      } else {
        assert RowsOf(links, issueId) == RowsOf(p, issueId);
      }
    }
  }

  /** The rows of one citizen, in storage order. */
  function LinksOf(links: Links, citizenId: int): (r: Links)
    ensures forall l :: l in r <==> l in links && l.citizenId == citizenId
    ensures forall id :: Collections.Count(r, LinkIssue, id) == CountPair(links, citizenId, id)
  {
    if |links| == 0 then []
    else
      var rest := LinksOf(links[..|links| - 1], citizenId);
      var last := links[|links| - 1];
      assert links == links[..|links| - 1] + [last];
      if last.citizenId == citizenId then
        assert (rest + [last])[..|rest|] == rest;
        rest + [last]
      else rest
  }

  /** How many rows record `citizenId` reporting `issueId`. */
  function CountPair(links: Links, citizenId: int, issueId: string): nat {
    if |links| == 0 then 0
    else
      var last := links[|links| - 1];
      CountPair(links[..|links| - 1], citizenId, issueId)
        + (if last.citizenId == citizenId && last.issueId == issueId then 1 else 0)
  }

  /** A pair has rows exactly when it is mapped. */
  lemma {:induction false} CountPairPositive(links: Links, citizenId: int, issueId: string)
    ensures CountPair(links, citizenId, issueId) > 0 <==> IsCitizenMapped(links, citizenId, issueId)
  {
    if |links| > 0 {
      CountPairPositive(links[..|links| - 1], citizenId, issueId);
    }
  }

  function IssueIds(ls: Links): (ids: seq<string>)
    ensures |ids| == |ls| && forall k :: 0 <= k < |ls| ==> ids[k] == ls[k].issueId
  {
    seq(|ls|, k requires 0 <= k < |ls| => ls[k].issueId)
  }

  /** The issue ids of a list of rows, counted with repeats, are the per-issue
      counts of the rows. */
  lemma {:induction false} IssueIdsCount(ls: Links, id: string)
    ensures multiset(IssueIds(ls))[id] == Collections.Count(ls, LinkIssue, id)
  {
    if |ls| > 0 {
      var init := ls[..|ls| - 1];
      IssueIdsCount(init, id);
      assert IssueIds(ls) == IssueIds(init) + [ls[|ls| - 1].issueId];
    }
  }

  /** `findIssueIdsByCitizen`: the issue id of each of the citizen's rows, most
      recent `reported_at` first. An issue the citizen reported twice appears
      twice; no other citizen's rows contribute. */
  function FindIssueIdsByCitizen(links: Links, citizenId: int): (ids: seq<string>)
    ensures |ids| == Collections.Count(links, LinkCitizen, citizenId)
    ensures forall id :: multiset(ids)[id] == CountPair(links, citizenId, id)
    ensures forall id :: id in ids <==> IsCitizenMapped(links, citizenId, id)
  {
    var mine := LinksOf(links, citizenId);
    var sorted := Collections.SortDesc(mine, ReportedKey);
    forall id
      ensures multiset(IssueIds(sorted))[id] == CountPair(links, citizenId, id)
      ensures id in IssueIds(sorted) <==> IsCitizenMapped(links, citizenId, id)
    {
      IssueIdsCount(sorted, id);
      Collections.CountPermutation(sorted, mine, LinkIssue, id);
      CountPairPositive(links, citizenId, id);
      assert id in IssueIds(sorted) <==> id in multiset(IssueIds(sorted));
    }
    LinksOfLength(links, citizenId);
    IssueIds(sorted)
  }

  lemma {:induction false} LinksOfLength(links: Links, citizenId: int)
    ensures |LinksOf(links, citizenId)| == Collections.Count(links, LinkCitizen, citizenId)
  {
    if |links| > 0 {
      LinksOfLength(links[..|links| - 1], citizenId);
    }
  }

  /** The rows behind `findIssueIdsByCitizen`, newest first. */
  lemma CitizenIdsNewestFirst(links: Links, citizenId: int)
    ensures var sorted := Collections.SortDesc(LinksOf(links, citizenId), ReportedKey);
      && FindIssueIdsByCitizen(links, citizenId) == IssueIds(sorted)
      && (forall j, k :: 0 <= j < k < |sorted| ==> sorted[j].reportedAt >= sorted[k].reportedAt)
      && (forall k :: 0 <= k < |sorted| ==> sorted[k].citizenId == citizenId)
  {
    var mine := LinksOf(links, citizenId);
    var sorted := Collections.SortDesc(mine, ReportedKey);
    forall k | 0 <= k < |sorted|
      ensures sorted[k].citizenId == citizenId
    {
      assert sorted[k] in multiset(mine);
    }
  }

  /** After `create(c, i)`: the pair is mapped, the issue has one more
      reporter, every other issue keeps its count, and the earlier rows are a
      prefix of the new ones. */
  lemma CreateEffects(links: Links, c: int, i: string, now: Time)
    ensures IsCitizenMapped(Create(links, c, i, now), c, i)
    ensures GetReporterCount(Create(links, c, i, now), i) == GetReporterCount(links, i) + 1
    ensures forall other :: other != i ==>
      GetReporterCount(Create(links, c, i, now), other) == GetReporterCount(links, other)
    ensures forall c', i' :: IsCitizenMapped(links, c', i') ==> IsCitizenMapped(Create(links, c, i, now), c', i')
  {
    var r := Create(links, c, i, now);
    assert r[..|r| - 1] == links;
    assert r[|links|].citizenId == c && r[|links|].issueId == i;
    forall c', i' | IsCitizenMapped(links, c', i')
      ensures IsCitizenMapped(r, c', i')
    {
      var k :| 0 <= k < |links| && links[k].citizenId == c' && links[k].issueId == i';
      assert r[k] == links[k];
    }
  }
}
