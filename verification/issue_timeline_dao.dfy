/** The `issue_timeline` table: the audit trail of an issue. Rows are only
    ever appended. Reads join each row with the `users` row of its actor, which
    is given here as a lookup function. */
module IssueTimelineDao {
  import opened Wrappers
  import opened IssueModel
  import Collections

  /** One audit row; `created_at` is stamped at insert. */
  datatype Entry = Entry(
    issueId: string,
    status: Option<string>,
    updatedBy: int,
    remarks: Option<string>,
    proofImageUrl: Option<string>,
    createdAt: Time)

  type Log = seq<Entry>

  /** The `name` and `role` columns of a `users` row. */
  datatype Actor = Actor(name: Option<string>, role: Option<string>)

  /** A timeline row as `findByIssueId` returns it, with its actor's name and
      role. */
  datatype EntryView = EntryView(entry: Entry, actor: Actor)

  /** The `users` table as far as the join needs it. */
  type Users = int -> Option<Actor>

  /** `create`: appends one row carrying exactly the given values. */
  function Create(log: Log, issueId: string, status: Option<string>, updatedBy: int,
                  remarks: Option<string>, proofImageUrl: Option<string>, now: Time): (r: Log)
    ensures |r| == |log| + 1 && r[..|log|] == log
    ensures r[|log|] == Entry(issueId, status, updatedBy, remarks, proofImageUrl, now)
  {
    log + [Entry(issueId, status, updatedBy, remarks, proofImageUrl, now)]
  }

  /** The rows of `issueId` that find their actor in `users` (an inner
      join), in storage order. */
  function Joined(log: Log, issueId: string, users: Users): (r: seq<EntryView>)
    ensures forall v :: v in r <==>
      v.entry in log && v.entry.issueId == issueId && users(v.entry.updatedBy) == Some(v.actor)
  {
    if |log| == 0 then []
    else
      var init := log[..|log| - 1];
      var e := log[|log| - 1];
      var rest := Joined(init, issueId, users);
      assert log == init + [e];
      match users(e.updatedBy)
      case Some(actor) => if e.issueId == issueId then rest + [EntryView(e, actor)] else rest
      case None => rest
  }

  /** Ascending `created_at`, as a key for a descending sort. */
  function AscendingKey(v: EntryView): int {
    0 - v.entry.createdAt as int
  }

  /** `findByIssueId`: the joined rows of that issue, oldest first. */
  function FindByIssueId(log: Log, issueId: string, users: Users): (r: seq<EntryView>)
    ensures forall v :: v in r <==>
      v.entry in log && v.entry.issueId == issueId && users(v.entry.updatedBy) == Some(v.actor)
    ensures forall j, k :: 0 <= j < k < |r| ==> r[j].entry.createdAt <= r[k].entry.createdAt
    ensures multiset(r) == multiset(Joined(log, issueId, users))
  {
    var joined := Joined(log, issueId, users);
    var r := Collections.SortDesc(joined, AscendingKey);
    forall v
      ensures v in r <==> v in joined
    {
      assert v in r <==> v in multiset(r);
    }
    r
  }

  /** Joining distributes over appending rows. */
  lemma {:induction false} JoinedAppend(log: Log, more: Log, issueId: string, users: Users)
    ensures Joined(log + more, issueId, users) == Joined(log, issueId, users) + Joined(more, issueId, users)
    decreases |more|
  {
    if |more| == 0 {
      assert log + more == log;
    } else {
      var init := more[..|more| - 1];
      assert (log + more)[..|log + more| - 1] == log + init;
      JoinedAppend(log, init, issueId, users);
    }
  }

  /** Appending a row for one issue leaves every other issue's timeline as it
      was, and extends that issue's timeline by the new row when its actor
      exists (and by nothing otherwise). */
  lemma CreateOnlyExtends(log: Log, issueId: string, status: Option<string>, updatedBy: int,
                          remarks: Option<string>, proofImageUrl: Option<string>, now: Time,
                          other: string, users: Users)
    ensures var log' := Create(log, issueId, status, updatedBy, remarks, proofImageUrl, now);
      other != issueId || users(updatedBy).None? ==>
        FindByIssueId(log', other, users) == FindByIssueId(log, other, users)
    ensures var log' := Create(log, issueId, status, updatedBy, remarks, proofImageUrl, now);
      users(updatedBy).Some? ==>
        multiset(FindByIssueId(log', issueId, users)) ==
        multiset(FindByIssueId(log, issueId, users)) +
          multiset{EntryView(log'[|log|], users(updatedBy).value)}
  {
    var e := Entry(issueId, status, updatedBy, remarks, proofImageUrl, now);
    JoinedAppend(log, [e], other, users);
    JoinedAppend(log, [e], issueId, users);
    assert [e][..0] == [];
  }
}
