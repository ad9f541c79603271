/** Issue identifiers `CIVIC-<code>-<yyyyMMdd>-<seq>`, drawn from one
    sequence shared by every category and restarted whenever the date
    changes. The process-wide state `(lastDate, sequence)` is threaded through
    the calls; the caller passes the formatted current date. */
module IssueIdGenerator {
  import JavaText

  datatype GenState = GenState(lastDate: string, sequence: nat)

  /** Class initialisation: no date seen yet, counter at zero. */
  const Initial := GenState("", 0)

  const PREFIX := "CIVIC-"

  /** `getCategoryCode`: the two-letter code of a category, matched without
      regard to case; anything unrecognised becomes XX. */
  function CategoryCode(category: string): (code: string)
    ensures |code| == 2
    ensures code == "RD" <==> JavaText.ToUpper(category) == "ROAD"
    ensures code == "WA" <==> JavaText.ToUpper(category) == "WATER"
    ensures code == "SN" <==> JavaText.ToUpper(category) == "SANITATION"
    ensures code == "EL" <==> JavaText.ToUpper(category) == "ELECTRICITY"
    ensures code == "XX" <==> JavaText.ToUpper(category) !in {"ROAD", "WATER", "SANITATION", "ELECTRICITY"}
  {
    var upper := JavaText.ToUpper(category);
    if upper == "ROAD" then "RD"
    else if upper == "WATER" then "WA"
    else if upper == "SANITATION" then "SN"
    else if upper == "ELECTRICITY" then "EL"
    else "XX"
  }

  /** `s` is the upper-case word `w` written in some mixture of cases. */
  predicate SpellsIgnoringCase(s: string, w: string) {
    |s| == |w| && forall i :: 0 <= i < |s| ==> JavaText.Folds(s[i], w[i])
  }

  /** The category is matched without regard to case: each code is given
      exactly for its word written in any mixture of cases (dotless `ı` and
      long `ſ` included, as `toUpperCase` folds them), and XX for everything
      else. */
  lemma CategoryCodeIgnoresCase(category: string)
    ensures CategoryCode(category) == "RD" <==> SpellsIgnoringCase(category, "ROAD")
    ensures CategoryCode(category) == "WA" <==> SpellsIgnoringCase(category, "WATER")
    ensures CategoryCode(category) == "SN" <==> SpellsIgnoringCase(category, "SANITATION")
    ensures CategoryCode(category) == "EL" <==> SpellsIgnoringCase(category, "ELECTRICITY")
    ensures CategoryCode(category) == "XX" <==>
      && !SpellsIgnoringCase(category, "ROAD") && !SpellsIgnoringCase(category, "WATER")
      && !SpellsIgnoringCase(category, "SANITATION") && !SpellsIgnoringCase(category, "ELECTRICITY")
  {
    JavaText.ToUpperMatchesWord(category, "ROAD");
    JavaText.ToUpperMatchesWord(category, "WATER");
    JavaText.ToUpperMatchesWord(category, "SANITATION");
    JavaText.ToUpperMatchesWord(category, "ELECTRICITY");
  }

  /** A category differing from ROAD only in letter case is coded RD, and
      one spelled with a long `ſ` is still sanitation. */
  lemma MixedCaseCategories()
    ensures CategoryCode("rOaD") == "RD"
    ensures CategoryCode("\U{17F}anitation") == "SN"
  {
    CategoryCodeIgnoresCase("rOaD");
    CategoryCodeIgnoresCase("\U{17F}anitation");
  }

  /** `String.format("CIVIC-%s-%s-%04d", code, date, n)`. */
  function FormatId(code: string, date: string, n: nat): string {
    PREFIX + code + "-" + date + "-" + JavaText.Format04(n)
  }

  /** What one call hands back: the identifier, the sequence number inside it
      and the state for the next call. */
  datatype Generated = Generated(issueId: string, sequence: nat, next: GenState)

  /** `generateIssueId(category)` on the date `date`. */
  function Generate(g: GenState, category: string, date: string): (r: Generated)
    ensures r.next == GenState(date, r.sequence)
    ensures date == g.lastDate ==> r.sequence == g.sequence + 1
    ensures date != g.lastDate ==> r.sequence == 1
    ensures r.issueId == FormatId(CategoryCode(category), date, r.sequence)
  {
    var code := CategoryCode(category);
    var start := if date != g.lastDate then 0 else g.sequence;
    var n := start + 1;
    Generated(FormatId(code, date, n), n, GenState(date, n))
  }

  /** One call: a category and the date it happens on. */
  datatype Call = Call(category: string, date: string)

  /** The results of successive calls, each starting from the state the
      previous one left. */
  function GenerateAll(g: GenState, calls: seq<Call>): (rs: seq<Generated>)
    ensures |rs| == |calls|
    decreases |calls|
  {
    if |calls| == 0 then []
    else
      var r := Generate(g, calls[0].category, calls[0].date);
      [r] + GenerateAll(r.next, calls[1..])
  }

  /** The state after a run of calls. */
  function After(g: GenState, calls: seq<Call>): GenState
    decreases |calls|
  {
    if |calls| == 0 then g
    else After(Generate(g, calls[0].category, calls[0].date).next, calls[1..])
  }

  predicate AllOnDate(calls: seq<Call>, date: string) {
    forall k :: 0 <= k < |calls| ==> calls[k].date == date
  }

  /** The number a run on `date` counts on from. */
  function RunBase(g: GenState, date: string): nat {
    if date == g.lastDate then g.sequence else 0
  }

  /** Every result is formatted from its own call's category and date and
      its own sequence number. */
  predicate FormattedFrom(calls: seq<Call>, rs: seq<Generated>) {
    && |rs| == |calls|
    && forall k :: 0 <= k < |calls| ==>
         rs[k].issueId == FormatId(CategoryCode(calls[k].category), calls[k].date, rs[k].sequence)
  }

  /** Every identifier of a run is formatted from its own call's category
      and date and its own sequence number. */
  lemma RunFormat(g: GenState, calls: seq<Call>)
    ensures FormattedFrom(calls, GenerateAll(g, calls))
  {
    forall k | 0 <= k < |calls|
      ensures GenerateAll(g, calls)[k].issueId ==
        FormatId(CategoryCode(calls[k].category), calls[k].date, GenerateAll(g, calls)[k].sequence)
    {
      RunFormatAt(g, calls, k);
    }
  }

  /** The result of call `k` of a run, reached by peeling off the calls
      before it. */
  lemma {:induction false} RunFormatAt(g: GenState, calls: seq<Call>, k: nat)
    requires k < |calls|
    ensures GenerateAll(g, calls)[k].issueId ==
      FormatId(CategoryCode(calls[k].category), calls[k].date, GenerateAll(g, calls)[k].sequence)
    decreases k
  {
    if k > 0 {
      var r := Generate(g, calls[0].category, calls[0].date);
      RunFormatAt(r.next, calls[1..], k - 1);
      assert GenerateAll(g, calls)[k] == GenerateAll(r.next, calls[1..])[k - 1];
      assert calls[1..][k - 1] == calls[k];
    }
  }

  /** Within a run of calls on one date the sequence numbers climb by exactly
      one per call, whatever the categories, starting after the previous
      number when the date is unchanged and at 1 otherwise. */
  lemma {:induction false} RunNumbering(g: GenState, calls: seq<Call>, date: string)
    requires AllOnDate(calls, date)
    ensures forall k :: 0 <= k < |calls| ==> GenerateAll(g, calls)[k].sequence == RunBase(g, date) + k + 1
    ensures |calls| > 0 ==> After(g, calls) == GenState(date, RunBase(g, date) + |calls|)
    decreases |calls|
  {
    if |calls| > 0 {
      var r := Generate(g, calls[0].category, date);
      var rest := GenerateAll(r.next, calls[1..]);
      assert RunBase(r.next, date) == RunBase(g, date) + 1;
      RunNumbering(r.next, calls[1..], date);
      assert GenerateAll(g, calls) == [r] + rest;
    }
  }

  /** Identifiers with the same date and different sequence numbers differ,
      whatever their categories: every code is two letters, so the numeric
      field starts at the same place in both. */
  lemma FormatIdInjective(c1: string, c2: string, date: string, n1: nat, n2: nat)
    requires |c1| == |c2|
    requires FormatId(c1, date, n1) == FormatId(c2, date, n2)
    ensures n1 == n2
  {
    var p1 := PREFIX + c1 + "-" + date + "-";
    var p2 := PREFIX + c2 + "-" + date + "-";
    var id := FormatId(c1, date, n1);
    assert |p1| == |p2|;
    assert JavaText.Format04(n1) == id[|p1|..];
    assert JavaText.Format04(n2) == id[|p2|..];
    JavaText.Format04Injective(n1, n2);
  }

  /** No two calls of a same-date run return the same identifier. */
  lemma RunIdsDistinct(g: GenState, calls: seq<Call>, date: string)
    requires AllOnDate(calls, date)
    ensures forall i, j :: 0 <= i < j < |calls| ==>
      GenerateAll(g, calls)[i].issueId != GenerateAll(g, calls)[j].issueId
  {
    RunNumbering(g, calls, date);
    RunFormat(g, calls);
    var rs := GenerateAll(g, calls);
    forall i, j | 0 <= i < j < |calls|
      ensures rs[i].issueId != rs[j].issueId
    {
      SameDateIdsDiffer(calls[i].category, calls[j].category, date, rs[i], rs[j]);
    }
  }

  /** Two results on one date with different sequence numbers carry
      different identifiers. */
  lemma SameDateIdsDiffer(cat1: string, cat2: string, date: string, r1: Generated, r2: Generated)
    requires r1.issueId == FormatId(CategoryCode(cat1), date, r1.sequence)
    requires r2.issueId == FormatId(CategoryCode(cat2), date, r2.sequence)
    requires r1.sequence != r2.sequence
    ensures r1.issueId != r2.issueId
  {
    if r1.issueId == r2.issueId {
      FormatIdInjective(CategoryCode(cat1), CategoryCode(cat2), date, r1.sequence, r2.sequence);
    }
  }

  /** From a freshly initialised generator, `n` calls on one date use the
      sequence numbers 1..n, in that order, with no gap and no repeat. */
  lemma FreshRunUsesOneToN(calls: seq<Call>, date: string)
    requires AllOnDate(calls, date)
    ensures forall k :: 0 <= k < |calls| ==> GenerateAll(Initial, calls)[k].sequence == k + 1
  {
    RunNumbering(Initial, calls, date);
  }

  /** The very first call returns sequence number 1, `...-0001`. */
  lemma FirstCallIsOne(category: string, date: string)
    ensures Generate(Initial, category, date).sequence == 1
    ensures Generate(Initial, category, date).issueId == PREFIX + CategoryCode(category) + "-" + date + "-0001"
  {
    assert JavaText.Decimal(1) == "1";
    assert JavaText.Zeros(3) == "000";
  }

  /** Uniqueness holds only within a run: going back to an earlier date
      restarts the counter, and the identifier of the first call comes back. */
  lemma ReturningDateRepeatsId(category: string, d1: string, d2: string)
    requires d1 != d2
    ensures var rs := GenerateAll(Initial, [Call(category, d1), Call(category, d2), Call(category, d1)]);
      rs[0].issueId == rs[2].issueId
  {
    var calls := [Call(category, d1), Call(category, d2), Call(category, d1)];
    var rs := GenerateAll(Initial, calls);
    assert rs[1..] == GenerateAll(rs[0].next, calls[1..]);
    assert rs[2..] == GenerateAll(rs[1].next, calls[2..]);
  }
}
