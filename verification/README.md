# CivicPulse issue engine in Dafny

A model of CivicPulse's issue intake and lifecycle engine. Citizens report
civic problems such as potholes, leaks or outages. A report either becomes a
new tracked issue or is merged into an open issue of the same category
nearby. Administrators and departments then move issues through REPORTED →
ASSIGNED → IN_PROGRESS → RESOLVED, and every change leaves an audit row.

The model is a functional state machine. A `World` holds four things:

- the `issues` table, as rows in storage order;
- the `citizen_issue_map` links, appended per report;
- the append-only `issue_timeline`;
- the identifier generator's `(lastDate, sequence)` state.

Every issue operation that writes is a pure function from a `World` to a
`Step`, which pairs the outcome with the next `World`. The read-only
operations take the tables they read and return plain values. Registration
takes the `users` lookups and the generated key, and returns the outcome
together with the row it would insert. Java exceptions become `Failure`
values. Nullable Java strings become `Option<string>`.

Modules:

- `IssueModel` is the `Issue` record, its two constructors and its setters.
- `IssueIdGenerator` builds `CIVIC-<code>-<yyyyMMdd>-<NNNN>` identifiers. The
  per-date counter is shared by all categories.
- `IssueDao`, `CitizenIssueMapDao` and `IssueTimelineDao` state the meaning
  of each SQL statement over sequences: insert, keyed lookup, box query with
  `LIMIT 50`, column-wise update, atomic increment, and the `ORDER BY` reads.
- `IssueService` covers duplicate-merging intake, status update, department
  assignment, the detail and per-citizen lookups, and the analytics pass.
- `AuthService` and `PasswordUtil` cover the order of the registration
  checks, the uniform login failure, token validation and the password
  length rule.
- `JavaText` and `Collections` are supporting modules. `JavaText` models
  `String.trim`, `toUpperCase`, `length()` in UTF-16 units and `%04d`.
  `Collections` holds a stable sort, counting and map sums.

Outside inputs are parameters:

- The geometry is two function parameters. `near` is the 100-metre radius
  test and `box` is the search window.
- The clock is a `now` timestamp and a formatted `date` string.
- The `users` and `departments` tables are lookup functions.
- BCrypt and the JWT library are functions too.

Two behaviours of the code are stated as lemmas rather than assumed away.

- **`resolvedAt` is not tied to the status.** One might expect `resolvedAt`
  to be set exactly when the status is RESOLVED. The code sets it
  when an issue becomes RESOLVED and never clears it. Reassigning or reopening
  a resolved issue keeps the old timestamp. The model follows the code, and
  `IssueService.ReassignKeepsResolvedAt` proves the mismatch.
- **Identifiers are unique only within a run of same-date calls.** The
  generator's state lives in memory. Going back to a date, or restarting the
  process on the same day, restarts the counter at 1.
  `IssueIdGenerator.ReturningDateRepeatsId` proves this.
  `IssueService.ReportFailsOnlyWithoutDuplicate` shows the consequence: a new
  report whose generated id is already stored fails, and no link or audit row
  is written.

## Model

| member | source | states |
|---|---|---|
| IssueModel.BlankIssue | src/main/java/com/civicpulse/model/Issue.java:21 | the no-argument constructor leaves every reference null (id, category, address, description, status, department, image and both timestamps) and the coordinates and report count 0 |
| IssueModel.NewIssue | src/main/java/com/civicpulse/model/Issue.java:23-32 | the report constructor copies category, coordinates, address and description; it starts REPORTED with count 1; id, department, image and timestamps are null |
| IssueModel.IncrementReportCount | src/main/java/com/civicpulse/model/Issue.java:99-101 | the count rises by exactly one and every other field is unchanged |
| IssueModel.SetStatus | src/main/java/com/civicpulse/model/Issue.java:87-89 | sets the status only: writing the old value back restores the record |
| IssueModel.SetReportCount | src/main/java/com/civicpulse/model/Issue.java:95-97 | sets the count only |
| IssueModel.SetDeptId | src/main/java/com/civicpulse/model/Issue.java:107-109 | sets the department only |
| IssueModel.SetIssueId | src/main/java/com/civicpulse/model/Issue.java:39-41 | sets the id only |
| IssueModel.SetResolvedAt | src/main/java/com/civicpulse/model/Issue.java:139-141 | sets the resolution time only |
| IssueIdGenerator.CategoryCode | src/main/java/com/civicpulse/util/IssueIdGenerator.java:33-46 | the code is two letters: RD, WA, SN or EL exactly when the upper-cased category is ROAD, WATER, SANITATION or ELECTRICITY; XX otherwise |
| IssueIdGenerator.CategoryCodeIgnoresCase | src/main/java/com/civicpulse/util/IssueIdGenerator.java:33-46 | RD, WA, SN and EL are given exactly for ROAD, WATER, SANITATION and ELECTRICITY spelled in any mixture of cases; XX for every other category |
| IssueIdGenerator.MixedCaseCategories | src/main/java/com/civicpulse/util/IssueIdGenerator.java:34-40 | "rOaD" is coded RD and "ſanitation" SN |
| IssueIdGenerator.Generate | src/main/java/com/civicpulse/util/IssueIdGenerator.java:16-28 | a new date restarts the counter and yields 1, the same date yields the previous number plus one; the date is recorded and the id is the formatted triple |
| IssueIdGenerator.RunFormat | src/main/java/com/civicpulse/util/IssueIdGenerator.java:27 | every id of a run of calls is the prefix, its own code, its date and its own number |
| IssueIdGenerator.RunNumbering | src/main/java/com/civicpulse/util/IssueIdGenerator.java:9-26 | same-date calls get consecutive numbers whatever their categories, continuing from the previous number only if the date is unchanged |
| IssueIdGenerator.FormatIdInjective | src/main/java/com/civicpulse/util/IssueIdGenerator.java:27 | two ids with the same date and equal-length codes are equal only if their numbers are |
| IssueIdGenerator.RunIdsDistinct | src/main/java/com/civicpulse/util/IssueIdGenerator.java:21-27 | no two calls in a same-date run return the same id |
| IssueIdGenerator.FreshRunUsesOneToN | src/main/java/com/civicpulse/util/IssueIdGenerator.java:9-26 | from the initial state, n calls on one date use exactly 1..n in order |
| IssueIdGenerator.FirstCallIsOne | src/main/java/com/civicpulse/util/IssueIdGenerator.java:10-27 | the very first call, whose date never equals the empty start date, yields sequence 1 and an id ending in -0001 |
| IssueIdGenerator.ReturningDateRepeatsId | src/main/java/com/civicpulse/util/IssueIdGenerator.java:21-27 | calls on dates d1, d2, d1 give the first and third calls the same id |
| JavaText.Format04RoundTrip | src/main/java/com/civicpulse/util/IssueIdGenerator.java:27 | the `%04d` field reads back as the number it was made from |
| JavaText.Format04Injective | src/main/java/com/civicpulse/util/IssueIdGenerator.java:27 | distinct numbers give distinct `%04d` fields |
| JavaText.Format04Width | src/main/java/com/civicpulse/util/IssueIdGenerator.java:27 | numbers up to 9999 take exactly four digits; larger numbers widen the field and neither wrap nor fail |
| JavaText.ToUpperMatchesWord | src/main/java/com/civicpulse/util/IssueIdGenerator.java:34 | the upper-cased string equals an upper-case ASCII word exactly when it is that word written in any mixture of cases, with dotless ı standing for I and long ſ for S |
| JavaText.Trim | src/main/java/com/civicpulse/service/AuthService.java:28 | the result is a slice of the input; everything cut off before and after it is at or below U+0020, and the slice neither starts nor ends with such a character |
| JavaText.TrimEmptyIff | src/main/java/com/civicpulse/service/AuthService.java:28 | a string trims to empty exactly when all its characters are at or below U+0020 |
| JavaText.Utf16Length | src/main/java/com/civicpulse/util/PasswordUtil.java:31 | `length()` lies between the number of code points and twice that |
| JavaText.Utf16LengthBmp | src/main/java/com/civicpulse/util/PasswordUtil.java:31 | on Basic Multilingual Plane text `length()` is the number of characters |
| JavaText.Utf16LengthAppend | src/main/java/com/civicpulse/util/PasswordUtil.java:31 | `length()` of a concatenation is the sum of the lengths |
| Collections.SortDesc | src/main/java/com/civicpulse/dao/IssueDAO.java:161 | an ORDER BY … DESC result is a permutation of its input, sorted on the key |
| IssueDao.FindById | src/main/java/com/civicpulse/dao/IssueDAO.java:43-59 | null exactly when no row has the id; otherwise a stored row carrying that id |
| IssueDao.FindByIdIsRow | src/main/java/com/civicpulse/dao/IssueDAO.java:43-59 | in a keyed table the lookup of a row's own id returns that row |
| IssueDao.Inserted | src/main/java/com/civicpulse/dao/IssueDAO.java:13-15 | a stored row takes the database's creation time and no resolution time; the other columns are as given |
| IssueDao.Create | src/main/java/com/civicpulse/dao/IssueDAO.java:12-41 | the insert fails exactly for a null or already-stored id; otherwise it appends one row |
| IssueDao.CreateThenFind | src/main/java/com/civicpulse/dao/IssueDAO.java:12-59 | after an insert the table stays keyed, the new id finds the new row and every other lookup is unchanged |
| IssueDao.AllNearby | src/main/java/com/civicpulse/dao/IssueDAO.java:93-96 | the matching rows are exactly those of the category with an open status inside the box, bounds included |
| IssueDao.FindNearbyIssues | src/main/java/com/civicpulse/dao/IssueDAO.java:90-117 | at most 50 rows, each stored, of the category, open and inside the box; a prefix of all matches, and all of them when fewer than 50 |
| IssueDao.NearbyIgnoresCentre | src/main/java/com/civicpulse/dao/IssueDAO.java:90-106 | the centre arguments do not change the result |
| IssueDao.Update | src/main/java/com/civicpulse/dao/IssueDAO.java:119-147 | only status, count, department, image and resolution time of the matching row are overwritten; id, category, location, address, description and creation time stay; other rows stay |
| IssueDao.UpdateThenFind | src/main/java/com/civicpulse/dao/IssueDAO.java:119-147 | after an update the table stays keyed and a lookup sees the overwritten row for that id and the old row for any other |
| IssueDao.IncrementReportCount | src/main/java/com/civicpulse/dao/IssueDAO.java:149-158 | the matching row's count rises by one and nothing else changes; an absent id changes nothing |
| IssueDao.IncrementThenFind | src/main/java/com/civicpulse/dao/IssueDAO.java:149-158 | after an increment the table stays keyed and the lookup sees the same issue with one more report |
| IssueDao.IncrementLeavesOthers | src/main/java/com/civicpulse/dao/IssueDAO.java:149-158 | an increment is invisible to lookups of any other id |
| IssueDao.FindAll | src/main/java/com/civicpulse/dao/IssueDAO.java:160-174 | every stored issue, as a permutation, newest creation time first |
| CitizenIssueMapDao.Create | src/main/java/com/civicpulse/dao/CitizenIssueMapDAO.java:11-22 | appends exactly one link and keeps the earlier links as a prefix, even for a repeated pair |
| CitizenIssueMapDao.IsCitizenMapped | src/main/java/com/civicpulse/dao/CitizenIssueMapDAO.java:43-60 | true exactly when some link joins that citizen and issue |
| CitizenIssueMapDao.CountPairPositive | src/main/java/com/civicpulse/dao/CitizenIssueMapDAO.java:43-60 | the pair count is positive exactly when the pair is mapped |
| CitizenIssueMapDao.GetReporterCount | src/main/java/com/civicpulse/dao/CitizenIssueMapDAO.java:62-78 | the number of link rows naming the issue, repeats included; positive exactly when one exists |
| CitizenIssueMapDao.FindIssueIdsByCitizen | src/main/java/com/civicpulse/dao/CitizenIssueMapDAO.java:24-41 | one id per link of the citizen: the length is the citizen's link count, each id occurs as often as the pair does, and an id is present exactly when mapped |
| CitizenIssueMapDao.LinksOfLength | src/main/java/com/civicpulse/dao/CitizenIssueMapDAO.java:24-41 | the citizen's rows number as many as the citizen's links |
| CitizenIssueMapDao.CitizenIdsNewestFirst | src/main/java/com/civicpulse/dao/CitizenIssueMapDAO.java:24-41 | the ids come from that citizen's rows only, most recent report first |
| CitizenIssueMapDao.CreateEffects | src/main/java/com/civicpulse/dao/CitizenIssueMapDAO.java:11-78 | after a link the pair is mapped, the issue's reporter count is one higher, other counts are unchanged and no mapping is lost |
| IssueTimelineDao.Create | src/main/java/com/civicpulse/dao/IssueTimelineDAO.java:12-35 | appends exactly one entry with the given values and keeps the log as a prefix |
| IssueTimelineDao.Joined | src/main/java/com/civicpulse/dao/IssueTimelineDAO.java:38-41 | exactly the entries of that issue whose actor exists in `users`, each paired with that actor |
| IssueTimelineDao.FindByIssueId | src/main/java/com/civicpulse/dao/IssueTimelineDAO.java:37-58 | only that issue's entries with a known actor, oldest creation time first, as a permutation of the join |
| IssueTimelineDao.CreateOnlyExtends | src/main/java/com/civicpulse/dao/IssueTimelineDAO.java:12-58 | an append leaves every other issue's timeline unchanged and adds the new entry to its own issue's timeline when the actor exists |
| IssueService.FirstMergeTarget | src/main/java/com/civicpulse/service/IssueService.java:101-123 | the position of the first candidate that is not RESOLVED and lies within the radius; none exactly when no candidate qualifies |
| IssueService.FindDuplicate | src/main/java/com/civicpulse/service/IssueService.java:101-123 | null exactly when no candidate qualifies; otherwise a qualifying candidate with none qualifying before it; never a RESOLVED one |
| IssueService.Candidates | src/main/java/com/civicpulse/service/IssueService.java:39-53 | every candidate fetched for a report is a stored issue |
| IssueService.DuplicateOf | src/main/java/com/civicpulse/service/IssueService.java:39-56 | a merge target is a stored issue with an id |
| IssueService.ReportIssue | src/main/java/com/civicpulse/service/IssueService.java:36-96 | success adds exactly one link for the returned id; failure leaves the tables as they were, and the generator too on a null category, while a rejected insert has already advanced it (the Java code writes without a transaction, so this rests on the admitted omission of connection failures and on each operation being one atomic step); merging changes no count of rows or audit rows; creating adds one issue and one audit row |
| IssueService.ReportMerges | src/main/java/com/civicpulse/service/IssueService.java:58-69 | the merge answers with the duplicate's id, merged, and the refreshed count; that count rises by one and the reporter count by one; no other issue, audit row or generator state changes |
| IssueService.ReportCreates | src/main/java/com/civicpulse/service/IssueService.java:71-92 | the new issue is stored under the generated id, REPORTED with count 1; the answer is unmerged with count 1; one REPORTED audit row by the citizen with the fixed remark; the generator advances |
| IssueService.ReportFailsOnlyWithoutDuplicate | src/main/java/com/civicpulse/service/IssueService.java:71-78 | a report fails exactly when there is no duplicate and either the category is null or the generated id is already stored |
| IssueService.ReportKeepsValid | src/main/java/com/civicpulse/service/IssueService.java:36-96 | intake keeps the table keyed and every link and audit row pointing at a stored issue |
| IssueService.SecondReportMerges | src/main/java/com/civicpulse/service/IssueService.java:36-123 | on an empty table, two same-place same-category reports create one issue and then merge into it with count 2 |
| IssueService.Lookup | src/main/java/com/civicpulse/service/IssueService.java:174-178 | found exactly when the id is non-null and stored; the result is that stored row |
| IssueService.WithStatus | src/main/java/com/civicpulse/service/IssueService.java:180-185 | the new status is set; the resolution time becomes now for RESOLVED and is kept otherwise; nothing else changes |
| IssueService.UpdateIssueStatus | src/main/java/com/civicpulse/service/IssueService.java:172-197 | a missing id fails with nothing changed; otherwise exactly one audit row with the same status, actor, remarks and proof is appended |
| IssueService.UpdateStatusEffects | src/main/java/com/civicpulse/service/IssueService.java:172-187 | after an update the lookup sees the new status (and the resolution time for RESOLVED) and every other issue is unchanged |
| IssueService.UpdateKeepsValid | src/main/java/com/civicpulse/service/IssueService.java:172-197 | a status update keeps the state valid |
| IssueService.ConcatNullable | src/main/java/com/civicpulse/service/IssueService.java:215 | Java concatenation: the prefix followed by the string, or by "null" |
| IssueService.AssignmentRemarks | src/main/java/com/civicpulse/service/IssueService.java:214-215 | "Assigned to department" when the department is missing, otherwise "Assigned to " and its name |
| IssueService.AssignIssueToDepartment | src/main/java/com/civicpulse/service/IssueService.java:202-223 | a missing id fails with nothing changed; otherwise exactly one ASSIGNED audit row by the admin carrying the remark |
| IssueService.AssignEffects | src/main/java/com/civicpulse/service/IssueService.java:202-211 | the issue takes the department and ASSIGNED whatever its prior status, keeps every other field, and no other issue changes |
| IssueService.ReassignKeepsResolvedAt | src/main/java/com/civicpulse/service/IssueService.java:172-223 | resolving and then assigning leaves an ASSIGNED issue that still carries the resolution time |
| IssueService.AssignKeepsValid | src/main/java/com/civicpulse/service/IssueService.java:202-223 | an assignment keeps the state valid |
| IssueService.GetIssueDetails | src/main/java/com/civicpulse/service/IssueService.java:128-150 | null exactly for an unknown id; otherwise the stored issue, its joined timeline oldest first, and the department its id finds (none without an id) |
| IssueService.DetailsShowUpdate | src/main/java/com/civicpulse/service/IssueService.java:128-197 | after a status update by a known user, the details show the new status and the audit row just written |
| IssueService.ResolveIds | src/main/java/com/civicpulse/service/IssueService.java:158-164 | exactly the issues found for the ids; when every id is found, one per id in order |
| IssueService.ResolveOne | src/main/java/com/civicpulse/service/IssueService.java:159-163 | a single id resolves to its stored issue, or to nothing when none is stored |
| IssueService.ResolveIdsAppend | src/main/java/com/civicpulse/service/IssueService.java:158-164 | resolving a concatenation concatenates the parts' results, so results keep the order of their ids and a missing id drops out without disturbing the rest |
| IssueService.GetCitizenIssues | src/main/java/com/civicpulse/service/IssueService.java:155-167 | every issue listed is stored and linked to the citizen |
| IssueService.CitizenIssuesComplete | src/main/java/com/civicpulse/service/IssueService.java:155-167 | in a valid state the list has one issue per link of the citizen and contains every stored issue the citizen is linked to |
| IssueService.ReportShowsForCitizen | src/main/java/com/civicpulse/service/IssueService.java:155-167 | after a successful report, merged or not, the reported issue is in the reporter's list |
| IssueService.GetAnalytics | src/main/java/com/civicpulse/service/IssueService.java:242-280 | fails with a null-pointer error exactly when some status is null; otherwise total, four status counts, pending as their open sum, and per-category counts over the categories that occur, summing to the total |
| IssueService.Tally | src/main/java/com/civicpulse/service/IssueService.java:247-269 | the counting loop yields the same figures over the list in the order it is given |
| IssueService.AnalyticsOfReordering | src/main/java/com/civicpulse/service/IssueService.java:243 | the figures do not depend on the order `findAll` returns |
| IssueService.StatusBucketsPartition | src/main/java/com/civicpulse/service/IssueService.java:251-265 | the four status counts plus the issues with any other status make up the total |
| IssueService.PendingIsUnresolved | src/main/java/com/civicpulse/service/IssueService.java:276 | pending is at most total minus resolved, with equality exactly when every status is one of the four |
| PasswordUtil.IsValidPassword | src/main/java/com/civicpulse/util/PasswordUtil.java:30-35 | null is invalid; a valid password has at least 3 code points; 6 or more characters are always valid |
| PasswordUtil.ValidPasswordBmp | src/main/java/com/civicpulse/util/PasswordUtil.java:31 | on Basic Multilingual Plane text, valid exactly when at least 6 characters long, so exactly 6 is accepted |
| PasswordUtil.ThreeAstralCharactersPass | src/main/java/com/civicpulse/util/PasswordUtil.java:31 | three emoji pass, since each counts as two; five letters fail |
| PasswordUtil.ValidPasswordExtends | src/main/java/com/civicpulse/util/PasswordUtil.java:30-35 | lengthening a valid password keeps it valid |
| PasswordUtil.ValidityDependsOnlyOnLength | src/main/java/com/civicpulse/util/PasswordUtil.java:30-35 | passwords of equal length are both valid or both invalid |
| PasswordUtil.VerifyPassword | src/main/java/com/civicpulse/util/PasswordUtil.java:19-25 | true exactly when both password and hash are non-null and BCrypt accepts them |
| AuthService.Register | src/main/java/com/civicpulse/service/AuthService.java:23-71 | success needs a non-blank name, an email or a phone, and a valid password; the new user is a CITIZEN with no department, the given values and the hashed password; a rejection carries one of the five messages |
| AuthService.FirstFailure | src/main/java/com/civicpulse/service/AuthService.java:27-58 | none exactly when no rule fails; otherwise the message of a failing rule with none failing before it |
| AuthService.RegisterFollowsChecks | src/main/java/com/civicpulse/service/AuthService.java:27-58 | registration is rejected exactly when a rule fails, and with the first failing rule's message |
| AuthService.NameIsCheckedFirst | src/main/java/com/civicpulse/service/AuthService.java:28-32 | a blank name gives "Name is required" whatever else is wrong |
| AuthService.EmailCheckedBeforePhone | src/main/java/com/civicpulse/service/AuthService.java:48-58 | a taken email rejects before the phone is looked at; a blank email is never looked up |
| AuthService.FindUser | src/main/java/com/civicpulse/service/AuthService.java:80 | a null identifier finds nobody |
| AuthService.Login | src/main/java/com/civicpulse/service/AuthService.java:76-112 | every failure says "Invalid credentials"; success exactly when the user is found and the password verifies; the token and user data carry the stored user's id, role and fields |
| AuthService.LoginFailuresIndistinguishable | src/main/java/com/civicpulse/service/AuthService.java:80-93 | an unknown identifier and a wrong password give identical outcomes |
| AuthService.RegisterThenLogin | src/main/java/com/civicpulse/service/AuthService.java:61-111 | a newly registered user logs in with the same password as a CITIZEN with the new id |
| AuthService.ValidateToken | src/main/java/com/civicpulse/service/AuthService.java:117-125 | null whenever the token yields no id; otherwise exactly what `findById` returns for that id, which is nothing for an inactive user |
| AuthService.LoginTokenValidates | src/main/java/com/civicpulse/service/AuthService.java:95-125 | the token a login returns validates back to the same user when the reader recovers the signed id |

## Left out

- GeoUtil's haversine distance and bounding box use floating-point trigonometry. They are the parameters `near` and `box`. Coordinates are `real`.
- JWTUtil and jBCrypt are foreign libraries. Hashing, password checking, token signing and token reading are function parameters. Token expiry is part of the reader.
- DatabaseUtil and the JDBC mechanics are I/O. Only the meaning of each SQL statement is modelled. An `SQLException` from a failed connection is not modelled. A primary key on `issue_id` is assumed, because the schema is not part of this model, so an insert with a stored or null id fails.
- The `users` and `departments` tables are lookup functions. `UserDAO.create`'s generated key is the `nextUserId` parameter.
- The servlets and `api.js` are HTTP parsing, JSON, upload handling, role gating and browser UI. They are not part of this model.
- `synchronized`, the `AtomicInteger` and concurrent requests are left out. Every operation is one atomic step. The lost update possible between `findById` and `update` in `updateIssueStatus` and in `assignIssueToDepartment` is not modelled.
- The `updated_at` column and `timeline_id` are left out. Both are maintained by the database and read back into the records, but no decision in the core depends on them. The model's records omit them.
- The clock is left out. `now` and the formatted date are inputs.
- `IssueService.getDepartmentIssues`, `IssueDAO.findByDepartment` and `IssueDAO.findByCategoryAndStatus` are plain filters that intake and the lifecycle operations do not use. `getAllIssues` is `IssueDao.FindAll`.
- Database collation is left out. MySQL string comparison may ignore case and trailing spaces; the model compares strings exactly.
- IssueDao.FindNearbyIssues: the query has no ORDER BY, so the database may return rows in any order. The model fixes storage order, so which duplicate is "first" is this order's choice.
- Collections.SortDesc: SQL leaves ties in ORDER BY unordered. The model keeps tied rows in storage order.
- IssueIdGenerator.Generate: the counter is unbounded. It does not model the 32-bit wrap of `AtomicInteger` past 2147483647.
- IssueService.GetAnalytics: counters are unbounded. Java `int` overflow is not modelled.
- IssueModel.IncrementReportCount: the count is unbounded. Java `int` overflow is not modelled.
- IssueDao.IncrementReportCount: the count is unbounded. MySQL rejects an `INT` overflow of `report_count + 1` rather than wrapping; that error is not modelled.
- JavaText.ToUpper: models `toUpperCase` under a root-like default locale, for ASCII plus U+0131 and U+017F only, one character to one. Other characters are unchanged. Locale-specific rules are not modelled: Turkish and Azeri upper-case `i` to `İ`, so "sanitation" would not match; Lithuanian drops U+0307 after `i`, so "sani\u0307tation" would match in Java but not in the model. Mappings that change the length, such as `ß` to `SS`, are not modelled either.
- JavaText.Format04: assumes the default locale prints ASCII digits. `String.format` uses the default locale's digits, so a locale with native digits (Thai digits under `th-TH-u-nu-thai`, for example) would put other characters in the numeric field.
- The success messages ("Registration successful", "Login successful", "Issue reported successfully", the merge message) and the `success` flags of the result maps are left out. The outcome datatypes carry the same information.
