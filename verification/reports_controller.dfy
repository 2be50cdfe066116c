/** The report handlers of controllers/reportsController.js over an in-memory
    report collection: the owner-scoped listing sorted newest first, creation
    with its required-field check and server-assigned owner, and the
    admin-only delete. */
module ReportsController {
  import opened Common
  import Store
  import Text
  import opened ReportModel
  import opened UserModel

  /** Sorted by `createdAt`, newest first (`.sort({ createdAt: -1 })`). */
  predicate NewestFirst(s: seq<Report>)
  {
    forall i, j :: 0 <= i < j < |s| ==> s[i].createdAt >= s[j].createdAt
  }

  /** `x` placed in front of the first report that is not newer than it. */
  function Insert(x: Report, s: seq<Report>): (r: seq<Report>)
    requires NewestFirst(s)
    ensures NewestFirst(r)
    ensures multiset(r) == multiset(s) + multiset{x}
    ensures forall y :: y in r ==> y in s || y == x
  {
    if |s| == 0 then [x]
    else if x.createdAt >= s[0].createdAt then [x] + s
    else
      var rest := Insert(x, s[1..]);
      assert s == [s[0]] + s[1..];
      forall y | y in rest ensures s[0].createdAt >= y.createdAt {
        if y != x {
          var k :| 0 <= k < |s[1..]| && s[1..][k] == y;
          assert s[k + 1] == y;
        }
      }
      PrependKeepsNewestFirst(s[0], rest);
      [s[0]] + rest
  }

  /** A report no older than any in a newest-first list may go in front. */
  lemma PrependKeepsNewestFirst(h: Report, rest: seq<Report>)
    requires NewestFirst(rest)
    requires forall y :: y in rest ==> h.createdAt >= y.createdAt
    ensures NewestFirst([h] + rest)
  {
    var r := [h] + rest;
    forall i, j | 0 <= i < j < |r| ensures r[i].createdAt >= r[j].createdAt {
      assert r[j] == rest[j - 1] && r[j] in rest;
      if i > 0 {
        assert r[i] == rest[i - 1];
      }
    }
  }

  /** The reports reordered newest first. */
  function SortNewestFirst(s: seq<Report>): (r: seq<Report>)
    ensures NewestFirst(r)
    ensures multiset(r) == multiset(s)
  {
    if |s| == 0 then []
    else
      assert s == [s[0]] + s[1..];
      Insert(s[0], SortNewestFirst(s[1..]))
  }

  function OwnedBy(user: Id): Report -> bool
  {
    (x: Report) => x.createdBy == user
  }

  /** `getReports`: an admin's filter is empty, anyone else's is their own id
      as `createdBy`; the result is sorted newest first. */
  function GetReports(reports: seq<Report>, user: Identity): (r: Reply<seq<Report>>)
    ensures r.Ok? && r.code == 200
    ensures NewestFirst(r.body)
    ensures forall x :: x in r.body ==> x in reports && (!IsAdmin(user) ==> x.createdBy == user.id)
    ensures forall x :: x in reports && (IsAdmin(user) || x.createdBy == user.id) ==> x in r.body
  {
    var selected := if !IsAdmin(user) then Store.Keep(reports, OwnedBy(user.id)) else reports;
    var sorted := SortNewestFirst(selected);
    assert forall x :: x in sorted <==> x in multiset(sorted);
    Ok(200, sorted)
  }

  /** An admin's listing holds every report exactly as often as the
      collection does. */
  lemma AdminListsEveryReport(reports: seq<Report>, user: Identity)
    requires IsAdmin(user)
    ensures multiset(GetReports(reports, user).body) == multiset(reports)
  {
  }

  /** A regular user's listing is a permutation of their own reports. */
  lemma RegularListsOwnReports(reports: seq<Report>, user: Identity)
    requires !IsAdmin(user)
    ensures multiset(GetReports(reports, user).body) == multiset(Store.Keep(reports, OwnedBy(user.id)))
  {
  }

  /** A report payload: the fields `createReport` reads, plus whatever owner
      the client claims (which it ignores). */
  datatype ReportBody = ReportBody(
    title: Option<string>,
    description: Option<string>,
    category: Option<string>,
    relatedTask: Presence<PathId>,
    createdBy: Presence<Id>)

  const MissingFields := "Title, description, and category are required"
  const RelatedTaskCast := "Report validation failed: relatedTask: Cast to ObjectId failed"

  /** `relatedTask || null`. */
  function RelatedTaskOf(p: Presence<PathId>): (r: Option<PathId>)
    ensures r.Some? <==> p.Given?
    ensures p.Given? ==> r.value == p.value
  {
    if p.Given? then Some(p.value) else None
  }

  /** `createReport`: a falsy title, description or category is 400 with no
      save; otherwise the report is built with the caller as owner and saved
      (201), or refused by the schema (400). */
  function CreateReport(reports: seq<Report>, user: Identity, freshId: Id, now: int, body: ReportBody): (r: Handled<Report, seq<Report>>)
    requires Store.Find(reports, ReportId, freshId).None?
    ensures !(Truthy(body.title) && Truthy(body.description) && Truthy(body.category)) ==>
              r == Handled(Err(400, MissingFields), reports)
    ensures r.reply.Err? ==> r.reply.code == 400 && r.state == reports
    ensures r.reply.Ok? <==>
              && Truthy(body.title) && !Text.AllSpace(body.title.value)
              && Truthy(body.description)
              && Truthy(body.category) && (body.category.value == "work" || body.category.value == "complaint")
              && !(body.relatedTask.Given? && body.relatedTask.value.Malformed?)
    ensures r.reply.Ok? ==>
              && r.reply.code == 201
              && r.reply.body.id == freshId
              && r.reply.body.createdBy == user.id
              && r.reply.body.title == Text.Trim(body.title.value)
              && r.reply.body.description == body.description.value
              && CategoryName(r.reply.body.category) == body.category.value
              && r.reply.body.relatedTask == (if body.relatedTask.Given? then Some(body.relatedTask.value.id) else None)
              && r.reply.body.createdAt == now
              && ValidReport(r.reply.body)
              && r.state == reports + [r.reply.body]
  {
    if !Truthy(body.title) || !Truthy(body.description) || !Truthy(body.category) then
      Handled(Err(400, MissingFields), reports)
    else
      var related := RelatedTaskOf(body.relatedTask);
      if related.Some? && related.value.Malformed? then Handled(Err(400, RelatedTaskCast), reports)
      else
        var task := if related.Some? then Some(related.value.id) else None;
        match NewReport(freshId, body.title.value, body.description.value, body.category.value, user.id, task, now)
        case Failure(e) => Handled(Err(400, e), reports)
        case Success(report) => Handled(Ok(201, report), reports + [report])
  }

  /** The owner a client claims in the body is ignored. */
  lemma CreateReportIgnoresClaimedOwner(reports: seq<Report>, user: Identity, freshId: Id, now: int,
                                        body: ReportBody, claimed: Presence<Id>)
    requires Store.Find(reports, ReportId, freshId).None?
    ensures CreateReport(reports, user, freshId, now, body.(createdBy := claimed)) == CreateReport(reports, user, freshId, now, body)
  {
  }

  /** Creating keeps report ids unique. */
  lemma CreateReportKeepsIdsUnique(reports: seq<Report>, user: Identity, freshId: Id, now: int, body: ReportBody)
    requires Store.Find(reports, ReportId, freshId).None? && Store.UniqueKeys(reports, ReportId)
    ensures Store.UniqueKeys(CreateReport(reports, user, freshId, now, body).state, ReportId)
  {
    var r := CreateReport(reports, user, freshId, now, body);
    if r.reply.Ok? {
      var s := r.state;
      forall i, j | 0 <= i < j < |s| ensures s[i].id != s[j].id {
        assert s[i] == reports[i];
        if j == |reports| {
          assert reports[i] in reports;
        } else {
          assert s[j] == reports[j];
        }
      }
    }
  }

  const DeleteCast := "Cast to ObjectId failed for value at path \"_id\" for model \"Report\""

  /** `deleteReport`: a non-admin is refused (403) before anything else;
      then a malformed id is 400, an absent one 404; otherwise the report is
      gone and nothing else is. */
  function DeleteReport(reports: seq<Report>, user: Identity, id: PathId): (r: Handled<string, seq<Report>>)
    ensures !IsAdmin(user) ==> r == Handled(Err(403, "Only admin can delete reports"), reports)
    ensures r.reply.Ok? <==> IsAdmin(user) && id.WellFormed? && Store.Find(reports, ReportId, id.id).Some?
    ensures r.reply.Err? ==> r.state == reports
    ensures IsAdmin(user) && id.Malformed? ==> r.reply.Err? && r.reply.code == 400
    ensures IsAdmin(user) && id.WellFormed? && Store.Find(reports, ReportId, id.id).None? ==>
              r.reply == Err(404, "Report not found")
    ensures r.reply.Ok? ==>
              && r.reply == Ok(200, "Report deleted successfully")
              && |r.state| < |reports|
              && (forall x :: x in r.state ==> x in reports && x.id != id.id)
              && (forall x :: x in reports && x.id != id.id ==> x in r.state)
              && r.state == Store.Keep(reports, Store.KeyIsNot(ReportId, id.id))
              && Store.IsSubsequence(r.state, reports)
  {
    if !IsAdmin(user) then Handled(Err(403, "Only admin can delete reports"), reports)
    else if id.Malformed? then Handled(Err(400, DeleteCast), reports)
    else match Store.Find(reports, ReportId, id.id)
      case None => Handled(Err(404, "Report not found"), reports)
      case Some(_) =>
        Store.KeepIsSubsequence(reports, Store.KeyIsNot(ReportId, id.id));
        Handled(Ok(200, "Report deleted successfully"), Store.Remove(reports, ReportId, id.id))
  }
}
