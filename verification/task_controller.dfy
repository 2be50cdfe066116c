/** The task handlers of controllers/taskController.js over an in-memory
    task collection and user collection: listing with visibility filter and
    pagination, reading one task (which records it in the reader's
    recently-viewed list), the recently-viewed listing, and the admin-only
    create, update and delete. Each handler returns its reply together with
    the collection it changes. */
module TaskController {
  import opened Common
  import Store
  import opened TaskModel
  import opened UserModel
  import opened TaskFilter
  import Pagination
  import RecentlyViewed
  import Crypto

  /** The query string of `GET /api/tasks`, with `page` and `limit` already
      integers. */
  datatype TaskQuery = TaskQuery(status: Option<string>, search: Option<string>, page: Option<int>, limit: Option<int>)

  /** The `{ tasks, pagination }` reply body. */
  datatype TaskPage = TaskPage(tasks: seq<Task>, pagination: Pagination.PageInfo)

  /** The message of the ReferenceError the anonymous branch of `getTasks`
      raises by reading `limitNum` before its declaration. */
  const LimitNumUninitialised := "Cannot access 'limitNum' before initialization"

  /** The message of the CastError a malformed id raises in `findByIdAndUpdate`. */
  const CastFailed := "Cast to ObjectId failed for value at path \"_id\" for model \"Task\""

  function Matcher(f: Filter): Task -> bool
  {
    (t: Task) => Eval(f, t)
  }

  /** The reference selection: the tasks the caller should see for the query. */
  function Wants(i: Identity, q: TaskQuery): Task -> bool
  {
    (t: Task) => Wanted(i, q.status, q.search, t)
  }

  /** `Task.find(filter)` with the filter `getTasks` builds selects exactly
      the wanted tasks, in store order. */
  lemma FilterSelectsWanted(store: seq<Task>, i: Identity, q: TaskQuery)
    ensures Store.Keep(store, Matcher(BuildFilter(i, q.status, q.search))) == Store.Keep(store, Wants(i, q))
  {
    var f := BuildFilter(i, q.status, q.search);
    forall k | 0 <= k < |store|
      ensures Matcher(f)(store[k]) == Wants(i, q)(store[k])
    {
      FilterMeaning(i, q.status, q.search, store[k]);
    }
    Store.KeepSame(store, Matcher(f), Wants(i, q));
  }

  /** `getTasks` as written. With an identity: the page of the matches the
      query asks for. Without one: the branch meant to answer an empty page
      reads `limitNum` in its temporal dead zone, and the catch answers 500. */
  function GetTasks(store: seq<Task>, user: Option<Identity>, q: TaskQuery): (r: Reply<TaskPage>)
    ensures user.None? ==> r == Err(500, LimitNumUninitialised)
    ensures user.Some? ==> r.Ok? && r.code == 200
    ensures r.Ok? ==> |r.body.tasks| <= r.body.pagination.limit
    ensures r.Ok? ==> forall k :: 0 <= k < |r.body.tasks| ==>
              r.body.tasks[k] in store && Wanted(user.value, q.status, q.search, r.body.tasks[k])
  {
    if user.None? then Err(500, LimitNumUninitialised)
    else
      var matches := Store.Keep(store, Matcher(BuildFilter(user.value, q.status, q.search)));
      FilterSelectsWanted(store, user.value, q);
      var page := Pagination.Paginate(matches, q.page, q.limit);
      Ok(200, TaskPage(page.0, page.1))
  }

  /** `getTasks` as its anonymous branch intends: an empty first page whose
      limit is the clamped `limit` parameter; identical to `getTasks` for an
      authenticated caller. */
  function GetTasksIntended(store: seq<Task>, user: Option<Identity>, q: TaskQuery): (r: Reply<TaskPage>)
    ensures r.Ok? && r.code == 200
    ensures user.None? ==>
              && r.body.tasks == []
              && r.body.pagination == Pagination.PageInfo(
                   1, Pagination.AtLeastOne(if q.limit.Some? then q.limit.value else Pagination.DefaultLimit), 0, 0)
    ensures user.Some? ==> r == GetTasks(store, user, q)
  {
    if user.None? then
      var limitNum := Pagination.AtLeastOne(if q.limit.Some? then q.limit.value else Pagination.DefaultLimit);
      Ok(200, TaskPage([], Pagination.PageInfo(1, limitNum, 0, 0)))
    else GetTasks(store, user, q)
  }

  /** Without an identity no task is ever listed, by the code as written or
      as intended. */
  lemma AnonymousSeesNoTask(store: seq<Task>, q: TaskQuery)
    ensures GetTasks(store, None, q).Err?
    ensures GetTasksIntended(store, None, q).body.tasks == []
  {
  }

  /** The authenticated listing is the requested page of the reference
      selection: `total` counts every wanted task whatever the page, and the
      tasks are the wanted ones from position `(page - 1) * limit` on. */
  lemma ListingIsPageOfWanted(store: seq<Task>, i: Identity, q: TaskQuery)
    ensures var all := Store.Keep(store, Wants(i, q));
            var page := Pagination.Paginate(all, q.page, q.limit);
            GetTasksIntended(store, Some(i), q) == Ok(200, TaskPage(page.0, page.1))
  {
    FilterSelectsWanted(store, i, q);
  }

  /** A regular user's listing holds only tasks assigned to or created by
      them, whatever status, search and page they ask for. */
  lemma RegularListingIsOwn(store: seq<Task>, i: Identity, q: TaskQuery)
    requires i.role != Admin
    ensures forall t :: t in GetTasksIntended(store, Some(i), q).body.tasks ==>
              t.assignedTo == i.email || t.createdBy == i.id
  {
  }

  /** No wanted task is lost between pages: each one is listed on some page
      that the reply's page count covers. */
  lemma EveryWantedTaskIsListed(store: seq<Task>, i: Identity, q: TaskQuery, t: Task)
    requires t in store && Wanted(i, q.status, q.search, t)
    ensures exists page :: page >= 1 &&
              var r := GetTasksIntended(store, Some(i), q.(page := Some(page)));
              t in r.body.tasks && page <= r.body.pagination.pages
  {
    var all := Store.Keep(store, Wants(i, q));
    assert Wants(i, q)(t);
    var idx :| 0 <= idx < |all| && all[idx] == t;
    var limitNum := Pagination.AtLeastOne(if q.limit.Some? then q.limit.value else Pagination.DefaultLimit);
    Pagination.EveryMatchOnItsPage(all, limitNum, idx);
    var page := idx / limitNum + 1;
    var q' := q.(page := Some(page));
    assert Pagination.Paginate(all, Some(page), Some(limitNum)) == Pagination.Paginate(all, q'.page, q'.limit);
    ListingIsPageOfWanted(store, i, q');
    assert Wants(i, q') == Wants(i, q);
  }

  /** `getTaskById`. A malformed id is a cast error (400); an absent task is
      404; otherwise the task is returned and, when the request carries an
      identity whose user is stored, the task is recorded in that user's
      recently-viewed list and the user saved with its password hash
      untouched. */
  function GetTaskById(tasks: seq<Task>, users: seq<User>, user: Option<Identity>, id: PathId,
                       bcrypt: Crypto.Bcrypt, salt: nat): (r: Handled<Task, seq<User>>)
    requires Store.UniqueKeys(users, UserId)
    ensures id.Malformed? ==> r == Handled(Err(400, "Invalid ID"), users)
    ensures id.WellFormed? && Store.Find(tasks, TaskId, id.id).None? ==> r == Handled(Err(404, "Task not found"), users)
    ensures r.reply.Ok? <==> id.WellFormed? && Store.Find(tasks, TaskId, id.id).Some?
    ensures r.reply.Ok? ==> r.reply.code == 200 && r.reply.body in tasks && r.reply.body.id == id.id
    ensures user.None? ==> r.state == users
    ensures |r.state| == |users|
    ensures forall k :: 0 <= k < |users| ==>
              r.state[k] == if r.reply.Ok? && user.Some? && users[k].id == user.value.id
                            then users[k].(recentlyViewedTasks := RecentlyViewed.RecordView(users[k].recentlyViewedTasks, id.id))
                            else users[k]
  {
    if id.Malformed? then Handled(Err(400, "Invalid ID"), users)
    else match Store.Find(tasks, TaskId, id.id)
      case None => Handled(Err(404, "Task not found"), users)
      case Some(task) =>
        if user.None? then Handled(Ok(200, task), users)
        else match Store.Find(users, UserId, user.value.id)
          case None => Handled(Ok(200, task), users)
          case Some(u) =>
            var viewed := u.(recentlyViewedTasks := RecentlyViewed.RecordView(u.recentlyViewedTasks, task.id));
            var saved := PreSave(viewed, false, salt, bcrypt);
            forall k | 0 <= k < |users| && users[k].id == user.value.id
              ensures users[k] == u
            {
              Store.FindUnique(users, UserId, k);
            }
            Handled(Ok(200, task), Store.Replace(users, UserId, user.value.id, saved))
  }

  /** Every stored recently-viewed list is short and duplicate-free. */
  predicate ListsWellKept(users: seq<User>)
  {
    forall k :: 0 <= k < |users| ==>
      RecentlyViewed.NoDuplicates(users[k].recentlyViewedTasks) && |users[k].recentlyViewedTasks| <= RecentlyViewed.MaxRecent
  }

  /** Reading a task keeps every user's list short and duplicate-free, keeps
      user ids unique, and never touches a password hash. */
  lemma GetTaskByIdKeepsLists(tasks: seq<Task>, users: seq<User>, user: Option<Identity>, id: PathId,
                              bcrypt: Crypto.Bcrypt, salt: nat)
    requires Store.UniqueKeys(users, UserId) && ListsWellKept(users)
    ensures var s := GetTaskById(tasks, users, user, id, bcrypt, salt).state;
            && ListsWellKept(s)
            && Store.UniqueKeys(s, UserId)
            && forall k :: 0 <= k < |users| ==> s[k].password == users[k].password
  {
    var s := GetTaskById(tasks, users, user, id, bcrypt, salt).state;
    forall k | 0 <= k < |users|
      ensures RecentlyViewed.NoDuplicates(s[k].recentlyViewedTasks)
    {
      if s[k] != users[k] {
        RecentlyViewed.RecordViewNoDuplicates(users[k].recentlyViewedTasks, id.id);
      }
    }
  }

  /** The tasks that the ids name, in the order of the ids, leaving out ids
      whose task no longer exists (what `populate` does to a list of
      references). */
  function Resolve(tasks: seq<Task>, ids: seq<Id>): (r: seq<Task>)
    ensures |r| <= |ids|
    ensures forall k :: 0 <= k < |r| ==> r[k] in tasks && r[k].id in ids
    ensures forall k :: 0 <= k < |ids| && Store.Find(tasks, TaskId, ids[k]).Some? ==>
              Store.Find(tasks, TaskId, ids[k]).value in r
  {
    if |ids| == 0 then []
    else
      var rest := Resolve(tasks, ids[1..]);
      assert forall k :: 1 <= k < |ids| ==> ids[k] == ids[1..][k - 1];
      match Store.Find(tasks, TaskId, ids[0])
      case Some(t) => [t] + rest
      case None => rest
  }

  /** Resolution is the list with the dangling ids filtered out, each
      remaining id replaced by its task: same order, same multiplicity. */
  lemma {:induction false} ResolveIsKept(tasks: seq<Task>, ids: seq<Id>)
    ensures var r := Resolve(tasks, ids);
            var kept := Store.Keep(ids, Present(tasks));
            && |r| == |kept|
            && forall k :: 0 <= k < |r| ==> Store.Find(tasks, TaskId, kept[k]) == Some(r[k])
  {
    if |ids| > 0 {
      var p := Present(tasks);
      ResolveIsKept(tasks, ids[1..]);
      Store.KeepStep(ids, p);
      var r := Resolve(tasks, ids);
      var rest := Resolve(tasks, ids[1..]);
      var kept := Store.Keep(ids[1..], p);
      match Store.Find(tasks, TaskId, ids[0])
      case Some(t) =>
        assert p(ids[0]);
        assert r == [t] + rest;
        assert forall k :: 0 < k < |r| ==> r[k] == rest[k - 1] && Store.Keep(ids, p)[k] == kept[k - 1];
      case None =>
        assert !p(ids[0]);
        assert r == rest;
    }
  }

  /** Whether an id still names a stored task. */
  function Present(tasks: seq<Task>): Id -> bool
  {
    (id: Id) => Store.Find(tasks, TaskId, id).Some?
  }

  /** When every id still names a task, resolution keeps them all, position
      by position. */
  lemma {:induction false} ResolveAllPresent(tasks: seq<Task>, ids: seq<Id>)
    requires forall k :: 0 <= k < |ids| ==> Store.Find(tasks, TaskId, ids[k]).Some?
    ensures var r := Resolve(tasks, ids);
            |r| == |ids| && forall k :: 0 <= k < |r| ==> r[k].id == ids[k]
  {
    if |ids| > 0 {
      ResolveAllPresent(tasks, ids[1..]);
    }
  }

  /** `getRecentlyViewedTasks`: 401 without an identity, an empty list when
      the user is gone, otherwise the tasks of the user's list that still
      exist, most recent first. */
  function GetRecentlyViewedTasks(tasks: seq<Task>, users: seq<User>, user: Option<Identity>): (r: Reply<seq<Task>>)
    ensures user.None? <==> r == Err(401, "Unauthorized")
    ensures user.Some? && Store.Find(users, UserId, user.value.id).None? ==> r == Ok(200, [])
    ensures user.Some? && Store.Find(users, UserId, user.value.id).Some? ==>
              var list := Store.Find(users, UserId, user.value.id).value.recentlyViewedTasks;
              && r.Ok? && r.code == 200
              && |r.body| <= |list|
              && (forall k :: 0 <= k < |r.body| ==> r.body[k] in tasks && r.body[k].id in list)
              && |r.body| == |Store.Keep(list, Present(tasks))|
              && (forall k :: 0 <= k < |r.body| ==>
                    Store.Find(tasks, TaskId, Store.Keep(list, Present(tasks))[k]) == Some(r.body[k]))
  {
    if user.None? then Err(401, "Unauthorized")
    else match Store.Find(users, UserId, user.value.id)
      case None => Ok(200, [])
      case Some(u) =>
        ResolveIsKept(tasks, u.recentlyViewedTasks);
        Ok(200, Resolve(tasks, u.recentlyViewedTasks))
  }

  /** `createTask`: the body with `createdBy` overwritten by the caller's id,
      validated and stored under a fresh id (201); a validation error is 400
      and stores nothing. */
  function CreateTask(tasks: seq<Task>, creator: Identity, freshId: Id, body: TaskBody): (r: Handled<Task, seq<Task>>)
    requires Store.Find(tasks, TaskId, freshId).None?
    ensures r.reply.Ok? <==> NewTask(freshId, body.(createdBy := Given(creator.id))).Success?
    ensures r.reply.Ok? ==>
              && r.reply.code == 201
              && r.reply.body.id == freshId
              && r.reply.body.createdBy == creator.id
              && ValidTask(r.reply.body)
              && r.reply.body == NewTask(freshId, body.(createdBy := Given(creator.id))).value
              && r.state == tasks + [r.reply.body]
    ensures r.reply.Err? ==> r.reply.code == 400 && r.state == tasks
  {
    var data := body.(createdBy := Given(creator.id));
    match NewTask(freshId, data)
    case Failure(e) => Handled(Err(400, e), tasks)
    case Success(t) => Handled(Ok(201, t), tasks + [t])
  }

  /** Whatever `createdBy` the body carries, the stored task is the same. */
  lemma CreateIgnoresBodyCreator(tasks: seq<Task>, creator: Identity, freshId: Id, body: TaskBody, claimed: Presence<Id>)
    requires Store.Find(tasks, TaskId, freshId).None?
    ensures CreateTask(tasks, creator, freshId, body.(createdBy := claimed)) == CreateTask(tasks, creator, freshId, body)
  {
  }

  /** A task just created is what a later fetch by its id answers. */
  lemma CreateThenGet(tasks: seq<Task>, users: seq<User>, creator: Identity, viewer: Option<Identity>,
                      freshId: Id, body: TaskBody, bcrypt: Crypto.Bcrypt, salt: nat)
    requires Store.Find(tasks, TaskId, freshId).None?
    requires Store.UniqueKeys(tasks, TaskId) && Store.UniqueKeys(users, UserId)
    requires CreateTask(tasks, creator, freshId, body).reply.Ok?
    ensures var c := CreateTask(tasks, creator, freshId, body);
            GetTaskById(c.state, users, viewer, WellFormed(freshId), bcrypt, salt).reply == Ok(200, c.reply.body)
  {
    var c := CreateTask(tasks, creator, freshId, body);
    Store.FindAppended(tasks, TaskId, c.reply.body);
  }

  /** Creating keeps task ids unique and every stored task valid. */
  lemma CreateKeepsStoreWellFormed(tasks: seq<Task>, creator: Identity, freshId: Id, body: TaskBody)
    requires Store.Find(tasks, TaskId, freshId).None?
    requires Store.UniqueKeys(tasks, TaskId) && forall k :: 0 <= k < |tasks| ==> ValidTask(tasks[k])
    ensures var s := CreateTask(tasks, creator, freshId, body).state;
            Store.UniqueKeys(s, TaskId) && forall k :: 0 <= k < |s| ==> ValidTask(s[k])
  {
    var r := CreateTask(tasks, creator, freshId, body);
    if r.reply.Ok? {
      var s, t := r.state, r.reply.body;
      assert s == tasks + [t];
      forall k | 0 <= k < |s| ensures ValidTask(s[k]) {
        if k < |tasks| {
          assert s[k] == tasks[k];
        }
      }
      forall i, j | 0 <= i < j < |s| ensures s[i].id != s[j].id {
        assert s[i] == tasks[i];
        if j == |tasks| {
          assert tasks[i] in tasks;
        } else {
          assert s[j] == tasks[j];
        }
      }
    }
  }

  /** `if (req.body.createdBy) delete req.body.createdBy`: a truthy creator
      is dropped; a falsy one stays and reaches the validators. */
  function StripCreator(body: TaskBody): (r: TaskBody)
    ensures !r.createdBy.Given?
    ensures r.createdBy.Falsy? <==> body.createdBy.Falsy?
    ensures r.(createdBy := body.createdBy) == body
  {
    if body.createdBy.Given? then body.(createdBy := Absent) else body
  }

  /** `updateTask`: the stripped payload is validated (400), then applied to
      the task with that id (404 when there is none). A malformed id is a
      cast error (400). Only a top-level `createdBy` is stripped: a creator
      written through `$set` reaches the store. */
  function UpdateTask(tasks: seq<Task>, id: PathId, body: TaskBody): (r: Handled<Task, seq<Task>>)
    requires Store.UniqueKeys(tasks, TaskId)
    ensures r.reply.Ok? <==>
              && id.WellFormed?
              && UpdateProblem(StripCreator(body)).None?
              && Store.Find(tasks, TaskId, id.id).Some?
    ensures r.reply.Err? ==> r.state == tasks
    ensures r.reply.Err? ==> r.reply.code == 400 || r.reply == Err(404, "Task not found")
    ensures id.WellFormed? && UpdateProblem(StripCreator(body)).None? && Store.Find(tasks, TaskId, id.id).None? ==>
              r.reply == Err(404, "Task not found")
    ensures body.createdBy.Falsy? ==> r.reply.Err? && r.reply.code == 400
    ensures r.reply.Ok? ==> r.reply.code == 200 && r.reply.body.id == id.id && r.reply.body in r.state
    ensures r.reply.Ok? ==> r.reply.body == ApplyUpdate(Store.Find(tasks, TaskId, id.id).value, StripCreator(body))
    ensures |r.state| == |tasks|
    ensures r.reply.Ok? ==> forall k :: 0 <= k < |tasks| && tasks[k].id == id.id ==> r.state[k] == r.reply.body
    ensures forall k :: 0 <= k < |tasks| ==>
              && r.state[k].id == tasks[k].id
              && r.state[k].createdBy == (if r.reply.Ok? && tasks[k].id == id.id && body.setCreatedBy.Some?
                                          then body.setCreatedBy.value.id else tasks[k].createdBy)
              && (r.reply.Err? || tasks[k].id != id.id ==> r.state[k] == tasks[k])
  {
    var data := StripCreator(body);
    if id.Malformed? then Handled(Err(400, CastFailed), tasks)
    else match UpdateProblem(data)
      case Some(e) => Handled(Err(400, e), tasks)
      case None =>
        match Store.Find(tasks, TaskId, id.id)
        case None => Handled(Err(404, "Task not found"), tasks)
        case Some(t) =>
          var t' := ApplyUpdate(t, data);
          forall k | 0 <= k < |tasks| && tasks[k].id == id.id
            ensures tasks[k] == t
          {
            Store.FindUnique(tasks, TaskId, k);
          }
          var s := Store.Replace(tasks, TaskId, id.id, t');
          assert exists k :: 0 <= k < |tasks| && tasks[k] == t;
          Handled(Ok(200, t'), s)
  }

  /** As written, a payload `{"$set": {"createdBy": 8}}` gets past the strip
      and hands the task to user 8. */
  lemma SetOperatorChangesCreator()
    ensures var t := Task(1, "t", "d", "a", 7, Low, Pending, None, None);
            var body := TaskBody(None, None, None, Absent, None, None, None, None, Some(WellFormed(8)));
            var r := UpdateTask([t], WellFormed(1), body);
            r.reply.Ok? && r.state == [r.reply.body] && r.reply.body.createdBy == 8
  {
    var t := Task(1, "t", "d", "a", 7, Low, Pending, None, None);
    assert Store.UniqueKeys([t], TaskId);
  }

  /** `updateTask` as its comment means it ("Prevent updating createdBy"):
      a creator written through `$set` is stripped as well. It answers as
      the handler does for every payload without one, and no update ever
      changes a task's creator. */
  function UpdateTaskIntended(tasks: seq<Task>, id: PathId, body: TaskBody): (r: Handled<Task, seq<Task>>)
    requires Store.UniqueKeys(tasks, TaskId)
    ensures r.reply.Ok? <==>
              && id.WellFormed?
              && UpdateProblem(StripCreator(body).(setCreatedBy := None)).None?
              && Store.Find(tasks, TaskId, id.id).Some?
    ensures r.reply.Err? ==> r.state == tasks
    ensures body.setCreatedBy.None? ==> r == UpdateTask(tasks, id, body)
    ensures |r.state| == |tasks|
    ensures forall k :: 0 <= k < |tasks| ==>
              r.state[k].id == tasks[k].id && r.state[k].createdBy == tasks[k].createdBy
  {
    UpdateTask(tasks, id, body.(setCreatedBy := None))
  }

  /** Updating keeps task ids unique and every stored task valid. */
  lemma UpdateKeepsStoreWellFormed(tasks: seq<Task>, id: PathId, body: TaskBody)
    requires Store.UniqueKeys(tasks, TaskId) && forall k :: 0 <= k < |tasks| ==> ValidTask(tasks[k])
    ensures var s := UpdateTask(tasks, id, body).state;
            Store.UniqueKeys(s, TaskId) && forall k :: 0 <= k < |s| ==> ValidTask(s[k])
  {
    var r := UpdateTask(tasks, id, body);
    if r.reply.Ok? {
      var data := StripCreator(body);
      var t := Store.Find(tasks, TaskId, id.id).value;
      var t' := ApplyUpdate(t, data);
      UpdateKeepsTaskValid(t, data);
      assert r.state == Store.Replace(tasks, TaskId, id.id, t');
      Store.ReplaceUnique(tasks, TaskId, id.id, t');
      forall k | 0 <= k < |r.state| ensures ValidTask(r.state[k]) {
        if tasks[k].id != id.id {
          assert r.state[k] == tasks[k];
        } else {
          assert r.state[k] == t';
        }
      }
    }
  }

  /** `deleteTask`: a malformed id is 400, an absent one 404 with the store
      unchanged; otherwise that task is gone and nothing else is. */
  function DeleteTask(tasks: seq<Task>, id: PathId): (r: Handled<string, seq<Task>>)
    ensures id.Malformed? ==> r == Handled(Err(400, "Invalid ID"), tasks)
    ensures r.reply.Ok? <==> id.WellFormed? && Store.Find(tasks, TaskId, id.id).Some?
    ensures r.reply.Err? ==> r.state == tasks
    ensures id.WellFormed? && Store.Find(tasks, TaskId, id.id).None? ==> r.reply == Err(404, "Task not found")
    ensures r.reply.Ok? ==>
              && r.reply == Ok(200, "Task deleted")
              && |r.state| < |tasks|
              && (forall x :: x in r.state ==> x in tasks && x.id != id.id)
              && (forall x :: x in tasks && x.id != id.id ==> x in r.state)
              && r.state == Store.Keep(tasks, Store.KeyIsNot(TaskId, id.id))
              && Store.IsSubsequence(r.state, tasks)
  {
    if id.Malformed? then Handled(Err(400, "Invalid ID"), tasks)
    else match Store.Find(tasks, TaskId, id.id)
      case None => Handled(Err(404, "Task not found"), tasks)
      case Some(_) =>
        Store.KeepIsSubsequence(tasks, Store.KeyIsNot(TaskId, id.id));
        Handled(Ok(200, "Task deleted"), Store.Remove(tasks, TaskId, id.id))
  }
}
