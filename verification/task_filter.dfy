/** The query `getTasks` builds (controllers/taskController.js): a MongoDB
    filter document assembled key by key from the caller's identity, the
    `status` parameter and the `search` parameter, and what that document
    matches. The filter is a tagged expression with a pure evaluator. */
module TaskFilter {
  import opened Common
  import Text
  import opened TaskModel
  import opened UserModel

  /** One field test of a filter document. */
  datatype Clause =
    | AssignedToIs(email: string)          // { assignedTo: email }
    | CreatedByIs(user: Id)                // { createdBy: id }
    | StatusIs(status: string)             // { status: s }
    | TitleMatches(pattern: string)        // { title: { $regex: p, $options: 'i' } }
    | AssignedToMatches(pattern: string)   // { assignedTo: { $regex: p, $options: 'i' } }

  /** A filter expression: `{}`, a field test, a conjunction (`$and`, or two
      keys of one document) and a disjunction (`$or`). */
  datatype Filter =
    | MatchAll
    | Test(clause: Clause)
    | And(left: Filter, right: Filter)
    | Or(left: Filter, right: Filter)

  predicate Holds(c: Clause, t: Task)
  {
    match c
    case AssignedToIs(e) => t.assignedTo == e
    case CreatedByIs(u) => t.createdBy == u
    case StatusIs(s) => StatusName(t.status) == s
    case TitleMatches(p) => Text.ContainsIgnoringCase(t.title, p)
    case AssignedToMatches(p) => Text.ContainsIgnoringCase(t.assignedTo, p)
  }

  /** Whether the stored task `t` matches the filter. */
  predicate Eval(f: Filter, t: Task)
  {
    match f
    case MatchAll => true
    case Test(c) => Holds(c, t)
    case And(l, r) => Eval(l, t) && Eval(r, t)
    case Or(l, r) => Eval(l, t) || Eval(r, t)
  }

  /** The filter object `getTasks` mutates: the keys `$or`, `status` and
      `$and` it may hold. A document's keys are conjoined. */
  datatype FilterDoc = FilterDoc(anyOf: Option<Filter>, status: Option<string>, allOf: Option<Filter>)

  const EmptyDoc := FilterDoc(None, None, None)

  /** Conjunction that leaves out a side that matches everything. */
  function Conj(a: Filter, b: Filter): (r: Filter)
    ensures forall t :: Eval(r, t) <==> Eval(a, t) && Eval(b, t)
    ensures a == MatchAll ==> r == b
    ensures b == MatchAll ==> r == a
  {
    if a == MatchAll then b else if b == MatchAll then a else And(a, b)
  }

  /** The expression a filter document stands for. */
  function ToFilter(d: FilterDoc): (r: Filter)
    ensures forall t :: Eval(r, t) <==>
              && (d.anyOf.Some? ==> Eval(d.anyOf.value, t))
              && (d.status.Some? ==> StatusName(t.status) == d.status.value)
              && (d.allOf.Some? ==> Eval(d.allOf.value, t))
  {
    var a := if d.anyOf.Some? then d.anyOf.value else MatchAll;
    var s := if d.status.Some? then Test(StatusIs(d.status.value)) else MatchAll;
    var b := if d.allOf.Some? then d.allOf.value else MatchAll;
    Conj(Conj(a, s), b)
  }

  /** The visibility rule: a regular user's document starts as
      `{ $or: [{ assignedTo: email }, { createdBy: id }] }`; an admin's is empty. */
  function VisibilityDoc(i: Identity): (d: FilterDoc)
    ensures d.status.None? && d.allOf.None?
    ensures d.anyOf.Some? <==> i.role != Admin
    ensures forall t :: Eval(ToFilter(d), t) <==> Visible(i, t)
  {
    if i.role != Admin then
      FilterDoc(Some(Or(Test(AssignedToIs(i.email)), Test(CreatedByIs(i.id)))), None, None)
    else EmptyDoc
  }

  /** `if (status) filter.status = status`. */
  function WithStatus(d: FilterDoc, status: Option<string>): (r: FilterDoc)
    ensures r.anyOf == d.anyOf && r.allOf == d.allOf
    ensures !Truthy(status) ==> r == d
    ensures d.status.None? ==>
              forall t :: Eval(ToFilter(r), t) <==>
                Eval(ToFilter(d), t) && (Truthy(status) ==> StatusName(t.status) == status.value)
  {
    if Truthy(status) then d.(status := status) else d
  }

  /** The search disjunction over title and assignee. */
  function SearchClause(search: string): (f: Filter)
    ensures forall t :: Eval(f, t) <==> SearchHit(t, search)
  {
    Or(Test(TitleMatches(search)), Test(AssignedToMatches(search)))
  }

  /** `if (search) ...`: when the document already has an `$or`, both `$or`s
      move under a new `$and` and the top-level `$or` is deleted; otherwise
      the search disjunction becomes the `$or`. */
  function WithSearch(d: FilterDoc, search: Option<string>): (r: FilterDoc)
    ensures r.status == d.status
    ensures !Truthy(search) ==> r == d
    ensures d.allOf.None? ==>
              forall t :: Eval(ToFilter(r), t) <==>
                Eval(ToFilter(d), t) && (Truthy(search) ==> SearchHit(t, search.value))
  {
    if !Truthy(search) then d
    else if d.anyOf.Some? then
      d.(allOf := Some(And(d.anyOf.value, SearchClause(search.value))), anyOf := None)
    else d.(anyOf := Some(SearchClause(search.value)))
  }

  /** The filter `getTasks` runs for an authenticated caller. */
  function BuildFilter(i: Identity, status: Option<string>, search: Option<string>): (r: Filter)
    ensures forall t :: Eval(r, t) <==> Wanted(i, status, search, t)
  {
    ToFilter(WithSearch(WithStatus(VisibilityDoc(i), status), search))
  }

  /** The visibility base filter, stated on its own. */
  predicate Visible(i: Identity, t: Task)
  {
    i.role == Admin || t.assignedTo == i.email || t.createdBy == i.id
  }

  /** The search condition, stated on its own. */
  predicate SearchHit(t: Task, search: string)
  {
    Text.ContainsIgnoringCase(t.title, search) || Text.ContainsIgnoringCase(t.assignedTo, search)
  }

  /** What the built filter means: visibility AND status AND search, each
      condition present only when its parameter is. */
  predicate Wanted(i: Identity, status: Option<string>, search: Option<string>, t: Task)
  {
    && Visible(i, t)
    && (Truthy(status) ==> StatusName(t.status) == status.value)
    && (Truthy(search) ==> SearchHit(t, search.value))
  }

  /** The built filter matches exactly the wanted tasks, for every identity,
      status and search. */
  lemma FilterMeaning(i: Identity, status: Option<string>, search: Option<string>, t: Task)
    ensures Eval(BuildFilter(i, status, search), t) <==> Wanted(i, status, search, t)
  {
  }

  /** The visibility invariant: whatever status and search a regular user
      sends, every task the filter matches is assigned to or created by them. */
  lemma NonAdminSeesOnlyOwnTasks(i: Identity, status: Option<string>, search: Option<string>, t: Task)
    requires i.role != Admin
    requires Eval(BuildFilter(i, status, search), t)
    ensures t.assignedTo == i.email || t.createdBy == i.id
  {
    FilterMeaning(i, status, search, t);
  }

  /** Every match has the requested status and hits the requested search. */
  lemma MatchesHonourParameters(i: Identity, status: Option<string>, search: Option<string>, t: Task)
    requires Eval(BuildFilter(i, status, search), t)
    ensures Truthy(status) ==> StatusName(t.status) == status.value
    ensures Truthy(search) ==> SearchHit(t, search.value)
  {
    FilterMeaning(i, status, search, t);
  }

  /** An admin with neither status nor search gets the empty filter, which
      matches every task. */
  lemma AdminUnfilteredMatchesAll(i: Identity, status: Option<string>, search: Option<string>)
    requires i.role == Admin && !Truthy(status) && !Truthy(search)
    ensures BuildFilter(i, status, search) == MatchAll
    ensures forall t :: Eval(BuildFilter(i, status, search), t)
  {
  }

  /** An admin with a search only gets just the title/assignee disjunction. */
  lemma AdminSearchOnly(i: Identity, status: Option<string>, search: Option<string>)
    requires i.role == Admin && !Truthy(status) && Truthy(search)
    ensures BuildFilter(i, status, search) == SearchClause(search.value)
  {
  }

  /** Why the search `$or` is nested under `$and` rather than written over
      the visibility `$or`: a document whose search disjunction replaced the
      visibility one lets a regular user see someone else's task. */
  lemma OverwritingVisibilityLeaks()
    ensures exists i: Identity, t: Task ::
              && i.role != Admin
              && Eval(ToFilter(VisibilityDoc(i).(anyOf := Some(SearchClause("a")))), t)
              && !Visible(i, t)
  {
    var i := Identity(1, "me@x", Regular, []);
    var t := Task(2, "a", "d", "other@x", 3, Low, Pending, None, None);
    assert Text.FoldAll("a") == "a";
    assert Text.OccursAt("a", "a", 0);
    assert Eval(ToFilter(VisibilityDoc(i).(anyOf := Some(SearchClause("a")))), t);
  }
}
