/** The Task schema (models/Task.js): the record, the `priority` and `status`
    enumerations, required fields, the `pending` default, the trimmed title,
    and how a create payload and an update payload are validated. */
module TaskModel {
  import opened Common
  import Text

  /** `priority`: `['low', 'medium', 'high']`, required. */
  datatype Priority = Low | Medium | High

  function PriorityName(p: Priority): string
  {
    match p
    case Low => "low"
    case Medium => "medium"
    case High => "high"
  }

  function ParsePriority(s: string): (r: Option<Priority>)
    ensures r.Some? <==> s == "low" || s == "medium" || s == "high"
    ensures r.Some? ==> PriorityName(r.value) == s
  {
    if s == "low" then Some(Low)
    else if s == "medium" then Some(Medium)
    else if s == "high" then Some(High)
    else None
  }

  lemma ParsePriorityName(p: Priority)
    ensures ParsePriority(PriorityName(p)) == Some(p)
  {
  }

  /** `status`: `['pending', 'in_progress', 'completed']`, default `pending`. */
  datatype Status = Pending | InProgress | Completed

  function StatusName(s: Status): string
  {
    match s
    case Pending => "pending"
    case InProgress => "in_progress"
    case Completed => "completed"
  }

  function ParseStatus(s: string): (r: Option<Status>)
    ensures r.Some? <==> s == "pending" || s == "in_progress" || s == "completed"
    ensures r.Some? ==> StatusName(r.value) == s
  {
    if s == "pending" then Some(Pending)
    else if s == "in_progress" then Some(InProgress)
    else if s == "completed" then Some(Completed)
    else None
  }

  lemma ParseStatusName(s: Status)
    ensures ParseStatus(StatusName(s)) == Some(s)
  {
  }

  /** A stored task. `assignedTo` is an employee's email, not a reference;
      `createdBy` references a user; `deadline` (a time value) and `category`
      are optional. */
  datatype Task = Task(
    id: Id,
    title: string,
    description: string,
    assignedTo: string,
    createdBy: Id,
    priority: Priority,
    status: Status,
    deadline: Option<int>,
    category: Option<Id>)

  function TaskId(t: Task): Id { t.id }

  /** The schema's constraints on a stored task's strings: title trimmed and
      non-empty, description and assignee non-empty. The enumerations hold by
      construction of `Priority` and `Status`. */
  predicate ValidTask(t: Task)
  {
    && t.title != "" && Text.Trimmed(t.title)
    && t.description != ""
    && t.assignedTo != ""
  }

  /** A task payload as a JSON body carries it: every field optional, enums as
      their spelled names, references as sent (a malformed one fails the
      ObjectId cast). `setCreatedBy` is the creator a `{"$set": {"createdBy":
      …}}` key writes: an update operator, which an update applies and a new
      document, built from schema paths only, ignores. */
  datatype TaskBody = TaskBody(
    title: Option<string>,
    description: Option<string>,
    assignedTo: Option<string>,
    createdBy: Presence<Id>,
    priority: Option<string>,
    status: Option<string>,
    deadline: Option<int>,
    category: Option<PathId>,
    setCreatedBy: Option<PathId>)

  /** A reference in a payload passes the ObjectId cast. */
  predicate ReferenceOk(c: Option<PathId>)
  {
    c.Some? ==> c.value.WellFormed?
  }

  /** Validation messages, as Mongoose words them for a `Task.create` and for
      an update run with its validators. */
  const TitleRequired := "title: Path `title` is required."
  const DescriptionRequired := "description: Path `description` is required."
  const AssigneeRequired := "assignedTo: Path `assignedTo` is required."
  const CreatorRequired := "createdBy: Path `createdBy` is required."
  const BadPriority := "priority: not a valid priority."
  const BadStatus := "status: not a valid status."
  const CategoryCast := "Cast to ObjectId failed for value at path \"category\""
  const CreatorCast := "Cast to ObjectId failed for value at path \"createdBy\""

  function CreateError(detail: string): string
  {
    "Task validation failed: " + detail
  }

  function UpdateError(detail: string): string
  {
    "Validation failed: " + detail
  }

  /** A title value passes the trimmed `required` check. */
  predicate TitleOk(s: string)
  {
    !Text.AllSpace(s)
  }

  /** `Task.create(data)`: cast and validate a whole new document. Title,
      description, assignee, priority and creator are required, the enums must
      be spelled exactly, status defaults to `pending`, the title is trimmed. */
  function NewTask(id: Id, body: TaskBody): (r: Result<Task>)
    ensures r.Success? <==>
              && body.title.Some? && TitleOk(body.title.value)
              && body.description.Some? && body.description.value != ""
              && body.assignedTo.Some? && body.assignedTo.value != ""
              && body.priority.Some? && ParsePriority(body.priority.value).Some?
              && (body.status.Some? ==> ParseStatus(body.status.value).Some?)
              && ReferenceOk(body.category)
              && body.createdBy.Given?
    ensures r.Success? ==>
              && ValidTask(r.value)
              && r.value.id == id
              && r.value.createdBy == body.createdBy.value
              && r.value.title == Text.Trim(body.title.value)
              && r.value.description == body.description.value
              && r.value.assignedTo == body.assignedTo.value
              && PriorityName(r.value.priority) == body.priority.value
              && StatusName(r.value.status) == (if body.status.Some? then body.status.value else "pending")
              && r.value.deadline == body.deadline
              && r.value.category == (if body.category.Some? then Some(body.category.value.id) else None)
  {
    if body.title.None? || !TitleOk(body.title.value) then
      Failure(CreateError(TitleRequired))
    else if body.description.None? || body.description.value == "" then
      Failure(CreateError(DescriptionRequired))
    else if body.assignedTo.None? || body.assignedTo.value == "" then
      Failure(CreateError(AssigneeRequired))
    else if body.priority.None? || ParsePriority(body.priority.value).None? then
      Failure(CreateError(BadPriority))
    else if body.status.Some? && ParseStatus(body.status.value).None? then
      Failure(CreateError(BadStatus))
    else if !ReferenceOk(body.category) then
      Failure(CreateError(CategoryCast))
    else if !body.createdBy.Given? then
      Failure(CreateError(CreatorRequired))
    else
      var title := body.title.value;
      Text.TrimEmptyIffBlank(title);
      var status := if body.status.Some? then ParseStatus(body.status.value).value else Pending;
      var category := if body.category.Some? then Some(body.category.value.id) else None;
      Success(Task(id, Text.Trim(title), body.description.value, body.assignedTo.value, body.createdBy.value,
                   ParsePriority(body.priority.value).value, status, body.deadline, category))
  }

  /** The update validators run on the payload alone (before the stored
      document is looked up): the first refusal, if any. A falsy `createdBy`
      is refused by the required validator or the ObjectId cast. */
  function UpdateProblem(body: TaskBody): (r: Option<string>)
    ensures r.None? <==>
              && (body.title.Some? ==> TitleOk(body.title.value))
              && (body.description.Some? ==> body.description.value != "")
              && (body.assignedTo.Some? ==> body.assignedTo.value != "")
              && !body.createdBy.Falsy?
              && (body.priority.Some? ==> ParsePriority(body.priority.value).Some?)
              && (body.status.Some? ==> ParseStatus(body.status.value).Some?)
              && ReferenceOk(body.category)
              && ReferenceOk(body.setCreatedBy)
  {
    if body.title.Some? && !TitleOk(body.title.value) then
      Some(UpdateError(TitleRequired))
    else if body.description.Some? && body.description.value == "" then
      Some(UpdateError(DescriptionRequired))
    else if body.assignedTo.Some? && body.assignedTo.value == "" then
      Some(UpdateError(AssigneeRequired))
    else if body.createdBy.Falsy? then
      Some(UpdateError(CreatorRequired))
    else if body.priority.Some? && ParsePriority(body.priority.value).None? then
      Some(UpdateError(BadPriority))
    else if body.status.Some? && ParseStatus(body.status.value).None? then
      Some(UpdateError(BadStatus))
    else if !ReferenceOk(body.category) then
      Some(CategoryCast)
    else if !ReferenceOk(body.setCreatedBy) then
      Some(CreatorCast)
    else None
  }

  /** The priority after an update that may spell a new one. */
  function UpdatedPriority(stored: Priority, spelled: Option<string>): (p: Priority)
    requires spelled.Some? ==> ParsePriority(spelled.value).Some?
    ensures spelled.None? ==> p == stored
    ensures spelled.Some? ==> PriorityName(p) == spelled.value
  {
    if spelled.None? then stored else ParsePriority(spelled.value).value
  }

  /** The status after an update that may spell a new one. */
  function UpdatedStatus(stored: Status, spelled: Option<string>): (s: Status)
    requires spelled.Some? ==> ParseStatus(spelled.value).Some?
    ensures spelled.None? ==> s == stored
    ensures spelled.Some? ==> StatusName(s) == spelled.value
  {
    if spelled.None? then stored else ParseStatus(spelled.value).value
  }

  /** `findByIdAndUpdate(id, body, { runValidators: true, new: true })`
      applied to the stored task `t`: a payload the validators accept
      overwrites exactly the fields it carries, a `$set` creator included
      (below a plain `createdBy`, which the handler never lets through);
      absent fields stay. */
  function ApplyUpdate(t: Task, body: TaskBody): (r: Task)
    requires UpdateProblem(body).None?
    ensures r.id == t.id
    ensures r.title == (if body.title.Some? then Text.Trim(body.title.value) else t.title)
    ensures r.description == (if body.description.Some? then body.description.value else t.description)
    ensures r.assignedTo == (if body.assignedTo.Some? then body.assignedTo.value else t.assignedTo)
    ensures r.createdBy == (if body.createdBy.Given? then body.createdBy.value
                            else if body.setCreatedBy.Some? then body.setCreatedBy.value.id
                            else t.createdBy)
    ensures body.priority.None? ==> r.priority == t.priority
    ensures body.priority.Some? ==> PriorityName(r.priority) == body.priority.value
    ensures body.status.None? ==> r.status == t.status
    ensures body.status.Some? ==> StatusName(r.status) == body.status.value
    ensures r.deadline == (if body.deadline.Some? then body.deadline else t.deadline)
    ensures r.category == (if body.category.Some? then Some(body.category.value.id) else t.category)
  {
    var priority := UpdatedPriority(t.priority, body.priority);
    var status := UpdatedStatus(t.status, body.status);
    Task(
      t.id,
      if body.title.Some? then Text.Trim(body.title.value) else t.title,
      if body.description.Some? then body.description.value else t.description,
      if body.assignedTo.Some? then body.assignedTo.value else t.assignedTo,
      if body.createdBy.Given? then body.createdBy.value
      else if body.setCreatedBy.Some? then body.setCreatedBy.value.id
      else t.createdBy,
      priority,
      status,
      if body.deadline.Some? then body.deadline else t.deadline,
      if body.category.Some? then Some(body.category.value.id) else t.category)
  }

  /** An accepted update keeps a stored task valid. */
  lemma UpdateKeepsTaskValid(t: Task, body: TaskBody)
    requires ValidTask(t) && UpdateProblem(body).None?
    ensures ValidTask(ApplyUpdate(t, body))
  {
    if body.title.Some? {
      Text.TrimEmptyIffBlank(body.title.value);
      Text.TrimIdempotent(body.title.value);
    }
  }
}
