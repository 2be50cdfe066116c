/** The Report schema (models/Report.js): the record, the `category`
    enumeration, required fields, the trimmed title and the `relatedTask`
    default. */
module ReportModel {
  import opened Common
  import Text

  /** `category`: `['work', 'complaint']`, required. */
  datatype Category = Work | Complaint

  function CategoryName(c: Category): string
  {
    match c
    case Work => "work"
    case Complaint => "complaint"
  }

  function ParseCategory(s: string): (r: Option<Category>)
    ensures r.Some? <==> s == "work" || s == "complaint"
    ensures r.Some? ==> CategoryName(r.value) == s
  {
    if s == "work" then Some(Work)
    else if s == "complaint" then Some(Complaint)
    else None
  }

  lemma ParseCategoryName(c: Category)
    ensures ParseCategory(CategoryName(c)) == Some(c)
  {
  }

  /** A stored report. `createdAt` is the creation timestamp the schema's
      `timestamps` option adds. */
  datatype Report = Report(
    id: Id,
    title: string,
    description: string,
    category: Category,
    createdBy: Id,
    relatedTask: Option<Id>,
    createdAt: int)

  function ReportId(r: Report): Id { r.id }

  predicate ValidReport(r: Report)
  {
    r.title != "" && Text.Trimmed(r.title) && r.description != ""
  }

  /** `new Report({...})` then `save()`: title (trimmed) and description are
      required, category must name a category, `relatedTask` is stored as
      given (null standing for none). */
  function NewReport(id: Id, title: string, description: string, category: string,
                     createdBy: Id, relatedTask: Option<Id>, now: int): (r: Result<Report>)
    ensures r.Success? <==> !Text.AllSpace(title) && description != "" && (category == "work" || category == "complaint")
    ensures r.Success? ==>
              && ValidReport(r.value)
              && r.value.id == id
              && r.value.title == Text.Trim(title)
              && r.value.description == description
              && CategoryName(r.value.category) == category
              && r.value.createdBy == createdBy
              && r.value.relatedTask == relatedTask
              && r.value.createdAt == now
  {
    if Text.AllSpace(title) then
      Failure("Report validation failed: title: Path `title` is required.")
    else if description == "" then
      Failure("Report validation failed: description: Path `description` is required.")
    else if ParseCategory(category).None? then
      Failure("Report validation failed: category: not a valid category.")
    else
      Text.TrimEmptyIffBlank(title);
      Success(Report(id, Text.Trim(title), description, ParseCategory(category).value,
                     createdBy, relatedTask, now))
  }
}
