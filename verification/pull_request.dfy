/**
 * The pull-request record: its status enumerations, the change record, reviewers
 * and comments, with the schema's defaults and required fields.
 */
module PullRequestModel {
  import opened Wrappers
  import opened Steps
  import Text

  /** Lifecycle status of a pull request. */
  datatype PRStatus = Open | ChangesRequested | Approved | Merged | Closed

  /** A reviewer's verdict. */
  datatype ReviewStatus = Pending | ReviewApproved | ReviewChangesRequested

  /** The kind of a change record. */
  datatype ChangeType = Add | Edit | Delete

  /**
   * One proposed change. The record shape is the same for every kind: the
   * target id, the incoming step and the replaced step are each optional.
   */
  datatype Change = Change(kind: ChangeType, stepId: Option<string>, step: Option<Step>, oldStep: Option<Step>)

  /** A reviewer entry; `reviewedAt` is a timestamp in milliseconds. */
  datatype Reviewer = Reviewer(userId: string, status: ReviewStatus, reviewedAt: Option<int>)

  /** A comment; `path` names a step id, or is absent for a general comment. */
  datatype Comment = Comment(authorId: string, text: string, path: Option<string>, createdAt: int)

  datatype PullRequest = PullRequest(
    protocolId: string,
    authorId: string,
    branch: string,
    title: string,
    description: Option<string>,
    status: PRStatus,
    changes: seq<Change>,
    reviewers: seq<Reviewer>,
    comments: seq<Comment>,
    mergedBy: Option<string>,
    mergedAt: Option<int>)

  /** The stored spelling of a status. */
  function StatusName(st: PRStatus): string {
    match st
    case Open => "open"
    case ChangesRequested => "changes_requested"
    case Approved => "approved"
    case Merged => "merged"
    case Closed => "closed"
  }

  /** The schema's enum check on a stored status string. */
  function ParseStatus(s: string): (r: Option<PRStatus>)
    ensures r.Some? ==> StatusName(r.value) == s
    ensures forall st :: StatusName(st) == s ==> r == Some(st)
  {
    if s == "open" then Some(Open)
    else if s == "changes_requested" then Some(ChangesRequested)
    else if s == "approved" then Some(Approved)
    else if s == "merged" then Some(Merged)
    else if s == "closed" then Some(Closed)
    else None
  }

  function ReviewStatusName(st: ReviewStatus): string {
    match st
    case Pending => "pending"
    case ReviewApproved => "approved"
    case ReviewChangesRequested => "changes_requested"
  }

  function ParseReviewStatus(s: string): (r: Option<ReviewStatus>)
    ensures r.Some? ==> ReviewStatusName(r.value) == s
    ensures forall st :: ReviewStatusName(st) == s ==> r == Some(st)
  {
    if s == "pending" then Some(Pending)
    else if s == "approved" then Some(ReviewApproved)
    else if s == "changes_requested" then Some(ReviewChangesRequested)
    else None
  }

  function ChangeTypeName(t: ChangeType): string {
    match t
    case Add => "add"
    case Edit => "edit"
    case Delete => "delete"
  }

  function ParseChangeType(s: string): (r: Option<ChangeType>)
    ensures r.Some? ==> ChangeTypeName(r.value) == s
    ensures forall t :: ChangeTypeName(t) == s ==> r == Some(t)
  {
    if s == "add" then Some(Add)
    else if s == "edit" then Some(Edit)
    else if s == "delete" then Some(Delete)
    else None
  }

  /** A reviewer entry as the schema builds it: the status defaults to pending. */
  function NewReviewer(userId: string, status: Option<ReviewStatus>): (r: Reviewer)
    ensures r.userId == userId && r.reviewedAt.None?
    ensures status.None? ==> r.status == Pending
    ensures status.Some? ==> r.status == status.value
  {
    Reviewer(userId, status.GetOr(Pending), None)
  }

  /**
   * The fields handed to the schema when a pull request is constructed; an
   * absent field takes the schema's default.
   */
  datatype Draft = Draft(
    protocolId: string,
    authorId: string,
    branch: string,
    title: string,
    description: Option<string>,
    status: Option<PRStatus>,
    changes: Option<seq<Change>>,
    reviewers: Option<seq<Reviewer>>)

  /** The record the schema builds: defaults filled in and `title`/`description` trimmed. */
  function FromDraft(d: Draft): (pr: PullRequest)
    ensures d.status.None? ==> pr.status == Open
    ensures d.changes.None? ==> pr.changes == []
    ensures d.reviewers.None? ==> pr.reviewers == []
    ensures pr.comments == [] && pr.mergedBy.None? && pr.mergedAt.None?
    ensures d.status.Some? ==> pr.status == d.status.value
    ensures d.changes.Some? ==> pr.changes == d.changes.value
    ensures d.reviewers.Some? ==> pr.reviewers == d.reviewers.value
    ensures pr.protocolId == d.protocolId && pr.authorId == d.authorId && pr.branch == d.branch
    ensures pr.title == Text.Trim(d.title)
    ensures d.description.Some? ==> pr.description == Some(Text.Trim(d.description.value))
    ensures d.description.None? ==> pr.description.None?
  {
    PullRequest(
      d.protocolId, d.authorId, d.branch, Text.Trim(d.title),
      match d.description case Some(t) => Some(Text.Trim(t)) case None => None,
      d.status.GetOr(Open), d.changes.GetOr([]), d.reviewers.GetOr([]), [], None, None)
  }

  /** A required string field holds a value: the schema refuses a missing or empty string. */
  predicate Present(s: string) {
    s != ""
  }

  predicate ReviewerValid(r: Reviewer) {
    Present(r.userId)
  }

  predicate CommentValid(c: Comment) {
    Present(c.authorId) && Present(c.text)
  }

  /** The schema's required-field validation, run when a pull request is saved. */
  predicate SchemaValid(pr: PullRequest) {
    && Present(pr.protocolId) && Present(pr.authorId) && Present(pr.branch) && Present(pr.title)
    && (forall i :: 0 <= i < |pr.reviewers| ==> ReviewerValid(pr.reviewers[i]))
    && (forall i :: 0 <= i < |pr.comments| ==> CommentValid(pr.comments[i]))
  }

  /** A title made only of whitespace is trimmed to nothing and fails validation. */
  lemma BlankTitleFailsValidation(d: Draft)
    requires forall i :: 0 <= i < |d.title| ==> Text.IsSpace(d.title[i])
    ensures !SchemaValid(FromDraft(d))
  {
    Text.TrimEmptyIff(d.title);
  }

  /** A comment needs an author and a text; its path may be absent. */
  lemma CommentRequiredFields(authorId: string, text: string, path: Option<string>, at: int)
    ensures CommentValid(Comment(authorId, text, path, at)) <==> authorId != "" && text != ""
  {
  }
}
