/**
 * Opening a pull request: the request handler's ordered guard chain, the
 * reviewer checks, and the construction and single save of the new record.
 * The user and protocol collections are in-memory lookups.
 */
module PullRequestRoute {
  import opened Wrappers
  import opened PullRequestModel
  import Text

  /** The signed-in caller, when there is one. */
  datatype Session = Session(userId: string, role: string)

  /** The `reviewers` field of the request body. */
  datatype ReviewersField =
    | NoReviewers                     // absent or null
    | ReviewerIds(ids: seq<string>)   // an array of user ids
    | NotAList                        // any other value

  /** The request body; `changes` is None when it is absent or not an array. */
  datatype CreateBody = CreateBody(
    protocolId: Option<string>,
    branch: Option<string>,
    title: Option<string>,
    description: Option<string>,
    changes: Option<seq<Change>>,
    reviewers: ReviewersField)

  /** The part of a stored protocol the handler reads. */
  datatype ProtocolRecord = ProtocolRecord(authorId: string)

  /**
   * The handler's answer: the created record (status 201), a guard's error
   * status and message, or status 500 carrying the message of an exception
   * thrown on the way (its text is not modelled).
   */
  datatype Response = Created(pr: PullRequest) | Failed(status: int, error: string) | ServerError

  /** JavaScript truthiness of an optional string field. */
  predicate Given(o: Option<string>) {
    o.Some? && o.value != ""
  }

  predicate Authenticated(session: Option<Session>) {
    session.Some? && session.value.userId != ""
  }

  /**
   * The guards that run before the reviewer checks, in source order: session,
   * required fields, id format, protocol lookup, authorship. None means all pass.
   */
  function RequestGuards(session: Option<Session>, body: CreateBody, protocols: map<string, ProtocolRecord>,
                         isValidId: string -> bool): Option<Response>
  {
    if !Authenticated(session) then Some(Failed(401, "Unauthorized"))
    else if !Given(body.protocolId) || !Given(body.branch) || !Given(body.title) || body.changes.None? then
      Some(Failed(400, "Missing required fields: protocolId, branch, title, changes"))
    else if !isValidId(body.protocolId.value) then Some(Failed(400, "Invalid protocol ID"))
    else if body.protocolId.value !in protocols then Some(Failed(404, "Protocol not found"))
    else if protocols[body.protocolId.value].authorId != session.value.userId && session.value.role != "admin" then
      Some(Failed(403, "Access denied"))
    else None
  }

  /** The check of one reviewer id: its format first, then that the user exists. */
  function ReviewerError(id: string, users: set<string>, isValidId: string -> bool): (r: Option<Response>)
    ensures r.None? <==> isValidId(id) && id in users
    ensures r.Some? ==> r.value.Failed?
  {
    if !isValidId(id) then Some(Failed(400, "Invalid reviewer ID: " + id))
    else if id !in users then Some(Failed(404, "Reviewer not found: " + id))
    else None
  }

  /** The first failing reviewer check, in list order. */
  function FirstReviewerError(ids: seq<string>, users: set<string>, isValidId: string -> bool): (r: Option<Response>)
    ensures r.Some? ==> r.value.Failed?
  {
    if ids == [] then None
    else if ReviewerError(ids[0], users, isValidId).Some? then ReviewerError(ids[0], users, isValidId)
    else FirstReviewerError(ids[1..], users, isValidId)
  }

  /** The reviewer entries of a new pull request: one pending entry per id, in order. */
  function PendingReviewers(ids: seq<string>): (rs: seq<Reviewer>)
    ensures |rs| == |ids|
    ensures forall k :: 0 <= k < |ids| ==> rs[k] == Reviewer(ids[k], Pending, None)
  {
    seq(|ids|, k requires 0 <= k < |ids| => NewReviewer(ids[k], Some(Pending)))
  }

  /** The record built once every guard has passed. */
  function NewPullRequest(authorId: string, body: CreateBody): PullRequest
    requires body.protocolId.Some? && body.branch.Some? && body.title.Some? && body.changes.Some?
  {
    FromDraft(Draft(
      body.protocolId.value, authorId, body.branch.value, body.title.value, body.description,
      Some(Open), body.changes,
      Some(if body.reviewers.ReviewerIds? then PendingReviewers(body.reviewers.ids) else [])))
  }

  /** What `POST /api/pr` answers. */
  function Handle(session: Option<Session>, body: CreateBody, protocols: map<string, ProtocolRecord>,
                  users: set<string>, isValidId: string -> bool): Response
  {
    var guard := RequestGuards(session, body, protocols, isValidId);
    if guard.Some? then guard.value
    else if body.reviewers.ReviewerIds? && FirstReviewerError(body.reviewers.ids, users, isValidId).Some? then
      FirstReviewerError(body.reviewers.ids, users, isValidId).value
    else if body.reviewers.NotAList? then
      // `reviewers?.map` on a value without a `map` method throws a TypeError
      ServerError
    else
      var pr := NewPullRequest(session.value.userId, body);
      if SchemaValid(pr) then Created(pr)
      // `save` rejects a record that fails schema validation
      else ServerError
  }

  /** Checks the reviewer ids one by one, stopping at the first that fails. */
  method ValidateReviewers(ids: seq<string>, users: set<string>, isValidId: string -> bool) returns (err: Option<Response>)
    ensures err == FirstReviewerError(ids, users, isValidId)
    ensures err.None? <==> forall k :: 0 <= k < |ids| ==> isValidId(ids[k]) && ids[k] in users
  {
    for k := 0 to |ids|
      invariant forall m :: 0 <= m < k ==> isValidId(ids[m]) && ids[m] in users
      invariant FirstReviewerError(ids, users, isValidId) == FirstReviewerError(ids[k..], users, isValidId)
    {
      var reviewerId := ids[k];
      assert ids[k..][1..] == ids[k + 1..];
      if !isValidId(reviewerId) {
        return Some(Failed(400, "Invalid reviewer ID: " + reviewerId));
      }
      if reviewerId !in users {
        return Some(Failed(404, "Reviewer not found: " + reviewerId));
      }
    }
    return None;
  }

  /** The pull-request collection; `save` appends to it. */
  class PullRequestStore {
    var saved: seq<PullRequest>

    constructor ()
      ensures saved == []
    {
      saved := [];
    }

    /**
     * Runs the guard chain, validates the reviewers, builds the record and
     * saves it. Only a created pull request is written; every failure leaves
     * the collection as it was.
     */
    method Post(session: Option<Session>, body: CreateBody, protocols: map<string, ProtocolRecord>,
                users: set<string>, isValidId: string -> bool) returns (resp: Response)
      modifies this
      ensures resp == Handle(session, body, protocols, users, isValidId)
      ensures resp.Created? ==> saved == old(saved) + [resp.pr]
      ensures !resp.Created? ==> saved == old(saved)
    {
      var guard := RequestGuards(session, body, protocols, isValidId);
      if guard.Some? {
        return guard.value;
      }
      if body.reviewers.ReviewerIds? {
        var err := ValidateReviewers(body.reviewers.ids, users, isValidId);
        if err.Some? {
          return err.value;
        }
      }
      if body.reviewers.NotAList? {
        return ServerError;
      }
      var pr := NewPullRequest(session.value.userId, body);
      if !SchemaValid(pr) {
        return ServerError;
      }
      saved := saved + [pr];
      return Created(pr);
    }
  }

  // ---------------------------------------------------------------------------
  // Properties of the handler
  // ---------------------------------------------------------------------------

  /** Without a signed-in user the answer is 401, whatever the body. */
  lemma UnauthenticatedIsRejectedFirst(session: Option<Session>, body: CreateBody, protocols: map<string, ProtocolRecord>,
                                       users: set<string>, isValidId: string -> bool)
    requires !Authenticated(session)
    ensures Handle(session, body, protocols, users, isValidId) == Failed(401, "Unauthorized")
  {
  }

  /** A missing protocol id, branch, title or change list (or a non-array one) gives 400. */
  lemma MissingFieldIs400(session: Option<Session>, body: CreateBody, protocols: map<string, ProtocolRecord>,
                          users: set<string>, isValidId: string -> bool)
    requires Authenticated(session)
    requires !Given(body.protocolId) || !Given(body.branch) || !Given(body.title) || body.changes.None?
    ensures Handle(session, body, protocols, users, isValidId)
      == Failed(400, "Missing required fields: protocolId, branch, title, changes")
  {
    assert RequestGuards(session, body, protocols, isValidId)
      == Some(Failed(400, "Missing required fields: protocolId, branch, title, changes"));
  }

  /** The protocol id is checked for format (400) before it is looked up (404). */
  lemma ProtocolIdChecks(session: Option<Session>, body: CreateBody, protocols: map<string, ProtocolRecord>,
                         users: set<string>, isValidId: string -> bool)
    requires Authenticated(session)
    requires Given(body.protocolId) && Given(body.branch) && Given(body.title) && body.changes.Some?
    ensures !isValidId(body.protocolId.value) ==>
      Handle(session, body, protocols, users, isValidId) == Failed(400, "Invalid protocol ID")
    ensures isValidId(body.protocolId.value) && body.protocolId.value !in protocols ==>
      Handle(session, body, protocols, users, isValidId) == Failed(404, "Protocol not found")
  {
  }

  /** A caller who is neither the protocol's author nor an admin gets 403. */
  lemma NonAuthorNonAdminIs403(session: Option<Session>, body: CreateBody, protocols: map<string, ProtocolRecord>,
                               users: set<string>, isValidId: string -> bool)
    requires RequestGuards(session, body, protocols, isValidId) != Some(Failed(401, "Unauthorized"))
    requires Given(body.protocolId) && Given(body.branch) && Given(body.title) && body.changes.Some?
    requires isValidId(body.protocolId.value) && body.protocolId.value in protocols
    requires protocols[body.protocolId.value].authorId != session.value.userId && session.value.role != "admin"
    ensures Handle(session, body, protocols, users, isValidId) == Failed(403, "Access denied")
  {
  }

  /**
   * Reviewer ids are checked in list order: the answer is the check of the
   * first id that fails, a malformed id giving 400 and an unknown user 404.
   */
  lemma {:induction false} FirstFailingReviewerDecides(ids: seq<string>, users: set<string>, isValidId: string -> bool, k: nat)
    requires k < |ids|
    requires forall m :: 0 <= m < k ==> isValidId(ids[m]) && ids[m] in users
    requires !isValidId(ids[k]) || ids[k] !in users
    ensures !isValidId(ids[k]) ==> FirstReviewerError(ids, users, isValidId) == Some(Failed(400, "Invalid reviewer ID: " + ids[k]))
    ensures isValidId(ids[k]) ==> FirstReviewerError(ids, users, isValidId) == Some(Failed(404, "Reviewer not found: " + ids[k]))
  {
    if k > 0 {
      FirstFailingReviewerDecides(ids[1..], users, isValidId, k - 1);
    }
  }

  /**
   * A created pull request belongs to the caller, is open, carries the body's
   * changes and trimmed title, and lists the given reviewers in order (duplicates
   * kept), each pending; with no reviewer list it has none. Every guard passed.
   */
  lemma CreatedRecordShape(session: Option<Session>, body: CreateBody, protocols: map<string, ProtocolRecord>,
                           users: set<string>, isValidId: string -> bool)
    requires Handle(session, body, protocols, users, isValidId).Created?
    ensures var pr := Handle(session, body, protocols, users, isValidId).pr;
      && session.Some? && pr.authorId == session.value.userId
      && pr.status == Open
      && body.protocolId == Some(pr.protocolId) && body.branch == Some(pr.branch)
      && body.title.Some? && pr.title == Text.Trim(body.title.value)
      && body.changes == Some(pr.changes)
      && pr.comments == [] && pr.mergedBy.None?
      && (body.reviewers.NoReviewers? ==> pr.reviewers == [])
      && (body.reviewers.ReviewerIds? ==>
            |pr.reviewers| == |body.reviewers.ids|
            && forall k :: 0 <= k < |pr.reviewers| ==> pr.reviewers[k] == Reviewer(body.reviewers.ids[k], Pending, None))
    ensures RequestGuards(session, body, protocols, isValidId).None?
    ensures body.reviewers.ReviewerIds? ==>
      forall k :: 0 <= k < |body.reviewers.ids| ==> isValidId(body.reviewers.ids[k]) && body.reviewers.ids[k] in users
  {
    var resp := Handle(session, body, protocols, users, isValidId);
    assert RequestGuards(session, body, protocols, isValidId).None?;
    assert resp == Created(NewPullRequest(session.value.userId, body));
    if body.reviewers.ReviewerIds? {
      var ids := body.reviewers.ids;
      assert FirstReviewerError(ids, users, isValidId).None?;
      forall k | 0 <= k < |ids| ensures isValidId(ids[k]) && ids[k] in users {
        if !(isValidId(ids[k]) && ids[k] in users) {
          FirstFailureExists(ids, users, isValidId, k);
        }
      }
    }
  }

  /** If some reviewer check fails, the first failure is reported. */
  lemma {:induction false} FirstFailureExists(ids: seq<string>, users: set<string>, isValidId: string -> bool, k: nat)
    requires k < |ids| && !(isValidId(ids[k]) && ids[k] in users)
    ensures FirstReviewerError(ids, users, isValidId).Some?
  {
    if ReviewerError(ids[0], users, isValidId).None? {
      FirstFailureExists(ids[1..], users, isValidId, k - 1);
    }
  }

  /** A title of whitespace alone passes the route's guard but not the schema: the answer is 500. */
  lemma BlankTitleIs500(session: Option<Session>, body: CreateBody, protocols: map<string, ProtocolRecord>,
                        users: set<string>, isValidId: string -> bool)
    requires RequestGuards(session, body, protocols, isValidId).None?
    requires body.reviewers.ReviewerIds? ==> FirstReviewerError(body.reviewers.ids, users, isValidId).None?
    requires body.title.Some? && forall i :: 0 <= i < |body.title.value| ==> Text.IsSpace(body.title.value[i])
    ensures Handle(session, body, protocols, users, isValidId) == ServerError
  {
    Text.TrimEmptyIff(body.title.value);
  }

  /** A reviewers value that is present but not an array gets past the checks and fails with 500. */
  lemma NonListReviewersIs500(session: Option<Session>, body: CreateBody, protocols: map<string, ProtocolRecord>,
                              users: set<string>, isValidId: string -> bool)
    requires RequestGuards(session, body, protocols, isValidId).None?
    requires body.reviewers.NotAList?
    ensures Handle(session, body, protocols, users, isValidId) == ServerError
  {
  }
}
