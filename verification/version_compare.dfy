/**
 * Comparing two saved versions of a notebook or a protocol: the guard chain,
 * the oldest-first version list (stored history plus the live document), the
 * index bounds, and the plain-text rendering of a protocol version.
 */
module VersionCompare {
  import opened Wrappers
  import opened Steps
  import Text

  /** The signed-in caller's id, when there is one. */
  type Session = Option<string>

  /** The request body; an index is None when it is absent. */
  datatype CompareRequest = CompareRequest(
    resourceId: Option<string>,
    resourceType: Option<string>,
    version1Index: Option<int>,
    version2Index: Option<int>)

  /** A stored notebook version: its schema keeps no version number. */
  datatype NotebookVersion = NotebookVersion(content: string, savedAt: int, savedBy: string)

  datatype Notebook = Notebook(
    authorId: string,
    collaborators: seq<string>,
    content: string,
    version: int,
    versions: seq<NotebookVersion>)

  datatype ProtocolVersion = ProtocolVersion(
    title: string,
    description: Option<string>,
    steps: seq<Step>,
    versionNumber: int,
    savedAt: int)

  datatype Protocol = Protocol(
    authorId: string,
    title: string,
    description: Option<string>,
    steps: seq<Step>,
    currentVersion: int,
    versions: seq<ProtocolVersion>)

  /** One side of the comparison as sent back; `versionNumber` is None where the entry has no such field. */
  datatype VersionView = VersionView(content: string, versionNumber: Option<int>, savedAt: int)

  datatype Response = Compared(version1: VersionView, version2: VersionView) | Failed(status: int, error: string)

  function Reverse<T>(s: seq<T>): (r: seq<T>)
    ensures |r| == |s|
    ensures forall i :: 0 <= i < |s| ==> r[i] == s[|s| - 1 - i]
  {
    if s == [] then [] else Reverse(s[1..]) + [s[0]]
  }

  /**
   * The version list the handler indexes: the live document put in front of
   * the stored history, then the whole list reversed.
   */
  function OldestFirst<T>(current: T, stored: seq<T>): (vs: seq<T>)
    ensures |vs| == |stored| + 1
    ensures vs[|stored|] == current
    ensures forall k :: 0 <= k < |stored| ==> vs[k] == stored[|stored| - 1 - k]
  {
    Reverse([current] + stored)
  }

  /** Both indices lie inside a list of length n. */
  predicate IndicesInRange(i: int, j: int, n: nat) {
    0 <= i < n && 0 <= j < n
  }

  /** A stored notebook version as sent back: it has no `versionNumber` to show. */
  function StoredNotebookView(v: NotebookVersion): VersionView {
    VersionView(v.content, None, v.savedAt)
  }

  /** The text of one protocol step; absent lists and strings render as empty. */
  function StepText(s: Step): string {
    "Step " + Text.IntToString(s.order) + ": " + s.title
    + "\nReagents: " + Text.Join(s.ReagentList(), ", ")
    + "\nEquipment: " + Text.Join(s.EquipmentList(), ", ")
    + "\nTiming: " + s.timing.GetOr("")
    + "\nNotes: " + s.notes.GetOr("")
  }

  function StepTexts(steps: seq<Step>): (r: seq<string>)
    ensures |r| == |steps|
    ensures forall k :: 0 <= k < |steps| ==> r[k] == StepText(steps[k])
  {
    if steps == [] then [] else [StepText(steps[0])] + StepTexts(steps[1..])
  }

  /** The text a protocol version is compared as: header lines, then the steps separated by blank lines. */
  function ProtocolText(v: ProtocolVersion): string {
    "Title: " + v.title + "\nDescription: " + v.description.GetOr("") + "\n\nSteps:\n"
    + Text.Join(StepTexts(v.steps), "\n\n")
  }

  function ProtocolView(v: ProtocolVersion): VersionView {
    VersionView(ProtocolText(v), Some(v.versionNumber), v.savedAt)
  }

  /** The caller may compare a notebook's versions when they wrote it or collaborate on it. */
  predicate NotebookAccess(nb: Notebook, userId: string) {
    nb.authorId == userId || userId in nb.collaborators
  }

  /** The live notebook, numbered by its `version`, in front of the stored versions, then reversed. */
  function NotebookVersions(nb: Notebook, now: int): seq<VersionView> {
    var stored := seq(|nb.versions|, k requires 0 <= k < |nb.versions| => StoredNotebookView(nb.versions[k]));
    OldestFirst(VersionView(nb.content, Some(nb.version), now), stored)
  }

  function ProtocolVersions(p: Protocol, now: int): seq<ProtocolVersion> {
    OldestFirst(ProtocolVersion(p.title, p.description, p.steps, p.currentVersion, now), p.versions)
  }

  /** What `POST /api/version/compare` answers; `now` is the clock reading stamped on the live version. */
  function Handle(session: Session, req: CompareRequest, notebooks: map<string, Notebook>,
                  protocols: map<string, Protocol>, isValidId: string -> bool, now: int): Response
  {
    if session.None? || session.value == "" then Failed(401, "Unauthorized")
    else if req.resourceId.None? || req.resourceId.value == "" || req.resourceType.None? || req.resourceType.value == ""
         || req.version1Index.None? || req.version2Index.None? then
      Failed(400, "Missing required parameters")
    else if !isValidId(req.resourceId.value) then Failed(400, "Invalid resource ID")
    else
      var id, i, j := req.resourceId.value, req.version1Index.value, req.version2Index.value;
      if req.resourceType.value == "notebook" then
        if id !in notebooks then Failed(404, "Notebook not found")
        else if !NotebookAccess(notebooks[id], session.value) then Failed(403, "Access denied")
        else
          var vs := NotebookVersions(notebooks[id], now);
          if !IndicesInRange(i, j, |vs|) then Failed(400, "Invalid version indices")
          else Compared(vs[i], vs[j])
      else if req.resourceType.value == "protocol" then
        if id !in protocols then Failed(404, "Protocol not found")
        else if protocols[id].authorId != session.value then Failed(403, "Access denied")
        else
          var vs := ProtocolVersions(protocols[id], now);
          if !IndicesInRange(i, j, |vs|) then Failed(400, "Invalid version indices")
          else Compared(ProtocolView(vs[i]), ProtocolView(vs[j]))
      else Failed(400, "Invalid resource type")
  }

  // ---------------------------------------------------------------------------
  // Properties
  // ---------------------------------------------------------------------------

  /** Reversing twice gives back the list. */
  lemma ReverseInvolutive<T>(s: seq<T>)
    ensures Reverse(Reverse(s)) == s
  {
  }

  /**
   * Index 0 is the oldest stored version, the last index the live document,
   * and index k is k steps later in time than index 0.
   */
  lemma OldestFirstOrder<T>(current: T, stored: seq<T>)
    ensures OldestFirst(current, stored)[0] == if stored == [] then current else stored[|stored| - 1]
    ensures OldestFirst(current, stored) == Reverse(stored) + [current]
  {
    var vs := OldestFirst(current, stored);
    assert vs == Reverse(stored) + [current];
  }

  /** A request that passes the guards with in-range indices compares exactly the versions at those indices. */
  lemma NotebookComparison(session: Session, req: CompareRequest, notebooks: map<string, Notebook>,
                           protocols: map<string, Protocol>, isValidId: string -> bool, now: int)
    requires session.Some? && session.value != ""
    requires req.resourceId.Some? && req.resourceId.value != "" && req.resourceId.value in notebooks
    requires isValidId(req.resourceId.value)
    requires req.resourceType == Some("notebook")
    requires req.version1Index.Some? && req.version2Index.Some?
    ensures var nb := notebooks[req.resourceId.value];
      var n := |nb.versions| + 1;
      var r := Handle(session, req, notebooks, protocols, isValidId, now);
      && (!NotebookAccess(nb, session.value) ==> r == Failed(403, "Access denied"))
      && (NotebookAccess(nb, session.value) && !IndicesInRange(req.version1Index.value, req.version2Index.value, n) ==>
            r == Failed(400, "Invalid version indices"))
      && (NotebookAccess(nb, session.value) && IndicesInRange(req.version1Index.value, req.version2Index.value, n) ==>
            r.Compared?
            && r.version1 == NotebookSide(nb, req.version1Index.value, now)
            && r.version2 == NotebookSide(nb, req.version2Index.value, now))
  {
    var nb, i, j := notebooks[req.resourceId.value], req.version1Index.value, req.version2Index.value;
    if NotebookAccess(nb, session.value) && IndicesInRange(i, j, |nb.versions| + 1) {
      var vs := NotebookVersions(nb, now);
      assert Handle(session, req, notebooks, protocols, isValidId, now) == Compared(vs[i], vs[j]);
      NotebookVersionAt(nb, now, i);
      NotebookVersionAt(nb, now, j);
    }
  }

  /** Position i of the oldest-first notebook list is what `NotebookSide` selects. */
  lemma NotebookVersionAt(nb: Notebook, now: int, i: int)
    requires 0 <= i <= |nb.versions|
    ensures NotebookVersions(nb, now)[i] == NotebookSide(nb, i, now)
  {
  }

  /**
   * What the comparison shows for index `i` of a notebook with `|nb.versions|`
   * stored versions: the last index is the live document with its version
   * number; index i below it is stored version `n - 2 - i`, shown without one.
   */
  function NotebookSide(nb: Notebook, i: int, now: int): (v: VersionView)
    requires 0 <= i <= |nb.versions|
    ensures i == |nb.versions| ==> v.versionNumber == Some(nb.version) && v.content == nb.content
    ensures i < |nb.versions| ==> v.versionNumber.None?
  {
    if i == |nb.versions| then VersionView(nb.content, Some(nb.version), now)
    else StoredNotebookView(nb.versions[|nb.versions| - 1 - i])
  }

  /** A signed-in request lacking a parameter, or naming a malformed id, is refused with 400 before any lookup. */
  lemma MissingOrMalformedIs400(session: Session, req: CompareRequest, notebooks: map<string, Notebook>,
                                protocols: map<string, Protocol>, isValidId: string -> bool, now: int)
    requires session.Some? && session.value != ""
    ensures req.resourceId.None? || req.resourceId.value == "" || req.resourceType.None? || req.resourceType.value == ""
            || req.version1Index.None? || req.version2Index.None? ==>
      Handle(session, req, notebooks, protocols, isValidId, now) == Failed(400, "Missing required parameters")
    ensures req.resourceId.Some? && req.resourceId.value != "" && req.resourceType.Some? && req.resourceType.value != ""
            && req.version1Index.Some? && req.version2Index.Some? && !isValidId(req.resourceId.value) ==>
      Handle(session, req, notebooks, protocols, isValidId, now) == Failed(400, "Invalid resource ID")
  {
  }

  /**
   * For a protocol's author, in-range indices select those positions of the
   * oldest-first version list, rendered as text; any other index is refused.
   */
  lemma ProtocolComparison(session: Session, req: CompareRequest, notebooks: map<string, Notebook>,
                           protocols: map<string, Protocol>, isValidId: string -> bool, now: int)
    requires session.Some? && session.value != ""
    requires req.resourceId.Some? && req.resourceId.value != "" && req.resourceId.value in protocols
    requires isValidId(req.resourceId.value)
    requires req.resourceType == Some("protocol")
    requires req.version1Index.Some? && req.version2Index.Some?
    requires protocols[req.resourceId.value].authorId == session.value
    ensures var vs := ProtocolVersions(protocols[req.resourceId.value], now);
      var i, j := req.version1Index.value, req.version2Index.value;
      var r := Handle(session, req, notebooks, protocols, isValidId, now);
      && (!IndicesInRange(i, j, |vs|) ==> r == Failed(400, "Invalid version indices"))
      && (IndicesInRange(i, j, |vs|) ==> r == Compared(ProtocolView(vs[i]), ProtocolView(vs[j])))
  {
  }

  /** A protocol's versions may be compared by its author only; a collaborator list plays no part. */
  lemma ProtocolAccessIsAuthorOnly(session: Session, req: CompareRequest, notebooks: map<string, Notebook>,
                                   protocols: map<string, Protocol>, isValidId: string -> bool, now: int)
    requires session.Some? && session.value != ""
    requires req.resourceId.Some? && req.resourceId.value != "" && req.resourceId.value in protocols
    requires isValidId(req.resourceId.value)
    requires req.resourceType == Some("protocol")
    requires req.version1Index.Some? && req.version2Index.Some?
    ensures Handle(session, req, notebooks, protocols, isValidId, now).Compared? ==>
      protocols[req.resourceId.value].authorId == session.value
    ensures protocols[req.resourceId.value].authorId != session.value ==>
      Handle(session, req, notebooks, protocols, isValidId, now) == Failed(403, "Access denied")
  {
  }

  /** Any resource type other than the two known ones is refused with 400. */
  lemma UnknownResourceType(session: Session, req: CompareRequest, notebooks: map<string, Notebook>,
                            protocols: map<string, Protocol>, isValidId: string -> bool, now: int)
    requires session.Some? && session.value != ""
    requires req.resourceId.Some? && req.resourceId.value != "" && isValidId(req.resourceId.value)
    requires req.resourceType.Some? && req.resourceType.value != "" && req.resourceType.value != "notebook"
    requires req.resourceType.value != "protocol"
    requires req.version1Index.Some? && req.version2Index.Some?
    ensures Handle(session, req, notebooks, protocols, isValidId, now) == Failed(400, "Invalid resource type")
  {
  }

  /** Without a signed-in user the answer is 401 whatever was asked. */
  lemma UnauthenticatedCompare(session: Session, req: CompareRequest, notebooks: map<string, Notebook>,
                               protocols: map<string, Protocol>, isValidId: string -> bool, now: int)
    requires session.None? || session.value == ""
    ensures Handle(session, req, notebooks, protocols, isValidId, now) == Failed(401, "Unauthorized")
  {
  }

  /** Step ids do not appear in the compared text: renaming them leaves it unchanged. */
  lemma {:induction false} StepIdsDoNotShow(a: seq<Step>, b: seq<Step>)
    requires |a| == |b|
    requires forall k :: 0 <= k < |a| ==> a[k].(id := "") == b[k].(id := "")
    ensures StepTexts(a) == StepTexts(b)
  {
    forall k | 0 <= k < |a| ensures StepText(a[k]) == StepText(b[k]) {
      assert a[k].order == b[k].order && a[k].title == b[k].title;
      assert a[k].reagents == b[k].reagents && a[k].equipment == b[k].equipment;
      assert a[k].timing == b[k].timing && a[k].notes == b[k].notes;
    }
  }

  /** An absent list or string renders exactly like an empty one. */
  lemma AbsentRendersAsEmpty(s: Step)
    ensures StepText(s.(reagents := None)) == StepText(s.(reagents := Some([])))
    ensures StepText(s.(equipment := None)) == StepText(s.(equipment := Some([])))
    ensures StepText(s.(timing := None)) == StepText(s.(timing := Some("")))
    ensures StepText(s.(notes := None)) == StepText(s.(notes := Some("")))
  {
  }

  /** The compared text starts with the title line and shows the description, empty when absent. */
  lemma ProtocolTextHeader(v: ProtocolVersion)
    ensures Text.StartsWith(ProtocolText(v), "Title: " + v.title + "\nDescription: " + v.description.GetOr("") + "\n\nSteps:\n")
  {
  }

  /** Each step's block opens with its order and title. */
  lemma StepTextHeader(s: Step)
    ensures Text.StartsWith(StepText(s), "Step " + Text.IntToString(s.order) + ": " + s.title + "\nReagents: ")
  {
  }
}
