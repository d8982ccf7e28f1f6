# LabChainX core, modelled in Dafny

LabChainX is a lab-notebook and protocol-sharing platform. Researchers keep
protocols as ordered lists of steps and propose edits to them as pull
requests. This project models the logic at the centre of that flow, and the
small, self-contained pieces of logic around it, and proves their properties.

- **Protocol change engine** (`PrUtils`, over `Steps` and `PullRequestModel`).
  - `applyPRChanges` sorts a change list stably by its order anchor. It then inserts, replaces and removes steps in a working copy, and renumbers `order` to 1..N. The model is a method proved equal to a specification function (`Patched`).
  - `computeStepDiff` compares two step lists by id. It emits deletes first, then adds and edits. The model is a method proved equal to `StepDiff`.
- **Pull-request data model** (`PullRequestModel`): the status enums, the change record, the schema defaults, title trimming and required fields.
- **`POST /api/pr`** (`PullRequestRoute`).
  - The ordered guard chain: session, required fields, id format, protocol lookup, authorship, then reviewers one by one.
  - Construction of the open pull request with its pending reviewers.
  - A store class whose `Post` appends the record only when every check passes.
  - The database appears as a map of protocols and a set of user ids. The id-format check `ObjectId.isValid` is a parameter.
- **Line diff of the history viewer** (`LineDiff`): the two-pointer look-ahead loop, as a method proved equal to a recursive definition.
- **`POST /api/version/compare`** (`VersionCompare`): the version list (oldest first), index bounds, access rules and the text rendering of a protocol.
- **Fallback paths of the ML server** (`MlFallback`).
  - Line-based protocol standardisation, as a loop over lines.
  - Per-step missing-parameter detection, as a loop building the report and the suggestion map.
  - The generic autocomplete suggestion.
  - Extraction of a JSON payload from a fenced model reply.
- **Route middleware** (`Middleware`): the public and protected classification and the login redirect.
- **Data preview table** (`DataPreview`): pagination, page clamping and client-side CSV generation.
- **Image validation** (`ImageValidation`): the MIME-type check, then the size check.
- **Dashboard helpers** (`Dashboard`): the relative-time formatter over whole seconds and the activity colour.
- **Profile form** (`Profile`).
  - Validation of the form before it is saved.
  - Construction of the update payload.
  - A form class whose `HandleSave` clears the password fields and leaves edit mode after a successful save.

`Wrappers` holds `Option`. `Text` holds the string operations the sources
rely on: JavaScript's `trim` and Python's `strip`, `split`, lower-casing,
substring search, and decimal rendering of integers.

## Behaviour worth noting

The model follows the code in each case below.

- `applyPRChanges(old, computeStepDiff(old, new))` does not in general give back `new` up to `order`: it fails when steps are reordered (`PrUtils.SwapDoesNotRoundTrip`).
  - Swapping two steps produces two edits matched by id.
  - Each edit is then applied at the position of its id in the old list, so the swap is undone.
  - `PrUtils.SwapDoesNotRoundTrip` exhibits this.
  - For a list diffed against itself, the diff is empty only when step ids are unique (`PrUtils.NoOpDiff`, `PrUtils.DuplicateIdsBreakNoOpDiff`).
- A whitespace-only pull-request title passes the route's 400 guard. The schema then trims it to the empty string, and `save` fails its required validation. The request therefore ends in a 500, not a 400 (`PullRequestRoute.BlankTitleIs500`).
- A `reviewers` value that is neither a list nor absent skips the reviewer checks. `reviewers?.map` then throws, which also gives a 500.
- The two facts below hold of the `middleware` function alone. The `matcher` configuration (middleware.ts:42-49) sends only the four protected areas and the paths under them to it, so in the deployed application neither case reaches it.
  - The public route `/` matches only `/` itself and paths beginning `//`, because the boundary test is `route + "/"`.
  - The protected prefixes have no boundary at all, so the function classifies `/protocolsX` as protected.
- A ```` ```json ```` fence is located by splitting on it, so the text after the first marker is first cut at the next marker and only then at a backtick fence.
  - The payload is the trimmed text between the first marker and the next backtick fence in every reply, except one: a fence that starts one or two characters before the next marker and overlaps it. The cut at the marker splits that fence, and its leftover backticks stay in the payload.
  - `MlFallback.JsonFencePayload` states the reading for every reply outside that corner. `MlFallback.StraddledFenceKeepsBacktick` shows the corner: the reply ```` ```jsonX````jsonY ```` gives ```` X` ````, where the reading gives `X`.
- CSV cells containing a comma are wrapped in double quotes. Quotes inside them are not escaped (`DataPreview.QuotesAreNotEscaped`).

## Model

| member | source | states |
|---|---|---|
| PrUtils.Anchor | lib/pr-utils.ts:19-23 | the sort key is `step.order`, else `oldStep.order`, else 0, with an order of 0 treated as missing |
| PrUtils.WithAnchor | lib/pr-utils.ts:19-23 | the sub-list of changes sharing one anchor is no longer than the list (used to state stability) |
| PrUtils.InsertByAnchor | lib/pr-utils.ts:19-23 | definition: one step of a stable insertion sort by anchor (properties in the `InsertByAnchor…` lemmas) |
| PrUtils.SortByAnchor | lib/pr-utils.ts:19-23 | definition: the stable sort of the change list by anchor (properties in `SortByAnchorCorrect`) |
| PrUtils.InsertByAnchorPermutes | lib/pr-utils.ts:19-23 | one insertion step of the sort adds exactly the inserted change to the multiset |
| PrUtils.InsertByAnchorSorted | lib/pr-utils.ts:19-23 | inserting into a list sorted by anchor keeps it sorted |
| PrUtils.InsertByAnchorStable | lib/pr-utils.ts:19-23 | insertion places a change after every earlier change with the same anchor |
| PrUtils.SortByAnchorCorrect | lib/pr-utils.ts:19-23 | the sorted change list is nondecreasing in anchor, a permutation of the input, and stable: changes with equal anchors keep their relative order |
| PrUtils.FindIndex | lib/pr-utils.ts:29-31 | `findIndex`: the first position satisfying the predicate, or -1 when none does |
| PrUtils.Renumber | lib/pr-utils.ts:71-74 | the final map keeps length and every field but `order`, which becomes the 1-based position |
| PrUtils.ApplyChange | lib/pr-utils.ts:26-66 | definition: the effect of one add, edit or delete on the working copy (properties in the lemmas below, from `AddInsertsBeforeFirstNotSmaller` to `ApplyChangeLength`) |
| PrUtils.ApplyAll | lib/pr-utils.ts:25-68 | definition: the changes applied one after another in list order (properties in `ApplyAllLength`, `EditsKeepLengthInOrder`) |
| PrUtils.Patched | lib/pr-utils.ts:11-75 | definition: the changes sorted by anchor, applied in turn, then renumbered; `ApplyPRChanges` is proved to compute it, `PatchedIsDense` numbers it 1..N |
| PrUtils.ApplyPRChanges | lib/pr-utils.ts:11-75 | the loop over the sorted changes computes `Patched`, the renumbered result of applying the anchor-sorted changes in turn; orders are 1..N |
| PrUtils.PatchedIsDense | lib/pr-utils.ts:71-74 | every result of applying changes is numbered exactly 1..N by position |
| PrUtils.EmptyChangeListOnlyRenumbers | lib/pr-utils.ts:16-23 | with no changes the result is the input with only `order` rewritten |
| PrUtils.AddInsertsBeforeFirstNotSmaller | lib/pr-utils.ts:26-37 | an add with a step inserts it before the first step whose order is at least its own, or appends; length grows by one |
| PrUtils.EditReplacesFirstWithId | lib/pr-utils.ts:38-43 | an edit with an id replaces the first step with that id in place; length and all other steps are unchanged |
| PrUtils.EditWithoutIdReplacesFirstWithOrder | lib/pr-utils.ts:44-52 | an edit without an id replaces the first step whose order equals the new step's order |
| PrUtils.DeleteRemovesFirstWithId | lib/pr-utils.ts:53-66 | a delete removes the first step with `stepId` (or `oldStep.id` when `stepId` is absent); later steps shift down by one |
| PrUtils.StaleOrEmptyChangeIsNoOp | lib/pr-utils.ts:26-66 | an edit or delete whose target id is absent from the list, or a change lacking the step record or id it needs, leaves the list unchanged |
| PrUtils.ApplyChangeLength | lib/pr-utils.ts:26-66 | an add grows the list by at most one, an edit keeps its length, and a delete shrinks it by at most one |
| PrUtils.ApplyAllLength | lib/pr-utils.ts:25-68 | after k changes the length has moved by at most k |
| PrUtils.EditsKeepLength | lib/pr-utils.ts:11-75 | a change list made only of edits keeps the number of steps |
| PrUtils.EditsKeepLengthInOrder | lib/pr-utils.ts:25-68 | applying only edits, in list order, keeps the length |
| PrUtils.IdMapKeys | lib/pr-utils.ts:85-86 | the id map built from a step list has exactly the list's ids as keys |
| PrUtils.IdMap | lib/pr-utils.ts:85-86 | definition: the id-to-step map of a list, later steps overwriting earlier ones (properties in `IdMapKeys`, `IdMapLastWins`, `IdMapEntries`) |
| PrUtils.IdMapLastWins | lib/pr-utils.ts:85-86 | for duplicate ids, the map holds the last step with that id |
| PrUtils.IdMapEntries | lib/pr-utils.ts:85-86 | every entry of the id map is a step of the list stored under its own id |
| PrUtils.ComputeStepDiff | lib/pr-utils.ts:80-131 | the two loops compute `StepDiff`, the deletions followed by the adds and edits; at most one change per step of either list |
| PrUtils.Modified | lib/pr-utils.ts:109-117 | definition: two steps differ in title, reagents, timing, equipment, notes or order, with absent lists read as empty (properties in `MissingListsCountAsEmpty`, `OrderOnlyChangeIsAnEdit`) |
| PrUtils.Deletions | lib/pr-utils.ts:88-97 | definition: a delete for each old step whose id is not a key of the new map, in old order (property in `DeletionsMembers`) |
| PrUtils.Updates | lib/pr-utils.ts:100-128 | definition: an add for each new step with an unknown id and an edit for each modified one, in new order (property in `UpdatesMembers`) |
| PrUtils.StepDiff | lib/pr-utils.ts:80-131 | definition: the deletions followed by the updates; `ComputeStepDiff` is proved to compute it |
| PrUtils.DeletionsMembers | lib/pr-utils.ts:89-97 | a change is among the deletions exactly when it deletes an old step whose id is missing from the new list |
| PrUtils.UpdatesMembers | lib/pr-utils.ts:100-128 | a change is among the updates exactly when it adds a new step with an unknown id, or edits a new step that differs from the old step under its id |
| PrUtils.DeleteEmittedIff | lib/pr-utils.ts:89-97 | a delete of a step is emitted if and only if the step is in the old list and its id is absent from the new one |
| PrUtils.AddEmittedIff | lib/pr-utils.ts:100-106 | an add of a step is emitted if and only if the step is in the new list and its id is absent from the old one |
| PrUtils.EditEmittedIff | lib/pr-utils.ts:107-126 | an edit is emitted if and only if a new step differs from the old step its id maps to |
| PrUtils.DiffShapes | lib/pr-utils.ts:89-128 | every emitted change is a delete of an old step, an add of a new step, or an edit carrying both |
| PrUtils.DeletesComeFirst | lib/pr-utils.ts:88-128 | in the diff, every delete precedes every add and edit |
| PrUtils.UpdatesAgainstSelf | lib/pr-utils.ts:100-128 | comparing steps against a map holding each of them under its id emits nothing |
| PrUtils.NoOpDiff | lib/pr-utils.ts:85-128 | the diff of a list with unique ids against itself is empty |
| PrUtils.DuplicateIdsBreakNoOpDiff | lib/pr-utils.ts:85-128 | with a duplicated id, the diff of a list against itself is not empty |
| PrUtils.MissingListsCountAsEmpty | lib/pr-utils.ts:111-115 | absent reagents or equipment compare equal to empty lists |
| PrUtils.OrderOnlyChangeIsAnEdit | lib/pr-utils.ts:109-117 | a step whose order alone changed counts as modified |
| PrUtils.EditThenAddScenario | lib/pr-utils.ts:26-43 | diffing `[s1 Mix]` against `[s1 Mix well, s2 Incubate]` gives `[edit s1, add s2]`, and applying it reproduces the new list |
| PrUtils.EditThenAddDiff | lib/pr-utils.ts:100-128 | diffing `[s1 Mix]` against `[s1 Mix well, s2 Incubate]` gives an edit of s1 followed by an add of s2 |
| PrUtils.EditThenAddApply | lib/pr-utils.ts:26-43 | applying that edit and add to `[s1 Mix]` gives `[s1 Mix well, s2 Incubate]` |
| PrUtils.SwapDoesNotRoundTrip | lib/pr-utils.ts:38-43 | applying the diff of two swapped steps does not reproduce the swapped list |
| PrUtils.SwapDiff | lib/pr-utils.ts:100-128 | the diff of two swapped steps is two edits, matched by id |
| PrUtils.SwapApply | lib/pr-utils.ts:38-43 | those two edits land at the old positions of their ids |
| Steps.Ids | lib/pr-utils.ts:85-86 | the key set of the id maps `new Map(steps.map(s => [s.id, s]))`: exactly the ids of the steps |
| PullRequestModel.ParseStatus | models/PullRequest.ts:3 | the five status names parse to their status and nothing else parses |
| PullRequestModel.ParseReviewStatus | models/PullRequest.ts:5 | the three reviewer status names parse to their status and nothing else parses |
| PullRequestModel.ParseChangeType | models/PullRequest.ts:7-8 | `add`, `edit` and `delete` parse to their change type and nothing else parses |
| PullRequestModel.NewReviewer | models/PullRequest.ts:101-112 | a reviewer entry keeps its user id, has no review date, and defaults to pending |
| PullRequestModel.FromDraft | models/PullRequest.ts:114-156 | the schema defaults: status open, and empty changes, reviewers and comments; given values are kept; the title is trimmed; a given description is trimmed and an absent description stays absent |
| PullRequestModel.BlankTitleFailsValidation | models/PullRequest.ts:130-134 | a whitespace-only title trims to empty and fails required validation |
| PullRequestModel.CommentRequiredFields | models/PullRequest.ts:91-99 | a comment is valid exactly when author id and text are present; the path is optional |
| PullRequestRoute.ReviewerError | app/api/pr/route.ts:162-175 | one reviewer id passes exactly when it is well-formed and names a user; otherwise 400 or 404 |
| PullRequestRoute.FirstReviewerError | app/api/pr/route.ts:161-177 | the reviewer check result is always an error response when present |
| PullRequestRoute.PendingReviewers | app/api/pr/route.ts:187-190 | one pending entry per given id, in order, duplicates kept |
| PullRequestRoute.ValidateReviewers | app/api/pr/route.ts:161-177 | the loop stops at the first failing id; it reports no error exactly when every id is well-formed and known |
| PullRequestRoute.RequestGuards | app/api/pr/route.ts:115-158 | definition: the first failing guard of session, required fields, id format, protocol lookup and authorship, or none (properties in `UnauthenticatedIsRejectedFirst`, `MissingFieldIs400`, `ProtocolIdChecks`, `NonAuthorNonAdminIs403`) |
| PullRequestRoute.NewPullRequest | app/api/pr/route.ts:179-192 | definition: the record built from the body, authored by the caller, open, with pending reviewers (property in `CreatedRecordShape`) |
| PullRequestRoute.Handle | app/api/pr/route.ts:113-194 | definition: the guards, then the reviewer checks, then creation or a server error (`PullRequestStore.Post` answers it; properties in the lemmas below) |
| PullRequestRoute.PullRequestStore.constructor | app/api/pr/route.ts:194 | the store starts empty |
| PullRequestRoute.PullRequestStore.Post | app/api/pr/route.ts:113-194 | the response is the guard chain's answer; the store grows by the created record only when the request succeeds and is untouched otherwise |
| PullRequestRoute.UnauthenticatedIsRejectedFirst | app/api/pr/route.ts:115-122 | without a session user id the answer is 401 whatever the body |
| PullRequestRoute.MissingFieldIs400 | app/api/pr/route.ts:127-132 | for a signed-in caller, a missing or empty protocol id, branch or title, or missing or non-list changes, gives 400 "Missing required fields: protocolId, branch, title, changes" |
| PullRequestRoute.ProtocolIdChecks | app/api/pr/route.ts:134-150 | a malformed protocol id gives 400, and an unknown protocol gives 404 |
| PullRequestRoute.NonAuthorNonAdminIs403 | app/api/pr/route.ts:153-158 | a caller who is neither the author nor an admin gets 403 |
| PullRequestRoute.FirstFailingReviewerDecides | app/api/pr/route.ts:161-177 | the first failing reviewer id decides the answer: 400 when malformed, 404 when unknown |
| PullRequestRoute.FirstFailureExists | app/api/pr/route.ts:161-177 | any failing reviewer id makes the reviewer check fail |
| PullRequestRoute.CreatedRecordShape | app/api/pr/route.ts:179-192 | a created pull request passed every guard, is authored by the caller, is open, and lists the given reviewers pending, in order |
| PullRequestRoute.BlankTitleIs500 | app/api/pr/route.ts:113-194 | a whitespace-only title passes the guards but fails at save with a server error, whether reviewers are absent, a list of valid known ids, or not a list |
| PullRequestRoute.NonListReviewersIs500 | app/api/pr/route.ts:161-190 | a `reviewers` value that is neither a list nor absent ends in a server error |
| LineDiff.IndexOfLine | components/history/diff-viewer.tsx:57-58 | `indexOf`: -1, or a position holding the line |
| LineDiff.IndexOfLineIsFirst | components/history/diff-viewer.tsx:57-58 | no line before the reported position holds the line, and with -1 no line does, so the position is the first occurrence |
| LineDiff.NextMove | components/history/diff-viewer.tsx:38-79 | each iteration stays within bounds and advances i, j or both |
| LineDiff.DiffFrom | components/history/diff-viewer.tsx:38-79 | definition: the entries the loop emits from pointers (i, j) on (properties in `DiffFromStep`, `DiffFromProjects` and the lemmas on each branch) |
| LineDiff.Walk | components/history/diff-viewer.tsx:38-79 | definition: one iteration's entries followed by the diff from the pointers it leaves (property in `DiffFromStep`) |
| LineDiff.Diff | components/history/diff-viewer.tsx:21-82 | definition: the diff from (0, 0); `ComputeDiff` is proved to compute it, `DiffProjects` and `DiffLength` describe it |
| LineDiff.LeftAppend | components/history/diff-viewer.tsx:21-82 | the old-side projection distributes over concatenation |
| LineDiff.RightAppend | components/history/diff-viewer.tsx:21-82 | the new-side projection distributes over concatenation |
| LineDiff.LeftRightOfOne | components/history/diff-viewer.tsx:21-82 | one entry projects to its text on the old side unless added, and on the new side unless removed |
| LineDiff.LeftRightOfPair | components/history/diff-viewer.tsx:70-77 | a removed/added pair projects to one line on each side |
| LineDiff.OneLineProjects | components/history/diff-viewer.tsx:38-69 | a single removed, added or unchanged entry projects exactly onto the line it consumes on its side |
| LineDiff.ProjectionsJoin | components/history/diff-viewer.tsx:21-82 | entries projecting onto the first parts of both sides, followed by entries projecting onto the remaining parts, project onto the whole sides |
| LineDiff.NextMoveProjects | components/history/diff-viewer.tsx:38-79 | the entries of one iteration project exactly onto the lines it consumed on each side |
| LineDiff.DiffFromStep | components/history/diff-viewer.tsx:38-79 | the diff from (i, j) is one iteration's entries followed by the diff from where it leaves the pointers, and those entries project onto the lines consumed |
| LineDiff.SuffixProjectionsJoin | components/history/diff-viewer.tsx:21-82 | entries for `xs[i..a]` followed by entries for `xs[a..]` project onto `xs[i..]`, on both sides |
| LineDiff.DiffFromProjects | components/history/diff-viewer.tsx:38-79 | the diff from (i, j) projects onto the rest of each side |
| LineDiff.DiffProjects | components/history/diff-viewer.tsx:38-79 | removed and unchanged texts in order are the old lines; added and unchanged texts in order are the new lines |
| LineDiff.SideLengths | components/history/diff-viewer.tsx:21-82 | each projection is no longer than the diff, and the diff no longer than both together |
| LineDiff.DiffLength | components/history/diff-viewer.tsx:38-79 | the diff has between max(n, m) and n + m entries |
| LineDiff.PrependOfKind | components/history/diff-viewer.tsx:38-54 | an entry of one kind for the first line, followed by entries of that kind for the rest, covers all the lines in order |
| LineDiff.IdenticalFrom | components/history/diff-viewer.tsx:49-54 | from equal positions in equal inputs, the diff is one unchanged entry per remaining line, in order |
| LineDiff.IdenticalInputsUnchanged | components/history/diff-viewer.tsx:49-54 | identical inputs give one unchanged entry per line |
| LineDiff.OldExhaustedAllAdded | components/history/diff-viewer.tsx:39-43 | once the old side is exhausted, the diff is one added entry per remaining new line, in order |
| LineDiff.NewExhaustedAllRemoved | components/history/diff-viewer.tsx:44-48 | once the new side is exhausted, the diff is one removed entry per remaining old line, in order |
| LineDiff.RemovedWhenOldLineRecursSooner | components/history/diff-viewer.tsx:55-64 | when the old line recurs sooner in the new rest, it is emitted as removed |
| LineDiff.AddedWhenNewLineRecursSooner | components/history/diff-viewer.tsx:55-69 | when the new line recurs sooner in the old rest, it is emitted as added |
| LineDiff.PairWhenNeitherRecurs | components/history/diff-viewer.tsx:70-77 | when neither line recurs, a removed/added pair is emitted and both pointers advance |
| LineDiff.PairWhenBothRecurEquallySoon | components/history/diff-viewer.tsx:57-77 | when each line recurs on the other side at the same distance (a tie), a removed/added pair is emitted and both pointers advance |
| LineDiff.WalkAdvances | components/history/diff-viewer.tsx:38-79 | one iteration preserves the loop invariant: the emitted prefix projects onto the consumed lines and prefixes the full diff |
| LineDiff.ComputeDiff | components/history/diff-viewer.tsx:21-82 | the loop over the split lines computes the diff; joining either projection with "\n" gives back the input text |
| VersionCompare.Reverse | app/api/version/compare/route.ts:60-63 | `reverse` maps position i to position n-1-i |
| VersionCompare.OldestFirst | app/api/version/compare/route.ts:60-63 | the version list has one entry more than the stored versions, the current state last, the stored versions in reverse |
| VersionCompare.ReverseInvolutive | app/api/version/compare/route.ts:60-63 | reversing twice gives back the list |
| VersionCompare.OldestFirstOrder | app/api/version/compare/route.ts:108-117 | the version list is the reversed stored versions followed by the current state |
| VersionCompare.StepTexts | app/api/version/compare/route.ts:132-134 | one rendered text per step, in order |
| VersionCompare.StepText | app/api/version/compare/route.ts:133 | definition: a step's text (properties in `StepTextHeader`, `AbsentRendersAsEmpty`, `StepIdsDoNotShow`) |
| VersionCompare.ProtocolText | app/api/version/compare/route.ts:131-135 | definition: the header lines, then the step texts joined by blank lines (properties in `ProtocolTextHeader`, `StepIdsDoNotShow`) |
| VersionCompare.NotebookVersions | app/api/version/compare/route.ts:60-63 | definition: the live notebook, with its version number, in front of the stored versions, then reversed (properties in `NotebookSide`, `NotebookComparison`) |
| VersionCompare.ProtocolVersions | app/api/version/compare/route.ts:108-117 | definition: the live protocol in front of the stored versions, then reversed (property in `OldestFirstOrder`) |
| VersionCompare.StoredNotebookView | models/Notebook.ts:4-22 | definition: a stored notebook version as sent, with no version number because the schema keeps none (property in `NotebookSide`) |
| VersionCompare.NotebookAccess | app/api/version/compare/route.ts:49-51 | definition: the caller is the author or a collaborator (property in `NotebookComparison`) |
| VersionCompare.Handle | app/api/version/compare/route.ts:9-156 | definition: the whole request handler (properties in the comparison lemmas) |
| VersionCompare.NotebookComparison | app/api/version/compare/route.ts:38-88 | non-collaborators get 403, out-of-range indices 400, and in-range indices compare the two selected versions: the live content, with the notebook's version number, at the last index, and stored versions, sent without a version number, before it |
| VersionCompare.NotebookSide | app/api/version/compare/route.ts:60-87 | index n (the number of stored versions) selects the live content with the notebook's version number; a smaller index selects a stored version, which has no version number |
| VersionCompare.NotebookVersionAt | app/api/version/compare/route.ts:60-63 | position i of the oldest-first notebook list is the version `NotebookSide` selects for i |
| VersionCompare.MissingOrMalformedIs400 | app/api/version/compare/route.ts:22-34 | a missing parameter, or a malformed id, gives 400 |
| VersionCompare.ProtocolComparison | app/api/version/compare/route.ts:107-128 | for the author, indices outside the oldest-first version list give 400 "Invalid version indices"; in-range indices compare the versions at those positions |
| VersionCompare.ProtocolAccessIsAuthorOnly | app/api/version/compare/route.ts:100-106 | only the protocol's author can compare its versions |
| VersionCompare.UnknownResourceType | app/api/version/compare/route.ts:151-154 | a resource type other than notebook or protocol gives 400 |
| VersionCompare.UnauthenticatedCompare | app/api/version/compare/route.ts:13-18 | without a signed-in user the answer is 401 |
| VersionCompare.StepIdsDoNotShow | app/api/version/compare/route.ts:131-135 | step ids play no part in the rendered text |
| VersionCompare.AbsentRendersAsEmpty | app/api/version/compare/route.ts:133 | absent reagents, equipment, timing and notes render like empty ones |
| VersionCompare.ProtocolTextHeader | app/api/version/compare/route.ts:132 | the text starts with the title, description and steps header |
| VersionCompare.StepTextHeader | app/api/version/compare/route.ts:133 | each step's text starts with its order and title, then the reagents label |
| MlFallback.FallbackStandardize | ml-server/app.py:290-328 | the loop over lines computes the standardised steps under the fixed title "Extracted Protocol" and an empty description |
| MlFallback.ScanLine | ml-server/app.py:297-315 | definition: one stripped line skipped, opening a step, or extending the open step's notes (properties in `ScanInvariant`, `NotesAccumulate`) |
| MlFallback.Scan | ml-server/app.py:296-315 | definition: the lines scanned in order (properties in `ScanNumbered`, `ScanTitles`) |
| MlFallback.Standardize | ml-server/app.py:290-328 | definition: the scanned steps with the open one closed (properties in `OneStepPerHeader`, `ConsecutiveIds`, `NotesAccumulate`) |
| MlFallback.ScanInvariant | ml-server/app.py:296-318 | the scan yields one step per header line, titled by that line and numbered consecutively |
| MlFallback.ScanNumbered | ml-server/app.py:296-318 | the finished steps and the open one are numbered 1, 2, … in order, with empty reagents, equipment and timing |
| MlFallback.ScanTitles | ml-server/app.py:296-318 | one step per header line, titled by it, and a step is open exactly when some header was seen |
| MlFallback.OneStepPerHeader | ml-server/app.py:296-313 | exactly one step per non-blank line whose lower-case form contains "step", "procedure" or "method" |
| MlFallback.ConsecutiveIds | ml-server/app.py:303-312 | steps have ids step-1..step-k and orders 1..k, with empty reagents, equipment and timing |
| MlFallback.NotesAccumulate | ml-server/app.py:297-299 | non-header lines after a header add " " plus the stripped line to its notes; blank lines and lines before the first header are dropped |
| MlFallback.MissingFieldsInOrder | ml-server/app.py:250-263 | missing fields are reported in the order title, reagents, timing, equipment, each exactly when its check fails |
| MlFallback.MissingFields | ml-server/app.py:250-263 | definition: the flagged fields of a step (property in `MissingFieldsInOrder`) |
| MlFallback.Hints | ml-server/app.py:253-263 | definition: the fixed hint for each missing reagent, timing or equipment field (property in `SuggestionAt`) |
| MlFallback.MissingReport | ml-server/app.py:265-266 | definition: one report line per step with a missing field (property in `ReportFollowsFlagged`) |
| MlFallback.SuggestionMap | ml-server/app.py:267 | definition: the hints keyed by `step_{i+1}` for each flagged step (properties in `SuggestionAt`, `SuggestionKeysNameSteps`, `KeysDistinct`) |
| MlFallback.Filled | ml-server/app.py:271-276 | definition: the non-empty fields of a step, at most four (property in `FilledWithinTotal`) |
| MlFallback.FilledCount | ml-server/app.py:271-277 | definition: the filled fields over all steps (property in `FilledWithinTotal`) |
| MlFallback.CompletenessOf | ml-server/app.py:270-278 | definition: filled out of four per step, or complete for no steps (property in `NoStepsIsComplete`) |
| MlFallback.FlaggedInOrder | ml-server/app.py:250-263 | each field is listed exactly when its flag is set, in the order title, reagents, timing, equipment |
| MlFallback.AddAbove | ml-server/app.py:250-263 | appending a field that outranks every listed one keeps the list in rank order and adds only that field |
| MlFallback.Names | ml-server/app.py:266 | the field names listed in the report, in order |
| MlFallback.Marks | ml-server/app.py:265 | one flag per step, set exactly when the step misses a field |
| MlFallback.TrueIndices | ml-server/app.py:265-267 | the set flags' positions, ascending, each exactly once |
| MlFallback.ReportFollowsFlagged | ml-server/app.py:246-267 | the report has one "Step i: …" entry per step missing a field, in step order |
| MlFallback.SuggestionKeysNameSteps | ml-server/app.py:267 | every suggestion key names a step |
| MlFallback.SuggestionAt | ml-server/app.py:253-267 | `step_{i+1}` has suggestions exactly when step i misses a field, and they are that step's hints |
| MlFallback.DetectMissing | ml-server/app.py:246-278 | the loop computes the report, the suggestion map (keyed exactly by the flagged steps) and the filled/total counts |
| MlFallback.KeysDistinct | ml-server/app.py:267 | distinct steps get distinct suggestion keys |
| MlFallback.FilledWithinTotal | ml-server/app.py:270-277 | at most four filled parameters per step, so filled never exceeds total |
| MlFallback.NoStepsIsComplete | ml-server/app.py:278 | no steps gives a full score |
| MlFallback.BlankTextMissingButFilled | ml-server/app.py:250-272 | a whitespace-only title, or a whitespace-only timing, is reported missing yet counted as filled; with both blank, both count as filled |
| MlFallback.FallbackAutocomplete | ml-server/app.py:330-353 | exactly one suggestion, "Document Results" with its fixed notes and empty fields |
| MlFallback.AutocompleteIgnoresSteps | ml-server/app.py:330-353 | the suggestion does not depend on the current steps |
| MlFallback.SplitAtFirst | ml-server/app.py:130-133 | splitting on a separator that does not occur gives the whole text; otherwise the first piece ends at its first occurrence |
| MlFallback.SplitOnFound | ml-server/app.py:130-133 | a separator that occurs splits the text into at least two pieces |
| MlFallback.ExtractJson | ml-server/app.py:130-133 | definition: the payload cut out of a reply (properties in `UnfencedReplyUnchanged`, `PlainFencePayload`, `JsonFencePayload`, `FencedPayloadIsClean`) |
| MlFallback.JsonFenceIsFence | ml-server/app.py:130-132 | a reply containing the json marker contains a fence |
| MlFallback.UnfencedReplyUnchanged | ml-server/app.py:130-133 | a reply without a fence is returned unchanged |
| MlFallback.PlainFencePayload | ml-server/app.py:132-133 | without the json marker, the payload is the trimmed text between the first two fences |
| MlFallback.JsonFencePayload | ml-server/app.py:130-131 | with a json marker, the payload is the trimmed text between the first marker and the next fence, unless a fence starts one or two characters before the second marker |
| MlFallback.MarkedPayload | ml-server/app.py:130-131 | with a json marker, the payload is the text after the first marker, cut at the next marker, then at the next fence, and trimmed |
| MlFallback.FirstPieceIsBefore | ml-server/app.py:130-133 | the first piece of `split` is the text before the first occurrence of the separator |
| MlFallback.FindIs | ml-server/app.py:130-133 | an occurrence with none before it is the one `find` reports |
| MlFallback.BeforeMarkerThenFence | ml-server/app.py:130-131 | cutting at a marker that begins with the fence, then at the fence, equals cutting at the fence, unless a fence overlaps the marker's first occurrence |
| MlFallback.StraddledFenceKeepsBacktick | ml-server/app.py:130-131 | the reply "```jsonX````jsonY" gives the payload "X`", while the text up to the next fence trims to "X" |
| MlFallback.StraddleRest | ml-server/app.py:130 | in that reply, the text after the first marker is "X````jsonY" |
| MlFallback.StraddleCuts | ml-server/app.py:130-131 | "X````jsonY" cut at the marker and then at a fence is "X`"; cut at a fence alone it is "X" |
| MlFallback.TrimKeepsNonSpace | ml-server/app.py:131 | a text with no whitespace at either end strips to itself |
| MlFallback.FencedPayloadIsClean | ml-server/app.py:130-133 | a fenced reply's payload has no surrounding whitespace and no fence inside it |
| MlFallback.TrimKeepsAbsence | ml-server/app.py:131-133 | stripping cannot create a substring |
| Middleware.Route | middleware.ts:4-40 | public paths pass; a redirect to login, carrying the path as `callbackUrl`, happens exactly for a non-public protected path without either session cookie |
| Middleware.IsPublic | middleware.ts:8-13 | definition: equal to a public route or below it (properties in `PublicNeedsSlashBoundary`, `RootIsExact`, `NotPublicByFirstLetter`) |
| Middleware.IsProtected | middleware.ts:16-19 | definition: starts with a protected prefix (property in `ProtectedHasNoBoundary`) |
| Middleware.PublicNeedsSlashBoundary | middleware.ts:8-13 | `/api/auth` and `/api/auth/session` are public, and `/api/authx` is not |
| Middleware.NotPrefixAt | middleware.ts:12 | a mismatch inside the prefix rules out `startsWith` |
| Middleware.RootIsExact | middleware.ts:8-13 | a path matching the public route `/` is `/` or begins with `//` |
| Middleware.ProtectedHasNoBoundary | middleware.ts:16-19 | `/protocolsX` and `/dashboard/stats` are protected and redirect without a cookie |
| Middleware.NotPublicByFirstLetter | middleware.ts:8-13 | a path whose first segment starts with none of `/`, `l`, `s`, `a` matches no public route |
| Middleware.EitherCookieSuffices | middleware.ts:27-31 | either session cookie lets every path through |
| Middleware.UnlistedPathPasses | middleware.ts:27-39 | a path that is not protected always passes |
| DataPreview.TotalPages | components/charts/data-preview-table.tsx:39 | the page count is ceil(n/10): zero only for no rows, and the last page is neither empty nor overfull |
| DataPreview.Slice | components/charts/data-preview-table.tsx:41 | `slice` clamps its end to the length and copies the elements in range |
| DataPreview.PageRows | components/charts/data-preview-table.tsx:40-41 | a page shows at most 10 rows, those at positions (page-1)*10 onward |
| DataPreview.PrevPage | components/charts/data-preview-table.tsx:120 | Previous goes from page p to p-1 when p is at least 2, and to page 1 otherwise |
| DataPreview.NextPage | components/charts/data-preview-table.tsx:131 | Next goes from page p to p+1 when p is below the last page, and to the last page otherwise |
| DataPreview.PagingStaysInRange | components/charts/data-preview-table.tsx:115-135 | from a page in range, Previous and Next stay in [1, totalPages]; Previous stays put exactly on page 1 and Next exactly on the last page, where the buttons are disabled |
| DataPreview.Render | components/charts/data-preview-table.tsx:23-41 | no rows renders no table; otherwise the controls appear exactly when there are more than 10 rows |
| DataPreview.PagesCoverData | components/charts/data-preview-table.tsx:39-41 | the first k pages together are the first 10k rows |
| DataPreview.AllPagesReproduceData | components/charts/data-preview-table.tsx:39-41 | all pages together are the data |
| DataPreview.PagePastEndIsEmpty | components/charts/data-preview-table.tsx:39-41 | a page beyond the last is empty |
| DataPreview.CsvCells | components/charts/data-preview-table.tsx:50-56 | one CSV cell per field, in field order |
| DataPreview.CsvCell | components/charts/data-preview-table.tsx:50-56 | definition: one cell, quoted when it contains a comma (property in `QuotesAreNotEscaped`) |
| DataPreview.CsvLine | components/charts/data-preview-table.tsx:49-58 | definition: a row's cells joined by commas (property in `LineHasNoNewline`) |
| DataPreview.Csv | components/charts/data-preview-table.tsx:48-59 | definition: the header and the lines joined by newlines (property in `CsvLinesRoundTrip`) |
| DataPreview.CsvLines | components/charts/data-preview-table.tsx:49-58 | one CSV line per row, in data order |
| DataPreview.NumberHasNoNewline | components/charts/data-preview-table.tsx:55 | a number renders without a newline |
| DataPreview.JoinAvoids | components/charts/data-preview-table.tsx:57-59 | joining pieces that lack a character, with a separator lacking it, gives text lacking it |
| DataPreview.LineHasNoNewline | components/charts/data-preview-table.tsx:49-58 | a row whose values hold no newline renders as one line |
| DataPreview.CsvLinesRoundTrip | components/charts/data-preview-table.tsx:48-59 | splitting the CSV on newlines gives the header and then one line per row |
| DataPreview.QuotesAreNotEscaped | components/charts/data-preview-table.tsx:53-55 | a value with a comma is wrapped in quotes, and its own quotes are left as they are |
| ImageValidation.ValidateImageFile | lib/cloudinary.ts:105-125 | valid exactly when the type is one of the five and the size is at most 10 MiB; the type error takes precedence over the size error |
| ImageValidation.SizeLimitIsInclusive | lib/cloudinary.ts:116-122 | exactly 10 MiB is accepted, and one byte more is refused |
| ImageValidation.TypeCheckedBeforeSize | lib/cloudinary.ts:108-122 | a bad type with a bad size reports the type error |
| ImageValidation.TypeMatchIsExact | lib/cloudinary.ts:107-108 | the type match is exact and case-sensitive, and `image/jpg` is accepted |
| Dashboard.FormatTimeAgo | app/dashboard/page.tsx:25-35 | under 60 s (future times included) gives "just now"; the date is shown exactly from 604800 s on |
| Dashboard.UnitCountsInRange | app/dashboard/page.tsx:30-33 | minutes lie in 1..59, hours in 1..23 and days in 1..6 |
| Dashboard.RoundsDown | app/dashboard/page.tsx:28-31 | seconds are rounded down: 59.999 s and a time 5 s in the future are "just now", and 60 s is "1 minutes ago" |
| Dashboard.ActivityColor | app/dashboard/page.tsx:37-41 | blue exactly for a published protocol, green exactly for a verified replication, yellow otherwise |
| Profile.ValidationError | app/profile/page.tsx:64-77 | a blank name is refused first; the form passes exactly when the name is non-blank and the new password is empty, or matches its confirmation and has at least 6 characters |
| Profile.PayloadOf | app/profile/page.tsx:81-94 | the payload carries name and institution, plus both passwords exactly when the new password is non-empty |
| Profile.RefusalMessage | app/profile/page.tsx:116-121 | definition: the server's error when present and non-empty, else the generic message (property in `RefusedSaveReportsServerError`) |
| Profile.SaveResult | app/profile/page.tsx:104-122 | definition: validation first, then the server's reply (properties in `ProfileForm.HandleSave`, `RefusedSaveReportsServerError`) |
| Profile.ProfileForm.constructor | app/profile/page.tsx:26-32 | the form starts outside edit mode with empty password fields |
| Profile.ProfileForm.HandleSave | app/profile/page.tsx:63-125 | the outcome follows validation and the server's reply; a successful save clears the passwords and leaves edit mode, anything else changes nothing |
| Profile.RefusedSaveReportsServerError | app/profile/page.tsx:115-121 | a refused save shows the server's error, or "Failed to update profile" when it is missing or empty or the server was unreachable |
| Profile.BlankNameRefusedFirst | app/profile/page.tsx:64-67 | a blank name is refused whatever the passwords |
| Profile.MismatchBeforeLength | app/profile/page.tsx:69-77 | a short, mismatched password reports the mismatch |
| Profile.ShortPasswordRefused | app/profile/page.tsx:74-77 | a matching password shorter than 6 characters is refused |
| Profile.EmptyNewPasswordSkipsChecks | app/profile/page.tsx:69-94 | an empty new password skips both password checks and sends no password |
| Profile.SavedFormSendsNoPassword | app/profile/page.tsx:104-113 | saving again after a successful save sends no password |
| Text.TrimIsInfix | ml-server/app.py:297 | stripping removes whitespace at both ends only: the result is an infix of the input with non-space ends |
| Text.Trim | ml-server/app.py:297 | definition: leading and trailing whitespace removed (properties in `TrimIsInfix`, `TrimEmptyIff`) |
| Text.TrimEmptyIff | app/profile/page.tsx:64 | a string trims to empty exactly when it is all whitespace |
| Text.TrimStartRemovesPrefix | ml-server/app.py:297 | the leading part removed by stripping is all whitespace |
| Text.TrimEndRemovesSuffix | ml-server/app.py:297 | the trailing part removed by stripping is all whitespace |
| Text.ToLower | ml-server/app.py:302 | lower-casing maps each character in place |
| Text.FindFrom | ml-server/app.py:130-133 | the first occurrence at or after a position, or -1 |
| Text.Find | ml-server/app.py:130-133 | the first occurrence, or -1 |
| Text.ContainsIff | ml-server/app.py:302 | `in` holds exactly when the word occurs at some position |
| Text.Contains | ml-server/app.py:302 | definition: some occurrence of the word (property in `ContainsIff`) |
| Text.StartsWith | middleware.ts:12 | definition: the text begins with the prefix (property in `Middleware.NotPrefixAt`) |
| Text.Join | components/charts/data-preview-table.tsx:59 | definition: the parts with the separator between neighbours (properties in `SplitJoinRoundTrip`, `DataPreview.JoinAvoids`) |
| Text.SplitOn | components/history/diff-viewer.tsx:26-27 | `split` gives at least one piece, the pieces joined with the separator give back the text, and no piece contains the separator |
| Text.SplitJoinRoundTrip | components/charts/data-preview-table.tsx:59 | splitting text joined with a one-character separator that no part contains gives back the parts |
| Text.NatToString | ml-server/app.py:266-267 | the decimal rendering is non-empty, all digits, and without a leading zero |
| Text.NatToStringRoundTrip | ml-server/app.py:266-267 | the digits read back as the number |
| Text.NatToStringInjective | ml-server/app.py:267 | distinct numbers render differently |
| Text.IntToString | app/api/version/compare/route.ts:133 | the rendering of an integer starts with a minus sign exactly when it is negative |
| Text.IntToStringReadsBack | app/api/version/compare/route.ts:133 | after any minus sign, the rendering is all digits and reads back as the magnitude |
| Text.IntToStringInjective | app/api/version/compare/route.ts:133 | distinct integers render differently |

## Left out

- Reviewer-verdict aggregation, merging, version snapshot caps and the branch ledger: their handlers are not part of this model.
- `GET /api/pr`, author population of the created record, and every other route: database I/O. Lookups appear as maps and sets.
- `ObjectId.isValid` is a parameter (`isValidId`), because its code is not part of this model.
- Session retrieval is reduced to an optional user id and role.
- The clock: the live version's `savedAt` and the elapsed time of `formatTimeAgo` are parameters.
- Date objects, `toLocaleDateString` and locale formatting: `Dashboard.FormatTimeAgo` answers `LocaleDate` for dates a week old or more.
- Floating point:
  - the `lineNum` numbering of diff entries, including the `+ 0.5` on paired lines;
  - the completeness ratio and its rounding, for which the model returns the filled and total counts;
  - the confidence constants of the ML responses.
- The OpenAI calls, `json.loads`, and the step normalisation after a successful model call: foreign calls.
- The message text of thrown exceptions: the route's catch-all 500 is `ServerError`.
- PullRequestRoute.Handle: changes arrive already typed. A change that the schema would reject at save, such as an unknown `type`, is not modelled.
- Unicode: `trim`/`strip` cover space, tab, line feed, carriage return, vertical tab and form feed, and lower-casing covers ASCII letters only. Other Unicode spaces are not stripped.
- Text.Trim: one definition serves JavaScript's `trim` and Python's `strip`, so it is not Python's `strip` on the ASCII separators U+001C to U+001F, which Python removes and `trim` keeps. A title, timing or line made only of those characters is blank to the ML server but not to the model.
- Profile.ValidationError: the 6-character minimum counts code points, where JavaScript's `length` counts UTF-16 code units. A password with characters outside the Basic Multilingual Plane can pass in the browser and fail here.
- JavaScript object-key order: the table fields are a given sequence, not read from the first row.
- Cell values are strings, integers or absent. Dates, booleans and nested objects are not modelled.
- Non-integer version indices in the compare request.
- React state plumbing: `isSaving`, toasts, `setProfile`, and the `fetch` itself. The server's reply is a parameter of `HandleSave`.
- The middleware `matcher` configuration, which decides which paths reach the middleware at all.
- Real-time collaboration, encryption, uploads, authentication internals and all UI rendering: transport, foreign libraries and presentation.
