/**
 * The protocol change engine: applying a change list to a step list, and
 * computing the change list between two step lists by step id.
 */
module PrUtils {
  import opened Wrappers
  import opened Steps
  import opened PullRequestModel

  // ---------------------------------------------------------------------------
  // Applying changes
  // ---------------------------------------------------------------------------

  /** JavaScript truthiness of an optional string: absent and "" are both false. */
  predicate Truthy(o: Option<string>) {
    o.Some? && o.value != ""
  }

  /**
   * The sort key of a change: `step.order || oldStep.order || 0`. Under `||` an
   * order of 0 counts as missing and falls through to the next alternative.
   */
  function Anchor(c: Change): (k: int)
    ensures c.step.Some? && c.step.value.order != 0 ==> k == c.step.value.order
    ensures (c.step.None? || c.step.value.order == 0) && c.oldStep.Some? ==> k == c.oldStep.value.order
    ensures (c.step.None? || c.step.value.order == 0) && c.oldStep.None? ==> k == 0
  {
    if c.step.Some? && c.step.value.order != 0 then c.step.value.order
    else if c.oldStep.Some? && c.oldStep.value.order != 0 then c.oldStep.value.order
    else 0
  }

  predicate SortedByAnchor(cs: seq<Change>) {
    forall i, j :: 0 <= i < j < |cs| ==> Anchor(cs[i]) <= Anchor(cs[j])
  }

  /** The changes of `cs` whose anchor is `k`, in their order in `cs`. */
  function WithAnchor(cs: seq<Change>, k: int): (r: seq<Change>)
    ensures |r| <= |cs|
  {
    if cs == [] then []
    else if Anchor(cs[0]) == k then [cs[0]] + WithAnchor(cs[1..], k)
    else WithAnchor(cs[1..], k)
  }

  /** Inserts `c` into a sorted list, before every change whose anchor is not smaller. */
  function InsertByAnchor(c: Change, sorted: seq<Change>): seq<Change> {
    if sorted == [] || Anchor(c) <= Anchor(sorted[0]) then [c] + sorted
    else [sorted[0]] + InsertByAnchor(c, sorted[1..])
  }

  lemma {:induction false} InsertByAnchorPermutes(c: Change, sorted: seq<Change>)
    ensures multiset(InsertByAnchor(c, sorted)) == multiset(sorted) + multiset{c}
  {
    if !(sorted == [] || Anchor(c) <= Anchor(sorted[0])) {
      InsertByAnchorPermutes(c, sorted[1..]);
      assert sorted == [sorted[0]] + sorted[1..];
    }
  }

  lemma {:induction false} InsertByAnchorSorted(c: Change, sorted: seq<Change>)
    requires SortedByAnchor(sorted)
    ensures SortedByAnchor(InsertByAnchor(c, sorted))
  {
    if !(sorted == [] || Anchor(c) <= Anchor(sorted[0])) {
      var rest := InsertByAnchor(c, sorted[1..]);
      InsertByAnchorSorted(c, sorted[1..]);
      InsertByAnchorPermutes(c, sorted[1..]);
      forall j | 0 <= j < |rest| ensures Anchor(sorted[0]) <= Anchor(rest[j]) {
        assert rest[j] in multiset(rest);
        if rest[j] != c {
          assert rest[j] in multiset(sorted[1..]);
        }
      }
      var r := [sorted[0]] + rest;
      assert r[1..] == rest;
      assert forall j :: 0 < j < |r| ==> r[j] == rest[j - 1];
    }
  }

  lemma {:induction false} InsertByAnchorStable(c: Change, sorted: seq<Change>, k: int)
    ensures WithAnchor(InsertByAnchor(c, sorted), k)
         == if Anchor(c) == k then [c] + WithAnchor(sorted, k) else WithAnchor(sorted, k)
  {
    var r := InsertByAnchor(c, sorted);
    if sorted == [] || Anchor(c) <= Anchor(sorted[0]) {
      assert r[1..] == sorted;
      if Anchor(c) == k && sorted != [] && Anchor(sorted[0]) == k {
        assert WithAnchor(sorted, k) == [sorted[0]] + WithAnchor(sorted[1..], k);
      }
    } else {
      InsertByAnchorStable(c, sorted[1..], k);
      assert r[1..] == InsertByAnchor(c, sorted[1..]);
    }
  }

  /**
   * The change list in the order it is applied: `[...changes].sort((a, b) =>
   * anchor(a) - anchor(b))`, a stable sort.
   */
  function SortByAnchor(cs: seq<Change>): seq<Change> {
    if cs == [] then [] else InsertByAnchor(cs[0], SortByAnchor(cs[1..]))
  }

  /**
   * The sorted list is sorted by anchor, is a permutation of the input, and
   * keeps changes with equal anchors in their input order.
   */
  lemma {:induction false} SortByAnchorCorrect(cs: seq<Change>)
    ensures SortedByAnchor(SortByAnchor(cs))
    ensures multiset(SortByAnchor(cs)) == multiset(cs)
    ensures forall k :: WithAnchor(SortByAnchor(cs), k) == WithAnchor(cs, k)
  {
    if cs != [] {
      var t := SortByAnchor(cs[1..]);
      SortByAnchorCorrect(cs[1..]);
      InsertByAnchorSorted(cs[0], t);
      InsertByAnchorPermutes(cs[0], t);
      assert cs == [cs[0]] + cs[1..];
      forall k ensures WithAnchor(SortByAnchor(cs), k) == WithAnchor(cs, k) {
        InsertByAnchorStable(cs[0], t, k);
      }
    }
  }

  /** `steps.findIndex(f)`: the first index whose step satisfies `f`, or -1. */
  function FindIndex(steps: seq<Step>, f: Step -> bool): (r: int)
    ensures -1 <= r < |steps|
    ensures r >= 0 ==> f(steps[r])
    ensures forall i :: 0 <= i < |steps| && (r == -1 || i < r) ==> !f(steps[i])
  {
    if steps == [] then -1
    else if f(steps[0]) then 0
    else
      var k := FindIndex(steps[1..], f);
      if k == -1 then -1 else k + 1
  }

  /** The search predicates the engine passes to `findIndex`. */
  function OrderAtLeast(order: int): Step -> bool {
    (s: Step) => s.order >= order
  }

  function HasId(id: string): Step -> bool {
    (s: Step) => s.id == id
  }

  function HasOrder(order: int): Step -> bool {
    (s: Step) => s.order == order
  }

  /** `splice(k, 0, x)` when `k` is an index, `push(x)` when `k` is -1. */
  function InsertAt(steps: seq<Step>, k: int, x: Step): seq<Step>
    requires -1 <= k < |steps|
  {
    if k == -1 then steps + [x] else steps[..k] + [x] + steps[k..]
  }

  /** `steps[k] = x` when `k` is an index; nothing when `k` is -1. */
  function ReplaceAt(steps: seq<Step>, k: int, x: Step): seq<Step>
    requires -1 <= k < |steps|
  {
    if k == -1 then steps else steps[k := x]
  }

  /** `splice(k, 1)` when `k` is an index; nothing when `k` is -1. */
  function RemoveAt(steps: seq<Step>, k: int): seq<Step>
    requires -1 <= k < |steps|
  {
    if k == -1 then steps else steps[..k] + steps[k + 1..]
  }

  /** The effect of one change on the working list. */
  function ApplyChange(steps: seq<Step>, c: Change): seq<Step> {
    match c.kind
    case Add =>
      if c.step.Some? then
        InsertAt(steps, FindIndex(steps, OrderAtLeast(c.step.value.order)), c.step.value)
      else steps
    case Edit =>
      if Truthy(c.stepId) && c.step.Some? then
        ReplaceAt(steps, FindIndex(steps, HasId(c.stepId.value)), c.step.value)
      else if c.step.Some? then
        ReplaceAt(steps, FindIndex(steps, HasOrder(c.step.value.order)), c.step.value)
      else steps
    case Delete =>
      if Truthy(c.stepId) then
        RemoveAt(steps, FindIndex(steps, HasId(c.stepId.value)))
      else if c.oldStep.Some? then
        RemoveAt(steps, FindIndex(steps, HasId(c.oldStep.value.id)))
      else steps
  }

  /** The working list after applying `cs` in list order. */
  function ApplyAll(steps: seq<Step>, cs: seq<Change>): seq<Step> {
    if cs == [] then steps
    else ApplyChange(ApplyAll(steps, cs[..|cs| - 1]), cs[|cs| - 1])
  }

  /** The final pass: every step's `order` becomes its 1-based position, nothing else changes. */
  function Renumber(steps: seq<Step>): (r: seq<Step>)
    ensures |r| == |steps|
    ensures forall i :: 0 <= i < |r| ==> r[i].order == i + 1 && SameContent(r[i], steps[i])
  {
    seq(|steps|, i requires 0 <= i < |steps| => steps[i].(order := i + 1))
  }

  /** What `applyPRChanges(steps, changes)` returns. */
  function Patched(steps: seq<Step>, changes: seq<Change>): seq<Step> {
    Renumber(ApplyAll(steps, SortByAnchor(changes)))
  }

  /**
   * Copies the current steps into a working list, applies the changes in
   * anchor order by insertion, in-place replacement and removal, and finally
   * renumbers `order` to 1..N.
   */
  method ApplyPRChanges(currentSteps: seq<Step>, changes: seq<Change>) returns (result: seq<Step>)
    ensures result == Patched(currentSteps, changes)
    ensures forall i :: 0 <= i < |result| ==> result[i].order == i + 1
  {
    var newSteps := currentSteps;
    var sortedChanges := SortByAnchor(changes);
    for n := 0 to |sortedChanges|
      invariant newSteps == ApplyAll(currentSteps, sortedChanges[..n])
    {
      var change := sortedChanges[n];
      ghost var before := newSteps;
      if change.kind == Add {
        if change.step.Some? {
          var insertIndex := FindIndex(newSteps, OrderAtLeast(change.step.value.order));
          if insertIndex == -1 {
            newSteps := newSteps + [change.step.value];
          } else {
            newSteps := newSteps[..insertIndex] + [change.step.value] + newSteps[insertIndex..];
          }
        }
      } else if change.kind == Edit {
        if Truthy(change.stepId) && change.step.Some? {
          var stepIndex := FindIndex(newSteps, HasId(change.stepId.value));
          if stepIndex != -1 {
            newSteps := newSteps[stepIndex := change.step.value];
          }
        } else if change.step.Some? {
          var stepIndex := FindIndex(newSteps, HasOrder(change.step.value.order));
          if stepIndex != -1 {
            newSteps := newSteps[stepIndex := change.step.value];
          }
        }
      } else if change.kind == Delete {
        if Truthy(change.stepId) {
          var stepIndex := FindIndex(newSteps, HasId(change.stepId.value));
          if stepIndex != -1 {
            newSteps := newSteps[..stepIndex] + newSteps[stepIndex + 1..];
          }
        } else if change.oldStep.Some? {
          var stepIndex := FindIndex(newSteps, HasId(change.oldStep.value.id));
          if stepIndex != -1 {
            newSteps := newSteps[..stepIndex] + newSteps[stepIndex + 1..];
          }
        }
      }
      assert newSteps == ApplyChange(before, change);
      assert sortedChanges[..n + 1][..n] == sortedChanges[..n];
      assert ApplyAll(currentSteps, sortedChanges[..n + 1]) == ApplyChange(before, change);
    }
    assert sortedChanges[..|sortedChanges|] == sortedChanges;
    result := Renumber(newSteps);
  }

  // ---------------------------------------------------------------------------
  // Properties of applying changes
  // ---------------------------------------------------------------------------

  /** The result is numbered exactly 1..N by position. */
  lemma PatchedIsDense(steps: seq<Step>, changes: seq<Change>)
    ensures forall i :: 0 <= i < |Patched(steps, changes)| ==> Patched(steps, changes)[i].order == i + 1
  {
  }

  /** With no changes, the result is the input with only `order` rewritten. */
  lemma EmptyChangeListOnlyRenumbers(steps: seq<Step>)
    ensures |Patched(steps, [])| == |steps|
    ensures forall i :: 0 <= i < |steps| ==>
      Patched(steps, [])[i].order == i + 1 && SameContent(Patched(steps, [])[i], steps[i])
  {
    assert ApplyAll(steps, SortByAnchor([])) == steps;
  }

  /**
   * An `add` carrying a step inserts it at the position `k` of the first working
   * step whose order is not smaller, or at the end when there is none.
   */
  lemma AddInsertsBeforeFirstNotSmaller(steps: seq<Step>, c: Change, k: nat)
    requires c.kind == Add && c.step.Some?
    requires k <= |steps|
    requires forall i :: 0 <= i < k ==> steps[i].order < c.step.value.order
    requires k < |steps| ==> steps[k].order >= c.step.value.order
    ensures ApplyChange(steps, c) == steps[..k] + [c.step.value] + steps[k..]
    ensures |ApplyChange(steps, c)| == |steps| + 1
  {
    var f := OrderAtLeast(c.step.value.order);
    var idx := FindIndex(steps, f);
    if k < |steps| {
      assert f(steps[k]);
      assert idx == k;
    } else {
      assert idx == -1;
      assert steps[..k] == steps && steps[k..] == [];
    }
  }

  /**
   * An `edit` with a non-empty `stepId` and a step replaces, in place, the first
   * working step with that id; every other position keeps its step.
   */
  lemma EditReplacesFirstWithId(steps: seq<Step>, c: Change, k: nat)
    requires c.kind == Edit && Truthy(c.stepId) && c.step.Some?
    requires k < |steps| && steps[k].id == c.stepId.value
    requires forall i :: 0 <= i < k ==> steps[i].id != c.stepId.value
    ensures |ApplyChange(steps, c)| == |steps|
    ensures ApplyChange(steps, c)[k] == c.step.value
    ensures forall i :: 0 <= i < |steps| && i != k ==> ApplyChange(steps, c)[i] == steps[i]
  {
    var f := HasId(c.stepId.value);
    assert f(steps[k]);
    assert FindIndex(steps, f) == k;
  }

  /**
   * An `edit` carrying a step but no usable `stepId` replaces the first working
   * step whose order equals the incoming step's order.
   */
  lemma EditWithoutIdReplacesFirstWithOrder(steps: seq<Step>, c: Change, k: nat)
    requires c.kind == Edit && !Truthy(c.stepId) && c.step.Some?
    requires k < |steps| && steps[k].order == c.step.value.order
    requires forall i :: 0 <= i < k ==> steps[i].order != c.step.value.order
    ensures ApplyChange(steps, c) == steps[k := c.step.value]
  {
    var f := HasOrder(c.step.value.order);
    assert f(steps[k]);
    assert FindIndex(steps, f) == k;
  }

  /** The id a `delete` targets: `stepId` when non-empty, else `oldStep.id`. */
  function DeleteTarget(c: Change): Option<string> {
    if Truthy(c.stepId) then Some(c.stepId.value)
    else if c.oldStep.Some? then Some(c.oldStep.value.id)
    else None
  }

  /** A `delete` removes the first working step with the targeted id; later steps shift down. */
  lemma DeleteRemovesFirstWithId(steps: seq<Step>, c: Change, k: nat)
    requires c.kind == Delete && DeleteTarget(c).Some?
    requires k < |steps| && steps[k].id == DeleteTarget(c).value
    requires forall i :: 0 <= i < k ==> steps[i].id != DeleteTarget(c).value
    ensures |ApplyChange(steps, c)| == |steps| - 1
    ensures ApplyChange(steps, c)[..k] == steps[..k]
    ensures forall i :: k <= i < |steps| - 1 ==> ApplyChange(steps, c)[i] == steps[i + 1]
  {
    var f := HasId(DeleteTarget(c).value);
    assert f(steps[k]);
    assert FindIndex(steps, f) == k;
  }

  /**
   * A change whose target id is not in the working list changes nothing, and
   * so does a change that lacks what its kind needs.
   */
  lemma StaleOrEmptyChangeIsNoOp(steps: seq<Step>, c: Change)
    requires
      || (c.kind == Add && c.step.None?)
      || (c.kind == Edit && c.step.None?)
      || (c.kind == Edit && Truthy(c.stepId) && c.stepId.value !in Ids(steps))
      || (c.kind == Delete && DeleteTarget(c).None?)
      || (c.kind == Delete && DeleteTarget(c).Some? && DeleteTarget(c).value !in Ids(steps))
    ensures ApplyChange(steps, c) == steps
  {
  }

  /** One change moves the length by at most one: adds never shrink, deletes never grow, edits keep it. */
  lemma ApplyChangeLength(steps: seq<Step>, c: Change)
    ensures c.kind == Add ==> |steps| <= |ApplyChange(steps, c)| <= |steps| + 1
    ensures c.kind == Edit ==> |ApplyChange(steps, c)| == |steps|
    ensures c.kind == Delete ==> |steps| - 1 <= |ApplyChange(steps, c)| <= |steps|
  {
  }

  /** Applying `cs` changes the length by at most `|cs|`. */
  lemma {:induction false} ApplyAllLength(steps: seq<Step>, cs: seq<Change>)
    ensures |steps| - |cs| <= |ApplyAll(steps, cs)| <= |steps| + |cs|
  {
    if cs != [] {
      ApplyAllLength(steps, cs[..|cs| - 1]);
      ApplyChangeLength(ApplyAll(steps, cs[..|cs| - 1]), cs[|cs| - 1]);
    }
  }

  /** A change list made only of edits keeps the number of steps. */
  lemma {:induction false} EditsKeepLength(steps: seq<Step>, cs: seq<Change>)
    requires forall i :: 0 <= i < |cs| ==> cs[i].kind == Edit
    ensures |Patched(steps, cs)| == |steps|
  {
    SortByAnchorCorrect(cs);
    var sorted := SortByAnchor(cs);
    forall i | 0 <= i < |sorted| ensures sorted[i].kind == Edit {
      assert sorted[i] in multiset(cs);
    }
    EditsKeepLengthInOrder(steps, sorted);
  }

  lemma {:induction false} EditsKeepLengthInOrder(steps: seq<Step>, cs: seq<Change>)
    requires forall i :: 0 <= i < |cs| ==> cs[i].kind == Edit
    ensures |ApplyAll(steps, cs)| == |steps|
  {
    if cs != [] {
      EditsKeepLengthInOrder(steps, cs[..|cs| - 1]);
      ApplyChangeLength(ApplyAll(steps, cs[..|cs| - 1]), cs[|cs| - 1]);
    }
  }

  // ---------------------------------------------------------------------------
  // Computing the diff
  // ---------------------------------------------------------------------------

  /** No later step of the list carries the id of `steps[i]`. */
  predicate LastWithId(steps: seq<Step>, i: int)
    requires 0 <= i < |steps|
  {
    forall j :: i < j < |steps| ==> steps[j].id != steps[i].id
  }

  /** `new Map(steps.map(s => [s.id, s]))`: later entries overwrite earlier ones. */
  function IdMap(steps: seq<Step>): map<string, Step> {
    if steps == [] then map[]
    else IdMap(steps[..|steps| - 1])[steps[|steps| - 1].id := steps[|steps| - 1]]
  }

  /** The keys of the id map are exactly the ids of the list. */
  lemma {:induction false} IdMapKeys(steps: seq<Step>)
    ensures IdMap(steps).Keys == Ids(steps)
  {
    if steps != [] {
      var init := steps[..|steps| - 1];
      var last := steps[|steps| - 1];
      IdMapKeys(init);
      assert IdMap(steps).Keys == IdMap(init).Keys + {last.id};
      forall id | id in Ids(steps) ensures id in Ids(init) + {last.id} {
        var i :| 0 <= i < |steps| && steps[i].id == id;
        if i < |init| {
          assert init[i] == steps[i];
        }
      }
      forall id | id in Ids(init) ensures id in Ids(steps) {
        var i :| 0 <= i < |init| && init[i].id == id;
        assert steps[i] == init[i];
      }
    }
  }

  /** Each id maps to the LAST step carrying it. */
  lemma {:induction false} IdMapLastWins(steps: seq<Step>, i: nat)
    requires i < |steps| && LastWithId(steps, i)
    ensures steps[i].id in IdMap(steps) && IdMap(steps)[steps[i].id] == steps[i]
  {
    if i < |steps| - 1 {
      var init := steps[..|steps| - 1];
      assert steps[i] == init[i];
      assert LastWithId(init, i);
      IdMapLastWins(init, i);
    }
  }

  /** Every entry of the id map is a step of the list, filed under its own id. */
  lemma {:induction false} IdMapEntries(steps: seq<Step>)
    ensures forall id :: id in IdMap(steps) ==> IdMap(steps)[id] in steps && IdMap(steps)[id].id == id
  {
    if steps != [] {
      var init := steps[..|steps| - 1];
      IdMapEntries(init);
      assert forall s :: s in init ==> s in steps;
    }
  }

  /** The field comparison of the diff; missing reagent or equipment lists compare as empty. */
  predicate Modified(o: Step, n: Step) {
    || o.title != n.title
    || o.ReagentList() != n.ReagentList()
    || o.timing != n.timing
    || o.EquipmentList() != n.EquipmentList()
    || o.notes != n.notes
    || o.order != n.order
  }

  function DeleteOf(s: Step): Change {
    Change(Delete, Some(s.id), None, Some(s))
  }

  function AddOf(s: Step): Change {
    Change(Add, None, Some(s), None)
  }

  function EditOf(n: Step, o: Step): Change {
    Change(Edit, Some(n.id), Some(n), Some(o))
  }

  /** The deletions: one per old step whose id is not a key of the new map, in old-list order. */
  function Deletions(oldSteps: seq<Step>, newMap: map<string, Step>): seq<Change> {
    if oldSteps == [] then []
    else
      var s := oldSteps[|oldSteps| - 1];
      Deletions(oldSteps[..|oldSteps| - 1], newMap) + if s.id !in newMap then [DeleteOf(s)] else []
  }

  /** The additions and edits, in new-list order. */
  function Updates(newSteps: seq<Step>, oldMap: map<string, Step>): seq<Change> {
    if newSteps == [] then []
    else
      var n := newSteps[|newSteps| - 1];
      Updates(newSteps[..|newSteps| - 1], oldMap) +
        if n.id !in oldMap then [AddOf(n)]
        else if Modified(oldMap[n.id], n) then [EditOf(n, oldMap[n.id])]
        else []
  }

  /** What `computeStepDiff(oldSteps, newSteps)` returns. */
  function StepDiff(oldSteps: seq<Step>, newSteps: seq<Step>): seq<Change> {
    Deletions(oldSteps, IdMap(newSteps)) + Updates(newSteps, IdMap(oldSteps))
  }

  /**
   * Builds the id maps of both lists, pushes a delete for every old step whose
   * id the new list lacks, then an add or an edit for every new step that is
   * absent from, or differs from, its old counterpart.
   */
  method ComputeStepDiff(oldSteps: seq<Step>, newSteps: seq<Step>) returns (changes: seq<Change>)
    ensures changes == StepDiff(oldSteps, newSteps)
    ensures |changes| <= |oldSteps| + |newSteps|
  {
    changes := [];
    var oldStepsMap := IdMap(oldSteps);
    var newStepsMap := IdMap(newSteps);
    for i := 0 to |oldSteps|
      invariant changes == Deletions(oldSteps[..i], newStepsMap)
      invariant |changes| <= i
    {
      var oldStep := oldSteps[i];
      if oldStep.id !in newStepsMap {
        changes := changes + [DeleteOf(oldStep)];
      }
      assert oldSteps[..i + 1][..i] == oldSteps[..i];
    }
    assert oldSteps[..|oldSteps|] == oldSteps;
    ghost var deletions := changes;
    for j := 0 to |newSteps|
      invariant changes == deletions + Updates(newSteps[..j], oldStepsMap)
      invariant |changes| <= |oldSteps| + j
    {
      var newStep := newSteps[j];
      if newStep.id !in oldStepsMap {
        changes := changes + [AddOf(newStep)];
      } else {
        var oldStep := oldStepsMap[newStep.id];
        if Modified(oldStep, newStep) {
          changes := changes + [EditOf(newStep, oldStep)];
        }
      }
      assert newSteps[..j + 1][..j] == newSteps[..j];
    }
    assert newSteps[..|newSteps|] == newSteps;
  }

  // ---------------------------------------------------------------------------
  // Properties of the diff
  // ---------------------------------------------------------------------------

  /** The deletions are exactly the deletes of old steps whose id is not a key of the map. */
  lemma {:induction false} DeletionsMembers(oldSteps: seq<Step>, m: map<string, Step>, c: Change)
    ensures c in Deletions(oldSteps, m) <==>
      c.oldStep.Some? && c == DeleteOf(c.oldStep.value) && c.oldStep.value in oldSteps && c.oldStep.value.id !in m
  {
    if oldSteps != [] {
      var init := oldSteps[..|oldSteps| - 1];
      DeletionsMembers(init, m, c);
      assert oldSteps == init + [oldSteps[|oldSteps| - 1]];
    }
  }

  /** The updates are exactly the adds of new steps missing from the map and the edits of modified ones. */
  lemma {:induction false} UpdatesMembers(newSteps: seq<Step>, m: map<string, Step>, c: Change)
    ensures c in Updates(newSteps, m) <==>
      && c.step.Some? && c.step.value in newSteps
      && (if c.step.value.id !in m then c == AddOf(c.step.value)
          else Modified(m[c.step.value.id], c.step.value) && c == EditOf(c.step.value, m[c.step.value.id]))
  {
    if newSteps != [] {
      var init := newSteps[..|newSteps| - 1];
      UpdatesMembers(init, m, c);
      assert newSteps == init + [newSteps[|newSteps| - 1]];
    }
  }

  /** A delete is emitted for `s` exactly when `s` is an old step whose id the new list lacks. */
  lemma DeleteEmittedIff(oldSteps: seq<Step>, newSteps: seq<Step>, s: Step)
    ensures DeleteOf(s) in StepDiff(oldSteps, newSteps) <==> s in oldSteps && s.id !in Ids(newSteps)
  {
    IdMapKeys(newSteps);
    DeletionsMembers(oldSteps, IdMap(newSteps), DeleteOf(s));
    UpdatesMembers(newSteps, IdMap(oldSteps), DeleteOf(s));
  }

  /** An add is emitted for `s` exactly when `s` is a new step whose id the old list lacks. */
  lemma AddEmittedIff(oldSteps: seq<Step>, newSteps: seq<Step>, s: Step)
    ensures AddOf(s) in StepDiff(oldSteps, newSteps) <==> s in newSteps && s.id !in Ids(oldSteps)
  {
    IdMapKeys(oldSteps);
    DeletionsMembers(oldSteps, IdMap(newSteps), AddOf(s));
    UpdatesMembers(newSteps, IdMap(oldSteps), AddOf(s));
  }

  /**
   * An edit from `o` to `n` is emitted exactly when `n` is a new step whose id
   * the old list has, `o` is the (last) old step with that id, and some compared
   * field differs.
   */
  lemma EditEmittedIff(oldSteps: seq<Step>, newSteps: seq<Step>, n: Step, o: Step)
    ensures EditOf(n, o) in StepDiff(oldSteps, newSteps) <==>
      n in newSteps && n.id in IdMap(oldSteps) && o == IdMap(oldSteps)[n.id] && Modified(o, n)
  {
    IdMapKeys(oldSteps);
    DeletionsMembers(oldSteps, IdMap(newSteps), EditOf(n, o));
    UpdatesMembers(newSteps, IdMap(oldSteps), EditOf(n, o));
  }

  /** Every change of the diff is one of the three shapes above. */
  lemma DiffShapes(oldSteps: seq<Step>, newSteps: seq<Step>, c: Change)
    requires c in StepDiff(oldSteps, newSteps)
    ensures || (c.oldStep.Some? && c == DeleteOf(c.oldStep.value))
            || (c.step.Some? && c == AddOf(c.step.value))
            || (c.step.Some? && c.oldStep.Some? && c == EditOf(c.step.value, c.oldStep.value))
  {
    DeletionsMembers(oldSteps, IdMap(newSteps), c);
    UpdatesMembers(newSteps, IdMap(oldSteps), c);
  }

  /** All deletes come before every add and edit. */
  lemma DeletesComeFirst(oldSteps: seq<Step>, newSteps: seq<Step>, i: nat, j: nat)
    requires i < j < |StepDiff(oldSteps, newSteps)|
    requires StepDiff(oldSteps, newSteps)[j].kind == Delete
    ensures StepDiff(oldSteps, newSteps)[i].kind == Delete
  {
    var d := StepDiff(oldSteps, newSteps);
    var dels := Deletions(oldSteps, IdMap(newSteps));
    var ups := Updates(newSteps, IdMap(oldSteps));
    if j >= |dels| {
      assert d[j] == ups[j - |dels|];
      UpdatesMembers(newSteps, IdMap(oldSteps), d[j]);
      assert false;
    }
    assert d[i] == dels[i];
    DeletionsMembers(oldSteps, IdMap(newSteps), d[i]);
  }

  /** The updates of a list against a map that already files each of its steps under its id are empty. */
  lemma {:induction false} UpdatesAgainstSelf(steps: seq<Step>, m: map<string, Step>)
    requires forall i :: 0 <= i < |steps| ==> steps[i].id in m && m[steps[i].id] == steps[i]
    ensures Updates(steps, m) == []
  {
    if steps != [] {
      UpdatesAgainstSelf(steps[..|steps| - 1], m);
    }
  }

  /** Diffing a list with unique ids against itself yields no change. */
  lemma NoOpDiff(steps: seq<Step>)
    requires UniqueIds(steps)
    ensures StepDiff(steps, steps) == []
  {
    IdMapKeys(steps);
    forall i | 0 <= i < |steps| ensures steps[i].id in IdMap(steps) && IdMap(steps)[steps[i].id] == steps[i] {
      IdMapLastWins(steps, i);
    }
    UpdatesAgainstSelf(steps, IdMap(steps));
    if Deletions(steps, IdMap(steps)) != [] {
      var c := Deletions(steps, IdMap(steps))[0];
      DeletionsMembers(steps, IdMap(steps), c);
      assert false;
    }
  }

  /**
   * Without unique ids the no-op property fails: two different steps sharing an
   * id are diffed against the map entry of the later one.
   */
  lemma DuplicateIdsBreakNoOpDiff()
    ensures var s := [Step("a", 1, "x", None, None, None, None), Step("a", 2, "y", None, None, None, None)];
            StepDiff(s, s) != []
  {
    var s := [Step("a", 1, "x", None, None, None, None), Step("a", 2, "y", None, None, None, None)];
    var m := IdMap(s);
    assert m["a"] == s[1];
    assert s[..1] == [s[0]];
    assert Updates(s[..1], m) == [EditOf(s[0], s[1])];
  }

  /** A missing reagent or equipment list compares equal to an empty one. */
  lemma MissingListsCountAsEmpty(s: Step)
    ensures !Modified(s.(reagents := None, equipment := None), s.(reagents := Some([]), equipment := Some([])))
  {
  }

  /** A change of `order` alone is an edit. */
  lemma OrderOnlyChangeIsAnEdit(s: Step, order: int)
    requires order != s.order
    ensures Modified(s, s.(order := order))
  {
  }

  // ---------------------------------------------------------------------------
  // Worked scenarios
  // ---------------------------------------------------------------------------

  function Plain(id: string, order: int, title: string): Step {
    Step(id, order, title, None, None, None, None)
  }

  /**
   * Editing the title of step s1 and appending step s2: the diff is an edit of
   * s1 followed by an add of s2, and applying it to the old list gives the new one.
   */
  lemma EditThenAddScenario()
    ensures var oldSteps := [Plain("s1", 1, "Mix")];
            var newSteps := [Plain("s1", 1, "Mix well"), Plain("s2", 2, "Incubate")];
            && StepDiff(oldSteps, newSteps) == [EditOf(newSteps[0], oldSteps[0]), AddOf(newSteps[1])]
            && Patched(oldSteps, StepDiff(oldSteps, newSteps)) == newSteps
  {
    var oldSteps := [Plain("s1", 1, "Mix")];
    var newSteps := [Plain("s1", 1, "Mix well"), Plain("s2", 2, "Incubate")];
    var diff := [EditOf(newSteps[0], oldSteps[0]), AddOf(newSteps[1])];
    EditThenAddDiff(oldSteps, newSteps);
    EditThenAddApply(oldSteps, newSteps, diff);
  }

  lemma EditThenAddDiff(oldSteps: seq<Step>, newSteps: seq<Step>)
    requires oldSteps == [Plain("s1", 1, "Mix")]
    requires newSteps == [Plain("s1", 1, "Mix well"), Plain("s2", 2, "Incubate")]
    ensures StepDiff(oldSteps, newSteps) == [EditOf(newSteps[0], oldSteps[0]), AddOf(newSteps[1])]
  {
    var oldMap := IdMap(oldSteps);
    var newMap := IdMap(newSteps);
    assert oldSteps[..0] == [] && newSteps[..1] == [newSteps[0]] && newSteps[..1][..0] == [];
    assert IdMap(oldSteps[..0]) == map[];
    assert oldMap == map["s1" := oldSteps[0]];
    assert IdMap(newSteps[..1]) == map["s1" := newSteps[0]];
    assert newMap == map["s1" := newSteps[0], "s2" := newSteps[1]];
    assert Deletions(oldSteps, newMap) == [];
    assert Updates(newSteps[..1], oldMap) == [EditOf(newSteps[0], oldSteps[0])];
  }

  lemma EditThenAddApply(oldSteps: seq<Step>, newSteps: seq<Step>, diff: seq<Change>)
    requires oldSteps == [Plain("s1", 1, "Mix")]
    requires newSteps == [Plain("s1", 1, "Mix well"), Plain("s2", 2, "Incubate")]
    requires diff == [EditOf(newSteps[0], oldSteps[0]), AddOf(newSteps[1])]
    ensures Patched(oldSteps, diff) == newSteps
  {
    assert SortByAnchor(diff) == diff by {
      assert diff[1..] == [diff[1]];
      assert SortByAnchor(diff[1..]) == [diff[1]] by { assert diff[1..][1..] == []; }
    }
    assert FindIndex(oldSteps, HasId("s1")) == 0;
    var afterEdit := ApplyChange(oldSteps, diff[0]);
    assert afterEdit == [newSteps[0]];
    assert diff[..1] == [diff[0]] && diff[..1][..0] == [];
    assert ApplyAll(oldSteps, diff[..1]) == afterEdit;
    assert FindIndex(afterEdit, OrderAtLeast(2)) == -1;
    assert ApplyAll(oldSteps, diff) == newSteps;
  }

  /**
   * Applying the diff does not reproduce a reordering: swapping two steps diffs
   * to two order-only edits, and each edit replaces its step in place, so the
   * steps come out in the old order.
   */
  lemma SwapDoesNotRoundTrip()
    ensures var oldSteps := [Plain("a", 1, "A"), Plain("b", 2, "B")];
            var newSteps := [Plain("b", 1, "B"), Plain("a", 2, "A")];
            var result := Patched(oldSteps, StepDiff(oldSteps, newSteps));
            |result| == 2 && result[0].id == "a" && result[1].id == "b" && newSteps[0].id == "b"
  {
    var oldSteps := [Plain("a", 1, "A"), Plain("b", 2, "B")];
    var newSteps := [Plain("b", 1, "B"), Plain("a", 2, "A")];
    var diff := [EditOf(newSteps[0], oldSteps[1]), EditOf(newSteps[1], oldSteps[0])];
    SwapDiff(oldSteps, newSteps);
    assert SortByAnchor(diff) == diff by {
      assert diff[1..] == [diff[1]];
      assert SortByAnchor(diff[1..]) == [diff[1]] by { assert diff[1..][1..] == []; }
    }
    SwapApply(oldSteps, newSteps, diff);
  }

  lemma SwapDiff(oldSteps: seq<Step>, newSteps: seq<Step>)
    requires oldSteps == [Plain("a", 1, "A"), Plain("b", 2, "B")]
    requires newSteps == [Plain("b", 1, "B"), Plain("a", 2, "A")]
    ensures StepDiff(oldSteps, newSteps) == [EditOf(newSteps[0], oldSteps[1]), EditOf(newSteps[1], oldSteps[0])]
  {
    var oldMap := IdMap(oldSteps);
    var newMap := IdMap(newSteps);
    assert oldSteps[..1] == [oldSteps[0]] && oldSteps[..1][..0] == [];
    assert newSteps[..1] == [newSteps[0]] && newSteps[..1][..0] == [];
    assert IdMap(oldSteps[..1]) == map["a" := oldSteps[0]];
    assert oldMap == map["a" := oldSteps[0], "b" := oldSteps[1]];
    assert IdMap(newSteps[..1]) == map["b" := newSteps[0]];
    assert newMap == map["b" := newSteps[0], "a" := newSteps[1]];
    assert Deletions(oldSteps[..1], newMap) == [];
    assert Deletions(oldSteps, newMap) == [];
    assert Updates(newSteps[..1], oldMap) == [EditOf(newSteps[0], oldSteps[1])];
  }

  lemma SwapApply(oldSteps: seq<Step>, newSteps: seq<Step>, diff: seq<Change>)
    requires oldSteps == [Plain("a", 1, "A"), Plain("b", 2, "B")]
    requires newSteps == [Plain("b", 1, "B"), Plain("a", 2, "A")]
    requires diff == [EditOf(newSteps[0], oldSteps[1]), EditOf(newSteps[1], oldSteps[0])]
    ensures ApplyAll(oldSteps, diff) == [newSteps[1], newSteps[0]]
  {
    assert FindIndex(oldSteps, HasId("b")) == 1 by {
      assert oldSteps[1..] == [oldSteps[1]];
    }
    var afterFirst := [oldSteps[0], newSteps[0]];
    assert ApplyAll(oldSteps, diff[..1]) == afterFirst by {
      assert diff[..1] == [diff[0]] && diff[..1][..0] == [];
    }
    assert FindIndex(afterFirst, HasId("a")) == 0;
  }
}
