/** The protocol step record shared by every part of the change engine. */
module Steps {
  import opened Wrappers

  /**
   * One step of a protocol. `reagents`, `timing`, `equipment` and `notes` are
   * optional in the record; `order` is the step's 1-based position once a list
   * has been renumbered.
   */
  datatype Step = Step(
    id: string,
    order: int,
    title: string,
    reagents: Option<seq<string>>,
    timing: Option<string>,
    equipment: Option<seq<string>>,
    notes: Option<string>)
  {
    /** The reagent list, a missing one read as empty (`reagents || []`). */
    function ReagentList(): seq<string> {
      reagents.GetOr([])
    }

    /** The equipment list, a missing one read as empty (`equipment || []`). */
    function EquipmentList(): seq<string> {
      equipment.GetOr([])
    }
  }

  /** Two steps agree on every field except `order`. */
  predicate SameContent(a: Step, b: Step) {
    a.(order := 0) == b.(order := 0)
  }

  /** The set of ids occurring in a step list. */
  function Ids(steps: seq<Step>): (r: set<string>)
    ensures forall i :: 0 <= i < |steps| ==> steps[i].id in r
    ensures forall id :: id in r ==> exists i :: 0 <= i < |steps| && steps[i].id == id
  {
    set i | 0 <= i < |steps| :: steps[i].id
  }

  /** No two steps of the list share an id. */
  predicate UniqueIds(steps: seq<Step>) {
    forall i, j :: 0 <= i < j < |steps| ==> steps[i].id != steps[j].id
  }
}
