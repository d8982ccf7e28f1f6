/**
 * The rule-based paths of the protocol ML server: the fallback line parser
 * that turns free text into steps, the per-step missing-parameter detector,
 * the fallback autocomplete suggestion, and the extraction of a JSON payload
 * from a fenced model reply.
 */
module MlFallback {
  import opened Wrappers
  import opened Steps
  import Text

  // ---------------------------------------------------------------------------
  // Fallback standardisation
  // ---------------------------------------------------------------------------

  /** A trimmed line opens a new step when its lower-cased form mentions one of the three words. */
  predicate IsHeader(line: string) {
    var lower := Text.ToLower(line);
    Text.Contains(lower, "step") || Text.Contains(lower, "procedure") || Text.Contains(lower, "method")
  }

  /** The step opened by header `line` as the n-th step. */
  function NewStep(n: nat, line: string): Step {
    Step("step-" + Text.NatToString(n), n, line, Some([]), Some(""), Some([]), Some(""))
  }

  /** A continuation line is added to the open step's notes after a space. */
  function AppendNote(s: Step, line: string): Step {
    s.(notes := Some(s.notes.GetOr("") + " " + line))
  }

  /** The parser's state: the finished steps and the step still collecting notes. */
  datatype ParseState = ParseState(done: seq<Step>, current: Option<Step>)

  /** The finished steps followed by the open one, if any. */
  function Flush(st: ParseState): seq<Step> {
    st.done + (if st.current.Some? then [st.current.value] else [])
  }

  /** One line of input: blank lines are skipped, a header opens a step, any other line extends the open step's notes. */
  function ScanLine(st: ParseState, raw: string): ParseState {
    var line := Text.Trim(raw);
    if line == "" then st
    else if IsHeader(line) then
      var done := Flush(st);
      ParseState(done, Some(NewStep(|done| + 1, line)))
    else if st.current.Some? then ParseState(st.done, Some(AppendNote(st.current.value, line)))
    else st
  }

  function Scan(lines: seq<string>): ParseState {
    if lines == [] then ParseState([], None)
    else ScanLine(Scan(lines[..|lines| - 1]), lines[|lines| - 1])
  }

  /** The steps the fallback parser extracts from `text`. */
  function Standardize(text: string): seq<Step> {
    Flush(Scan(Text.SplitOn(text, "\n")))
  }

  /** The extracted protocol: a fixed title, an empty description and the parsed steps. */
  datatype ExtractedProtocol = ExtractedProtocol(title: string, description: string, steps: seq<Step>)

  /** Splits the text into lines and scans them, keeping the open step aside until the next header. */
  method FallbackStandardize(text: string) returns (p: ExtractedProtocol)
    ensures p.title == "Extracted Protocol" && p.description == ""
    ensures p.steps == Standardize(text)
  {
    var lines := Text.SplitOn(text, "\n");
    var steps: seq<Step> := [];
    var current: Option<Step> := None;
    for k := 0 to |lines|
      invariant Scan(lines[..k]) == ParseState(steps, current)
    {
      assert lines[..k + 1][..k] == lines[..k];
      assert Scan(lines[..k + 1]) == ScanLine(ParseState(steps, current), lines[k]);
      var line := Text.Trim(lines[k]);
      if line != "" {
        if IsHeader(line) {
          if current.Some? {
            steps := steps + [current.value];
          }
          current := Some(NewStep(|steps| + 1, line));
        } else if current.Some? {
          current := Some(current.value.(notes := Some(current.value.notes.GetOr("") + " " + line)));
        }
      }
    }
    assert lines[..|lines|] == lines;
    if current.Some? {
      steps := steps + [current.value];
    }
    return ExtractedProtocol("Extracted Protocol", "", steps);
  }

  /** The trimmed, non-blank header lines, in order. */
  function Headers(lines: seq<string>): seq<string> {
    if lines == [] then []
    else
      var line := Text.Trim(lines[|lines| - 1]);
      Headers(lines[..|lines| - 1]) + (if line != "" && IsHeader(line) then [line] else [])
  }

  /** Step n carries id `step-n`, order n, empty reagent and equipment lists and an empty timing. */
  predicate NumberedAs(s: Step, n: nat) {
    && s.id == "step-" + Text.NatToString(n) && s.order == n
    && s.reagents == Some([]) && s.timing == Some("") && s.equipment == Some([]) && s.notes.Some?
  }

  predicate WellNumbered(st: ParseState) {
    && (forall k :: 0 <= k < |st.done| ==> NumberedAs(st.done[k], k + 1))
    && (st.current.Some? ==> NumberedAs(st.current.value, |st.done| + 1))
  }

  /** Scanning keeps the steps numbered consecutively from 1 and yields one step per header line, titled by it. */
  lemma ScanInvariant(lines: seq<string>)
    ensures WellNumbered(Scan(lines))
    ensures |Flush(Scan(lines))| == |Headers(lines)|
    ensures forall k :: 0 <= k < |Headers(lines)| ==> Flush(Scan(lines))[k].title == Headers(lines)[k]
    ensures Scan(lines).current.None? <==> Headers(lines) == []
  {
    ScanNumbered(lines);
    ScanTitles(lines);
  }

  /** Scanning keeps the finished steps and the open one numbered consecutively from 1. */
  lemma {:induction false} ScanNumbered(lines: seq<string>)
    ensures WellNumbered(Scan(lines))
  {
    if lines != [] {
      var init := lines[..|lines| - 1];
      ScanNumbered(init);
      var st := Scan(init);
      var line := Text.Trim(lines[|lines| - 1]);
      assert Scan(lines) == ScanLine(st, lines[|lines| - 1]);
      if line != "" && IsHeader(line) {
        var done := Flush(st);
        assert forall k :: 0 <= k < |done| ==> NumberedAs(done[k], k + 1);
        assert Scan(lines) == ParseState(done, Some(NewStep(|done| + 1, line)));
      } else if line != "" && st.current.Some? {
        assert NumberedAs(AppendNote(st.current.value, line), |st.done| + 1);
        assert Scan(lines) == ParseState(st.done, Some(AppendNote(st.current.value, line)));
      } else {
        assert Scan(lines) == st;
      }
    }
  }

  /** Scanning yields one step per header line, titled by it, and leaves a step open once a header was seen. */
  lemma {:induction false} ScanTitles(lines: seq<string>)
    ensures |Flush(Scan(lines))| == |Headers(lines)|
    ensures forall k :: 0 <= k < |Headers(lines)| ==> Flush(Scan(lines))[k].title == Headers(lines)[k]
    ensures Scan(lines).current.None? <==> Headers(lines) == []
  {
    if lines != [] {
      var init := lines[..|lines| - 1];
      ScanTitles(init);
      var st := Scan(init);
      var line := Text.Trim(lines[|lines| - 1]);
      assert Scan(lines) == ScanLine(st, lines[|lines| - 1]);
      if line != "" && IsHeader(line) {
        var done := Flush(st);
        assert Headers(lines) == Headers(init) + [line];
        assert Flush(Scan(lines)) == done + [NewStep(|done| + 1, line)];
        forall k | 0 <= k < |Headers(lines)| ensures Flush(Scan(lines))[k].title == Headers(lines)[k] {
          if k < |Headers(init)| {
            assert Flush(Scan(lines))[k] == done[k];
          }
        }
      } else {
        assert Headers(lines) == Headers(init);
        if line != "" && st.current.Some? {
          assert Scan(lines) == ParseState(st.done, Some(AppendNote(st.current.value, line)));
          assert Flush(Scan(lines))[..|st.done|] == Flush(st)[..|st.done|];
        } else {
          assert Scan(lines) == st;
        }
      }
    }
  }

  /** The parser emits exactly one step per header line, titled by that line, in order. */
  lemma OneStepPerHeader(text: string)
    ensures var lines := Text.SplitOn(text, "\n");
      && |Standardize(text)| == |Headers(lines)|
      && forall k :: 0 <= k < |Standardize(text)| ==> Standardize(text)[k].title == Headers(lines)[k]
  {
    ScanInvariant(Text.SplitOn(text, "\n"));
  }

  /** The emitted steps are `step-1` … `step-k` with orders 1 … k, no reagents, no equipment and no timing. */
  lemma ConsecutiveIds(text: string)
    ensures forall k :: 0 <= k < |Standardize(text)| ==> NumberedAs(Standardize(text)[k], k + 1)
  {
    ScanInvariant(Text.SplitOn(text, "\n"));
  }

  /** What the non-header lines of `lines` add to a step's notes: a space and the trimmed line each. */
  function NotesOf(lines: seq<string>): string {
    if lines == [] then ""
    else
      var line := Text.Trim(lines[|lines| - 1]);
      NotesOf(lines[..|lines| - 1]) + (if line == "" then "" else " " + line)
  }

  predicate NoHeaders(lines: seq<string>) {
    forall k :: 0 <= k < |lines| ==> !IsHeader(Text.Trim(lines[k]))
  }

  /**
   * Lines without a header extend the open step's notes, each as a space and the
   * trimmed line; blank lines add nothing, and with no open step the lines are dropped.
   */
  lemma {:induction false} NotesAccumulate(lines: seq<string>, rest: seq<string>)
    requires NoHeaders(rest)
    ensures var st := Scan(lines);
      Scan(lines + rest) ==
        if st.current.Some? then
          ParseState(st.done, Some(st.current.value.(notes := Some(st.current.value.notes.GetOr("") + NotesOf(rest)))))
        else st
  {
    if rest == [] {
      assert lines + rest == lines;
      ScanInvariant(lines);
      var st := Scan(lines);
      if st.current.Some? {
        var c := st.current.value;
        assert c.notes.GetOr("") + NotesOf(rest) == c.notes.value;
        assert c.(notes := Some(c.notes.value)) == c;
      }
    } else {
      var init := rest[..|rest| - 1];
      assert (lines + rest)[..|lines + rest| - 1] == lines + init;
      assert NoHeaders(init) by {
        forall k | 0 <= k < |init| ensures !IsHeader(Text.Trim(init[k])) {
          assert init[k] == rest[k];
        }
      }
      NotesAccumulate(lines, init);
      var last := rest[|rest| - 1];
      assert !IsHeader(Text.Trim(last));
      assert rest[..|rest| - 1] == init;
      var st := Scan(lines);
      if st.current.Some? {
        var c := st.current.value;
        var line := Text.Trim(last);
        assert NotesOf(rest) == NotesOf(init) + (if line == "" then "" else " " + line);
        var mid := c.(notes := Some(c.notes.GetOr("") + NotesOf(init)));
        assert Scan(lines + rest) == ScanLine(ParseState(st.done, Some(mid)), last);
        if line != "" {
          assert c.notes.GetOr("") + NotesOf(init) + " " + line == c.notes.GetOr("") + NotesOf(rest);
          assert AppendNote(mid, line) == c.(notes := Some(c.notes.GetOr("") + NotesOf(rest)));
        } else {
          assert NotesOf(rest) == NotesOf(init);
        }
      } else {
        assert Scan(lines + rest) == ScanLine(st, last);
      }
    }
  }

  // ---------------------------------------------------------------------------
  // Missing-parameter detection
  // ---------------------------------------------------------------------------

  /** The four fields the detector inspects; None when the key is absent or null. */
  datatype StepFields = StepFields(
    title: Option<string>,
    reagents: Option<seq<string>>,
    timing: Option<string>,
    equipment: Option<seq<string>>)

  /** A text field is missing when it is absent, empty or whitespace alone. */
  predicate TextMissing(o: Option<string>) {
    o.None? || o.value == "" || Text.Trim(o.value) == ""
  }

  /** A list field is missing when it is absent or empty. */
  predicate ListMissing(o: Option<seq<string>>) {
    o.None? || |o.value| == 0
  }

  /** The inspected fields, in the order the detector checks them. */
  datatype Field = Title | Reagents | Timing | Equipment {
    function Rank(): nat {
      match this
      case Title => 0
      case Reagents => 1
      case Timing => 2
      case Equipment => 3
    }

    function Name(): string {
      match this
      case Title => "title"
      case Reagents => "reagents"
      case Timing => "timing"
      case Equipment => "equipment"
    }
  }

  /** The fields whose flag is set, in the order title, reagents, timing, equipment. */
  function Flagged(title: bool, reagents: bool, timing: bool, equipment: bool): seq<Field> {
    (if title then [Title] else [])
    + (if reagents then [Reagents] else [])
    + (if timing then [Timing] else [])
    + (if equipment then [Equipment] else [])
  }

  /** A step's missing fields. */
  function MissingFields(s: StepFields): seq<Field> {
    Flagged(TextMissing(s.title), ListMissing(s.reagents), TextMissing(s.timing), ListMissing(s.equipment))
  }

  /** Each field is listed exactly when its flag is set, in rank order. */
  lemma FlaggedInOrder(title: bool, reagents: bool, timing: bool, equipment: bool)
    ensures var r := Flagged(title, reagents, timing, equipment);
      && (Title in r <==> title) && (Reagents in r <==> reagents)
      && (Timing in r <==> timing) && (Equipment in r <==> equipment)
      && Ascending(r)
  {
    var t: seq<Field> := if title then [Title] else [];
    var tr := AddAbove(t, Reagents, reagents);
    var trt := AddAbove(tr, Timing, timing);
    var r := AddAbove(trt, Equipment, equipment);
    assert r == Flagged(title, reagents, timing, equipment);
  }

  /** Each field is listed exactly when it is missing, and the list follows the order title, reagents, timing, equipment. */
  lemma MissingFieldsInOrder(s: StepFields)
    ensures var r := MissingFields(s);
      && (Title in r <==> TextMissing(s.title))
      && (Reagents in r <==> ListMissing(s.reagents))
      && (Timing in r <==> TextMissing(s.timing))
      && (Equipment in r <==> ListMissing(s.equipment))
      && Ascending(r)
  {
    FlaggedInOrder(TextMissing(s.title), ListMissing(s.reagents), TextMissing(s.timing), ListMissing(s.equipment));
  }

  /** Each field ranks strictly above every field before it. */
  predicate Ascending(r: seq<Field>) {
    forall i, j :: 0 <= i < j < |r| ==> r[i].Rank() < r[j].Rank()
  }

  /** Appending, when `present` holds, a field that outranks every listed field keeps the list ascending. */
  lemma AddAbove(r: seq<Field>, f: Field, present: bool) returns (r': seq<Field>)
    requires Ascending(r) && forall x :: x in r ==> x.Rank() < f.Rank()
    ensures r' == r + (if present then [f] else [])
    ensures Ascending(r')
    ensures forall x :: x in r' <==> x in r || (present && x == f)
  {
    r' := r + (if present then [f] else []);
    if present {
      forall i, j | 0 <= i < j < |r'| ensures r'[i].Rank() < r'[j].Rank() {
        assert r'[i] in r;
      }
    } else {
      assert r' == r;
    }
  }

  function Names(fs: seq<Field>): (r: seq<string>)
    ensures |r| == |fs| && forall k :: 0 <= k < |fs| ==> r[k] == fs[k].Name()
  {
    if fs == [] then [] else [fs[0].Name()] + Names(fs[1..])
  }

  /** The hints offered for one step; a missing title gets none. */
  datatype StepHints = StepHints(reagents: Option<seq<string>>, timing: Option<string>, equipment: Option<seq<string>>)

  function Hints(s: StepFields): StepHints {
    StepHints(
      if ListMissing(s.reagents) then Some(["Consider adding required reagents"]) else None,
      if TextMissing(s.timing) then Some("Consider adding timing/duration") else None,
      if ListMissing(s.equipment) then Some(["Consider adding required equipment"]) else None)
  }

  /** The key under which the hints of the step at index i are reported (numbered from 1). */
  function StepKey(i: nat): string {
    "step_" + Text.NatToString(i + 1)
  }

  /** The report line of the step at index i. */
  function Entry(i: nat, s: StepFields): string {
    "Step " + Text.NatToString(i + 1) + ": " + Text.Join(Names(MissingFields(s)), ", ")
  }

  function MissingReport(steps: seq<StepFields>): seq<string> {
    if steps == [] then []
    else
      var n := |steps| - 1;
      MissingReport(steps[..n]) + (if MissingFields(steps[n]) != [] then [Entry(n, steps[n])] else [])
  }

  /** Whether each step has at least one missing field. */
  function Marks(steps: seq<StepFields>): (m: seq<bool>)
    ensures |m| == |steps| && forall i :: 0 <= i < |steps| ==> m[i] == (MissingFields(steps[i]) != [])
  {
    seq(|steps|, i requires 0 <= i < |steps| => MissingFields(steps[i]) != [])
  }

  /** The positions holding true, ascending. */
  function TrueIndices(m: seq<bool>): (r: seq<nat>)
    ensures forall k :: 0 <= k < |r| ==> r[k] < |m| && m[r[k]]
    ensures forall i :: 0 <= i < |m| && m[i] ==> i in r
    ensures forall k, l :: 0 <= k < l < |r| ==> r[k] < r[l]
  {
    if m == [] then []
    else
      var n := |m| - 1;
      TrueIndices(m[..n]) + (if m[n] then [n] else [])
  }

  /** The report holds one line per step with a missing field, in step order, and nothing else. */
  lemma {:induction false} ReportFollowsFlagged(steps: seq<StepFields>)
    ensures var flagged := TrueIndices(Marks(steps));
      && |MissingReport(steps)| == |flagged|
      && forall k :: 0 <= k < |flagged| ==> MissingReport(steps)[k] == Entry(flagged[k], steps[flagged[k]])
  {
    if steps != [] {
      var n := |steps| - 1;
      var init := steps[..n];
      ReportFollowsFlagged(init);
      var m := Marks(steps);
      assert m[..n] == Marks(init);
      var flaggedInit := TrueIndices(Marks(init));
      var flagged := TrueIndices(m);
      assert flagged == flaggedInit + (if m[n] then [n] else []);
      var report := MissingReport(steps);
      assert report == MissingReport(init) + (if m[n] then [Entry(n, steps[n])] else []);
      forall k | 0 <= k < |flagged| ensures report[k] == Entry(flagged[k], steps[flagged[k]]) {
        if k < |flaggedInit| {
          assert report[k] == MissingReport(init)[k];
          assert flagged[k] == flaggedInit[k];
          assert init[flaggedInit[k]] == steps[flaggedInit[k]];
        }
      }
    }
  }

  /** How complete the steps are: filled fields out of four per step; 1.0 when there are no steps. */
  datatype Completeness = Ratio(filled: nat, total: nat) | Complete

  /** A field counts as filled when it is a non-empty string or a non-empty list. */
  function Filled(s: StepFields): nat {
    (if s.title.Some? && s.title.value != "" then 1 else 0)
    + (if s.reagents.Some? && |s.reagents.value| > 0 then 1 else 0)
    + (if s.timing.Some? && s.timing.value != "" then 1 else 0)
    + (if s.equipment.Some? && |s.equipment.value| > 0 then 1 else 0)
  }

  function FilledCount(steps: seq<StepFields>): nat {
    if steps == [] then 0 else Filled(steps[0]) + FilledCount(steps[1..])
  }

  function CompletenessOf(steps: seq<StepFields>): Completeness {
    var total := |steps| * 4;
    if total > 0 then Ratio(FilledCount(steps), total) else Complete
  }

  /** The hints of every step with a missing field, keyed by the step's number. */
  function SuggestionMap(steps: seq<StepFields>): map<string, StepHints> {
    if steps == [] then map[]
    else
      var n := |steps| - 1;
      var init := SuggestionMap(steps[..n]);
      if MissingFields(steps[n]) != [] then init[StepKey(n) := Hints(steps[n])] else init
  }

  /** Every key names a step. */
  lemma {:induction false} SuggestionKeysNameSteps(steps: seq<StepFields>)
    ensures forall key :: key in SuggestionMap(steps) ==> exists i :: 0 <= i < |steps| && key == StepKey(i)
  {
    if steps != [] {
      SuggestionKeysNameSteps(steps[..|steps| - 1]);
    }
  }

  /** Step i has an entry exactly when one of its fields is missing, and the entry holds its hints. */
  lemma {:induction false} SuggestionAt(steps: seq<StepFields>, i: nat)
    requires i < |steps|
    ensures StepKey(i) in SuggestionMap(steps) <==> MissingFields(steps[i]) != []
    ensures StepKey(i) in SuggestionMap(steps) ==> SuggestionMap(steps)[StepKey(i)] == Hints(steps[i])
  {
    var n := |steps| - 1;
    if i < n {
      SuggestionAt(steps[..n], i);
      KeysDistinct(i, n);
      assert steps[..n][i] == steps[i];
    } else {
      SuggestionKeysNameSteps(steps[..n]);
      if StepKey(n) in SuggestionMap(steps[..n]) {
        var j :| 0 <= j < n && StepKey(n) == StepKey(j);
        KeysDistinct(j, n);
      }
    }
  }

  /**
   * Walks the steps once, listing each step's missing fields and collecting
   * the hints for every step that has any.
   */
  method DetectMissing(steps: seq<StepFields>) returns (missing: seq<string>, suggestions: map<string, StepHints>,
                                                       score: Completeness)
    ensures missing == MissingReport(steps)
    ensures suggestions == SuggestionMap(steps)
    ensures forall i :: 0 <= i < |steps| ==> (StepKey(i) in suggestions <==> MissingFields(steps[i]) != [])
    ensures forall i :: 0 <= i < |steps| && StepKey(i) in suggestions ==> suggestions[StepKey(i)] == Hints(steps[i])
    ensures forall key :: key in suggestions ==> exists i :: 0 <= i < |steps| && key == StepKey(i)
    ensures score == CompletenessOf(steps)
  {
    missing := [];
    suggestions := map[];
    for k := 0 to |steps|
      invariant missing == MissingReport(steps[..k])
      invariant suggestions == SuggestionMap(steps[..k])
    {
      assert steps[..k + 1][..k] == steps[..k];
      var stepMissing := MissingFields(steps[k]);
      if stepMissing != [] {
        missing := missing + [Entry(k, steps[k])];
        suggestions := suggestions[StepKey(k) := Hints(steps[k])];
      }
    }
    assert steps[..|steps|] == steps;
    forall i | 0 <= i < |steps|
      ensures StepKey(i) in suggestions <==> MissingFields(steps[i]) != []
      ensures StepKey(i) in suggestions ==> suggestions[StepKey(i)] == Hints(steps[i])
    {
      SuggestionAt(steps, i);
    }
    SuggestionKeysNameSteps(steps);
    score := CompletenessOf(steps);
  }

  /** Different steps are reported under different keys. */
  lemma KeysDistinct(i: nat, j: nat)
    requires i != j
    ensures StepKey(i) != StepKey(j)
  {
    Text.NatToStringInjective(i + 1, j + 1);
    assert StepKey(i)[5..] == Text.NatToString(i + 1);
    assert StepKey(j)[5..] == Text.NatToString(j + 1);
  }

  /** Each step fills at most four fields, so the filled count never exceeds the total. */
  lemma {:induction false} FilledWithinTotal(steps: seq<StepFields>)
    ensures FilledCount(steps) <= 4 * |steps|
    ensures CompletenessOf(steps).Ratio? ==> CompletenessOf(steps).filled <= CompletenessOf(steps).total
  {
    if steps != [] {
      FilledWithinTotal(steps[1..]);
    }
  }

  /** No steps at all is reported as complete. */
  lemma NoStepsIsComplete()
    ensures CompletenessOf([]) == Complete
  {
  }

  /** A whitespace-only title or timing is reported missing yet counted as filled. */
  lemma BlankTextMissingButFilled(s: StepFields)
    ensures BlankText(s.title) ==> Title in MissingFields(s) && Filled(s) >= 1
    ensures BlankText(s.timing) ==> Timing in MissingFields(s) && Filled(s) >= 1
    ensures BlankText(s.title) && BlankText(s.timing) ==> Filled(s) >= 2
  {
    if s.title.Some? {
      Text.TrimEmptyIff(s.title.value);
    }
    if s.timing.Some? {
      Text.TrimEmptyIff(s.timing.value);
    }
    MissingFieldsInOrder(s);
  }

  /** A present, non-empty text made of whitespace alone. */
  predicate BlankText(o: Option<string>) {
    o.Some? && o.value != "" && forall i :: 0 <= i < |o.value| ==> Text.IsSpace(o.value[i])
  }

  // ---------------------------------------------------------------------------
  // Fallback autocomplete
  // ---------------------------------------------------------------------------

  datatype Suggestion = Suggestion(title: string, reagents: seq<string>, timing: string, equipment: seq<string>, notes: string)

  function GenericSuggestions(): seq<Suggestion> {
    [ Suggestion("Document Results", [], "", [], "Record observations and results"),
      Suggestion("Clean Up", [], "", [], "Clean and store equipment") ]
  }

  /** The first generic suggestion, whatever the current steps are. */
  function FallbackAutocomplete(currentSteps: seq<StepFields>): (r: seq<Suggestion>)
    ensures |r| == 1
    ensures r[0].title == "Document Results" && r[0].notes == "Record observations and results"
    ensures r[0].reagents == [] && r[0].equipment == [] && r[0].timing == ""
  {
    GenericSuggestions()[..1]
  }

  /** The fallback suggestion does not depend on its input. */
  lemma AutocompleteIgnoresSteps(a: seq<StepFields>, b: seq<StepFields>)
    ensures FallbackAutocomplete(a) == FallbackAutocomplete(b)
  {
  }

  // ---------------------------------------------------------------------------
  // Fenced JSON extraction
  // ---------------------------------------------------------------------------

  /** Splitting on a separator that occurs yields the text before it, then the pieces of the rest. */
  lemma SplitAtFirst(s: string, sep: string)
    requires sep != []
    ensures Text.Find(s, sep) == -1 ==> Text.SplitOn(s, sep) == [s]
    ensures Text.Find(s, sep) != -1 ==>
      var p := Text.Find(s, sep);
      && |Text.SplitOn(s, sep)| >= 2
      && Text.SplitOn(s, sep)[0] == s[..p]
      && Text.SplitOn(s, sep)[1] == Text.SplitOn(s[p + |sep|..], sep)[0]
  {
  }

  /** The part of `s` after the first `w` (which must occur). */
  function After(s: string, w: string): string
    requires Text.Contains(s, w)
  {
    s[Text.Find(s, w) + |w|..]
  }

  /** The part of `s` before the first `w`, or all of `s`. */
  function Before(s: string, w: string): string {
    var p := Text.Find(s, w);
    if p == -1 then s else s[..p]
  }

  /** A split on a separator that occurs has at least two pieces. */
  lemma SplitOnFound(s: string, sep: string)
    requires sep != [] && Text.Contains(s, sep)
    ensures |Text.SplitOn(s, sep)| >= 2
  {
    SplitAtFirst(s, sep);
  }

  /** The text following the opening fence, up to the next occurrence of the opening fence. */
  function OpenedPiece(content: string, open: string): string
    requires open != [] && Text.Contains(content, open)
  {
    SplitOnFound(content, open);
    Text.SplitOn(content, open)[1]
  }

  /** The payload of a model reply: the fenced block when there is one, the reply itself otherwise. */
  function ExtractJson(content: string): string {
    if Text.Contains(content, "```json") then Text.Trim(Text.SplitOn(OpenedPiece(content, "```json"), "```")[0])
    else if Text.Contains(content, "```") then Text.Trim(Text.SplitOn(OpenedPiece(content, "```"), "```")[0])
    else content
  }

  /** A ```json fence contains a plain fence. */
  lemma JsonFenceIsFence(s: string)
    ensures Text.Contains(s, "```json") ==> Text.Contains(s, "```")
  {
    Text.ContainsIff(s, "```json");
    Text.ContainsIff(s, "```");
    if Text.Contains(s, "```json") {
      var i := Text.Find(s, "```json");
      assert s[i..i + 3] == s[i..i + 7][..3];
      assert Text.OccursAt(s, "```", i);
    }
  }

  /** A reply without any fence is taken as it is. */
  lemma UnfencedReplyUnchanged(content: string)
    requires !Text.Contains(content, "```")
    ensures ExtractJson(content) == content
  {
    JsonFenceIsFence(content);
  }

  /** With plain fences only, the payload is the trimmed text between the first two fences (or to the end). */
  lemma PlainFencePayload(content: string)
    requires !Text.Contains(content, "```json") && Text.Contains(content, "```")
    ensures ExtractJson(content) == Text.Trim(Before(After(content, "```"), "```"))
  {
    SplitAtFirst(content, "```");
    var rest := After(content, "```");
    SplitAtFirst(rest, "```");
    SplitAtFirst(Text.SplitOn(rest, "```")[0], "```");
  }

  /**
   * With the json marker present, the payload is the trimmed text between the
   * first marker and the next backtick fence, unless that fence starts one or
   * two characters before a second marker (its backticks then straddle the
   * marker, and the split on the marker cuts the fence apart).
   */
  lemma JsonFencePayload(content: string)
    requires Text.Contains(content, "```json")
    requires var rest := After(content, "```json");
      var q := Text.Find(rest, "```json");
      q == -1 || (!Text.OccursAt(rest, "```", q - 1) && !Text.OccursAt(rest, "```", q - 2))
    ensures ExtractJson(content) == Text.Trim(Before(After(content, "```json"), "```"))
  {
    var marker, fence := "```json", "```";
    var rest := After(content, marker);
    MarkedPayload(content);
    assert |fence| == 3 && marker[..3] == fence;
    var q := Text.Find(rest, marker);
    if q != -1 {
      forall k | q - 3 < k < q ensures !Text.OccursAt(rest, fence, k) {
        assert k == q - 1 || k == q - 2;
      }
    }
    BeforeMarkerThenFence(rest, marker, fence);
  }

  /** With the json marker, the payload is cut at the next marker and then at the first fence, and trimmed. */
  lemma MarkedPayload(content: string)
    requires Text.Contains(content, "```json")
    ensures ExtractJson(content) == Text.Trim(Before(Before(After(content, "```json"), "```json"), "```"))
  {
    var marker, fence := "```json", "```";
    var rest := After(content, marker);
    SplitAtFirst(content, marker);
    assert OpenedPiece(content, marker) == Text.SplitOn(rest, marker)[0];
    FirstPieceIsBefore(rest, marker);
    FirstPieceIsBefore(Before(rest, marker), fence);
  }

  /** The first piece of a split is the text before the first separator. */
  lemma FirstPieceIsBefore(s: string, sep: string)
    requires sep != []
    ensures Text.SplitOn(s, sep)[0] == Before(s, sep)
  {
    SplitAtFirst(s, sep);
  }

  /** `Find` reports `p` when `w` occurs there and nowhere earlier. */
  lemma FindIs(s: string, w: string, p: nat)
    requires Text.OccursAt(s, w, p)
    requires forall i :: 0 <= i < p ==> !Text.OccursAt(s, w, i)
    ensures Text.Find(s, w) == p
  {
  }

  /**
   * Cutting at the first marker `m` and then at the first fence `f`, a prefix of
   * the marker, is cutting at the first fence, provided no fence starts fewer
   * than |f| characters before that marker.
   */
  lemma BeforeMarkerThenFence(s: string, m: string, f: string)
    requires f != [] && |f| <= |m| && m[..|f|] == f
    requires var q := Text.Find(s, m);
      q == -1 || forall k :: q - |f| < k < q ==> !Text.OccursAt(s, f, k)
    ensures Before(Before(s, m), f) == Before(s, f)
  {
    var q := Text.Find(s, m);
    if q != -1 {
      var piece := s[..q];
      assert Text.OccursAt(s, f, q) by {
        assert s[q..q + |f|] == s[q..q + |m|][..|f|];
      }
      var p := Text.Find(s, f);
      assert 0 <= p <= q;
      forall k | 0 <= k && k + |f| <= q ensures Text.OccursAt(piece, f, k) <==> Text.OccursAt(s, f, k) {
        assert piece[k..k + |f|] == s[k..k + |f|];
      }
      if p + |f| <= q {
        FindIs(piece, f, p);
      } else {
        assert p == q;
        assert Text.Find(piece, f) == -1;
      }
    }
  }

  /**
   * The corner the condition above excludes: in "```jsonX````jsonY" the fence
   * after X starts one character before the second marker, and the payload keeps
   * a backtick that the fence reading drops.
   */
  lemma StraddledFenceKeepsBacktick()
    ensures ExtractJson("```jsonX````jsonY") == "X`"
    ensures Text.Trim(Before(After("```jsonX````jsonY", "```json"), "```")) == "X"
  {
    var content := "```jsonX````jsonY";
    var rest := StraddleRest(content);
    MarkedPayload(content);
    StraddleCuts(rest);
    TrimKeepsNonSpace("X`");
    TrimKeepsNonSpace("X");
  }

  /** The text after the first marker of the straddling reply. */
  lemma StraddleRest(content: string) returns (rest: string)
    requires content == "```jsonX````jsonY"
    ensures Text.Contains(content, "```json")
    ensures rest == After(content, "```json") && rest == "X````jsonY"
  {
    var marker := "```json";
    assert content[0..7] == marker;
    FindIs(content, marker, 0);
    rest := After(content, marker);
  }

  /** Cutting "X````jsonY" at the marker and then at a fence keeps "X`"; cutting at the fence alone keeps "X". */
  lemma StraddleCuts(rest: string)
    requires rest == "X````jsonY"
    ensures Before(Before(rest, "```json"), "```") == "X`"
    ensures Before(rest, "```") == "X"
  {
    var marker, fence := "```json", "```";
    assert rest[2..9] == marker;
    assert !Text.OccursAt(rest, marker, 0) && !Text.OccursAt(rest, marker, 1) by {
      assert rest[0] != marker[0] && rest[4] != marker[3];
    }
    FindIs(rest, marker, 2);
    assert Before(rest, marker) == "X`";
    assert Text.Find("X`", fence) == -1;
    assert rest[1..4] == fence;
    assert !Text.OccursAt(rest, fence, 0) by {
      assert rest[0] != fence[0];
    }
    FindIs(rest, fence, 1);
  }

  /** A text that neither starts nor ends with whitespace trims to itself. */
  lemma TrimKeepsNonSpace(s: string)
    requires s == [] || (!Text.IsSpace(s[0]) && !Text.IsSpace(s[|s| - 1]))
    ensures Text.Trim(s) == s
  {
    assert Text.TrimStart(s) == s;
  }

  /** A fenced payload has no surrounding whitespace and no fence inside it. */
  lemma FencedPayloadIsClean(content: string)
    requires Text.Contains(content, "```")
    ensures var r := ExtractJson(content); r == [] || (!Text.IsSpace(r[0]) && !Text.IsSpace(r[|r| - 1]))
    ensures !Text.Contains(ExtractJson(content), "```")
  {
    var open := if Text.Contains(content, "```json") then "```json" else "```";
    var piece := Text.SplitOn(OpenedPiece(content, open), "```")[0];
    assert ExtractJson(content) == Text.Trim(piece);
    Text.TrimIsInfix(piece);
    TrimKeepsAbsence(piece, "```");
  }

  /** Trimming cannot create an occurrence of a word. */
  lemma TrimKeepsAbsence(s: string, w: string)
    requires !Text.Contains(s, w)
    ensures !Text.Contains(Text.Trim(s), w)
  {
    var r := Text.Trim(s);
    Text.TrimIsInfix(s);
    var k :| Text.TrimmedAt(s, r, k);
    if Text.Contains(r, w) {
      var i := Text.Find(r, w);
      assert r[i..i + |w|] == w;
      forall t | 0 <= t < |w| ensures s[k + i + t] == w[t] {
        assert w[t] == r[i..i + |w|][t] == r[i + t];
        assert r[i + t] == s[k..k + |r|][i + t];
      }
      assert s[k + i..k + i + |w|] == w;
      assert Text.OccursAt(s, w, k + i);
      Text.ContainsIff(s, w);
    }
  }
}
