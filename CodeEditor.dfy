/**
  The code-edit agent: a linear graph of three nodes (clarify the
  instruction, apply it to the selection, explain the change) over a
  dictionary state. Each node reads some keys, asks the language model one
  question, and returns a partial state that the graph merges into the
  current one. The model is a function from the prompt to its answer; a key
  a node reads but the state lacks raises KeyError, which ends the run.
*/
module CodeEditor {
  import opened Wrappers
  import opened PyStr

  /** The keys of CodeEditState. */
  datatype Key = FullCode | SelectedCode | UpdatedSelection | Instruction | UpdatedCode | Explanation

  /** A CodeEditState dictionary: every key may be absent. Node results are
      values of the same type holding only the keys the node writes. */
  datatype CodeEditState = CodeEditState(
    fullCode: Option<string>,
    selectedCode: Option<string>,
    updatedSelection: Option<string>,
    instruction: Option<string>,
    updatedCode: Option<string>,
    explanation: Option<string>)

  const Empty := CodeEditState(None, None, None, None, None, None)

  /** The values each node's prompt interpolates; the prompt text itself is left out. */
  datatype Prompt =
    | ClarifyPrompt(selected: string, instruction: string)
    | FixPrompt(full: string, selected: string, instruction: string)
    | ExplainPrompt(original: string, updated: string, complete: string)

  /** The language model: the answer's `content` for each prompt. */
  type Llm = Prompt -> string

  function Field(s: CodeEditState, k: Key): Option<string> {
    match k
    case FullCode => s.fullCode
    case SelectedCode => s.selectedCode
    case UpdatedSelection => s.updatedSelection
    case Instruction => s.instruction
    case UpdatedCode => s.updatedCode
    case Explanation => s.explanation
  }

  /** A partial state that holds no key outside `keys`. */
  predicate WritesOnly(update: CodeEditState, keys: set<Key>) {
    forall k :: k !in keys ==> Field(update, k).None?
  }

  /** The graph's merge of a node's partial state: the keys the node returned
      replace the current values, every other key keeps its value. */
  function Merge(state: CodeEditState, update: CodeEditState): CodeEditState {
    CodeEditState(
      if update.fullCode.Some? then update.fullCode else state.fullCode,
      if update.selectedCode.Some? then update.selectedCode else state.selectedCode,
      if update.updatedSelection.Some? then update.updatedSelection else state.updatedSelection,
      if update.instruction.Some? then update.instruction else state.instruction,
      if update.updatedCode.Some? then update.updatedCode else state.updatedCode,
      if update.explanation.Some? then update.explanation else state.explanation)
  }

  /** Every key the node returned takes the returned value; every other key keeps its value. */
  lemma MergeField(state: CodeEditState, update: CodeEditState, k: Key)
    ensures Field(update, k).Some? ==> Field(Merge(state, update), k) == Field(update, k)
    ensures Field(update, k).None? ==> Field(Merge(state, update), k) == Field(state, k)
  {
  }

  /** A node that writes only `keys` leaves every other key of the state as it was. */
  lemma MergeKeepsUnwritten(state: CodeEditState, update: CodeEditState, keys: set<Key>, k: Key)
    requires WritesOnly(update, keys) && k !in keys
    ensures Field(Merge(state, update), k) == Field(state, k)
  {
    MergeField(state, update, k);
  }

  /** state[key]: the value, or KeyError naming the key. */
  function Read(value: Option<string>, name: string): (r: Result<string, string>)
    ensures r.Success? <==> value.Some?
    ensures r.Success? ==> r.value == value.value
    ensures r.Failure? ==> r.error == name
  {
    match value
    case Some(v) => Success(v)
    case None => Failure(name)
  }

  /** clarify_instruction_node: reads instruction then selected_code, and
      replaces the instruction by the model's clarification. */
  function ClarifyNode(state: CodeEditState, llm: Llm): (r: Result<CodeEditState, string>)
    ensures r.Success? <==> state.instruction.Some? && state.selectedCode.Some?
    ensures state.instruction.None? ==> r == Failure("instruction")
    ensures r.Success? ==> WritesOnly(r.value, {Instruction})
    ensures r.Success? ==>
      r.value.instruction == Some(llm(ClarifyPrompt(state.selectedCode.value, state.instruction.value)))
  {
    match Read(state.instruction, "instruction")
    case Failure(e) => Failure(e)
    case Success(instruction) =>
      match Read(state.selectedCode, "selected_code")
      case Failure(e) => Failure(e)
      case Success(selected) =>
        Success(Empty.(instruction := Some(llm(ClarifyPrompt(selected, instruction)))))
  }

  /** fix_code_node: reads full_code, selected_code and instruction; the
      updated selection is the model's answer stripped of surrounding
      whitespace, and the updated code is the full code with every
      occurrence of the selection replaced by it. */
  function FixNode(state: CodeEditState, llm: Llm): (r: Result<CodeEditState, string>)
    ensures r.Success? <==> state.fullCode.Some? && state.selectedCode.Some? && state.instruction.Some?
    ensures state.fullCode.None? ==> r == Failure("full_code")
    ensures r.Success? ==> WritesOnly(r.value, {UpdatedCode, UpdatedSelection})
    ensures r.Success? ==>
      var answer := llm(FixPrompt(state.fullCode.value, state.selectedCode.value, state.instruction.value));
      && r.value.updatedSelection.Some?
      && IsStripOf(answer, r.value.updatedSelection.value)
      && r.value.updatedCode == Some(Replace(state.fullCode.value, state.selectedCode.value, r.value.updatedSelection.value))
  {
    match Read(state.fullCode, "full_code")
    case Failure(e) => Failure(e)
    case Success(full) =>
      match Read(state.selectedCode, "selected_code")
      case Failure(e) => Failure(e)
      case Success(selected) =>
        match Read(state.instruction, "instruction")
        case Failure(e) => Failure(e)
        case Success(instruction) =>
          var answer := Strip(llm(FixPrompt(full, selected, instruction)));
          Success(Empty.(updatedCode := Some(Replace(full, selected, answer)), updatedSelection := Some(answer)))
  }

  /** explain_changes_node: reads selected_code, updated_selection and
      full_code, and stores the model's explanation. */
  function ExplainNode(state: CodeEditState, llm: Llm): (r: Result<CodeEditState, string>)
    ensures r.Success? <==> state.selectedCode.Some? && state.updatedSelection.Some? && state.fullCode.Some?
    ensures r.Success? ==> WritesOnly(r.value, {Explanation})
    ensures r.Success? ==>
      r.value.explanation == Some(llm(ExplainPrompt(state.selectedCode.value, state.updatedSelection.value, state.fullCode.value)))
  {
    match Read(state.selectedCode, "selected_code")
    case Failure(e) => Failure(e)
    case Success(original) =>
      match Read(state.updatedSelection, "updated_selection")
      case Failure(e) => Failure(e)
      case Success(updated) =>
        match Read(state.fullCode, "full_code")
        case Failure(e) => Failure(e)
        case Success(complete) =>
          Success(Empty.(explanation := Some(llm(ExplainPrompt(original, updated, complete)))))
  }

  /** The compiled graph's invoke: clarify, then fix, then explain, each
      node's partial state merged before the next node runs; the first
      KeyError ends the run. */
  function RunCodeEditor(input: CodeEditState, llm: Llm): (r: Result<CodeEditState, string>)
    ensures r.Success? <==> input.fullCode.Some? && input.selectedCode.Some? && input.instruction.Some?
    ensures r.Success? ==> r.value.fullCode == input.fullCode && r.value.selectedCode == input.selectedCode
  {
    match ClarifyNode(input, llm)
    case Failure(e) => Failure(e)
    case Success(clarified) =>
      var afterClarify := Merge(input, clarified);
      match FixNode(afterClarify, llm)
      case Failure(e) => Failure(e)
      case Success(fixed) =>
        var afterFix := Merge(afterClarify, fixed);
        match ExplainNode(afterFix, llm)
        case Failure(e) => Failure(e)
        case Success(explained) => Success(Merge(afterFix, explained))
  }

  /** The end state of a run from a request: the instruction fix works with
      is the clarified one, the updated selection is the stripped answer to
      it, the updated code carries that selection in place of every
      occurrence of the original, and the explanation compares the two. */
  lemma RunOutcome(input: CodeEditState, llm: Llm)
    requires input.fullCode.Some? && input.selectedCode.Some? && input.instruction.Some?
    ensures
      var full := input.fullCode.value;
      var selected := input.selectedCode.value;
      var clarified := llm(ClarifyPrompt(selected, input.instruction.value));
      var updated := Strip(llm(FixPrompt(full, selected, clarified)));
      RunCodeEditor(input, llm) == Success(CodeEditState(
        Some(full),
        Some(selected),
        Some(updated),
        Some(clarified),
        Some(Replace(full, selected, updated)),
        Some(llm(ExplainPrompt(selected, updated, full)))))
  {
    var full := input.fullCode.value;
    var selected := input.selectedCode.value;
    var clarified := llm(ClarifyPrompt(selected, input.instruction.value));
    var s1 := input.(instruction := Some(clarified));
    assert Merge(input, ClarifyNode(input, llm).value) == s1;
    var updated := Strip(llm(FixPrompt(full, selected, clarified)));
    var s2 := s1.(updatedCode := Some(Replace(full, selected, updated)), updatedSelection := Some(updated));
    assert Merge(s1, FixNode(s1, llm).value) == s2;
  }

  /** A selection that does not occur in the file leaves the file as it was. */
  lemma AbsentSelectionLeavesCode(input: CodeEditState, llm: Llm)
    requires input.fullCode.Some? && input.selectedCode.Some? && input.instruction.Some?
    requires input.selectedCode.value != [] && !Contains(input.fullCode.value, input.selectedCode.value)
    ensures RunCodeEditor(input, llm).value.updatedCode == input.fullCode
  {
    RunOutcome(input, llm);
    var clarified := llm(ClarifyPrompt(input.selectedCode.value, input.instruction.value));
    var updated := Strip(llm(FixPrompt(input.fullCode.value, input.selectedCode.value, clarified)));
    ReplaceAbsent(input.fullCode.value, input.selectedCode.value, updated);
  }

  /** An answer that, once stripped, is the selection itself leaves the file as it was. */
  lemma UnchangedSelectionLeavesCode(input: CodeEditState, llm: Llm)
    requires input.fullCode.Some? && input.selectedCode.Some? && input.instruction.Some?
    requires RunCodeEditor(input, llm).value.updatedSelection == input.selectedCode
    ensures RunCodeEditor(input, llm).value.updatedCode == input.fullCode
  {
    RunOutcome(input, llm);
    ReplaceBySelf(input.fullCode.value, input.selectedCode.value);
  }

  /** The updated code grows by the length difference once per replaced occurrence. */
  lemma UpdatedCodeLength(input: CodeEditState, llm: Llm)
    requires input.fullCode.Some? && input.selectedCode.Some? && input.instruction.Some?
    ensures
      var out := RunCodeEditor(input, llm).value;
      |out.updatedCode.value| == |input.fullCode.value|
        + Count(input.fullCode.value, input.selectedCode.value) * (|out.updatedSelection.value| - |input.selectedCode.value|)
  {
    RunOutcome(input, llm);
    var clarified := llm(ClarifyPrompt(input.selectedCode.value, input.instruction.value));
    var updated := Strip(llm(FixPrompt(input.fullCode.value, input.selectedCode.value, clarified)));
    ReplaceLength(input.fullCode.value, input.selectedCode.value, updated);
  }

  /** The updated selection has no surrounding whitespace, whatever the model answers. */
  lemma UpdatedSelectionIsStripped(input: CodeEditState, llm: Llm)
    requires input.fullCode.Some? && input.selectedCode.Some? && input.instruction.Some?
    ensures
      var sel := RunCodeEditor(input, llm).value.updatedSelection.value;
      Strip(sel) == sel
  {
    RunOutcome(input, llm);
    var clarified := llm(ClarifyPrompt(input.selectedCode.value, input.instruction.value));
    StripIdempotent(llm(FixPrompt(input.fullCode.value, input.selectedCode.value, clarified)));
  }
}
