/** `InputBoxFlow` of src/models/input-box-flow.ts: a multi-step wizard over one input
    box. Each accepted answer is trimmed and stored, the step counter advances, and
    either the handler registered for the new step reconfigures the box or the flow
    completes with every answer so far. */
module InputFlow {
  import opened Common
  import opened Strings

  /** What the user sees: the input box's fields this flow sets. */
  datatype InputBox = InputBox(
    title: string,
    placeholder: string,
    prompt: Option<string>,
    step: int,
    value: string,
    visible: bool)

  /** A handler added by `addStep`: the placeholder and optional prompt it shows. */
  datatype StepHandler = StepHandler(placeholder: string, prompt: Option<string>)

  /** Running a handler while the flow is at `step`: the box shows that step and the
      handler's placeholder, and its prompt when that is a non-empty string
      (src/models/input-box-flow.ts:42-48). */
  function Configure(box: InputBox, h: StepHandler, step: int): (b: InputBox)
    ensures b.step == step && b.placeholder == h.placeholder
    ensures b.title == box.title && b.value == box.value && b.visible == box.visible
    ensures b.prompt == (if h.prompt.Some? && h.prompt.value != "" then h.prompt else box.prompt)
  {
    var b := box.(step := step, placeholder := h.placeholder);
    if h.prompt.Some? && h.prompt.value != "" then b.(prompt := h.prompt) else b
  }

  /** Does an accept that moves the flow to `step` complete it? It does when the step is
      past the last one or no handler was added for it (src/models/input-box-flow.ts:31). */
  predicate CompletesAt(step: int, totalSteps: int, handlerCount: nat)
  {
    !(step <= totalSteps && 0 <= step - 2 < handlerCount)
  }

  /** How many accepts a fresh flow takes to complete for the first time: every step
      up to the last, unless a handler is missing first. */
  function AcceptsToComplete(totalSteps: int, handlerCount: nat): (m: int)
    requires totalSteps >= 1
    ensures 1 <= m <= totalSteps && m <= handlerCount + 1
    ensures CompletesAt(m + 1, totalSteps, handlerCount)
    ensures forall step :: 2 <= step <= m ==> !CompletesAt(step, totalSteps, handlerCount)
  {
    if totalSteps <= handlerCount + 1 then totalSteps else handlerCount + 1
  }

  /** The part of a flow that an accept changes. */
  datatype FlowState = FlowState(step: int, values: seq<string>, box: InputBox, completions: seq<seq<string>>)

  /** The accept handler on a flow of `totalSteps` steps with `handlers` added, `input`
      being the box's value: past the last step nothing happens; otherwise the trimmed
      answer is stored, the box cleared, the step advanced by one, and then the new
      step's handler runs or the box is hidden and the flow completes with all the
      answers (src/models/input-box-flow.ts:25-38). */
  function AcceptState(st: FlowState, totalSteps: int, handlers: seq<StepHandler>, input: string): FlowState
  {
    if st.step <= totalSteps then
      var values := st.values + [Trim(input)];
      var step := st.step + 1;
      if CompletesAt(step, totalSteps, |handlers|) then
        FlowState(step, values, st.box.(value := "", visible := false), st.completions + [values])
      else
        FlowState(step, values, Configure(st.box.(value := ""), handlers[step - 2], step), st.completions)
    else st
  }

  /** What one accept does: past the last step nothing; otherwise one more trimmed
      answer after the old ones, one step further, an emptied box, and a completion
      recorded exactly when the new step completes the flow (then the box hides) —
      otherwise the box shows the new step. */
  lemma AcceptSpec(st: FlowState, totalSteps: int, handlers: seq<StepHandler>, input: string)
    ensures var r := AcceptState(st, totalSteps, handlers, input);
      st.step > totalSteps ==> r == st
    ensures var r := AcceptState(st, totalSteps, handlers, input);
      st.step <= totalSteps ==>
      r.step == st.step + 1 && |r.values| == |st.values| + 1
      && r.values[..|st.values|] == st.values && r.values[|st.values|] == Trim(input)
      && r.box.value == "" && r.box.title == st.box.title
    ensures var r := AcceptState(st, totalSteps, handlers, input);
      st.step <= totalSteps ==>
      (r.completions == st.completions + [r.values] <==> CompletesAt(r.step, totalSteps, |handlers|))
    ensures var r := AcceptState(st, totalSteps, handlers, input);
      st.step <= totalSteps && !CompletesAt(r.step, totalSteps, |handlers|) ==>
      r.completions == st.completions && r.box.visible == st.box.visible && r.box.step == r.step
  {
  }

  class InputBoxFlow {
    var step: int
    var totalSteps: int
    var values: seq<string>
    var handlers: seq<StepHandler>
    var box: InputBox
    /** The answers passed to `onComplete`, once per completion. */
    var completions: seq<seq<string>>

    /** One stored answer per step already passed. */
    ghost predicate Valid()
      reads this
    {
      step >= 1 && |values| == step - 1
    }

    /** A fresh flow is at step 1 with no answers and shows its box
        (src/models/input-box-flow.ts:5-9, 11-24). */
    constructor(title: string, placeholder: string, totalSteps: int)
      ensures Valid()
      ensures step == 1 && values == [] && handlers == [] && completions == []
      ensures this.totalSteps == totalSteps
      ensures box == InputBox(title, placeholder, None, 1, "", true)
    {
      step := 1;
      this.totalSteps := totalSteps;
      values := [];
      handlers := [];
      completions := [];
      box := InputBox(title, placeholder, None, 1, "", true);
    }

    /** `addStep(placeholder, prompt)`: one more handler; handler `i` configures step
        `i + 2` (src/models/input-box-flow.ts:41-49). */
    method AddStep(placeholder: string, prompt: Option<string>)
      modifies this`handlers
      ensures handlers == old(handlers) + [StepHandler(placeholder, prompt)]
    {
      handlers := handlers + [StepHandler(placeholder, prompt)];
    }

    /** The flow's state that an accept changes. */
    function State(): FlowState
      reads this
    {
      FlowState(step, values, box, completions)
    }

    /** The accept handler, `input` being the box's value
        (src/models/input-box-flow.ts:25-38). */
    method Accept(input: string)
      requires Valid()
      modifies this`values, this`step, this`box, this`completions
      ensures Valid()
      ensures State() == AcceptState(old(State()), totalSteps, handlers, input)
    {
      ghost var st := State();
      if step <= totalSteps {
        values := values + [Trim(input)];
        box := box.(value := "");
        step := step + 1;
        if step <= totalSteps && 0 <= step - 2 < |handlers| {
          box := Configure(box, handlers[step - 2], step);
          assert !CompletesAt(step, totalSteps, |handlers|);
        } else {
          box := box.(visible := false);
          completions := completions + [values];
          assert CompletesAt(step, totalSteps, |handlers|);
        }

      }
    }
  }

  /** The create-terminal flow as `createTerminal` sets it up: three steps, the command
      box first and the two added handlers for the label and the variables
      (src/models/terminal-data-provider.ts:319-336). */
  method NewTerminalFlow() returns (flow: InputBoxFlow)
    ensures fresh(flow) && flow.Valid()
    ensures flow.step == 1 && flow.totalSteps == 3 && |flow.handlers| == 2
    ensures flow.values == [] && flow.completions == [] && flow.box.visible
  {
    flow := new InputBoxFlow("Create Execumate Terminal", "npm run start", 3);
    flow.AddStep("A cool label", Some("Enter a label associated with the command: (optional)"));
    flow.AddStep("--port 3000,--port 3001,--open",
      Some("Enter any optional variables this command can have separated by commas: (optional)"));
  }

  /** Three answers to a fresh three-step flow with two handlers complete it exactly
      once, with the trimmed answers in order, and hide the box; the first two answers
      complete nothing. */
  lemma ThreeAnswersComplete(st: FlowState, handlers: seq<StepHandler>, a: string, b: string, c: string)
    requires st.step == 1 && st.values == [] && st.completions == [] && |handlers| == 2
    ensures AcceptState(st, 3, handlers, a).completions == []
    ensures AcceptState(AcceptState(st, 3, handlers, a), 3, handlers, b).completions == []
    ensures AcceptState(AcceptState(AcceptState(st, 3, handlers, a), 3, handlers, b), 3, handlers, c).completions
      == [[Trim(a), Trim(b), Trim(c)]]
    ensures !AcceptState(AcceptState(AcceptState(st, 3, handlers, a), 3, handlers, b), 3, handlers, c).box.visible
  {
    var s1 := AcceptState(st, 3, handlers, a);
    var s2 := AcceptState(s1, 3, handlers, b);
    var s3 := AcceptState(s2, 3, handlers, c);
    assert !CompletesAt(2, 3, 2) && !CompletesAt(3, 3, 2) && CompletesAt(4, 3, 2);
    AcceptSpec(st, 3, handlers, a);
    assert s1.step == 2 && s1.values == [Trim(a)] && s1.completions == [];
    AcceptSpec(s1, 3, handlers, b);
    assert s2.step == 3 && s2.values == [Trim(a), Trim(b)] && s2.completions == [];
    AcceptSpec(s2, 3, handlers, c);
    assert s3.values == [Trim(a), Trim(b), Trim(c)];
  }

  /** The create-terminal flow answered three times: it completes once, with the three
      trimmed answers in order, and hides its box
      (src/models/terminal-data-provider.ts:319-355). */
  method CreateTerminalFlow(command: string, name: string, variables: string) returns (flow: InputBoxFlow)
    ensures fresh(flow) && flow.Valid()
    ensures flow.completions == [[Trim(command), Trim(name), Trim(variables)]]
    ensures !flow.box.visible
  {
    flow := NewTerminalFlow();
    ghost var st := flow.State();
    flow.Accept(command);
    flow.Accept(name);
    flow.Accept(variables);
    ThreeAnswersComplete(st, flow.handlers, command, name, variables);
  }

  /** The create-group flow: one step, no handler; one answer completes it. */
  method CreateGroupFlow(name: string) returns (flow: InputBoxFlow)
    ensures fresh(flow) && flow.Valid()
    ensures flow.completions == [[Trim(name)]]
  {
    flow := new InputBoxFlow("Create Execumate Group", "Group Name", 1);
    flow.Accept(name);
    assert flow.values == [Trim(name)];
  }
}
