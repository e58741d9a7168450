/** The tool-calling loop of `TravelAgent` (travel_agent/core/agent.py): a
    bounded state machine that asks a language model for the next step,
    cuts its answer down to one Thought/Action block, parses it, and either
    stops, answers, fails, or calls a tool and records what the tool said. */
module Agent {
  import opened Wrappers
  import opened Text
  import opened Parser

  const UserPrefix: string := "user input: "
  const ObservationPrefix: string := "Observation: "
  const MaxIterationMessage: string := "Error:Reach Max Iteration Times, Task not finished!"
  const DefaultAnswer: string := "Task Finished"
  const AnswerKey: string := "answer"

  /** The settings `run` reads: the iteration bound and the sampling
      parameters handed to the model. */
  datatype Config = Config(maxIterations: int, temperature: real, maxTokens: int)

  /** One call of the model's `generate`. */
  datatype Request = Request(prompt: string, systemPrompt: string, temperature: real, maxTokens: int)

  /** The model answers the `i`-th call of a run, given its request. */
  type Model = (nat, Request) -> string

  /** A tool takes the keyword arguments of an action and returns what the
      agent records as the observation. */
  type Tool = map<string, string> -> string

  datatype TravelAgent = TravelAgent(
    llm: Model,
    tools: map<string, Tool>,
    config: Config,
    systemPrompt: string,
    history: seq<string>)

  function UserEntry(userInput: string): string {
    UserPrefix + userInput
  }

  function ObservationEntry(observation: string): string {
    ObservationPrefix + observation
  }

  function UndefinedToolMessage(name: string): string {
    "Error: tool undefined '" + name + "'"
  }

  // ---------------------------------------------------------------------------
  // The conversation history
  // ---------------------------------------------------------------------------

  /** `"\n".join(entries)` */
  function Join(entries: seq<string>): (r: string)
    ensures |entries| == 0 ==> r == []
    ensures |entries| > 0 ==> |r| == Offset(entries, |entries|) - 1
  {
    JoinLength(entries);
    JoinOn(entries, '\n')
  }

  /** The joined text is as long as the entries plus a line break between
      each two of them. */
  lemma {:induction false} JoinLength(entries: seq<string>)
    ensures |entries| > 0 ==> |JoinOn(entries, '\n')| == Offset(entries, |entries|) - 1
  {
    if |entries| > 1 {
      var n := |entries| - 1;
      JoinLength(entries[..n]);
      OffsetPrefix(entries, n, n);
    }
  }

  /** Where entry `i` starts in the joined text: the lengths of the entries
      before it, each with its line break. */
  function Offset(entries: seq<string>, i: nat): (r: nat)
    requires i <= |entries|
    ensures i > 0 ==> r >= i
  {
    if i == 0 then 0 else Offset(entries, i - 1) + |entries[i - 1]| + 1
  }

  /** An offset depends only on the entries before it. */
  lemma {:induction false} OffsetPrefix(entries: seq<string>, n: nat, i: nat)
    requires i <= n <= |entries|
    ensures Offset(entries[..n], i) == Offset(entries, i)
  {
    if i > 0 {
      OffsetPrefix(entries, n, i - 1);
      assert entries[..n][i - 1] == entries[i - 1];
    }
  }

  /** The joined text holds every entry at its offset. */
  lemma {:induction false} JoinEntryAt(entries: seq<string>, i: nat)
    requires i < |entries|
    ensures StartsAt(Join(entries), Offset(entries, i), entries[i])
    decreases |entries|
  {
    var n := |entries| - 1;
    if n == 0 {
      assert Join(entries)[0..|entries[0]|] == entries[0];
    } else {
      JoinLast(entries);
      OffsetPrefix(entries, n, i);
      if i == n {
        OffsetPrefix(entries, n, n);
      } else {
        var init := entries[..n];
        assert init[i] == entries[i];
        JoinEntryAt(init, i);
        StartsAtSlice(Join(entries), 0, |Join(init)|, Offset(init, i), entries[i]);
      }
    }
  }

  /** Every entry but the last is followed by a line break. */
  lemma {:induction false} JoinBreakAfter(entries: seq<string>, i: nat)
    requires i + 1 < |entries|
    ensures Offset(entries, i) + |entries[i]| < |Join(entries)|
    ensures Join(entries)[Offset(entries, i) + |entries[i]|] == '\n'
    decreases |entries|
  {
    var n := |entries| - 1;
    var init := entries[..n];
    var e := Offset(init, i) + |init[i]|;
    JoinLast(entries);
    OffsetPrefix(entries, n, i);
    assert init[i] == entries[i];
    if i + 1 == n {
      assert Offset(init, n) == e + 1;
    } else {
      JoinBreakAfter(init, i);
      assert Join(entries)[e] == Join(entries)[0..|Join(init)|][e];
    }
  }

  /** The text of several entries is the text of all but the last, a line
      break, and the last. */
  lemma JoinLast(entries: seq<string>)
    requires |entries| > 1
    ensures var j, r, last := Join(entries[..|entries| - 1]), Join(entries), entries[|entries| - 1];
      && |r| == |j| + 1 + |last| && r[0..|j|] == j && r[|j|] == '\n'
      && StartsAt(r, |j| + 1, last)
  {
    var j, r, last := Join(entries[..|entries| - 1]), Join(entries), entries[|entries| - 1];
    assert r == j + "\n" + last;
    assert r[|j| + 1..|r|] == last;
  }

  /** Appending an entry appends a line break and the entry to the joined
      text. */
  lemma JoinAppend(entries: seq<string>, entry: string)
    requires |entries| > 0
    ensures Join(entries + [entry]) == Join(entries) + "\n" + entry
  {
    assert (entries + [entry])[..|entries|] == entries;
  }

  /** `add_to_history`: the entry goes at the end and the prompt grows by a
      line break and the entry. */
  function AddToHistory(agent: TravelAgent, content: string): (r: TravelAgent)
    ensures |r.history| == |agent.history| + 1
    ensures r.history[..|agent.history|] == agent.history && r.history[|agent.history|] == content
    ensures GetFullPrompt(r) == if |agent.history| == 0 then content
                                else GetFullPrompt(agent) + "\n" + content
  {
    var r := agent.(history := agent.history + [content]);
    assert |agent.history| > 0 ==> Join(r.history) == Join(agent.history) + "\n" + content by {
      if |agent.history| > 0 {
        JoinAppend(agent.history, content);
      }
    }
    assert r.history[..|agent.history|] == agent.history;
    r
  }

  /** `get_full_prompt`: the history entries one per line. */
  function GetFullPrompt(agent: TravelAgent): (r: string)
    ensures LaidOut(agent.history, r)
  {
    JoinLayout(agent.history);
    Join(agent.history)
  }

  /** `text` holds the entries one per line: as long as the entries and the
      breaks between them, each entry at its offset, and a line break after
      each entry but the last. */
  predicate LaidOut(entries: seq<string>, text: string) {
    && (|entries| == 0 ==> text == [])
    && (|entries| > 0 ==> |text| == Offset(entries, |entries|) - 1)
    && (forall i {:trigger StartsAt(text, Offset(entries, i), entries[i])} ::
          0 <= i < |entries| ==> StartsAt(text, Offset(entries, i), entries[i]))
    && (forall i :: 0 <= i < |entries| - 1 ==> EndOf(entries, i) < |text| && text[EndOf(entries, i)] == '\n')
  }

  /** Where entry `i` ends in the joined text. */
  function EndOf(entries: seq<string>, i: nat): nat
    requires i < |entries|
  {
    Offset(entries, i) + |entries[i]|
  }

  /** The layout determines the text: at most one text lays out the
      entries one per line. */
  lemma LaidOutUnique(entries: seq<string>, a: string, b: string)
    requires LaidOut(entries, a) && LaidOut(entries, b)
    ensures a == b
  {
    assert |a| == |b|;
    if |entries| > 0 {
      forall p | 0 <= p < |a|
        ensures a[p] == b[p]
      {
        var i := Locate(entries, p, 0);
        var o, e := Offset(entries, i), entries[i];
        if p < o + |e| {
          assert StartsAt(a, o, e) && StartsAt(b, o, e);
          SameInside(a, b, o, e, p);
        } else {
          assert p == EndOf(entries, i) && i < |entries| - 1;
        }
      }
    }
  }

  /** Two texts that hold `e` at `o` agree inside it. */
  lemma SameInside(a: string, b: string, o: nat, e: string, p: nat)
    requires StartsAt(a, o, e) && StartsAt(b, o, e) && o <= p < o + |e|
    ensures a[p] == b[p]
  {
    assert a[p] == a[o..o + |e|][p - o];
    assert b[p] == b[o..o + |e|][p - o];
  }

  /** The entry, with its line break, that position `p` of the joined text
      falls in. */
  lemma {:induction false} Locate(entries: seq<string>, p: nat, i: nat) returns (k: nat)
    requires i < |entries| && Offset(entries, i) <= p < Offset(entries, |entries|) - 1
    ensures i <= k < |entries| && Offset(entries, k) <= p <= Offset(entries, k) + |entries[k]|
    decreases |entries| - i
  {
    if p <= Offset(entries, i) + |entries[i]| {
      k := i;
    } else {
      assert Offset(entries, i + 1) == Offset(entries, i) + |entries[i]| + 1;
      k := Locate(entries, p, i + 1);
    }
  }

  /** `"\n".join` lays the entries out one per line. */
  lemma JoinLayout(entries: seq<string>)
    ensures LaidOut(entries, Join(entries))
  {
    forall i | 0 <= i < |entries|
      ensures StartsAt(Join(entries), Offset(entries, i), entries[i])
    {
      JoinEntryAt(entries, i);
    }
    forall i | 0 <= i < |entries| - 1
      ensures EndOf(entries, i) < |Join(entries)| && Join(entries)[EndOf(entries, i)] == '\n'
    {
      JoinBreakAfter(entries, i);
    }
  }

  /** `reset`: the history is emptied, so the prompt is empty too. */
  function Reset(agent: TravelAgent): (r: TravelAgent)
    ensures r.history == [] && GetFullPrompt(r) == []
    ensures r.config == agent.config && r.systemPrompt == agent.systemPrompt
  {
    agent.(history := [])
  }

  // ---------------------------------------------------------------------------
  // One iteration of `run`
  // ---------------------------------------------------------------------------

  /** What an iteration does once the model output is known. */
  datatype Decision =
    | Stopped                     // no action: the loop breaks
    | Finished(answer: string)    // `finish`: `run` returns the answer
    | Raised(message: string)     // malformed action: `ValueError` escapes
    | Observed(observation: string)  // a tool ran, or the tool is undefined

  /** `kwargs.get("answer", "Task Finished")` */
  function FinishAnswer(args: map<string, string>): string {
    if AnswerKey in args then args[AnswerKey] else DefaultAnswer
  }

  /** The branch an iteration takes for an already truncated model output. */
  function Decide(output: string, tools: map<string, Tool>): (d: Decision)
    ensures var action := ParseLlmOutput(output).action;
      && (d.Stopped? <==> action.None? || action.value == [])
      && (d.Finished? <==> action.Some? && IsPrefix(FinishToken, action.value))
      && (d.Finished? ==> d.answer == PySlice(action.value, 7, -1))
      && (d.Raised? <==> action.Some? && action.value != [] && !IsPrefix(FinishToken, action.value)
                         && CallShape(action.value).None?)
      && (d.Raised? ==> d.message == InvalidActionMessage(action.value))
  {
    var action := ParseLlmOutput(output).action;
    if action.None? || action.value == [] then Stopped
    else if IsPrefix(FinishToken, action.value) then
      Finished(FinishAnswer(ParseAction(action.value).value.args))
    else
      match ParseAction(action.value)
      case Err(message) => Raised(message)
      case Ok(call) =>
        Observed(if call.tool in tools then tools[call.tool](call.args)
                 else UndefinedToolMessage(call.tool))
  }

  /** The request of a call, made from the history so far. */
  function RequestFor(agent: TravelAgent, history: seq<string>): Request {
    Request(Join(history), agent.systemPrompt, agent.config.temperature, agent.config.maxTokens)
  }

  // ---------------------------------------------------------------------------
  // The whole run
  // ---------------------------------------------------------------------------

  /** The three things an iteration does that the loop itself does not look
      into: asking the model for call `i` given the history, truncating its
      output, and the branch it then takes. */
  datatype Steps = Steps(ask: (nat, seq<string>) -> string, truncate: string -> string,
                         decide: string -> Decision)

  /** The steps of `TravelAgent`: the model gets the full prompt and the
      agent's settings, its output goes through `truncate_multiple_actions`,
      and `Decide` runs with the agent's tools. */
  function AgentSteps(agent: TravelAgent): Steps {
    Steps((i: nat, history: seq<string>) => agent.llm(i, RequestFor(agent, history)),
          TruncateMultipleActions,
          (output: string) => Decide(output, agent.tools))
  }

  /** What `run` returns (`Err` for the exception it lets escape), the history
      it leaves behind, and how many times it called the model. */
  datatype RunOutcome = RunOutcome(result: Result<string, string>, history: seq<string>, calls: nat)

  /** The iterations from `i` on, starting from `history`, with `max` the
      configured bound. */
  function Loop(steps: Steps, max: int, i: nat, history: seq<string>): (r: RunOutcome)
    decreases max - i
    ensures r.calls == 0 <==> i >= max
    ensures i < max ==> r.calls <= max - i
    ensures |history| <= |r.history| && |history| + 2 * r.calls - 1 <= |r.history| <= |history| + 2 * r.calls
    ensures r.calls == 0 ==> r.history == history && r.result == Ok(MaxIterationMessage)
  {
    if i >= max then RunOutcome(Ok(MaxIterationMessage), history, 0)
    else
      var output := steps.truncate(steps.ask(i, history));
      var h := history + [output];
      var d := steps.decide(output);
      if d.Observed? then
        var r := Loop(steps, max, i + 1, h + [ObservationEntry(d.observation)]);
        RunOutcome(r.result, r.history, r.calls + 1)
      else RunOutcome(Ending(d), h, 1)
  }

  /** What `run` returns after an iteration that does not go on: the loop
      breaks to the exhaustion message, or returns the answer, or raises. */
  function Ending(d: Decision): Result<string, string>
    requires !d.Observed?
  {
    match d
    case Stopped => Ok(MaxIterationMessage)
    case Finished(answer) => Ok(answer)
    case Raised(message) => Err(message)
  }

  /** `run(user_input)`. */
  function RunAgent(agent: TravelAgent, userInput: string): (r: RunOutcome)
    ensures |r.history| >= 1 && r.history[0] == UserEntry(userInput)
    ensures r.calls == 0 <==> agent.config.maxIterations <= 0
    ensures r.calls <= if agent.config.maxIterations < 0 then 0 else agent.config.maxIterations
    ensures r.calls == 0 ==> r.result == Ok(MaxIterationMessage) && r.history == [UserEntry(userInput)]
  {
    var start := [UserEntry(userInput)];
    var r := Loop(AgentSteps(agent), agent.config.maxIterations, 0, start);
    LoopExtendsHistory(AgentSteps(agent), agent.config.maxIterations, 0, start);
    assert r.history[..1][0] == r.history[0];
    r
  }

  /** The loop of `run`: call the model on the history, truncate and record
      its output, then stop, return, fail or record an observation. */
  method RunLoop(steps: Steps, max: int, userInput: string)
    returns (result: Result<string, string>, history: seq<string>, calls: nat)
    ensures RunOutcome(result, history, calls) == Loop(steps, max, 0, [UserEntry(userInput)])
    ensures history[0] == UserEntry(userInput)
    ensures calls <= if max < 0 then 0 else max
  {
    var start := [UserEntry(userInput)];
    ghost var target := Loop(steps, max, 0, start);
    history := start;
    var i: nat := 0;
    while i < max
      invariant i <= if max < 0 then 0 else max
      invariant |history| > 0 && history[0] == UserEntry(userInput)
      invariant Loop(steps, max, i, history).result == target.result
      invariant Loop(steps, max, i, history).history == target.history
      invariant Loop(steps, max, i, history).calls + i == target.calls
      decreases max - i
    {
      var output := steps.ask(i, history);
      output := steps.truncate(output);
      LoopStep(steps, max, i, history);
      history := history + [output];
      var d := steps.decide(output);
      if !d.Observed? {
        return Ending(d), history, i + 1;
      }
      history := history + [ObservationEntry(d.observation)];
      i := i + 1;
    }
    calls := i;
    result := Ok(MaxIterationMessage);
  }

  /** `run(user_input)` of a `TravelAgent`: each call gets the full prompt
      of the history so far. */
  method Run(agent: TravelAgent, userInput: string)
    returns (result: Result<string, string>, history: seq<string>, calls: nat)
    ensures RunOutcome(result, history, calls) == RunAgent(agent, userInput)
    ensures history[0] == UserEntry(userInput)
    ensures calls <= if agent.config.maxIterations < 0 then 0 else agent.config.maxIterations
  {
    result, history, calls := RunLoop(AgentSteps(agent), agent.config.maxIterations, userInput);
  }

  // ---------------------------------------------------------------------------
  // Properties of a run
  // ---------------------------------------------------------------------------

  /** The model output of call `i` after `truncate_multiple_actions`. */
  function OutputAt(agent: TravelAgent, i: nat, history: seq<string>): string {
    TruncateMultipleActions(agent.llm(i, RequestFor(agent, history)))
  }

  /** One iteration of the loop: the truncated output is recorded, then the
      run either ends or records the observation and goes on. */
  lemma LoopStep(steps: Steps, max: int, i: nat, history: seq<string>)
    requires i < max
    ensures var output := steps.truncate(steps.ask(i, history));
      var d := steps.decide(output);
      var r := Loop(steps, max, i, history);
      if d.Observed? then
        var next := Loop(steps, max, i + 1, history + [output, ObservationEntry(d.observation)]);
        r == RunOutcome(next.result, next.history, next.calls + 1)
      else r == RunOutcome(Ending(d), history + [output], 1)
  {
    var output := steps.truncate(steps.ask(i, history));
    var d := steps.decide(output);
    if d.Observed? {
      assert history + [output] + [ObservationEntry(d.observation)]
          == history + [output, ObservationEntry(d.observation)];
    }
  }

  /** A run only appends to the history it starts from. */
  lemma {:induction false} LoopExtendsHistory(steps: Steps, max: int, i: nat, history: seq<string>)
    ensures var r := Loop(steps, max, i, history);
      |history| <= |r.history| && r.history[..|history|] == history
    decreases max - i
  {
    if i < max {
      LoopStep(steps, max, i, history);
      var output := steps.truncate(steps.ask(i, history));
      var d := steps.decide(output);
      if d.Observed? {
        var h2 := history + [output, ObservationEntry(d.observation)];
        LoopExtendsHistory(steps, max, i + 1, h2);
        assert h2[..|history|] == history;
      } else {
        assert (history + [output])[..|history|] == history;
      }
    }
  }

  /** A run that records an observation after every call has run out of
      iterations and returns the exhaustion message. */
  lemma {:induction false} LoopExhausted(steps: Steps, max: int, i: nat, history: seq<string>)
    ensures var r := Loop(steps, max, i, history);
      |r.history| == |history| + 2 * r.calls ==>
        && r.result == Ok(MaxIterationMessage)
        && r.calls == (if i < max then max - i else 0)
    decreases max - i
  {
    if i < max {
      LoopStep(steps, max, i, history);
      var output := steps.truncate(steps.ask(i, history));
      var d := steps.decide(output);
      if d.Observed? {
        LoopExhausted(steps, max, i + 1, history + [output, ObservationEntry(d.observation)]);
      }
    }
  }

  /** A run that ends right after recording a model output ends because the
      decision on that output does not go on. */
  lemma {:induction false} LoopEndsEarly(steps: Steps, max: int, i: nat, history: seq<string>)
    ensures var r := Loop(steps, max, i, history);
      |r.history| != |history| + 2 * r.calls ==> !steps.decide(r.history[|r.history| - 1]).Observed?
    decreases max - i
  {
    if i < max {
      LoopStep(steps, max, i, history);
      var output := steps.truncate(steps.ask(i, history));
      var d := steps.decide(output);
      if d.Observed? {
        var h2 := history + [output, ObservationEntry(d.observation)];
        LoopEndsEarly(steps, max, i + 1, h2);
        assert |h2| == |history| + 2;
      } else {
        assert (history + [output])[|history|] == output;
      }
    }
  }

  /** Such a run returns what the decision says: the exhaustion message when
      there is no action, the answer of a `finish`, or the error of a
      malformed action. */
  lemma {:induction false} LoopEndsWith(steps: Steps, max: int, i: nat, history: seq<string>)
    ensures var r := Loop(steps, max, i, history);
      |r.history| != |history| + 2 * r.calls ==>
        var d := steps.decide(r.history[|r.history| - 1]);
        !d.Observed? && r.result == Ending(d)
    decreases max - i
  {
    LoopEndsEarly(steps, max, i, history);
    if i < max {
      LoopStep(steps, max, i, history);
      var output := steps.truncate(steps.ask(i, history));
      var d := steps.decide(output);
      if d.Observed? {
        var h2 := history + [output, ObservationEntry(d.observation)];
        LoopEndsWith(steps, max, i + 1, h2);
        assert |h2| == |history| + 2;
      } else {
        assert (history + [output])[|history|] == output;
      }
    }
  }

  /** `run` starts from `["user input: ..."]` whatever the history was, so
      earlier runs do not change what a run does. */
  lemma {:induction false} RunIgnoresEarlierHistory(agent: TravelAgent, earlier: seq<string>, userInput: string)
    ensures RunAgent(agent.(history := earlier), userInput) == RunAgent(agent, userInput)
  {
    var other := agent.(history := earlier);
    forall j: nat, h: seq<string>
      ensures AgentSteps(other).ask(j, h) == AgentSteps(agent).ask(j, h)
    {
      assert RequestFor(other, h) == RequestFor(agent, h);
    }
    LoopSameSteps(AgentSteps(other), AgentSteps(agent), agent.config.maxIterations, 0, [UserEntry(userInput)]);
  }

  /** Two sets of steps that agree on every input give the same run. */
  lemma {:induction false} LoopSameSteps(steps: Steps, other: Steps, max: int, i: nat, history: seq<string>)
    requires forall j: nat, h: seq<string> :: steps.ask(j, h) == other.ask(j, h)
    requires forall x :: steps.truncate(x) == other.truncate(x)
    requires forall x :: steps.decide(x) == other.decide(x)
    ensures Loop(steps, max, i, history) == Loop(other, max, i, history)
    decreases max - i
  {
    if i < max {
      LoopStep(steps, max, i, history);
      LoopStep(other, max, i, history);
      var output := steps.truncate(steps.ask(i, history));
      var d := steps.decide(output);
      assert other.truncate(other.ask(i, history)) == output && other.decide(output) == d;
      if d.Observed? {
        LoopSameSteps(steps, other, max, i + 1, history + [output, ObservationEntry(d.observation)]);
      }
    }
  }

  /** The first request of a run has the user entry alone as its prompt, and
      the run leaves the user entry first in the history. */
  lemma RunStartsWithUserInput(agent: TravelAgent, userInput: string)
    ensures RequestFor(agent, [UserEntry(userInput)]).prompt == UserEntry(userInput)
    ensures RunAgent(agent, userInput).history[0] == UserEntry(userInput)
    ensures RunAgent(agent, userInput).calls <= if agent.config.maxIterations < 0 then 0 else agent.config.maxIterations
  {
    var r := RunAgent(agent, userInput);
    LoopExtendsHistory(AgentSteps(agent), agent.config.maxIterations, 0, [UserEntry(userInput)]);
    assert r.history[..1][0] == r.history[0];
  }

  /** No action (or an empty one): the loop breaks after this call and `run`
      returns the same message as when the iterations run out. */
  lemma NoActionStops(agent: TravelAgent, i: nat, history: seq<string>)
    requires i < agent.config.maxIterations
    requires var action := ParseLlmOutput(OutputAt(agent, i, history)).action;
      action.None? || action.value == []
    ensures Loop(AgentSteps(agent), agent.config.maxIterations, i, history)
         == RunOutcome(Ok(MaxIterationMessage), history + [OutputAt(agent, i, history)], 1)
  {
    LoopStep(AgentSteps(agent), agent.config.maxIterations, i, history);
  }

  /** An action that starts with `finish` ends the run with the slice `[7:-1]`
      of the action, and no tool is involved: any other tools give the same
      outcome. */
  lemma FinishReturnsAnswer(agent: TravelAgent, i: nat, history: seq<string>, otherTools: map<string, Tool>)
    requires i < agent.config.maxIterations
    requires var action := ParseLlmOutput(OutputAt(agent, i, history)).action;
      action.Some? && IsPrefix(FinishToken, action.value)
    ensures var action := ParseLlmOutput(OutputAt(agent, i, history)).action.value;
      Loop(AgentSteps(agent), agent.config.maxIterations, i, history)
      == RunOutcome(Ok(PySlice(action, 7, -1)), history + [OutputAt(agent, i, history)], 1)
    ensures var other := agent.(tools := otherTools);
      Loop(AgentSteps(other), agent.config.maxIterations, i, history)
      == Loop(AgentSteps(agent), agent.config.maxIterations, i, history)
  {
    LoopStep(AgentSteps(agent), agent.config.maxIterations, i, history);
    var other := agent.(tools := otherTools);
    LoopStep(AgentSteps(other), agent.config.maxIterations, i, history);
    assert OutputAt(other, i, history) == OutputAt(agent, i, history);
  }

  /** A non-`finish` action without the shape `name(...)`: the `ValueError` of
      `parse_action` escapes `run` after the output is recorded. */
  lemma MalformedActionRaises(agent: TravelAgent, i: nat, history: seq<string>)
    requires i < agent.config.maxIterations
    requires var action := ParseLlmOutput(OutputAt(agent, i, history)).action;
      action.Some? && action.value != [] && !IsPrefix(FinishToken, action.value)
      && CallShape(action.value).None?
    ensures var action := ParseLlmOutput(OutputAt(agent, i, history)).action.value;
      Loop(AgentSteps(agent), agent.config.maxIterations, i, history)
      == RunOutcome(Err(InvalidActionMessage(action)), history + [OutputAt(agent, i, history)], 1)
  {
    LoopStep(AgentSteps(agent), agent.config.maxIterations, i, history);
  }

  /** A call of a tool the agent does not have: the observation is the
      "tool undefined" message and the run goes on, two entries longer. */
  lemma UndefinedToolContinues(agent: TravelAgent, i: nat, history: seq<string>, call: Invocation)
    requires i < agent.config.maxIterations
    requires var action := ParseLlmOutput(OutputAt(agent, i, history)).action;
      action.Some? && action.value != [] && !IsPrefix(FinishToken, action.value)
      && ParseAction(action.value) == Ok(call)
    requires call.tool !in agent.tools
    ensures var output := OutputAt(agent, i, history);
      var next := Loop(AgentSteps(agent), agent.config.maxIterations, i + 1,
                       history + [output, ObservationEntry(UndefinedToolMessage(call.tool))]);
      Loop(AgentSteps(agent), agent.config.maxIterations, i, history)
      == RunOutcome(next.result, next.history, next.calls + 1)
  {
    LoopStep(AgentSteps(agent), agent.config.maxIterations, i, history);
  }

  /** A call of a tool the agent has: the tool gets the parsed keyword
      arguments, what it returns is recorded as the observation, and the run
      goes on. */
  lemma ToolResultRecorded(agent: TravelAgent, i: nat, history: seq<string>, call: Invocation)
    requires i < agent.config.maxIterations
    requires var action := ParseLlmOutput(OutputAt(agent, i, history)).action;
      action.Some? && action.value != [] && !IsPrefix(FinishToken, action.value)
      && ParseAction(action.value) == Ok(call)
    requires call.tool in agent.tools
    ensures var output := OutputAt(agent, i, history);
      var next := Loop(AgentSteps(agent), agent.config.maxIterations, i + 1,
                       history + [output, ObservationEntry(agent.tools[call.tool](call.args))]);
      Loop(AgentSteps(agent), agent.config.maxIterations, i, history)
      == RunOutcome(next.result, next.history, next.calls + 1)
  {
    LoopStep(AgentSteps(agent), agent.config.maxIterations, i, history);
  }

  /** The history of a run alternates model outputs and observations after
      the user entry: entries at odd positions are model outputs that
      `truncate` leaves alone, and entries at even positions after the first
      are observations. */
  predicate IsTranscript(truncate: string -> string, history: seq<string>) {
    && |history| > 0
    && (forall k :: 1 <= k < |history| && k % 2 == 1 ==> truncate(history[k]) == history[k])
    && (forall k :: 2 <= k < |history| && k % 2 == 0 ==> IsPrefix(ObservationPrefix, history[k]))
  }

  /** With a truncation that is idempotent, a run keeps the history a
      transcript. */
  lemma {:induction false} LoopKeepsTranscript(steps: Steps, max: int, i: nat, history: seq<string>)
    requires forall x :: steps.truncate(steps.truncate(x)) == steps.truncate(x)
    requires IsTranscript(steps.truncate, history) && |history| % 2 == 1
    ensures IsTranscript(steps.truncate, Loop(steps, max, i, history).history)
    decreases max - i
  {
    if i < max {
      LoopStep(steps, max, i, history);
      var output := steps.truncate(steps.ask(i, history));
      var d := steps.decide(output);
      TranscriptExtend(steps.truncate, history, output, if d.Observed? then d.observation else "");
      if d.Observed? {
        LoopKeepsTranscript(steps, max, i + 1, history + [output, ObservationEntry(d.observation)]);
      }
    }
  }

  /** A model output that truncation leaves alone, and then an observation,
      extend a transcript. */
  lemma TranscriptExtend(truncate: string -> string, history: seq<string>, output: string, observation: string)
    requires IsTranscript(truncate, history) && |history| % 2 == 1
    requires truncate(output) == output
    ensures IsTranscript(truncate, history + [output])
    ensures IsTranscript(truncate, history + [output, ObservationEntry(observation)])
    ensures |history + [output, ObservationEntry(observation)]| % 2 == 1
  {
    var h := history + [output];
    var h2 := history + [output, ObservationEntry(observation)];
    forall k | 1 <= k < |h| && k % 2 == 1
      ensures truncate(h[k]) == h[k]
    {
      if k < |history| {
        assert h[k] == history[k];
      }
    }
    forall k | 1 <= k < |h2| && k % 2 == 1
      ensures truncate(h2[k]) == h2[k]
    {
      if k < |history| {
        assert h2[k] == history[k];
      }
    }
    forall k | 2 <= k < |h2| && k % 2 == 0
      ensures IsPrefix(ObservationPrefix, h2[k])
    {
      if k < |history| {
        assert h2[k] == history[k];
      } else {
        assert h2[k][..|ObservationPrefix|] == ObservationPrefix;
      }
    }
  }

  /** The history a run leaves is a transcript: every model output in it is
      one that `truncate_multiple_actions` leaves alone. */
  lemma RunLeavesTranscript(agent: TravelAgent, userInput: string)
    ensures IsTranscript(TruncateMultipleActions, RunAgent(agent, userInput).history)
  {
    forall x: string
      ensures TruncateMultipleActions(TruncateMultipleActions(x)) == TruncateMultipleActions(x)
    {
      TruncateIdempotent(x);
    }
    LoopKeepsTranscript(AgentSteps(agent), agent.config.maxIterations, 0, [UserEntry(userInput)]);
  }
}
