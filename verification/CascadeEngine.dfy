/** `CascadeEngine.run`: one turn of the agent against an arbitrary model, backend and clock. */
module CascadeEngine {
  import opened ByteStrings
  import opened References
  import RemoteFetch

  const MAX_STEPS := 12
  const FREE_FORM_STEPS := 3
  const STAGNATION_STEPS := 2
  const MAX_QUEUED := 4
  const MIN_FETCH_BYTES := 64 * 1024

  datatype Action = Open | Play

  /** Arguments of a tool call: their canonical JSON text, and the fields the primitives look at. */
  datatype Arguments = Arguments(json: string, ref: Option<RefName>, action: Option<Action>,
                                 url: Option<string>, maxChars: Option<int>)

  datatype Call = Call(tool: string, arguments: Arguments)

  datatype Tool = Tool(name: string, integration: Option<string>)

  /** One reply of the model: an AgentStep, AgentUnavailableError, or any other exception. */
  datatype Reply =
    | Unavailable
    | Crashed
    | Answer(answer: string, refs: seq<RefName>, queued: seq<Call>)
    | Question(question: string, options: seq<string>, queued: seq<Call>)
    | ToolStep(call: Call, queued: seq<Call>)

  /** What becomes of the arguments at the schema of their tool: a ValueError, or an exception nobody expects. */
  datatype Check = Accepted | Rejected | CheckCrashed

  /** Replies of the backend. The engine catches ValueError, LookupError and RuntimeError (`Failed`); any other
      exception, say over a payload that is no object, leaves `run` (`Crashed`). `fits` says whether the record
      made of the reply keeps to its length limits; if not, the step fails like any other. */
  datatype InvokeReply = Found(references: seq<Reference>) | InvokeFailed | InvokeCrashed
  datatype ReadReply = Payload(text: string, isText: bool, fits: bool) | ReadFailed | ReadCrashed

  /** What a fetch runs into. `escapes` if an exception that the engine does not catch comes out of it, as the
      TimeoutError after 30 seconds does; the thread behind it goes on taking the answer. */
  datatype FetchReply = FetchReply(answer: RemoteFetch.Answer, escapes: bool, text: string, fits: bool)

  /** Everything outside the engine, by the index of the step at which it is asked: the tool catalog (None if
      asking for it raises), the clock, the model, the schemas, the backend, the network, and whether the progress
      hook returns. */
  datatype World = World(catalog: Option<seq<Tool>>, late: nat -> bool, model: nat -> Reply, accepts: nat -> Check,
                         invoke: nat -> InvokeReply, read: nat -> ReadReply, fetch: nat -> FetchReply,
                         notified: nat -> bool)
  {
    function Tools(): (tools: seq<Tool>) {
      if catalog.Some? then catalog.value else []
    }
  }

  datatype Request = Request(references: seq<Reference>, maxSteps: nat, maxFetchBytes: nat)

  datatype Status = Success | Empty | Skipped | Failed

  datatype Record = Record(tool: string, status: Status)

  /** What a step did to the world outside. A fetch has a limit, takes some bytes of the body, and reports them to
      the budget or not. */
  datatype Effect =
    | Nothing
    | Invoked(integration: string)
    | ReadItem(item: ItemId)
    | Fetched(limit: nat, bytes: nat, counted: bool)
    | Acted(action: Action, reference: Reference)

  /** One finished step: whether the turn was closing, which (tool, arguments) pair was executed, to what effect. */
  datatype Event = Event(closing: bool, executed: Option<(string, string)>, effect: Effect)

  datatype Ending =
    | Running
    | Final(answer: string, refs: seq<RefName>, fromModel: bool)
    | Asked(question: string, options: seq<string>)
    | Raised(last: Event)

  /** The variables of `run`, and the log of its finished steps. An exception that leaves `run` leaves the variables
      as they were before the step, whose event is in the ending. */
  datatype Turn = Turn(references: seq<Reference>, records: seq<Record>, executed: nat, seen: set<(string, string)>,
                       pending: seq<Call>, learned: seq<bool>, fetchBytes: nat,
                       clientAction: Option<Action>, clientRef: Option<RefName>, ending: Ending, log: seq<Event>)

  function Start(request: Request, world: World): (t: Turn) {
    Turn(request.references, [], 0, {}, [], [], 0, None, None,
         if world.catalog.None? then Raised(Event(false, None, Nothing)) else Running, [])
  }

  /** Everything a turn did, with the step that raised. */
  function Events(t: Turn): (events: seq<Event>) {
    t.log + if t.ending.Raised? then [t.ending.last] else []
  }

  /** `_can_keep_working`: all of the last two entries, once the free steps are over. */
  predicate CanKeepWorking(index: nat, progress: seq<bool>) {
    index < FREE_FORM_STEPS
    || forall k :: Max(0, |progress| - STAGNATION_STEPS) <= k < |progress| ==> progress[k]
  }

  predicate IsClosingTool(name: string) {
    name == "final" || name == "ask"
  }

  /** `by_name`: of two tools with one name the later counts. */
  function Lookup(name: string, tools: seq<Tool>): (r: Option<Tool>)
    ensures r.Some? ==> r.value in tools && r.value.name == name
    ensures r.None? <==> forall tool :: tool in tools ==> tool.name != name
  {
    if tools == [] then None
    else if tools[|tools| - 1].name == name then Some(tools[|tools| - 1])
    else Lookup(name, tools[..|tools| - 1])
  }

  /** The validator of AgentStep on a tool step. */
  predicate IsStep(call: Call) {
    0 < |call.tool| <= 128 && call.arguments.json != "{}"
  }

  // ---- executing one call ----

  /** How a call comes out: with a record, whatever its status, or with an exception that is not caught. */
  datatype Outcome =
    | Outcome(status: Status, found: seq<Reference>, bytes: nat, hasText: bool,
              acted: Option<(Action, RefName)>, effect: Effect)
    | Escaped(effect: Effect)

  function Failure(effect: Effect): (o: Outcome) {
    Outcome(Failed, [], 0, false, None, effect)
  }

  predicate IsRef(ref: Option<RefName>) {
    ref.Some? && (ref.value.Numbered? || 1 <= |ref.value.text| <= 200)
  }

  predicate CharsWithin(chars: Option<int>, limit: int) {
    chars.Some? ==> 256 <= chars.value <= limit
  }

  /** `_read` */
  function ExecuteRead(world: World, index: nat, arguments: Arguments, references: seq<Reference>): (r: Outcome) {
    if !IsRef(arguments.ref) || !CharsWithin(arguments.maxChars, 8000) then Failure(Nothing)
    else
      var reference := Find(arguments.ref.value, references);
      if reference.None? then Failure(Nothing)
      else
        var effect := ReadItem(reference.value.Item());
        match world.read(index)
        case ReadFailed => Failure(effect)
        case ReadCrashed => Escaped(effect)
        case Payload(text, isText, fits) =>
          if text == "" then
            if isText || !fits then Failure(effect) else Outcome(Empty, [], 0, false, None, effect)
          else if !fits then Failure(effect)
          else Outcome(Success, [], 0, true, None, effect)
  }

  const MAX_FETCH_CHARS := 12000

  /** `_fetch`. Whatever is taken of a page that is too large, breaks off, comes too late or does not fit its
      record is counted nowhere. */
  function ExecuteFetch(world: World, index: nat, arguments: Arguments, remaining: nat): (o: Outcome) {
    if arguments.url.None? || !(8 <= |arguments.url.value| <= 2000)
       || !CharsWithin(arguments.maxChars, MAX_FETCH_CHARS) then Failure(Nothing)
    else if remaining < MIN_FETCH_BYTES then Failure(Nothing)
    else
      var maxChars: nat := if arguments.maxChars.Some? then arguments.maxChars.value else MAX_FETCH_CHARS;
      var limit := Min(remaining, maxChars * 8);
      var reply := world.fetch(index);
      var page := RemoteFetch.Fetch(reply.answer, limit);
      if reply.escapes then Escaped(Fetched(limit, page.taken, false))
      else if !page.complete || !reply.fits then Failure(Fetched(limit, page.taken, false))
      else Outcome(Success, [], page.taken, reply.text != "", None, Fetched(limit, page.taken, true))
  }

  /** `_act` */
  function ExecuteAct(arguments: Arguments, references: seq<Reference>): (r: Outcome) {
    if !IsRef(arguments.ref) || arguments.action.None? then Failure(Nothing)
    else
      var reference := Find(arguments.ref.value, references);
      if reference.None? then Failure(Nothing)
      else if arguments.action.value == Play && !reference.value.playable then Failure(Nothing)
      else if reference.value.openUrl == "" then Failure(Nothing)
      else Outcome(Success, [], 0, false, Some((arguments.action.value, reference.value.ref)),
                   Acted(arguments.action.value, reference.value))
  }

  /** `_execute` */
  function Execute(world: World, index: nat, tool: Tool, arguments: Arguments, references: seq<Reference>,
                   remaining: nat): (r: Outcome) {
    if tool.name == "read" then ExecuteRead(world, index, arguments, references)
    else if tool.name == "fetch" then ExecuteFetch(world, index, arguments, remaining)
    else if tool.name == "act" then ExecuteAct(arguments, references)
    else if tool.integration.None? then Failure(Nothing)
    else if world.accepts(index).Rejected? then Failure(Nothing)
    else if world.accepts(index).CheckCrashed? then Escaped(Nothing)
    else
      var effect := Invoked(tool.integration.value);
      match world.invoke(index)
      case InvokeFailed => Failure(effect)
      case InvokeCrashed => Escaped(effect)
      case Found(references) =>
        if |references| > MAX_REFERENCES then Failure(effect)
        else Outcome(if references != [] then Success else Empty, references, 0, false, None, effect)
  }

  // ---- one step ----

  /** A step that did nothing but leave a record. */
  function Note(t: Turn, closing: bool, tool: string, status: Status, executed: nat): (turn: Turn) {
    t.(records := t.records + [Record(tool, status)], learned := t.learned + [false], executed := t.executed + executed,
       log := t.log + [Event(closing, None, Nothing)])
  }

  /** The part of the loop body behind the model's decision. */
  function Handle(request: Request, world: World, index: nat, closing: bool, t: Turn, call: Call): (turn: Turn) {
    var tool := Lookup(call.tool, world.Tools());
    if tool.None? then Note(t, closing, call.tool, Failed, 1)
    else if closing && !IsClosingTool(call.tool) then Note(t, closing, call.tool, Failed, 1)
    else
      var signature := (call.tool, call.arguments.json);
      if signature in t.seen then Note(t, closing, call.tool, Skipped, 0)
      else
        var outcome := Execute(world, index, tool.value, call.arguments, t.references,
                               Max(0, request.maxFetchBytes - t.fetchBytes));
        var event := Event(closing, Some(signature), outcome.effect);
        if outcome.Escaped? || !world.notified(index) then t.(ending := Raised(event))
        else
          var references := Merge(t.references, outcome.found);
          var first := outcome.acted.Some? && t.clientAction.None?;
          t.(references := references, records := t.records + [Record(call.tool, outcome.status)],
             executed := t.executed + 1, seen := t.seen + {signature}, fetchBytes := t.fetchBytes + outcome.bytes,
             clientAction := if first then Some(outcome.acted.value.0) else t.clientAction,
             clientRef := if first then Some(outcome.acted.value.1) else t.clientRef,
             learned := t.learned + [|references| > |t.references| || outcome.hasText],
             log := t.log + [event])
  }

  /** `pending.extend(step.queued[:4]); del pending[4:]` */
  function NextQueue(pending: seq<Call>, reply: Reply, closing: bool): (items: seq<Call>)
    requires !reply.Unavailable? && !reply.Crashed?
  {
    if closing || reply.queued == [] then pending
    else
      var more := pending + reply.queued[..Min(|reply.queued|, MAX_QUEUED)];
      more[..Min(|more|, MAX_QUEUED)]
  }

  /** The body of the loop. */
  function Step(request: Request, world: World, index: nat, t: Turn): (turn: Turn) {
    if world.late(index) then t.(ending := Final("out of time", [], false))
    else
      var closing := !CanKeepWorking(index, t.learned);
      if t.pending != [] && !closing then
        // The model asked for several things at once: they run in order, and carry no further queue.
        var call := t.pending[0];
        if !IsStep(call) then t.(ending := Raised(Event(closing, None, Nothing)))
        else Handle(request, world, index, closing, t.(pending := t.pending[1..]), call)
      else
        var reply := world.model(index);
        if reply.Crashed? || (reply.Unavailable? && !world.notified(index)) then
          t.(ending := Raised(Event(closing, None, Nothing)))
        else if reply.Unavailable? then t.(ending := Final("the model is unavailable", [], false))
        else
          var t' := t.(pending := NextQueue(t.pending, reply, closing));
          match reply
          case Answer(answer, refs, _) => t'.(ending := Final(answer, refs, true))
          case Question(question, options, _) => t'.(ending := Asked(question, options))
          case ToolStep(call, _) => Handle(request, world, index, closing, t', call)
  }

  /** The turn after `n` iterations. */
  function After(request: Request, world: World, n: nat): (turn: Turn) {
    if n == 0 then Start(request, world)
    else
      var t := After(request, world, n - 1);
      if t.ending.Running? then Step(request, world, n - 1, t) else t
  }

  // ---- the result ----

  datatype Result =
    | Error
    | Result(answer: string, refs: seq<RefName>, clientAction: Option<Action>, clientRef: Option<RefName>,
             question: Option<string>, options: seq<string>, steps: seq<Record>, references: seq<Reference>,
             exhausted: bool)

  function FirstRefs(references: seq<Reference>): (items: seq<RefName>) {
    seq(Min(|references|, 3), i requires 0 <= i < |references| => references[i].ref)
  }

  /** What follows the loop. */
  function Finish(t: Turn): (r: Result) {
    match t.ending
    case Raised(_) => Error
    case Running =>
      Result("out of steps", [], t.clientAction, t.clientRef, None, [], t.records, t.references, true)
    case Asked(question, options) =>
      Result("", [], t.clientAction, t.clientRef, Some(question), options, t.records, t.references, false)
    case Final(answer, refs, fromModel) =>
      var attached :=
        if fromModel && refs == [] then
          if t.clientRef.Some? && Find(t.clientRef.value, t.references).Some? then [t.clientRef.value]
          else if t.executed > 0 then FirstRefs(t.references)
          else []
        else refs;
      Result(answer, attached, t.clientAction, t.clientRef, None, [], t.records, t.references, false)
  }

  /** `run` */
  method Run(request: Request, world: World) returns (result: Result, turn: Turn)
    ensures turn == After(request, world, request.maxSteps) && result == Finish(turn)
    ensures result.Error? <==> turn.ending.Raised?
    ensures result.Result? ==>
              && result.steps == turn.records && result.references == turn.references
              && result.clientAction == turn.clientAction && result.clientRef == turn.clientRef
    ensures turn.ending.Final? ==>
              result.answer == turn.ending.answer && result.question == None && result.options == []
    ensures turn.ending.Asked? ==>
              && result.answer == "" && result.question == Some(turn.ending.question)
              && result.options == turn.ending.options && result.refs == []
  {
    turn := Start(request, world);
    var index := 0;
    while index < request.maxSteps && turn.ending.Running?
      invariant index <= request.maxSteps && turn == After(request, world, index)
    {
      turn := Step(request, world, index, turn);
      index := index + 1;
    }
    Settled(request, world, index, request.maxSteps);
    result := Finish(turn);
  }

  lemma {:induction false} Settled(request: Request, world: World, k: nat, n: nat)
    requires k <= n && (k < n ==> !After(request, world, k).ending.Running?)
    ensures After(request, world, n) == After(request, world, k)
  {
    if k < n {
      Settled(request, world, k, n - 1);
    }
  }
}
