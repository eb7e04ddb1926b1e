/** Guarantees about whole turns, for every model, every backend and every clock. */
module EngineRuns {
  import opened ByteStrings
  import opened References
  import opened CascadeEngine
  import RemoteFetch

  // ---- what the engine is given ----

  /** The validators of AgentStep, AgentFinalRequest and AgentAskRequest. */
  predicate ValidReply(reply: Reply) {
    match reply
    case Unavailable => true
    case Crashed => true
    case Answer(answer, refs, queued) => 1 <= |answer| <= 2000 && |refs| <= 20 && |queued| <= MAX_QUEUED
    case Question(question, options, queued) => 1 <= |question| <= 300 && |options| <= 4 && |queued| <= MAX_QUEUED
    case ToolStep(call, queued) => IsStep(call) && |queued| <= MAX_QUEUED
  }

  function Queued(reply: Reply): (items: seq<Call>) {
    if reply.Unavailable? || reply.Crashed? then [] else reply.queued
  }

  /** The two closing tools are primitives and stand for no integration: the names of integration tools end
      in a version number. */
  predicate ValidCatalog(tools: seq<Tool>) {
    forall tool :: tool in tools && IsClosingTool(tool.name) ==> tool.integration.None?
  }

  /** The validators of AgentTurnRequest, AgentBudget and AgentReference. */
  predicate ValidRequest(request: Request) {
    && WellNamed(request.references) && 1 <= request.maxSteps <= MAX_STEPS
    && request.maxFetchBytes >= MIN_FETCH_BYTES
  }

  // ---- the shape of a step ----

  /** Exactly one record, one progress entry and one event more. */
  ghost predicate OneMore(t: Turn, t': Turn) {
    && |t'.log| == |t.log| + 1 && t.log <= t'.log
    && |t'.learned| == |t.learned| + 1 && t.learned <= t'.learned
    && |t'.records| == |t.records| + 1 && t.records <= t'.records
  }

  lemma HandleShape(request: Request, world: World, index: nat, closing: bool, t: Turn, call: Call)
    requires t.ending.Running?
    ensures var t' := Handle(request, world, index, closing, t, call);
            if t'.ending.Running? then
              OneMore(t, t') && t'.log[|t.log|].closing == closing && t'.ending == t.ending && t'.pending == t.pending
            else t'.ending.Raised? && t' == t.(ending := t'.ending) && t'.ending.last.closing == closing
  {
    hide Execute, Lookup, Merge;
  }

  /** A step that goes on leaves exactly one record, one progress entry and one event; a step that ends the
      loop leaves none and changes nothing but the ending and the queue. */
  lemma StepShape(request: Request, world: World, index: nat, t: Turn)
    requires t.ending.Running?
    ensures var t' := Step(request, world, index, t);
            if t'.ending.Running? then OneMore(t, t') && t'.log[|t.log|].closing == !CanKeepWorking(index, t.learned)
            else t' == t.(ending := t'.ending, pending := t'.pending)
                 && (t'.ending.Raised? ==> t'.ending.last.closing == !CanKeepWorking(index, t.learned))
  {
    hide Handle, CanKeepWorking;
    if StepHandles(world, index, t) {
      var (closing, from, call) := Handled(world, index, t);
      HandleShape(request, world, index, closing, from, call);
    }
  }

  /** Whether the step comes to handle a call. */
  predicate StepHandles(world: World, index: nat, t: Turn) {
    && !world.late(index)
    && if t.pending != [] && CanKeepWorking(index, t.learned) then IsStep(t.pending[0])
           else world.model(index).ToolStep?
  }

  /** Which call a step handles, and with what queue. */
  function Handled(world: World, index: nat, t: Turn): (r: (bool, Turn, Call))
    requires StepHandles(world, index, t)
  {
    var closing := !CanKeepWorking(index, t.learned);
    if t.pending != [] && !closing then (closing, t.(pending := t.pending[1..]), t.pending[0])
    else (closing, t.(pending := NextQueue(t.pending, world.model(index), closing)), world.model(index).call)
  }

  /** A step handles its call, or only changes the ending and the queue. */
  lemma StepCases(request: Request, world: World, index: nat, t: Turn)
    requires t.ending.Running?
    ensures var t' := Step(request, world, index, t);
            if StepHandles(world, index, t) then
              var (closing, from, call) := Handled(world, index, t);
              t' == Handle(request, world, index, closing, from, call) && from == t.(pending := from.pending)
            else t' == t.(ending := t'.ending, pending := t'.pending) && !t'.ending.Running?
                 && (t'.ending.Raised? ==>
                       t'.ending.last.executed.None? && t'.ending.last.effect == Nothing)
  {
    hide Handle, CanKeepWorking, NextQueue;
  }

  lemma {:induction false} RunShape(request: Request, world: World, n: nat)
    ensures var t := After(request, world, n);
            && |t.log| == |t.learned| == |t.records| <= n && (t.ending.Running? ==> |t.log| == n)
  {
    hide Step;
    if n > 0 {
      RunShape(request, world, n - 1);
      if After(request, world, n - 1).ending.Running? {
        StepShape(request, world, n - 1, After(request, world, n - 1));
      }
    }
  }

  // ---- closing is absorbing ----

  /** A closing step touches nothing outside, and its progress entry is False. */
  lemma ClosingStepIsIdle(request: Request, world: World, index: nat, t: Turn)
    requires t.ending.Running? && ValidCatalog(world.Tools()) && !CanKeepWorking(index, t.learned)
    ensures var t' := Step(request, world, index, t);
            && t'.pending == t.pending && t'.references == t.references && t'.fetchBytes == t.fetchBytes
            && t'.clientAction == t.clientAction && t'.clientRef == t.clientRef
            && (t'.ending.Running? ==>
                  OneMore(t, t') && t'.log[|t.log|].effect == Nothing && !t'.learned[|t.learned|])
            && (t'.ending.Raised? ==> t'.ending.last.effect == Nothing)
  {
    hide CanKeepWorking, ExecuteRead, ExecuteFetch, ExecuteAct;
  }

  /** Closing is absorbing. In every run, once a step was closing, every later step is; none of them reaches
      the backend or the user's screen, each adds False to the progress, the queue is dead, and neither the
      references nor the byte count nor the action change again, whatever the model replies. */
  lemma {:induction false} ClosingIsAbsorbing(request: Request, world: World, i: nat, n: nat)
    requires ValidCatalog(world.Tools()) && i < n
    requires i < |After(request, world, n).log| && After(request, world, n).log[i].closing
    ensures var t, at := After(request, world, n), After(request, world, i);
            && |t.learned| == |t.log|
            && (forall j :: i <= j < |t.log| ==> t.log[j].closing && t.log[j].effect == Nothing && !t.learned[j])
            && (t.ending.Running? ==> !CanKeepWorking(n, t.learned))
            && (t.ending.Raised? ==> t.ending.last.closing && t.ending.last.effect == Nothing)
            && at.ending.Running? && t.pending == at.pending && t.references == at.references
            && t.fetchBytes == at.fetchBytes && t.clientAction == at.clientAction && t.clientRef == at.clientRef
  {
    hide Step, CanKeepWorking;
    var before := After(request, world, n - 1);
    RunShape(request, world, n - 1);
    RunShape(request, world, n);
    if before.ending.Running? {
      StepShape(request, world, n - 1, before);
      if i < n - 1 {
        ClosingIsAbsorbing(request, world, i, n - 1);
      }
      ClosingStepIsIdle(request, world, n - 1, before);
      StillClosing(n - 1, before.learned, After(request, world, n).learned);
    } else {
      ClosingIsAbsorbing(request, world, i, n - 1);
    }
  }

  /** One False keeps the turn closing for another step. */
  lemma StillClosing(index: nat, before: seq<bool>, after: seq<bool>)
    ensures !CanKeepWorking(index, before) && |after| == |before| + 1 && !after[|before|]
            ==> !CanKeepWorking(index + 1, after)
  {
  }

  /** Some step from the second on has learned nothing. */
  ghost predicate Idled(learned: seq<bool>, k: nat)
    requires k <= |learned|
  {
    exists j :: 1 <= j < k && !learned[j]
  }

  /** When exactly a turn closes: from the fourth step on, for good, as soon as ONE step behind the first has
      learned nothing. Two idle steps in a row, as documented, are not needed, and the very first may be idle. */
  lemma {:induction false} ClosesExactly(request: Request, world: World, n: nat)
    requires ValidCatalog(world.Tools())
    ensures var t := After(request, world, n);
            |t.learned| == |t.log| && forall k :: 0 <= k < |t.log| ==>
              (t.log[k].closing <==> k >= 3 && Idled(t.learned, k))
  {
    hide Step, CanKeepWorking, Idled;
    RunShape(request, world, n);
    if n > 0 {
      ClosesExactly(request, world, n - 1);
      RunShape(request, world, n - 1);
      var before, t := After(request, world, n - 1), After(request, world, n);
      if before.ending.Running? {
        StepShape(request, world, n - 1, before);
        var k := |before.log|;
        forall m | 0 <= m <= k && m <= |t.learned| ensures Idled(t.learned, m) <==> Idled(before.learned, m) {
          SameIdle(before.learned, t.learned, m);
        }
        LastTwo(before.learned, k);
        if k > FREE_FORM_STEPS && before.log[k - 1].closing {
          ClosingIsAbsorbing(request, world, k - 1, n - 1);
        }
      }
    }
  }

  lemma SameIdle(a: seq<bool>, b: seq<bool>, k: nat)
    requires k <= |a| && a <= b
    ensures Idled(a, k) <==> Idled(b, k)
  {
    assert forall j | 0 <= j < k :: a[j] == b[j];
  }

  /** The last two entries decide, and the entry before the last is one of those before it. */
  lemma LastTwo(learned: seq<bool>, k: nat)
    requires k == |learned|
    ensures !CanKeepWorking(k, learned) <==> k >= FREE_FORM_STEPS && (!learned[k - 1] || !learned[k - 2])
    ensures k >= 2 ==> (Idled(learned, k) <==> (Idled(learned, k - 1) || !learned[k - 1]))
    ensures k >= 3 ==> (Idled(learned, k - 1) <==> (Idled(learned, k - 2) || !learned[k - 2]))
    ensures k == 3 ==> !Idled(learned, 1)
  {
    if k >= 2 {
      OneLess(learned, k);
    }
    if k >= 3 {
      OneLess(learned, k - 1);
      assert k >= FREE_FORM_STEPS;
      assert CanKeepWorking(k, learned) ==> learned[k - 2] && learned[k - 1];
    }
  }

  lemma OneLess(learned: seq<bool>, k: nat)
    requires 2 <= k <= |learned|
    ensures Idled(learned, k) <==> Idled(learned, k - 1) || !learned[k - 1]
  {
    if j :| 1 <= j < k && !learned[j] {
      assert j == k - 1 || Idled(learned, k - 1);
    }
  }

  const SEARCH := Tool("search", Some("m.search.v1"))

  function Hit(item: string): (r: Reference) {
    Reference(Numbered(1), "m", item, false, "")
  }

  function SearchCall(json: string): (call: Call) {
    Call("search", Arguments(json, None, None, None, None))
  }

  /** A model that searches, calls a tool that is not there, and searches for something else. */
  function Halting(i: nat): (reply: Reply) {
    if i == 0 then ToolStep(SearchCall("a"), [])
    else if i == 1 then ToolStep(Call("other", SearchCall("c").arguments), [])
    else ToolStep(SearchCall("b"), [])
  }

  /** Both searches hit. */
  const HALTING := World(Some([SEARCH]), _ => false, (i: nat) => Halting(i), _ => Accepted,
                         (i: nat) => Found([Hit(if i == 0 then "x" else "y")]), _ => ReadFailed,
                         _ => FetchReply(RemoteFetch.TurnedDown, false, "", true), _ => true)

  const PATIENT := Request([], MAX_STEPS, MIN_FETCH_BYTES)

  /** A search in that world that brings something new. */
  lemma SearchStep(i: nat, json: string, item: string, t: Turn)
    requires HALTING.model(i) == ToolStep(SearchCall(json), []) && HALTING.invoke(i) == Found([Hit(item)])
    requires i < FREE_FORM_STEPS && t.ending.Running? && t.pending == [] && ("search", json) !in t.seen
    requires |t.references| < MAX_REFERENCES && !Knows(t.references, ("m", item))
    ensures var t' := Step(PATIENT, HALTING, i, t);
            && t'.ending.Running? && t'.pending == [] && t'.seen == t.seen + {("search", json)}
            && t'.learned == t.learned + [true]
            && t'.references == t.references + [Hit(item).(ref := Numbered(|t.references| + 1))]
  {
    hide CanKeepWorking, Knows, Append, Merge;
    EarlyStepsAreFree(i, t.learned);
    assert Lookup("search", HALTING.Tools()) == Some(SEARCH);
    assert "search"[0] == 's' && "read"[0] == 'r' && "fetch"[0] == 'f' && "act"[0] == 'a';
    MergeOne(t.references, Hit(item));
  }

  lemma MergeOne(references: seq<Reference>, found: Reference)
    requires |references| < MAX_REFERENCES && !Knows(references, found.Item())
    ensures Merge(references, [found]) == references + [found.(ref := Numbered(|references| + 1))]
  {
    hide Knows;
    assert [found][1..] == [];
    var merged := references + [found.(ref := Numbered(|references| + 1))];
    assert Append(references, [found]) == Append(merged, []) == merged;
    assert merged[..|merged|] == merged;
  }

  lemma UnknownStep(t: Turn)
    requires t.ending.Running? && t.pending == []
    ensures var t' := Step(PATIENT, HALTING, 1, t);
            && t'.ending.Running? && t'.pending == [] && t'.seen == t.seen && t'.references == t.references
            && t'.learned == t.learned + [false]
  {
    hide CanKeepWorking;
    EarlyStepsAreFree(1, t.learned);
    assert "other"[0] == 'o' && "search"[0] == 's';
    assert Lookup("other", HALTING.Tools()) == None;
  }

  /** Not two idle steps in a row, as documented: this turn has had one, between two that found something, and it
      closes all the same. */
  lemma OneIdleStepCloses()
    ensures ValidRequest(PATIENT) && ValidCatalog(HALTING.Tools()) && forall i: nat :: ValidReply(HALTING.model(i))
    ensures var t := After(PATIENT, HALTING, 3);
            t.ending.Running? && t.learned == [true, false, true] && !CanKeepWorking(3, t.learned)
  {
    hide Step, After, CanKeepWorking, Knows;
    HaltingIsValid();
    SearchesDiffer();
    AfterNone(PATIENT, HALTING);
    SearchStep(0, "a", "x", After(PATIENT, HALTING, 0));
    AfterNext(PATIENT, HALTING, 0);
    UnknownStep(After(PATIENT, HALTING, 1));
    AfterNext(PATIENT, HALTING, 1);
    SearchStep(2, "b", "y", After(PATIENT, HALTING, 2));
    AfterNext(PATIENT, HALTING, 2);
    var t := After(PATIENT, HALTING, 3);
    assert t.learned == [true, false, true];
    LastTwo(t.learned, 3);
  }

  lemma AfterNone(request: Request, world: World)
    ensures After(request, world, 0) == Start(request, world)
  {
  }

  lemma AfterNext(request: Request, world: World, n: nat)
    requires After(request, world, n).ending.Running?
    ensures After(request, world, n + 1) == Step(request, world, n, After(request, world, n))
  {
  }

  lemma SearchesDiffer()
    ensures ("search", "b") !in {("search", "a")} && !Knows([], ("m", "x"))
    ensures !Knows([] + [Hit("x").(ref := Numbered(1))], ("m", "y"))
  {
    assert "a"[0] != "b"[0] && "x"[0] != "y"[0];
  }

  lemma HaltingStep(i: nat)
    ensures HALTING.model(i) == Halting(i) && ValidReply(Halting(i))
  {
    assert |"search"| == 6 && |"other"| == 5 && |"{}"| == 2 && |"a"| == |"b"| == |"c"| == 1;
  }

  lemma HaltingIsValid()
    ensures ValidRequest(PATIENT) && ValidCatalog(HALTING.Tools()) && forall i: nat :: ValidReply(HALTING.model(i))
  {
    forall i: nat ensures ValidReply(HALTING.model(i)) {
      HaltingStep(i);
    }
    assert "search"[0] == 's' && "final"[0] == 'f' && "ask"[0] == 'a';
  }

  // ---- no call twice ----

  ghost predicate NoRepeats(events: seq<Event>) {
    forall i, j :: 0 <= i < j < |events| && events[i].executed.Some? ==> events[i].executed != events[j].executed
  }

  ghost predicate AllSeen(log: seq<Event>, seen: set<(string, string)>) {
    forall i :: 0 <= i < |log| && log[i].executed.Some? ==> log[i].executed.value in seen
  }

  lemma HandleExecutes(request: Request, world: World, index: nat, closing: bool, t: Turn, call: Call)
    requires t.ending.Running? && NoRepeats(t.log) && AllSeen(t.log, t.seen)
    ensures var t' := Handle(request, world, index, closing, t, call);
            NoRepeats(Events(t')) && (t'.ending.Running? ==> AllSeen(t'.log, t'.seen))
  {
    hide Execute, Lookup, Merge;
  }

  /** No (tool, arguments) pair is executed twice in a run, not even by the step that raises. */
  lemma {:induction false} NothingTwice(request: Request, world: World, n: nat)
    ensures var t := After(request, world, n);
            NoRepeats(Events(t)) && (t.ending.Running? ==> AllSeen(t.log, t.seen))
  {
    hide Handle, Step, StepHandles, Handled;
    if n > 0 {
      NothingTwice(request, world, n - 1);
      var before := After(request, world, n - 1);
      if before.ending.Running? {
        StepCases(request, world, n - 1, before);
        assert Events(before) == before.log;
        if StepHandles(world, n - 1, before) {
          var (closing, from, call) := Handled(world, n - 1, before);
          HandleExecutes(request, world, n - 1, closing, from, call);
        } else {
          IdleEnd(before, After(request, world, n));
        }
      }
    }
  }

  /** An ending that executed nothing adds no execution. */
  lemma IdleEnd(t: Turn, t': Turn)
    requires t.ending.Running? && NoRepeats(t.log) && t'.log == t.log
    requires t'.ending.Raised? ==> t'.ending.last.executed.None?
    ensures NoRepeats(Events(t'))
  {
  }

  // ---- the byte budget ----

  function CountedBytes(events: seq<Event>): (n: nat) {
    if events == [] then 0
    else
      var last := events[|events| - 1].effect;
      CountedBytes(events[..|events| - 1]) + if last.Fetched? && last.counted then last.bytes else 0
  }

  /** Every body byte that was taken from the network, whatever became of it. */
  function DownloadedBytes(events: seq<Event>): (n: nat) {
    if events == [] then 0
    else
      var last := events[|events| - 1].effect;
      DownloadedBytes(events[..|events| - 1]) + if last.Fetched? then last.bytes else 0
  }

  function UncountedFetches(events: seq<Event>): (n: nat) {
    if events == [] then 0
    else
      var last := events[|events| - 1].effect;
      UncountedFetches(events[..|events| - 1]) + if last.Fetched? && !last.counted then 1 else 0
  }

  /** A fetch that costs nothing beyond what is counted: it fails before a body byte arrives, or the whole page
      arrives in time, within the limit, and fits its record. */
  predicate IsTame(reply: FetchReply, limit: nat) {
    || reply.answer.TurnedDown? || RemoteFetch.TooLongByName(reply.answer, limit) || reply.answer.chunks == []
    || (!reply.answer.broken && RemoteFetch.Total(reply.answer.chunks) <= limit && !reply.escapes && reply.fits)
  }

  /** The largest limit a fetch can have. */
  function MaxLimit(request: Request): (n: nat) {
    Min(request.maxFetchBytes, 96000)
  }

  /** The fetch of event number `index`, if it is one, kept to its limit, and lost bytes only if it was not tame. */
  ghost predicate Accounted(request: Request, world: World, index: nat, effect: Effect) {
    effect.Fetched? ==>
      && effect.limit <= MaxLimit(request) && effect.bytes <= effect.limit + RemoteFetch.READ_SIZE
      && (effect.counted || effect.bytes == 0 <==> IsTame(world.fetch(index), effect.limit))
  }

  ghost predicate AllAccounted(request: Request, world: World, events: seq<Event>) {
    && (forall k :: 0 <= k < |events| ==> Accounted(request, world, k, events[k].effect))
    && CountedBytes(events) <= request.maxFetchBytes
  }

  lemma ExecuteBytes(request: Request, world: World, index: nat, tool: Tool, arguments: Arguments,
                     references: seq<Reference>, remaining: nat)
    requires remaining <= request.maxFetchBytes
    ensures var o := Execute(world, index, tool, arguments, references, remaining);
            && Accounted(request, world, index, o.effect)
            && (o.effect.Fetched? && o.effect.counted ==> o.effect.bytes <= remaining)
            && (o.Outcome? ==> o.bytes == if o.effect.Fetched? && o.effect.counted then o.effect.bytes else 0)
  {
    hide RemoteFetch.Fetch, ExecuteRead, ExecuteAct;
    var maxChars := if arguments.maxChars.Some? then arguments.maxChars.value else MAX_FETCH_CHARS;
    if maxChars >= 0 {
      RemoteFetch.FetchMeans(world.fetch(index).answer, Min(remaining, maxChars * 8));
    }
    ReadsDoNotFetch(world, index, arguments, references);
  }

  lemma ReadsDoNotFetch(world: World, index: nat, arguments: Arguments, references: seq<Reference>)
    ensures var o := ExecuteRead(world, index, arguments, references);
            !o.effect.Fetched? && (o.Outcome? ==> o.bytes == 0)
    ensures var o := ExecuteAct(arguments, references); !o.effect.Fetched? && o.Outcome? && o.bytes == 0
  {
  }

  /** What the handling of a call adds to the events and the count. */
  lemma HandleEvent(request: Request, world: World, index: nat, closing: bool, t: Turn, call: Call)
    returns (e: Event, o: Outcome)
    requires t.ending.Running?
    ensures var t' := Handle(request, world, index, closing, t, call);
            var tool := Lookup(call.tool, world.Tools());
            && Events(t') == t.log + [e]
            && if e.executed.None? then e.effect == Nothing && t'.fetchBytes == t.fetchBytes
               else && tool.Some? && e.effect == o.effect
                    && o == Execute(world, index, tool.value, call.arguments, t.references,
                                    Max(0, request.maxFetchBytes - t.fetchBytes))
                    && (t'.ending.Running? ==> o.Outcome? && t'.fetchBytes == t.fetchBytes + o.bytes)
  {
    hide Lookup, Merge, Execute;
    var t' := Handle(request, world, index, closing, t, call);
    e := Events(t')[|t.log|];
    o := Failure(Nothing);
    var tool := Lookup(call.tool, world.Tools());
    if tool.Some? {
      o := Execute(world, index, tool.value, call.arguments, t.references,
                   Max(0, request.maxFetchBytes - t.fetchBytes));
    }
  }

  function CountedIn(effect: Effect): (n: nat) {
    if effect.Fetched? && effect.counted then effect.bytes else 0
  }

  lemma OneMoreAccounted(request: Request, world: World, log: seq<Event>, e: Event)
    requires AllAccounted(request, world, log) && Accounted(request, world, |log|, e.effect)
    requires CountedBytes(log) + CountedIn(e.effect) <= request.maxFetchBytes
    ensures AllAccounted(request, world, log + [e])
    ensures CountedBytes(log + [e]) == CountedBytes(log) + CountedIn(e.effect)
  {
    hide Accounted;
    assert (log + [e])[..|log|] == log;
  }

  lemma HandleFetches(request: Request, world: World, index: nat, closing: bool, t: Turn, call: Call)
    requires t.ending.Running? && |t.log| == index && AllAccounted(request, world, t.log)
    requires t.fetchBytes == CountedBytes(t.log)
    ensures var t' := Handle(request, world, index, closing, t, call);
            AllAccounted(request, world, Events(t')) && (t'.ending.Running? ==> t'.fetchBytes == CountedBytes(t'.log))
  {
    hide Handle, Lookup, Execute, Accounted, CountedBytes;
    var e, o := HandleEvent(request, world, index, closing, t, call);
    var t' := Handle(request, world, index, closing, t, call);
    if e.executed.None? {
      NoFetchIsAccounted(request, world, index);
    } else {
      ExecuteBytes(request, world, index, Lookup(call.tool, world.Tools()).value, call.arguments, t.references,
                   Max(0, request.maxFetchBytes - t.fetchBytes));
    }
    OneMoreAccounted(request, world, t.log, e);
    assert t'.ending.Running? ==> Events(t') == t'.log;
  }

  lemma NoFetchIsAccounted(request: Request, world: World, index: nat)
    ensures Accounted(request, world, index, Nothing)
  {
  }

  lemma {:induction false} RunFetches(request: Request, world: World, n: nat)
    ensures var t := After(request, world, n);
            AllAccounted(request, world, Events(t)) && (t.ending.Running? ==> t.fetchBytes == CountedBytes(t.log))
  {
    hide Handle, Step, StepHandles, Handled, Accounted;
    if n == 0 {
      StartFetches(request, world);
    } else {
      RunFetches(request, world, n - 1);
      var before := After(request, world, n - 1);
      if before.ending.Running? {
        RunShape(request, world, n - 1);
        StepCases(request, world, n - 1, before);
        assert Events(before) == before.log;
        if StepHandles(world, n - 1, before) {
          var (closing, from, call) := Handled(world, n - 1, before);
          HandleFetches(request, world, n - 1, closing, from, call);
        } else {
          IdleFetches(request, world, before, After(request, world, n));
        }
      }
    }
  }

  lemma StartFetches(request: Request, world: World)
    ensures var t := Start(request, world);
            AllAccounted(request, world, Events(t)) && t.fetchBytes == 0 && CountedBytes(t.log) == 0
  {
    hide Accounted;
    NoFetchIsAccounted(request, world, 0);
    if world.catalog.None? {
      OneMoreAccounted(request, world, [], Event(false, None, Nothing));
    }
  }

  lemma IdleFetches(request: Request, world: World, t: Turn, t': Turn)
    requires t.ending.Running? && AllAccounted(request, world, t.log) && t'.log == t.log
    requires t'.ending.Raised? ==> t'.ending.last.effect == Nothing
    ensures AllAccounted(request, world, Events(t'))
  {
    hide Accounted;
    NoFetchIsAccounted(request, world, |t.log|);
    if t'.ending.Raised? {
      OneMoreAccounted(request, world, t.log, t'.ending.last);
    } else {
      assert Events(t') == t.log;
    }
  }

  /** The budget, in every run: what is counted are the bytes of the pages that were handed over, and keeps to the
      budget. Everything downloaded keeps to it as well exactly as far as nothing is lost, which is so if and only
      if every started fetch was tame; and each fetch that was not costs at most its limit and one read more. */
  lemma FetchBudget(request: Request, world: World, n: nat)
    ensures var events := Events(After(request, world, n));
            var counted, downloaded := CountedBytes(events), DownloadedBytes(events);
            && counted <= request.maxFetchBytes
            && counted <= downloaded
                       <= counted + UncountedFetches(events) * (MaxLimit(request) + RemoteFetch.READ_SIZE)
            && (downloaded == counted <==>
                  forall k :: 0 <= k < |events| && events[k].effect.Fetched? ==>
                                IsTame(world.fetch(k), events[k].effect.limit))
  {
    hide After, IsTame;
    var events := Events(After(request, world, n));
    RunFetches(request, world, n);
    Losses(request, world, events);
  }

  lemma {:induction false} Losses(request: Request, world: World, events: seq<Event>)
    requires forall k :: 0 <= k < |events| ==> Accounted(request, world, k, events[k].effect)
    ensures var counted, downloaded := CountedBytes(events), DownloadedBytes(events);
            && counted <= downloaded
                       <= counted + UncountedFetches(events) * (MaxLimit(request) + RemoteFetch.READ_SIZE)
            && (downloaded == counted <==>
                  forall k :: 0 <= k < |events| && events[k].effect.Fetched? ==>
                                IsTame(world.fetch(k), events[k].effect.limit))
  {
    hide IsTame;
    if events != [] {
      var n := |events| - 1;
      var before := events[..n];
      assert forall k | 0 <= k < n :: before[k] == events[k];
      Losses(request, world, before);
      OneLoss(UncountedFetches(before), MaxLimit(request) + RemoteFetch.READ_SIZE);
    }
  }

  lemma OneLoss(n: nat, size: nat)
    ensures (n + 1) * size == n * size + size
  {
  }

  /** So on a network of tame servers every run keeps to its budget. */
  lemma TameNetworkKeepsBudget(request: Request, world: World, n: nat)
    requires forall i: nat, limit: nat :: limit <= MaxLimit(request) ==> IsTame(world.fetch(i), limit)
    ensures DownloadedBytes(Events(After(request, world, n))) <= request.maxFetchBytes
  {
    hide After, IsTame;
    RunFetches(request, world, n);
    FetchBudget(request, world, n);
  }

  // ---- two fetches that overrun the budget ----

  function Letters(n: nat): (s: string)
    ensures |s| == n
  {
    if n == 0 then "" else Letters(n - 1) + "a"
  }

  /** An address too long for the summary of a record. */
  const LONG_ADDRESS := "https://x/" + Letters(310)

  function FetchCall(i: nat): (call: Call) {
    Call("fetch", Arguments(if i == 0 then "a" else "b", None, None, Some(LONG_ADDRESS), None))
  }

  function Fetching(reply: FetchReply): (world: World) {
    World(Some([Tool("fetch", None)]), _ => false, (i: nat) => ToolStep(FetchCall(i), []), _ => Accepted,
          _ => InvokeFailed, _ => ReadFailed, _ => reply, _ => true)
  }

  const TIGHT := Request([], 2, MIN_FETCH_BYTES)

  /** A page of exactly the budget, whose record does not fit. */
  const LONG_NAMED := FetchReply(RemoteFetch.Body(None, [RemoteFetch.READ_SIZE], false), false, "text", false)

  /** A page that does not end where the budget does, of no announced length; its record would fit. */
  const HUGE := FetchReply(RemoteFetch.Body(None, [RemoteFetch.READ_SIZE, RemoteFetch.READ_SIZE, 1], false),
                           false, "text", true)

  lemma FetchingStep(reply: FetchReply, i: nat, t: Turn)
    requires reply == LONG_NAMED || reply == HUGE
    requires i < 2 && t.ending.Running? && t.pending == [] && t.fetchBytes == 0
    requires ("fetch", FetchCall(i).arguments.json) !in t.seen
    ensures var t' := Step(TIGHT, Fetching(reply), i, t);
            && t'.pending == [] && t'.fetchBytes == 0 && t'.ending == t.ending
            && t'.seen == t.seen + {("fetch", FetchCall(i).arguments.json)}
            && |t'.log| == |t.log| + 1 && t'.log[..|t.log|] == t.log
            && t'.log[|t.log|].effect
               == Fetched(MIN_FETCH_BYTES, if reply == HUGE then 2 * MIN_FETCH_BYTES else MIN_FETCH_BYTES, false)
  {
    hide Merge, RemoteFetch.Fetch, CanKeepWorking;
    assert CanKeepWorking(i, t.learned) by { EarlyStepsAreFree(i, t.learned); }
    assert Lookup("fetch", Fetching(reply).Tools()) == Some(Tool("fetch", None));
    assert |LONG_ADDRESS| == 320;
    assert "fetch"[0] != "read"[0] && "fetch"[0] != "act"[0];
    TakenOfHuge();
    TakenOfLongNamed();
  }

  lemma EarlyStepsAreFree(i: nat, progress: seq<bool>)
    requires i < FREE_FORM_STEPS
    ensures CanKeepWorking(i, progress)
  {
  }

  lemma TakenOfHuge()
    ensures RemoteFetch.Fetch(HUGE.answer, MIN_FETCH_BYTES) == RemoteFetch.Download(2 * MIN_FETCH_BYTES, false)
    ensures HUGE != LONG_NAMED
  {
    var chunks := HUGE.answer.chunks;
    assert |chunks| == 3 && chunks[0] == chunks[1..][0] == RemoteFetch.READ_SIZE;
    assert RemoteFetch.Take(chunks[1..], false, MIN_FETCH_BYTES, MIN_FETCH_BYTES)
           == RemoteFetch.Download(2 * MIN_FETCH_BYTES, false);
  }

  lemma TakenOfLongNamed()
    ensures RemoteFetch.Fetch(LONG_NAMED.answer, MIN_FETCH_BYTES) == RemoteFetch.Download(MIN_FETCH_BYTES, true)
  {
    var chunks := LONG_NAMED.answer.chunks;
    assert chunks[0] == RemoteFetch.READ_SIZE && chunks[1..] == [];
    assert RemoteFetch.Take(chunks[1..], false, MIN_FETCH_BYTES, MIN_FETCH_BYTES)
           == RemoteFetch.Download(MIN_FETCH_BYTES, true);
  }

  /** Two turns of two fetches each. Of pages whose record does not fit the turn downloads twice its budget, and of
      pages too long, whose records would all fit, four times; either way it counts nothing. The second is all
      that the bound of FetchBudget allows. */
  lemma DownloadsCanOverrun()
    ensures ValidRequest(TIGHT) && forall reply, i: nat :: ValidReply(Fetching(reply).model(i))
    ensures var log := After(TIGHT, Fetching(LONG_NAMED), 2).log;
            CountedBytes(log) == 0 && DownloadedBytes(log) == 2 * TIGHT.maxFetchBytes
    ensures var log := After(TIGHT, Fetching(HUGE), 2).log;
            CountedBytes(log) == 0 && DownloadedBytes(log) == 4 * TIGHT.maxFetchBytes
    ensures 4 * TIGHT.maxFetchBytes == 0 + 2 * (MaxLimit(TIGHT) + RemoteFetch.READ_SIZE)
  {
    hide After;
    forall reply, i: nat ensures ValidReply(Fetching(reply).model(i)) {
      FetchCallIsValid(i);
    }
    TakenOfHuge();
    OverrunOf(LONG_NAMED);
    OverrunOf(HUGE);
  }

  lemma FetchCallIsValid(i: nat)
    ensures IsStep(FetchCall(i))
  {
    assert |"fetch"| == 5 && |"a"| == 1 && |"b"| == 1 && |"{}"| == 2;
  }

  lemma OverrunOf(reply: FetchReply)
    requires reply == LONG_NAMED || reply == HUGE
    ensures var log := After(TIGHT, Fetching(reply), 2).log;
            CountedBytes(log) == 0 && DownloadedBytes(log) == (if reply == HUGE then 4 else 2) * MIN_FETCH_BYTES
  {
    hide Step;
    var world := Fetching(reply);
    var one, two := After(TIGHT, world, 1), After(TIGHT, world, 2);
    FetchingStep(reply, 0, Start(TIGHT, world));
    assert "a"[0] != "b"[0];
    FetchingStep(reply, 1, one);
    OneMoreFetch(Start(TIGHT, world).log, one.log);
    OneMoreFetch(one.log, two.log);
  }

  lemma OneMoreFetch(log: seq<Event>, log': seq<Event>)
    requires |log'| == |log| + 1 && log'[..|log|] == log && log'[|log|].effect.Fetched? && !log'[|log|].effect.counted
    ensures DownloadedBytes(log') == DownloadedBytes(log) + log'[|log|].effect.bytes
    ensures CountedBytes(log') == CountedBytes(log)
  {
  }

  // ---- references and the action ----

  function FirstAct(log: seq<Event>): (r: Option<(Action, Reference)>) {
    if log == [] then None
    else
      var earlier := FirstAct(log[..|log| - 1]);
      if earlier.Some? || !log[|log| - 1].effect.Acted? then earlier
      else Some((log[|log| - 1].effect.action, log[|log| - 1].effect.reference))
  }

  /** The action of a turn is its first successful act, on an item that still carries the same ref in the
      turn's references, has somewhere to open, and is playable if it is to be played. */
  ghost predicate ActStands(t: Turn) {
    var act := FirstAct(t.log);
    && WellNamed(t.references)
    && (t.clientAction.Some? <==> act.Some?) && (t.clientRef.Some? <==> act.Some?)
    && (act.Some? ==>
          var (action, reference) := act.value;
          && t.clientAction == Some(action) && t.clientRef == Some(reference.ref)
          && Find(reference.ref, t.references) == Some(reference)
          && reference.openUrl != "" && (action == Play ==> reference.playable))
  }

  lemma ExecuteActs(world: World, index: nat, tool: Tool, arguments: Arguments, references: seq<Reference>,
                   remaining: nat)
    ensures var o := Execute(world, index, tool, arguments, references, remaining);
            && (o.Outcome? ==> (o.acted.Some? <==> o.effect.Acted?)) && (o.effect.Acted? ==> o.Outcome?)
            && (o.effect.Acted? ==>
                  && o.acted == Some((o.effect.action, o.effect.reference.ref))
                  && Find(o.effect.reference.ref, references) == Some(o.effect.reference)
                  && o.effect.reference.openUrl != "" && (o.effect.action == Play ==> o.effect.reference.playable))
  {
    hide Find;
  }

  /** One event more keeps what stands: an earlier act stays the first, a first one is found where it was. */
  lemma ActExtends(t: Turn, t': Turn)
    requires ActStands(t) && WellNamed(t'.references) && t.references <= t'.references
    requires |t'.log| == |t.log| + 1 && t'.log[..|t.log|] == t.log
    requires var e := t'.log[|t.log|].effect;
             var first := e.Acted? && t.clientAction.None?;
             && t'.clientAction == (if first then Some(e.action) else t.clientAction)
             && t'.clientRef == (if first then Some(e.reference.ref) else t.clientRef)
             && (e.Acted? ==> Find(e.reference.ref, t.references) == Some(e.reference)
                              && e.reference.openUrl != "" && (e.action == Play ==> e.reference.playable))
    ensures ActStands(t')
  {
    hide WellNamed, Find;
    var e, earlier := t'.log[|t.log|].effect, FirstAct(t.log);
    if earlier.Some? {
      FindGrows(earlier.value.1.ref, t.references, t'.references);
    } else if e.Acted? {
      FindGrows(e.reference.ref, t.references, t'.references);
    }
  }

  lemma HandleActs(request: Request, world: World, index: nat, closing: bool, t: Turn, call: Call)
    requires ActStands(t)
    ensures var t' := Handle(request, world, index, closing, t, call);
            && ActStands(t') && t.references <= t'.references
            && (Stable(t.references) ==> Stable(t'.references))
  {
    hide Lookup, Execute, Merge, Stable, Find, FirstAct, WellNamed;
    var t' := Handle(request, world, index, closing, t, call);
    var tool := Lookup(call.tool, world.Tools());
    if tool.Some? {
      var remaining := Max(0, request.maxFetchBytes - t.fetchBytes);
      var outcome := Execute(world, index, tool.value, call.arguments, t.references, remaining);
      ExecuteActs(world, index, tool.value, call.arguments, t.references, remaining);
      if outcome.Outcome? {
        MergeIsWellNamed(t.references, outcome.found);
        if Stable(t.references) {
          MergeIsStable(t.references, outcome.found);
        }
      }
    }
    if |t'.log| > |t.log| {
      assert t'.log[..|t.log|] == t.log;
      ActExtends(t, t');
    } else {
      ActIgnoresEnding(t, t');
    }
  }

  /** Through every run the references only grow at their end and stay within their validator, and the action the
      client is told of stands. If the request numbers them 1, 2, ... without repeats, then entry k is `result:k`
      throughout, items are distinct and at most twenty. */
  lemma {:induction false} ReferencesAndAct(request: Request, world: World, m: nat, n: nat)
    requires WellNamed(request.references) && m <= n
    ensures ActStands(After(request, world, n))
    ensures After(request, world, m).references <= After(request, world, n).references
    ensures request.references <= After(request, world, n).references
    ensures Stable(request.references) ==> Stable(After(request, world, n).references)
    decreases n
  {
    hide Handle, Step, StepHandles, Handled, ActStands, Stable, WellNamed;
    if n == 0 {
      NoActYet(request, world);
    } else {
      ReferencesAndAct(request, world, if m < n then m else n - 1, n - 1);
      var before := After(request, world, n - 1);
      if before.ending.Running? {
        StepCases(request, world, n - 1, before);
        if StepHandles(world, n - 1, before) {
          var (closing, from, call) := Handled(world, n - 1, before);
          ActIgnoresEnding(before, from);
          HandleActs(request, world, n - 1, closing, from, call);
        } else {
          ActIgnoresEnding(before, After(request, world, n));
        }
      }
    }
  }

  lemma NoActYet(request: Request, world: World)
    requires WellNamed(request.references)
    ensures ActStands(Start(request, world))
  {
  }

  lemma ActIgnoresEnding(t: Turn, t': Turn)
    requires ActStands(t) && t' == t.(pending := t'.pending, ending := t'.ending)
    ensures ActStands(t')
  {
  }

  // ---- the queue ----

  lemma {:induction false} QueueBounded(request: Request, world: World, n: nat)
    ensures |After(request, world, n).pending| <= 4
  {
    hide Handle, CanKeepWorking;
    if n > 0 {
      QueueBounded(request, world, n - 1);
      var before := After(request, world, n - 1);
      if before.ending.Running? && StepHandles(world, n - 1, before) {
        var (closing, from, call) := Handled(world, n - 1, before);
        HandleShape(request, world, n - 1, closing, from, call);
      }
    }
  }

  /** First in, first out: as long as the turn goes on without closing, a queue is used up from its front, one
      call a step, and the model is not asked. */
  lemma {:induction false} QueueInOrder(request: Request, world: World, i: nat, k: nat)
    requires var t := After(request, world, i + k);
             t.ending.Running? && k <= |After(request, world, i).pending|
    requires forall j :: i <= j < i + k ==> CanKeepWorking(j, After(request, world, j).learned)
    ensures After(request, world, i + k).pending == After(request, world, i).pending[k..]
    ensures forall j :: i <= j < i + k ==>
              && StepHandles(world, j, After(request, world, j))
              && Handled(world, j, After(request, world, j)).2 == After(request, world, i).pending[j - i]
  {
    hide Step, CanKeepWorking, StepHandles, Handled;
    if k > 0 {
      assert i + k - 1 == i + (k - 1);
      QueueInOrder(request, world, i, k - 1);
      QueueStep(request, world, i + k - 1, After(request, world, i + k - 1));
    }
  }

  lemma QueueStep(request: Request, world: World, index: nat, t: Turn)
    requires t.ending.Running? && t.pending != [] && CanKeepWorking(index, t.learned)
    requires Step(request, world, index, t).ending.Running?
    ensures StepHandles(world, index, t) && Handled(world, index, t).2 == t.pending[0]
    ensures Step(request, world, index, t).pending == t.pending[1..]
  {
    hide Handle, CanKeepWorking;
    var (closing, from, call) := Handled(world, index, t);
    HandleShape(request, world, index, closing, from, call);
  }

  // ---- when a turn raises ----

  /** The arguments of a read, a fetch or an act name something. */
  predicate NamesRef(ref: Option<RefName>) {
    ref.Some? && (ref.value.Text? ==> 1 <= |ref.value.text| <= 200)
  }

  predicate NamesPage(arguments: Arguments) {
    && arguments.url.Some? && 8 <= |arguments.url.value| <= 2000
    && (arguments.maxChars.Some? ==> 256 <= arguments.maxChars.value <= 12000)
  }

  predicate NamesText(arguments: Arguments) {
    NamesRef(arguments.ref) && (arguments.maxChars.Some? ==> 256 <= arguments.maxChars.value <= 8000)
  }

  predicate Uncaught(world: World, index: nat, tool: Tool, arguments: Arguments, references: seq<Reference>,
                     remaining: nat)
  {
    if tool.name == "read" then
      && world.read(index).ReadCrashed? && NamesText(arguments) && Find(arguments.ref.value, references).Some?
    else if tool.name == "fetch" then
      world.fetch(index).escapes && remaining >= 65536 && NamesPage(arguments)
    else
      && tool.name != "act" && tool.integration.Some?
      && (world.accepts(index).CheckCrashed? || (world.accepts(index).Accepted? && world.invoke(index).InvokeCrashed?))
  }

  /** Handling the call raises: it is executed, and runs into an exception that is not caught or into a progress
      hook that does not return. */
  predicate CallRaises(request: Request, world: World, index: nat, t: Turn, call: Call) {
    var tool := Lookup(call.tool, world.Tools());
    && tool.Some? && (CanKeepWorking(index, t.learned) || IsClosingTool(call.tool))
    && (call.tool, call.arguments.json) !in t.seen
    && (|| !world.notified(index)
        || Uncaught(world, index, tool.value, call.arguments, t.references,
                    Max(0, request.maxFetchBytes - t.fetchBytes)))
  }

  /** A queued call without a name, with one of more than 128 characters, or without arguments. */
  predicate IsMalformed(call: Call) {
    |call.tool| == 0 || |call.tool| > 128 || call.arguments.json == "{}"
  }

  /** The step raises: a malformed call at the front of a queue in use, or an exception of the model or the hook, or
      a call that raises. */
  predicate StepRaises(request: Request, world: World, index: nat, t: Turn) {
    && !world.late(index)
    && if t.pending != [] && CanKeepWorking(index, t.learned) then
         IsMalformed(t.pending[0]) || CallRaises(request, world, index, t, t.pending[0])
       else
         match world.model(index)
         case Crashed => true
         case Unavailable => !world.notified(index)
         case ToolStep(call, _) => CallRaises(request, world, index, t, call)
         case _ => false
  }

  lemma ExecuteRaises(world: World, index: nat, tool: Tool, arguments: Arguments, references: seq<Reference>,
                      remaining: nat)
    ensures Execute(world, index, tool, arguments, references, remaining).Escaped?
            <==> Uncaught(world, index, tool, arguments, references, remaining)
  {
    hide Find, RemoteFetch.Fetch;
  }

  lemma StepRaisesExactly(request: Request, world: World, index: nat, t: Turn)
    requires t.ending.Running?
    ensures Step(request, world, index, t).ending.Raised? <==> StepRaises(request, world, index, t)
  {
    hide Execute, Uncaught, Lookup, Merge, CanKeepWorking, NextQueue;
    if StepHandles(world, index, t) {
      var (closing, from, call) := Handled(world, index, t);
      var tool := Lookup(call.tool, world.Tools());
      if tool.Some? {
        ExecuteRaises(world, index, tool.value, call.arguments, t.references,
                      Max(0, request.maxFetchBytes - t.fetchBytes));
      }
    }
  }

  /** When exactly a turn ends in an exception and without a result: the catalog cannot be had, or some step that
      the turn comes to raises. */
  lemma {:induction false} RaisesExactly(request: Request, world: World, n: nat)
    ensures After(request, world, n).ending.Raised? <==>
              || world.catalog.None?
              || exists i: nat :: i < n && After(request, world, i).ending.Running?
                                  && StepRaises(request, world, i, After(request, world, i))
  {
    hide Step, StepRaises;
    if n > 0 {
      RaisesExactly(request, world, n - 1);
      var before := After(request, world, n - 1);
      if before.ending.Running? {
        StepRaisesExactly(request, world, n - 1, before);
      }
    }
  }

  /** A world in which nothing escapes and no queued call is malformed. */
  ghost predicate Civil(world: World) {
    && world.catalog.Some?
    && (forall i: nat :: world.notified(i) && !world.model(i).Crashed? && !world.accepts(i).CheckCrashed?)
    && (forall i: nat :: !world.invoke(i).InvokeCrashed? && !world.read(i).ReadCrashed? && !world.fetch(i).escapes)
    && (forall i: nat, call :: call in Queued(world.model(i)) ==> !IsMalformed(call))
  }

  lemma CivilCall(request: Request, world: World, index: nat, t: Turn, call: Call)
    requires Civil(world)
    ensures !CallRaises(request, world, index, t, call)
  {
    hide Lookup, IsStep, CanKeepWorking;
  }

  /** Whatever waits has waited before or has just been asked for. */
  lemma PendingComesFrom(request: Request, world: World, index: nat, t: Turn)
    requires t.ending.Running?
    ensures forall call :: call in Step(request, world, index, t).pending ==>
              call in t.pending || call in Queued(world.model(index))
  {
    hide Handle, CanKeepWorking;
    if StepHandles(world, index, t) {
      var (closing, from, call) := Handled(world, index, t);
      HandleShape(request, world, index, closing, from, call);
    }
  }

  lemma CivilStep(request: Request, world: World, index: nat, t: Turn)
    requires Civil(world) && forall call :: call in t.pending ==> !IsMalformed(call)
    ensures !StepRaises(request, world, index, t)
  {
    hide CallRaises, CanKeepWorking, IsMalformed;
    if t.pending != [] {
      CivilCall(request, world, index, t, t.pending[0]);
    }
    if world.model(index).ToolStep? {
      CivilCall(request, world, index, t, world.model(index).call);
    }
  }

  lemma {:induction false} QueueStaysWellFormed(request: Request, world: World, n: nat)
    requires Civil(world)
    ensures forall call :: call in After(request, world, n).pending ==> !IsMalformed(call)
    ensures !After(request, world, n).ending.Raised?
  {
    hide Step, StepRaises, IsMalformed, Queued;
    if n > 0 {
      QueueStaysWellFormed(request, world, n - 1);
      var before := After(request, world, n - 1);
      if before.ending.Running? {
        StepRaisesExactly(request, world, n - 1, before);
        PendingComesFrom(request, world, n - 1, before);
        CivilStep(request, world, n - 1, before);
      }
    }
  }

  // ---- turns that raise, for instance ----

  const NO_CATALOG := Fetching(LONG_NAMED).(catalog := None)

  /** A page that does not come within 30 seconds. */
  const STALLED := FetchReply(RemoteFetch.Body(None, [], false), true, "", true)

  const WIDE := Request([Reference(Numbered(1), "m", "i", false, "")], 2, MIN_FETCH_BYTES)

  function Calling(tool: Tool, call: Call, queued: seq<Call>): (world: World) {
    World(Some([tool]), _ => false, _ => ToolStep(call, queued), _ => Accepted,
          _ => InvokeCrashed, _ => ReadCrashed, _ => STALLED, _ => true)
  }

  const READING := Call("read", Arguments("a", Some(Numbered(1)), None, None, None))
  const SEARCHING := Call("search", Arguments("a", None, None, None, None))
  const NAMELESS := Call("", Arguments("a", None, None, None, None))

  /** Valid requests and replies do not prevent it: a catalog that cannot be had, a page that stalls, a stored item
      or a search result of the wrong shape, and a nameless call behind a harmless one in a queue all end the turn
      in an exception. */
  lemma TurnsThatRaise()
    ensures ValidRequest(WIDE) && IsStep(FetchCall(0)) && IsStep(READING) && IsStep(SEARCHING) && !IsStep(NAMELESS)
    ensures forall tool, call, queued, i: nat :: IsStep(call) && |queued| <= MAX_QUEUED ==>
              ValidReply(Calling(tool, call, queued).model(i))
    ensures After(WIDE, NO_CATALOG, 0).ending.Raised?
    ensures After(WIDE, Calling(Tool("fetch", None), FetchCall(0), []), 1).ending.Raised?
    ensures After(WIDE, Calling(Tool("read", None), READING, []), 1).ending.Raised?
    ensures After(WIDE, Calling(Tool("search", Some("m.search.v1")), SEARCHING, []), 1).ending.Raised?
    ensures After(WIDE, Calling(Tool("search", None), SEARCHING, [NAMELESS]), 2).ending.Raised?
  {
    hide Step, Merge;
    FetchCallIsValid(0);
    assert |"read"| == 4 && |"search"| == 6 && |"a"| == 1 && |"{}"| == 2 && |""| == 0;
    assert |LONG_ADDRESS| == 320;
    assert "read"[0] == 'r' && "fetch"[0] == 'f' && "search"[0] == 's' && "act"[0] == 'a';
    RaisesAtOnce(Tool("fetch", None), FetchCall(0));
    RaisesAtOnce(Tool("read", None), READING);
    RaisesAtOnce(Tool("search", Some("m.search.v1")), SEARCHING);
    NamelessCallRaises();
  }

  lemma RaisesAtOnce(tool: Tool, call: Call)
    requires call.tool == tool.name
    requires var world := Calling(tool, call, []);
             Uncaught(world, 0, tool, call.arguments, WIDE.references, WIDE.maxFetchBytes)
    ensures After(WIDE, Calling(tool, call, []), 1).ending.Raised?
  {
    hide Uncaught, CanKeepWorking, Step;
    var world := Calling(tool, call, []);
    EarlyStepsAreFree(0, []);
    assert Lookup(tool.name, world.Tools()) == Some(tool);
    StepRaisesExactly(WIDE, world, 0, Start(WIDE, world));
  }

  lemma NamelessCallRaises()
    ensures After(WIDE, Calling(Tool("search", None), SEARCHING, [NAMELESS]), 2).ending.Raised?
  {
    hide Merge, CanKeepWorking;
    var world := Calling(Tool("search", None), SEARCHING, [NAMELESS]);
    var start := Start(WIDE, world);
    EarlyStepsAreFree(0, []);
    assert "read"[0] == 'r' && "fetch"[0] == 'f' && "search"[0] == 's' && "act"[0] == 'a';
    assert Lookup("search", world.Tools()) == Some(Tool("search", None));
    var one := Step(WIDE, world, 0, start);
    assert one.ending.Running? && one.pending == [NAMELESS];
    assert After(WIDE, world, 1) == one;
    EarlyStepsAreFree(1, one.learned);
    assert |""| == 0;
  }

  // ---- what a call does ----

  /** A step has handled a call as a new one: its record and its effect, and whether something was learned. */
  ghost predicate Leaves(t: Turn, t': Turn, call: Call, status: Status, effect: Effect, learned: bool) {
    && t'.ending.Running? && t'.executed == t.executed + 1 && t'.seen == t.seen + {(call.tool, call.arguments.json)}
    && t'.records == t.records + [Record(call.tool, status)] && t'.learned == t.learned + [learned]
    && t'.log == t.log + [Event(false, Some((call.tool, call.arguments.json)), effect)]
  }

  /** Nothing but the record, the effect and the progress: the references, the count and the action stay. */
  ghost predicate LeavesOnly(t: Turn, t': Turn, call: Call, status: Status, effect: Effect, learned: bool) {
    && Leaves(t, t', call, status, effect, learned)
    && t'.references == t.references && t'.fetchBytes == t.fetchBytes
    && t'.clientAction == t.clientAction && t'.clientRef == t.clientRef
  }

  /** The call is new, its tool is known and not withdrawn, and the progress hook returns. */
  predicate IsTaken(world: World, index: nat, t: Turn, call: Call) {
    && t.ending.Running? && world.notified(index) && Lookup(call.tool, world.Tools()).Some?
    && (call.tool, call.arguments.json) !in t.seen
  }

  /** A call of an integration: it reaches that integration if its arguments are accepted, its hits are merged, and
      something is learned exactly if one of them is new and there is room. */
  lemma IntegrationDoes(request: Request, world: World, index: nat, t: Turn, call: Call, id: string)
    requires IsTaken(world, index, t, call) && Lookup(call.tool, world.Tools()) == Some(Tool(call.tool, Some(id)))
    requires call.tool != "read" && call.tool != "fetch" && call.tool != "act" && |t.references| <= 20
    ensures var t' := Handle(request, world, index, false, t, call);
            && (world.accepts(index).Rejected? ==> LeavesOnly(t, t', call, Failed, Nothing, false))
            && (world.accepts(index).Accepted? ==>
                  match world.invoke(index)
                  case InvokeFailed => LeavesOnly(t, t', call, Failed, Invoked(id), false)
                  case InvokeCrashed => t'.ending.Raised?
                  case Found(found) =>
                    if |found| > 20 then LeavesOnly(t, t', call, Failed, Invoked(id), false)
                    else if found == [] then LeavesOnly(t, t', call, Empty, Invoked(id), false)
                    else
                      && Leaves(t, t', call, Success, Invoked(id), HasNews(t.references, found))
                      && t'.references == Merge(t.references, found) && t'.fetchBytes == t.fetchBytes
                      && t'.clientAction == t.clientAction && t'.clientRef == t.clientRef)
  {
    hide Lookup, Merge, Knows;
    MergeNone(t.references);
    if world.invoke(index).Found? {
      NewsGrow(t.references, world.invoke(index).references);
    }
  }

  predicate HasNews(references: seq<Reference>, found: seq<Reference>) {
    |references| < 20 && exists r :: r in found && !Knows(references, r.Item())
  }

  lemma MergeNone(references: seq<Reference>)
    ensures Merge(references, []) == references
  {
  }

  lemma NewsGrow(references: seq<Reference>, found: seq<Reference>)
    requires |references| <= 20
    ensures |Merge(references, found)| > |references| <==> HasNews(references, found)
  {
    hide Knows;
    AppendNews(references, found);
  }

  lemma {:induction false} AppendNews(references: seq<Reference>, found: seq<Reference>)
    ensures |Append(references, found)| >= |references|
    ensures |Append(references, found)| > |references| <==> exists r :: r in found && !Knows(references, r.Item())
    decreases |found|
  {
    hide Knows;
    if found != [] {
      var known := Knows(references, found[0].Item());
      var next := if known then references else references + [found[0].(ref := Numbered(|references| + 1))];
      assert found == [found[0]] + found[1..];
      AppendNews(next, found[1..]);
    }
  }

  /** A read: of the item that the ref finds; something is learned exactly if it has text. */
  lemma ReadDoes(request: Request, world: World, index: nat, t: Turn, call: Call)
    requires IsTaken(world, index, t, call) && call.tool == "read"
    ensures var t' := Handle(request, world, index, false, t, call);
            if !NamesText(call.arguments) || Find(call.arguments.ref.value, t.references).None? then
              LeavesOnly(t, t', call, Failed, Nothing, false)
            else
              var effect := ReadItem(Find(call.arguments.ref.value, t.references).value.Item());
              match world.read(index)
              case ReadCrashed => t'.ending.Raised?
              case ReadFailed => LeavesOnly(t, t', call, Failed, effect, false)
              case Payload(text, isText, fits) =>
                if text != "" && fits then LeavesOnly(t, t', call, Success, effect, true)
                else if text == "" && !isText && fits then LeavesOnly(t, t', call, Empty, effect, false)
                else LeavesOnly(t, t', call, Failed, effect, false)
  {
    hide Lookup, Merge, Find;
    MergeNone(t.references);
  }

  /** A fetch: under what is left of the budget and eight bytes a character. */
  lemma FetchDoes(request: Request, world: World, index: nat, t: Turn, call: Call)
    requires IsTaken(world, index, t, call) && call.tool == "fetch"
    ensures var t' := Handle(request, world, index, false, t, call);
            var remaining := request.maxFetchBytes - t.fetchBytes;
            if !NamesPage(call.arguments) || remaining < 65536 then LeavesOnly(t, t', call, Failed, Nothing, false)
            else
              var chars := if call.arguments.maxChars.Some? then call.arguments.maxChars.value else 12000;
              var limit: nat := Min(remaining, 8 * chars);
              var reply := world.fetch(index);
              var page := RemoteFetch.Fetch(reply.answer, limit);
              if reply.escapes then t'.ending.Raised?
              else if !page.complete || !reply.fits then
                LeavesOnly(t, t', call, Failed, Fetched(limit, page.taken, false), false)
              else
                && Leaves(t, t', call, Success, Fetched(limit, page.taken, true), reply.text != "")
                && t'.fetchBytes == t.fetchBytes + page.taken && t'.references == t.references
                && t'.clientAction == t.clientAction && t'.clientRef == t.clientRef
  {
    hide Lookup, Merge, RemoteFetch.Fetch;
    assert "fetch"[0] != "read"[0];
    MergeNone(t.references);
  }

  /** An act: on the item that the ref finds, if it can be opened, and played if it is to be played. The first one
      that succeeds is what the client is told. It teaches nothing. */
  lemma ActDoes(request: Request, world: World, index: nat, t: Turn, call: Call)
    requires IsTaken(world, index, t, call) && call.tool == "act"
    ensures var t', arguments := Handle(request, world, index, false, t, call), call.arguments;
            var found := if arguments.ref.Some? then Find(arguments.ref.value, t.references) else None;
            if !NamesRef(arguments.ref) || arguments.action.None? || found.None? || found.value.openUrl == ""
               || (arguments.action == Some(Play) && !found.value.playable) then
              LeavesOnly(t, t', call, Failed, Nothing, false)
            else
              && Leaves(t, t', call, Success, Acted(arguments.action.value, found.value), false)
              && t'.references == t.references && t'.fetchBytes == t.fetchBytes
              && (if t.clientAction.None? then
                    t'.clientAction == arguments.action && t'.clientRef == Some(found.value.ref)
                  else t'.clientAction == t.clientAction && t'.clientRef == t.clientRef)
  {
    hide Lookup, Merge, Find;
    assert "act"[0] != "read"[0] && "act"[0] != "fetch"[0];
    MergeNone(t.references);
  }

  /** A call that is not taken: of a tool that is unknown or withdrawn, or one that was made before. */
  lemma RefusedDoes(request: Request, world: World, index: nat, closing: bool, t: Turn, call: Call)
    requires t.ending.Running?
    ensures var t' := Handle(request, world, index, closing, t, call);
            var known := exists tool :: tool in world.Tools() && tool.name == call.tool;
            var withdrawn := closing && call.tool != "final" && call.tool != "ask";
            var refused := t.(records := t'.records, learned := t.learned + [false], executed := t'.executed,
                              log := t.log + [Event(closing, None, Nothing)]);
            && (!known || withdrawn ==>
                  t' == refused && t'.executed == t.executed + 1
                  && t'.records == t.records + [Record(call.tool, Failed)])
            && (known && !withdrawn && (call.tool, call.arguments.json) in t.seen ==>
                  t' == refused && t'.records == t.records + [Record(call.tool, Skipped)] && t'.executed == t.executed)
  {
    hide Execute, Merge;
  }

  function Unskipped(records: seq<Record>): (n: nat) {
    if records == [] then 0
    else Unskipped(records[..|records| - 1]) + if records[|records| - 1].status.Skipped? then 0 else 1
  }

  /** What the turn counts as executed are the records of steps that were not skipped as repetitions. */
  lemma {:induction false} ExecutedExactly(request: Request, world: World, n: nat)
    ensures var t := After(request, world, n); t.executed == Unskipped(t.records)
  {
    hide Handle, Step, StepHandles, Handled;
    if n > 0 {
      ExecutedExactly(request, world, n - 1);
      var before := After(request, world, n - 1);
      if before.ending.Running? {
        StepCases(request, world, n - 1, before);
        if StepHandles(world, n - 1, before) {
          var (closing, from, call) := Handled(world, n - 1, before);
          HandleExecuted(request, world, n - 1, closing, from, call);
        }
      }
    }
  }

  lemma HandleExecuted(request: Request, world: World, index: nat, closing: bool, t: Turn, call: Call)
    requires t.executed == Unskipped(t.records)
    ensures var t' := Handle(request, world, index, closing, t, call); t'.executed == Unskipped(t'.records)
  {
    hide Handle, Unskipped;
    var t' := Handle(request, world, index, closing, t, call);
    HandleRecords(request, world, index, closing, t, call);
    if t'.records != t.records {
      OneUnskipped(t.records, t'.records[|t.records|]);
    }
  }

  lemma OneUnskipped(records: seq<Record>, last: Record)
    ensures Unskipped(records + [last]) == Unskipped(records) + if last.status.Skipped? then 0 else 1
  {
    assert (records + [last])[..|records|] == records;
  }

  /** A call leaves no record, if it raises, or one, and counts unless that is of a repetition. */
  lemma HandleRecords(request: Request, world: World, index: nat, closing: bool, t: Turn, call: Call)
    ensures var t' := Handle(request, world, index, closing, t, call);
            if t'.records == t.records then t'.executed == t.executed
            else
              && |t'.records| == |t.records| + 1 && t'.records == t.records + [t'.records[|t.records|]]
              && t'.executed == t.executed + if t'.records[|t.records|].status.Skipped? then 0 else 1
  {
    hide Execute, Merge, Lookup;
    var tool := Lookup(call.tool, world.Tools());
    if tool.Some? {
      NeverSkips(world, index, tool.value, call.arguments, t.references, Max(0, request.maxFetchBytes - t.fetchBytes));
    }
  }

  lemma NeverSkips(world: World, index: nat, tool: Tool, arguments: Arguments, references: seq<Reference>,
                   remaining: nat)
    ensures var o := Execute(world, index, tool, arguments, references, remaining); o.Outcome? ==> !o.status.Skipped?
  {
    hide Find, RemoteFetch.Fetch;
  }

  /** What a model asks for beside its call is queued behind what waits already, and four calls wait at most. */
  lemma QueueTakes(request: Request, world: World, index: nat, t: Turn)
    requires t.ending.Running? && !world.late(index) && |t.pending| <= 4
    requires Step(request, world, index, t).ending.Running?
    ensures var t' := Step(request, world, index, t);
            var asked := Queued(world.model(index));
            if !CanKeepWorking(index, t.learned) then t'.pending == t.pending
            else if t.pending != [] then t'.pending == t.pending[1..]
            else t'.pending == asked[..Min(4, |asked|)]
  {
    hide Handle, CanKeepWorking;
    if StepHandles(world, index, t) {
      var (closing, from, call) := Handled(world, index, t);
      HandleShape(request, world, index, closing, from, call);
    }
  }

  // ---- what the result tells ----

  /** Step `index` of a turn comes to ask the model. */
  predicate AsksModel(world: World, index: nat, t: Turn) {
    t.ending.Running? && !world.late(index) && (t.pending == [] || !CanKeepWorking(index, t.learned))
  }

  /** The first three references, or fewer. */
  predicate AreFirst(refs: seq<RefName>, references: seq<Reference>) {
    |refs| == Min(3, |references|) && forall k :: 0 <= k < |refs| ==> refs[k] == references[k].ref
  }

  /** What the model says in the end is what the client is told. Its last reply, if it is an answer, is the answer,
      with the refs it names; if it names none, with the item acted on, or else, in a turn that executed or refused
      something, with the first three references. If it is a question, it is the question with its options. */
  lemma LastReplyIsTold(request: Request, world: World, i: nat)
    requires WellNamed(request.references)
    requires i < request.maxSteps && AsksModel(world, i, After(request, world, i))
    ensures var t, r := After(request, world, i), Finish(After(request, world, request.maxSteps));
            match world.model(i)
            case Answer(answer, refs, _) =>
              && r.Result? && r.answer == answer && r.question == None && r.options == [] && !r.exhausted
              && (refs != [] ==> r.refs == refs)
              && (refs == [] && t.clientRef.Some? ==> r.refs == [t.clientRef.value])
              && (refs == [] && t.clientRef.None? && t.executed > 0 ==> AreFirst(r.refs, r.references))
              && (refs == [] && t.clientRef.None? && t.executed == 0 ==> r.refs == [])
            case Question(question, options, _) =>
              && r.Result? && r.question == Some(question) && r.options == options
              && r.answer == "" && r.refs == [] && !r.exhausted
            case Unavailable =>
              world.notified(i) ==> r.Result? && r.question == None && r.options == [] && r.refs == [] && !r.exhausted
            case _ => true
  {
    hide CanKeepWorking, Handle, After, Find, NextQueue;
    AfterNext(request, world, i);
    ReferencesAndAct(request, world, i, i);
    if !After(request, world, i + 1).ending.Running? {
      Settled(request, world, i + 1, request.maxSteps);
    }
  }

  /** In every result: one record for each finished step, the references of the turn, and as action and ref those
      of the first successful act, if there was one. */
  lemma ResultTellsTheTurn(request: Request, world: World)
    requires WellNamed(request.references)
    requires Finish(After(request, world, request.maxSteps)).Result?
    ensures var t, r := After(request, world, request.maxSteps), Finish(After(request, world, request.maxSteps));
            var act := FirstAct(t.log);
            && |r.steps| == |t.log| && r.steps == t.records && r.references == t.references
            && r.clientAction == (if act.Some? then Some(act.value.0) else None)
            && r.clientRef == (if act.Some? then Some(act.value.1.ref) else None)
  {
    hide After, FirstAct, Find, WellNamed;
    RunShape(request, world, request.maxSteps);
    ReferencesAndAct(request, world, request.maxSteps, request.maxSteps);
  }

  // ---- every turn ends well ----

  /** The validator of AgentTurnResult; the ref of an action may have 12 characters. */
  predicate ValidResult(r: Result) {
    && r.Result?
    && |r.answer| <= 2000 && |r.refs| <= 20 && |r.options| <= 4 && |r.steps| <= MAX_STEPS && |r.references| <= 20
    && (r.answer != "" || (r.question.Some? && r.question.value != ""))
    && (r.question.Some? ==> |r.question.value| <= 300)
    && (r.clientRef.Some? ==> IsReferenceName(r.clientRef.value))
  }

  predicate EndsValid(t: Turn) {
    match t.ending
    case Running => true
    case Raised(_) => true
    case Final(answer, refs, _) => 1 <= |answer| <= 2000 && |refs| <= 20
    case Asked(question, options) => 1 <= |question| <= 300 && |options| <= 4
  }

  lemma {:induction false} EndingIsValid(request: Request, world: World, n: nat)
    requires forall i: nat :: ValidReply(world.model(i))
    ensures EndsValid(After(request, world, n))
  {
    hide Handle, CanKeepWorking, IsStep;
    if n > 0 {
      EndingIsValid(request, world, n - 1);
      var before := After(request, world, n - 1);
      if before.ending.Running? && StepHandles(world, n - 1, before) {
        var (closing, from, call) := Handled(world, n - 1, before);
        HandleShape(request, world, n - 1, closing, from, call);
      }
    }
  }

  /** Every turn ends well, or in an exception. At most `maxSteps` steps are recorded. There is a result exactly
      unless the turn raises, as RaisesExactly says, and always in a civil world. A result passes its validator,
      with exactly one of answer and question; the ref of its action resolves in the returned references, and so
      does whatever the engine attaches itself. */
  lemma EveryTurnEndsWell(request: Request, world: World)
    requires ValidRequest(request) && forall i: nat :: ValidReply(world.model(i))
    ensures var t := After(request, world, request.maxSteps);
            var r := Finish(t);
            && |t.log| <= request.maxSteps <= 12
            && (r.Result? <==>
                  && world.catalog.Some?
                  && forall i: nat :: i < request.maxSteps && After(request, world, i).ending.Running? ==>
                                        !StepRaises(request, world, i, After(request, world, i)))
            && (Civil(world) ==> r.Result?)
            && (r.Result? ==>
                  && ValidResult(r) && (r.answer == "" <==> r.question.Some?)
                  && (r.clientRef.Some? ==> Find(r.clientRef.value, r.references).Some?)
                  && (r.exhausted <==> t.ending.Running?)
                  && (t.ending.Final? && t.ending.refs == [] ==>
                        forall ref :: ref in r.refs ==> Find(ref, r.references).Some?))
  {
    hide After, Find, WellNamed, StepRaises, Civil;
    var t := After(request, world, request.maxSteps);
    RunShape(request, world, request.maxSteps);
    RaisesExactly(request, world, request.maxSteps);
    if Civil(world) {
      QueueStaysWellFormed(request, world, request.maxSteps);
    }
    EndingIsValid(request, world, request.maxSteps);
    ReferencesAndAct(request, world, 0, request.maxSteps);
    NamesFit(t.references);
    forall k | 0 <= k < |t.references| ensures Find(t.references[k].ref, t.references).Some? {
      FindListed(t.references, k);
    }
  }

  lemma NamesFit(references: seq<Reference>)
    requires WellNamed(references)
    ensures |references| <= 20
    ensures forall ref :: Find(ref, references).Some? ==> IsReferenceName(ref)
  {
  }
}
