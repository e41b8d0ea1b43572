/**
 * RPC requests, their abort handles and their cancellation, interleaved. Each
 * accepted request becomes a task; tasks are numbered, because request ids are
 * chosen by the caller and may be reused.
 */
module RpcLifecycle {
  import opened Options

  type RequestId = nat
  type Task = nat
  type Canceller = nat

  /** What a response stream yields: values, then possibly one error, then its end. */
  datatype Item = Value | Fault

  datatype Response = Data | Error | Aborted | End

  function ToResponse(item: Item): Response {
    if item.Value? then Data else Error
  }

  /** Where a task is: polling, holding an item, past the loop, past its own cleanup, or done. */
  datatype Pc =
    | Polling
    | Holding(item: Item)
    | Drained
    | CleanedUp
    | Finished(taken: bool, raised: bool)

  datatype TaskState = TaskState(id: RequestId, pc: Pc, failed: bool, trace: seq<Response>)

  datatype State = State(
    handles: map<RequestId, Task>,
    tasks: seq<TaskState>,
    raised: set<Task>,
    taken: set<Task>,
    cancelling: map<Canceller, Task>
  )

  datatype Event =
    | Request(id: RequestId)
    | Poll(t: Task, item: Item)
    | Handle(t: Task)
    | StreamEnd(t: Task)
    | CleanUp(t: Task)
    | Finish(t: Task)
    | CancelRemove(c: Canceller, id: RequestId)
    | CancelAbort(c: Canceller)

  function Init(): State {
    State(map[], [], {}, {}, map[])
  }

  predicate At(s: State, t: Task) {
    t < |s.tasks|
  }

  predicate Enabled(s: State, e: Event) {
    match e
    case Request(_) => true
    case Poll(t, _) => At(s, t) && s.tasks[t].pc.Polling? && !s.tasks[t].failed && t !in s.raised
    case Handle(t) => At(s, t) && s.tasks[t].pc.Holding?
    case StreamEnd(t) => At(s, t) && s.tasks[t].pc.Polling?
    case CleanUp(t) => At(s, t) && s.tasks[t].pc.Drained?
    case Finish(t) => At(s, t) && s.tasks[t].pc.CleanedUp?
    case CancelRemove(c, id) => c !in s.cancelling
    case CancelAbort(c) => c in s.cancelling
  }

  function Put(s: State, t: Task, task: TaskState): State
    requires At(s, t)
  {
    s.(tasks := s.tasks[t := task])
  }

  function Apply(s: State, e: Event): State
    requires Enabled(s, e)
  {
    match e
    case Request(id) =>
      s.(tasks := s.tasks + [TaskState(id, Polling, false, [])], handles := s.handles[id := |s.tasks|])
    case Poll(t, item) => Put(s, t, s.tasks[t].(pc := Holding(item)))
    case Handle(t) =>
      var item := s.tasks[t].pc.item;
      Put(s, t, s.tasks[t].(pc := Polling, failed := s.tasks[t].failed || item.Fault?,
                            trace := s.tasks[t].trace + [ToResponse(item)]))
    case StreamEnd(t) => Put(s, t, s.tasks[t].(pc := Drained))
    case CleanUp(t) => Put(s, t, s.tasks[t].(pc := CleanedUp)).(handles := s.handles - {s.tasks[t].id})
    case Finish(t) =>
      Put(s, t, s.tasks[t].(pc := Finished(t in s.taken, t in s.raised),
                            trace := s.tasks[t].trace + [if t in s.raised then Aborted else End]))
    case CancelRemove(c, id) =>
      if id in s.handles then
        s.(handles := s.handles - {id}, taken := s.taken + {s.handles[id]},
           cancelling := s.cancelling[c := s.handles[id]])
      else s
    case CancelAbort(c) => s.(raised := s.raised + {s.cancelling[c]}, cancelling := s.cancelling - {c})
  }

  predicate Feasible(s: State, events: seq<Event>)
    decreases |events|
  {
    events == [] || (Enabled(s, events[0]) && Feasible(Apply(s, events[0]), events[1..]))
  }

  function Exec(s: State, events: seq<Event>): State
    requires Feasible(s, events)
    decreases |events|
  {
    if events == [] then s else Exec(Apply(s, events[0]), events[1..])
  }

  // ----- what every run keeps

  /** The request has not given up its handle yet. */
  predicate InFlight(task: TaskState) {
    task.pc.Polling? || task.pc.Holding? || task.pc.Drained?
  }

  predicate AllData(trace: seq<Response>) {
    forall r <- trace :: r.Data?
  }

  /** Data, then at most one error. */
  predicate Body(trace: seq<Response>, failed: bool) {
    if failed then trace != [] && trace[|trace| - 1].Error? && AllData(trace[..|trace| - 1])
    else AllData(trace)
  }

  /** A finished trace is a body and exactly one end marker, which is `Aborted` if and only if the flag was up. */
  predicate TraceShape(task: TaskState) {
    match task.pc
    case Finished(_, raised) =>
      && task.trace != []
      && task.trace[|task.trace| - 1] == (if raised then Aborted else End)
      && Body(task.trace[..|task.trace| - 1], task.failed)
    case Holding(_) => !task.failed && Body(task.trace, false)
    case _ => Body(task.trace, task.failed)
  }

  ghost predicate TraceInv(s: State) {
    forall t | 0 <= t < |s.tasks| :: TraceShape(s.tasks[t])
  }

  /** Handles belong to requests in flight that nobody cancelled. */
  ghost predicate HandleInv(s: State) {
    && (forall id <- s.handles.Keys ::
          At(s, s.handles[id]) && s.tasks[s.handles[id]].id == id && InFlight(s.tasks[s.handles[id]])
          && s.handles[id] !in s.taken)
    && (forall t <- s.taken :: At(s, t))
  }

  /** A taken handle has one canceller, which has raised the flag or is about to. */
  ghost predicate CancelInv(s: State) {
    && s.raised <= s.taken
    && (forall c <- s.cancelling.Keys :: s.cancelling[c] in s.taken && s.cancelling[c] !in s.raised)
    && (forall c, d | c in s.cancelling && d in s.cancelling && c != d :: s.cancelling[c] != s.cancelling[d])
    && (forall t <- s.taken :: t in s.raised || Underway(s, t))
  }

  /** A canceller took the handle of `t` and has not raised its flag yet. */
  ghost predicate Underway(s: State, t: Task) {
    exists c :: c in s.cancelling && s.cancelling[c] == t
  }

  /** A finished task's record of being cancelled stays true; its flag may rise later. */
  ghost predicate FinalInv(s: State) {
    forall t | 0 <= t < |s.tasks| && s.tasks[t].pc.Finished? ::
      && (s.tasks[t].pc.taken <==> t in s.taken)
      && (s.tasks[t].pc.raised ==> t in s.raised)
  }

  ghost predicate Inv(s: State) {
    TraceInv(s) && HandleInv(s) && CancelInv(s) && FinalInv(s)
  }

  lemma TraceStep(s: State, e: Event)
    requires TraceInv(s) && Enabled(s, e)
    ensures TraceInv(Apply(s, e))
  {
    var s' := Apply(s, e);
    forall t | 0 <= t < |s'.tasks| ensures TraceShape(s'.tasks[t]) {
      if t < |s.tasks| {
        assert TraceShape(s.tasks[t]);
        var trace, trace' := s.tasks[t].trace, s'.tasks[t].trace;
        if trace' != trace {
          assert trace'[..|trace'| - 1] == trace;
        }
      }
    }
  }

  lemma HandleStep(s: State, e: Event)
    requires HandleInv(s) && Enabled(s, e)
    ensures HandleInv(Apply(s, e))
  {
  }

  lemma CancelStep(s: State, e: Event)
    requires HandleInv(s) && CancelInv(s) && Enabled(s, e)
    ensures CancelInv(Apply(s, e))
  {
    var s' := Apply(s, e);
    forall t <- s'.taken ensures t in s'.raised || Underway(s', t) {
      if e.CancelRemove? && t !in s.taken {
        assert s'.cancelling[e.c] == t;
      } else if t !in s.raised {
        var c :| c in s.cancelling && s.cancelling[c] == t;
        if !e.CancelAbort? || e.c != c {
          assert c in s'.cancelling && s'.cancelling[c] == t;
        }
      }
    }
  }

  lemma InvStep(s: State, e: Event)
    requires Inv(s) && Enabled(s, e)
    ensures Inv(Apply(s, e))
  {
    TraceStep(s, e);
    HandleStep(s, e);
    CancelStep(s, e);
    FinalStep(s, e);
  }

  lemma FinalStep(s: State, e: Event)
    requires FinalInv(s) && HandleInv(s) && Enabled(s, e)
    ensures FinalInv(Apply(s, e))
  {
  }

  lemma {:induction false} RunInv(s: State, events: seq<Event>)
    requires Inv(s) && Feasible(s, events)
    ensures Inv(Exec(s, events))
    decreases |events|
  {
    if events != [] {
      InvStep(s, events[0]);
      RunInv(Apply(s, events[0]), events[1..]);
    }
  }

  ghost predicate Reachable(s: State) {
    exists events :: Feasible(Init(), events) && Exec(Init(), events) == s
  }

  lemma ReachableInv(s: State)
    requires Reachable(s)
    ensures Inv(s)
  {
    var events :| Feasible(Init(), events) && Exec(Init(), events) == s;
    RunInv(Init(), events);
  }

  /**
   * In every interleaving a finished request's trace is data, at most one
   * error, and exactly one end marker; an `Aborted` marker means that a cancel
   * took its handle.
   */
  lemma FinishedTraces(s: State, t: Task)
    requires Reachable(s) && At(s, t) && s.tasks[t].pc.Finished?
    ensures TraceShape(s.tasks[t])
    ensures s.tasks[t].trace[|s.tasks[t].trace| - 1].Aborted? ==> t in s.taken
  {
    ReachableInv(s);
  }

  /**
   * A request ends as `Aborted` exactly when a cancel took its handle and no
   * canceller is still between taking it and raising the flag.
   */
  lemma AbortedExactly(s: State, t: Task)
    requires Reachable(s) && Enabled(s, Finish(t))
    ensures var trace := Apply(s, Finish(t)).tasks[t].trace;
      trace[|trace| - 1].Aborted? <==> t in s.taken && !Underway(s, t)
  {
    ReachableInv(s);
  }

  lemma {:induction false} RunOn(s: State, one: seq<Event>, two: seq<Event>)
    requires Feasible(s, one) && Feasible(Exec(s, one), two)
    ensures Feasible(s, one + two) && Exec(s, one + two) == Exec(Exec(s, one), two)
    decreases |one|
  {
    if one == [] {
      assert one + two == two;
    } else {
      RunOn(Apply(s, one[0]), one[1..], two);
      assert (one + two)[1..] == one[1..] + two;
    }
  }

  lemma TwoSteps(s: State, a: Event, b: Event)
    requires Enabled(s, a) && Enabled(Apply(s, a), b)
    ensures Feasible(s, [a, b]) && Exec(s, [a, b]) == Apply(Apply(s, a), b)
  {
    var s1, events, tail := Apply(s, a), [a, b], [b];
    assert events[1..] == tail && tail[1..] == [];
    assert Feasible(Apply(s1, b), []) && Feasible(s1, tail);
    assert Exec(s1, tail) == Exec(Apply(s1, b), []);
  }

  lemma ThreeSteps(s: State, a: Event, b: Event, c: Event)
    requires Enabled(s, a) && Enabled(Apply(s, a), b) && Enabled(Apply(Apply(s, a), b), c)
    ensures Feasible(s, [a, b, c]) && Exec(s, [a, b, c]) == Apply(Apply(Apply(s, a), b), c)
  {
    var s1, events, tail := Apply(s, a), [a, b, c], [b, c];
    TwoSteps(s1, b, c);
    assert events[1..] == tail;
    assert Feasible(s1, tail) && Exec(s, events) == Exec(s1, tail);
  }

  /** A cancel between taking the handle and raising the flag can lose the race. */
  lemma LateAbortEnds()
    ensures var events := [Request(7), StreamEnd(0), CancelRemove(0, 7)] + [CleanUp(0), Finish(0), CancelAbort(0)];
      && Feasible(Init(), events)
      && 0 in Exec(Init(), events).taken && At(Exec(Init(), events), 0)
      && Exec(Init(), events).tasks[0].trace == [End]
  {
    ThreeSteps(Init(), Request(7), StreamEnd(0), CancelRemove(0, 7));
    var s := State(map[], [TaskState(7, Drained, false, [])], {}, {0}, map[0 := 0]);
    assert Exec(Init(), [Request(7), StreamEnd(0), CancelRemove(0, 7)]) == s;
    ThreeSteps(s, CleanUp(0), Finish(0), CancelAbort(0));
    RunOn(Init(), [Request(7), StreamEnd(0), CancelRemove(0, 7)], [CleanUp(0), Finish(0), CancelAbort(0)]);
  }

  // ----- cancelling in one go, as on a single-threaded executor

  /** Every cancel that takes a handle raises its flag before anything else happens. */
  predicate OneGo(s: State, events: seq<Event>)
    requires Feasible(s, events)
    decreases |events|
  {
    if events == [] then true
    else if events[0].CancelRemove? && events[0].id in s.handles then
      var rest := events[1..];
      assert Feasible(Apply(s, events[0]), rest);
      && rest != [] && rest[0] == CancelAbort(events[0].c)
      && OneGo(Apply(Apply(s, events[0]), rest[0]), rest[1..])
    else !events[0].CancelAbort? && OneGo(Apply(s, events[0]), events[1..])
  }

  ghost predicate Settled(s: State) {
    && s.taken == s.raised && s.cancelling == map[]
    && (forall t | 0 <= t < |s.tasks| && s.tasks[t].pc.Finished? :: s.tasks[t].pc.taken == s.tasks[t].pc.raised)
  }

  lemma {:induction false} SettledRun(s: State, events: seq<Event>)
    requires Settled(s) && Feasible(s, events) && OneGo(s, events)
    ensures Settled(Exec(s, events))
    decreases |events|
  {
    if events != [] {
      var s1 := Apply(s, events[0]);
      if events[0].CancelRemove? && events[0].id in s.handles {
        var s2 := Apply(s1, events[1]);
        assert s2.cancelling == map[];
        assert Exec(s, events) == Exec(s2, events[1..][1..]);
        SettledRun(s2, events[1..][1..]);
      } else {
        SettledRun(s1, events[1..]);
      }
    }
  }

  /** Then a finished request's trace ends in `Aborted` exactly when a cancel removed its handle. */
  lemma OneGoAbortsExactly(events: seq<Event>, t: Task)
    requires Feasible(Init(), events) && OneGo(Init(), events)
    requires At(Exec(Init(), events), t) && Exec(Init(), events).tasks[t].pc.Finished?
    ensures var s := Exec(Init(), events);
      var trace := s.tasks[t].trace;
      trace != [] && (trace[|trace| - 1].Aborted? <==> t in s.taken)
  {
    RunInv(Init(), events);
    SettledRun(Init(), events);
    assert TraceShape(Exec(Init(), events).tasks[t]);
  }

  // ----- the handle table under distinct request ids

  /** No request in flight uses the id. */
  ghost predicate Fresh(s: State, id: RequestId) {
    forall t | 0 <= t < |s.tasks| && InFlight(s.tasks[t]) :: s.tasks[t].id != id
  }

  ghost predicate DistinctIds(s: State, events: seq<Event>)
    requires Feasible(s, events)
    decreases |events|
  {
    events == [] ||
    ((events[0].Request? ==> Fresh(s, events[0].id)) && DistinctIds(Apply(s, events[0]), events[1..]))
  }

  ghost predicate IdsDiffer(s: State) {
    forall t, u | 0 <= t < u < |s.tasks| && InFlight(s.tasks[t]) && InFlight(s.tasks[u]) ::
      s.tasks[t].id != s.tasks[u].id
  }

  /** The table is exactly the requests in flight that nobody cancelled. */
  ghost predicate TableExact(s: State) {
    forall t | 0 <= t < |s.tasks| ::
      InFlight(s.tasks[t]) && t !in s.taken <==> s.tasks[t].id in s.handles && s.handles[s.tasks[t].id] == t
  }

  lemma IdsStep(s: State, e: Event)
    requires IdsDiffer(s) && Enabled(s, e)
    requires e.Request? ==> Fresh(s, e.id)
    ensures IdsDiffer(Apply(s, e))
  {
  }

  /**
   * What keeps the table exact: a request finds its id free in the table, and a
   * task that cleans up finds its id gone or its own.
   */
  predicate KeepsTable(s: State, e: Event)
    requires Enabled(s, e)
  {
    match e
    case Request(id) => id !in s.handles
    case CleanUp(t) => s.tasks[t].id in s.handles ==> s.handles[s.tasks[t].id] == t
    case _ => true
  }

  predicate Listed(s: State, t: Task)
    requires At(s, t)
  {
    s.tasks[t].id in s.handles && s.handles[s.tasks[t].id] == t
  }

  lemma KeptTable(s: State, e: Event)
    requires HandleInv(s) && TableExact(s) && Enabled(s, e) && KeepsTable(s, e)
    ensures TableExact(Apply(s, e))
  {
    var s' := Apply(s, e);
    forall t | 0 <= t < |s'.tasks| ensures InFlight(s'.tasks[t]) && t !in s'.taken <==> Listed(s', t) {
      if t < |s.tasks| {
        assert s'.tasks[t].id == s.tasks[t].id;
        assert InFlight(s.tasks[t]) && t !in s.taken <==> Listed(s, t);
      }
    }
  }

  lemma LostHandle(s: State, e: Event)
    requires HandleInv(s) && TableExact(s) && Enabled(s, e) && !KeepsTable(s, e)
    ensures !TableExact(Apply(s, e))
  {
    var s' := Apply(s, e);
    var id := if e.Request? then e.id else s.tasks[e.t].id;
    var t := s.handles[id];
    assert InFlight(s'.tasks[t]) && t !in s'.taken && !Listed(s', t);
  }

  /** A step keeps the table exact if and only if it meets the condition. */
  lemma TableStepExactly(s: State, e: Event)
    requires HandleInv(s) && TableExact(s) && Enabled(s, e)
    ensures TableExact(Apply(s, e)) <==> KeepsTable(s, e)
  {
    if KeepsTable(s, e) {
      KeptTable(s, e);
    } else {
      LostHandle(s, e);
    }
  }

  lemma TableStep(s: State, e: Event)
    requires HandleInv(s) && IdsDiffer(s) && TableExact(s) && Enabled(s, e)
    requires e.Request? ==> Fresh(s, e.id)
    ensures TableExact(Apply(s, e))
  {
    assert KeepsTable(s, e);
    KeptTable(s, e);
  }

  lemma {:induction false} TableRun(s: State, events: seq<Event>)
    requires Inv(s) && IdsDiffer(s) && TableExact(s) && Feasible(s, events) && DistinctIds(s, events)
    ensures TableExact(Exec(s, events))
    decreases |events|
  {
    if events != [] {
      InvStep(s, events[0]);
      IdsStep(s, events[0]);
      TableStep(s, events[0]);
      TableRun(Apply(s, events[0]), events[1..]);
    }
  }

  /** In every interleaving with distinct ids in flight, the table is exactly the uncancelled requests in flight. */
  lemma TableIsInFlight(events: seq<Event>)
    requires Feasible(Init(), events) && DistinctIds(Init(), events)
    ensures TableExact(Exec(Init(), events))
  {
    TableRun(Init(), events);
  }

  ghost predicate AlwaysExact(s: State, events: seq<Event>)
    requires Feasible(s, events)
    decreases |events|
  {
    TableExact(s) && (events == [] || AlwaysExact(Apply(s, events[0]), events[1..]))
  }

  predicate AlwaysKeeps(s: State, events: seq<Event>)
    requires Feasible(s, events)
    decreases |events|
  {
    events == [] || (KeepsTable(s, events[0]) && AlwaysKeeps(Apply(s, events[0]), events[1..]))
  }

  lemma {:induction false} ExactFrom(s: State, events: seq<Event>)
    requires Inv(s) && TableExact(s) && Feasible(s, events)
    ensures AlwaysExact(s, events) <==> AlwaysKeeps(s, events)
    decreases |events|
  {
    if events != [] {
      InvStep(s, events[0]);
      TableStepExactly(s, events[0]);
      var s', rest := Apply(s, events[0]), events[1..];
      if TableExact(s') {
        ExactFrom(s', rest);
      }
    }
  }

  /** In every run, reused ids or not, the table is always exact if and only if every step meets the condition. */
  lemma TableExactExactly(events: seq<Event>)
    requires Feasible(Init(), events)
    ensures AlwaysExact(Init(), events) <==> AlwaysKeeps(Init(), events)
  {
    ExactFrom(Init(), events);
  }

  lemma CancelledTask()
    ensures var events := [Request(7), CancelRemove(0, 7), CancelAbort(0)];
      && Feasible(Init(), events)
      && Exec(Init(), events) == State(map[], [TaskState(7, Polling, false, [])], {0}, {0}, map[])
  {
    ThreeSteps(Init(), Request(7), CancelRemove(0, 7), CancelAbort(0));
    assert Apply(Init(), Request(7)) == State(map[7 := 0], [TaskState(7, Polling, false, [])], {}, {}, map[]);
  }

  lemma CleansUpLate(task: TaskState, s: State)
    requires task == TaskState(7, Polling, false, []) && s == State(map[], [task], {0}, {0}, map[])
    ensures Feasible(s, [Request(7), StreamEnd(0), CleanUp(0)])
    ensures Exec(s, [Request(7), StreamEnd(0), CleanUp(0)])
         == State(map[], [task.(pc := CleanedUp), task], {0}, {0}, map[])
  {
    var s1 := State(map[7 := 1], [task, task], {0}, {0}, map[]);
    assert Apply(s, Request(7)) == s1;
    var s2 := State(map[7 := 1], [task.(pc := Drained), task], {0}, {0}, map[]);
    assert Apply(s1, StreamEnd(0)) == s2;
    ThreeSteps(s, Request(7), StreamEnd(0), CleanUp(0));
  }

  /** A cancelled request that cleans up removes the handle of a later request with its id. */
  lemma CleanUpTakesAnother()
    ensures var events := [Request(7), CancelRemove(0, 7), CancelAbort(0)] + [Request(7), StreamEnd(0), CleanUp(0)];
      && Feasible(Init(), events)
      && var s := Exec(Init(), events);
         At(s, 1) && InFlight(s.tasks[1]) && 1 !in s.taken && s.handles == map[]
  {
    CancelledTask();
    var one, two := [Request(7), CancelRemove(0, 7), CancelAbort(0)], [Request(7), StreamEnd(0), CleanUp(0)];
    CleansUpLate(TaskState(7, Polling, false, []), Exec(Init(), one));
    RunOn(Init(), one, two);
  }

  /** Reusing an id in flight leaves the first request running with no handle, out of reach of any cancel. */
  lemma ReuseLosesHandle()
    ensures var events := [Request(7), Request(7)] + [StreamEnd(1), CleanUp(1)];
      && Feasible(Init(), events)
      && var s := Exec(Init(), events);
         At(s, 0) && InFlight(s.tasks[0]) && 0 !in s.taken && s.handles == map[]
  {
    TwoSteps(Init(), Request(7), Request(7));
    var task := TaskState(7, Polling, false, []);
    var s := State(map[7 := 1], [task, task], {}, {}, map[]);
    assert Exec(Init(), [Request(7), Request(7)]) == s;
    TwoSteps(s, StreamEnd(1), CleanUp(1));
    RunOn(Init(), [Request(7), Request(7)], [StreamEnd(1), CleanUp(1)]);
  }

  // ----- the code behind the steps

  /** The responses a task sends for the items it polled. */
  function Responses(items: seq<Item>): seq<Response> {
    seq(|items|, i requires 0 <= i < |items| => ToResponse(items[i]))
  }

  /** The items that a run polls from the stream of a task. */
  function PolledBy(events: seq<Event>, t: Task): seq<Item> {
    if events == [] then []
    else (if events[0].Poll? && events[0].t == t then [events[0].item] else []) + PolledBy(events[1..], t)
  }

  /** What a task has answered, its end marker aside, or is about to answer. */
  function Answered(s: State, t: Task): seq<Response> {
    if !At(s, t) then []
    else
      var task := s.tasks[t];
      match task.pc
      case Finished(_, _) => if task.trace == [] then [] else task.trace[..|task.trace| - 1]
      case Holding(item) => task.trace + [ToResponse(item)]
      case _ => task.trace
  }

  /** What one event adds to the answers of a task. */
  function Adds(e: Event, t: Task): seq<Response> {
    if e.Poll? && e.t == t then [ToResponse(e.item)] else []
  }

  lemma AddsFirst(events: seq<Event>, t: Task)
    requires events != []
    ensures Responses(PolledBy(events, t)) == Adds(events[0], t) + Responses(PolledBy(events[1..], t))
  {
  }

  lemma AnsweredStep(s: State, e: Event, t: Task)
    requires TraceInv(s) && Enabled(s, e)
    ensures Answered(Apply(s, e), t) == Answered(s, t) + Adds(e, t)
  {
    var s' := Apply(s, e);
    if At(s, t) {
      assert TraceShape(s.tasks[t]);
      if e == Finish(t) {
        assert s'.tasks[t].trace[..|s'.tasks[t].trace| - 1] == s.tasks[t].trace;
      }
    }
  }

  lemma {:induction false} AnsweredRun(s: State, events: seq<Event>, t: Task)
    requires Inv(s) && Feasible(s, events)
    ensures Answered(Exec(s, events), t) == Answered(s, t) + Responses(PolledBy(events, t))
    decreases |events|
  {
    if events != [] {
      InvStep(s, events[0]);
      AnsweredStep(s, events[0], t);
      AddsFirst(events, t);
      AnsweredRun(Apply(s, events[0]), events[1..], t);
    }
  }

  lemma WholeTrace(s: State, t: Task)
    requires TraceInv(s) && At(s, t) && s.tasks[t].pc.Finished?
    ensures s.tasks[t].trace == Answered(s, t) + [if s.tasks[t].pc.raised then Aborted else End]
  {
    var task := s.tasks[t];
    assert TraceShape(task);
    assert task.trace == task.trace[..|task.trace| - 1] + [task.trace[|task.trace| - 1]];
  }

  /**
   * In every interleaving a finished request has answered the items polled from
   * its stream, in order, and then its end marker, just as `RunTask` does alone.
   */
  lemma FinishedAnswers(events: seq<Event>, t: Task)
    requires Feasible(Init(), events) && At(Exec(Init(), events), t) && Exec(Init(), events).tasks[t].pc.Finished?
    ensures var task := Exec(Init(), events).tasks[t];
      task.trace == Responses(PolledBy(events, t)) + [if task.pc.raised then Aborted else End]
  {
    RunInv(Init(), events);
    AnsweredRun(Init(), events, t);
    WholeTrace(Exec(Init(), events), t);
  }

  // ----- every request can be answered in full

  /** Each item polled and handled, one after the other. */
  function TakeEach(t: Task, items: seq<Item>): seq<Event> {
    if items == [] then [] else [Poll(t, items[0]), Handle(t)] + TakeEach(t, items[1..])
  }

  lemma TakeOne(s: State, t: Task, item: Item)
    requires At(s, t) && s.tasks[t].pc.Polling? && !s.tasks[t].failed && t !in s.raised
    ensures Feasible(s, [Poll(t, item), Handle(t)])
    ensures Exec(s, [Poll(t, item), Handle(t)]) ==
      Put(s, t, s.tasks[t].(failed := item.Fault?, trace := s.tasks[t].trace + [ToResponse(item)]))
  {
    TwoSteps(s, Poll(t, item), Handle(t));
  }

  lemma {:induction false} ItemsAreAnswered(s: State, t: Task, items: seq<Item>)
    requires At(s, t) && s.tasks[t].pc.Polling? && !s.tasks[t].failed && t !in s.raised
    requires forall i | 0 <= i < |items| - 1 :: items[i].Value?
    ensures Feasible(s, TakeEach(t, items))
    ensures Exec(s, TakeEach(t, items)) ==
      Put(s, t, s.tasks[t].(failed := items != [] && items[|items| - 1].Fault?,
                            trace := s.tasks[t].trace + Responses(items)))
    decreases |items|
  {
    if items == [] {
      assert s.tasks[t].trace + Responses(items) == s.tasks[t].trace;
      assert s.tasks[t := s.tasks[t]] == s.tasks;
    } else {
      TakeOne(s, t, items[0]);
      var s' := Exec(s, [Poll(t, items[0]), Handle(t)]);
      if |items| > 1 {
        assert items[1..][|items| - 2] == items[|items| - 1];
        ItemsAreAnswered(s', t, items[1..]);
        RunOn(s, [Poll(t, items[0]), Handle(t)], TakeEach(t, items[1..]));
      } else {
        assert TakeEach(t, items) == [Poll(t, items[0]), Handle(t)];
        assert Responses(items) == [ToResponse(items[0])];
      }
      assert s'.tasks[t].trace + Responses(items[1..]) == s.tasks[t].trace + Responses(items);
      assert forall task :: Put(s', t, task) == Put(s, t, task);
    }
  }

  lemma EndsAfter(s: State, t: Task)
    requires At(s, t) && s.tasks[t].pc.Polling? && t !in s.raised
    ensures var events := [StreamEnd(t), CleanUp(t), Finish(t)];
      Feasible(s, events) && At(Exec(s, events), t) && Exec(s, events).tasks[t].trace == s.tasks[t].trace + [End]
  {
    ThreeSteps(s, StreamEnd(t), CleanUp(t), Finish(t));
  }

  /**
   * In every reachable state, a request with any id and any stream of values,
   * up to one error at its end, can be answered with all of it and an end.
   */
  lemma RequestsAreAnswered(s: State, id: RequestId, items: seq<Item>)
    requires Reachable(s) && forall i | 0 <= i < |items| - 1 :: items[i].Value?
    ensures var t := |s.tasks|;
      var events := [Request(id)] + TakeEach(t, items) + [StreamEnd(t), CleanUp(t), Finish(t)];
      Feasible(s, events) && At(Exec(s, events), t) && Exec(s, events).tasks[t].trace == Responses(items) + [End]
  {
    var t := |s.tasks|;
    ReachableInv(s);
    var s1 := Apply(s, Request(id));
    assert t !in s1.raised;
    ItemsAreAnswered(s1, t, items);
    var s2 := Exec(s1, TakeEach(t, items));
    assert [] + Responses(items) == Responses(items);
    EndsAfter(s2, t);
    assert Exec(s, [Request(id)]) == s1;
    RunOn(s, [Request(id)], TakeEach(t, items));
    RunOn(s, [Request(id)] + TakeEach(t, items), [StreamEnd(t), CleanUp(t), Finish(t)]);
  }

  lemma {:induction false} RaisedPollsNothing(s: State, events: seq<Event>, t: Task)
    requires Feasible(s, events) && t in s.raised
    ensures PolledBy(events, t) == []
    decreases |events|
  {
    if events != [] {
      RaisedPollsNothing(Apply(s, events[0]), events[1..], t);
    }
  }

  lemma {:induction false} Later(s: State, events: seq<Event>, i: nat)
    requires Feasible(s, events) && i <= |events|
    ensures Feasible(s, events[..i]) && Feasible(Exec(s, events[..i]), events[i..])
    ensures Exec(s, events) == Exec(Exec(s, events[..i]), events[i..])
    decreases i
  {
    if i > 0 {
      Later(Apply(s, events[0]), events[1..], i - 1);
      assert events[..i][1..] == events[1..][..i - 1];
      assert events[1..][i - 1..] == events[i..];
    } else {
      assert events[0..] == events;
    }
  }

  /** In every run: once its abort flag is up, nothing more is polled from a request's stream. */
  lemma AbortStopsPolling(events: seq<Event>, i: nat, t: Task)
    requires Feasible(Init(), events) && i <= |events|
    ensures Feasible(Init(), events[..i])
    ensures t in Exec(Init(), events[..i]).raised ==> PolledBy(events[i..], t) == []
  {
    Later(Init(), events, i);
    if t in Exec(Init(), events[..i]).raised {
      RaisedPollsNothing(Exec(Init(), events[..i]), events[i..], t);
    }
  }

  /** What is left of a request's trace when its flag is up. */
  lemma LastAnswers(s: State, events: seq<Event>, t: Task)
    requires Inv(s) && Feasible(s, events) && t in s.raised && At(s, t) && !s.tasks[t].pc.Finished?
    ensures At(Exec(s, events), t)
    ensures Exec(s, events).tasks[t].pc.Finished? ==>
      Exec(s, events).tasks[t].trace == Answered(s, t) + [Aborted]
  {
    RaisedPollsNothing(s, events, t);
    AnsweredRun(s, events, t);
    RaisedStays(s, events, t);
    RunInv(s, events);
    if Exec(s, events).tasks[t].pc.Finished? {
      WholeTrace(Exec(s, events), t);
    }
  }

  /**
   * So from the abort on a request answers at most the item it already held, and
   * then its end marker.
   */
  lemma AbortStopsAnswers(events: seq<Event>, i: nat, t: Task)
    requires Feasible(Init(), events) && i <= |events|
    ensures Feasible(Init(), events[..i])
    ensures var s, s' := Exec(Init(), events[..i]), Exec(Init(), events);
      t in s.raised && At(s, t) && At(s', t) && s'.tasks[t].pc.Finished? && !s.tasks[t].pc.Finished? ==>
        s'.tasks[t].trace == s.tasks[t].trace
          + (if s.tasks[t].pc.Holding? then [ToResponse(s.tasks[t].pc.item)] else []) + [Aborted]
  {
    Later(Init(), events, i);
    var s := Exec(Init(), events[..i]);
    RunInv(Init(), events[..i]);
    if t in s.raised && At(s, t) && !s.tasks[t].pc.Finished? {
      LastAnswers(s, events[i..], t);
    }
  }

  lemma {:induction false} RaisedStays(s: State, events: seq<Event>, t: Task)
    requires Feasible(s, events) && t in s.raised && At(s, t) && !s.tasks[t].pc.Finished?
    ensures At(Exec(s, events), t)
    ensures Exec(s, events).tasks[t].pc.Finished? ==> Exec(s, events).tasks[t].pc.raised
    decreases |events|
  {
    if events != [] {
      var s' := Apply(s, events[0]);
      if s'.tasks[t].pc.Finished? {
        FinishedStays(s', events[1..], t);
      } else {
        RaisedStays(s', events[1..], t);
      }
    }
  }

  lemma {:induction false} FinishedStays(s: State, events: seq<Event>, t: Task)
    requires Feasible(s, events) && At(s, t) && s.tasks[t].pc.Finished?
    ensures At(Exec(s, events), t) && Exec(s, events).tasks[t] == s.tasks[t]
    decreases |events|
  {
    if events != [] {
      FinishedStays(Apply(s, events[0]), events[1..], t);
    }
  }

  /** The items a stream yields before its end or the abort. */
  function Polled(items: seq<Item>, abortAfter: Option<nat>): seq<Item> {
    if abortAfter.Some? && abortAfter.value < |items| then items[..abortAfter.value] else items
  }

  class RpcGlobalState {
    var rpcHandles: map<RequestId, Task>

    constructor ()
      ensures rpcHandles == map[]
    {
      rpcHandles := map[];
    }

    /** Registers a handle; an id in use is reported and overwritten. */
    method AddRpcHandle(id: RequestId, handle: Task) returns (reused: bool)
      modifies this
      ensures rpcHandles == old(rpcHandles)[id := handle]
      ensures reused <==> id in old(rpcHandles)
    {
      reused := id in rpcHandles;
      rpcHandles := rpcHandles[id := handle];
    }

    method RemoveRpcHandle(id: RequestId) returns (handle: Option<Task>)
      modifies this
      ensures rpcHandles == old(rpcHandles) - {id}
      ensures handle == if id in old(rpcHandles) then Some(old(rpcHandles)[id]) else None
    {
      handle := if id in rpcHandles then Some(rpcHandles[id]) else None;
      rpcHandles := rpcHandles - {id};
    }

    /**
     * A task from its first poll to its end marker. The stream's items are
     * answered in order; a flag raised after `abortAfter` items stops the
     * polling there and is read again for the end marker.
     */
    method RunTask(id: RequestId, items: seq<Item>, abortAfter: Option<nat>) returns (trace: seq<Response>)
      modifies this
      ensures rpcHandles == old(rpcHandles) - {id}
      ensures trace == Responses(Polled(items, abortAfter)) + [if abortAfter.Some? then Aborted else End]
    {
      trace := [];
      var i := 0;
      while i < |items| && abortAfter != Some(i)
        invariant 0 <= i <= |items| && (abortAfter.Some? ==> i <= abortAfter.value)
        invariant trace == Responses(items[..i])
        invariant rpcHandles == old(rpcHandles)
      {
        trace := trace + [ToResponse(items[i])];
        assert items[..i + 1] == items[..i] + [items[i]];
        i := i + 1;
      }
      assert items[..i] == Polled(items, abortAfter);
      var _ := RemoveRpcHandle(id);
      trace := trace + [if abortAfter.Some? then Aborted else End];
    }
  }
}
