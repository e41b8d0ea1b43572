/** Every run of the driver with `FilterMapThreshold`. */
module FilterRuns {
  import opened Federation
  import opened QueryStrategies
  import opened QueryDriver

  type FRun<T> = Run<Filtered<T>, Filtered<T>>

  function Begin<T>(peers: set<PeerId>): FRun<T> {
    Start(peers, map[])
  }

  /** The filter together with the completions of a run. */
  datatype Schedule<!R, !T> = Schedule(filter: (PeerId, R) -> Result<T>, events: seq<Completion<R>>)

  /** The value is what the filter made of an answer that the peer sent in the run. */
  ghost predicate Sent<R(!new), T(!new)>(schedule: Schedule<R, T>, p: PeerId, value: T) {
    exists c <- schedule.events ::
      c.peer == p && c.result.Ok? && schedule.filter(p, c.result.value) == Ok(value)
  }

  ghost predicate Accepted<R(!new), T(!new)>(schedule: Schedule<R, T>, m: Filtered<T>) {
    forall p <- m.Keys :: Sent(schedule, p, m[p])
  }

  /** The filter accepts the answer. */
  predicate Passes<R, T>(schedule: Schedule<R, T>, c: Completion<R>) {
    c.result.Ok? && schedule.filter(c.peer, c.result.value).Ok?
  }

  /** Each recorded error is the one its peer failed with, or the filter's of its answer, in the run. */
  ghost predicate Blamed<R(!new), T(!new)>(schedule: Schedule<R, T>, errors: map<PeerId, ServerError>) {
    forall p <- errors.Keys :: Turned(schedule, p, errors[p])
  }

  ghost predicate Turned<R(!new), T(!new)>(schedule: Schedule<R, T>, p: PeerId, e: ServerError) {
    exists c <- schedule.events :: c.peer == p &&
      (c.result == Err(e) || (c.result.Ok? && schedule.filter(p, c.result.value) == Err(e)))
  }

  ghost predicate Sound<R(!new), T(!new)>(peers: set<PeerId>, schedule: Schedule<R, T>, run: FRun<T>)
    requires peers != {}
  {
    match run.status
    case Running =>
      && Balanced(peers, run.strategy, run.book)
      && |run.strategy| < Threshold(|peers|) && |run.book.errors| < OneHonest(|peers|)
      && Accepted(schedule, run.strategy) && Blamed(schedule, run.book.errors)
    case Done(m) => m.Keys <= peers && |m| == Threshold(|peers|) && Accepted(schedule, m)
    case Failed(errors) => errors.Keys <= peers && |errors| == OneHonest(|peers|) && Blamed(schedule, errors)
    case Crashed => false
  }

  /** Bookkeeping of one turn, before it is judged. */
  ghost predicate Balanced<T>(peers: set<PeerId>, m: Filtered<T>, b: Book) {
    && m.Keys <= peers && b.errors.Keys <= peers
    && m.Keys !! b.errors.Keys
    && b.outstanding == peers - m.Keys - b.errors.Keys && !b.doubled
  }

  lemma Accept<T>(peers: set<PeerId>, m: Filtered<T>, b: Book, p: PeerId, value: T)
    requires Balanced(peers, m, b) && p in b.outstanding
    ensures Balanced(peers, m[p := value], b.(outstanding := b.outstanding - {p}))
    ensures |m[p := value]| == |m| + 1
  {
    InsertKeySize(m, p, value);
  }

  lemma Reject<T>(peers: set<PeerId>, m: Filtered<T>, b: Book, p: PeerId, e: ServerError)
    requires Balanced(peers, m, b) && p in b.outstanding
    ensures Balanced(peers, m, b.(outstanding := b.outstanding - {p}, errors := b.errors[p := e]))
    ensures |b.errors[p := e]| == |b.errors| + 1
  {
    InsertKeySize(b.errors, p, e);
  }

  lemma AcceptStep<R(!new), T(!new)>(
      peers: set<PeerId>, schedule: Schedule<R, T>, run: FRun<T>, c: Completion<R>)
    requires peers != {} && run.status.Running? && Sound(peers, schedule, run)
    requires c.peer in run.book.outstanding && c in schedule.events
    requires Passes(schedule, c)
    ensures Sound(peers, schedule, Step(FilterMap(schedule.filter, Threshold(|peers|)), OneHonest(|peers|), run, c))
  {
    var p, value := c.peer, schedule.filter(c.peer, c.result.value).value;
    Accept(peers, run.strategy, run.book, p, value);
    assert Sent(schedule, p, value);
    assert Accepted(schedule, run.strategy[p := value]);
  }

  lemma RejectStep<R(!new), T(!new)>(
      peers: set<PeerId>, schedule: Schedule<R, T>, run: FRun<T>, c: Completion<R>)
    requires peers != {} && run.status.Running? && Sound(peers, schedule, run)
    requires c.peer in run.book.outstanding && c in schedule.events
    requires !Passes(schedule, c)
    ensures Sound(peers, schedule, Step(FilterMap(schedule.filter, Threshold(|peers|)), OneHonest(|peers|), run, c))
  {
    var e := if c.result.Ok? then schedule.filter(c.peer, c.result.value).error else c.result.error;
    Reject(peers, run.strategy, run.book, c.peer, e);
    assert Turned(schedule, c.peer, e);
    assert Blamed(schedule, run.book.errors[c.peer := e]);
  }

  lemma FilterStep<R(!new), T(!new)>(
      peers: set<PeerId>, schedule: Schedule<R, T>, run: FRun<T>, c: Completion<R>)
    requires peers != {} && run.status.Running? && Sound(peers, schedule, run)
    requires c.peer in run.book.outstanding && c in schedule.events
    ensures Sound(peers, schedule, Step(FilterMap(schedule.filter, Threshold(|peers|)), OneHonest(|peers|), run, c))
  {
    if Passes(schedule, c) {
      AcceptStep(peers, schedule, run, c);
    } else {
      RejectStep(peers, schedule, run, c);
    }
  }

  lemma {:induction false} SoundExec<R(!new), T(!new)>(
    peers: set<PeerId>, schedule: Schedule<R, T>, run: FRun<T>, events: seq<Completion<R>>)
    requires peers != {} && Sound(peers, schedule, run) && (forall c <- events :: c in schedule.events)
    requires Feasible(FilterMap(schedule.filter, Threshold(|peers|)), OneHonest(|peers|), run, events)
    ensures var last := Exec(FilterMap(schedule.filter, Threshold(|peers|)), OneHonest(|peers|), run, events);
      Sound(peers, schedule, last)
    decreases |events|
  {
    if events != [] {
      FilterStep(peers, schedule, run, events[0]);
      var next := Step(FilterMap(schedule.filter, Threshold(|peers|)), OneHonest(|peers|), run, events[0]);
      SoundExec(peers, schedule, next, events[1..]);
    }
  }

  predicate Possible<R, T>(peers: set<PeerId>, schedule: Schedule<R, T>)
    requires peers != {}
  {
    Feasible(FilterMap(schedule.filter, Threshold(|peers|)), OneHonest(|peers|), Begin<T>(peers), schedule.events)
  }

  function Finish<R, T>(peers: set<PeerId>, schedule: Schedule<R, T>): FRun<T>
    requires peers != {}
  {
    Exec(FilterMap(schedule.filter, Threshold(|peers|)), OneHonest(|peers|), Begin<T>(peers), schedule.events)
  }

  /**
   * In every run a returned map holds exactly a threshold of accepted answers,
   * each made by the filter from an answer its peer sent in that run;
   * an error return carries exactly one more failed peer than can be evil; and
   * while the loop runs some request is in flight.
   */
  lemma EveryRunIsSound<R(!new), T(!new)>(
      peers: set<PeerId>, schedule: Schedule<R, T>)
    requires peers != {} && Possible(peers, schedule)
    ensures var last := Finish(peers, schedule);
      && Sound(peers, schedule, last)
      && (last.status.Running? ==> exists p :: p in last.book.outstanding)
  {
    assert peers - {} - {} == peers;
    SoundExec(peers, schedule, Begin<T>(peers), schedule.events);
    var last := Finish(peers, schedule);
    if last.status.Running? {
      var settled := last.strategy.Keys + last.book.errors.Keys;
      assert |settled| == |last.strategy| + |last.book.errors|;
      var idle := peers - settled;
      if idle == {} {
        SubsetSize(peers, settled);
        assert false;
      }
      var p :| p in idle;
      assert p in last.book.outstanding;
    }
  }

  // ----- what a call returns, by counting

  /** How many peers were heard. */
  function Heard<T>(run: FRun<T>): nat {
    |run.strategy| + |run.book.errors|
  }

  lemma HeardStep<R(!new), T(!new)>(
      peers: set<PeerId>, schedule: Schedule<R, T>, run: FRun<T>, c: Completion<R>)
    requires peers != {} && run.status.Running? && Sound(peers, schedule, run)
    requires c.peer in run.book.outstanding && c in schedule.events
    ensures var next := Step(FilterMap(schedule.filter, Threshold(|peers|)), OneHonest(|peers|), run, c);
      next.status.Running? ==> Heard(next) == Heard(run) + 1
  {
    if Passes(schedule, c) {
      Accept(peers, run.strategy, run.book, c.peer, schedule.filter(c.peer, c.result.value).value);
    } else {
      var e := if c.result.Ok? then schedule.filter(c.peer, c.result.value).error else c.result.error;
      Reject(peers, run.strategy, run.book, c.peer, e);
    }
  }

  lemma HeardBelow<T>(peers: set<PeerId>, run: FRun<T>)
    requires Balanced(peers, run.strategy, run.book)
    ensures Heard(run) <= |peers|
    ensures run.book.outstanding != {} ==> Heard(run) < |peers|
  {
    var heard := run.strategy.Keys + run.book.errors.Keys;
    assert |heard| == Heard(run);
    SubsetSize(heard, peers);
  }

  lemma {:induction false} HeardExec<R(!new), T(!new)>(
    peers: set<PeerId>, schedule: Schedule<R, T>, run: FRun<T>, events: seq<Completion<R>>)
    requires peers != {} && run.status.Running? && Sound(peers, schedule, run)
    requires forall c <- events :: c in schedule.events
    requires Feasible(FilterMap(schedule.filter, Threshold(|peers|)), OneHonest(|peers|), run, events)
    ensures Heard(run) + |events| <= |peers|
    ensures var last := Exec(FilterMap(schedule.filter, Threshold(|peers|)), OneHonest(|peers|), run, events);
      last.status.Running? ==> Heard(last) == Heard(run) + |events|
    decreases |events|
  {
    HeardBelow(peers, run);
    if events != [] {
      FilterStep(peers, schedule, run, events[0]);
      HeardStep(peers, schedule, run, events[0]);
      var next := Step(FilterMap(schedule.filter, Threshold(|peers|)), OneHonest(|peers|), run, events[0]);
      if next.status.Running? {
        HeardExec(peers, schedule, next, events[1..]);
      } else {
        assert events[1..] == [];
      }
    }
  }

  /** The peers whose answer passes the filter. */
  function Passing<R, T>(ans: map<PeerId, Result<R>>, filter: (PeerId, R) -> Result<T>): set<PeerId> {
    set p | p in ans && ans[p].Ok? && filter(p, ans[p].value).Ok?
  }

  /** What was stored or recorded, against what the peers have. */
  lemma SplitsByFilter<R(!new), T(!new)>(
      ans: map<PeerId, Result<R>>, schedule: Schedule<R, T>, m: Filtered<T>, errors: map<PeerId, ServerError>)
    requires Delivers(ans, schedule.events) && Accepted(schedule, m) && Blamed(schedule, errors)
    ensures m.Keys <= Passing(ans, schedule.filter)
    ensures forall p <- m.Keys :: ans[p].Ok? && schedule.filter(p, ans[p].value) == Ok(m[p])
    ensures errors.Keys <= ans.Keys - Passing(ans, schedule.filter)
  {
    forall p <- m.Keys ensures p in ans && ans[p].Ok? && schedule.filter(p, ans[p].value) == Ok(m[p]) {
      assert Sent(schedule, p, m[p]);
    }
    forall p <- errors.Keys ensures p in ans.Keys - Passing(ans, schedule.filter) {
      assert Turned(schedule, p, errors[p]);
    }
  }

  /**
   * On every schedule that delivers what each peer has, the call hears each peer
   * at most once, so it returns at the latest when all are heard, and until then
   * a request is in flight. It returns the filtered answers of a threshold of
   * peers exactly when at least a threshold pass, and peer errors exactly when
   * fewer do.
   */
  lemma CallSettles<R(!new), T(!new)>(ans: map<PeerId, Result<R>>, schedule: Schedule<R, T>)
    requires ans.Keys != {} && Delivers(ans, schedule.events) && Possible(ans.Keys, schedule)
    ensures var last, t := Finish(ans.Keys, schedule), Threshold(|ans.Keys|);
      && |schedule.events| <= |ans|
      && (last.status.Running? ==> |schedule.events| < |ans| && last.book.outstanding != {})
      && (!last.status.Running? ==>
            && (last.status.Done? <==> |Passing(ans, schedule.filter)| >= t)
            && (last.status.Failed? <==> |Passing(ans, schedule.filter)| < t))
      && (last.status.Done? ==>
            && |last.status.value| == t && last.status.value.Keys <= Passing(ans, schedule.filter)
            && forall p <- last.status.value.Keys ::
                 p in ans && ans[p].Ok? && schedule.filter(p, ans[p].value) == Ok(last.status.value[p]))
  {
    var peers, last := ans.Keys, Finish(ans.Keys, schedule);
    EveryRunIsSound(peers, schedule);
    assert peers - {} - {} == peers;
    HeardExec(peers, schedule, Begin<T>(peers), schedule.events);
    var passing := Passing(ans, schedule.filter);
    match last.status {
      case Running => HeardBelow(peers, last);
      case Done(m) =>
        SplitsByFilter(ans, schedule, m, map[]);
        SubsetSize(m.Keys, passing);
      case Failed(errors) =>
        SplitsByFilter(ans, schedule, map[], errors);
        DisjointSize(errors.Keys, passing, peers);
      case Crashed =>
    }
  }
}
