/** Every run of the driver with `ThresholdConsensus`, over any number of retry rounds. */
module ConsensusRuns {
  import opened Federation
  import opened QueryStrategies
  import opened QueryDriver

  type CRun<R> = Run<ConsensusState<R>, R>

  function Begin<R(==)>(peers: set<PeerId>): CRun<R> {
    Start(peers, ConsensusState(map[], {}))
  }

  function Finish<R(==)>(peers: set<PeerId>, events: seq<Completion<R>>): CRun<R>
    requires peers != {}
  {
    Exec(Consensus(Threshold(|peers|)), OneHonest(|peers|), Begin(peers), events)
  }

  predicate Possible<R(==)>(peers: set<PeerId>, events: seq<Completion<R>>)
    requires peers != {}
  {
    Feasible(Consensus(Threshold(|peers|)), OneHonest(|peers|), Begin(peers), events)
  }

  /** No value has a threshold of latest answers. */
  ghost predicate BelowThreshold<R(!new)>(responses: map<PeerId, R>, t: nat) {
    forall v :: |Holders(responses, v)| < t
  }

  /** While the loop runs: in flight, waiting for a retry and failed partition the peers. */
  ghost predicate Live<R(!new)>(peers: set<PeerId>, s: ConsensusState<R>, b: Book)
    requires peers != {}
  {
    && s.retry <= peers && b.errors.Keys <= peers && s.responses.Keys <= peers
    && s.retry !! b.errors.Keys
    && b.outstanding == peers - s.retry - b.errors.Keys && !b.doubled
    && |s.retry| < Threshold(|peers|)
    && |b.errors| < OneHonest(|peers|)
    && BelowThreshold(s.responses, Threshold(|peers|))
  }

  ghost predicate Sound<R(!new)>(peers: set<PeerId>, run: CRun<R>)
    requires peers != {}
  {
    match run.status
    case Running => Live(peers, run.strategy, run.book)
    case Done(v) =>
      && run.strategy.responses.Keys <= peers
      && |Holders(run.strategy.responses, v)| == Threshold(|peers|)
    case Failed(errors) => errors.Keys <= peers && |errors| == OneHonest(|peers|)
    case Crashed => false
  }

  lemma StoreAnswer<R(!new)>(responses: map<PeerId, R>, t: nat, p: PeerId, r: R)
    requires BelowThreshold(responses, t)
    ensures var after := responses[p := r];
      && |Holders(after, r)| <= t
      && (|Holders(after, r)| != t ==> BelowThreshold(after, t))
  {
    var after := responses[p := r];
    HoldersAfterInsert(responses, p, r, r);
    if |Holders(after, r)| != t {
      forall v ensures |Holders(after, v)| < t {
        HoldersAfterInsert(responses, p, r, v);
      }
    }
  }

  /** An answering peer leaves the ones in flight; a full retry set rejoins them. */
  lemma AnswerWaits(peers: set<PeerId>, retry: set<PeerId>, failed: set<PeerId>, outstanding: set<PeerId>, p: PeerId)
    requires retry <= peers && failed <= peers && retry !! failed
    requires outstanding == peers - retry - failed && p in outstanding
    ensures p !in retry && |retry + {p}| == |retry| + 1
    ensures retry + {p} <= peers && retry + {p} !! failed
    ensures outstanding - {p} == peers - (retry + {p}) - failed
    ensures (outstanding - {p}) * (retry + {p}) == {}
    ensures outstanding - {p} + (retry + {p}) == peers - {} - failed
  {
  }

  /** The three ways a response can be taken, away from any sizes. */
  lemma ResponseShape<R(!new)>(t: nat, limit: nat, run: CRun<R>, p: PeerId, r: R)
    requires run.status.Running? && p !in run.strategy.retry
    requires |run.book.errors| < limit
    requires (run.book.outstanding - {p}) * (run.strategy.retry + {p}) == {}
    ensures var responses, again := run.strategy.responses[p := r], run.strategy.retry + {p};
      var out := run.book.outstanding - {p};
      Step(Consensus(t), limit, run, Completion(p, Ok(r))) ==
        if |Holders(responses, r)| == t then
          Run(ConsensusState(responses, run.strategy.retry), run.book.(outstanding := out), Done(r))
        else if |again| == t then
          Run(ConsensusState(responses, {}), run.book.(outstanding := out + again), Running)
        else
          Run(ConsensusState(responses, again), run.book.(outstanding := out), Running)
  {
  }

  lemma ResponseStep<R(!new)>(peers: set<PeerId>, run: CRun<R>, p: PeerId, r: R)
    requires peers != {} && run.status.Running? && Sound(peers, run)
    requires p in run.book.outstanding
    ensures Sound(peers, Step(Consensus(Threshold(|peers|)), OneHonest(|peers|), run, Completion(p, Ok(r))))
  {
    var s, b := run.strategy, run.book;
    StoreAnswer(s.responses, Threshold(|peers|), p, r);
    AnswerWaits(peers, s.retry, b.errors.Keys, b.outstanding, p);
    ResponseShape(Threshold(|peers|), OneHonest(|peers|), run, p, r);
  }

  lemma ErrorStep<R(!new)>(peers: set<PeerId>, run: CRun<R>, p: PeerId, e: ServerError)
    requires peers != {} && run.status.Running? && Sound(peers, run)
    requires p in run.book.outstanding
    ensures Sound(peers, Step(Consensus(Threshold(|peers|)), OneHonest(|peers|), run, Completion(p, Err(e))))
  {
    InsertKeySize(run.book.errors, p, e);
  }

  lemma {:induction false} SoundExec<R(!new)>(peers: set<PeerId>, run: CRun<R>, events: seq<Completion<R>>)
    requires peers != {} && Sound(peers, run)
    requires Feasible(Consensus(Threshold(|peers|)), OneHonest(|peers|), run, events)
    ensures Sound(peers, Exec(Consensus(Threshold(|peers|)), OneHonest(|peers|), run, events))
    decreases |events|
  {
    if events != [] {
      match events[0].result {
        case Ok(r) => ResponseStep(peers, run, events[0].peer, r);
        case Err(e) => ErrorStep(peers, run, events[0].peer, e);
      }
      SoundExec(peers, Step(Consensus(Threshold(|peers|)), OneHonest(|peers|), run, events[0]), events[1..]);
    }
  }

  lemma SoundBegin<R(!new)>(peers: set<PeerId>)
    requires peers != {}
    ensures Sound(peers, Begin<R>(peers))
  {
    var m: map<PeerId, R> := map[];
    forall v ensures |Holders(m, v)| < Threshold(|peers|) {
      assert Holders(m, v) == {};
    }
    assert peers - {} - {} == peers;
  }

  /**
   * In every run: the assertion on the retry set never fires; while the loop
   * runs the peers are partitioned into in flight (once each), waiting for a
   * retry, and failed; and no value already has a threshold, so the exact
   * `count == threshold` test never misses a `count >= threshold`.
   */
  lemma EveryRunIsSound<R(!new)>(peers: set<PeerId>, events: seq<Completion<R>>)
    requires peers != {} && Possible(peers, events)
    ensures Sound(peers, Finish(peers, events))
    ensures !Finish(peers, events).status.Crashed?
  {
    SoundBegin<R>(peers);
    SoundExec(peers, Begin<R>(peers), events);
  }

  lemma RetryIsHeard<R(!new)>(s: ConsensusState<R>, t: nat, p: PeerId, r: R, again: set<PeerId>)
    requires ConsensusProcess(s, t, p, r).1 == Returned(Retry(again))
    ensures again == s.retry + {p}
  {
  }

  lemma HeardAreIdle(
      peers: set<PeerId>, retry: set<PeerId>, failed: set<PeerId>, outstanding: set<PeerId>, p: PeerId)
    requires retry <= peers && failed <= peers && retry !! failed
    requires outstanding == peers - retry - failed && p in outstanding
    ensures retry + {p} !! outstanding - {p} && retry + {p} !! failed
    ensures retry + {p} + (outstanding - {p}) + failed == peers
  {
  }

  lemma RetryOf<R(!new)>(peers: set<PeerId>, s: ConsensusState<R>, b: Book, p: PeerId, r: R, again: set<PeerId>)
    requires peers != {} && Live(peers, s, b) && p in b.outstanding
    requires ConsensusProcess(s, Threshold(|peers|), p, r).1 == Returned(Retry(again))
    ensures again !! b.outstanding - {p} && again !! b.errors.Keys
    ensures again + (b.outstanding - {p}) + b.errors.Keys == peers
  {
    RetryIsHeard(s, Threshold(|peers|), p, r, again);
    HeardAreIdle(peers, s.retry, b.errors.Keys, b.outstanding, p);
  }

  /** A retry never asks a peer whose request is still in flight, nor one that failed. */
  lemma RetryAsksTheIdle<R(!new)>(
      peers: set<PeerId>, events: seq<Completion<R>>, p: PeerId, r: R, again: set<PeerId>)
    requires peers != {} && Possible(peers, events) && Finish(peers, events).status.Running?
    requires p in Finish(peers, events).book.outstanding
    requires ConsensusProcess(Finish(peers, events).strategy, Threshold(|peers|), p, r).1 == Returned(Retry(again))
    ensures var book := Finish(peers, events).book;
      && again !! book.outstanding - {p} && again !! book.errors.Keys
      && again + (book.outstanding - {p}) + book.errors.Keys == peers
  {
    EveryRunIsSound(peers, events);
    var run := Finish(peers, events);
    RetryOf(peers, run.strategy, run.book, p, r, again);
  }

  /** The loop never runs out of requests to wait for. */
  lemma NeverRunsOut<R(!new)>(peers: set<PeerId>, events: seq<Completion<R>>)
    requires peers != {} && Possible(peers, events)
    requires Finish(peers, events).status.Running?
    ensures exists p :: p in Finish(peers, events).book.outstanding
  {
    EveryRunIsSound(peers, events);
    var run := Finish(peers, events);
    var waiting := run.strategy.retry + run.book.errors.Keys;
    assert |waiting| == |run.strategy.retry| + |run.book.errors|;
    assert |waiting| < |peers|;
    var idle := peers - waiting;
    assert idle == {} ==> peers <= waiting;
    if idle == {} {
      SubsetSize(peers, waiting);
      assert false;
    }
    var p :| p in idle;
    assert p in run.book.outstanding;
  }

  /** Answers of honest peers are the fixed ones in `truth`. */
  predicate HonestEvents<R(==)>(honest: set<PeerId>, truth: map<PeerId, R>, events: seq<Completion<R>>)
    requires honest <= truth.Keys
  {
    forall c <- events :: c.peer in honest && c.result.Ok? ==> c.result.value == truth[c.peer]
  }

  predicate HonestAnswers<R(==)>(honest: set<PeerId>, truth: map<PeerId, R>, responses: map<PeerId, R>)
    requires honest <= truth.Keys
  {
    forall p <- responses.Keys :: p in honest ==> responses[p] == truth[p]
  }

  lemma {:induction false} HonestExec<R(!new)>(
      peers: set<PeerId>, honest: set<PeerId>, truth: map<PeerId, R>, run: CRun<R>, events: seq<Completion<R>>)
    requires peers != {} && honest <= truth.Keys
    requires HonestEvents(honest, truth, events)
    requires HonestAnswers(honest, truth, run.strategy.responses)
    ensures var last := Exec(Consensus(Threshold(|peers|)), OneHonest(|peers|), run, events);
      HonestAnswers(honest, truth, last.strategy.responses)
    decreases |events|
  {
    if events != [] {
      var c := events[0];
      var next := Step(Consensus(Threshold(|peers|)), OneHonest(|peers|), run, c);
      assert c in events;
      var before := run.strategy.responses;
      assert next.strategy.responses == if c.result.Ok? then before[c.peer := c.result.value] else before;
      assert forall d <- events[1..] :: d in events;
      HonestExec(peers, honest, truth, next, events[1..]);
    }
  }

  // ----- progress when the honest peers agree

  /** Every completion of an honest peer is the answer `v`. */
  predicate AllSay<R(==)>(honest: set<PeerId>, v: R, events: seq<Completion<R>>) {
    forall c <- events :: c.peer in honest ==> c.result == Ok(v)
  }

  /** What the loop has stored of honest peers is `v`, and it blames none of them. */
  predicate Agreeing<R(==)>(honest: set<PeerId>, v: R, run: CRun<R>) {
    && (forall p <- run.strategy.responses.Keys :: p in honest ==> run.strategy.responses[p] == v)
    && run.book.errors.Keys !! honest
    && (run.status.Failed? ==> run.status.errors.Keys !! honest)
  }

  lemma AgreeingStep<R(!new)>(t: nat, limit: nat, honest: set<PeerId>, v: R, run: CRun<R>, c: Completion<R>)
    requires Agreeing(honest, v, run) && (c.peer in honest ==> c.result == Ok(v))
    ensures var next := Step(Consensus(t), limit, run, c);
      && Agreeing(honest, v, next)
      && run.strategy.responses.Keys <= next.strategy.responses.Keys
      && (c.result.Ok? ==> c.peer in next.strategy.responses)
  {
  }

  lemma {:induction false} AgreeingExec<R(!new)>(
      t: nat, limit: nat, honest: set<PeerId>, v: R, run: CRun<R>, events: seq<Completion<R>>)
    requires Agreeing(honest, v, run) && AllSay(honest, v, events)
    ensures var last := Exec(Consensus(t), limit, run, events);
      && Agreeing(honest, v, last)
      && run.strategy.responses.Keys <= last.strategy.responses.Keys
      && forall c <- events :: c.result.Ok? ==> c.peer in last.strategy.responses
    decreases |events|
  {
    if events != [] {
      assert events[0] in events && forall c <- events[1..] :: c in events;
      AgreeingStep(t, limit, honest, v, run, events[0]);
      AgreeingExec(t, limit, honest, v, Step(Consensus(t), limit, run, events[0]), events[1..]);
      assert forall c <- events :: c == events[0] || c in events[1..];
    }
  }

  /** The peers of a group that a run has heard from. */
  function HeardOf<R(==)>(group: set<PeerId>, events: seq<Completion<R>>): set<PeerId> {
    set c | c in events && c.peer in group :: c.peer
  }

  /**
   * Progress: when the honest peers that have answered, all with `v`, are a
   * threshold, in whatever order and however often the others answered or
   * failed, the call has returned `v`.
   */
  lemma AgreementReturns<R(!new)>(peers: set<PeerId>, honest: set<PeerId>, v: R, events: seq<Completion<R>>)
    requires peers != {} && honest <= peers
    requires Possible(peers, events) && AllSay(honest, v, events)
    requires |HeardOf(honest, events)| >= Threshold(|peers|)
    ensures Finish(peers, events).status == Done(v)
  {
    EveryRunIsSound(peers, events);
    AgreeingExec(Threshold(|peers|), OneHonest(|peers|), honest, v, Begin<R>(peers), events);
    var last := Finish(peers, events);
    var responses, heard := last.strategy.responses, HeardOf(honest, events);
    forall p <- heard ensures p in Holders(responses, v) {
      var c :| c in events && c.peer in honest && c.peer == p;
    }
    SubsetSize(heard, Holders(responses, v));
    match last.status {
      case Failed(errors) => DisjointSize(heard, errors.Keys, peers);
      case Done(w) =>
        if w != v {
          DisjointSize(heard, Holders(responses, w), peers);
        }
      case _ =>
    }
  }
}
