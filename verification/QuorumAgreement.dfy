/** What a returned value says about the honest peers, across runs and strategies. */
module QuorumAgreement {
  import opened Options
  import opened Federation
  import opened QueryStrategies
  import opened QueryDriver
  import opened ConsensusRuns
  import AgreementRuns

  /** A call to the federation: a strategy and the completions it saw. */
  datatype Call<R> = ByConsensus(events: seq<Completion<R>>) | ByAgreement(events: seq<Completion<R>>)

  predicate PossibleCall<R(==)>(peers: set<PeerId>, call: Call<R>)
    requires peers != {}
  {
    match call
    case ByConsensus(events) => Possible(peers, events)
    case ByAgreement(events) =>
      Feasible(Agreement(|peers|), OneHonest(|peers|), AgreementRuns.Begin(peers), events)
  }

  /** The value the call returned as agreed, if it did. */
  function AgreedValue<R(==)>(peers: set<PeerId>, call: Call<R>): Option<R>
    requires peers != {}
  {
    match call
    case ByConsensus(events) =>
      var status := Finish(peers, events).status;
      if status.Done? then Some(status.value) else None
    case ByAgreement(events) =>
      var status := Exec(Agreement(|peers|), OneHonest(|peers|), AgreementRuns.Begin(peers), events).status;
      if status.Done? && status.value.Agreed? then Some(status.value.value) else None
  }

  /** A bound on the faulty peers, and one fixed answer for each honest one. */
  predicate Federated<R>(peers: set<PeerId>, honest: set<PeerId>, truth: map<PeerId, R>) {
    peers != {} && honest <= peers && truth.Keys == honest && |peers - honest| <= MaxEvil(|peers|)
  }

  /** Stored answers come from peers, and from honest ones they are the fixed answers. */
  predicate Genuine<R(==)>(peers: set<PeerId>, honest: set<PeerId>, truth: map<PeerId, R>, responses: map<PeerId, R>)
    requires honest <= truth.Keys
  {
    responses.Keys <= peers && HonestAnswers(honest, truth, responses)
  }

  /** A value with a threshold of genuine answers is backed by more honest peers than can be faulty. */
  lemma HonestBacking<R>(
      peers: set<PeerId>, honest: set<PeerId>, truth: map<PeerId, R>, responses: map<PeerId, R>, v: R)
    requires Federated(peers, honest, truth) && Genuine(peers, honest, truth, responses)
    requires |Holders(responses, v)| >= Threshold(|peers|)
    ensures |Holders(truth, v)| >= Threshold(|peers|) - |peers - honest|
    ensures |Holders(truth, v)| > MaxEvil(|peers|)
  {
    var supporters := Holders(responses, v);
    assert supporters == (supporters * honest) + (supporters - honest);
    SubsetSize(supporters - honest, peers - honest);
    SubsetSize(supporters * honest, Holders(truth, v));
  }

  ghost predicate GenuineRun<R(!new)>(
      peers: set<PeerId>, honest: set<PeerId>, truth: map<PeerId, R>, run: AgreementRuns.ARun<R>)
    requires peers != {} && honest <= truth.Keys
  {
    && run.book.outstanding <= peers
    && Genuine(peers, honest, truth, run.strategy.responses)
    && (run.status.Done? && run.status.value.Agreed? ==>
          |Holders(run.strategy.responses, run.status.value.value)| == Threshold(|peers|))
  }

  lemma GenuineStep<R(!new)>(
    peers: set<PeerId>, honest: set<PeerId>, truth: map<PeerId, R>, run: AgreementRuns.ARun<R>, c: Completion<R>)
    requires peers != {} && honest <= truth.Keys && GenuineRun(peers, honest, truth, run)
    requires c.peer in honest && c.result.Ok? ==> c.result.value == truth[c.peer]
    requires c.peer in run.book.outstanding
    ensures GenuineRun(peers, honest, truth, Step(Agreement(|peers|), OneHonest(|peers|), run, c))
  {
    var next := Step(Agreement(|peers|), OneHonest(|peers|), run, c);
    assert next.book.outstanding == run.book.outstanding - {c.peer};
    if c.result.Ok? {
      var responses := run.strategy.responses[c.peer := c.result.value];
      assert Genuine(peers, honest, truth, responses);
      assert next.strategy.responses == responses || next.strategy.responses == map[];
    }
  }

  lemma {:induction false} GenuineAgreement<R(!new)>(
    peers: set<PeerId>, honest: set<PeerId>, truth: map<PeerId, R>,
    run: AgreementRuns.ARun<R>, events: seq<Completion<R>>)
    requires peers != {} && honest <= truth.Keys && GenuineRun(peers, honest, truth, run)
    requires HonestEvents(honest, truth, events)
    requires Feasible(Agreement(|peers|), OneHonest(|peers|), run, events)
    ensures GenuineRun(peers, honest, truth, Exec(Agreement(|peers|), OneHonest(|peers|), run, events))
    decreases |events|
  {
    if events != [] {
      assert events[0] in events;
      GenuineStep(peers, honest, truth, run, events[0]);
      assert forall d <- events[1..] :: d in events;
      GenuineAgreement(peers, honest, truth, Step(Agreement(|peers|), OneHonest(|peers|), run, events[0]), events[1..]);
    }
  }

  /** Whatever strategy returned it, an agreed value has more honest backers than there can be faulty peers. */
  lemma AgreedIsBacked<R(!new)>(peers: set<PeerId>, honest: set<PeerId>, truth: map<PeerId, R>, call: Call<R>)
    requires Federated(peers, honest, truth) && HonestEvents(honest, truth, call.events)
    requires PossibleCall(peers, call) && AgreedValue(peers, call).Some?
    ensures var v := AgreedValue(peers, call).value;
      && |Holders(truth, v)| >= Threshold(|peers|) - |peers - honest|
      && |Holders(truth, v)| > MaxEvil(|peers|)
  {
    var v := AgreedValue(peers, call).value;
    match call
    case ByConsensus(events) =>
      EveryRunIsSound(peers, events);
      HonestExec(peers, honest, truth, ConsensusRuns.Begin<R>(peers), events);
      HonestBacking(peers, honest, truth, Finish(peers, events).strategy.responses, v);
    case ByAgreement(events) =>
      GenuineAgreement(peers, honest, truth, AgreementRuns.Begin<R>(peers), events);
      HonestBacking(peers, honest, truth,
        Exec(Agreement(|peers|), OneHonest(|peers|), AgreementRuns.Begin(peers), events).strategy.responses, v);
  }

  /** No two calls, of either kind, return different agreed values. */
  lemma CallsAgree<R(!new)>(peers: set<PeerId>, honest: set<PeerId>, truth: map<PeerId, R>, one: Call<R>, two: Call<R>)
    requires Federated(peers, honest, truth)
    requires HonestEvents(honest, truth, one.events) && HonestEvents(honest, truth, two.events)
    requires PossibleCall(peers, one) && PossibleCall(peers, two)
    requires AgreedValue(peers, one).Some? && AgreedValue(peers, two).Some?
    ensures AgreedValue(peers, one) == AgreedValue(peers, two)
  {
    AgreedIsBacked(peers, honest, truth, one);
    AgreedIsBacked(peers, honest, truth, two);
    var v, w := AgreedValue(peers, one).value, AgreedValue(peers, two).value;
    assert peers == honest + (peers - honest);
    if v != w {
      DisjointSize(Holders(truth, v), Holders(truth, w), honest);
    }
  }
}
