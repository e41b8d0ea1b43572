/** The federation query strategies: objects that consume one answer or error at a time. */
module QueryStrategies {
  import opened Options
  import opened Federation

  datatype ServerError = ServerError(code: nat)

  datatype Result<+R> = Ok(value: R) | Err(error: ServerError)

  /** What the driver is told to do next. */
  datatype QueryStep<+V> =
    | Retry(peers: set<PeerId>)
    | Continue
    | Success(value: V)
    | Failure(error: ServerError)

  /** A strategy either returns a step or trips its own assertion. */
  datatype Outcome<+V> = Returned(step: QueryStep<V>) | Panicked

  /** `Ok` of an agreed value, or `Err` of every answer that came in. */
  datatype Verdict<R> = Agreed(value: R) | Diverged(responses: map<PeerId, R>)

  /**
   * A strategy object as a value: its two callbacks over a state of type S,
   * answers of type R and a final value of type V.
   */
  datatype QueryStrategy<!S, !R, !V> = QueryStrategy(
    process: (S, PeerId, R) -> (S, Outcome<V>),
    processError: (S, PeerId) -> (S, QueryStep<V>)
  )

  // ----- ThresholdConsensus

  datatype ConsensusState<R> = ConsensusState(responses: map<PeerId, R>, retry: set<PeerId>)

  function ConsensusProcess<R(==)>(s: ConsensusState<R>, threshold: nat, peer: PeerId, response: R)
    : (ConsensusState<R>, Outcome<R>)
  {
    var responses := s.responses[peer := response];
    if |Holders(responses, response)| == threshold then
      (s.(responses := responses), Returned(Success(response)))
    else if peer in s.retry then
      (s.(responses := responses), Panicked)
    else
      var retry := s.retry + {peer};
      if |retry| == threshold then
        (ConsensusState(responses, {}), Returned(Retry(retry)))
      else
        (ConsensusState(responses, retry), Returned(Continue))
  }

  function Consensus<R(==)>(threshold: nat): QueryStrategy<ConsensusState<R>, R, R> {
    QueryStrategy(
      (s: ConsensusState<R>, p: PeerId, r: R) => ConsensusProcess(s, threshold, p, r),
      (s: ConsensusState<R>, p: PeerId) => (s, Continue))
  }

  class ThresholdConsensus<R(==)> {
    var responses: map<PeerId, R>
    var retry: set<PeerId>
    const threshold: nat

    function State(): ConsensusState<R>
      reads this
    {
      ConsensusState(responses, retry)
    }

    constructor (numPeers: nat)
      requires 0 < numPeers
      ensures threshold == Threshold(numPeers)
      ensures State() == ConsensusState(map[], {})
    {
      responses, retry, threshold := map[], {}, Threshold(numPeers);
    }

    method Process(peer: PeerId, response: R) returns (out: Outcome<R>)
      modifies this`responses, this`retry
      ensures (State(), out) == ConsensusProcess(old(State()), threshold, peer, response)
      ensures responses == old(responses)[peer := response]
      ensures var heard := old(retry) + {peer};
        if |Holders(responses, response)| == threshold then out == Returned(Success(response)) && retry == old(retry)
        else if peer in old(retry) then out == Panicked && retry == old(retry)
        else if |heard| == threshold then out == Returned(Retry(heard)) && retry == {}
        else out == Returned(Continue) && retry == heard
    {
      responses := responses[peer := response];
      if |Holders(responses, response)| == threshold {
        return Returned(Success(response));
      }
      if peer in retry {
        return Panicked;
      }
      retry := retry + {peer};
      if |retry| == threshold {
        out := Returned(Retry(retry));
        retry := {};
      } else {
        out := Returned(Continue);
      }
    }
  }

  // ----- ThresholdAgreement

  datatype AgreementState<R> = AgreementState(responses: map<PeerId, R>, errors: nat)

  /** Everyone has answered or failed, and at least a threshold answered. */
  predicate Complete<R>(s: AgreementState<R>, total: nat)
    requires 0 < total
  {
    |s.responses| + s.errors >= total && |s.responses| >= Threshold(total)
  }

  function AgreementProcess<R(==)>(s: AgreementState<R>, total: nat, peer: PeerId, response: R)
    : (AgreementState<R>, Outcome<Verdict<R>>)
    requires 0 < total
  {
    var s' := s.(responses := s.responses[peer := response]);
    if |Holders(s'.responses, response)| == Threshold(total) then
      (s', Returned(Success(Agreed(response))))
    else if Complete(s', total) then
      (s'.(responses := map[]), Returned(Success(Diverged(s'.responses))))
    else
      (s', Returned(Continue))
  }

  function AgreementProcessError<R(==)>(s: AgreementState<R>, total: nat)
    : (AgreementState<R>, QueryStep<Verdict<R>>)
    requires 0 < total
  {
    var s' := s.(errors := s.errors + 1);
    if Complete(s', total) then
      (s'.(responses := map[]), Success(Diverged(s'.responses)))
    else
      (s', Continue)
  }

  function Agreement<R(==)>(total: nat): QueryStrategy<AgreementState<R>, R, Verdict<R>>
    requires 0 < total
  {
    QueryStrategy(
      (s: AgreementState<R>, p: PeerId, r: R) => AgreementProcess(s, total, p, r),
      (s: AgreementState<R>, p: PeerId) => AgreementProcessError(s, total))
  }

  class ThresholdAgreement<R(==)> {
    var responses: map<PeerId, R>
    var errors: nat
    const threshold: nat
    const total: nat

    ghost predicate Valid()
      reads this
    {
      0 < total && threshold == Threshold(total)
    }

    function State(): AgreementState<R>
      reads this
    {
      AgreementState(responses, errors)
    }

    constructor (numPeers: nat)
      requires 0 < numPeers
      ensures Valid() && total == numPeers
      ensures State() == AgreementState(map[], 0)
    {
      responses, errors := map[], 0;
      threshold, total := Threshold(numPeers), numPeers;
    }

    /** Every peer is heard from without any value reaching a threshold. */
    method DivergedAnswers() returns (d: Option<QueryStep<Verdict<R>>>)
      requires Valid()
      modifies this`responses
      ensures Valid()
      ensures d == if Complete(old(State()), total) then Some(Success(Diverged(old(responses)))) else None
      ensures d.Some? <==> |old(responses)| + errors >= total && |old(responses)| >= threshold
      ensures responses == if d.Some? then map[] else old(responses)
    {
      if |responses| + errors < total {
        return None;
      }
      if |responses| < threshold {
        return None;
      }
      d := Some(Success(Diverged(responses)));
      responses := map[];
    }

    method Process(peer: PeerId, response: R) returns (step: QueryStep<Verdict<R>>)
      requires Valid()
      modifies this`responses
      ensures Valid()
      ensures (State(), Returned(step)) == AgreementProcess(old(State()), total, peer, response)
      ensures var answers := old(responses)[peer := response];
        if |Holders(answers, response)| == threshold then step == Success(Agreed(response)) && responses == answers
        else if |answers| + errors >= total && |answers| >= threshold
        then step == Success(Diverged(answers)) && responses == map[]
        else step == Continue && responses == answers
    {
      responses := responses[peer := response];
      if |Holders(responses, response)| == threshold {
        return Success(Agreed(response));
      }
      var d := DivergedAnswers();
      step := if d.Some? then d.value else Continue;
    }

    method ProcessError(peer: PeerId) returns (step: QueryStep<Verdict<R>>)
      requires Valid()
      modifies this`responses, this`errors
      ensures Valid()
      ensures (State(), step) == AgreementProcessError(old(State()), total)
      ensures errors == old(errors) + 1
      ensures if |old(responses)| + errors >= total && |old(responses)| >= threshold
        then step == Success(Diverged(old(responses))) && responses == map[]
        else step == Continue && responses == old(responses)
    {
      errors := errors + 1;
      var d := DivergedAnswers();
      step := if d.Some? then d.value else Continue;
    }
  }

  // ----- FilterMapThreshold

  type Filtered<T> = map<PeerId, T>

  function FilterProcess<R, T>(
      s: Filtered<T>, filter: (PeerId, R) -> Result<T>, threshold: nat, peer: PeerId, response: R)
    : (Filtered<T>, Outcome<Filtered<T>>)
  {
    match filter(peer, response)
    case Err(e) => (s, Returned(Failure(e)))
    case Ok(value) =>
      var s' := s[peer := value];
      if |s'| == threshold then
        (map[], Returned(Success(s')))
      else
        (s', Returned(Continue))
  }

  function FilterMap<R, T>(
      filter: (PeerId, R) -> Result<T>, threshold: nat): QueryStrategy<Filtered<T>, R, Filtered<T>> {
    QueryStrategy(
      (s: Filtered<T>, p: PeerId, r: R) => FilterProcess(s, filter, threshold, p, r),
      (s: Filtered<T>, p: PeerId) => (s, Continue))
  }

  class FilterMapThreshold<R, T> {
    const filter: (PeerId, R) -> Result<T>
    var filteredResponses: Filtered<T>
    const threshold: nat

    constructor (verifier: (PeerId, R) -> Result<T>, numPeers: nat)
      requires 0 < numPeers
      ensures filter == verifier && threshold == Threshold(numPeers)
      ensures filteredResponses == map[]
    {
      filter, filteredResponses, threshold := verifier, map[], Threshold(numPeers);
    }

    method Process(peer: PeerId, response: R) returns (out: Outcome<Filtered<T>>)
      modifies this`filteredResponses
      ensures (filteredResponses, out) == FilterProcess(old(filteredResponses), filter, threshold, peer, response)
      ensures match filter(peer, response)
        case Err(e) => out == Returned(Failure(e)) && filteredResponses == old(filteredResponses)
        case Ok(value) =>
          var accepted := old(filteredResponses)[peer := value];
          if |accepted| == threshold then out == Returned(Success(accepted)) && filteredResponses == map[]
          else out == Returned(Continue) && filteredResponses == accepted
    {
      match filter(peer, response)
      case Ok(value) =>
        filteredResponses := filteredResponses[peer := value];
        if |filteredResponses| == threshold {
          out := Returned(Success(filteredResponses));
          filteredResponses := map[];
        } else {
          out := Returned(Continue);
        }
      case Err(e) =>
        out := Returned(Failure(e));
    }
  }
}
