/** `ThresholdAgreement` under every arrival order of one answer or error per peer. */
module AgreementRuns {
  import opened Options
  import opened Federation
  import opened QueryStrategies
  import opened QueryDriver
  import opened ConsensusRuns

  type ARun<R> = Run<AgreementState<R>, Verdict<R>>

  /** The answers among what the peers of `heard` sent. */
  function Answers<R>(ans: map<PeerId, Result<R>>, heard: set<PeerId>): map<PeerId, R> {
    map p | p in ans && p in heard && ans[p].Ok? :: ans[p].value
  }

  function Errors<R>(ans: map<PeerId, Result<R>>, heard: set<PeerId>): map<PeerId, ServerError> {
    map p | p in ans && p in heard && ans[p].Err? :: ans[p].error
  }

  lemma Heard<R>(ans: map<PeerId, Result<R>>, heard: set<PeerId>)
    requires heard <= ans.Keys
    ensures Answers(ans, heard).Keys !! Errors(ans, heard).Keys
    ensures Answers(ans, heard).Keys + Errors(ans, heard).Keys == heard
    ensures |Answers(ans, heard)| + |Errors(ans, heard)| == |heard|
  {
    var a, e := Answers(ans, heard).Keys, Errors(ans, heard).Keys;
    assert a + e == heard;
    assert |a + e| == |a| + |e|;
  }

  lemma HearOne<R>(ans: map<PeerId, Result<R>>, heard: set<PeerId>, p: PeerId)
    requires p in ans && p !in heard
    ensures Answers(ans, heard + {p})
         == if ans[p].Ok? then Answers(ans, heard)[p := ans[p].value] else Answers(ans, heard)
    ensures Errors(ans, heard + {p})
         == if ans[p].Err? then Errors(ans, heard)[p := ans[p].error] else Errors(ans, heard)
    ensures |Errors(ans, heard + {p})| == |Errors(ans, heard)| + if ans[p].Err? then 1 else 0
  {
    if ans[p].Err? {
      assert Answers(ans, heard + {p}) == Answers(ans, heard);
      InsertKeySize(Errors(ans, heard), p, ans[p].error);
    } else {
      assert Errors(ans, heard + {p}) == Errors(ans, heard);
    }
  }

  /** What the federation as a whole said, independent of any order. */
  ghost predicate Decided<R(!new)>(ans: map<PeerId, Result<R>>, v: Verdict<R>)
    requires |ans| > 0
  {
    var all := Answers(ans, ans.Keys);
    match v
    case Agreed(r) => |Holders(all, r)| >= Threshold(|ans|)
    case Diverged(m) => m == all && BelowThreshold(all, Threshold(|ans|)) && |all| >= Threshold(|ans|)
  }

  /** The strategy's state depends on who was heard, not on the order. */
  function Canon<R>(ans: map<PeerId, Result<R>>, heard: set<PeerId>): AgreementState<R> {
    AgreementState(Answers(ans, heard), |Errors(ans, heard)|)
  }

  ghost predicate Quiet<R(!new)>(ans: map<PeerId, Result<R>>, heard: set<PeerId>)
    requires |ans| > 0
  {
    BelowThreshold(Answers(ans, heard), Threshold(|ans|)) && !Complete(Canon(ans, heard), |ans|)
  }

  /** One callback of the strategy with what `p` sent. */
  function Offer<R(==)>(
      ans: map<PeerId, Result<R>>, s: AgreementState<R>, p: PeerId): (AgreementState<R>, QueryStep<Verdict<R>>)
    requires p in ans && |ans| > 0
  {
    match ans[p]
    case Ok(r) =>
      var (s', out) := AgreementProcess(s, |ans|, p, r);
      (s', if out.Returned? then out.step else Continue)
    case Err(_) => AgreementProcessError(s, |ans|)
  }

  lemma MoreHolders<R>(ans: map<PeerId, Result<R>>, heard: set<PeerId>, v: R)
    ensures |Holders(Answers(ans, heard), v)| <= |Holders(Answers(ans, ans.Keys), v)|
  {
    SubsetSize(Holders(Answers(ans, heard), v), Holders(Answers(ans, ans.Keys), v));
  }

  /** Hearing one more peer either decides as the whole federation does, or stays quiet. */
  lemma OfferStep<R(!new)>(ans: map<PeerId, Result<R>>, heard: set<PeerId>, p: PeerId)
    requires heard <= ans.Keys && p in ans && p !in heard && |ans| > 0
    requires Quiet(ans, heard)
    ensures var (s', step) := Offer(ans, Canon(ans, heard), p);
      || (step.Success? && Decided(ans, step.value))
      || (step == Continue && s' == Canon(ans, heard + {p}) && Quiet(ans, heard + {p}))
  {
    var t := Threshold(|ans|);
    var heard' := heard + {p};
    HearOne(ans, heard, p);
    Heard(ans, heard');
    if ans[p].Ok? {
      var r := ans[p].value;
      StoreAnswer(Answers(ans, heard), t, p, r);
      MoreHolders(ans, heard', r);
    }
    if Complete(Canon(ans, heard'), |ans|) {
      SubsetSize(heard', ans.Keys);
      assert heard' == ans.Keys;
    }
  }

  /** The strategy fed with peers in the given order, up to its first verdict. */
  function Feed<R(==)>(ans: map<PeerId, Result<R>>, s: AgreementState<R>, order: seq<PeerId>): Option<Verdict<R>>
    requires |ans| > 0 && forall p <- order :: p in ans
    decreases |order|
  {
    if order == [] then None
    else
      var (s', step) := Offer(ans, s, order[0]);
      if step.Success? then Some(step.value) else Feed(ans, s', order[1..])
  }

  /** Each peer of `rest` exactly once. */
  predicate Permutes(order: seq<PeerId>, rest: set<PeerId>) {
    && (forall i, j | 0 <= i < j < |order| :: order[i] != order[j])
    && (set p | p in order) == rest
  }

  lemma PermutesTail(order: seq<PeerId>, rest: set<PeerId>)
    requires Permutes(order, rest) && order != []
    ensures order[0] in rest && Permutes(order[1..], rest - {order[0]})
  {
    assert order[0] in order;
    forall p ensures p in order[1..] <==> p in rest - {order[0]} {
      if p in order && p != order[0] {
        var i :| 0 <= i < |order| && order[i] == p;
        assert order[1..][i - 1] == p;
      }
      if p in order[1..] {
        var i :| 0 <= i < |order[1..]| && order[1..][i] == p;
        assert order[i + 1] == p;
      }
    }
  }

  lemma {:induction false} FeedFrom<R(!new)>(ans: map<PeerId, Result<R>>, heard: set<PeerId>, order: seq<PeerId>)
    requires |ans| > 0 && heard <= ans.Keys
    requires Permutes(order, ans.Keys - heard) && (forall p <- order :: p in ans)
    requires Quiet(ans, heard)
    ensures match Feed(ans, Canon(ans, heard), order)
            case Some(v) => Decided(ans, v)
            case None => Quiet(ans, ans.Keys)
    decreases |order|
  {
    if order == [] {
      assert (set p | p in order) == {};
      assert heard == ans.Keys;
    } else {
      PermutesTail(order, ans.Keys - heard);
      var p := order[0];
      OfferStep(ans, heard, p);
      assert ans.Keys - heard - {p} == ans.Keys - (heard + {p});
      assert forall q <- order[1..] :: q in order;
      if Offer(ans, Canon(ans, heard), p).1.Continue? {
        FeedFrom(ans, heard + {p}, order[1..]);
      }
    }
  }

  lemma NothingHeard<R(!new)>(ans: map<PeerId, Result<R>>)
    requires |ans| > 0
    ensures Canon(ans, {}) == AgreementState(map[], 0)
    ensures Quiet(ans, {})
  {
    assert Answers(ans, {}) == map[];
    assert Errors(ans, {}) == map[];
    forall v ensures |Holders(Answers(ans, {}), v)| < Threshold(|ans|) {
      assert Holders(Answers(ans, {}), v) == {};
    }
  }

  /** At most one verdict fits the federation's answers. */
  lemma DecidedUnique<R(!new)>(ans: map<PeerId, Result<R>>, v: Verdict<R>, w: Verdict<R>)
    requires |ans| > 0 && Decided(ans, v) && Decided(ans, w)
    ensures v == w
  {
    if v.Agreed? && w.Agreed? {
      ThresholdValueUnique(ans.Keys, Answers(ans, ans.Keys), v.value, w.value);
    }
  }

  /**
   * Every arrival order gives the same verdict: the value a threshold of peers
   * sent if there is one, else every answer if at least a threshold answered,
   * else none. A divergence is never reported when an agreement exists.
   */
  lemma OrderIndependent<R(!new)>(ans: map<PeerId, Result<R>>, order: seq<PeerId>)
    requires |ans| > 0 && Permutes(order, ans.Keys)
    requires forall p <- order :: p in ans
    ensures var all := Answers(ans, ans.Keys);
      var verdict := Feed(ans, AgreementState(map[], 0), order);
      && (forall r :: verdict == Some(Agreed(r)) <==> |Holders(all, r)| >= Threshold(|ans|))
      && (forall m :: verdict == Some(Diverged(m)) <==>
            m == all && |all| >= Threshold(|ans|) && BelowThreshold(all, Threshold(|ans|)))
      && (verdict.None? <==> |all| < Threshold(|ans|))
  {
    var all := Answers(ans, ans.Keys);
    var t := Threshold(|ans|);
    NothingHeard(ans);
    assert ans.Keys - {} == ans.Keys;
    FeedFrom(ans, {}, order);
    var verdict := Feed(ans, AgreementState(map[], 0), order);
    Heard(ans, ans.Keys);
    forall r ensures verdict == Some(Agreed(r)) <==> |Holders(all, r)| >= t {
      if |Holders(all, r)| >= t {
        SubsetSize(Holders(all, r), all.Keys);
        assert Decided(ans, Agreed(r));
        assert verdict.Some?;
        DecidedUnique(ans, verdict.value, Agreed(r));
      }
    }
    forall m ensures verdict == Some(Diverged(m)) <==> m == all && |all| >= t && BelowThreshold(all, t) {
      if m == all && |all| >= t && BelowThreshold(all, t) {
        assert Decided(ans, Diverged(m));
        DecidedUnique(ans, verdict.value, Diverged(m));
      }
    }
    if verdict.Some? && verdict.value.Agreed? {
      SubsetSize(Holders(all, verdict.value.value), all.Keys);
    }
  }

  // ----- the same strategy under the driver

  function Begin<R(==)>(peers: set<PeerId>): ARun<R> {
    Start(peers, AgreementState(map[], 0))
  }

  function CanonRun<R>(ans: map<PeerId, Result<R>>, heard: set<PeerId>): ARun<R> {
    Run(Canon(ans, heard), Book(ans.Keys - heard, false, Errors(ans, heard)), Running)
  }

  /** What the driver hands back, in terms of the whole federation. */
  ghost predicate Settled<R(!new)>(ans: map<PeerId, Result<R>>, status: Status<Verdict<R>>)
    requires |ans| > 0
  {
    match status
    case Done(v) => Decided(ans, v)
    case Failed(errors) =>
      && |errors| == OneHonest(|ans|)
      && forall p <- errors.Keys :: p in ans && ans[p] == Err(errors[p])
    case Running => false
    case Crashed => false
  }

  lemma TurnStep<R(!new)>(ans: map<PeerId, Result<R>>, heard: set<PeerId>, p: PeerId)
    requires heard <= ans.Keys && p in ans && p !in heard && |ans| > 0
    requires Quiet(ans, heard) && |Errors(ans, heard)| < OneHonest(|ans|)
    ensures var next := Step(Agreement(|ans|), OneHonest(|ans|), CanonRun(ans, heard), Completion(p, ans[p]));
      || Settled(ans, next.status)
      || (next == CanonRun(ans, heard + {p}) && Quiet(ans, heard + {p})
          && |Errors(ans, heard + {p})| < OneHonest(|ans|))
  {
    OfferStep(ans, heard, p);
    HearOne(ans, heard, p);
    assert ans.Keys - heard - {p} == ans.Keys - (heard + {p});
  }

  /** Once everyone is heard, silence means that enough peers failed. */
  lemma AllHeard<R(!new)>(ans: map<PeerId, Result<R>>)
    requires |ans| > 0 && Quiet(ans, ans.Keys)
    ensures |Errors(ans, ans.Keys)| >= OneHonest(|ans|)
  {
    Heard(ans, ans.Keys);
  }

  /** The loop has heard `heard` and goes on. */
  ghost predicate GoesOn<R(!new)>(ans: map<PeerId, Result<R>>, heard: set<PeerId>, run: ARun<R>)
    requires |ans| > 0
  {
    && heard <= ans.Keys && Quiet(ans, heard) && |Errors(ans, heard)| < OneHonest(|ans|)
    && run == CanonRun(ans, heard)
  }

  lemma {:induction false} RunFrom<R(!new)>(
      ans: map<PeerId, Result<R>>, heard: set<PeerId>, run: ARun<R>, events: seq<Completion<R>>)
    returns (last: set<PeerId>)
    requires |ans| > 0 && GoesOn(ans, heard, run) && Delivers(ans, events)
    requires Feasible(Agreement(|ans|), OneHonest(|ans|), run, events)
    ensures |heard| + |events| <= |ans|
    ensures var end := Exec(Agreement(|ans|), OneHonest(|ans|), run, events);
      Settled(ans, end.status) || (GoesOn(ans, last, end) && |last| == |heard| + |events|)
    decreases |events|
  {
    SubsetSize(heard, ans.Keys);
    last := heard;
    if events != [] {
      var p := events[0].peer;
      assert events[0] == Completion(p, ans[p]);
      TurnStep(ans, heard, p);
      SubsetSize(heard + {p}, ans.Keys);
      var next := Step(Agreement(|ans|), OneHonest(|ans|), run, events[0]);
      if next.status.Running? {
        last := RunFrom(ans, heard + {p}, next, events[1..]);
      } else {
        assert events[1..] == [];
      }
    }
  }

  lemma SettledByCount<R(!new)>(ans: map<PeerId, Result<R>>, status: Status<Verdict<R>>)
    requires |ans| > 0 && Settled(ans, status)
    ensures status.Failed? <==> |Answers(ans, ans.Keys)| < Threshold(|ans|)
  {
    var all := Answers(ans, ans.Keys);
    Heard(ans, ans.Keys);
    if status.Failed? {
      SubsetSize(status.errors.Keys, Errors(ans, ans.Keys).Keys);
    } else if status.value.Agreed? {
      SubsetSize(Holders(all, status.value.value), all.Keys);
    }
  }

  /** What was returned, by counting the answers of all peers. */
  lemma SettledExactly<R(!new)>(ans: map<PeerId, Result<R>>, status: Status<Verdict<R>>)
    requires |ans| > 0 && Settled(ans, status)
    ensures var all, t := Answers(ans, ans.Keys), Threshold(|ans|);
      && (forall v :: status == Done(Agreed(v)) <==> |Holders(all, v)| >= t)
      && (forall m :: status == Done(Diverged(m)) <==> m == all && |all| >= t && BelowThreshold(all, t))
      && (status.Failed? <==> |all| < t)
  {
    var all, t := Answers(ans, ans.Keys), Threshold(|ans|);
    SettledByCount(ans, status);
    forall v ensures status == Done(Agreed(v)) <==> |Holders(all, v)| >= t {
      SubsetSize(Holders(all, v), all.Keys);
      if |Holders(all, v)| >= t {
        assert Decided(ans, Agreed(v));
        DecidedUnique(ans, status.value, Agreed(v));
      }
    }
    forall m ensures status == Done(Diverged(m)) <==> m == all && |all| >= t && BelowThreshold(all, t) {
      if m == all && |all| >= t && BelowThreshold(all, t) {
        assert Decided(ans, Diverged(m));
        DecidedUnique(ans, status.value, Diverged(m));
      }
    }
  }

  /**
   * Through the driver, on every schedule that delivers what each peer has: the
   * call hears each peer at most once, so it returns at the latest when all are
   * heard, and until then a request is in flight. It returns an agreed value
   * exactly when a threshold sent it, every answer exactly when a threshold
   * answered without agreeing, and peer errors exactly when fewer answered.
   */
  lemma CallSettles<R(!new)>(ans: map<PeerId, Result<R>>, events: seq<Completion<R>>)
    requires |ans| > 0 && Delivers(ans, events)
    requires Feasible(Agreement(|ans|), OneHonest(|ans|), Begin<R>(ans.Keys), events)
    ensures var last := Exec(Agreement(|ans|), OneHonest(|ans|), Begin<R>(ans.Keys), events);
      var all, t := Answers(ans, ans.Keys), Threshold(|ans|);
      && |events| <= |ans|
      && (last.status.Running? ==> |events| < |ans| && last.book.outstanding != {})
      && (!last.status.Running? ==>
            && (forall v :: last.status == Done(Agreed(v)) <==> |Holders(all, v)| >= t)
            && (forall m :: last.status == Done(Diverged(m)) <==> m == all && |all| >= t && BelowThreshold(all, t))
            && (last.status.Failed? <==> |all| < t) && !last.status.Crashed?)
  {
    NothingHeard(ans);
    assert Errors(ans, {}) == map[];
    assert ans.Keys - {} == ans.Keys;
    var heard := RunFrom(ans, {}, Begin<R>(ans.Keys), events);
    var last := Exec(Agreement(|ans|), OneHonest(|ans|), Begin<R>(ans.Keys), events);
    if Settled(ans, last.status) {
      SettledExactly(ans, last.status);
    } else {
      if heard == ans.Keys {
        AllHeard(ans);
      }
      SubsetSize(heard, ans.Keys);
      assert ans.Keys - heard != {};
    }
  }
}
