/** Fetching gossip from at least a number of peers, with retries and an opportunistic wait. */
module FetchLoop {
  import opened Federation
  import opened Gossip

  /** What a request comes back with: nothing on a failure, or a map and the clock at the check of each entry. */
  datatype Reply<C> = Failed | Received(updates: Store<C>, clock: PeerId -> nat)

  /** What the loop waits for: a request completes, or the extra wait runs out. */
  datatype Event<C> = Completes(peer: PeerId, reply: Reply<C>) | WaitOver

  /** `from` names the peer of each response; the loop itself keeps only the maps. */
  datatype Fetch<C> = Fetch(pending: set<PeerId>, responses: seq<Store<C>>, from: seq<PeerId>, timedOut: bool)

  /** Whether an entry of a response is acceptable at a time: known guardian, valid signature, ... */
  type Validator<!C> = (PeerId, Record<C>, nat) -> bool

  /** One bad entry discards the whole response. */
  predicate Acceptable<C>(valid: Validator<C>, reply: Reply<C>) {
    reply.Received? && forall p <- reply.updates :: valid(p, reply.updates[p], reply.clock(p))
  }

  /** The check of one response, entry by entry. */
  method CheckReply<C>(valid: Validator<C>, reply: Reply<C>) returns (ok: bool)
    ensures ok <==> Acceptable(valid, reply)
    ensures ok <==> reply.Received? && forall p <- reply.updates :: valid(p, reply.updates[p], reply.clock(p))
  {
    if reply.Failed? {
      return false;
    }
    var left := reply.updates.Keys;
    while left != {}
      invariant left <= reply.updates.Keys
      invariant forall p <- reply.updates.Keys - left :: valid(p, reply.updates[p], reply.clock(p))
      decreases left
    {
      var p :| p in left;
      if !valid(p, reply.updates[p], reply.clock(p)) {
        return false;
      }
      left := left - {p};
    }
    return true;
  }

  /** A peer whose request failed, or who sent one bad entry, is asked again. */
  lemma InvalidIsRetried<C>(valid: Validator<C>, s: Fetch<C>, peer: PeerId, reply: Reply<C>, p: PeerId)
    requires peer in s.pending
    requires reply.Failed? || (p in reply.updates && !valid(p, reply.updates[p], reply.clock(p)))
    ensures Apply(valid, s, Completes(peer, reply)) == s
  {
  }

  /** The peer ids of a federation of `total` guardians. */
  function AllPeers(total: nat): (peers: set<PeerId>)
    ensures forall p: PeerId :: p in peers <==> p < total
    ensures |peers| == total
  {
    if total == 0 then {} else AllPeers(total - 1) + {total - 1}
  }

  function Begin<C>(total: nat): Fetch<C> {
    Fetch(AllPeers(total), [], [], false)
  }

  predicate Finished<C>(s: Fetch<C>) {
    s.pending == {} || s.timedOut
  }

  /** A request may complete while pending; the wait is bounded only once there are enough responses. */
  predicate Enabled<C>(required: nat, s: Fetch<C>, e: Event<C>) {
    && !Finished(s)
    && match e
       case Completes(peer, _) => peer in s.pending
       case WaitOver => |s.responses| >= required
  }

  function Apply<C>(valid: Validator<C>, s: Fetch<C>, e: Event<C>): Fetch<C> {
    match e
    case Completes(peer, reply) =>
      if Acceptable(valid, reply)
      then Fetch(s.pending - {peer}, s.responses + [reply.updates], s.from + [peer], s.timedOut)
      else s
    case WaitOver => s.(timedOut := true)
  }

  function Exec<C>(valid: Validator<C>, total: nat, events: seq<Event<C>>): Fetch<C> {
    if events == [] then Begin(total)
    else Apply(valid, Exec(valid, total, events[..|events| - 1]), events[|events| - 1])
  }

  predicate Feasible<C>(valid: Validator<C>, total: nat, required: nat, events: seq<Event<C>>) {
    events == [] ||
    var before := events[..|events| - 1];
    && Feasible(valid, total, required, before)
    && Enabled(required, Exec(valid, total, before), events[|events| - 1])
  }

  lemma {:induction false} FeasiblePrefix<C>(
      valid: Validator<C>, total: nat, required: nat, events: seq<Event<C>>, i: nat)
    requires Feasible(valid, total, required, events) && i <= |events|
    ensures Feasible(valid, total, required, events[..i])
    decreases |events|
  {
    if i < |events| {
      FeasiblePrefix(valid, total, required, events[..|events| - 1], i);
      assert events[..|events| - 1][..i] == events[..i];
    } else {
      assert events[..i] == events;
    }
  }

  /** The loop over a schedule of events; `finished` says whether it broke out before the schedule ended. */
  method FetchFromAtLeast<C>(valid: Validator<C>, total: nat, required: nat, events: seq<Event<C>>)
    returns (responses: seq<Store<C>>, finished: bool)
    requires Feasible(valid, total, required, events)
    ensures responses == Exec(valid, total, events).responses
    ensures finished == Finished(Exec(valid, total, events))
  {
    var requests := AllPeers(total);
    responses := [];
    var timedOut := false;
    ghost var s: Fetch<C> := Begin(total);
    var i := 0;
    while i < |events|
      invariant 0 <= i <= |events|
      invariant s == Exec(valid, total, events[..i])
      invariant s.pending == requests && s.responses == responses && s.timedOut == timedOut
    {
      assert events[..i + 1][..i] == events[..i];
      FeasiblePrefix(valid, total, required, events, i + 1);
      s := Apply(valid, s, events[i]);
      match events[i] {
        case WaitOver =>
          timedOut := true;
        case Completes(peer, reply) =>
          requests := requests - {peer};
          var ok := CheckReply(valid, reply);
          if ok {
            responses := responses + [reply.updates];
          } else {
            requests := requests + {peer};
          }
      }
      i := i + 1;
    }
    assert events[..i] == events;
    finished := requests == {} || timedOut;
  }

  // ----- what every run keeps

  predicate Distinct(s: seq<PeerId>) {
    forall i, j | 0 <= i < j < |s| :: s[i] != s[j]
  }

  /** Every peer is either still asked or has exactly one accepted response. */
  ghost predicate Accounted<C>(total: nat, required: nat, s: Fetch<C>) {
    && |s.from| == |s.responses|
    && Distinct(s.from)
    && (forall p <- s.from :: p !in s.pending && p < total)
    && (forall p | 0 <= p < total :: p in s.pending || p in s.from)
    && |s.pending| + |s.responses| == total
    && s.pending <= AllPeers(total)
    && (s.timedOut ==> |s.responses| >= required)
  }

  lemma AccountedStep<C>(valid: Validator<C>, total: nat, required: nat, s: Fetch<C>, e: Event<C>)
    requires Accounted(total, required, s) && Enabled(required, s, e)
    ensures Accounted(total, required, Apply(valid, s, e))
  {
  }

  lemma {:induction false} EveryRunAccounts<C>(valid: Validator<C>, total: nat, required: nat, events: seq<Event<C>>)
    requires Feasible(valid, total, required, events)
    ensures Accounted(total, required, Exec(valid, total, events))
    decreases |events|
  {
    if events != [] {
      var before := events[..|events| - 1];
      EveryRunAccounts(valid, total, required, before);
      AccountedStep(valid, total, required, Exec(valid, total, before), events[|events| - 1]);
    }
  }

  /** The `k`-th response is what its peer sent in some event, and all of it was acceptable. */
  ghost predicate Backed<C>(valid: Validator<C>, s: Fetch<C>, events: seq<Event<C>>, k: nat)
    requires k < |s.responses| == |s.from|
  {
    exists e <- events ::
      e.Completes? && e.peer == s.from[k] && Acceptable(valid, e.reply) && e.reply.updates == s.responses[k]
  }

  lemma {:induction false} ResponsesAreBacked<C>(
      valid: Validator<C>, total: nat, required: nat, events: seq<Event<C>>, k: nat)
    requires Feasible(valid, total, required, events)
    requires |Exec(valid, total, events).responses| == |Exec(valid, total, events).from|
    requires k < |Exec(valid, total, events).responses|
    ensures Backed(valid, Exec(valid, total, events), events, k)
    decreases |events|
  {
    var before, last := events[..|events| - 1], events[|events| - 1];
    var s, t := Exec(valid, total, before), Exec(valid, total, events);
    EveryRunAccounts(valid, total, required, before);
    assert last in events;
    if k < |s.responses| {
      ResponsesAreBacked(valid, total, required, before, k);
      var e :| e in before && e.Completes? && e.peer == s.from[k] && Acceptable(valid, e.reply)
        && e.reply.updates == s.responses[k];
      assert e in events && t.from[k] == s.from[k] && t.responses[k] == s.responses[k];
    }
  }

  /**
   * When the loop ends it returns at least the required number of responses (or one of
   * every peer, if there are fewer peers), at most one per peer, each acceptable as a whole
   * and really sent by its peer. Short of a timeout, every peer has answered.
   */
  lemma FetchedEnough<C>(valid: Validator<C>, total: nat, required: nat, events: seq<Event<C>>)
    requires Feasible(valid, total, required, events)
    requires Finished(Exec(valid, total, events))
    ensures var s := Exec(valid, total, events);
      && |s.responses| >= (if required <= total then required else total)
      && |s.responses| == |s.from| <= total
      && Distinct(s.from)
      && (!s.timedOut ==> |s.responses| == total)
      && forall k | 0 <= k < |s.responses| :: Backed(valid, s, events, k)
  {
    EveryRunAccounts(valid, total, required, events);
    var s := Exec(valid, total, events);
    forall k | 0 <= k < |s.responses| ensures Backed(valid, s, events, k) {
      ResponsesAreBacked(valid, total, required, events, k);
    }
  }

  /** The results hold the map as the peer's response. */
  ghost predicate Holds<C>(s: Fetch<C>, peer: PeerId, updates: Store<C>) {
    |s.from| == |s.responses| && exists k | 0 <= k < |s.from| :: s.from[k] == peer && s.responses[k] == updates
  }

  lemma HoldsOn<C>(valid: Validator<C>, s: Fetch<C>, e: Event<C>, peer: PeerId, updates: Store<C>)
    requires Holds(s, peer, updates)
    ensures Holds(Apply(valid, s, e), peer, updates)
  {
    var s' := Apply(valid, s, e);
    var k :| 0 <= k < |s.from| && s.from[k] == peer && s.responses[k] == updates;
    assert s'.from[k] == peer && s'.responses[k] == updates;
  }

  lemma AcceptHolds<C>(valid: Validator<C>, s: Fetch<C>, e: Event<C>)
    requires |s.from| == |s.responses| && e.Completes? && e.reply.Received?
    requires forall p <- e.reply.updates :: valid(p, e.reply.updates[p], e.reply.clock(p))
    ensures Holds(Apply(valid, s, e), e.peer, e.reply.updates)
  {
    var s', k := Apply(valid, s, e), |s.from|;
    assert s'.from[k] == e.peer && s'.responses[k] == e.reply.updates;
  }

  /** In every run: a response all of whose entries are valid is among the results, as its peer's. */
  lemma {:induction false} ValidIsAccepted<C>(
      valid: Validator<C>, total: nat, required: nat, events: seq<Event<C>>, i: nat)
    requires Feasible(valid, total, required, events) && i < |events|
    requires events[i].Completes? && events[i].reply.Received?
    requires forall p <- events[i].reply.updates :: valid(p, events[i].reply.updates[p], events[i].reply.clock(p))
    ensures Holds(Exec(valid, total, events), events[i].peer, events[i].reply.updates)
    decreases |events|
  {
    var n := |events| - 1;
    var before := Exec(valid, total, events[..n]);
    EveryRunAccounts(valid, total, required, events[..n]);
    if i < n {
      ValidIsAccepted(valid, total, required, events[..n], i);
      HoldsOn(valid, before, events[n], events[i].peer, events[i].reply.updates);
    } else {
      AcceptHolds(valid, before, events[i]);
    }
  }

  /** A response of the peer has come in, and all of it was valid. */
  ghost predicate Served<C>(valid: Validator<C>, events: seq<Event<C>>, peer: PeerId) {
    exists e <- events :: e.Completes? && e.peer == peer && e.reply.Received? &&
      forall p <- e.reply.updates :: valid(p, e.reply.updates[p], e.reply.clock(p))
  }

  lemma ServedStep<C>(valid: Validator<C>, events: seq<Event<C>>, e: Event<C>, peer: PeerId)
    ensures Served(valid, events + [e], peer) <==>
      Served(valid, events, peer) || (e.Completes? && e.peer == peer && Acceptable(valid, e.reply))
  {
    if Served(valid, events, peer) {
      var x :| x in events && x.Completes? && x.peer == peer && Acceptable(valid, x.reply);
      assert x in events + [e];
    }
    assert e in events + [e];
  }

  /** In every run: a peer is asked again until it has sent a valid response, and the wait is over once it was. */
  lemma {:induction false} PendingExactly<C>(
      valid: Validator<C>, total: nat, required: nat, events: seq<Event<C>>, peer: PeerId)
    requires Feasible(valid, total, required, events)
    ensures peer in Exec(valid, total, events).pending <==> peer < total && !Served(valid, events, peer)
    ensures Exec(valid, total, events).timedOut <==> WaitOver in events
    decreases |events|
  {
    if events != [] {
      var n := |events| - 1;
      PendingExactly(valid, total, required, events[..n], peer);
      assert events == events[..n] + [events[n]];
      ServedStep(valid, events[..n], events[n], peer);
    }
  }

  ghost function ServedPeers<C>(valid: Validator<C>, total: nat, events: seq<Event<C>>): set<PeerId> {
    set p | p in AllPeers(total) && Served(valid, events, p)
  }

  lemma ServedAreNotPending<C>(valid: Validator<C>, total: nat, required: nat, events: seq<Event<C>>)
    requires Feasible(valid, total, required, events)
    ensures Exec(valid, total, events).pending == AllPeers(total) - ServedPeers(valid, total, events)
    ensures |Exec(valid, total, events).responses| == |ServedPeers(valid, total, events)|
  {
    PendingRemain(valid, total, required, events);
    EveryRunAccounts(valid, total, required, events);
    Remaining(AllPeers(total), ServedPeers(valid, total, events));
  }

  lemma PendingRemain<C>(valid: Validator<C>, total: nat, required: nat, events: seq<Event<C>>)
    requires Feasible(valid, total, required, events)
    ensures Exec(valid, total, events).pending == AllPeers(total) - ServedPeers(valid, total, events)
  {
    forall p: PeerId
      ensures p in Exec(valid, total, events).pending <==> p in AllPeers(total) - ServedPeers(valid, total, events) {
      PendingExactly(valid, total, required, events, p);
    }
  }

  lemma Remaining(all: set<PeerId>, served: set<PeerId>)
    requires served <= all
    ensures |all - served| + |served| == |all|
    ensures all - served != {} <==> served < all
  {
    assert all == (all - served) + served;
  }

  lemma NextStep<C>(valid: Validator<C>, total: nat, required: nat, events: seq<Event<C>>, e: Event<C>)
    requires Feasible(valid, total, required, events)
    ensures Feasible(valid, total, required, events + [e]) <==> Enabled(required, Exec(valid, total, events), e)
  {
    var all := events + [e];
    assert all[..|all| - 1] == events && all[|all| - 1] == e;
  }

  /**
   * What can come next in every run. It goes on until every peer has sent a
   * valid response or the wait is over; a completion is of a peer that has not,
   * and the wait is over only once enough have.
   */
  lemma NextExactly<C>(valid: Validator<C>, total: nat, required: nat, events: seq<Event<C>>, e: Event<C>)
    requires Feasible(valid, total, required, events)
    ensures Feasible(valid, total, required, events + [e]) <==>
      && WaitOver !in events && ServedPeers(valid, total, events) < AllPeers(total)
      && (e.Completes? ==> e.peer < total && !Served(valid, events, e.peer))
      && (e.WaitOver? ==> |ServedPeers(valid, total, events)| >= required)
  {
    NextStep(valid, total, required, events, e);
    ServedAreNotPending(valid, total, required, events);
    Remaining(AllPeers(total), ServedPeers(valid, total, events));
    PendingExactly(valid, total, required, events, if e.Completes? then e.peer else 0);
  }

  lemma {:induction false} SeenCameFrom<C>(store: Store<C>, batches: seq<Store<C>>, p: PeerId, r: Record<C>)
    requires r in Seen(store, batches, p)
    ensures (p in store && r == store[p]) || exists k | 0 <= k < |batches| :: p in batches[k] && batches[k][p] == r
    decreases |batches|
  {
    if batches != [] {
      var n := |batches| - 1;
      if r in Seen(store, batches[..n], p) {
        SeenCameFrom(store, batches[..n], p, r);
        if !(p in store && r == store[p]) {
          var k :| 0 <= k < n && p in batches[..n][k] && batches[..n][k][p] == r;
          assert batches[k] == batches[..n][k];
        }
      } else {
        assert p in batches[n] && batches[n][p] == r;
      }
    }
  }

  /** A record that a refresh put in came with an accepted response. */
  lemma NewRecordWasAccepted<C>(
      valid: Validator<C>, total: nat, required: nat, events: seq<Event<C>>, store: Store<C>, p: PeerId)
    returns (now: nat)
    requires Feasible(valid, total, required, events)
    requires var after := MergeAll(store, Exec(valid, total, events).responses);
      p in after && !(p in store && after[p] == store[p])
    ensures valid(p, MergeAll(store, Exec(valid, total, events).responses)[p], now)
  {
    var s := Exec(valid, total, events);
    var after := MergeAll(store, s.responses);
    EveryRunAccounts(valid, total, required, events);
    StoredIsNewest(store, s.responses, p);
    SeenCameFrom(store, s.responses, p, after[p]);
    var k :| 0 <= k < |s.responses| && p in s.responses[k] && s.responses[k][p] == after[p];
    ResponsesAreBacked(valid, total, required, events, k);
    var e :| e in events && e.Completes? && e.peer == s.from[k] && Acceptable(valid, e.reply)
      && e.reply.updates == s.responses[k];
    now := e.reply.clock(p);
  }

  /** The check of an announcement: a known guardian's signature. */
  function SignedBy<K, C>(keys: Keys<K, C>): Validator<C> {
    (p, r, now) => p in keys.of && keys.signed(keys.of[p], r)
  }

  /**
   * One refresh of the announcements: storing what was fetched only ever moves a
   * peer to a newer nonce, and every record it put in is signed with the key of
   * a known guardian, although the store itself checks nothing.
   */
  lemma RefreshIsGenuine<K, C>(
      keys: Keys<K, C>, total: nat, required: nat, events: seq<Event<C>>, store: Store<C>, p: PeerId)
    requires Feasible(SignedBy(keys), total, required, events)
    ensures var after := MergeAll(store, Exec(SignedBy(keys), total, events).responses);
      && (p in store ==> p in after && store[p].stamp <= after[p].stamp)
      && (p in after && !(p in store && after[p] == store[p]) ==>
            p in keys.of && keys.signed(keys.of[p], after[p]))
  {
    var s := Exec(SignedBy(keys), total, events);
    var after := MergeAll(store, s.responses);
    StoredIsNewest(store, s.responses, p);
    InitialSeen(store, s.responses, p);
    if p in after && !(p in store && after[p] == store[p]) {
      var _ := NewRecordWasAccepted(SignedBy(keys), total, required, events, store, p);
    }
  }

  /** The check of metadata: also not stamped too far ahead of the clock. */
  function VerifiedBy<K, C>(keys: Keys<K, C>): Validator<C> {
    (p: PeerId, r: Record<C>, now: nat) => Verifies(keys, p, r, now)
  }

  /** No check of a received entry looked at a clock beyond `now`. */
  ghost predicate CheckedBy<C>(events: seq<Event<C>>, now: nat) {
    forall e <- events | e.Completes? && e.reply.Received? ::
      forall p <- e.reply.updates :: e.reply.clock(p) <= now
  }

  /** The fetched maps as they are stored, each at its own clock reading after all checks. */
  ghost predicate StoredLater<C>(events: seq<Event<C>>, responses: seq<Store<C>>, receipts: seq<Receipt<C>>) {
    && |receipts| == |responses|
    && forall k | 0 <= k < |receipts| ::
         receipts[k].updates == responses[k] && CheckedBy(events, receipts[k].now)
  }

  /** What verified when it was fetched verifies when it is stored: the second check skips nothing. */
  lemma RecheckSkipsNothing<K, C>(
      keys: Keys<K, C>, total: nat, required: nat, events: seq<Event<C>>, store: Store<C>, receipts: seq<Receipt<C>>)
    requires Feasible(VerifiedBy(keys), total, required, events)
    requires StoredLater(events, Exec(VerifiedBy(keys), total, events).responses, receipts)
    ensures StoreReceipts(keys, store, receipts) == MergeAll(store, Exec(VerifiedBy(keys), total, events).responses)
  {
    var s := Exec(VerifiedBy(keys), total, events);
    EveryRunAccounts(VerifiedBy(keys), total, required, events);
    var batches := VerifiedBatches(keys, receipts);
    forall k | 0 <= k < |s.responses| ensures batches[k] == s.responses[k] {
      ResponsesAreBacked(VerifiedBy(keys), total, required, events, k);
      var e :| e in events && e.Completes? && e.peer == s.from[k] && Acceptable(VerifiedBy(keys), e.reply)
        && e.reply.updates == s.responses[k];
      VerifiesLater(keys, e.reply, receipts[k].now);
    }
    assert batches == s.responses;
  }

  lemma VerifiesLater<K, C>(keys: Keys<K, C>, reply: Reply<C>, now: nat)
    requires Acceptable(VerifiedBy(keys), reply) && forall p <- reply.updates :: reply.clock(p) <= now
    ensures Verified(keys, reply.updates, now) == reply.updates
  {
    forall p <- reply.updates ensures Verifies(keys, p, reply.updates[p], now) {
      assert VerifiedBy(keys)(p, reply.updates[p], reply.clock(p));
    }
  }
}
