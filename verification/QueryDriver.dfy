/**
 * The loop that drives a query strategy: it keeps one request per peer in
 * flight, feeds completions to the strategy in whatever order they arrive, and
 * gives up once so many peers have failed that one of them must be honest.
 */
module QueryDriver {
  import opened Federation
  import opened QueryStrategies

  /** A request to `peer` finished. */
  datatype Completion<+R> = Completion(peer: PeerId, result: Result<R>)

  /**
   * Peers with a request in flight, whether any peer ever had two at once, and
   * the error recorded for each failed peer.
   */
  datatype Book = Book(outstanding: set<PeerId>, doubled: bool, errors: map<PeerId, ServerError>)

  datatype Status<+V> =
    | Running
    | Done(value: V)
    | Failed(errors: map<PeerId, ServerError>)
    | Crashed

  datatype Run<S, V> = Run(strategy: S, book: Book, status: Status<V>)

  function CheckErrors<V>(book: Book, limit: nat): Status<V> {
    if |book.errors| == limit then Failed(book.errors) else Running
  }

  function AfterResponse<V>(book: Book, limit: nat, peer: PeerId, out: Outcome<V>): (Book, Status<V>) {
    match out
    case Panicked => (book, Crashed)
    case Returned(Success(v)) => (book, Done(v))
    case Returned(Retry(peers)) =>
      var doubled := book.doubled || book.outstanding * peers != {};
      var b := book.(outstanding := book.outstanding + peers, doubled := doubled);
      (b, CheckErrors(b, limit))
    case Returned(Failure(e)) =>
      var b := book.(errors := book.errors[peer := e]);
      (b, CheckErrors(b, limit))
    case Returned(Continue) => (book, CheckErrors(book, limit))
  }

  function AfterError<V>(book: Book, limit: nat, peer: PeerId, e: ServerError, step: QueryStep<V>): (Book, Status<V>) {
    if step.Success? then (book, Done(step.value))
    else
      var b := book.(errors := book.errors[peer := e]);
      (b, CheckErrors(b, limit))
  }

  /** One turn of the driver's loop. */
  function Step<S, R, V>(q: QueryStrategy<S, R, V>, limit: nat, run: Run<S, V>, c: Completion<R>): Run<S, V> {
    var book := run.book.(outstanding := run.book.outstanding - {c.peer});
    match c.result
    case Ok(r) =>
      var (s, out) := q.process(run.strategy, c.peer, r);
      var (b, status) := AfterResponse(book, limit, c.peer, out);
      Run(s, b, status)
    case Err(e) =>
      var (s, step) := q.processError(run.strategy, c.peer);
      var (b, status) := AfterError(book, limit, c.peer, e, step);
      Run(s, b, status)
  }

  function Start<S, V>(peers: set<PeerId>, s: S): Run<S, V> {
    Run(s, Book(peers, false, map[]), Running)
  }

  /** A completion can only arrive for a request in flight, and only while the loop runs. */
  predicate Feasible<S, R, V>(q: QueryStrategy<S, R, V>, limit: nat, run: Run<S, V>, events: seq<Completion<R>>)
    decreases |events|
  {
    events == [] ||
    (run.status.Running? && events[0].peer in run.book.outstanding &&
     Feasible(q, limit, Step(q, limit, run, events[0]), events[1..]))
  }

  function Exec<S, R, V>(q: QueryStrategy<S, R, V>, limit: nat, run: Run<S, V>, events: seq<Completion<R>>): Run<S, V>
    decreases |events|
  {
    if events == [] then run else Exec(q, limit, Step(q, limit, run, events[0]), events[1..])
  }

  /** Completions that deliver the answer or error each peer has. */
  predicate Delivers<R(==)>(ans: map<PeerId, Result<R>>, events: seq<Completion<R>>) {
    forall c <- events :: c.peer in ans && c.result == ans[c.peer]
  }

  /** What the loop does with the strategy's verdict on a response. */
  method TakeOutcome<V>(book: Book, limit: nat, peer: PeerId, out: Outcome<V>) returns (b: Book, status: Status<V>)
    ensures (b, status) == AfterResponse(book, limit, peer, out)
    ensures b.errors == if out.Returned? && out.step.Failure? then book.errors[peer := out.step.error] else book.errors
    ensures b.outstanding ==
      if out.Returned? && out.step.Retry? then book.outstanding + out.step.peers else book.outstanding
    ensures b.doubled <==>
      book.doubled || (out.Returned? && out.step.Retry? && exists p <- out.step.peers :: p in book.outstanding)
    ensures if out.Panicked? then status.Crashed?
      else if out.step.Success? then status == Done(out.step.value)
      else if |b.errors| == limit then status == Failed(b.errors)
      else status.Running?
  {
    b := book;
    match out {
      case Panicked =>
        return b, Crashed;
      case Returned(step) =>
        match step {
          case Success(v) =>
            return b, Done(v);
          case Retry(again) =>
            assert forall p :: p in b.outstanding * again <==> p in again && p in b.outstanding;
            b := b.(outstanding := b.outstanding + again, doubled := b.doubled || b.outstanding * again != {});
          case Failure(e) =>
            b := b.(errors := b.errors[peer := e]);
          case Continue =>
        }
    }
    status := if |b.errors| == limit then Failed(b.errors) else Running;
  }

  /** What it does with the strategy's verdict on an error. */
  method TakeError<V>(book: Book, limit: nat, peer: PeerId, e: ServerError, step: QueryStep<V>)
    returns (b: Book, status: Status<V>)
    ensures (b, status) == AfterError(book, limit, peer, e, step)
    ensures if step.Success? then b == book && status == Done(step.value)
      else
        && b == Book(book.outstanding, book.doubled, book.errors[peer := e])
        && status == if |b.errors| == limit then Failed(b.errors) else Running
  {
    if step.Success? {
      return book, Done(step.value);
    }
    b := book.(errors := book.errors[peer := e]);
    status := if |b.errors| == limit then Failed(b.errors) else Running;
  }

  /**
   * The driver's loop over a schedule of completions; `Running` when the
   * schedule ends before the loop returns.
   */
  method RequestWithStrategy<S, R, V>(
      q: QueryStrategy<S, R, V>, init: S, peers: set<PeerId>, events: seq<Completion<R>>)
    returns (status: Status<V>)
    requires peers != {}
    requires Feasible(q, OneHonest(|peers|), Start<S, V>(peers, init), events)
    ensures status == Exec(q, OneHonest(|peers|), Start<S, V>(peers, init), events).status
  {
    var limit := OneHonest(|peers|);
    var strategy := init;
    var book := Book(peers, false, map[]);
    status := Running;
    ghost var last := Exec(q, limit, Start<S, V>(peers, init), events);
    var i := 0;
    while i < |events|
      invariant 0 <= i <= |events|
      invariant last == Exec(q, limit, Run(strategy, book, status), events[i..])
    {
      ghost var run := Run(strategy, book, status);
      var c := events[i];
      book := book.(outstanding := book.outstanding - {c.peer});
      match c.result {
        case Ok(r) =>
          var (s, out) := q.process(strategy, c.peer, r);
          strategy := s;
          book, status := TakeOutcome(book, limit, c.peer, out);
        case Err(e) =>
          var (s, step) := q.processError(strategy, c.peer);
          strategy := s;
          book, status := TakeError(book, limit, c.peer, e, step);
      }
      assert Run(strategy, book, status) == Step(q, limit, run, c);
      assert events[i..][0] == c && events[i..][1..] == events[i + 1..];
      i := i + 1;
    }
  }

  lemma InsertKeySize<T>(m: map<PeerId, T>, p: PeerId, v: T)
    ensures |m[p := v]| == if p in m then |m| else |m| + 1
  {
    assert m[p := v].Keys == m.Keys + {p};
  }
}
