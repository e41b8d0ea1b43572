/** The cached outcome of an operation and the update streams that fill it. */
module OutcomeCache {
  import opened Options

  /** The outcome column of an operation: absent, not readable as the update type, or an update. */
  datatype Cached<+U> = Absent | Undecodable | Value(update: U)

  datatype Source<+U> = UpdateStream | Outcome(update: U)

  /** A cached outcome short-circuits only if it is readable and terminal. */
  function OutcomeOrUpdates<U>(cache: Cached<U>, terminal: U -> bool): Source<U> {
    match cache
    case Value(u) => if terminal(u) then Outcome(u) else UpdateStream
    case Absent => UpdateStream
    case Undecodable => UpdateStream
  }

  function Last<U>(updates: seq<U>): Option<U> {
    if updates == [] then None else Some(updates[|updates| - 1])
  }

  /** What the wrapped stream tries to cache when the inner stream ends. */
  function ToCache<U>(updates: seq<U>, terminal: U -> bool): Option<U> {
    match Last(updates)
    case None => None
    case Some(u) => if terminal(u) then Some(u) else None
  }

  /** An operation log entry's outcome. */
  class OperationLogEntry<U> {
    var outcome: Cached<U>

    constructor (outcome: Cached<U>)
      ensures this.outcome == outcome
    {
      this.outcome := outcome;
    }

    method SetOutcome(update: U)
      modifies this
      ensures outcome == Value(update)
    {
      outcome := Value(update);
    }

    /**
     * Pass every update through and, when the stream has ended on a terminal
     * one, try to write it; a failed write is only logged.
     */
    method CachingUpdateStream(updates: seq<U>, terminal: U -> bool, writeSucceeds: bool) returns (yielded: seq<U>)
      modifies this
      ensures yielded == updates
      ensures outcome ==
        if updates != [] && terminal(updates[|updates| - 1]) && writeSucceeds then Value(updates[|updates| - 1])
        else old(outcome)
    {
      yielded := [];
      var lastUpdate: Option<U> := None;
      var i := 0;
      while i < |updates|
        invariant 0 <= i <= |updates|
        invariant yielded == updates[..i] && lastUpdate == Last(updates[..i])
        invariant outcome == old(outcome)
      {
        yielded := yielded + [updates[i]];
        lastUpdate := Some(updates[i]);
        i := i + 1;
      }
      if lastUpdate.None? {
        return;
      }
      if !terminal(lastUpdate.value) {
        return;
      }
      if writeSucceeds {
        SetOutcome(lastUpdate.value);
      }
    }
  }

  /** The cached value, or the last update of a stream consumed to its end. */
  method AwaitOutcome<U>(source: Source<U>, updates: seq<U>) returns (r: Option<U>)
    ensures source.Outcome? ==> r == Some(source.update)
    ensures source.UpdateStream? ==> r == if updates == [] then None else Some(updates[|updates| - 1])
  {
    if source.Outcome? {
      return Some(source.update);
    }
    r := None;
    var i := 0;
    while i < |updates|
      invariant 0 <= i <= |updates|
      invariant r == Last(updates[..i])
    {
      r := Some(updates[i]);
      i := i + 1;
    }
    assert updates[..i] == updates;
  }

  // ----- many subscribers

  type Subscriber = nat

  /**
   * A subscriber has read the entry, is consuming a stream, is past the end of
   * its inner stream with a write to make, or is done with what it awaited.
   */
  datatype Pc<U> =
    | HasRead(entry: Cached<U>)
    | Streaming(seen: seq<U>)
    | Writing(seen: seq<U>, update: U)
    | Done(result: Option<U>)
    | Abandoned

  datatype State<U> = State(cache: Cached<U>, subscribers: map<Subscriber, Pc<U>>)

  datatype Event<U> =
    | Read(s: Subscriber)
    | Open(s: Subscriber)
    | Update(s: Subscriber, u: U)
    | StreamEnd(s: Subscriber)
    | Write(s: Subscriber, succeeds: bool)
    | Abandon(s: Subscriber)

  predicate Enabled<U>(st: State<U>, e: Event<U>) {
    match e
    case Read(s) => s !in st.subscribers
    case Open(s) => s in st.subscribers && st.subscribers[s].HasRead?
    case Update(s, _) => s in st.subscribers && st.subscribers[s].Streaming?
    case StreamEnd(s) => s in st.subscribers && st.subscribers[s].Streaming?
    case Write(s, _) => s in st.subscribers && st.subscribers[s].Writing?
    case Abandon(s) => s in st.subscribers && !st.subscribers[s].Done?
  }

  function Apply<U>(st: State<U>, e: Event<U>, terminal: U -> bool): State<U>
    requires Enabled(st, e)
  {
    match e
    case Read(s) => st.(subscribers := st.subscribers[s := HasRead(st.cache)])
    case Open(s) =>
      var pc := match OutcomeOrUpdates(st.subscribers[s].entry, terminal)
        case Outcome(u) => Done(Some(u))
        case UpdateStream => Streaming([]);
      st.(subscribers := st.subscribers[s := pc])
    case Update(s, u) => st.(subscribers := st.subscribers[s := Streaming(st.subscribers[s].seen + [u])])
    case StreamEnd(s) =>
      var seen := st.subscribers[s].seen;
      var pc := match ToCache(seen, terminal)
        case None => Done(Last(seen))
        case Some(u) => Writing(seen, u);
      st.(subscribers := st.subscribers[s := pc])
    case Write(s, succeeds) =>
      var pc := st.subscribers[s];
      State(if succeeds then Value(pc.update) else st.cache, st.subscribers[s := Done(Last(pc.seen))])
    case Abandon(s) => st.(subscribers := st.subscribers[s := Abandoned])
  }

  predicate Feasible<U>(st: State<U>, events: seq<Event<U>>, terminal: U -> bool)
    decreases |events|
  {
    events == [] || (Enabled(st, events[0]) && Feasible(Apply(st, events[0], terminal), events[1..], terminal))
  }

  function Exec<U>(st: State<U>, events: seq<Event<U>>, terminal: U -> bool): State<U>
    requires Feasible(st, events, terminal)
    decreases |events|
  {
    if events == [] then st else Exec(Apply(st, events[0], terminal), events[1..], terminal)
  }

  predicate EndsOn<U(==)>(updates: seq<U>, v: U) {
    updates != [] && updates[|updates| - 1] == v
  }

  /** Whenever a stream runs to its end, its last update is `v`. */
  predicate StreamsEndOn<U(==)>(st: State<U>, events: seq<Event<U>>, terminal: U -> bool, v: U)
    requires Feasible(st, events, terminal)
    decreases |events|
  {
    events == [] ||
    ((events[0].StreamEnd? ==> EndsOn(st.subscribers[events[0].s].seen, v)) &&
     StreamsEndOn(Apply(st, events[0], terminal), events[1..], terminal, v))
  }

  /** Without any assumption on the streams: the cache is the initial one or a terminal update. */
  predicate WellCached<U(==)>(initial: Cached<U>, cache: Cached<U>, terminal: U -> bool) {
    cache == initial || (cache.Value? && terminal(cache.update))
  }

  ghost predicate Plain<U(!new)>(initial: Cached<U>, st: State<U>, terminal: U -> bool) {
    && WellCached(initial, st.cache, terminal)
    && forall s <- st.subscribers.Keys :: st.subscribers[s].Writing? ==>
         terminal(st.subscribers[s].update) && EndsOn(st.subscribers[s].seen, st.subscribers[s].update)
  }

  /** A non-terminal update is never written, over any interleaving of subscribers. */
  lemma {:induction false} OnlyTerminalCached<U(!new)>(
      initial: Cached<U>, st: State<U>, events: seq<Event<U>>, terminal: U -> bool)
    requires Plain(initial, st, terminal) && Feasible(st, events, terminal)
    ensures Plain(initial, Exec(st, events, terminal), terminal)
    decreases |events|
  {
    if events != [] {
      OnlyTerminalCached(initial, Apply(st, events[0], terminal), events[1..], terminal);
    }
  }

  /** Usable values agree with `v`: a cache that short-circuits can only say `v`. */
  predicate Agrees<U(==)>(cache: Cached<U>, terminal: U -> bool, v: U) {
    cache.Value? && terminal(cache.update) ==> cache.update == v
  }

  ghost predicate Transparent<U(!new)>(initial: Cached<U>, st: State<U>, terminal: U -> bool, v: U) {
    && (st.cache == initial || st.cache == Value(v))
    && (forall s <- st.subscribers.Keys :: match st.subscribers[s]
          case HasRead(entry) => Agrees(entry, terminal, v)
          case Writing(seen, u) => u == v && EndsOn(seen, v)
          case Done(r) => r == Some(v)
          case Streaming(_) => true
          case Abandoned => true)
  }

  lemma TransparentStep<U(!new)>(initial: Cached<U>, st: State<U>, e: Event<U>, terminal: U -> bool, v: U)
    requires Agrees(initial, terminal, v) && terminal(v)
    requires Transparent(initial, st, terminal, v) && Enabled(st, e)
    requires e.StreamEnd? ==> EndsOn(st.subscribers[e.s].seen, v)
    ensures Transparent(initial, Apply(st, e, terminal), terminal, v)
  {
  }

  lemma {:induction false} TransparentRun<U(!new)>(
      initial: Cached<U>, st: State<U>, events: seq<Event<U>>, terminal: U -> bool, v: U)
    requires Agrees(initial, terminal, v) && terminal(v)
    requires Transparent(initial, st, terminal, v)
    requires Feasible(st, events, terminal) && StreamsEndOn(st, events, terminal, v)
    ensures Transparent(initial, Exec(st, events, terminal), terminal, v)
    decreases |events|
  {
    if events != [] {
      TransparentStep(initial, st, events[0], terminal, v);
      TransparentRun(initial, Apply(st, events[0], terminal), events[1..], terminal, v);
    }
  }

  predicate EveryoneGot<U(==)>(st: State<U>, v: U) {
    forall s <- st.subscribers.Keys :: st.subscribers[s].Done? ==> st.subscribers[s].result == Some(v)
  }

  /**
   * The cache is transparent: if complete streams end on the terminal `v` and
   * the cache starts absent, unreadable, non-terminal or equal to `v`, then in
   * any interleaving, with streams abandoned and writes lost, the cache is its
   * initial value or `v`, and everyone who waited to the end got `v`.
   */
  lemma CacheIsTransparent<U(!new)>(initial: Cached<U>, events: seq<Event<U>>, terminal: U -> bool, v: U)
    requires Agrees(initial, terminal, v) && terminal(v)
    requires Feasible(State(initial, map[]), events, terminal)
    requires StreamsEndOn(State(initial, map[]), events, terminal, v)
    ensures var st := Exec(State(initial, map[]), events, terminal);
      && (st.cache == initial || st.cache == Value(v))
      && EveryoneGot(st, v)
  {
    TransparentRun(initial, State(initial, map[]), events, terminal, v);
  }

  // ----- a terminal outcome is cached, and then served

  lemma {:induction false} Splits<U(!new)>(st: State<U>, events: seq<Event<U>>, terminal: U -> bool, i: nat)
    requires Feasible(st, events, terminal) && i <= |events|
    ensures Feasible(st, events[..i], terminal) && Feasible(Exec(st, events[..i], terminal), events[i..], terminal)
    ensures Exec(st, events, terminal) == Exec(Exec(st, events[..i], terminal), events[i..], terminal)
    decreases i
  {
    if i == 0 {
      assert events[..i] == [] && events[i..] == events;
    } else {
      Splits(Apply(st, events[0], terminal), events[1..], terminal, i - 1);
      assert events[..i][1..] == events[1..][..i - 1] && events[i..] == events[1..][i - 1..];
    }
  }

  lemma Later<U(!new)>(st: State<U>, events: seq<Event<U>>, terminal: U -> bool, i: nat, j: nat)
    requires Feasible(st, events, terminal) && i <= j <= |events|
    ensures Feasible(st, events[..i], terminal) && Feasible(st, events[..j], terminal)
    ensures Feasible(Exec(st, events[..i], terminal), events[i..j], terminal)
    ensures Exec(st, events[..j], terminal) == Exec(Exec(st, events[..i], terminal), events[i..j], terminal)
  {
    Splits(st, events, terminal, j);
    Splits(st, events[..j], terminal, i);
    assert events[..j][..i] == events[..i] && events[..j][i..] == events[i..j];
  }

  lemma TwoSteps<U(!new)>(st: State<U>, a: Event<U>, b: Event<U>, terminal: U -> bool)
    requires Enabled(st, a) && Enabled(Apply(st, a, terminal), b)
    ensures Feasible(st, [a, b], terminal)
    ensures Exec(st, [a, b], terminal) == Apply(Apply(st, a, terminal), b, terminal)
  {
    var st1, events, tail := Apply(st, a, terminal), [a, b], [b];
    assert events[1..] == tail && tail[1..] == [];
    assert Feasible(Apply(st1, b, terminal), [], terminal) && Feasible(st1, tail, terminal);
    assert Exec(st1, tail, terminal) == Exec(Apply(st1, b, terminal), [], terminal);
  }

  /** Past the end of its stream a subscriber has `v` to write, or nothing more to do. */
  predicate Ended<U(==)>(st: State<U>, s: Subscriber, v: U) {
    && s in st.subscribers
    && match st.subscribers[s]
       case Writing(_, u) => u == v
       case Done(_) => true
       case Abandoned => true
       case _ => false
  }

  lemma {:induction false} EndedStays<U(!new)>(
      st: State<U>, events: seq<Event<U>>, terminal: U -> bool, s: Subscriber, v: U)
    requires Feasible(st, events, terminal) && Ended(st, s, v)
    ensures Ended(Exec(st, events, terminal), s, v)
    decreases |events|
  {
    if events != [] {
      EndedStays(Apply(st, events[0], terminal), events[1..], terminal, s, v);
    }
  }

  /**
   * In every run: when a stream has ended on the terminal `v` and its write
   * succeeds, the outcome is `v`.
   */
  lemma TerminalIsCached<U(!new)>(
      st: State<U>, events: seq<Event<U>>, terminal: U -> bool, i: nat, j: nat, s: Subscriber, v: U)
    requires Feasible(st, events, terminal) && i < j < |events| && terminal(v)
    requires events[i] == StreamEnd(s) && events[j] == Write(s, true)
    requires Feasible(st, events[..i], terminal)
    requires var before := Exec(st, events[..i], terminal);
      s in before.subscribers && before.subscribers[s].Streaming? && EndsOn(before.subscribers[s].seen, v)
    ensures Feasible(st, events[..j + 1], terminal)
    ensures Exec(st, events[..j + 1], terminal).cache == Value(v)
  {
    Later(st, events, terminal, i, j);
    Later(st, events, terminal, j, j + 1);
    var before, rest := Exec(st, events[..i], terminal), events[i..j];
    assert rest[0] == StreamEnd(s);
    EndedStays(Apply(before, rest[0], terminal), rest[1..], terminal, s, v);
    var last := events[j..j + 1];
    assert last[0] == Write(s, true) && last[1..] == [];
  }

  /** A stream that ends without a terminal update hands out its last one, and leaves the cache alone. */
  lemma OtherEndsAreNotCached<U(!new)>(st: State<U>, s: Subscriber, terminal: U -> bool)
    requires s in st.subscribers && st.subscribers[s].Streaming?
    requires var seen := st.subscribers[s].seen; seen == [] || !terminal(seen[|seen| - 1])
    ensures var seen := st.subscribers[s].seen;
      Apply(st, StreamEnd(s), terminal) ==
        st.(subscribers := st.subscribers[s := Done(if seen == [] then None else Some(seen[|seen| - 1]))])
  {
  }

  /** Whoever reads a terminal outcome is done with it, without a stream. */
  lemma ServedFromCache<U(!new)>(st: State<U>, r: Subscriber, terminal: U -> bool, v: U)
    requires st.cache == Value(v) && terminal(v) && r !in st.subscribers
    ensures var events := [Read(r), Open(r)];
      && Feasible(st, events, terminal)
      && Exec(st, events, terminal) == st.(subscribers := st.subscribers[r := Done(Some(v))])
  {
    TwoSteps(st, Read(r), Open(r), terminal);
    var st2 := Apply(Apply(st, Read(r), terminal), Open(r), terminal);
    assert st2.subscribers == st.subscribers[r := Done(Some(v))];
  }

  lemma {:induction false} RunOn<U(!new)>(
      st: State<U>, one: seq<Event<U>>, two: seq<Event<U>>, terminal: U -> bool)
    requires Feasible(st, one, terminal) && Feasible(Exec(st, one, terminal), two, terminal)
    ensures Feasible(st, one + two, terminal)
    ensures Exec(st, one + two, terminal) == Exec(Exec(st, one, terminal), two, terminal)
    decreases |one|
  {
    if one == [] {
      assert one + two == two;
    } else {
      assert (one + two)[1..] == one[1..] + two;
      RunOn(Apply(st, one[0], terminal), one[1..], two, terminal);
    }
  }

  function Updates<U>(s: Subscriber, updates: seq<U>): seq<Event<U>> {
    seq(|updates|, i requires 0 <= i < |updates| => Update(s, updates[i]))
  }

  lemma {:induction false} UpdatesAreSeen<U(!new)>(
      st: State<U>, s: Subscriber, updates: seq<U>, terminal: U -> bool)
    requires s in st.subscribers && st.subscribers[s].Streaming?
    ensures Feasible(st, Updates(s, updates), terminal)
    ensures Exec(st, Updates(s, updates), terminal) ==
      st.(subscribers := st.subscribers[s := Streaming(st.subscribers[s].seen + updates)])
    decreases |updates|
  {
    if updates == [] {
      assert st.subscribers[s].seen + updates == st.subscribers[s].seen;
      assert st.subscribers[s := st.subscribers[s]] == st.subscribers;
    } else {
      var st', seen := Apply(st, Update(s, updates[0]), terminal), st.subscribers[s].seen;
      assert Updates(s, updates)[1..] == Updates(s, updates[1..]);
      UpdatesAreSeen(st', s, updates[1..], terminal);
      assert seen + [updates[0]] + updates[1..] == seen + updates;
    }
  }

  /**
   * A new reader that finds no terminal value opens a stream, and whatever
   * updates that has, the reader sees all of them in order.
   */
  lemma StreamsEverything<U(!new)>(st: State<U>, s: Subscriber, updates: seq<U>, terminal: U -> bool)
    requires s !in st.subscribers && (st.cache.Value? ==> !terminal(st.cache.update))
    ensures var events := [Read(s), Open(s)] + Updates(s, updates);
      && Feasible(st, events, terminal)
      && Exec(st, events, terminal) == st.(subscribers := st.subscribers[s := Streaming(updates)])
  {
    TwoSteps(st, Read(s), Open(s), terminal);
    var st2 := Apply(Apply(st, Read(s), terminal), Open(s), terminal);
    UpdatesAreSeen(st2, s, updates, terminal);
    assert st2.subscribers[s].seen + updates == updates;
    RunOn(st, [Read(s), Open(s)], Updates(s, updates), terminal);
    assert st2.subscribers[s := Streaming(updates)] == st.subscribers[s := Streaming(updates)];
  }

  /** If its last update is terminal, its end and the write after it put that into the cache. */
  lemma TerminalStreamIsCached<U(!new)>(st: State<U>, s: Subscriber, terminal: U -> bool)
    requires s in st.subscribers && st.subscribers[s].Streaming? && st.subscribers[s].seen != []
    requires var seen := st.subscribers[s].seen; terminal(seen[|seen| - 1])
    ensures var seen, events := st.subscribers[s].seen, [StreamEnd(s), Write(s, true)];
      && Feasible(st, events, terminal)
      && Exec(st, events, terminal) ==
         State(Value(seen[|seen| - 1]), st.subscribers[s := Done(Some(seen[|seen| - 1]))])
  {
    TwoSteps(st, StreamEnd(s), Write(s, true), terminal);
    var st2 := Apply(Apply(st, StreamEnd(s), terminal), Write(s, true), terminal);
    assert st2.subscribers == st.subscribers[s := Done(Last(st.subscribers[s].seen))];
  }

  /** A subscriber that is done keeps what it got. */
  lemma {:induction false} DoneStays<U(!new)>(
      st: State<U>, events: seq<Event<U>>, terminal: U -> bool, s: Subscriber)
    requires Feasible(st, events, terminal) && s in st.subscribers && st.subscribers[s].Done?
    ensures var end := Exec(st, events, terminal).subscribers; s in end && end[s] == st.subscribers[s]
    decreases |events|
  {
    if events != [] {
      DoneStays(Apply(st, events[0], terminal), events[1..], terminal, s);
    }
  }

  /** Only a write that succeeds changes the cache. */
  lemma {:induction false} OnlyWritesCache<U(!new)>(st: State<U>, events: seq<Event<U>>, terminal: U -> bool)
    requires Feasible(st, events, terminal) && forall e <- events :: e.Write? ==> !e.succeeds
    ensures Exec(st, events, terminal).cache == st.cache
    decreases |events|
  {
    if events != [] {
      OnlyWritesCache(Apply(st, events[0], terminal), events[1..], terminal);
    }
  }

  lemma {:induction false} AbandonedStays<U(!new)>(
      st: State<U>, events: seq<Event<U>>, terminal: U -> bool, s: Subscriber)
    requires Feasible(st, events, terminal) && s in st.subscribers && st.subscribers[s].Abandoned?
    ensures forall e <- events :: e.s == s ==> e.Abandon?
    decreases |events|
  {
    if events != [] {
      AbandonedStays(Apply(st, events[0], terminal), events[1..], terminal, s);
    }
  }

  /** A subscriber can be dropped at any time before it is done, and then writes nothing. */
  lemma AbandonStops<U(!new)>(st: State<U>, events: seq<Event<U>>, terminal: U -> bool, s: Subscriber)
    requires s in st.subscribers && !st.subscribers[s].Done?
    ensures Feasible(st, [Abandon(s)], terminal)
    ensures Feasible(st, [Abandon(s)] + events, terminal) ==> forall e <- events :: e.s == s ==> e.Abandon?
  {
    var all := [Abandon(s)] + events;
    assert all[1..] == events;
    if Feasible(st, all, terminal) {
      AbandonedStays(Apply(st, all[0], terminal), events, terminal, s);
    }
  }

  /** A stale terminal outcome is never corrected: one subscriber after another is served it. */
  lemma StaleTerminalSticks<U(!new)>(stale: U, terminal: U -> bool, s: Subscriber)
    requires terminal(stale)
    ensures var events := [Read(s), Open(s)];
      && Feasible(State(Value(stale), map[]), events, terminal)
      && Exec(State(Value(stale), map[]), events, terminal) == State(Value(stale), map[s := Done(Some(stale))])
  {
    ServedFromCache(State(Value(stale), map[]), s, terminal, stale);
    var none: map<Subscriber, Pc<U>> := map[];
    assert none[s := Done(Some(stale))] == map[s := Done(Some(stale))];
  }

  /** No interleaving of subscribers whose streams end on `v` serves anything else. */
  ghost predicate AlwaysServes<U(!new)>(initial: Cached<U>, terminal: U -> bool, v: U) {
    forall events | Feasible(State(initial, map[]), events, terminal)
                    && StreamsEndOn(State(initial, map[]), events, terminal, v) ::
      EveryoneGot(Exec(State(initial, map[]), events, terminal), v)
  }

  /** The cache is transparent exactly when it does not start as another terminal outcome. */
  lemma TransparentExactly<U(!new)>(initial: Cached<U>, terminal: U -> bool, v: U)
    requires terminal(v)
    ensures AlwaysServes(initial, terminal, v) <==> Agrees(initial, terminal, v)
  {
    if Agrees(initial, terminal, v) {
      forall events | Feasible(State(initial, map[]), events, terminal)
                      && StreamsEndOn(State(initial, map[]), events, terminal, v)
        ensures EveryoneGot(Exec(State(initial, map[]), events, terminal), v)
      {
        CacheIsTransparent(initial, events, terminal, v);
      }
    } else {
      StaleTerminalSticks(initial.update, terminal, 0);
      var st: State<U> := State(initial, map[]);
      var events: seq<Event<U>> := [Read(0), Open(0)];
      assert events[1..] == [Open(0)] && events[1..][1..] == [];
      assert StreamsEndOn(st, events, terminal, v);
      assert Exec(st, events, terminal).subscribers[0] == Done(Some(initial.update));
    }
  }
}
