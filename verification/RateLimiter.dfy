/** The in-memory sliding-window rate limiter and its background cleaner. */
module RateLimiter {

  /** One queue of accepted timestamps per key, oldest first. */
  type Store = map<string, seq<int>>

  datatype Decision = Passed | Refused | Panic

  const SECOND: nat := 1_000_000_000

  class InMemoryRateLimiter {
    var store: Store
    const expirationSeconds: int
    const cleaning: bool

    /** The expiration is given in nanoseconds; only a positive one starts the cleaner,
        which then compares whole seconds. */
    constructor (expiration: int)
      ensures store == map[] && cleaning == (expiration > 0)
      ensures cleaning ==> 0 <= expirationSeconds && expirationSeconds * 1_000_000_000 <= expiration < (expirationSeconds + 1) * 1_000_000_000
    {
      store := map[];
      cleaning := expiration > 0;
      expirationSeconds := expiration / SECOND;
    }

    /** A new key reserves room for its limit, which cannot be negative. */
    method Request(key: string, maxRequestNum: int, duration: int, now: int) returns (r: Decision)
      requires forall k | k in store :: store[k] != []
      modifies this`store
      ensures r.Panic? <==> Panics(old(store), key, maxRequestNum)
      ensures r.Passed? <==> Admits(old(store), key, maxRequestNum, duration, now)
      ensures store == AfterRequest(old(store), key, maxRequestNum, duration, now)
      ensures r.Passed? ==> store.Keys == old(store).Keys + {key} && store[key][|store[key]| - 1] == now
      ensures !r.Passed? ==> store == old(store)
      ensures forall k | k in old(store) && k != key :: k in store && store[k] == old(store)[k]
      ensures forall k | k in store :: store[k] != []
    {
      if key in store {
        var queue := store[key];
        if |queue| < maxRequestNum {
          store := store[key := queue + [now]];
          return Passed;
        } else {
          if now - queue[0] >= duration {
            queue := queue[1..];
            queue := queue + [now];
            store := store[key := queue];
            return Passed;
          } else {
            return Refused;
          }
        }
      } else {
        if maxRequestNum < 0 {
          return Panic;
        }
        store := store[key := []];
        store := store[key := store[key] + [now]];
        assert [] + [now] == [now];
      }
      return Passed;
    }

    /** One sweep of the cleaner. */
    method ClearExpiredItems(now: int)
      modifies this`store
      ensures store == AfterSweep(old(store), expirationSeconds, now)
      ensures forall k :: k in store <==>
                k in old(store) && old(store)[k] != [] && now - old(store)[k][|old(store)[k]| - 1] <= expirationSeconds
      ensures forall k | k in store :: k in old(store) && store[k] == old(store)[k]
    {
      var keys := store.Keys;
      while keys != {}
        invariant keys <= store.Keys <= old(store).Keys
        invariant forall k | k in store :: store[k] == old(store)[k]
        invariant forall k | k in old(store) && k !in keys :: k in store <==> !Stale(old(store)[k], expirationSeconds, now)
        decreases |keys|
      {
        var key :| key in keys;
        var queue := store[key];
        var size := |queue|;
        if size == 0 || now - queue[size - 1] > expirationSeconds {
          store := store - {key};
        }
        keys := keys - {key};
      }
    }
  }

  predicate Stale(queue: seq<int>, expiration: int, now: int) {
    |queue| == 0 || now - queue[|queue| - 1] > expiration
  }

  predicate Panics(store: Store, key: string, max: int) { key !in store && max < 0 }

  predicate Admits(store: Store, key: string, max: int, duration: int, now: int) {
    if key !in store then max >= 0 else |store[key]| < max || store[key] == [] || now - store[key][0] >= duration
  }

  function AfterRequest(store: Store, key: string, max: int, duration: int, now: int): Store {
    if !Admits(store, key, max, duration, now) then store
    else if key !in store then store[key := [now]]
    else if |store[key]| < max || store[key] == [] then store[key := store[key] + [now]]
    else store[key := store[key][1..] + [now]]
  }

  function AfterSweep(store: Store, expiration: int, now: int): Store {
    map k | k in store && !Stale(store[k], expiration, now) :: store[k]
  }

  // ------------------------------------------------------------- the history-based specification

  datatype Event =
    | Ask(key: string, duration: int, now: int)
    | Sweep(now: int)

  /** The accepted requests of every key, in order of time. */
  type History = map<string, seq<int>>

  function Accepted(h: History, key: string): seq<int> {
    if key in h then h[key] else []
  }

  function Recent(times: seq<int>, duration: int, now: int): nat {
    if times == [] then 0
    else Recent(times[..|times| - 1], duration, now) + if now - times[|times| - 1] < duration then 1 else 0
  }

  /** A request is let through when fewer than `max` accepted requests of its
      key lie less than `duration` seconds back. */
  predicate MayPass(h: History, key: string, max: int, duration: int, now: int) {
    Recent(Accepted(h, key), duration, now) < max
  }

  // ------------------------------------------------------------- runs

  /** The limit of each key is fixed; all keys are swept with one expiration, if at all. */
  datatype Config = Config(limit: map<string, int>, fallback: int, expiration: int, cleaner: bool) {
    function Limit(key: string): int { if key in limit then limit[key] else fallback }
  }

  datatype World = World(store: Store, history: History, clock: int, sound: bool)

  /** The limiter takes its own decision; the history records it, and `sound`
      remembers whether every decision so far was the specified one. */
  function Step(c: Config, w: World, e: Event): World {
    match e
    case Ask(key, duration, now) =>
      var ok := Admits(w.store, key, c.Limit(key), duration, now);
      World(AfterRequest(w.store, key, c.Limit(key), duration, now),
            if ok then w.history[key := Accepted(w.history, key) + [now]] else w.history,
            now,
            w.sound && !Panics(w.store, key, c.Limit(key)) && ok == MayPass(w.history, key, c.Limit(key), duration, now))
    case Sweep(now) =>
      World(AfterSweep(w.store, c.expiration, now), w.history, now, w.sound)
  }

  function Run(c: Config, w: World, events: seq<Event>): World
    decreases |events|
  {
    if events == [] then w else Run(c, Step(c, w, events[0]), events[1..])
  }

  function Start(clock: int): World { World(map[], map[], clock, true) }

  predicate Monotone(clock: int, events: seq<Event>) {
    && (forall i | 0 <= i < |events| :: clock <= events[i].now)
    && (forall i, j | 0 <= i < j < |events| :: events[i].now <= events[j].now)
  }

  /** The longest window the cleaner respects: it only drops queues whose newest
      entry is at least expiration + 1 whole seconds old. */
  predicate WithinExpiration(c: Config, events: seq<Event>) {
    forall i | 0 <= i < |events| && events[i].Ask? :: events[i].duration <= c.expiration + 1
  }

  /** Without a cleaner nothing is swept. */
  predicate Possible(c: Config, events: seq<Event>) {
    c.cleaner || forall i | 0 <= i < |events| :: !events[i].Sweep?
  }

  /** No cleaner, or no window beyond its horizon. */
  predicate Respected(c: Config, events: seq<Event>) {
    Possible(c, events) && (c.cleaner ==> WithinExpiration(c, events))
  }

  // ------------------------------------------------------------- what every step keeps

  predicate Sorted(times: seq<int>) {
    forall i, j | 0 <= i < j < |times| :: times[i] <= times[j]
  }

  /** The queue is the newest part of the accepted requests. What fell out of it
      either made room for newer ones, or was too old to matter when it was swept. */
  ghost predicate Tracks(c: Config, key: string, queue: seq<int>, times: seq<int>, clock: int) {
    && |queue| <= |times| && queue == times[|times| - |queue|..]
    && |queue| <= c.Limit(key)
    && Sorted(times) && (forall i | 0 <= i < |times| :: times[i] <= clock)
    && (|queue| < c.Limit(key) ==>
          forall i | 0 <= i < |times| - |queue| :: clock - times[i] > c.expiration)
  }

  function Queue(store: Store, key: string): seq<int> { if key in store then store[key] else [] }

  ghost predicate Inv(c: Config, w: World) {
    && (forall key :: Tracks(c, key, Queue(w.store, key), Accepted(w.history, key), w.clock))
    && (forall key | key in w.store :: w.store[key] != [])
  }

  lemma {:induction false} RecentBound(times: seq<int>, duration: int, now: int, aged: nat)
    requires aged <= |times|
    requires forall i | 0 <= i < aged :: now - times[i] >= duration
    ensures Recent(times, duration, now) <= |times| - aged
  {
    if |times| > aged {
      RecentBound(times[..|times| - 1], duration, now, aged);
    } else if times != [] {
      RecentBound(times[..|times| - 1], duration, now, aged - 1);
    }
  }

  lemma {:induction false} RecentAll(times: seq<int>, duration: int, now: int, young: nat)
    requires young <= |times|
    requires forall i | |times| - young <= i < |times| :: now - times[i] < duration
    ensures Recent(times, duration, now) >= young
  {
    if young > 0 {
      RecentAll(times[..|times| - 1], duration, now, young - 1);
    }
  }

  /** One decision: the bounded queue answers exactly what the full history answers. */
  lemma DecisionIsExact(c: Config, key: string, queue: seq<int>, times: seq<int>, clock: int, duration: int, now: int)
    requires Tracks(c, key, queue, times, clock) && clock <= now
    requires 1 <= c.Limit(key) && duration <= c.expiration + 1
    ensures Passes(queue, c.Limit(key), duration, now) <==> Recent(times, duration, now) < c.Limit(key)
  {
    var n, q := |times|, |queue|;
    if q < c.Limit(key) {
      RecentBound(times, duration, now, n - q);
    } else if now - queue[0] >= duration {
      assert forall i | 0 <= i < n - q + 1 :: times[i] <= times[n - q];
      RecentBound(times, duration, now, n - q + 1);
    } else {
      RecentAll(times, duration, now, q);
    }
  }

  /** An accepted request joins both the queue, which drops its oldest entry when full, and the history. */
  lemma TracksGrows(c: Config, key: string, queue: seq<int>, times: seq<int>, clock: int, now: int)
    requires Tracks(c, key, queue, times, clock) && clock <= now && 1 <= c.Limit(key)
    ensures Tracks(c, key, Kept(queue, c.Limit(key)) + [now], times + [now], now)
  {
    var kept := Kept(queue, c.Limit(key));
    assert (times + [now])[|times| - |kept|..] == times[|times| - |kept|..] + [now];
  }

  lemma TracksAges(c: Config, key: string, queue: seq<int>, times: seq<int>, clock: int, now: int)
    requires Tracks(c, key, queue, times, clock) && clock <= now
    ensures Tracks(c, key, queue, times, now)
  {
  }

  predicate Passes(queue: seq<int>, max: int, duration: int, now: int) {
    queue == [] || |queue| < max || now - queue[0] >= duration
  }

  function Kept(queue: seq<int>, max: int): seq<int> {
    if queue == [] || |queue| < max then queue else queue[1..]
  }

  /** What a request does, in terms of queues and histories. */
  lemma AskOnKey(c: Config, w: World, key: string, duration: int, now: int, k: string)
    requires 0 <= c.Limit(key) && forall q | q in w.store :: w.store[q] != []
    ensures var v := Step(c, w, Ask(key, duration, now));
      var queue, max := Queue(w.store, key), c.Limit(key);
      && v.clock == now
      && v.sound == (w.sound && Passes(queue, max, duration, now) == (Recent(Accepted(w.history, key), duration, now) < max))
      && (forall q | q in v.store :: v.store[q] != [])
      && if k == key && Passes(queue, max, duration, now)
         then Queue(v.store, k) == Kept(queue, max) + [now] && Accepted(v.history, k) == Accepted(w.history, k) + [now]
         else Queue(v.store, k) == Queue(w.store, k) && Accepted(v.history, k) == Accepted(w.history, k)
  {
    assert [] + [now] == [now];
  }

  lemma AskKeeps(c: Config, w: World, key: string, duration: int, now: int)
    requires Inv(c, w) && w.clock <= now && 1 <= c.Limit(key) && duration <= c.expiration + 1
    ensures var v := Step(c, w, Ask(key, duration, now)); Inv(c, v) && v.sound == w.sound
  {
    hide Tracks, Queue, Accepted, Step, Recent, Passes, Kept;
    var v := Step(c, w, Ask(key, duration, now));
    var queue, times := Queue(w.store, key), Accepted(w.history, key);
    assert Tracks(c, key, queue, times, w.clock);
    DecisionIsExact(c, key, queue, times, w.clock, duration, now);
    TracksGrows(c, key, queue, times, w.clock, now);
    AskOnKey(c, w, key, duration, now, key);
    forall k
      ensures Tracks(c, k, Queue(v.store, k), Accepted(v.history, k), v.clock)
    {
      assert Tracks(c, k, Queue(w.store, k), Accepted(w.history, k), w.clock);
      TracksAges(c, k, Queue(w.store, k), Accepted(w.history, k), w.clock, now);
      AskOnKey(c, w, key, duration, now, k);
    }
  }

  /** A queue that is swept held nothing that still matters. */
  lemma SweptTracks(c: Config, key: string, queue: seq<int>, times: seq<int>, clock: int, now: int)
    requires Tracks(c, key, queue, times, clock) && clock <= now && queue != [] && Stale(queue, c.expiration, now)
    ensures Tracks(c, key, [], times, now)
  {
    assert queue[|queue| - 1] == times[|times| - 1];
    assert forall i | 0 <= i < |times| :: times[i] <= times[|times| - 1];
    assert times[|times|..] == [];
  }

  lemma SweepKeeps(c: Config, w: World, now: int)
    requires Inv(c, w) && w.clock <= now && forall key :: 1 <= c.Limit(key)
    ensures Inv(c, Step(c, w, Sweep(now)))
  {
    hide Tracks, Accepted;
    var v := Step(c, w, Sweep(now));
    forall k
      ensures Tracks(c, k, Queue(v.store, k), Accepted(v.history, k), v.clock)
    {
      var queue, times := Queue(w.store, k), Accepted(w.history, k);
      assert Tracks(c, k, queue, times, w.clock);
      if k in w.store && k !in v.store {
        SweptTracks(c, k, queue, times, w.clock, now);
      } else {
        TracksAges(c, k, queue, times, w.clock, now);
      }
    }
  }

  lemma StepKeeps(c: Config, w: World, e: Event)
    requires Inv(c, w) && w.clock <= e.now && forall key :: 1 <= c.Limit(key)
    requires e.Ask? ==> e.duration <= c.expiration + 1
    ensures Inv(c, Step(c, w, e)) && Step(c, w, e).sound == w.sound && Step(c, w, e).clock == e.now
  {
    hide Inv;
    if e.Ask? {
      AskKeeps(c, w, e.key, e.duration, e.now);
    } else {
      SweepKeeps(c, w, e.now);
    }
  }

  lemma Tail(c: Config, clock: int, events: seq<Event>)
    requires events != [] && Monotone(clock, events) && WithinExpiration(c, events)
    ensures clock <= events[0].now && (events[0].Ask? ==> events[0].duration <= c.expiration + 1)
    ensures Monotone(events[0].now, events[1..]) && WithinExpiration(c, events[1..])
  {
  }

  lemma {:induction false} RunKeeps(c: Config, w: World, events: seq<Event>)
    requires Inv(c, w) && w.sound && forall key :: 1 <= c.Limit(key)
    requires Monotone(w.clock, events) && WithinExpiration(c, events)
    ensures Inv(c, Run(c, w, events)) && Run(c, w, events).sound
    decreases |events|
  {
    hide Inv, Step, Monotone, WithinExpiration;
    if events != [] {
      Tail(c, w.clock, events);
      StepKeeps(c, w, events[0]);
      RunKeeps(c, Step(c, w, events[0]), events[1..]);
    }
  }

  // ------------------------------------------------------------- the theorems

  lemma SweptLimiterIsExact(c: Config, clock: int, events: seq<Event>)
    requires forall key :: 1 <= c.Limit(key)
    requires Monotone(clock, events) && WithinExpiration(c, events)
    ensures Run(c, Start(clock), events).sound
    ensures forall key | key in Run(c, Start(clock), events).store ::
              1 <= |Run(c, Start(clock), events).store[key]| <= c.Limit(key)
  {
    RunKeeps(c, Start(clock), events);
    var w := Run(c, Start(clock), events);
    forall key | key in w.store
      ensures 1 <= |w.store[key]| <= c.Limit(key)
    {
      assert Tracks(c, key, Queue(w.store, key), Accepted(w.history, key), w.clock);
    }
  }

  /** Two configurations cannot be told apart by a run that only asks for keys with the same
      limit and is swept alike or not at all. */
  predicate SeenAlike(c: Config, d: Config, events: seq<Event>) {
    forall i | 0 <= i < |events| ::
      if events[i].Ask? then c.Limit(events[i].key) == d.Limit(events[i].key) else c.expiration == d.expiration
  }

  lemma {:induction false} SameRun(c: Config, d: Config, w: World, events: seq<Event>)
    requires SeenAlike(c, d, events)
    ensures Run(c, w, events) == Run(d, w, events)
    decreases |events|
  {
    if events != [] {
      assert Step(c, w, events[0]) == Step(d, w, events[0]);
      hide Step;
      SameRun(c, d, Step(c, w, events[0]), events[1..]);
    }
  }

  function Longest(events: seq<Event>): (n: nat)
    ensures forall i | 0 <= i < |events| && events[i].Ask? :: events[i].duration <= n
  {
    if events == [] then 0
    else
      var rest, last := Longest(events[..|events| - 1]), events[|events| - 1];
      if last.Ask? && last.duration > rest then last.duration else rest
  }

  /** Without sweeps every horizon gives the same run. */
  lemma Unswept(c: Config, horizon: int, w: World, events: seq<Event>)
    requires !c.cleaner && Possible(c, events)
    ensures Run(c, w, events) == Run(c.(expiration := horizon), w, events)
  {
    hide Run;
    var d := c.(expiration := horizon);
    assert forall key :: c.Limit(key) == d.Limit(key);
    SameRun(c, d, w, events);
  }

  /** Over every run, with sweeps interleaved anywhere, every decision is the
      specified one, and no queue outgrows the limit of its key. */
  lemma LimiterIsExact(c: Config, clock: int, events: seq<Event>)
    requires forall key :: 1 <= c.Limit(key)
    requires Monotone(clock, events) && Respected(c, events)
    ensures Run(c, Start(clock), events).sound
    ensures forall key | key in Run(c, Start(clock), events).store ::
              1 <= |Run(c, Start(clock), events).store[key]| <= c.Limit(key)
  {
    hide Run, Start, Monotone;
    if c.cleaner {
      SweptLimiterIsExact(c, clock, events);
    } else {
      var d := c.(expiration := Longest(events));
      Unswept(c, Longest(events), Start(clock), events);
      assert forall key :: c.Limit(key) == d.Limit(key);
      SweptLimiterIsExact(d, clock, events);
    }
  }

  ghost predicate Spaced(times: seq<int>, max: int, duration: int) {
    forall i, j | 0 <= i && i + max <= j < |times| && 0 <= max :: times[j] - times[i] >= duration
  }

  lemma SpacingGrows(c: Config, key: string, queue: seq<int>, times: seq<int>, clock: int, duration: int, now: int)
    requires Tracks(c, key, queue, times, clock) && clock <= now
    requires 1 <= c.Limit(key) && duration <= c.expiration + 1
    requires Passes(queue, c.Limit(key), duration, now)
    requires Spaced(times, c.Limit(key), duration)
    ensures Spaced(times + [now], c.Limit(key), duration)
  {
  }

  lemma SpacedStep(c: Config, w: World, e: Event, key: string, duration: int)
    requires Inv(c, w) && w.clock <= e.now && (forall k :: 1 <= c.Limit(k)) && duration <= c.expiration + 1
    requires e.Ask? && e.key == key ==> e.duration == duration
    requires Spaced(Accepted(w.history, key), c.Limit(key), duration)
    ensures Spaced(Accepted(Step(c, w, e).history, key), c.Limit(key), duration)
  {
    if e.Ask? {
      hide Tracks, Queue, Accepted, Step, Recent, Passes, Kept, Spaced;
      AskOnKey(c, w, e.key, e.duration, e.now, key);
      var queue, times := Queue(w.store, key), Accepted(w.history, key);
      assert Tracks(c, key, queue, times, w.clock);
      if e.key == key && Passes(queue, c.Limit(key), duration, e.now) {
        SpacingGrows(c, key, queue, times, w.clock, duration, e.now);
      }
    }
  }

  ghost predicate Names(events: seq<Event>, key: string, duration: int) {
    forall i | 0 <= i < |events| && events[i].Ask? && events[i].key == key :: events[i].duration == duration
  }

  lemma NamesTail(events: seq<Event>, key: string, duration: int)
    requires events != [] && Names(events, key, duration)
    ensures Names(events[1..], key, duration) && (events[0].Ask? && events[0].key == key ==> events[0].duration == duration)
  {
  }

  lemma {:induction false} SpacedRun(c: Config, w: World, events: seq<Event>, key: string, duration: int)
    requires Inv(c, w) && (forall k :: 1 <= c.Limit(k)) && duration <= c.expiration + 1
    requires Monotone(w.clock, events) && WithinExpiration(c, events) && Names(events, key, duration)
    requires Spaced(Accepted(w.history, key), c.Limit(key), duration)
    ensures Spaced(Accepted(Run(c, w, events).history, key), c.Limit(key), duration)
    decreases |events|
  {
    hide Inv, Step, Spaced, Monotone, WithinExpiration, Names, Accepted;
    if events != [] {
      NamesTail(events, key, duration);
      Tail(c, w.clock, events);
      StepKeeps(c, w, events[0]);
      SpacedStep(c, w, events[0], key, duration);
      SpacedRun(c, Step(c, w, events[0]), events[1..], key, duration);
    }
  }

  lemma SweptAcceptsAreSpaced(c: Config, clock: int, events: seq<Event>, key: string, duration: int)
    requires (forall k :: 1 <= c.Limit(k)) && duration <= c.expiration + 1
    requires Monotone(clock, events) && WithinExpiration(c, events) && Names(events, key, duration)
    ensures Spaced(Accepted(Run(c, Start(clock), events).history, key), c.Limit(key), duration)
  {
    assert Inv(c, Start(clock));
    hide Inv, Run;
    SpacedRun(c, Start(clock), events, key, duration);
  }

  /** How many of the times lie in the window. */
  lemma {:induction false} RecentIs(times: seq<int>, duration: int, now: int)
    ensures Recent(times, duration, now) == |InWindow(times, duration, now)|
  {
    if times != [] {
      var before, n := times[..|times| - 1], |times| - 1;
      RecentIs(before, duration, now);
      assert InWindow(times, duration, now) == InWindow(before, duration, now) + if now - times[n] < duration then {n} else {};
    }
  }

  ghost function InWindow(times: seq<int>, duration: int, now: int): set<int> {
    set i | 0 <= i < |times| && now - times[i] < duration
  }

  /** Every decision of every run: a request passes exactly when fewer of the accepted requests of
      its key than the limit lie less than the window back, and exactly then it is accepted itself. */
  lemma EveryDecisionIsExact(c: Config, clock: int, events: seq<Event>, key: string, duration: int, now: int)
    requires forall k :: 1 <= c.Limit(k)
    requires Monotone(clock, events + [Ask(key, duration, now)]) && Respected(c, events + [Ask(key, duration, now)])
    ensures var w, end := Run(c, Start(clock), events), Run(c, Start(clock), events + [Ask(key, duration, now)]);
      var times := Accepted(w.history, key);
      var ok := |set i | 0 <= i < |times| && now - times[i] < duration| < c.Limit(key);
      && (Admits(w.store, key, c.Limit(key), duration, now) <==> ok)
      && Accepted(end.history, key) == (if ok then times + [now] else times)
  {
    hide Run, Monotone, Respected, Recent;
    var w, e := Run(c, Start(clock), events), Ask(key, duration, now);
    LimiterIsExact(c, clock, events + [e]);
    RunAppend(c, Start(clock), events, e);
    RecentIs(Accepted(w.history, key), duration, now);
  }

  /** Consequence for the caller: when the requests for a key all name the same
      window, any max + 1 consecutive accepted requests of that key span at least
      that window. */
  lemma AcceptsAreSpaced(c: Config, clock: int, events: seq<Event>, key: string, duration: int)
    requires (forall k :: 1 <= c.Limit(k)) && (c.cleaner ==> duration <= c.expiration + 1)
    requires Monotone(clock, events) && Respected(c, events) && Names(events, key, duration)
    ensures Spaced(Accepted(Run(c, Start(clock), events).history, key), c.Limit(key), duration)
  {
    hide Run, Start, Monotone, Names, Spaced, Accepted;
    if c.cleaner {
      SweptAcceptsAreSpaced(c, clock, events, key, duration);
    } else {
      var horizon := Longest(events) + if duration > 0 then duration else 0;
      var d := c.(expiration := horizon);
      Unswept(c, horizon, Start(clock), events);
      assert forall k :: c.Limit(k) == d.Limit(k);
      SweptAcceptsAreSpaced(d, clock, events, key, duration);
    }
  }

  lemma {:induction false} QueueIsShort(c: Config, w: World, events: seq<Event>, key: string)
    requires |Queue(w.store, key)| <= |Accepted(w.history, key)|
    ensures |Queue(Run(c, w, events).store, key)| <= |Accepted(Run(c, w, events).history, key)|
    decreases |events|
  {
    if events != [] {
      assert |Queue(Step(c, w, events[0]).store, key)| <= |Accepted(Step(c, w, events[0]).history, key)|;
      hide Step, Queue, Accepted;
      QueueIsShort(c, Step(c, w, events[0]), events[1..], key);
    }
  }

  /** In every run whatever, a key that had fewer accepted requests than its limit so far is
      let through, at any time and for any window. */
  lemma FirstRequestsPass(c: Config, clock: int, events: seq<Event>, key: string, duration: int, now: int)
    requires |Accepted(Run(c, Start(clock), events).history, key)| < c.Limit(key)
    ensures Admits(Run(c, Start(clock), events).store, key, c.Limit(key), duration, now)
  {
    hide Run;
    QueueIsShort(c, Start(clock), events, key);
  }

  // ------------------------------------------------------------- exactly when it is exact

  /** All requests of a run are for one key with one window. */
  ghost predicate Uniform(events: seq<Event>, key: string, duration: int) {
    forall i | 0 <= i < |events| && events[i].Ask? :: events[i].key == key && events[i].duration == duration
  }

  lemma {:induction false} RunAppend(c: Config, w: World, a: seq<Event>, e: Event)
    ensures Run(c, w, a + [e]) == Step(c, Run(c, w, a), e)
    decreases |a|
  {
    if a == [] {
      assert a + [e] == [e];
    } else {
      assert (a + [e])[1..] == a[1..] + [e];
      RunAppend(c, Step(c, w, a[0]), a[1..], e);
    }
  }

  function Burst(key: string, duration: int, n: nat): seq<Event> {
    if n == 0 then [] else Burst(key, duration, n - 1) + [Ask(key, duration, 0)]
  }

  function Zeros(n: nat): seq<int> {
    if n == 0 then [] else Zeros(n - 1) + [0]
  }

  ghost predicate Filled(w: World, key: string, n: nat) {
    && Queue(w.store, key) == Accepted(w.history, key) == Zeros(n) && w.clock == 0
    && (forall q | q in w.store :: w.store[q] != [])
  }

  lemma {:induction false} ZerosAreZero(n: nat)
    ensures |Zeros(n)| == n && forall i | 0 <= i < n :: Zeros(n)[i] == 0
  {
    if n > 0 {
      ZerosAreZero(n - 1);
    }
  }

  lemma {:induction false} BurstAsks(key: string, duration: int, n: nat)
    ensures |Burst(key, duration, n)| == n
    ensures forall i | 0 <= i < n :: Burst(key, duration, n)[i] == Ask(key, duration, 0)
  {
    if n > 0 {
      BurstAsks(key, duration, n - 1);
    }
  }

  /** The first requests of a key, all in one second, fill its queue. */
  lemma {:induction false} BurstFills(c: Config, key: string, duration: int, n: nat)
    requires n <= c.Limit(key)
    ensures Filled(Run(c, Start(0), Burst(key, duration, n)), key, n)
  {
    if n > 0 {
      BurstFills(c, key, duration, n - 1);
      ZerosAreZero(n - 1);
      var w := Run(c, Start(0), Burst(key, duration, n - 1));
      AskOnKey(c, w, key, duration, 0, key);
      RunAppend(c, Start(0), Burst(key, duration, n - 1), Ask(key, duration, 0));
      hide Run, Step, Queue, Accepted;
      assert Filled(Run(c, Start(0), Burst(key, duration, n)), key, n);
    }
  }

  lemma SweptTooSoon(c: Config, w: World, key: string, duration: int)
    requires 1 <= c.Limit(key) && c.expiration + 1 < duration && Filled(w, key, c.Limit(key))
    ensures !Step(c, Step(c, w, Sweep(c.expiration + 1)), Ask(key, duration, c.expiration + 1)).sound
  {
    var now := c.expiration + 1;
    var swept := Step(c, w, Sweep(now));
    ZerosAreZero(c.Limit(key));
    assert Stale(w.store[key], c.expiration, now);
    assert key !in swept.store;
    RecentAll(Accepted(swept.history, key), duration, now, c.Limit(key));
  }

  function TooSoon(key: string, duration: int, max: nat, now: int): seq<Event> {
    Burst(key, duration, max) + [Sweep(now)] + [Ask(key, duration, now)]
  }

  lemma TooSoonIsARun(key: string, duration: int, max: nat, now: int)
    requires 0 <= now
    ensures Uniform(TooSoon(key, duration, max, now), key, duration) && Monotone(0, TooSoon(key, duration, max, now))
  {
    BurstAsks(key, duration, max);
    hide Burst;
    var events := TooSoon(key, duration, max, now);
    assert forall i | 0 <= i < |events| ::
      events[i] == if i < max then Ask(key, duration, 0) else if i == max then Sweep(now) else Ask(key, duration, now);
  }

  /** A window longer than the cleaner's horizon is cut short: a full queue is
      swept, and the next request passes although it should wait. */
  lemma LongWindowIsCut(c: Config, key: string, duration: int)
    requires 1 <= c.Limit(key) && 0 <= c.expiration && c.expiration + 1 < duration
    ensures exists events :: Uniform(events, key, duration) && Monotone(0, events) && !Run(c, Start(0), events).sound
  {
    var max, now := c.Limit(key), c.expiration + 1;
    var burst := Burst(key, duration, max);
    BurstFills(c, key, duration, max);
    SweptTooSoon(c, Run(c, Start(0), burst), key, duration);
    hide Filled, Run, Step, Burst, Uniform, Monotone;
    RunAppend(c, Start(0), burst, Sweep(now));
    RunAppend(c, Start(0), burst + [Sweep(now)], Ask(key, duration, now));
    TooSoonIsARun(key, duration, max, now);
    assert !Run(c, Start(0), TooSoon(key, duration, max, now)).sound;
  }

  lemma ExactAlone(c: Config, key: string, duration: int, events: seq<Event>)
    requires 1 <= c.Limit(key) && (c.cleaner ==> duration <= c.expiration + 1)
    requires Uniform(events, key, duration) && Monotone(0, events) && Possible(c, events)
    ensures Run(c, Start(0), events).sound
  {
    hide Run, Start, Monotone;
    var alone := Config(map[], c.Limit(key), c.expiration, c.cleaner);
    SameRun(c, alone, Start(0), events);
    LimiterIsExact(alone, 0, events);
  }

  lemma NoLimitIsNotExact(c: Config, key: string, duration: int)
    requires c.Limit(key) < 1
    ensures var events := [Ask(key, duration, 0)];
            Uniform(events, key, duration) && Monotone(0, events) && Possible(c, events) && !Run(c, Start(0), events).sound
  {
    var events := [Ask(key, duration, 0)];
    assert events[1..] == [];
    assert !Step(c, Start(0), events[0]).sound;
  }

  /** The limiter is exact on every run of a key exactly when its limit is positive and, if
      there is a cleaner, its window is at most one second longer than the expiration. */
  lemma ExactWhen(c: Config, key: string, duration: int)
    requires c.cleaner ==> 0 <= c.expiration
    ensures (1 <= c.Limit(key) && (c.cleaner ==> duration <= c.expiration + 1)) <==>
            (forall events | Uniform(events, key, duration) && Monotone(0, events) && Possible(c, events) ::
               Run(c, Start(0), events).sound)
  {
    hide Run, Start, Monotone, Uniform;
    if c.Limit(key) < 1 {
      NoLimitIsNotExact(c, key, duration);
    } else if c.cleaner && c.expiration + 1 < duration {
      LongWindowIsCut(c, key, duration);
    } else {
      forall events | Uniform(events, key, duration) && Monotone(0, events) && Possible(c, events)
        ensures Run(c, Start(0), events).sound
      {
        ExactAlone(c, key, duration, events);
      }
    }
  }
}
