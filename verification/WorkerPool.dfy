/** The bounded worker pool that runs the channel tests: a dispatcher, a fixed
    number of workers, a closer and a reducer, talking over the unbuffered
    channels `jobs` and `results`, with a context that may be cancelled at any
    moment. Every goroutine's blocking point is a place where a schedule may
    switch, so the pool is a step relation over these places. */
module WorkerPool {
  import opened Basics

  datatype Summary = Summary(tested: int, succeeded: int, failed: int, disabled: int, enabled: int)

  const ZERO := Summary(0, 0, 0, 0, 0)

  function Plus(a: Summary, b: Summary): Summary {
    Summary(a.tested + b.tested, a.succeeded + b.succeeded, a.failed + b.failed,
            a.disabled + b.disabled, a.enabled + b.enabled)
  }

  /** The counters a test cycle may show: every tested channel either succeeded
      or failed, and at most one status change is recorded per tested channel. */
  predicate Balanced(s: Summary) {
    && s.tested == s.succeeded + s.failed
    && 0 <= s.succeeded && 0 <= s.failed && 0 <= s.disabled && 0 <= s.enabled
    && s.disabled + s.enabled <= s.tested
  }

  /** What the outside world decides during one channel test. */
  datatype Probe = Probe(
    cancelled: bool,          // ctx.Err() != nil after the test
    channelEnabled: bool,
    apiError: bool,           // the test returned an upstream error
    localError: bool,
    verdictDisable: bool,     // ShouldDisableChannel on that error
    milliseconds: int,
    autoBan: bool,
    enableAfterError: bool,   // ShouldEnableChannel when an error remains
    enableAfterSuccess: bool) // ShouldEnableChannel when none remains

  method TestChannelForHealthCheck(p: Probe, allowDisable: bool, automaticDisable: bool, threshold: int)
    returns (summary: Summary)
    ensures Balanced(summary)
    ensures p.cancelled <==> summary == ZERO
    ensures summary.tested <= 1
    ensures summary.disabled == 1 <==>
              && !p.cancelled && allowDisable && p.channelEnabled && p.autoBan
              && ((p.apiError && p.verdictDisable) || (automaticDisable && p.milliseconds > threshold))
    ensures summary.enabled == 1 <==>
              && !p.cancelled && !p.channelEnabled && !p.localError
              && (if summary.failed == 1 then p.enableAfterError else p.enableAfterSuccess)
    ensures summary.failed == 1 <==> !p.cancelled && (p.apiError || (automaticDisable && p.milliseconds > threshold))
  {
    summary := ZERO;
    if p.cancelled {
      return;
    }
    summary := summary.(tested := summary.tested + 1);
    var shouldBan := false;
    var failed := p.apiError;
    if p.apiError {
      shouldBan := p.verdictDisable;
    }
    if automaticDisable && !shouldBan {
      if p.milliseconds > threshold {
        failed := true;
        shouldBan := true;
      }
    }
    if !failed {
      summary := summary.(succeeded := summary.succeeded + 1);
    } else {
      summary := summary.(failed := summary.failed + 1);
    }
    if allowDisable && p.channelEnabled && shouldBan && p.autoBan {
      summary := summary.(disabled := summary.disabled + 1);
    }
    if !p.localError && !p.channelEnabled && (if failed then p.enableAfterError else p.enableAfterSuccess) {
      summary := summary.(enabled := summary.enabled + 1);
    }
  }

  const DEFAULT_CONCURRENCY := 1
  const MAX_CONCURRENCY := 32

  function NormalizeConcurrency(concurrency: int): (n: nat)
    ensures 1 <= n <= 32 && (1 <= concurrency <= 32 ==> n == concurrency)
    ensures (concurrency < 1 ==> n == 1) && (concurrency > 32 ==> n == 32)
  {
    if concurrency < 1 then DEFAULT_CONCURRENCY
    else if concurrency > MAX_CONCURRENCY then MAX_CONCURRENCY
    else concurrency
  }

  // ---------------------------------------------------------------- the machine

  datatype Worker =
    | Waiting                              // in the select on ctx.Done and jobs
    | Received(pos: nat)                   // a job is in hand, ctx not yet looked at
    | Running(pos: nat)                    // inside run
    | Sending(pos: nat, result: Summary)   // blocked on results <- result
    | Pausing                              // between two jobs
    | Done

  datatype Reducer = Receiving | Reporting | Returned

  /** `skip[p]` says that position p holds a nil or manually disabled channel,
      for which run is not called. */
  datatype State = State(
    skip: seq<bool>,
    next: nat, jobsClosed: bool,           // the dispatcher
    workers: seq<Worker>,
    resultsClosed: bool,                   // the closer
    cancelled: bool,
    reducer: Reducer, summary: Summary, processed: nat, reports: seq<nat>,
    started: multiset<nat>,                // log: how often each position was handed to run
    dropped: set<nat>,                     // log: received after a cancellation, never run
    counted: map<nat, Summary>)            // log: positions whose result reached the reducer

  /** What one worker does next; a rendezvous is written on the worker's side. */
  datatype Move =
    | Take                       // a job from the dispatcher
    | Quit | Drop                // leave on ctx.Done or a closed jobs channel; leave with a job in hand
    | Start | Finish(result: Summary)
    | Deliver                    // the result to the reducer
    | Wake

  datatype Action = Cancel | StopDispatch | Work(w: nat, move: Move) | Report | CloseResults | Return

  function AllWaiting(n: nat): (ws: seq<Worker>)
    ensures |ws| == n && forall w | 0 <= w < n :: ws[w] == Waiting
  {
    if n == 0 then [] else AllWaiting(n - 1) + [Waiting]
  }

  function Init(skip: seq<bool>, concurrency: int): State {
    var total := |skip|;
    if total == 0 then
      State(skip, 0, true, [], true, false, Returned, ZERO, 0, [0], multiset{}, {}, map[])
    else
      State(skip, 0, false, AllWaiting(Min(NormalizeConcurrency(concurrency), total)),
            false, false, Receiving, ZERO, 0, [0], multiset{}, {}, map[])
  }

  predicate CanMove(s: State, w: Worker, m: Move) {
    match m
    case Take => w.Waiting? && !s.jobsClosed && s.next < |s.skip|
    case Quit => (w.Waiting? && (s.cancelled || s.jobsClosed)) || (w.Pausing? && s.cancelled)
    case Drop => w.Received? && s.cancelled
    case Start => w.Received? && !s.cancelled && w.pos < |s.skip|
    case Finish(_) => w.Running?
    case Deliver => w.Sending? && s.reducer.Receiving?
    case Wake => w.Pausing?
  }

  predicate Enabled(s: State, a: Action) {
    match a
    case Cancel => !s.cancelled
    case StopDispatch => !s.jobsClosed && (s.cancelled || s.next == |s.skip|)
    case Work(w, m) => w < |s.workers| && CanMove(s, s.workers[w], m)
    case Report => s.reducer.Reporting?
    case CloseResults => !s.resultsClosed && forall w | 0 <= w < |s.workers| :: s.workers[w].Done?
    case Return => s.resultsClosed && s.reducer.Receiving?
  }

  function Moved(s: State, w: Worker, m: Move): Worker
    requires CanMove(s, w, m)
  {
    match m
    case Take => Received(s.next)
    case Quit => Done
    case Drop => Done
    case Start => if s.skip[w.pos] then Sending(w.pos, ZERO) else Running(w.pos)
    case Finish(result) => Sending(w.pos, result)
    case Deliver => Pausing
    case Wake => Waiting
  }

  /** What a worker's move does to everything but the worker. */
  function Effect(s: State, w: Worker, m: Move): State
    requires CanMove(s, w, m)
  {
    match m
    case Take => s.(next := s.next + 1)
    case Drop => s.(dropped := s.dropped + {w.pos})
    case Start => if s.skip[w.pos] then s else s.(started := s.started + multiset{w.pos})
    case Deliver => s.(reducer := Reporting, summary := Plus(s.summary, w.result),
                       processed := s.processed + 1, counted := s.counted[w.pos := w.result])
    case _ => s
  }

  function Apply(s: State, a: Action): State
    requires Enabled(s, a)
  {
    match a
    case Cancel => s.(cancelled := true)
    case StopDispatch => s.(jobsClosed := true)
    case Work(w, m) => Effect(s, s.workers[w], m).(workers := s.workers[w := Moved(s, s.workers[w], m)])
    case Report => s.(reducer := Receiving,
                      reports := if s.cancelled then s.reports else s.reports + [s.processed])
    case CloseResults => s.(resultsClosed := true)
    case Return => s.(reducer := Returned)
  }

  /** A schedule is a list of actions, each enabled where it is taken. */
  ghost predicate Schedule(s: State, actions: seq<Action>)
    decreases |actions|
  {
    actions == [] || (Enabled(s, actions[0]) && Schedule(Apply(s, actions[0]), actions[1..]))
  }

  ghost function Outcome(s: State, actions: seq<Action>): State
    requires Schedule(s, actions)
    decreases |actions|
  {
    if actions == [] then s else Outcome(Apply(s, actions[0]), actions[1..])
  }

  /** Nothing is left running: the caller has its summary and every goroutine ended. */
  predicate Final(s: State) {
    s.reducer.Returned? && s.resultsClosed && s.jobsClosed
  }

  // ------------------------------------------------------------- what every step keeps

  predicate Holding(w: Worker) { w.Received? || w.Running? || w.Sending? }

  predicate Held(s: State, p: nat) {
    exists w :: 0 <= w < |s.workers| && Holding(s.workers[w]) && s.workers[w].pos == p
  }

  /** The sum of the counted results, taken in the order of the positions. */
  ghost function Total(counted: map<nat, Summary>, n: nat): Summary {
    if n == 0 then ZERO
    else Plus(Total(counted, n - 1), if n - 1 in counted then counted[n - 1] else ZERO)
  }

  predicate CountsUp(reports: seq<nat>) {
    forall i | 0 <= i < |reports| :: reports[i] == i
  }

  /** No two workers hold the same position. */
  predicate NoSharing(ws: seq<Worker>) {
    forall w, v | 0 <= w < v < |ws| && Holding(ws[w]) && Holding(ws[v]) :: ws[w].pos != ws[v].pos
  }

  ghost predicate Placed(s: State) {
    && s.next <= |s.skip|
    && (forall w | 0 <= w < |s.workers| && Holding(s.workers[w]) ::
          s.workers[w].pos < s.next && s.workers[w].pos !in s.counted && s.workers[w].pos !in s.dropped)
    && NoSharing(s.workers)
    && (forall p | p in s.counted :: p < s.next && p !in s.dropped)
    && (forall p | p in s.dropped :: p < s.next)
    && (forall p: nat | p < s.next :: p in s.counted || p in s.dropped || Held(s, p))
  }

  /** How often run was called for a position in a worker's hands. */
  predicate WorkerStarted(w: Worker, skip: seq<bool>, started: multiset<nat>) {
    match w
    case Received(p) => started[p] == 0
    case Running(p) => p < |skip| && !skip[p] && started[p] == 1
    case Sending(p, result) =>
      p < |skip| && started[p] == Calls(skip, p) && (skip[p] ==> result == ZERO)
    case _ => true
  }

  function Calls(skip: seq<bool>, p: nat): nat {
    if p < |skip| && !skip[p] then 1 else 0
  }

  ghost predicate StartedOnce(s: State) {
    && (forall w | 0 <= w < |s.workers| :: WorkerStarted(s.workers[w], s.skip, s.started))
    && (forall p | p in s.counted :: WorkerStarted(Sending(p, s.counted[p]), s.skip, s.started))
    && (forall p | p in s.dropped :: s.started[p] == 0)
    && (forall p: nat | s.next <= p :: s.started[p] == 0)
  }

  ghost predicate Tallied(s: State) {
    && s.summary == Total(s.counted, |s.skip|)
    && s.processed == |s.counted|
    && CountsUp(s.reports) && 1 <= |s.reports| <= s.processed + 1
    && (s.reducer.Reporting? ==> |s.reports| <= s.processed)
    && (!s.cancelled ==> |s.reports| == if s.reducer.Reporting? then s.processed else s.processed + 1)
  }

  ghost predicate Closing(s: State) {
    && (s.jobsClosed && !s.cancelled ==> s.next == |s.skip|)
    && (forall w | 0 <= w < |s.workers| && s.workers[w].Done? :: s.cancelled || s.jobsClosed)
    && (s.resultsClosed ==> forall w | 0 <= w < |s.workers| :: s.workers[w].Done?)
    && (s.reducer.Returned? ==> s.resultsClosed)
    && (!s.cancelled ==> s.dropped == {})
    && (|s.workers| == 0 ==> Final(s) && |s.skip| == 0)
  }

  ghost predicate Inv(s: State) {
    Placed(s) && StartedOnce(s) && Tallied(s) && Closing(s)
  }

  lemma InitInv(skip: seq<bool>, concurrency: int)
    ensures Inv(Init(skip, concurrency))
  {
    TotalOfNothing(|skip|);
  }

  lemma {:induction false} TotalOfNothing(n: nat)
    ensures Total(map[], n) == ZERO
  {
    if n > 0 {
      TotalOfNothing(n - 1);
    }
  }

  lemma {:induction false} TotalCountsOne(counted: map<nat, Summary>, p: nat, r: Summary, n: nat)
    requires p !in counted
    ensures Total(counted[p := r], n) == if p < n then Plus(Total(counted, n), r) else Total(counted, n)
  {
    if n > 0 {
      TotalCountsOne(counted, p, r, n - 1);
    }
  }

  /** A worker that keeps its position, or had none and takes none, moves nothing. */
  lemma PlacedByChange(s: State, t: State, w: nat, u: Worker)
    requires Placed(s) && w < |s.workers| && t.workers == s.workers[w := u]
    requires Holding(u) == Holding(s.workers[w]) && (Holding(u) ==> u.pos == s.workers[w].pos)
    requires t.skip == s.skip && t.next == s.next && t.dropped == s.dropped && t.counted == s.counted
    ensures Placed(t)
  {
    forall p: nat | p < t.next
      ensures p in t.counted || p in t.dropped || Held(t, p)
    {
      if p !in s.counted && p !in s.dropped {
        var v :| 0 <= v < |s.workers| && Holding(s.workers[v]) && s.workers[v].pos == p;
        assert Holding(t.workers[v]) && t.workers[v].pos == p;
      }
    }
  }

  lemma PlacedByTaking(s: State, t: State, w: nat)
    requires Placed(s) && w < |s.workers| && !Holding(s.workers[w]) && s.next < |s.skip|
    requires t == s.(next := s.next + 1, workers := s.workers[w := Received(s.next)])
    ensures Placed(t)
  {
    forall p: nat | p < t.next
      ensures p in t.counted || p in t.dropped || Held(t, p)
    {
      if p == s.next {
        assert Holding(t.workers[w]) && t.workers[w].pos == p;
      } else if p !in s.counted && p !in s.dropped {
        var v :| 0 <= v < |s.workers| && Holding(s.workers[v]) && s.workers[v].pos == p;
        assert Holding(t.workers[v]) && t.workers[v].pos == p;
      }
    }
  }

  lemma PlacedByRelease(s: State, t: State, w: nat, u: Worker)
    requires Placed(s) && w < |s.workers| && Holding(s.workers[w]) && !Holding(u)
    requires t.workers == s.workers[w := u]
    requires t.skip == s.skip && t.next == s.next
    requires || (t.counted == s.counted && t.dropped == s.dropped + {s.workers[w].pos})
             || (t.counted.Keys == s.counted.Keys + {s.workers[w].pos} && t.dropped == s.dropped)
    ensures Placed(t)
  {
    forall p: nat | p < t.next
      ensures p in t.counted || p in t.dropped || Held(t, p)
    {
      if p !in s.counted && p !in s.dropped && p != s.workers[w].pos {
        var v :| 0 <= v < |s.workers| && Holding(s.workers[v]) && s.workers[v].pos == p;
        assert Holding(t.workers[v]) && t.workers[v].pos == p;
      }
    }
  }

  lemma PlacedKept(s: State, a: Action)
    requires Placed(s) && Enabled(s, a)
    ensures Placed(Apply(s, a))
  {
    hide Placed;
    var t := Apply(s, a);
    if a.Work? {
      var w := s.workers[a.w];
      match a.move
      case Take => PlacedByTaking(s, t, a.w);
      case Drop => PlacedByRelease(s, t, a.w, t.workers[a.w]);
      case Deliver =>
        assert t.counted.Keys == s.counted.Keys + {w.pos};
        PlacedByRelease(s, t, a.w, t.workers[a.w]);
      case _ => PlacedByChange(s, t, a.w, t.workers[a.w]);
    } else {
      PlacedFrame(s, t);
    }
  }

  lemma PlacedFrame(s: State, t: State)
    requires Placed(s)
    requires t.workers == s.workers && t.skip == s.skip && t.next == s.next
    requires t.dropped == s.dropped && t.counted == s.counted
    ensures Placed(t)
  {
    assert forall p: nat :: Held(t, p) <==> Held(s, p);
  }

  lemma StartedByRun(s: State, t: State, w: nat)
    requires Placed(s) && StartedOnce(s) && w < |s.workers| && s.workers[w].Received?
    requires var p := s.workers[w].pos;
      && p < |s.skip| && !s.skip[p]
      && t == s.(workers := s.workers[w := Running(p)], started := s.started + multiset{p})
    ensures StartedOnce(t)
  {
    var p := s.workers[w].pos;
    forall v | 0 <= v < |t.workers|
      ensures WorkerStarted(t.workers[v], t.skip, t.started)
    {
      assert WorkerStarted(s.workers[v], s.skip, s.started);
      assert v == w || !Holding(s.workers[v]) || s.workers[v].pos != p;
    }
  }

  lemma StartedByChange(s: State, t: State, w: nat, u: Worker)
    requires StartedOnce(s) && w < |s.workers| && t.workers == s.workers[w := u]
    requires WorkerStarted(u, s.skip, s.started)
    requires t.started == s.started && t.skip == s.skip && s.next <= t.next
    requires forall p | p in t.dropped :: p in s.dropped || s.workers[w] == Received(p)
    requires forall p | p in t.counted ::
               (p in s.counted && t.counted[p] == s.counted[p]) || s.workers[w] == Sending(p, t.counted[p])
    ensures StartedOnce(t)
  {
  }

  lemma MoveKeepsCalls(s: State, w: Worker, m: Move)
    requires CanMove(s, w, m) && WorkerStarted(w, s.skip, s.started) && s.started[s.next] == 0
    requires !(m.Start? && !s.skip[w.pos])
    ensures WorkerStarted(Moved(s, w, m), s.skip, s.started)
    ensures var t := Effect(s, w, m);
      && t.skip == s.skip && t.started == s.started && s.next <= t.next
      && (forall p | p in t.dropped :: p in s.dropped || w == Received(p))
      && (forall p | p in t.counted ::
            (p in s.counted && t.counted[p] == s.counted[p]) || w == Sending(p, t.counted[p]))
  {
  }

  lemma StartedOnceKept(s: State, a: Action)
    requires Placed(s) && StartedOnce(s) && Enabled(s, a)
    ensures StartedOnce(Apply(s, a))
  {
    var t := Apply(s, a);
    if a.Work? {
      assert WorkerStarted(s.workers[a.w], s.skip, s.started);
      if a.move.Start? && !s.skip[s.workers[a.w].pos] {
        StartedByRun(s, t, a.w);
      } else {
        assert s.started[s.next] == 0;
        hide Placed, StartedOnce;
        MoveKeepsCalls(s, s.workers[a.w], a.move);
        hide Moved, CanMove, Effect, WorkerStarted;
        StartedByChange(s, t, a.w, Moved(s, s.workers[a.w], a.move));
      }
    }
  }

  lemma TalliedByDelivery(s: State, w: nat)
    requires Placed(s) && Tallied(s) && Enabled(s, Work(w, Deliver))
    ensures Tallied(Apply(s, Work(w, Deliver)))
  {
    hide Total, Held, NoSharing;
    var Sending(pos, result) := s.workers[w];
    assert Holding(s.workers[w]);
    TotalCountsOne(s.counted, pos, result, |s.skip|);
  }

  lemma TalliedKept(s: State, a: Action)
    requires Placed(s) && Tallied(s) && Enabled(s, a)
    ensures Tallied(Apply(s, a))
  {
    hide Total, Placed;
    if a.Work? && a.move.Deliver? {
      TalliedByDelivery(s, a.w);
    }
  }

  lemma ClosingKept(s: State, a: Action)
    requires Closing(s) && Enabled(s, a)
    ensures Closing(Apply(s, a))
  {
  }

  /** Every step of every goroutine, and a cancellation at any point, keeps the invariant. */
  lemma StepInv(s: State, a: Action)
    requires Inv(s) && Enabled(s, a)
    ensures Inv(Apply(s, a))
  {
    PlacedKept(s, a);
    StartedOnceKept(s, a);
    TalliedKept(s, a);
    ClosingKept(s, a);
  }

  lemma StepShape(s: State, a: Action)
    requires Enabled(s, a)
    ensures Apply(s, a).skip == s.skip && |Apply(s, a).workers| == |s.workers|
  {
  }

  lemma {:induction false} RunInv(s: State, actions: seq<Action>)
    requires Inv(s) && Schedule(s, actions)
    ensures Inv(Outcome(s, actions))
    ensures Outcome(s, actions).skip == s.skip && |Outcome(s, actions).workers| == |s.workers|
    decreases |actions|
  {
    hide Inv, Apply, Enabled;
    if actions != [] {
      StepInv(s, actions[0]);
      StepShape(s, actions[0]);
      RunInv(Apply(s, actions[0]), actions[1..]);
    }
  }

  // ------------------------------------------------------------- no deadlock, termination

  /** Some goroutine other than the canceller can move in every reachable state
      that is not final. */
  lemma Progress(s: State) returns (a: Action)
    requires Inv(s) && !Final(s)
    ensures Enabled(s, a) && !a.Cancel?
  {
    if s.reducer.Reporting? {
      return Report;
    }
    if w :| 0 <= w < |s.workers| && !s.workers[w].Done? {
      match s.workers[w]
      case Waiting =>
        if s.cancelled || s.jobsClosed { return Work(w, Quit); }
        if s.next < |s.skip| { return Work(w, Take); }
        return StopDispatch;
      case Received(_) => return Work(w, if s.cancelled then Drop else Start);
      case Running(_) => return Work(w, Finish(ZERO));
      case Sending(_, _) => return Work(w, Deliver);
      case Pausing => return Work(w, Wake);
    }
    if !s.resultsClosed { return CloseResults; }
    if s.reducer.Receiving? { return Return; }
    assert s.workers[0].Done?;
    return StopDispatch;
  }

  function Weight(w: Worker): nat {
    match w
    case Done => 0
    case Waiting => 1
    case Pausing => 2
    case Sending(_, _) => 4
    case Running(_) => 5
    case Received(_) => 6
  }

  function Weights(ws: seq<Worker>): nat {
    if ws == [] then 0 else Weights(ws[..|ws| - 1]) + Weight(ws[|ws| - 1])
  }

  function One(b: bool): nat { if b then 1 else 0 }

  ghost function Measure(s: State): nat
    requires s.next <= |s.skip|
  {
    6 * (|s.skip| - s.next) + Weights(s.workers) + One(s.reducer.Reporting?)
    + One(!s.cancelled) + One(!s.jobsClosed) + One(!s.resultsClosed) + One(!s.reducer.Returned?)
  }

  lemma {:induction false} WeightsUpdate(ws: seq<Worker>, i: nat, w: Worker)
    requires i < |ws|
    ensures Weights(ws[i := w]) == Weights(ws) - Weight(ws[i]) + Weight(w)
  {
    var n := |ws| - 1;
    if i == n {
      assert ws[i := w][..n] == ws[..n];
    } else {
      assert ws[i := w][..n] == ws[..n][i := w];
      WeightsUpdate(ws[..n], i, w);
    }
  }

  lemma MoveDecreases(s: State, w: Worker, m: Move)
    requires CanMove(s, w, m)
    ensures Weight(Moved(s, w, m)) + One(m.Deliver?) < Weight(w) + 6 * One(m.Take?)
    ensures Effect(s, w, m).next == s.next + One(m.Take?) && (m.Take? ==> s.next < |s.skip|)
    ensures Effect(s, w, m).reducer == if m.Deliver? then Reporting else s.reducer
    ensures m.Deliver? ==> s.reducer.Receiving?
    ensures var t := Effect(s, w, m);
      t.skip == s.skip && t.cancelled == s.cancelled && t.jobsClosed == s.jobsClosed && t.resultsClosed == s.resultsClosed
  {
  }

  lemma StepDecreases(s: State, a: Action)
    requires s.next <= |s.skip| && Enabled(s, a)
    ensures Apply(s, a).skip == s.skip && Apply(s, a).next <= |s.skip|
    ensures Measure(Apply(s, a)) < Measure(s)
  {
    if a.Work? {
      MoveDecreases(s, s.workers[a.w], a.move);
      WeightsUpdate(s.workers, a.w, Moved(s, s.workers[a.w], a.move));
      hide Weights, Weight, Moved, Effect, CanMove;
      assert Measure(Apply(s, a)) < Measure(s);
    }
  }

  lemma {:induction false} WeightsOfWaiting(n: nat)
    ensures Weights(AllWaiting(n)) == n
  {
    if n > 0 {
      assert AllWaiting(n)[..n - 1] == AllWaiting(n - 1);
      WeightsOfWaiting(n - 1);
    }
  }

  lemma {:induction false} RunBounded(s: State, actions: seq<Action>)
    requires Inv(s) && Schedule(s, actions)
    ensures |actions| <= Measure(s)
    decreases |actions|
  {
    if actions != [] {
      StepInv(s, actions[0]);
      StepDecreases(s, actions[0]);
      RunBounded(Apply(s, actions[0]), actions[1..]);
    }
  }

  // ------------------------------------------------------------- the theorems

  function InFlight(ws: seq<Worker>): nat {
    if ws == [] then 0 else InFlight(ws[..|ws| - 1]) + One(ws[|ws| - 1].Running?)
  }

  lemma {:induction false} InFlightBound(ws: seq<Worker>)
    ensures InFlight(ws) <= |ws|
  {
    if ws != [] {
      InFlightBound(ws[..|ws| - 1]);
    }
  }

  // ------------------------------------------------------------- what run returned

  /** The results that run returned in a schedule, read off its actions. */
  ghost function Results(s: State, actions: seq<Action>, seen: map<nat, Summary>): map<nat, Summary>
    requires Schedule(s, actions)
    decreases |actions|
  {
    if actions == [] then seen
    else Results(Apply(s, actions[0]), actions[1..], Logged(s, actions[0], seen))
  }

  ghost function Logged(s: State, a: Action, seen: map<nat, Summary>): map<nat, Summary>
    requires Enabled(s, a)
  {
    if a.Work? && a.move.Finish? then seen[s.workers[a.w].pos := a.move.result] else seen
  }

  /** A worker that is about to send carries what run returned for its position. */
  predicate Carries(w: Worker, skip: seq<bool>, seen: map<nat, Summary>) {
    w.Sending? && w.pos < |skip| && !skip[w.pos] ==> w.pos in seen && seen[w.pos] == w.result
  }

  ghost predicate Sends(s: State, p: nat) {
    exists w :: 0 <= w < |s.workers| && s.workers[w].Sending? && s.workers[w].pos == p
  }

  ghost predicate Carried(s: State, seen: map<nat, Summary>) {
    && (forall w | 0 <= w < |s.workers| :: Carries(s.workers[w], s.skip, seen))
    && (forall p | p in s.counted :: Carries(Sending(p, s.counted[p]), s.skip, seen))
    && (forall p | p in seen :: p < |s.skip| && !s.skip[p] && (p in s.counted || Sends(s, p)))
  }

  lemma CarriedByFinish(s: State, w: nat, result: Summary, seen: map<nat, Summary>)
    requires Placed(s) && StartedOnce(s) && Carried(s, seen) && w < |s.workers| && s.workers[w].Running?
    ensures var p := s.workers[w].pos;
      Carried(s.(workers := s.workers[w := Sending(p, result)]), seen[p := result])
  {
    hide Held;
    var p := s.workers[w].pos;
    var t := s.(workers := s.workers[w := Sending(p, result)]);
    assert WorkerStarted(s.workers[w], s.skip, s.started);
    forall v | 0 <= v < |t.workers|
      ensures Carries(t.workers[v], t.skip, seen[p := result])
    {
      assert Carries(s.workers[v], s.skip, seen);
      assert v == w || !Holding(s.workers[v]) || s.workers[v].pos != p;
    }
    assert t.workers[w].Sending? && t.workers[w].pos == p;
    forall q | q in seen[p := result]
      ensures q in t.counted || Sends(t, q)
    {
      if q != p && q !in s.counted {
        var v :| 0 <= v < |s.workers| && s.workers[v].Sending? && s.workers[v].pos == q;
        assert t.workers[v] == s.workers[v];
      }
    }
  }

  lemma CarriedByChange(s: State, t: State, w: nat, u: Worker, seen: map<nat, Summary>)
    requires Carried(s, seen) && w < |s.workers| && t.workers == s.workers[w := u] && t.skip == s.skip
    requires u.Sending? ==> s.workers[w] == Received(u.pos) && u.pos < |s.skip| && s.skip[u.pos]
    requires s.workers[w].Sending? ==> t.counted == s.counted[s.workers[w].pos := s.workers[w].result]
    requires !s.workers[w].Sending? ==> t.counted == s.counted
    ensures Carried(t, seen)
  {
    assert Carries(s.workers[w], s.skip, seen);
    forall q | q in seen
      ensures q in t.counted || Sends(t, q)
    {
      if q !in t.counted {
        var v :| 0 <= v < |s.workers| && s.workers[v].Sending? && s.workers[v].pos == q;
        assert t.workers[v] == s.workers[v];
      }
    }
  }

  lemma CarriedFrame(s: State, t: State, seen: map<nat, Summary>)
    requires Carried(s, seen) && t.workers == s.workers && t.skip == s.skip && t.counted == s.counted
    ensures Carried(t, seen)
  {
    assert forall p: nat :: Sends(t, p) <==> Sends(s, p);
  }

  lemma CarriedKept(s: State, a: Action, seen: map<nat, Summary>)
    requires Placed(s) && StartedOnce(s) && Carried(s, seen) && Enabled(s, a)
    ensures Carried(Apply(s, a), Logged(s, a, seen))
  {
    hide Placed, StartedOnce, Carried;
    if a.Work? {
      var u := Moved(s, s.workers[a.w], a.move);
      if a.move.Finish? {
        CarriedByFinish(s, a.w, a.move.result, seen);
      } else {
        CarriedByChange(s, Apply(s, a), a.w, u, seen);
      }
    } else {
      CarriedFrame(s, Apply(s, a), seen);
    }
  }

  lemma {:induction false} RunCarried(s: State, actions: seq<Action>, seen: map<nat, Summary>)
    requires Inv(s) && Carried(s, seen) && Schedule(s, actions)
    ensures Carried(Outcome(s, actions), Results(s, actions, seen))
    decreases |actions|
  {
    hide Apply, Enabled, Carried, Logged, Placed, StartedOnce, Tallied, Closing;
    if actions != [] {
      StepInv(s, actions[0]);
      CarriedKept(s, actions[0], seen);
      RunCarried(Apply(s, actions[0]), actions[1..], Logged(s, actions[0], seen));
    }
  }

  /** Every run has returned and every result has arrived when the pool is done. */
  lemma NothingLost(s: State, seen: map<nat, Summary>)
    requires Inv(s) && Carried(s, seen) && Final(s)
    ensures forall p: nat :: p in seen <==> s.started[p] > 0
    ensures forall p: nat :: s.started[p] > 0 ==> p in s.counted
  {
    hide Total, Tallied;
    assert forall w | 0 <= w < |s.workers| :: s.workers[w].Done?;
    forall p: nat
      ensures p in seen <==> s.started[p] > 0
      ensures s.started[p] > 0 ==> p in s.counted
    {
      assert !Held(s, p) && !Sends(s, p);
      if p in s.counted {
        assert WorkerStarted(Sending(p, s.counted[p]), s.skip, s.started);
        assert Carries(Sending(p, s.counted[p]), s.skip, seen);
      }
    }
  }

  lemma {:induction false} SameTotal(counted: map<nat, Summary>, seen: map<nat, Summary>, n: nat)
    requires forall p: nat | p < n :: (if p in counted then counted[p] else ZERO) == (if p in seen then seen[p] else ZERO)
    ensures Total(counted, n) == Total(seen, n)
  {
    if n > 0 {
      SameTotal(counted, seen, n - 1);
    }
  }

  lemma SummaryOfResults(s: State, seen: map<nat, Summary>)
    requires Inv(s) && Carried(s, seen) && Final(s)
    ensures s.summary == Total(seen, |s.skip|)
  {
    hide Total, Held, Placed, Closing;
    NothingLost(s, seen);
    forall p: nat | p < |s.skip|
      ensures (if p in s.counted then s.counted[p] else ZERO) == (if p in seen then seen[p] else ZERO)
    {
      if p in s.counted {
        assert WorkerStarted(Sending(p, s.counted[p]), s.skip, s.started);
        assert Carries(Sending(p, s.counted[p]), s.skip, seen);
      }
    }
    SameTotal(s.counted, seen, |s.skip|);
  }

  function TestedOf(r: Summary): int { r.tested }
  function SucceededOf(r: Summary): int { r.succeeded }
  function FailedOf(r: Summary): int { r.failed }
  function DisabledOf(r: Summary): int { r.disabled }
  function EnabledOf(r: Summary): int { r.enabled }

  /** The sum of one counter over the results for the positions below n. */
  ghost function CounterSum(results: map<nat, Summary>, counter: Summary -> int, n: nat): int {
    if n == 0 then 0
    else CounterSum(results, counter, n - 1) + if n - 1 in results then counter(results[n - 1]) else 0
  }

  /** Every counter of a summary is the sum of that counter over the results. */
  ghost predicate AddsUp(summary: Summary, results: map<nat, Summary>, n: nat) {
    && summary.tested == CounterSum(results, TestedOf, n)
    && summary.succeeded == CounterSum(results, SucceededOf, n)
    && summary.failed == CounterSum(results, FailedOf, n)
    && summary.disabled == CounterSum(results, DisabledOf, n)
    && summary.enabled == CounterSum(results, EnabledOf, n)
  }

  lemma {:induction false} TotalAddsUp(results: map<nat, Summary>, n: nat)
    ensures AddsUp(Total(results, n), results, n)
  {
    if n > 0 {
      TotalAddsUp(results, n - 1);
    }
  }

  /** Safety of every schedule of every pool, cancelled or not: bounded
      concurrency, no position run twice, every delivered result the one run
      returned and the summary their sum, reports a prefix of 0, 1, 2, ..., and
      nobody left to send once the results channel is closed. In the end every
      run that was started has returned and is counted, so the summary is the
      sum of all that run returned. */
  lemma PoolIsSafe(skip: seq<bool>, concurrency: int, actions: seq<Action>)
    requires Schedule(Init(skip, concurrency), actions)
    ensures var s, results := Outcome(Init(skip, concurrency), actions), Results(Init(skip, concurrency), actions, map[]);
      && InFlight(s.workers) <= Min(NormalizeConcurrency(concurrency), |skip|)
      && NoSharing(s.workers)
      && (forall p: nat :: s.started[p] <= Calls(skip, p))
      && (forall p | p in s.counted :: p < |skip| && s.started[p] == Calls(skip, p))
      && |s.workers| == Min(NormalizeConcurrency(concurrency), |skip|)
      && AddsUp(s.summary, s.counted, |skip|) && s.processed == |s.counted|
      && CountsUp(s.reports) && |s.reports| <= s.processed + 1
      && (s.resultsClosed ==> forall w | 0 <= w < |s.workers| :: s.workers[w].Done?)
      && (forall p | p in s.counted :: if skip[p] then s.counted[p] == ZERO else p in results && s.counted[p] == results[p])
      && (Final(s) ==> forall p: nat | s.started[p] > 0 :: p in results && p in s.counted)
      && (Final(s) ==> AddsUp(s.summary, results, |skip|))
  {
    hide AddsUp;
    hide Schedule, Outcome, Results, Inv, Carried, Total, Final, Init, InFlight, NoSharing, CountsUp, Calls;
    var start := Init(skip, concurrency);
    var s, results := Outcome(start, actions), Results(start, actions, map[]);
    InitInv(skip, concurrency);
    InitCarried(skip, concurrency);
    RunInv(start, actions);
    RunCarried(start, actions, map[]);
    InFlightBound(s.workers);
    SafeState(s, results);
    TotalAddsUp(s.counted, |skip|);
    TotalAddsUp(results, |skip|);
    if Final(s) {
      NothingLost(s, results);
      SummaryOfResults(s, results);
    }
  }

  lemma InitCarried(skip: seq<bool>, concurrency: int)
    ensures Carried(Init(skip, concurrency), map[])
    ensures Init(skip, concurrency).skip == skip
    ensures |Init(skip, concurrency).workers| == Min(NormalizeConcurrency(concurrency), |skip|)
  {
  }

  lemma SafeState(s: State, results: map<nat, Summary>)
    requires Inv(s) && Carried(s, results)
    ensures NoSharing(s.workers)
    ensures forall p: nat :: s.started[p] <= Calls(s.skip, p)
    ensures forall p | p in s.counted :: p < |s.skip| && s.started[p] == Calls(s.skip, p)
    ensures s.summary == Total(s.counted, |s.skip|) && s.processed == |s.counted|
    ensures CountsUp(s.reports) && |s.reports| <= s.processed + 1
    ensures s.resultsClosed ==> forall w | 0 <= w < |s.workers| :: s.workers[w].Done?
    ensures forall p | p in s.counted ::
              if s.skip[p] then s.counted[p] == ZERO else p in results && s.counted[p] == results[p]
  {
    hide Total, NoSharing, CountsUp;
    forall p | p in s.counted
      ensures p < |s.skip| && s.started[p] == Calls(s.skip, p)
      ensures if s.skip[p] then s.counted[p] == ZERO else p in results && s.counted[p] == results[p]
    {
      assert WorkerStarted(Sending(p, s.counted[p]), s.skip, s.started);
      assert Carries(Sending(p, s.counted[p]), s.skip, results);
    }
    forall p: nat
      ensures s.started[p] <= Calls(s.skip, p)
    {
      StartedAtMostOnce(s, p);
    }
  }

  lemma StartedAtMostOnce(s: State, p: nat)
    requires Placed(s) && StartedOnce(s)
    ensures s.started[p] <= Calls(s.skip, p)
  {
    hide NoSharing;
    if p < s.next && p !in s.counted && p !in s.dropped {
      var w :| 0 <= w < |s.workers| && Holding(s.workers[w]) && s.workers[w].pos == p;
      assert WorkerStarted(s.workers[w], s.skip, s.started);
    } else if p in s.counted {
      assert WorkerStarted(Sending(p, s.counted[p]), s.skip, s.started);
    }
  }

  /** Every schedule is finite, with a bound known beforehand, and as long as it
      is not final it can be continued without waiting for a cancellation. */
  lemma PoolTerminates(skip: seq<bool>, concurrency: int, actions: seq<Action>)
    requires Schedule(Init(skip, concurrency), actions)
    ensures |actions| <= 7 * |skip| + 4
    ensures Final(Outcome(Init(skip, concurrency), actions))
         || exists a :: Enabled(Outcome(Init(skip, concurrency), actions), a) && !a.Cancel?
  {
    var s := Init(skip, concurrency);
    InitInv(skip, concurrency);
    RunBounded(s, actions);
    if |skip| > 0 {
      WeightsOfWaiting(|s.workers|);
    }
    RunInv(s, actions);
    var t := Outcome(s, actions);
    if !Final(t) {
      var a := Progress(t);
    }
  }

  /** Without a cancellation the pool handles every position exactly once: run is
      called once for each channel that is not skipped and for no other, returns,
      and the summary is the sum of what it returned, in the order of the
      positions whatever order the results arrived in; the reports are 0, 1, ...,
      total. */
  lemma UncancelledPoolIsComplete(skip: seq<bool>, concurrency: int, actions: seq<Action>)
    requires Schedule(Init(skip, concurrency), actions)
    requires Final(Outcome(Init(skip, concurrency), actions))
    requires !Outcome(Init(skip, concurrency), actions).cancelled
    ensures var s, results := Outcome(Init(skip, concurrency), actions), Results(Init(skip, concurrency), actions, map[]);
      && s.counted.Keys == Positions(|skip|)
      && (forall p: nat :: s.started[p] == Calls(skip, p))
      && (forall p: nat :: p in results <==> Calls(skip, p) == 1)
      && AddsUp(s.summary, results, |skip|)
      && s.reports == seq(|skip| + 1, i => i)
  {
    hide Schedule, Outcome, Results, Inv, Carried, Final, Total, Positions, Init, Calls, AddsUp;
    var start := Init(skip, concurrency);
    var s, results := Outcome(start, actions), Results(start, actions, map[]);
    InitInv(skip, concurrency);
    InitCarried(skip, concurrency);
    RunInv(start, actions);
    RunCarried(start, actions, map[]);
    CompleteAtEnd(s);
    NothingLost(s, results);
    SummaryOfResults(s, results);
    TotalAddsUp(results, |skip|);
    CallsAreOneOrNone(skip);
  }

  lemma CallsAreOneOrNone(skip: seq<bool>)
    ensures forall p: nat :: Calls(skip, p) == 1 || Calls(skip, p) == 0
  {
  }

  /** The sum of one counter over the channels that are not skipped. */
  function SumOver(skip: seq<bool>, f: nat -> Summary, counter: Summary -> int): int {
    if skip == [] then 0
    else
      var last := |skip| - 1;
      SumOver(skip[..last], f, counter) + if skip[last] then 0 else counter(f(last))
  }

  /** Only what run returns for each position matters, not the number of workers,
      who ran what, or when: every counter of the summary is the sum of that
      counter over the channels that are not skipped. */
  lemma OrderDoesNotMatter(skip: seq<bool>, concurrency: int, actions: seq<Action>, f: nat -> Summary)
    requires Schedule(Init(skip, concurrency), actions)
    requires Final(Outcome(Init(skip, concurrency), actions))
    requires !Outcome(Init(skip, concurrency), actions).cancelled
    requires forall p | p in Results(Init(skip, concurrency), actions, map[]) ::
               Results(Init(skip, concurrency), actions, map[])[p] == f(p)
    ensures var summary := Outcome(Init(skip, concurrency), actions).summary;
      && summary.tested == SumOver(skip, f, TestedOf)
      && summary.succeeded == SumOver(skip, f, SucceededOf)
      && summary.failed == SumOver(skip, f, FailedOf)
      && summary.disabled == SumOver(skip, f, DisabledOf)
      && summary.enabled == SumOver(skip, f, EnabledOf)
  {
    hide Schedule, Outcome, Results, Init, Final, Positions, Calls, CounterSum, SumOver;
    UncancelledPoolIsComplete(skip, concurrency, actions);
    var results := Results(Init(skip, concurrency), actions, map[]);
    CounterIsSumOver(skip, f, results, TestedOf, |skip|);
    CounterIsSumOver(skip, f, results, SucceededOf, |skip|);
    CounterIsSumOver(skip, f, results, FailedOf, |skip|);
    CounterIsSumOver(skip, f, results, DisabledOf, |skip|);
    CounterIsSumOver(skip, f, results, EnabledOf, |skip|);
    assert skip[..|skip|] == skip;
  }

  lemma {:induction false} CounterIsSumOver(skip: seq<bool>, f: nat -> Summary, results: map<nat, Summary>, counter: Summary -> int, n: nat)
    requires n <= |skip| && (forall p: nat :: p in results <==> Calls(skip, p) == 1)
    requires forall p | p in results :: results[p] == f(p)
    ensures CounterSum(results, counter, n) == SumOver(skip[..n], f, counter)
  {
    if n > 0 {
      CounterIsSumOver(skip, f, results, counter, n - 1);
      assert skip[..n][..n - 1] == skip[..n - 1] && skip[..n][n - 1] == skip[n - 1];
    }
  }

  lemma AllCounted(s: State)
    requires Placed(s) && s.next == |s.skip| && s.dropped == {}
    requires forall w | 0 <= w < |s.workers| :: s.workers[w].Done?
    ensures s.counted.Keys == Positions(|s.skip|)
  {
    forall p: nat | p < |s.skip|
      ensures p in s.counted
    {
      assert !Held(s, p);
    }
  }

  lemma CompleteAtEnd(s: State)
    requires Inv(s) && Final(s) && !s.cancelled
    ensures s.counted.Keys == Positions(|s.skip|)
    ensures forall p: nat :: s.started[p] == Calls(s.skip, p)
    ensures forall p | p in s.counted :: p < |s.skip| && (s.skip[p] ==> s.counted[p] == ZERO)
    ensures s.summary == Total(s.counted, |s.skip|)
    ensures s.reports == seq(|s.skip| + 1, i => i)
  {
    AllCounted(s);
    hide Placed, Total, Holding, NoSharing;
    assert forall p: nat :: s.started[p] == Calls(s.skip, p) by {
      forall p: nat
        ensures s.started[p] == Calls(s.skip, p)
      {
        if p < |s.skip| {
          assert p in s.counted;
        }
      }
    }
  }

  function Positions(n: nat): (r: set<nat>)
    ensures forall p: nat :: p in r <==> p < n
    ensures |r| == n
  {
    if n == 0 then {} else Positions(n - 1) + {n - 1}
  }

  ghost predicate HealthChecks(actions: seq<Action>) {
    forall i | 0 <= i < |actions| && actions[i].Work? && actions[i].move.Finish? ::
      Balanced(actions[i].move.result)
  }

  ghost predicate AllBalanced(s: State) {
    && Balanced(s.summary)
    && forall w | 0 <= w < |s.workers| && s.workers[w].Sending? :: Balanced(s.workers[w].result)
  }

  lemma {:induction false} BalancedRun(s: State, actions: seq<Action>)
    requires AllBalanced(s) && Schedule(s, actions) && HealthChecks(actions)
    ensures AllBalanced(Outcome(s, actions))
    decreases |actions|
  {
    if actions != [] {
      assert AllBalanced(Apply(s, actions[0]));
      BalancedRun(Apply(s, actions[0]), actions[1..]);
    }
  }

  lemma InitBalanced(skip: seq<bool>, concurrency: int)
    ensures AllBalanced(Init(skip, concurrency))
  {
    assert forall w | 0 <= w < |Init(skip, concurrency).workers| :: Init(skip, concurrency).workers[w] == Waiting;
  }

  /** When every run reports what a health check may report, so does the cycle,
      in every reachable state and under every cancellation. */
  lemma PoolKeepsCounters(skip: seq<bool>, concurrency: int, actions: seq<Action>)
    requires Schedule(Init(skip, concurrency), actions) && HealthChecks(actions)
    ensures AllBalanced(Outcome(Init(skip, concurrency), actions))
  {
    hide *;
    InitBalanced(skip, concurrency);
    BalancedRun(Init(skip, concurrency), actions);
  }
}
