/** The gauges of cached bodies while storages are created and closed concurrently. */
module UsageGauges {
  import opened Basics
  import opened BodyStorage

  /** Between the atomic operations on the gauges a storage is in one of these stages. */
  datatype Stage =
    | Idle        // not asked for yet
    | Buffered    // read into memory, its size is known
    | Checked     // the free space was looked at
    | Numbered    // counted, its bytes not yet
    | Open
    | Closing     // closed flag won, gauges not yet lowered
    | ClampCount  // the count fell below zero and is about to be set to zero
    | Unnumbered  // no longer counted, its bytes still are
    | ClampUsage
    | Closed

  datatype Slot = Slot(medium: Medium, stage: Stage)

  datatype Gauge = Gauge(count: int, usage: int)

  /** A body that arrives as a stream announces a positive length, which need not be its
      size: a decompressed body still announces its compressed length. */
  datatype Config = Config(enabled: bool, threshold: int, maxSize: int, sizes: seq<nat>, announced: seq<int>) {
    function Announced(i: nat): int { if i < |announced| then announced[i] else 0 }
  }

  datatype State = State(slots: seq<Slot>, disk: Gauge, memory: Gauge) {
    function On(medium: Medium): Gauge { if medium.Disk? then disk else memory }

    function With(medium: Medium, gauge: Gauge): State {
      if medium.Disk? then this.(disk := gauge) else this.(memory := gauge)
    }
  }

  datatype Action =
    | Check(i: nat)     // look at the announced length, and stream to a file if it fits
    | Recheck(i: nat)   // look at the size of what was read, and choose the medium
    | FallBack(i: nat)  // the file could not be written, what was read stays in memory
    | Fail(i: nat)      // the stream could not be written or was too long
    | Number(i: nat)
    | AddUsage(i: nat)
    | Close(i: nat)     // a call of Close, possibly one of many
    | Unnumber(i: nat)
    | StoreCount(i: nat)
    | SubUsage(i: nat)
    | StoreUsage(i: nat)

  function Idles(n: nat): (r: seq<Slot>)
    ensures |r| == n && forall k :: 0 <= k < n ==> r[k] == Slot(Memory, Idle)
  {
    if n == 0 then [] else Idles(n - 1) + [Slot(Memory, Idle)]
  }

  function Init(config: Config): State {
    State(Idles(|config.sizes|), Gauge(0, 0), Gauge(0, 0))
  }

  predicate Enabled(s: State, action: Action) {
    action.i < |s.slots| &&
    var slot := s.slots[action.i];
    match action
    case Check(_) => slot.stage == Idle
    case Recheck(_) => slot.stage == Buffered
    case FallBack(_) => slot == Slot(Disk, Checked)
    case Fail(_) => slot == Slot(Disk, Checked)
    case Number(_) => slot.stage == Checked
    case AddUsage(_) => slot.stage == Numbered
    case Close(_) => slot.stage !in {Idle, Buffered, Checked, Numbered}
    case Unnumber(_) => slot.stage == Closing
    case StoreCount(_) => slot.stage == ClampCount
    case SubUsage(_) => slot.stage == Unnumbered
    case StoreUsage(_) => slot.stage == ClampUsage
  }

  predicate Fits(config: Config, s: State, size: int) {
    config.enabled && size >= config.threshold && s.disk.usage + size <= config.maxSize
  }

  /** The stage a storage moves to; only the disk gauges are clamped at zero. */
  function NextSlot(config: Config, s: State, action: Action): Slot
    requires |s.slots| == |config.sizes| && Enabled(s, action)
  {
    var slot := s.slots[action.i];
    var gauge, size := s.On(slot.medium), config.sizes[action.i];
    match action
    case Check(i) =>
      var length := config.Announced(i);
      if length > 0 && Fits(config, s, length) then Slot(Disk, Checked) else Slot(Memory, Buffered)
    case Recheck(_) => Slot(if Fits(config, s, size) then Disk else Memory, Checked)
    case FallBack(_) => Slot(Memory, Checked)
    case Fail(_) => Slot(Disk, Closed)
    case Number(_) => slot.(stage := Numbered)
    case AddUsage(_) => slot.(stage := Open)
    case Close(_) => if slot.stage == Open then slot.(stage := Closing) else slot
    case Unnumber(_) => slot.(stage := if slot.medium.Disk? && gauge.count - 1 < 0 then ClampCount else Unnumbered)
    case StoreCount(_) => slot.(stage := Unnumbered)
    case SubUsage(_) => slot.(stage := if slot.medium.Disk? && gauge.usage - size < 0 then ClampUsage else Closed)
    case StoreUsage(_) => slot.(stage := Closed)
  }

  function NextGauge(gauge: Gauge, action: Action, size: nat): Gauge {
    match action
    case Number(_) => gauge.(count := gauge.count + 1)
    case AddUsage(_) => gauge.(usage := gauge.usage + size)
    case Unnumber(_) => gauge.(count := gauge.count - 1)
    case StoreCount(_) => gauge.(count := 0)
    case SubUsage(_) => gauge.(usage := gauge.usage - size)
    case StoreUsage(_) => gauge.(usage := 0)
    case _ => gauge
  }

  function Next(config: Config, s: State, action: Action): (r: State)
    requires |s.slots| == |config.sizes| && Enabled(s, action)
    ensures |r.slots| == |s.slots|
  {
    var medium := s.slots[action.i].medium;
    s.With(medium, NextGauge(s.On(medium), action, config.sizes[action.i]))
     .(slots := s.slots[action.i := NextSlot(config, s, action)])
  }

  predicate IsRun(config: Config, states: seq<State>, actions: seq<Action>) {
    && |states| == |actions| + 1
    && states[0] == Init(config)
    && (forall n :: 0 <= n < |states| ==> |states[n].slots| == |config.sizes|)
    && forall n :: 0 <= n < |actions| ==> Enabled(states[n], actions[n]) && states[n + 1] == Next(config, states[n], actions[n])
  }

  // ------------------------------------------------------------- the gauges are sums

  /** What a storage weighs: in the count, in the bytes, in the bytes still to be added,
      and in the number of creators between their check and their increment. */
  datatype Measure = Files | Usage | Pending | Creators

  function Weight(slot: Slot, size: nat, medium: Medium, measure: Measure): nat {
    if slot.medium != medium then 0
    else match measure
      case Files => if slot.stage in {Numbered, Open, Closing} then 1 else 0
      case Usage => if slot.stage in {Open, Closing, Unnumbered} then size else 0
      case Pending => if slot.stage in {Checked, Numbered} then size else 0
      case Creators => if slot.stage in {Checked, Numbered} then 1 else 0
  }

  function Total(slots: seq<Slot>, sizes: seq<nat>, medium: Medium, measure: Measure): nat
    requires |slots| <= |sizes|
  {
    if slots == [] then 0
    else var last := |slots| - 1;
      Total(slots[..last], sizes, medium, measure) + Weight(slots[last], sizes[last], medium, measure)
  }

  lemma {:induction false} TotalMoves(slots: seq<Slot>, sizes: seq<nat>, medium: Medium, measure: Measure, i: nat, slot: Slot)
    requires |slots| <= |sizes| && i < |slots|
    ensures Total(slots[i := slot], sizes, medium, measure)
         == Total(slots, sizes, medium, measure) - Weight(slots[i], sizes[i], medium, measure) + Weight(slot, sizes[i], medium, measure)
  {
    hide Weight;
    var last := |slots| - 1;
    var moved := slots[i := slot];
    if i == last {
      assert moved[..last] == slots[..last];
    } else {
      assert moved[..last] == slots[..last][i := slot];
      TotalMoves(slots[..last], sizes, medium, measure, i, slot);
    }
  }

  lemma {:induction false} TotalHolds(slots: seq<Slot>, sizes: seq<nat>, medium: Medium, measure: Measure, i: nat)
    requires |slots| <= |sizes| && i < |slots|
    ensures Total(slots, sizes, medium, measure) >= Weight(slots[i], sizes[i], medium, measure)
  {
    hide Weight;
    var last := |slots| - 1;
    if i != last {
      TotalHolds(slots[..last], sizes, medium, measure, i);
    }
  }

  predicate Measured(config: Config, s: State, medium: Medium)
    requires |s.slots| == |config.sizes|
  {
    && s.On(medium).count == Total(s.slots, config.sizes, medium, Files)
    && s.On(medium).usage == Total(s.slots, config.sizes, medium, Usage)
  }

  predicate NeverClamped(s: State) {
    forall i :: 0 <= i < |s.slots| ==> s.slots[i].stage !in {ClampCount, ClampUsage}
  }

  predicate Inv(config: Config, s: State) {
    |s.slots| == |config.sizes| && Measured(config, s, Disk) && Measured(config, s, Memory) && NeverClamped(s)
  }

  lemma {:induction false} IdlesWeighNothing(slots: seq<Slot>, sizes: seq<nat>, medium: Medium, measure: Measure)
    requires |slots| <= |sizes| && forall k :: 0 <= k < |slots| ==> slots[k].stage == Idle
    ensures Total(slots, sizes, medium, measure) == 0
  {
    if slots != [] {
      IdlesWeighNothing(slots[..|slots| - 1], sizes, medium, measure);
    }
  }

  lemma InitInv(config: Config)
    ensures Inv(config, Init(config))
  {
    var slots, sizes := Init(config).slots, config.sizes;
    IdlesWeighNothing(slots, sizes, Disk, Files);
    IdlesWeighNothing(slots, sizes, Disk, Usage);
    IdlesWeighNothing(slots, sizes, Memory, Files);
    IdlesWeighNothing(slots, sizes, Memory, Usage);
  }

  /** The numbers being sums, lowering them cannot make them negative. */
  lemma NextSlotIsUnclamped(config: Config, s: State, action: Action)
    requires Inv(config, s) && Enabled(s, action)
    ensures NextSlot(config, s, action).stage !in {ClampCount, ClampUsage}
  {
    hide Total;
    var medium := s.slots[action.i].medium;
    TotalHolds(s.slots, config.sizes, medium, Files, action.i);
    TotalHolds(s.slots, config.sizes, medium, Usage, action.i);
  }

  lemma StepMeasured(config: Config, s: State, action: Action, medium: Medium)
    requires Inv(config, s) && Enabled(s, action)
    ensures Measured(config, Next(config, s, action), medium)
  {
    hide Total;
    var slot := NextSlot(config, s, action);
    NextSlotIsUnclamped(config, s, action);
    TotalMoves(s.slots, config.sizes, medium, Files, action.i, slot);
    TotalMoves(s.slots, config.sizes, medium, Usage, action.i, slot);
  }

  lemma StepInv(config: Config, s: State, action: Action)
    requires Inv(config, s) && Enabled(s, action)
    ensures Inv(config, Next(config, s, action))
  {
    hide Total, Measured;
    StepMeasured(config, s, action, Disk);
    StepMeasured(config, s, action, Memory);
    NextSlotIsUnclamped(config, s, action);
  }

  lemma {:induction false} RunInv(config: Config, states: seq<State>, actions: seq<Action>, n: nat)
    requires IsRun(config, states, actions) && n < |states|
    ensures Inv(config, states[n])
  {
    hide Inv, Next, Enabled, Init;
    if n == 0 {
      InitInv(config);
    } else {
      RunInv(config, states, actions, n - 1);
      assert states[n] == Next(config, states[n - 1], actions[n - 1]);
      StepInv(config, states[n - 1], actions[n - 1]);
    }
  }

  // ------------------------------------------------------------- at rest

  predicate AtRest(s: State) {
    forall i :: 0 <= i < |s.slots| ==> s.slots[i].stage in {Idle, Open, Closed}
  }

  function OpenFiles(slots: seq<Slot>, medium: Medium): nat {
    if slots == [] then 0
    else OpenFiles(slots[..|slots| - 1], medium) + (if slots[|slots| - 1] == Slot(medium, Open) then 1 else 0)
  }

  function OpenBytes(slots: seq<Slot>, sizes: seq<nat>, medium: Medium): nat
    requires |slots| <= |sizes|
  {
    if slots == [] then 0
    else OpenBytes(slots[..|slots| - 1], sizes, medium)
         + (if slots[|slots| - 1] == Slot(medium, Open) then sizes[|slots| - 1] else 0)
  }

  ghost function OpenOn(slots: seq<Slot>, medium: Medium): set<int> {
    set i | 0 <= i < |slots| && slots[i] == Slot(medium, Open)
  }

  lemma {:induction false} OpenFilesCounted(slots: seq<Slot>, medium: Medium)
    ensures OpenFiles(slots, medium) == |OpenOn(slots, medium)|
  {
    if slots != [] {
      var before, n := slots[..|slots| - 1], |slots| - 1;
      OpenFilesCounted(before, medium);
      assert OpenOn(slots, medium) == OpenOn(before, medium) + if slots[n] == Slot(medium, Open) then {n} else {};
    }
  }

  ghost function CreatorsOn(slots: seq<Slot>, medium: Medium): set<int> {
    set i | 0 <= i < |slots| && slots[i] in {Slot(medium, Checked), Slot(medium, Numbered)}
  }

  /** The creators a bound is about: past their check, their bytes not yet added. */
  lemma {:induction false} CreatorsCounted(slots: seq<Slot>, sizes: seq<nat>, medium: Medium)
    requires |slots| <= |sizes|
    ensures Total(slots, sizes, medium, Creators) == |CreatorsOn(slots, medium)|
  {
    if slots != [] {
      var before, n := slots[..|slots| - 1], |slots| - 1;
      CreatorsCounted(before, sizes, medium);
      assert CreatorsOn(slots, medium)
          == CreatorsOn(before, medium) + if slots[n] in {Slot(medium, Checked), Slot(medium, Numbered)} then {n} else {};
    }
  }

  lemma {:induction false} RestingTotals(slots: seq<Slot>, sizes: seq<nat>, medium: Medium)
    requires |slots| <= |sizes| && forall i :: 0 <= i < |slots| ==> slots[i].stage in {Idle, Open, Closed}
    ensures Total(slots, sizes, medium, Files) == OpenFiles(slots, medium)
    ensures Total(slots, sizes, medium, Usage) == OpenBytes(slots, sizes, medium)
  {
    if slots != [] {
      RestingTotals(slots[..|slots| - 1], sizes, medium);
    }
  }

  /** In every interleaving the gauges are never negative and never need clamping, and whenever
      no operation is under way they are the number and the bytes of the open storages. */
  lemma GaugesAreExact(config: Config, states: seq<State>, actions: seq<Action>, n: nat, medium: Medium)
    requires IsRun(config, states, actions) && n < |states|
    ensures states[n].On(medium).count >= 0 && states[n].On(medium).usage >= 0 && NeverClamped(states[n])
    ensures AtRest(states[n]) ==>
              && states[n].On(medium).count == |set i | 0 <= i < |states[n].slots| && states[n].slots[i] == Slot(medium, Open)|
              && states[n].On(medium).usage == OpenBytes(states[n].slots, config.sizes, medium)
  {
    hide Total, OpenFiles, OpenBytes, Next, Enabled, Init, IsRun, Idles;
    RunInv(config, states, actions, n);
    if AtRest(states[n]) {
      RestingTotals(states[n].slots, config.sizes, medium);
      OpenFilesCounted(states[n].slots, medium);
    }
  }

  // ------------------------------------------------------------- the limit

  lemma Times(a: int, b: int, c: nat)
    requires a <= b
    ensures a * c <= b * c && (a + 1) * c == a * c + c
  {
  }

  lemma {:induction false} PendingPerCreator(slots: seq<Slot>, sizes: seq<nat>, largest: nat)
    requires |slots| <= |sizes| && forall i :: 0 <= i < |slots| ==> sizes[i] <= largest
    ensures Total(slots, sizes, Disk, Pending) <= Total(slots, sizes, Disk, Creators) * largest
  {
    if slots != [] {
      var last := |slots| - 1;
      PendingPerCreator(slots[..last], sizes, largest);
      var creators := Total(slots[..last], sizes, Disk, Creators);
      Times(creators, creators, largest);
    }
  }

  /** Bodies of at most `largest` bytes, streamed ones at most `excess` longer than announced. */
  ghost predicate Bodies(config: Config, largest: nat, excess: nat) {
    forall i :: 0 <= i < |config.sizes| ==>
      config.sizes[i] <= largest && (config.Announced(i) > 0 ==> config.sizes[i] - config.Announced(i) <= excess)
  }

  ghost predicate FewCreators(config: Config, states: seq<State>, k: nat) {
    forall m :: 0 <= m < |states| ==>
      |states[m].slots| == |config.sizes| && Total(states[m].slots, config.sizes, Disk, Creators) <= k
  }

  ghost predicate Limited(config: Config, s: State, k: nat, largest: nat, excess: nat)
    requires |s.slots| == |config.sizes|
  {
    var claimed := s.disk.usage + Total(s.slots, config.sizes, Disk, Pending);
    claimed == 0 || claimed <= config.maxSize + (k - 1) * largest + excess
  }

  lemma ChoiceLimited(config: Config, s: State, action: Action, k: nat, largest: nat, excess: nat)
    requires Inv(config, s) && Enabled(s, action) && (action.Check? || action.Recheck?) && Bodies(config, largest, excess)
    requires Total(Next(config, s, action).slots, config.sizes, Disk, Creators) <= k
    requires Limited(config, s, k, largest, excess)
    ensures Limited(config, Next(config, s, action), k, largest, excess)
  {
    hide Total;
    var i, slot := action.i, NextSlot(config, s, action);
    var creators := Total(s.slots, config.sizes, Disk, Creators);
    TotalMoves(s.slots, config.sizes, Disk, Pending, i, slot);
    TotalMoves(s.slots, config.sizes, Disk, Creators, i, slot);
    PendingPerCreator(s.slots, config.sizes, largest);
    if slot.medium.Disk? {
      Times(creators, k - 1, largest);
    }
  }

  lemma OtherStepLimited(config: Config, s: State, action: Action, k: nat, largest: nat, excess: nat)
    requires Inv(config, s) && Enabled(s, action) && !action.Check? && !action.Recheck?
    requires Limited(config, s, k, largest, excess)
    ensures Limited(config, Next(config, s, action), k, largest, excess)
  {
    hide Total;
    var slot := NextSlot(config, s, action);
    NextSlotIsUnclamped(config, s, action);
    TotalMoves(s.slots, config.sizes, Disk, Pending, action.i, slot);
    TotalHolds(s.slots, config.sizes, Disk, Usage, action.i);
  }

  lemma {:induction false} RunLimited(config: Config, states: seq<State>, actions: seq<Action>, n: nat, k: nat, largest: nat, excess: nat)
    requires IsRun(config, states, actions) && n < |states| && Bodies(config, largest, excess) && FewCreators(config, states, k)
    ensures |states[n].slots| == |config.sizes| && Limited(config, states[n], k, largest, excess)
  {
    hide Inv, Next, Enabled, Limited, Total, Bodies;
    if n == 0 {
      IdlesWeighNothing(states[0].slots, config.sizes, Disk, Pending);
      LimitedFromZero(config, states[0], k, largest, excess);
    } else {
      RunLimited(config, states, actions, n - 1, k, largest, excess);
      RunInv(config, states, actions, n - 1);
      assert states[n] == Next(config, states[n - 1], actions[n - 1]);
      if actions[n - 1].Check? || actions[n - 1].Recheck? {
        ChoiceLimited(config, states[n - 1], actions[n - 1], k, largest, excess);
      } else {
        OtherStepLimited(config, states[n - 1], actions[n - 1], k, largest, excess);
      }
    }
  }

  lemma LimitedFromZero(config: Config, s: State, k: nat, largest: nat, excess: nat)
    requires |s.slots| == |config.sizes| && s.disk.usage == 0 && Total(s.slots, config.sizes, Disk, Pending) == 0
    ensures Limited(config, s, k, largest, excess)
  {
  }

  /** How far a streamed body of at most `largest` bytes can exceed an announced length that is
      positive. */
  function Surplus(largest: nat, excess: nat): nat {
    if largest == 0 then 0 else if excess < largest then excess else largest - 1
  }

  lemma BodiesSurplus(config: Config, largest: nat, excess: nat)
    requires Bodies(config, largest, excess)
    ensures Bodies(config, largest, Surplus(largest, excess))
  {
  }

  /** With at most k creators between check and increment and bodies of at most `largest`
      bytes, files never take more than the configured maximum, k - 1 bodies, and what one
      streamed body exceeds its announced length by. */
  lemma OvershootIsBounded(config: Config, states: seq<State>, actions: seq<Action>, n: nat, k: nat, largest: nat, excess: nat)
    requires IsRun(config, states, actions) && n < |states| && Bodies(config, largest, excess) && FewCreators(config, states, k)
    ensures states[n].disk.usage == 0
         || states[n].disk.usage <= config.maxSize + (k - 1) * largest + Surplus(largest, excess)
  {
    hide Total, IsRun, Next, Enabled, Init, Bodies, FewCreators, Surplus;
    BodiesSurplus(config, largest, excess);
    RunLimited(config, states, actions, n, k, largest, Surplus(largest, excess));
    RunInv(config, states, actions, n);
  }

  // ------------------------------------------------------------- the bound is reached

  function Copies(size: nat, k: nat): (r: seq<nat>)
    ensures |r| == k && forall i :: 0 <= i < k ==> r[i] == size
  {
    if k == 0 then [] else Copies(size, k - 1) + [size]
  }

  /** k streams of `size` bytes on a disk cache with room for the announced length of one. */
  function RoomForOne(size: nat, length: nat, k: nat): Config {
    Config(true, 0, length, Copies(size, k), Copies(length, k))
  }

  predicate RaceAt(s: State, k: nat, checked: nat, done: nat, size: nat) {
    && |s.slots| == k && done <= checked <= k
    && s.disk == Gauge(done, done * size)
    && forall i :: 0 <= i < k ==>
         if i < done then s.slots[i] == Slot(Disk, Open)
         else if i < checked then s.slots[i] == Slot(Disk, Checked)
         else s.slots[i].stage == Idle
  }

  lemma Extended(config: Config, states: seq<State>, actions: seq<Action>, action: Action)
    requires IsRun(config, states, actions) && Enabled(states[|actions|], action)
    ensures IsRun(config, states + [Next(config, states[|actions|], action)], actions + [action])
  {
  }

  lemma {:induction false} EveryoneChecks(size: nat, length: nat, k: nat, checked: nat) returns (states: seq<State>, actions: seq<Action>)
    requires checked <= k && length > 0
    ensures IsRun(RoomForOne(size, length, k), states, actions) && RaceAt(states[|actions|], k, checked, 0, size)
  {
    hide IsRun;
    var config := RoomForOne(size, length, k);
    if checked == 0 {
      states, actions := [Init(config)], [];
      JustStarted(config);
    } else {
      states, actions := EveryoneChecks(size, length, k, checked - 1);
      RunHasLast(config, states, actions);
      Extended(config, states, actions, Check(checked - 1));
      states, actions := states + [Next(config, states[|actions|], Check(checked - 1))], actions + [Check(checked - 1)];
    }
  }

  lemma JustStarted(config: Config)
    ensures IsRun(config, [Init(config)], [])
  {
  }

  lemma RunHasLast(config: Config, states: seq<State>, actions: seq<Action>)
    requires IsRun(config, states, actions)
    ensures |states| == |actions| + 1 && |states[|actions|].slots| == |config.sizes|
  {
  }

  lemma {:induction false} EveryoneOpens(size: nat, length: nat, k: nat, done: nat) returns (states: seq<State>, actions: seq<Action>)
    requires done <= k && length > 0
    ensures IsRun(RoomForOne(size, length, k), states, actions) && RaceAt(states[|actions|], k, k, done, size)
  {
    hide IsRun;
    var config := RoomForOne(size, length, k);
    if done == 0 {
      states, actions := EveryoneChecks(size, length, k, k);
    } else {
      states, actions := EveryoneOpens(size, length, k, done - 1);
      RunHasLast(config, states, actions);
      var last := states[|actions|];
      var i := done - 1;
      Extended(config, states, actions, Number(i));
      var numbered := Next(config, last, Number(i));
      states, actions := states + [numbered], actions + [Number(i)];
      Extended(config, states, actions, AddUsage(i));
      Times(i, i, size);
      states, actions := states + [Next(config, numbered, AddUsage(i))], actions + [AddUsage(i)];
    }
  }

  /** So the check does not enforce the maximum by itself: k creators that race, with bodies as
      much longer than announced as they may be, really end at that bound. */
  lemma OvershootIsReached(largest: nat, excess: nat, k: nat) returns (config: Config, states: seq<State>, actions: seq<Action>)
    requires k >= 1 && largest >= 1
    ensures IsRun(config, states, actions) && Bodies(config, largest, excess) && FewCreators(config, states, k)
    ensures config.maxSize >= 0
    ensures states[|actions|].disk.usage == config.maxSize + (k - 1) * largest + Surplus(largest, excess)
  {
    hide IsRun, FewCreators;
    var length := largest - Surplus(largest, excess);
    config := RoomForOne(largest, length, k);
    states, actions := EveryoneOpens(largest, length, k, k);
    RunHasLast(config, states, actions);
    Times(k - 1, k - 1, largest);
    RaceHasFew(config, states, actions, k);
  }

  lemma {:induction false} CreatorsAreFew(slots: seq<Slot>, sizes: seq<nat>)
    requires |slots| <= |sizes|
    ensures Total(slots, sizes, Disk, Creators) <= |slots|
  {
    if slots != [] {
      CreatorsAreFew(slots[..|slots| - 1], sizes);
    }
  }

  lemma RaceHasFew(config: Config, states: seq<State>, actions: seq<Action>, k: nat)
    requires IsRun(config, states, actions) && |config.sizes| <= k
    ensures FewCreators(config, states, k)
  {
    hide Total;
    forall m | 0 <= m < |states|
      ensures Total(states[m].slots, config.sizes, Disk, Creators) <= k
    {
      CreatorsAreFew(states[m].slots, config.sizes);
    }
  }

  // ------------------------------------------------------------- when the limit is kept

  ghost predicate Within(config: Config, states: seq<State>, actions: seq<Action>, k: nat, largest: nat, excess: nat) {
    IsRun(config, states, actions) && Bodies(config, largest, excess) && FewCreators(config, states, k)
  }

  /** Usage never exceeds the maximum, or zero where the maximum is below that. */
  ghost predicate KeepsLimit(k: nat, largest: nat, excess: nat) {
    forall config: Config, states: seq<State>, actions: seq<Action> | Within(config, states, actions, k, largest, excess) ::
      |states| == |actions| + 1 && states[|actions|].disk.usage <= Max(0, config.maxSize)
  }

  /** No creator, no bytes, or one creator at a time and no body longer than announced. */
  predicate Enforced(k: nat, largest: nat, excess: nat) {
    k == 0 || largest == 0 || (k == 1 && Surplus(largest, excess) == 0)
  }

  lemma Overshoot(k: nat, largest: nat, excess: nat)
    ensures Enforced(k, largest, excess) && k > 0 ==> (k - 1) * largest + Surplus(largest, excess) <= 0
    ensures !Enforced(k, largest, excess) ==> (k - 1) * largest + Surplus(largest, excess) > 0
  {
    if k >= 2 {
      Times(1, k - 1, largest);
    }
  }

  /** The checks enforce the limit exactly when creators do not overlap and no streamed body is
      longer than announced, or bodies are empty, or nothing is created at all. */
  lemma LimitIsKeptWhen(k: nat, largest: nat, excess: nat)
    ensures KeepsLimit(k, largest, excess) <==> Enforced(k, largest, excess)
  {
    hide IsRun, Total, Bodies, FewCreators, Surplus;
    Overshoot(k, largest, excess);
    if Enforced(k, largest, excess) {
      forall config: Config, states: seq<State>, actions: seq<Action> | Within(config, states, actions, k, largest, excess)
        ensures |states| == |actions| + 1 && states[|actions|].disk.usage <= Max(0, config.maxSize)
      {
        RunHasLast(config, states, actions);
        if k == 0 {
          NoCreatorNoUsage(config, states, actions, |actions|);
        } else {
          OvershootIsBounded(config, states, actions, |actions|, k, largest, excess);
        }
      }
    } else {
      hide Enforced;
      Racers(k, largest, excess);
      var config, states, actions := OvershootIsReached(largest, excess, k);
      assert Within(config, states, actions, k, largest, excess);
    }
  }

  lemma Racers(k: nat, largest: nat, excess: nat)
    requires !Enforced(k, largest, excess)
    ensures k >= 1 && largest >= 1
  {
  }

  /** Without creators nothing is ever on disk. */
  lemma {:induction false} NoCreatorNoUsage(config: Config, states: seq<State>, actions: seq<Action>, n: nat)
    requires IsRun(config, states, actions) && FewCreators(config, states, 0) && n < |states|
    ensures states[n].disk.usage == 0 && Total(states[n].slots, config.sizes, Disk, Usage) == 0
    ensures Total(states[n].slots, config.sizes, Disk, Files) == 0
  {
    if n == 0 {
      IdlesWeighNothing(states[0].slots, config.sizes, Disk, Usage);
      IdlesWeighNothing(states[0].slots, config.sizes, Disk, Files);
    } else {
      NoCreatorNoUsage(config, states, actions, n - 1);
      RunInv(config, states, actions, n - 1);
      RunInv(config, states, actions, n);
      NoCreatorStep(config, states[n - 1], actions[n - 1]);
    }
  }

  lemma NoCreatorStep(config: Config, s: State, action: Action)
    requires Inv(config, s) && Enabled(s, action) && s.disk.usage == 0 && Total(s.slots, config.sizes, Disk, Files) == 0
    requires Total(s.slots, config.sizes, Disk, Creators) == 0 && Total(Next(config, s, action).slots, config.sizes, Disk, Creators) == 0
    ensures var t := Next(config, s, action);
            Total(t.slots, config.sizes, Disk, Usage) == 0 && Total(t.slots, config.sizes, Disk, Files) == 0 && t.disk.usage == 0
  {
    hide Total;
    var slot := NextSlot(config, s, action);
    StepInv(config, s, action);
    TotalMoves(s.slots, config.sizes, Disk, Usage, action.i, slot);
    TotalMoves(s.slots, config.sizes, Disk, Files, action.i, slot);
    TotalHolds(s.slots, config.sizes, Disk, Creators, action.i);
    TotalHolds(s.slots, config.sizes, Disk, Files, action.i);
  }
}
