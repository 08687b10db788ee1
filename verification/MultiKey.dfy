/** A channel with several keys: a key list and three maps, keyed by position,
    that have to stay aligned with it while keys come and go. */
module MultiKey {
  import opened Basics
  import opened NameLists
  import opened Text

  const ENABLED := 1
  const MANUAL := 2
  const AUTO := 3

  datatype State = State(keys: seq<string>, status: map<int, int>, time: map<int, int>, reason: map<int, string>)

  /** The effective status of a position; a missing entry means enabled. */
  function Status(s: State, i: int): (status: int)
    ensures i !in s.status ==> status == 1
  {
    if i in s.status then s.status[i] else ENABLED
  }

  /** What a key shows: its status and, when it is disabled, when and why. */
  datatype View = View(key: string, status: int, time: int, reason: string)

  function ViewAt(s: State, i: nat): View
    requires i < |s.keys|
  {
    var status := Status(s, i);
    if status == ENABLED then View(s.keys[i], status, 0, "")
    else View(s.keys[i], status, if i in s.time then s.time[i] else 0, if i in s.reason then s.reason[i] else "")
  }

  function ViewsTo(s: State, n: nat): (vs: seq<View>)
    requires n <= |s.keys|
    ensures |vs| == n && forall i | 0 <= i < n :: vs[i] == ViewAt(s, i)
  {
    if n == 0 then [] else ViewsTo(s, n - 1) + [ViewAt(s, n - 1)]
  }

  function Views(s: State): seq<View> { ViewsTo(s, |s.keys|) }

  /** No map names a position that does not exist. */
  ghost predicate Aligned(s: State) {
    && (forall i | i in s.status :: 0 <= i < |s.keys|)
    && (forall i | i in s.time :: 0 <= i < |s.keys|)
    && (forall i | i in s.reason :: 0 <= i < |s.keys|)
  }

  // ------------------------------------------------------------- rebuilding the list

  /** One more surviving key with its data moved to the next free position. The
      two deletions differ in whether an enabled key carries stale times over. */
  function Extend(s: State, t: State, j: nat, stale: bool): State
    requires j < |s.keys|
  {
    var n, status := |t.keys|, Status(s, j);
    var carry := stale || status != ENABLED;
    State(t.keys + [s.keys[j]],
          if status != ENABLED then t.status[n := status] else t.status,
          if carry && j in s.time then t.time[n := s.time[j]] else t.time,
          if carry && j in s.reason then t.reason[n := s.reason[j]] else t.reason)
  }

  const NO_KEYS := State([], map[], map[], map[])

  predicate Positions(s: State, kept: seq<nat>) {
    forall k | 0 <= k < |kept| :: kept[k] < |s.keys|
  }

  function Rebuilt(s: State, kept: seq<nat>, stale: bool): State
    requires Positions(s, kept)
  {
    if kept == [] then NO_KEYS
    else Extend(s, Rebuilt(s, kept[..|kept| - 1], stale), kept[|kept| - 1], stale)
  }

  function Chosen(vs: seq<View>, kept: seq<nat>): (cs: seq<View>)
    requires forall k | 0 <= k < |kept| :: kept[k] < |vs|
    ensures |cs| == |kept| && forall k | 0 <= k < |kept| :: cs[k] == vs[kept[k]]
  {
    if kept == [] then [] else Chosen(vs, kept[..|kept| - 1]) + [vs[kept[|kept| - 1]]]
  }

  lemma ExtendAligned(s: State, t: State, j: nat, stale: bool)
    requires j < |s.keys| && Aligned(t)
    ensures Aligned(Extend(s, t, j, stale))
  {
  }

  lemma ExtendView(s: State, t: State, j: nat, stale: bool, i: nat)
    requires j < |s.keys| && Aligned(t) && i <= |t.keys|
    ensures ViewAt(Extend(s, t, j, stale), i) == if i < |t.keys| then ViewAt(t, i) else ViewAt(s, j)
  {
  }

  lemma ExtendViews(s: State, t: State, j: nat, stale: bool)
    requires j < |s.keys| && Aligned(t)
    ensures Aligned(Extend(s, t, j, stale))
    ensures Views(Extend(s, t, j, stale)) == Views(t) + [ViewAt(s, j)]
  {
    ExtendAligned(s, t, j, stale);
    var u := Extend(s, t, j, stale);
    hide Aligned, ViewAt, Extend;
    forall i | 0 <= i <= |t.keys|
      ensures i < |u.keys| && ViewAt(u, i) == if i < |t.keys| then ViewAt(t, i) else ViewAt(s, j)
    {
      ExtendView(s, t, j, stale, i);
    }
    ExtendLength(s, t, j, stale);
  }

  lemma ExtendLength(s: State, t: State, j: nat, stale: bool)
    requires j < |s.keys|
    ensures |Extend(s, t, j, stale).keys| == |t.keys| + 1
  {
  }

  /** Re-indexing keeps the order of the survivors and what each of them shows. */
  lemma {:induction false} RebuiltViews(s: State, kept: seq<nat>, stale: bool)
    requires Positions(s, kept)
    ensures Aligned(Rebuilt(s, kept, stale)) && Views(Rebuilt(s, kept, stale)) == Chosen(Views(s), kept)
  {
    hide Extend, ViewAt;
    if kept != [] {
      RebuiltViews(s, kept[..|kept| - 1], stale);
      ExtendViews(s, Rebuilt(s, kept[..|kept| - 1], stale), kept[|kept| - 1], stale);
    }
  }

  lemma {:induction false} RebuiltAligned(s: State, kept: seq<nat>, stale: bool)
    requires Positions(s, kept)
    ensures Aligned(Rebuilt(s, kept, stale)) && |Rebuilt(s, kept, stale).keys| == |kept|
  {
    if kept != [] {
      RebuiltAligned(s, kept[..|kept| - 1], stale);
    }
  }

  /** The positions below i other than k. */
  function Others(k: nat, i: nat): (kept: seq<nat>)
    ensures |kept| == if i <= k then i else i - 1
    ensures forall j | 0 <= j < |kept| :: kept[j] < i && kept[j] == if j < k then j else j + 1
  {
    if i == 0 then [] else if i - 1 == k then Others(k, i - 1) else Others(k, i - 1) + [i - 1]
  }

  /** The positions below i that are not auto-disabled. */
  function Survivors(s: State, i: nat): (kept: seq<nat>)
    ensures forall j | 0 <= j < |kept| :: kept[j] < i
  {
    if i == 0 then [] else if Status(s, i - 1) == AUTO then Survivors(s, i - 1) else Survivors(s, i - 1) + [i - 1]
  }

  lemma OthersGrow(k: nat, i: nat)
    ensures Others(k, 0) == [] && Others(k, i + 1) == if i == k then Others(k, i) else Others(k, i) + [i]
  {
  }

  function Remove(vs: seq<View>, k: nat): seq<View>
    requires k < |vs|
  {
    vs[..k] + vs[k + 1..]
  }

  function WithoutAuto(vs: seq<View>): seq<View> {
    if vs == [] then []
    else WithoutAuto(vs[..|vs| - 1]) + (if vs[|vs| - 1].status == AUTO then [] else [vs[|vs| - 1]])
  }

  lemma ChosenOthers(vs: seq<View>, k: nat)
    requires k < |vs|
    ensures Chosen(vs, Others(k, |vs|)) == Remove(vs, k)
  {
    hide Others, Chosen;
  }

  lemma ChosenOneMore(vs: seq<View>, kept: seq<nat>, j: nat)
    requires (forall k | 0 <= k < |kept| :: kept[k] < |vs|) && j < |vs|
    ensures Chosen(vs, kept + [j]) == Chosen(vs, kept) + [vs[j]]
  {
    hide Chosen;
  }

  lemma {:induction false} ChosenSurvivors(s: State, i: nat)
    requires i <= |s.keys|
    ensures Chosen(Views(s), Survivors(s, i)) == WithoutAuto(Views(s)[..i])
  {
    hide Chosen, ViewsTo;
    var vs := Views(s);
    if i == 0 {
      assert Chosen(vs, []) == [];
    } else {
      ChosenSurvivors(s, i - 1);
      assert vs[..i][..i - 1] == vs[..i - 1];
      assert vs[i - 1] == ViewAt(s, i - 1);
      hide Status, ViewAt;
      ChosenOneMore(vs, Survivors(s, i - 1), i - 1);
    }
  }

  // ------------------------------------------------------------- the actions

  function DeletedKey(s: State, k: nat): State { Rebuilt(s, Others(k, |s.keys|), true) }

  /** When every key is auto-disabled the list of survivors is empty. Saving a
      channel with an empty key leaves the stored key alone, so the keys stay and
      only their status data is lost. */
  function DeletedDisabled(s: State): State {
    var kept := Survivors(s, |s.keys|);
    if |kept| == |s.keys| then s
    else if kept == [] then State(s.keys, map[], map[], map[])
    else Rebuilt(s, kept, false)
  }

  function AllDisabled(s: State, n: nat): map<int, int> {
    if n == 0 then s.status
    else
      var m := AllDisabled(s, n - 1);
      if Status(s, n - 1) == ENABLED then m[n - 1 := MANUAL] else m
  }

  datatype Action =
    | DisableKey(index: int) | EnableKey(index: int) | EnableAll | DisableAll
    | DeleteKey(index: int) | DeleteDisabled
    | AutoDisable(usingKey: string, now: int, why: string)
    | Append(input: seq<string>)

  function FirstAt(keys: seq<string>, key: string, i: nat): int
    requires i <= |keys|
    decreases |keys| - i
  {
    if i == |keys| then -1 else if keys[i] == key then i else FirstAt(keys, key, i + 1)
  }

  /** Keys worth adding: trimmed, not empty, and not seen before. */
  function Fresh(seen: seq<string>, input: seq<string>): seq<string> {
    if input == [] then []
    else
      var rest := Fresh(seen, input[..|input| - 1]);
      var key := TrimSpace(input[|input| - 1]);
      if key == "" || key in seen || key in rest then rest else rest + [key]
  }

  function Normalized(keys: seq<string>): seq<string> {
    if keys == [] then []
    else
      var key := TrimSpace(keys[|keys| - 1]);
      if key == "" then Normalized(keys[..|keys| - 1]) else Normalized(keys[..|keys| - 1]) + [key]
  }

  function After(s: State, a: Action): State {
    match a
    case DisableKey(i) => if 0 <= i < |s.keys| then s.(status := s.status[i := MANUAL]) else s
    case EnableKey(i) =>
      if 0 <= i < |s.keys| then s.(status := s.status - {i}, time := s.time - {i}, reason := s.reason - {i}) else s
    case EnableAll => s.(status := map[], time := map[], reason := map[])
    case DisableAll => s.(status := AllDisabled(s, |s.keys|))
    case DeleteKey(i) => if 0 <= i < |s.keys| && |s.keys| > 1 then DeletedKey(s, i) else s
    case DeleteDisabled => DeletedDisabled(s)
    case AutoDisable(usingKey, now, why) =>
      var i := FirstAt(s.keys, usingKey, 0);
      if i < 0 then s else s.(status := s.status[i := AUTO], time := s.time[i := now], reason := s.reason[i := why])
    case Append(input) =>
      if s.keys == [] then s else s.(keys := s.keys + Fresh(Normalized(s.keys), input))
  }

  // ------------------------------------------------------------- what every action does to the views

  lemma DeletedKeyViews(s: State, k: nat)
    requires k < |s.keys|
    ensures Aligned(DeletedKey(s, k)) && Views(DeletedKey(s, k)) == Remove(Views(s), k)
  {
    hide Rebuilt, Aligned, Others, Chosen;
    RebuiltViews(s, Others(k, |s.keys|), true);
    ChosenOthers(Views(s), k);
  }

  lemma DeletedKeyAt(s: State, k: nat, i: nat)
    requires k < |s.keys| && i < |s.keys| - 1
    ensures |DeletedKey(s, k).keys| == |s.keys| - 1
    ensures ViewAt(DeletedKey(s, k), i) == ViewAt(s, if i < k then i else i + 1)
  {
    hide DeletedKey, ViewAt, Aligned;
    DeletedKeyViews(s, k);
    assert |Views(DeletedKey(s, k))| == |s.keys| - 1;
    assert Views(DeletedKey(s, k))[i] == Views(s)[if i < k then i else i + 1];
  }

  ghost predicate AllAuto(s: State) {
    forall i | 0 <= i < |s.keys| :: Status(s, i) == AUTO
  }

  lemma {:induction false} SurvivorsNone(s: State, i: nat)
    ensures Survivors(s, i) == [] <==> forall j | 0 <= j < i :: Status(s, j) == AUTO
    ensures |Survivors(s, i)| <= i
    ensures |Survivors(s, i)| == i <==> forall j | 0 <= j < i :: Status(s, j) != AUTO
  {
    if i > 0 {
      SurvivorsNone(s, i - 1);
    }
  }

  lemma {:induction false} NothingToRemove(vs: seq<View>)
    requires forall i | 0 <= i < |vs| :: vs[i].status != AUTO
    ensures WithoutAuto(vs) == vs
  {
    if vs != [] {
      NothingToRemove(vs[..|vs| - 1]);
    }
  }

  lemma {:induction false} EverythingRemoved(vs: seq<View>)
    requires forall i | 0 <= i < |vs| :: vs[i].status == AUTO
    ensures WithoutAuto(vs) == []
  {
    if vs != [] {
      EverythingRemoved(vs[..|vs| - 1]);
    }
  }

  lemma {:induction false} SurvivorsAre(s: State, i: nat)
    ensures forall j: nat :: j in Survivors(s, i) <==> j < i && Status(s, j) != 3
    ensures forall j, k | 0 <= j < k < |Survivors(s, i)| :: Survivors(s, i)[j] < Survivors(s, i)[k]
  {
    hide Status;
    if i > 0 {
      SurvivorsAre(s, i - 1);
    }
  }

  lemma {:induction false} SurvivorsCounted(s: State, i: nat)
    ensures |Survivors(s, i)| + |AutoBelow(s, i)| == i
  {
    hide Status;
    if i > 0 {
      SurvivorsCounted(s, i - 1);
      assert AutoBelow(s, i) == AutoBelow(s, i - 1) + if Status(s, i - 1) == AUTO then {i - 1} else {};
    }
  }

  /** The auto-disabled positions below i. */
  ghost function AutoBelow(s: State, i: nat): set<int> {
    set j | 0 <= j < i && Status(s, j) == 3
  }

  /** What deleting the auto-disabled keys leaves, position by position. */
  lemma DeletedDisabledKeeps(s: State) returns (kept: seq<nat>)
    requires Aligned(s) && exists i | 0 <= i < |s.keys| :: Status(s, i) != 3
    ensures forall j, k | 0 <= j < k < |kept| :: kept[j] < kept[k]
    ensures forall j: nat :: j in kept <==> j < |s.keys| && Status(s, j) != 3
    ensures var t := After(s, DeleteDisabled);
      |t.keys| == |kept| && forall k | 0 <= k < |kept| :: kept[k] < |s.keys| && ViewAt(t, k) == ViewAt(s, kept[k])
  {
    hide Rebuilt, Chosen, ViewAt, Status, Aligned;
    var n := |s.keys|;
    kept := Survivors(s, n);
    SurvivorsAre(s, n);
    SurvivorsNone(s, n);
    if |kept| == n {
      IncreasingFull(kept, n);
    } else {
      RebuiltViews(s, kept, false);
      assert forall k | 0 <= k < |kept| :: Views(Rebuilt(s, kept, false))[k] == Views(s)[kept[k]];
    }
  }

  lemma IncreasingFull(kept: seq<nat>, n: nat)
    requires |kept| == n && (forall j, k | 0 <= j < k < n :: kept[j] < kept[k]) && forall j | 0 <= j < n :: kept[j] < n
    ensures forall k | 0 <= k < n :: kept[k] == k
  {
    forall k | 0 <= k < n
      ensures kept[k] == k
    {
      AtLeast(kept, k);
      AtMost(kept, n, k);
    }
  }

  lemma {:induction false} AtLeast(kept: seq<nat>, k: nat)
    requires k < |kept| && forall i, j | 0 <= i < j < |kept| :: kept[i] < kept[j]
    ensures k <= kept[k]
  {
    if k > 0 {
      AtLeast(kept, k - 1);
    }
  }

  lemma {:induction false} AtMost(kept: seq<nat>, n: nat, k: nat)
    requires k < |kept| == n && (forall i, j | 0 <= i < j < n :: kept[i] < kept[j]) && forall j | 0 <= j < n :: kept[j] < n
    ensures kept[k] <= k
    decreases n - k
  {
    if k < n - 1 {
      AtMost(kept, n, k + 1);
    }
  }

  /** Deleting the auto-disabled keys leaves exactly the others, in order and with
      their data, if and only if some key survives or there was none to begin
      with. Otherwise nothing is deleted and every key comes back enabled. */
  lemma DeletedDisabledViews(s: State)
    requires Aligned(s)
    ensures Aligned(DeletedDisabled(s))
    ensures Views(DeletedDisabled(s)) == WithoutAuto(Views(s)) <==> s.keys == [] || !AllAuto(s)
    ensures s.keys != [] && AllAuto(s) ==>
              Views(DeletedDisabled(s)) == seq(|s.keys|, i requires 0 <= i < |s.keys| => View(s.keys[i], ENABLED, 0, ""))
  {
    hide Rebuilt, Chosen;
    var n := |s.keys|;
    SurvivorsNone(s, n);
    assert Views(s)[..n] == Views(s);
    if AllAuto(s) {
      EverythingRemoved(Views(s));
    } else if |Survivors(s, n)| == n {
      NothingToRemove(Views(s));
    } else {
      RebuiltViews(s, Survivors(s, n), false);
      ChosenSurvivors(s, n);
    }
  }

  lemma {:induction false} FirstAtIs(keys: seq<string>, key: string, i: nat)
    requires i <= |keys|
    ensures var j := FirstAt(keys, key, i);
      if j < 0 then forall m | i <= m < |keys| :: keys[m] != key
      else i <= j < |keys| && keys[j] == key && forall m | i <= m < j :: keys[m] != key
    decreases |keys| - i
  {
    if i < |keys| && keys[i] != key {
      FirstAtIs(keys, key, i + 1);
    }
  }

  lemma {:induction false} AllDisabledIs(s: State, n: nat)
    requires n <= |s.keys| && forall i | i in s.status :: 0 <= i < |s.keys|
    ensures var m := AllDisabled(s, n);
      && (forall i | i in m :: 0 <= i < |s.keys|)
      && (forall i :: i in s.status || 0 <= i < n <==> i in m)
      && (n == 0 ==> m == s.status)
      && (forall i | i in m :: m[i] == if 0 <= i < n && Status(s, i) == ENABLED then MANUAL else s.status[i])
  {
    if n > 0 {
      AllDisabledIs(s, n - 1);
    }
  }

  lemma AllDisabledStep(s: State, i: nat)
    requires i < |s.keys| && forall k | k in s.status :: 0 <= k < |s.keys|
    ensures var m := AllDisabled(s, i);
      && (if i in m then m[i] else ENABLED) == Status(s, i)
      && AllDisabled(s, i + 1) == if Status(s, i) == ENABLED then m[i := MANUAL] else m
  {
    AllDisabledIs(s, i);
  }

  // ------------------------------------------------------------- runs

  /** A change of status data at positions that exist. */
  lemma AlignedAfter(s: State, a: Action)
    requires Aligned(s)
    ensures Aligned(After(s, a))
  {
    match a
    case DeleteKey(i) =>
      if 0 <= i < |s.keys| && |s.keys| > 1 {
        DeletedKeyViews(s, i);
      }
    case DeleteDisabled => DeletedDisabledViews(s);
    case DisableAll => AllDisabledIs(s, |s.keys|);
    case AutoDisable(usingKey, _, _) => FirstAtIs(s.keys, usingKey, 0);
    case _ =>
  }

  function Run(s: State, actions: seq<Action>): State
    decreases |actions|
  {
    if actions == [] then s else Run(After(s, actions[0]), actions[1..])
  }

  /** Over every run of actions the three maps stay within the key list. */
  lemma {:induction false} RunStaysAligned(s: State, actions: seq<Action>)
    requires Aligned(s)
    ensures Aligned(Run(s, actions))
    decreases |actions|
  {
    hide After, Aligned;
    if actions != [] {
      AlignedAfter(s, actions[0]);
      RunStaysAligned(After(s, actions[0]), actions[1..]);
    }
  }

  /** A key that was just disabled by hand; time and reason are whatever was left there. */
  function ByHand(s: State, i: nat): (v: View)
    requires i < |s.keys|
    ensures v.key == s.keys[i] && v.status == 2
  {
    View(s.keys[i], MANUAL, if i in s.time then s.time[i] else 0, if i in s.reason then s.reason[i] else "")
  }

  /** Any action but a deletion keeps every key where it is and what the other
      keys show; the action's own key, if any, is the only one to change. */
  lemma OthersUntouched(s: State, a: Action, i: nat)
    requires Aligned(s) && i < |s.keys| && !a.DeleteKey? && !a.DeleteDisabled?
    ensures s.keys <= After(s, a).keys
    ensures var w := ViewAt(After(s, a), i);
      match a
      case DisableKey(k) => w == if i == k then ByHand(s, i) else ViewAt(s, i)
      case EnableKey(k) => w == if i == k then View(s.keys[i], 1, 0, "") else ViewAt(s, i)
      case EnableAll => w == View(s.keys[i], 1, 0, "")
      case DisableAll => w == if Status(s, i) == 1 then ByHand(s, i) else ViewAt(s, i)
      case AutoDisable(key, now, why) =>
        w == if s.keys[i] == key && key !in s.keys[..i] then View(key, 3, now, why) else ViewAt(s, i)
      case Append(_) => w == ViewAt(s, i)
      case DeleteKey(_) => true
      case DeleteDisabled => true
  {
    match a
    case DisableAll => AllDisabledIs(s, |s.keys|);
    case AutoDisable(usingKey, _, _) => FirstAtIs(s.keys, usingKey, 0);
    case _ =>
  }

  // ------------------------------------------------------------- one at a time

  /** delete_key for every auto-disabled position below n, the highest first. */
  function DeletedOneByOne(s: State, n: nat): State
    decreases n
  {
    if n == 0 then s
    else DeletedOneByOne(if n <= |s.keys| && Status(s, n - 1) == AUTO then After(s, DeleteKey(n - 1)) else s, n - 1)
  }

  lemma RemoveAbove(vs: seq<View>, n: nat)
    requires 0 < n <= |vs|
    ensures WithoutAuto(vs[..n]) + vs[n..] ==
            if vs[n - 1].status == AUTO then WithoutAuto(Remove(vs, n - 1)[..n - 1]) + Remove(vs, n - 1)[n - 1..]
            else WithoutAuto(vs[..n - 1]) + vs[n - 1..]
  {
    assert vs[..n][..n - 1] == vs[..n - 1];
    assert Remove(vs, n - 1)[..n - 1] == vs[..n - 1] && Remove(vs, n - 1)[n - 1..] == vs[n..];
    assert [vs[n - 1]] + vs[n..] == vs[n - 1..];
  }

  lemma {:induction false} OneByOneViews(s: State, n: nat)
    requires Aligned(s) && n <= |s.keys| && WithoutAuto(Views(s)[..n]) + Views(s)[n..] != []
    ensures Views(DeletedOneByOne(s, n)) == WithoutAuto(Views(s)[..n]) + Views(s)[n..]
    decreases n
  {
    hide Aligned, WithoutAuto, ViewAt, ViewsTo, DeletedKey;
    if n == 0 {
      NoPrefix(Views(s));
    } else {
      RemoveAbove(Views(s), n);
      StatusShown(s, n - 1);
      if Status(s, n - 1) == AUTO {
        DeletedKeyViews(s, n - 1);
        LastOneSurvives(Views(s), n);
        OneByOneViews(DeletedKey(s, n - 1), n - 1);
      } else {
        OneByOneViews(s, n - 1);
      }
    }
  }

  lemma StatusShown(s: State, i: nat)
    requires i < |s.keys|
    ensures Views(s)[i].status == Status(s, i)
  {
  }

  lemma NoPrefix(vs: seq<View>)
    ensures WithoutAuto(vs[..0]) + vs[0..] == vs
  {
  }

  /** A list of one auto-disabled key has no survivor. */
  lemma LastOneSurvives(vs: seq<View>, n: nat)
    requires 0 < n <= |vs| && vs[n - 1].status == AUTO && WithoutAuto(vs[..n]) + vs[n..] != []
    ensures |vs| > 1
  {
    if |vs| == 1 {
      assert vs[..1][..0] == [];
    }
  }

  /** delete_disabled_keys does what deleting each auto-disabled key by itself
      does, from the last to the first, whenever some key survives. */
  lemma DisabledOneByOne(s: State)
    requires Aligned(s) && !AllAuto(s)
    ensures Views(DeletedDisabled(s)) == Views(DeletedOneByOne(s, |s.keys|))
  {
    hide Aligned, WithoutAuto, ViewAt, ViewsTo, DeletedDisabled, DeletedOneByOne;
    var vs, n := Views(s), |s.keys|;
    SomeoneSurvives(s);
    DeletedDisabledViews(s);
    assert vs[..n] == vs && vs[n..] == [];
    assert WithoutAuto(vs[..n]) + vs[n..] == WithoutAuto(vs);
    OneByOneViews(s, n);
  }

  lemma SomeoneSurvives(s: State)
    requires !AllAuto(s)
    ensures WithoutAuto(Views(s)) != []
  {
    hide Chosen;
    SurvivorsNone(s, |s.keys|);
    ChosenSurvivors(s, |s.keys|);
    assert Views(s)[..|s.keys|] == Views(s);
    assert |Chosen(Views(s), Survivors(s, |s.keys|))| > 0;
  }

  // ------------------------------------------------------------- appending

  /** Appending adds keys that are trimmed, distinct and new, and misses none. */
  lemma {:induction false} FreshIs(seen: seq<string>, input: seq<string>)
    ensures forall i | 0 <= i < |Fresh(seen, input)| :: Fresh(seen, input)[i] != "" && Fresh(seen, input)[i] !in seen
    ensures forall i, j | 0 <= i < j < |Fresh(seen, input)| :: Fresh(seen, input)[i] != Fresh(seen, input)[j]
    ensures forall i | 0 <= i < |input| && TrimSpace(input[i]) != "" ::
              TrimSpace(input[i]) in seen || TrimSpace(input[i]) in Fresh(seen, input)
    ensures forall key | key in Fresh(seen, input) :: exists i :: 0 <= i < |input| && TrimSpace(input[i]) == key
  {
    hide TrimSpace;
    if input != [] {
      var n := |input| - 1;
      FreshIs(seen, input[..n]);
      forall key | key in Fresh(seen, input)
        ensures exists i :: 0 <= i < |input| && TrimSpace(input[i]) == key
      {
        if key in Fresh(seen, input[..n]) {
          var i :| 0 <= i < n && TrimSpace(input[..n][i]) == key;
          assert input[i] == input[..n][i];
        } else {
          assert TrimSpace(input[n]) == key;
        }
      }
      assert forall i | 0 <= i < n :: input[i] == input[..n][i];
    }
  }

  lemma {:induction false} NormalizedAre(keys: seq<string>)
    ensures forall key :: key in Normalized(keys) <==> key != "" && exists i | 0 <= i < |keys| :: TrimSpace(keys[i]) == key
  {
    hide TrimSpace;
    if keys != [] {
      var before, n := keys[..|keys| - 1], |keys| - 1;
      NormalizedAre(before);
      forall key
        ensures key in Normalized(keys) <==> key != "" && exists i | 0 <= i < |keys| :: TrimSpace(keys[i]) == key
      {
        if key in Normalized(before) {
          var i :| 0 <= i < |before| && TrimSpace(before[i]) == key;
          assert TrimSpace(keys[i]) == key;
        }
        if key != "" && exists i | 0 <= i < |keys| :: TrimSpace(keys[i]) == key {
          var i :| 0 <= i < |keys| && TrimSpace(keys[i]) == key;
          assert i == n || before[i] == keys[i];
        }
      }
    }
  }

  lemma {:induction false} FreshInOrder(seen: seq<string>, input: seq<string>)
    ensures InOrderOf(Fresh(seen, input), TrimmedEach(input))
  {
    hide TrimSpace, InOrderOf;
    if input == [] {
      NothingInOrder(TrimmedEach(input));
    } else {
      var before, key := input[..|input| - 1], TrimSpace(input[|input| - 1]);
      FreshInOrder(seen, before);
      OneMore(Fresh(seen, before), TrimmedEach(before), key);
      assert TrimmedEach(input) == TrimmedEach(before) + [key];
      FreshIs(seen, before);
      assert key in TrimmedEach(before) ==> key == "" || key in seen || key in Fresh(seen, before);
    }
  }

  /** What appending promises: the old keys stay in front, unchanged; behind them stand the trimmed
      new keys that are not empty and not the trimmed form of an old key, each once and in the order
      in which they were entered. */
  ghost predicate Appends(before: seq<string>, input: seq<string>, after: seq<string>) {
    && before <= after && InOrderOf(after[|before|..], TrimmedEach(input))
    && forall key :: key in after[|before|..] <==>
         && key != "" && (exists i | 0 <= i < |input| :: TrimSpace(input[i]) == key)
         && !(exists j | 0 <= j < |before| :: TrimSpace(before[j]) == key)
  }

  lemma AppendedKeys(s: State, input: seq<string>)
    requires s.keys != []
    ensures Appends(s.keys, input, After(s, Append(input)).keys)
  {
    hide TrimSpace, InOrderOf;
    var seen, after := Normalized(s.keys), After(s, Append(input)).keys;
    FreshIs(seen, input);
    FreshInOrder(seen, input);
    NormalizedAre(s.keys);
    assert after[|s.keys|..] == Fresh(seen, input);
  }

  /** So no new key is the trimmed form of an old one. */
  lemma NewKeysAreNew(s: State, input: seq<string>, k: nat, j: nat)
    requires j < |s.keys| <= k < |After(s, Append(input)).keys|
    ensures TrimSpace(s.keys[j]) != After(s, Append(input)).keys[k]
  {
    hide TrimSpace, InOrderOf, After;
    AppendedKeys(s, input);
    var after, n := After(s, Append(input)).keys, |s.keys|;
    assert after[n..][k - n] == after[k];
    assert after[k] in after[n..];
  }

  /** And every key that was entered is there, trimmed. */
  lemma AppendMissesNothing(s: State, input: seq<string>, i: nat)
    requires s.keys != [] && i < |input| && TrimSpace(input[i]) != ""
    ensures exists m | 0 <= m < |After(s, Append(input)).keys| :: TrimSpace(After(s, Append(input)).keys[m]) == TrimSpace(input[i])
  {
    hide TrimSpace, InOrderOf, After, Tight;
    AppendedKeys(s, input);
    var after, key, n := After(s, Append(input)).keys, TrimSpace(input[i]), |s.keys|;
    TrimSpaceIs(input[i]);
    TrimOfTight(key);
    if j :| 0 <= j < n && TrimSpace(s.keys[j]) == key {
      assert after[j] == s.keys[j];
    } else {
      assert key in after[n..];
      var m :| 0 <= m < |after[n..]| && after[n..][m] == key;
      assert after[n + m] == key;
    }
  }

  /** The appended keys start out enabled, whatever indices were used before. */
  lemma AppendedAreEnabled(s: State, input: seq<string>, i: nat)
    requires Aligned(s) && |s.keys| <= i < |After(s, Append(input)).keys|
    ensures ViewAt(After(s, Append(input)), i) == View(After(s, Append(input)).keys[i], 1, 0, "")
  {
  }

  // ------------------------------------------------------------- replacing the keys

  /** An edit that replaces the keys keeps the three maps, and saving drops status entries beyond
      the new list but no times and reasons. An empty list is not written. */
  function ReplacedKeys(s: State, keys: seq<string>): State {
    var list := if keys == [] then s.keys else keys;
    State(list, map i | i in s.status && i < |list| :: s.status[i], s.time, s.reason)
  }

  /** So the maps stay within the list exactly when no time or reason lies beyond it. */
  lemma ReplacedStaysAlignedWhen(s: State, keys: seq<string>)
    requires Aligned(s)
    ensures Aligned(ReplacedKeys(s, keys))
       <==> (forall i | i in s.time :: i < |ReplacedKeys(s, keys).keys|) && forall i | i in s.reason :: i < |ReplacedKeys(s, keys).keys|
  {
  }

  /** A new key shows what the key at its position showed before; those behind are enabled. */
  lemma ReplacedInherit(s: State, keys: seq<string>, i: nat)
    requires Aligned(s) && i < |ReplacedKeys(s, keys).keys|
    ensures var key := ReplacedKeys(s, keys).keys[i];
            ViewAt(ReplacedKeys(s, keys), i) == if i < |s.keys| then ViewAt(s, i).(key := key) else View(key, ENABLED, 0, "")
  {
  }

  /** A shorter list leaves the time and the reason of a key behind that no longer exists. A key
      that is appended and disabled by hand later shows them. */
  lemma StaleReasonComesBack(a: string, b: string, c: string, now: int, why: string)
    requires TrimSpace(a) == a != "" && TrimSpace(c) == c != "" && a != c && a != b
    ensures var start := State([a, b], map[], map[], map[]);
            var cut := ReplacedKeys(After(start, AutoDisable(b, now, why)), [a]);
            var end := After(After(cut, Append([c])), DisableKey(1));
            !Aligned(cut) && end.keys == [a, c] && ViewAt(end, 1) == View(c, MANUAL, now, why)
  {
    hide TrimSpace;
    var start := State([a, b], map[], map[], map[]);
    assert FirstAt([a, b], b, 0) == 1;
    var failed := After(start, AutoDisable(b, now, why));
    assert failed == State([a, b], map[1 := AUTO], map[1 := now], map[1 := why]);
    var cut := ReplacedKeys(failed, [a]);
    assert cut == State([a], map[], map[1 := now], map[1 := why]);
    assert 1 in cut.time;
    OnlyFresh(a, c);
    var longer := After(cut, Append([c]));
    assert longer.keys == [a, c];
  }

  lemma OnlyFresh(a: string, c: string)
    requires TrimSpace(a) == a != "" && TrimSpace(c) == c != "" && a != c
    ensures Fresh(Normalized([a]), [c]) == [c]
  {
    hide TrimSpace;
    assert [a][..0] == [] && [c][..0] == [];
    assert Normalized([]) == [] && Normalized([a]) == [a];
    assert Fresh([a], []) == [];
  }

  // ------------------------------------------------------------- the channel

  /** The channel as loaded for one request. `stored` is the key list in the
      database; `size` is kept beside the maps. */
  class MultiKeyChannel {
    var keys: seq<string>
    var size: int
    var status: map<int, int>
    var time: map<int, int>
    var reason: map<int, string>
    var stored: seq<string>

    function Now(): State
      reads this
    {
      State(keys, status, time, reason)
    }

    ghost predicate Valid()
      reads this
    {
      keys == stored && size == |keys| && Aligned(Now())
    }

    constructor (keys: seq<string>)
      ensures Valid() && Now() == State(keys, map[], map[], map[])
    {
      this.keys, stored, size := keys, keys, |keys|;
      status, time, reason := map[], map[], map[];
    }

    /** Saving: an empty key is not written, the stored one is counted and read
        back; status entries beyond the list are dropped. */
    method Update()
      modifies this
      ensures keys == stored == if old(keys) != [] then old(keys) else old(stored)
      ensures size == |keys| && time == old(time) && reason == old(reason)
      ensures status == map i | i in old(status) && i < size :: old(status)[i]
    {
      var counted := if keys != [] then keys else stored;
      size := |counted|;
      status := map i | i in status && i < size :: status[i];
      if keys != [] {
        stored := keys;
      }
      keys := stored;
    }

    method Disable(index: Option<int>) returns (ok: bool)
      requires Valid()
      modifies this
      ensures Valid() && ok == (index.Some? && 0 <= index.value < old(size))
      ensures Now() == if index.Some? then After(old(Now()), DisableKey(index.value)) else old(Now())
    {
      if index.None? || index.value < 0 || index.value >= size {
        return false;
      }
      status := status[index.value := MANUAL];
      Update();
      return true;
    }

    method Enable(index: Option<int>) returns (ok: bool)
      requires Valid()
      modifies this
      ensures Valid() && ok == (index.Some? && 0 <= index.value < old(size))
      ensures Now() == if index.Some? then After(old(Now()), EnableKey(index.value)) else old(Now())
    {
      if index.None? || index.value < 0 || index.value >= size {
        return false;
      }
      status := status - {index.value};
      time := time - {index.value};
      reason := reason - {index.value};
      Update();
      return true;
    }

    method EnableAllKeys() returns (enabledCount: int)
      requires Valid()
      modifies this
      ensures Valid() && Now() == After(old(Now()), EnableAll) && enabledCount == |old(status)|
    {
      enabledCount := |status|;
      status, time, reason := map[], map[], map[];
      Update();
    }

    method DisableAllKeys() returns (ok: bool)
      requires Valid()
      modifies this
      ensures Valid() && Now() == After(old(Now()), DisableAll)
      ensures ok <==> exists i | 0 <= i < old(size) :: Status(old(Now()), i) == ENABLED
    {
      hide AllDisabled, Status;
      ghost var before := Now();
      AllDisabledIs(before, 0);
      AllDisabledIs(before, size);
      var disabledCount := 0;
      var i := 0;
      while i < size
        invariant 0 <= i <= size && status == AllDisabled(before, i)
        invariant 0 <= disabledCount && (disabledCount > 0 <==> exists j | 0 <= j < i :: Status(before, j) == ENABLED)
        modifies this`status
      {
        AllDisabledStep(before, i);
        var current := ENABLED;
        if i in status {
          current := status[i];
        }
        if current == ENABLED {
          status := status[i := MANUAL];
          disabledCount := disabledCount + 1;
        }
        i := i + 1;
      }
      if disabledCount == 0 {
        return false;
      }
      Update();
      return true;
    }

    method Delete(index: Option<int>) returns (ok: bool)
      requires Valid()
      modifies this
      ensures Valid() && ok == (index.Some? && 0 <= index.value < old(size) && old(size) > 1)
      ensures !ok ==> Now() == old(Now()) && stored == old(stored)
      ensures ok ==> size == old(size) - 1
      ensures ok ==> forall i | 0 <= i < size :: ViewAt(Now(), i) == ViewAt(old(Now()), if i < index.value then i else i + 1)
      ensures Now() == if index.Some? then After(old(Now()), DeleteKey(index.value)) else old(Now())
    {
      hide Rebuilt, Aligned, ViewAt;
      if index.None? || index.value < 0 || index.value >= size {
        return false;
      }
      ghost var before, k: nat := Now(), index.value;
      forall i: nat | i < size - 1
        ensures |DeletedKey(before, k).keys| == size - 1
        ensures ViewAt(DeletedKey(before, k), i) == ViewAt(before, if i < k then i else i + 1)
      {
        DeletedKeyAt(before, k, i);
      }
      var rebuilt := WithoutKey(index.value);
      if |rebuilt.keys| == 0 {
        return false;
      }
      Replace(rebuilt);
      return true;
    }

    method WithoutKey(index: nat) returns (rebuilt: State)
      requires index < |keys|
      ensures rebuilt == DeletedKey(Now(), index) && Aligned(rebuilt) && |rebuilt.keys| == |keys| - 1
    {
      hide Extend, Others;
      rebuilt := NO_KEYS;
      OthersGrow(index, 0);
      for i := 0 to |keys|
        invariant rebuilt == Rebuilt(Now(), Others(index, i), true)
      {
        OthersGrow(index, i);
        if i != index {
          rebuilt := Moved(rebuilt, i, true);
        }
      }
      RebuiltAligned(Now(), Others(index, |keys|), true);
    }

    method DeleteDisabledKeys() returns (deletedCount: int)
      requires Valid()
      modifies this
      ensures Valid() && Now() == After(old(Now()), DeleteDisabled)
      ensures deletedCount == |AutoBelow(old(Now()), old(size))|
    {
      hide Rebuilt, Aligned, Survivors, AutoBelow;
      SurvivorsCounted(Now(), size);
      var rebuilt;
      rebuilt, deletedCount := WithoutDisabled();
      if deletedCount == 0 {
        return;
      }
      Replace(rebuilt);
    }

    method WithoutDisabled() returns (rebuilt: State, deletedCount: int)
      ensures rebuilt == Rebuilt(Now(), Survivors(Now(), |keys|), false)
      ensures deletedCount == |keys| - |Survivors(Now(), |keys|)|
      ensures Aligned(rebuilt) && |rebuilt.keys| == |keys| - deletedCount
      ensures rebuilt.keys == [] ==> rebuilt == NO_KEYS
    {
      hide Extend;
      deletedCount := 0;
      rebuilt := NO_KEYS;
      for i := 0 to |keys|
        invariant rebuilt == Rebuilt(Now(), Survivors(Now(), i), false)
        invariant deletedCount == i - |Survivors(Now(), i)|
      {
        var current := ENABLED;
        if i in status {
          current := status[i];
        }
        if current == AUTO {
          deletedCount := deletedCount + 1;
        } else {
          rebuilt := Moved(rebuilt, i, false);
        }
      }
      RebuiltAligned(Now(), Survivors(Now(), |keys|), false);
    }

    /** A failing key is disabled by the relay, at its first position. */
    method DisableFailing(usingKey: string, now: int, why: string)
      requires Valid()
      modifies this
      ensures Valid() && Now() == After(old(Now()), AutoDisable(usingKey, now, why))
    {
      var keyIndex := -1;
      FirstAtIs(keys, usingKey, 0);
      var i := 0;
      while i < |keys|
        invariant 0 <= i <= |keys| && keyIndex == -1 && FirstAt(keys, usingKey, 0) == FirstAt(keys, usingKey, i)
        modifies {}
      {
        if keys[i] == usingKey {
          keyIndex := i;
          break;
        }
        i := i + 1;
      }
      if keyIndex < 0 {
        return;
      }
      status := status[keyIndex := AUTO];
      reason := reason[keyIndex := why];
      time := time[keyIndex := now];
    }

    /** The append branch of an edit, which is taken when the channel has keys. */
    method AppendKeys(input: seq<string>)
      requires Valid() && keys != []
      modifies this
      ensures Valid() && Now() == After(old(Now()), Append(input)) && Appends(old(keys), input, keys)
    {
      AppendedKeys(Now(), input);
      var added := Deduplicated(input);
      keys := keys + added;
      Update();
    }

    method Deduplicated(input: seq<string>) returns (added: seq<string>)
      ensures added == Fresh(Normalized(keys), input)
    {
      hide TrimSpace;
      var seen: set<string> := {};
      ghost var known := Normalized(keys);
      for i := 0 to |keys|
        invariant seen == set k | k in Normalized(keys[..i])
      {
        assert keys[..i + 1][..i] == keys[..i];
        var normalized := TrimSpace(keys[i]);
        if normalized != "" {
          seen := seen + {normalized};
        }
      }
      assert keys[..|keys|] == keys;
      added := [];
      for i := 0 to |input|
        invariant added == Fresh(known, input[..i])
        invariant seen == (set k | k in known) + (set k | k in added)
      {
        assert input[..i + 1][..i] == input[..i];
        var normalized := TrimSpace(input[i]);
        if normalized != "" && normalized !in seen {
          seen := seen + {normalized};
          added := added + [normalized];
        }
      }
      assert input[..|input|] == input;
    }

    /** The body shared by both deletion loops: position i survives. */
    method Moved(rebuilt: State, i: nat, stale: bool) returns (next: State)
      requires i < |keys|
      ensures next == Extend(Now(), rebuilt, i, stale)
    {
      var newIndex := |rebuilt.keys|;
      next := rebuilt.(keys := rebuilt.keys + [keys[i]]);
      var current := Status(Now(), i);
      if current != ENABLED {
        next := next.(status := next.status[newIndex := current]);
      }
      if stale || current != ENABLED {
        if i in time {
          next := next.(time := next.time[newIndex := time[i]]);
        }
        if i in reason {
          next := next.(reason := next.reason[newIndex := reason[i]]);
        }
      }
    }

    method Replace(rebuilt: State)
      requires Valid() && Aligned(rebuilt)
      modifies this
      ensures Valid()
      ensures Now() == if rebuilt.keys != [] then rebuilt else rebuilt.(keys := old(keys))
    {
      keys, size := rebuilt.keys, |rebuilt.keys|;
      status, time, reason := rebuilt.status, rebuilt.time, rebuilt.reason;
      Update();
    }

    /** An edit that replaces the keys. */
    method ReplaceKeys(input: seq<string>)
      requires Valid()
      modifies this
      ensures Now() == ReplacedKeys(old(Now()), input) && keys == stored && size == |keys|
    {
      keys := input;
      Update();
    }
  }
}
