/** Sharing an amount of disk space between the partitions of a node. */
module DiskAllocation {
  import opened Basics

  /** Free space as reported; a missing or non-numeric entry reads as 0. */
  type Free = seq<real>

  /** What a partition can give: its free space in whole gigabytes. */
  function Capacity(free: real): (c: nat)
    ensures free < 1.0 <==> c == 0
    ensures free >= 0.0 ==> c as real <= free < c as real + 1.0
  {
    if free <= 0.0 then 0 else free.Floor
  }

  function Capacities(free: Free): (cs: seq<nat>)
    ensures |cs| == |free| && forall i | 0 <= i < |free| :: cs[i] == Capacity(free[i])
  {
    if free == [] then [] else Capacities(free[..|free| - 1]) + [Capacity(free[|free| - 1])]
  }

  function Sum(s: seq<int>): int {
    if s == [] then 0 else Sum(s[..|s| - 1]) + s[|s| - 1]
  }

  // ------------------------------------------------------------- the order of the partitions

  function Indices(n: nat): (s: seq<nat>)
    ensures |s| == n && forall i | 0 <= i < n :: s[i] == i
  {
    if n == 0 then [] else Indices(n - 1) + [n - 1]
  }

  ghost predicate Permutes(order: seq<nat>, n: nat) {
    |order| == n && multiset(order) == multiset(Indices(n))
  }

  lemma PermutesInRange(order: seq<nat>, n: nat)
    requires Permutes(order, n)
    ensures forall k | 0 <= k < n :: order[k] < n
  {
    forall k | 0 <= k < n
      ensures order[k] < n
    {
      assert order[k] in multiset(order);
      assert order[k] in Indices(n);
    }
  }

  /** The first i places are settled: nothing behind them is smaller. */
  ghost predicate Settled(free: Free, order: seq<nat>, i: nat) {
    && (forall k | 0 <= k < |order| :: order[k] < |free|)
    && forall a, b | 0 <= a < i && a < b < |order| :: free[order[a]] <= free[order[b]]
  }

  /** Place i holds the smallest of the places i up to j. */
  ghost predicate Leads(free: Free, order: seq<nat>, i: nat, j: nat) {
    && (forall k | 0 <= k < |order| :: order[k] < |free|)
    && i < |order| && forall b | i < b < j && b < |order| :: free[order[i]] <= free[order[b]]
  }

  function Swapped(s: seq<nat>, i: nat, j: nat): seq<nat>
    requires i < j < |s|
  {
    s[i := s[j]][j := s[i]]
  }

  lemma SwapPermutes(s: seq<nat>, i: nat, j: nat, n: nat)
    requires i < j < |s| && Permutes(s, n)
    ensures Permutes(Swapped(s, i, j), n)
  {
  }

  lemma SwapSettles(free: Free, s: seq<nat>, i: nat, j: nat)
    requires i < j < |s| && Settled(free, s, i) && Leads(free, s, i, j) && free[s[j]] < free[s[i]]
    ensures Settled(free, Swapped(s, i, j), i) && Leads(free, Swapped(s, i, j), i, j + 1)
  {
  }

  /** One pass of the exchange sort: the smallest partition from place i on moves to place i. */
  method SettlePlace(free: Free, order: array<nat>, i: nat)
    requires i < order.Length == |free| && Permutes(order[..], |free|) && Settled(free, order[..], i)
    modifies order
    ensures Permutes(order[..], |free|) && Settled(free, order[..], i + 1)
  {
    hide Permutes, Swapped;
    var j := i + 1;
    while j < order.Length
      invariant i < j <= order.Length
      invariant Permutes(order[..], |free|) && Settled(free, order[..], i) && Leads(free, order[..], i, j)
    {
      if free[order[j]] < free[order[i]] {
        ghost var before := order[..];
        order[i], order[j] := order[j], order[i];
        assert order[..] == Swapped(before, i, j) by { SwapIs(before, order[..], i, j); }
        SwapPermutes(before, i, j, |free|);
        SwapSettles(free, before, i, j);
      }
      j := j + 1;
    }
  }

  lemma SwapIs(s: seq<nat>, t: seq<nat>, i: nat, j: nat)
    requires i < j < |s| == |t| && t[i] == s[j] && t[j] == s[i]
    requires forall k | 0 <= k < |s| && k != i && k != j :: t[k] == s[k]
    ensures t == Swapped(s, i, j)
  {
  }

  method FillOrder(free: Free) returns (order: array<nat>)
    ensures fresh(order) && Permutes(order[..], |free|) && Settled(free, order[..], |free|)
  {
    var n := |free|;
    order := new nat[n];
    for index := 0 to n
      invariant forall k | 0 <= k < index :: order[k] == k
    {
      order[index] := index;
    }
    assert order[..] == Indices(n);
    for i := 0 to n
      invariant Permutes(order[..], n) && Settled(free, order[..], i)
    {
      SettlePlace(free, order, i);
    }
  }

  // ------------------------------------------------------------- filling

  /** The sum of the entries of v that the order names. */
  function SumBy(order: seq<nat>, v: seq<int>): int
    requires forall k | 0 <= k < |order| :: order[k] < |v|
  {
    if order == [] then 0 else SumBy(order[..|order| - 1], v) + v[order[|order| - 1]]
  }

  /** What is left of `total` when the first k partitions of the order have given
      all they can. */
  function Left(total: int, order: seq<nat>, caps: seq<int>, k: nat): int
    requires k <= |order| && forall i | 0 <= i < |order| :: order[i] < |caps|
  {
    Max(0, total - SumBy(order[..k], caps))
  }

  /** What the k-th partition of the order gives. */
  function Share(total: int, order: seq<nat>, caps: seq<int>, k: nat): int
    requires k < |order| && forall i | 0 <= i < |order| :: order[i] < |caps|
  {
    Min(caps[order[k]], Left(total, order, caps, k))
  }

  ghost predicate Dealt(total: int, order: seq<nat>, caps: seq<int>, alloc: seq<int>, k: nat) {
    && |alloc| == |caps| && k <= |order| && (forall i | 0 <= i < |order| :: order[i] < |caps|)
    && forall i | 0 <= i < k :: alloc[order[i]] == Share(total, order, caps, i)
  }

  lemma LeftStep(total: int, order: seq<nat>, caps: seq<int>, k: nat)
    requires 0 <= total && k < |order| && forall i | 0 <= i < |order| :: order[i] < |caps| && 0 <= caps[order[i]]
    ensures Left(total, order, caps, k + 1) == Left(total, order, caps, k) - Share(total, order, caps, k)
  {
    assert order[..k + 1][..k] == order[..k];
  }

  lemma {:induction false} IndicesOnce(n: nat, x: nat)
    ensures multiset(Indices(n))[x] == if x < n then 1 else 0
  {
    hide Indices;
    IndicesStep(n);
    if n > 0 {
      IndicesOnce(n - 1, x);
      OneMore(Indices(n - 1), n - 1, x);
    }
  }

  lemma IndicesStep(n: nat)
    ensures Indices(n) == if n == 0 then [] else Indices(n - 1) + [n - 1]
  {
  }

  lemma OneMore(s: seq<nat>, y: nat, x: nat)
    ensures multiset(s + [y])[x] == multiset(s)[x] + if x == y then 1 else 0
  {
  }

  lemma NoRepeats(order: seq<nat>, n: nat, a: nat, b: nat)
    requires Permutes(order, n) && a < b < n
    ensures order[a] != order[b]
  {
    var x := order[b];
    IndicesOnce(n, x);
    assert order == order[..b] + [x] + order[b + 1..];
    assert order[..b][a] == order[a] && order[a] in multiset(order[..b]);
  }

  lemma Reaches(order: seq<nat>, n: nat, x: nat) returns (k: nat)
    requires Permutes(order, n) && x < n
    ensures k < n && order[k] == x
  {
    IndicesOnce(n, x);
    assert x in multiset(order);
    k :| 0 <= k < n && order[k] == x;
  }

  function Without(q: seq<nat>, k: nat): seq<nat>
    requires k < |q|
  {
    q[..k] + q[k + 1..]
  }

  lemma WithoutOne(q: seq<nat>, k: nat, v: seq<int>)
    requires k < |q| && forall i | 0 <= i < |q| :: q[i] < |v|
    ensures multiset(Without(q, k)) == multiset(q) - multiset{q[k]}
    ensures forall i | 0 <= i < |Without(q, k)| :: Without(q, k)[i] < |v|
    ensures SumBy(q, v) == SumBy(Without(q, k), v) + v[q[k]]
  {
    assert q == q[..k] + [q[k]] + q[k + 1..];
    SumBySplit(q[..k] + [q[k]], q[k + 1..], v);
    SumBySplit(q[..k], q[k + 1..], v);
    assert (q[..k] + [q[k]])[..k] == q[..k];
  }

  /** A sum does not depend on the order it is taken in. */
  lemma {:induction false} SumByPermutes(p: seq<nat>, q: seq<nat>, v: seq<int>)
    requires multiset(p) == multiset(q)
    requires (forall k | 0 <= k < |p| :: p[k] < |v|) && (forall k | 0 <= k < |q| :: q[k] < |v|)
    ensures SumBy(p, v) == SumBy(q, v)
    decreases |p|
  {
    hide SumBy, Without;
    if p == [] {
      assert |multiset(q)| == |multiset(p)|;
    } else {
      var n := |p| - 1;
      assert p[n] in multiset(p);
      var k :| 0 <= k < |q| && q[k] == p[n];
      WithoutOne(p, n, v);
      WithoutOne(q, k, v);
      assert |Without(p, n)| < |p| by { assert |multiset(Without(p, n))| == |multiset(p)| - 1; }
      SumByPermutes(Without(p, n), Without(q, k), v);
    }
  }

  lemma {:induction false} SumBySplit(p: seq<nat>, q: seq<nat>, v: seq<int>)
    requires (forall k | 0 <= k < |p| :: p[k] < |v|) && (forall k | 0 <= k < |q| :: q[k] < |v|)
    ensures SumBy(p + q, v) == SumBy(p, v) + SumBy(q, v)
    decreases |q|
  {
    if q == [] {
      assert p + q == p;
    } else {
      var r := p + q;
      assert r[..|r| - 1] == p + q[..|q| - 1] && r[|r| - 1] == q[|q| - 1];
      SumBySplit(p, q[..|q| - 1], v);
    }
  }

  lemma {:induction false} SumByIndices(n: nat, v: seq<int>)
    requires n <= |v|
    ensures SumBy(Indices(n), v) == Sum(v[..n])
  {
    if n > 0 {
      assert Indices(n)[..n - 1] == Indices(n - 1) && v[..n][..n - 1] == v[..n - 1];
      SumByIndices(n - 1, v);
    }
  }

  lemma SumByAll(order: seq<nat>, v: seq<int>)
    requires Permutes(order, |v|)
    ensures (forall k | 0 <= k < |order| :: order[k] < |v|) && SumBy(order, v) == Sum(v)
  {
    PermutesInRange(order, |v|);
    SumByPermutes(order, Indices(|v|), v);
    SumByIndices(|v|, v);
    assert v[..|v|] == v;
  }

  // ------------------------------------------------------------- what a distribution promises

  predicate Partial(caps: seq<int>, alloc: seq<int>, i: nat)
    requires i < |alloc| == |caps|
  {
    0 < alloc[i] < caps[i]
  }

  /** No partition gives more than it has, exactly the requested amount is shared
      if the partitions can give it and all they have otherwise, at most one
      partition is used in part, and a partition is touched only when every
      smaller one is used up. */
  ghost predicate SmallestFirst(free: Free, total: int, alloc: seq<int>) {
    var caps := Capacities(free);
    && |alloc| == |free|
    && (forall i | 0 <= i < |free| :: 0 <= alloc[i] <= caps[i])
    && Sum(alloc) == Min(Max(0, total), Sum(caps))
    && (forall i, j | 0 <= i < j < |free| :: !(Partial(caps, alloc, i) && Partial(caps, alloc, j)))
    && (forall i, j | 0 <= i < |free| && 0 <= j < |free| && alloc[i] > 0 && free[j] < free[i] :: alloc[j] == caps[j])
  }

  ghost predicate Usable(order: seq<nat>, caps: seq<int>) {
    && Permutes(order, |caps|) && (forall i | 0 <= i < |order| :: order[i] < |caps|)
    && (forall i | 0 <= i < |caps| :: 0 <= caps[i])
  }

  lemma {:induction false} LeftShrinks(total: int, order: seq<nat>, caps: seq<int>, a: nat, b: nat)
    requires Usable(order, caps) && 0 <= total && a <= b <= |order|
    ensures 0 <= Left(total, order, caps, b) <= Left(total, order, caps, a)
    decreases b - a
  {
    if a < b {
      LeftShrinks(total, order, caps, a, b - 1);
      LeftStep(total, order, caps, b - 1);
    }
  }

  /** Before a partition that gives something, everyone gave all they have. */
  lemma FullBefore(total: int, order: seq<nat>, caps: seq<int>, a: nat, b: nat)
    requires Usable(order, caps) && 0 <= total && a < b < |order| && Share(total, order, caps, b) > 0
    ensures Share(total, order, caps, a) == caps[order[a]]
  {
    LeftStep(total, order, caps, a);
    LeftShrinks(total, order, caps, a + 1, b);
  }

  lemma {:induction false} SharesSum(total: int, order: seq<nat>, caps: seq<int>, alloc: seq<int>, k: nat)
    requires Usable(order, caps) && 0 <= total && Dealt(total, order, caps, alloc, |order|) && k <= |order|
    ensures SumBy(order[..k], alloc) == total - Left(total, order, caps, k)
  {
    if k > 0 {
      assert order[..k][..k - 1] == order[..k - 1];
      SharesSum(total, order, caps, alloc, k - 1);
      LeftStep(total, order, caps, k - 1);
    }
  }

  lemma DealtSum(total: int, order: seq<nat>, caps: seq<int>, alloc: seq<int>)
    requires Usable(order, caps) && 0 <= total && Dealt(total, order, caps, alloc, |order|)
    ensures Sum(alloc) == Min(total, Sum(caps))
  {
    SharesSum(total, order, caps, alloc, |order|);
    assert order[..|order|] == order;
    SumByAll(order, alloc);
    SumByAll(order, caps);
  }

  lemma DealtInOrder(free: Free, total: int, order: seq<nat>, caps: seq<int>, alloc: seq<int>, i: nat, j: nat)
    requires Usable(order, caps) && 0 <= total && Dealt(total, order, caps, alloc, |order|)
    requires Settled(free, order, |free|) && |caps| == |free| && i < |free| && j < |free|
    ensures 0 <= alloc[i] <= caps[i]
    ensures i != j ==> !(Partial(caps, alloc, i) && Partial(caps, alloc, j))
    ensures alloc[i] > 0 && free[j] < free[i] ==> alloc[j] == caps[j]
  {
    var a := Reaches(order, |caps|, i);
    var b := Reaches(order, |caps|, j);
    LeftShrinks(total, order, caps, a, a);
    if a < b && Share(total, order, caps, b) > 0 {
      FullBefore(total, order, caps, a, b);
    }
    if b < a && Share(total, order, caps, a) > 0 {
      FullBefore(total, order, caps, b, a);
    }
  }

  lemma DealtUsable(free: Free, order: seq<nat>)
    requires Permutes(order, |free|)
    ensures Usable(order, Capacities(free))
  {
    PermutesInRange(order, |free|);
  }

  lemma DealtIsSmallestFirst(free: Free, total: int, order: seq<nat>, alloc: seq<int>)
    requires Permutes(order, |free|) && Settled(free, order, |free|)
    requires |alloc| == |free| && Dealt(Max(0, total), order, Capacities(free), alloc, |order|)
    ensures SmallestFirst(free, total, alloc)
  {
    hide Dealt, Settled, Permutes, Sum, Partial;
    var caps := Capacities(free);
    DealtUsable(free, order);
    DealtSum(Max(0, total), order, caps, alloc);
    forall i, j | 0 <= i < |free| && 0 <= j < |free|
      ensures 0 <= alloc[i] <= caps[i]
      ensures i != j ==> !(Partial(caps, alloc, i) && Partial(caps, alloc, j))
      ensures alloc[i] > 0 && free[j] < free[i] ==> alloc[j] == caps[j]
    {
      DealtInOrder(free, Max(0, total), order, caps, alloc, i, j);
    }
  }

  // ------------------------------------------------------------- the distribution

  /** A decoded JSON number is a float; the distribution stores integers. */
  datatype Value = Float(r: real) | Int(n: int)

  /** The checked type assertion to float64, which yields 0 for an integer. */
  function AsFloat(v: Value): real { if v.Float? then v.r else 0.0 }

  datatype Report = Unchanged(shared: int) | Filled(alloc: seq<int>, shared: int) | Panicked

  /** An entry of the list; a null reads as nothing free and cannot be written to. */
  datatype Entry = Null | Partition(free: real)

  function FreeOf(entries: seq<Entry>): (free: Free)
    ensures |free| == |entries| && forall i | 0 <= i < |free| :: free[i] == if entries[i].Null? then 0.0 else entries[i].free
  {
    if entries == [] then []
    else
      var last := entries[|entries| - 1];
      FreeOf(entries[..|entries| - 1]) + [if last.Null? then 0.0 else last.free]
  }

  /** What the function returns: an empty or unreadable list comes back as it is. */
  ghost predicate Distributed(free: Free, totalGB: int, r: Report) {
    if free == [] then r == Unchanged(totalGB)
    else r.Filled? && SmallestFirst(free, totalGB, r.alloc) && r.shared == 0
  }

  method DistributeDiskAllocation(entries: seq<Entry>, totalGB: int) returns (r: Report)
    ensures r == Panicked <==> Null in entries
    ensures Null !in entries ==> Distributed(FreeOf(entries), totalGB, r)
  {
    var free := FreeOf(entries);
    if |entries| == 0 {
      return Unchanged(totalGB);
    }
    var remaining := totalGB;
    if remaining < 0 {
      remaining := 0;
    }
    var order := FillOrder(free);
    var alloc, panicked := Deal(entries, free, order, remaining);
    if panicked {
      return Panicked;
    }
    var stored := new Value[|free|](i requires 0 <= i < |free| reads alloc => Int(alloc[i]));
    var shared := 0;
    for i := 0 to |free|
      invariant shared == 0
    {
      shared := shared + AsFloat(stored[i]).Floor;
    }
    DealtIsSmallestFirst(free, totalGB, order[..], alloc[..]);
    r := Filled(alloc[..], shared);
  }

  /** Shares the space along the order; the write to a null entry panics. */
  method Deal(entries: seq<Entry>, free: Free, order: array<nat>, total: nat) returns (alloc: array<int>, panicked: bool)
    requires free == FreeOf(entries)
    requires order.Length == |free| && Permutes(order[..], |free|) && Settled(free, order[..], |free|)
    ensures panicked <==> Null in entries
    ensures fresh(alloc) && (!panicked ==> Dealt(total, order[..], Capacities(free), alloc[..], |free|))
  {
    hide Left, Permutes;
    ghost var caps, o := Capacities(free), order[..];
    alloc, panicked := new int[|free|], false;
    var remaining: int := total;
    LeftAtStart(total, o, caps);
    PermutesInRange(o, |free|);
    for k := 0 to order.Length
      invariant remaining == Left(total, o, caps, k) >= 0
      invariant Dealt(total, o, caps, alloc[..], k)
      invariant forall i | 0 <= i < k :: entries[o[i]] != Null
    {
      var index := order[k];
      var allocation := 0;
      if remaining <= 0 {
        allocation := 0;
      } else if free[index] <= 0.0 {
        allocation := 0;
      } else if free[index].Floor >= remaining {
        allocation := remaining;
      } else {
        allocation := free[index].Floor;
      }
      if allocation > remaining {
        allocation := remaining;
      }
      if entries[index] == Null {
        panicked := true;
        return;
      }
      LeftStep(total, o, caps, k);
      assert allocation == Share(total, o, caps, k);
      remaining := remaining - allocation;
      forall i | 0 <= i < k
        ensures o[i] != index
      {
        NoRepeats(o, |free|, i, k);
      }
      alloc[index] := allocation;
    }
    EveryEntryMet(entries, o);
  }

  lemma EveryEntryMet(entries: seq<Entry>, order: seq<nat>)
    requires Permutes(order, |entries|) && |order| == |entries| && (forall k | 0 <= k < |order| :: order[k] < |entries| && entries[order[k]] != Null)
    ensures Null !in entries
  {
    hide Permutes;
    forall x | 0 <= x < |entries|
      ensures entries[x] != Null
    {
      var k := Reaches(order, |entries|, x);
    }
  }

  lemma LeftAtStart(total: nat, order: seq<nat>, caps: seq<int>)
    requires forall i | 0 <= i < |order| :: order[i] < |caps|
    ensures Left(total, order, caps, 0) == total
  {
  }

  // ------------------------------------------------------------- where the documentation is wrong

  lemma {:induction false} SumIsZero(s: seq<int>)
    requires forall i | 0 <= i < |s| :: 0 <= s[i]
    ensures 0 <= Sum(s) && (Sum(s) == 0 <==> forall i | 0 <= i < |s| :: s[i] == 0)
  {
    if s != [] {
      SumIsZero(s[..|s| - 1]);
    }
  }

  function ReallyShared(r: Report): int { if r.Filled? then Sum(r.alloc) else 0 }

  /** The second result is documented as the amount really shared. Without partitions it is
      the amount that was asked for, with partitions it is 0; so it is right exactly when
      nothing was asked for, or when there are partitions and none has a whole gigabyte. */
  lemma ReportedAmountIsRightWhen(free: Free, total: int, r: Report)
    requires Distributed(free, total, r)
    ensures r.shared == ReallyShared(r) <==>
            if free == [] then total == 0 else total <= 0 || forall i | 0 <= i < |free| :: free[i] < 1.0
  {
    SumIsZero(Capacities(free));
  }

  /** The space is not taken from the partition with the most free space first:
      with 1 GB and 5 GB free, a request for 1 GB always lands on the small one. */
  lemma LargestIsNotFirst(alloc: seq<int>)
    requires SmallestFirst([1.0, 5.0], 1, alloc)
    ensures alloc == [1, 0]
  {
    var free: Free := [1.0, 5.0];
    var caps := Capacities(free);
    assert caps == [1, 5];
    assert caps[..1] == [1] && caps[..1][..0] == [] && alloc[..1][..0] == [];
    assert Sum(caps[..1]) == 1 && Sum(alloc[..1]) == alloc[0];
    assert Sum(caps) == 6 && Sum(alloc) == alloc[0] + alloc[1];
  }

  /** What the comment promises: a partition gives something only when every larger one is full. */
  ghost predicate LargestFirst(free: Free, alloc: seq<int>) {
    && |alloc| == |free|
    && forall i, j | 0 <= i < |free| && 0 <= j < |free| && alloc[i] > 0 && free[j] > free[i] :: alloc[j] == Capacity(free[j])
  }

  lemma {:induction false} EqualSums(a: seq<int>, b: seq<int>)
    requires |a| == |b| && (forall i | 0 <= i < |a| :: a[i] <= b[i])
    ensures Sum(a) <= Sum(b) && (Sum(a) == Sum(b) ==> a == b)
  {
    if a != [] {
      EqualSums(a[..|a| - 1], b[..|b| - 1]);
    }
  }

  /** In both orders at once, a partition larger than a usable one gets something. */
  lemma LargerGets(free: Free, total: int, alloc: seq<int>, i: nat, j: nat)
    requires SmallestFirst(free, total, alloc) && LargestFirst(free, alloc) && Sum(alloc) > 0
    requires i < |free| && j < |free| && 1.0 <= free[i] < free[j]
    ensures alloc[j] == Capacity(free[j])
  {
    SumIsZero(alloc);
    var m :| 0 <= m < |alloc| && alloc[m] != 0;
    if free[m] >= free[j] {
      assert alloc[i] == Capacities(free)[i];
    }
  }

  lemma BothOrdersFill(free: Free, total: int, alloc: seq<int>, i: nat, j: nat)
    requires SmallestFirst(free, total, alloc) && LargestFirst(free, alloc) && Sum(alloc) > 0
    requires i < |free| && j < |free| && 1.0 <= free[i] < free[j]
    ensures Sum(alloc) == Sum(Capacities(free))
  {
    var caps := Capacities(free);
    LargerGets(free, total, alloc, i, j);
    assert alloc[j] > 0 && alloc[i] == caps[i] > 0;
    forall m | 0 <= m < |free|
      ensures alloc[m] == caps[m]
    {
      if free[m] > free[i] {
        assert alloc[m] == Capacity(free[m]);
      } else {
        assert free[m] < free[j];
      }
    }
    assert alloc == caps;
  }

  ghost predicate AllAlike(free: Free) {
    forall i, j | 0 <= i < |free| && 0 <= j < |free| && 1.0 <= free[i] && 1.0 <= free[j] :: free[i] == free[j]
  }

  /** The documented order is kept exactly when the order does not matter: nothing is asked
      for, everything is, or all partitions with a whole gigabyte are alike. */
  lemma LargestFirstWhen(free: Free, total: int, alloc: seq<int>)
    requires SmallestFirst(free, total, alloc)
    ensures LargestFirst(free, alloc) <==> total <= 0 || Sum(Capacities(free)) <= total || AllAlike(free)
  {
    var caps := Capacities(free);
    SumIsZero(alloc);
    SumIsZero(caps);
    EqualSums(alloc, caps);
    if LargestFirst(free, alloc) && 0 < total < Sum(caps) {
      forall i, j | 0 <= i < |free| && 0 <= j < |free| && 1.0 <= free[i] && 1.0 <= free[j]
        ensures free[i] == free[j]
      {
        if free[i] < free[j] {
          BothOrdersFill(free, total, alloc, i, j);
        } else if free[j] < free[i] {
          BothOrdersFill(free, total, alloc, j, i);
        }
      }
    }
  }
}
