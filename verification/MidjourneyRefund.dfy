/** Refunding a failed Midjourney task while several pollers look at the same row. */
module MidjourneyRefund {

  const DONE: string := "100%"
  const FAILURE: string := "FAILURE"
  const TIMED_OUT: string := "上游任务超时（超过1小时）"

  datatype Task = Task(code: int, status: string, progress: string, failReason: string, quota: int)

  /** What upstream says about a task; the fields that only show up in the
      comparison with the stored row are folded into `othersDiffer`. */
  datatype Item = Item(status: string, progress: string, failReason: string, othersDiffer: bool)

  /** A reason means failure, and a failure has a reason or is final. */
  predicate Credible(item: Item) {
    && (item.failReason != "" ==> item.status == FAILURE)
    && (item.status == FAILURE ==> item.failReason != "" || item.progress == DONE)
  }

  // ------------------------------------------------------------- one response item

  function AfterTimeout(task: Task, item: Item, late: bool): Item {
    if late && task.progress != DONE then item.(failReason := TIMED_OUT, status := FAILURE) else item
  }

  predicate NeedsUpdate(task: Task, item: Item) {
    || task.code != 1 || task.progress != item.progress || task.status != item.status || task.failReason != item.failReason
    || (task.progress != DONE && item.failReason != "")
    || item.othersDiffer
  }

  function Overwritten(task: Task, item: Item): Task {
    task.(code := 1, status := item.status, progress := item.progress, failReason := item.failReason)
  }

  predicate HasFailed(task: Task) {
    (task.progress != DONE && task.failReason != "") || (task.progress == DONE && task.status == FAILURE)
  }

  function Closed(task: Task): Task { if HasFailed(task) then task.(progress := DONE) else task }

  // ------------------------------------------------------------- the protocol

  datatype Phase = Ready | Won | Paid

  /** A poller's own copy of the task, fetched at the start of a polling pass, and how often the
      responses of that pass may still mention it. */
  datatype Poller = Poller(holds: bool, task: Task, left: nat, phase: Phase)

  datatype State = State(row: Task, pollers: seq<Poller>, refunds: seq<int>)

  datatype Action =
    | Fetch(p: nat)                          // select the unfinished tasks
    | Handle(p: nat, item: Item, late: bool) // one response item, up to the compare-and-swap
    | Refund(p: nat, ok: bool)               // credit the quota, or fail to
    | Clear(p: nat, ok: bool)                // store the zero quota, or fail to
    | BulkFail(reason: string)               // unknown channel, or no id: failed unconditionally

  predicate Enabled(s: State, action: Action) {
    match action
    case Fetch(p) => p < |s.pollers| && s.pollers[p].phase == Ready
    case Handle(p, item, _) => p < |s.pollers| && s.pollers[p].phase == Ready && s.pollers[p].holds && s.pollers[p].left > 0 && Credible(item)
    case Refund(p, _) => p < |s.pollers| && s.pollers[p].phase == Won
    case Clear(p, _) => p < |s.pollers| && s.pollers[p].phase == Paid
    case BulkFail(_) => true
  }

  function Handled(s: State, p: nat, item: Item): State
    requires p < |s.pollers| && s.pollers[p].left > 0
  {
    var poller := s.pollers[p];
    var before := poller.task;
    if !NeedsUpdate(before, item) then s.(pollers := s.pollers[p := poller.(left := poller.left - 1)])
    else
      var task := Closed(Overwritten(before, item));
      var won := s.row.status == before.status;
      var owed := HasFailed(Overwritten(before, item)) && task.quota != 0;
      s.(row := if won then task else s.row,
         pollers := s.pollers[p := Poller(true, task, poller.left - 1, if won && owed then Won else Ready)])
  }

  /** m is how often the responses of one polling pass, of all channels, may mention the task. */
  function Next(m: nat, s: State, action: Action): State
    requires Enabled(s, action)
  {
    match action
    case Fetch(p) =>
      var found := s.row.progress != DONE;
      s.(pollers := s.pollers[p := Poller(found, s.row, if found then m else 0, Ready)])
    case Handle(p, item, late) => Handled(s, p, AfterTimeout(s.pollers[p].task, item, late))
    case Refund(p, ok) =>
      var poller := s.pollers[p];
      if ok then s.(refunds := s.refunds + [poller.task.quota],
                    pollers := s.pollers[p := poller.(task := poller.task.(quota := 0), phase := Paid)])
      else s.(pollers := s.pollers[p := poller.(phase := Ready)])
    case Clear(p, ok) =>
      s.(row := if ok then s.row.(quota := s.pollers[p].task.quota) else s.row,
         pollers := s.pollers[p := s.pollers[p].(phase := Ready)])
    case BulkFail(reason) =>
      s.(row := s.row.(status := FAILURE, progress := DONE, failReason := if reason == "" then s.row.failReason else reason))
  }

  predicate Start(s: State, k: nat) {
    && |s.pollers| == k && s.refunds == []
    && (s.row.status == FAILURE ==> s.row.progress == DONE)
    && forall p :: 0 <= p < k ==> !s.pollers[p].holds && s.pollers[p].phase == Ready
  }

  predicate IsRun(k: nat, m: nat, states: seq<State>, actions: seq<Action>) {
    && |states| == |actions| + 1
    && Start(states[0], k)
    && forall n :: 0 <= n < |actions| ==> Enabled(states[n], actions[n]) && states[n + 1] == Next(m, states[n], actions[n])
  }

  // ------------------------------------------------------------- one mention per polling pass

  predicate FailureIsFinal(task: Task) { task.status == FAILURE ==> task.progress == DONE }

  /** A copy that may still be used was taken while the task had not failed; a poller that is
      about to pay has moved the row to its last status. */
  predicate Stale(s: State, q: Poller) {
    && (q.holds && q.left > 0 ==> q.phase == Ready && q.left == 1 && q.task.status != FAILURE)
    && (q.phase != Ready ==> s.row.status == FAILURE)
    && (s.refunds != [] ==> q.phase != Won)
  }

  predicate OnlyWinner(s: State) {
    forall p, q :: 0 <= p < |s.pollers| && 0 <= q < |s.pollers| && p != q && s.pollers[p].phase == Won ==> s.pollers[q].phase == Ready
  }

  predicate Owes(quota: int, task: Task) { task.quota == 0 || task.quota == quota }

  predicate InvOnce(s: State, quota: int) {
    && FailureIsFinal(s.row)
    && (s.refunds == [] || (s.refunds == [quota] && s.row.status == FAILURE))
    && (forall p :: 0 <= p < |s.pollers| ==> Stale(s, s.pollers[p]))
    && OnlyWinner(s)
    && Owes(quota, s.row)
    && (forall p :: 0 <= p < |s.pollers| && s.pollers[p].holds ==> Owes(quota, s.pollers[p].task))
    && (forall p :: 0 <= p < |s.pollers| && s.pollers[p].phase != Ready ==> s.pollers[p].holds)
    && (forall p :: 0 <= p < |s.pollers| && s.pollers[p].phase == Won ==> s.pollers[p].task.quota == quota)
  }

  lemma ClosedFailure(before: Task, item: Item, late: bool)
    requires Credible(item)
    ensures var task := Closed(Overwritten(before, AfterTimeout(before, item, late)));
            && FailureIsFinal(task) && task.quota == before.quota
            && (HasFailed(Overwritten(before, AfterTimeout(before, item, late))) ==> task.status == FAILURE && task.progress == DONE)
  {
  }

  /** The failure of an unfinished task is not lost: the poller whose copy is current stores
      it, finally, and owes the refund of a quota; an hour without an end is a failure. */
  lemma FailureIsOwed(m: nat, s: State, p: nat, item: Item, late: bool)
    requires Enabled(s, Handle(p, item, late))
    requires s.pollers[p].task.status == s.row.status && s.row.status != "FAILURE" && s.pollers[p].task.progress != "100%"
    ensures var t := Next(m, s, Handle(p, item, late)); var failed := late || item.status == "FAILURE";
            && (t.row.status == "FAILURE" <==> failed)
            && (failed ==> t.row.progress == "100%" && t.row.quota == s.pollers[p].task.quota)
            && (failed ==> t.row.failReason == if late then "上游任务超时（超过1小时）" else item.failReason)
            && (t.pollers[p].phase == Won <==> failed && s.pollers[p].task.quota != 0)
            && t.refunds == s.refunds
  {
    assert TIMED_OUT[0] != FAILURE[0];
  }

  /** Such a failure, once refunded and cleared, leaves the quota credited and the row without one. */
  lemma FailureIsPaid(m: nat, s: State, p: nat, item: Item, late: bool)
    requires Enabled(s, Handle(p, item, late)) && (late || item.status == "FAILURE")
    requires s.pollers[p].task.status == s.row.status && s.row.status != "FAILURE" && s.pollers[p].task.progress != "100%"
    requires s.pollers[p].task.quota != 0
    ensures var a := Next(m, s, Handle(p, item, late));
            && Enabled(a, Refund(p, true)) && var b := Next(m, a, Refund(p, true));
            && Enabled(b, Clear(p, true)) && var c := Next(m, b, Clear(p, true));
            && c.refunds == s.refunds + [s.pollers[p].task.quota] && c.pollers[p].phase == Ready
            && c.row.quota == 0 && c.row.status == "FAILURE" && c.row.progress == "100%"
  {
    hide Credible, AfterTimeout, NeedsUpdate, Overwritten, HasFailed, Closed;
    FailureIsOwed(m, s, p, item, late);
    OwedQuota(s, p, item, late);
  }

  lemma OwedQuota(s: State, p: nat, item: Item, late: bool)
    requires Enabled(s, Handle(p, item, late))
    ensures var t := Handled(s, p, AfterTimeout(s.pollers[p].task, item, late));
            |t.pollers| == |s.pollers| && t.pollers[p].task.quota == s.pollers[p].task.quota
  {
  }

  /** Any other report is stored as it is by a poller whose copy is current and says something else;
      a poller whose copy is out of date stores nothing. Neither owes a refund. */
  lemma ReportIsStored(m: nat, s: State, p: nat, item: Item, late: bool)
    requires Enabled(s, Handle(p, item, late)) && item.status != "FAILURE"
    requires late ==> s.pollers[p].task.progress == "100%"
    ensures var before, t := s.pollers[p].task, Next(m, s, Handle(p, item, late));
            var reported := Task(1, item.status, item.progress, "", before.quota);
            && (t.row == if before.status == s.row.status && (before != reported || item.othersDiffer) then reported else s.row)
            && t.pollers[p].task == reported && t.pollers[p].phase == Ready && t.refunds == s.refunds
            && forall q | 0 <= q < |s.pollers| && q != p :: t.pollers[q] == s.pollers[q]
  {
  }

  /** Whatever the report, the row only changes when the copy is current. */
  lemma StaleCopyStoresNothing(m: nat, s: State, p: nat, item: Item, late: bool)
    requires Enabled(s, Handle(p, item, late)) && s.pollers[p].task.status != s.row.status
    ensures var t := Next(m, s, Handle(p, item, late)); t.row == s.row && t.pollers[p].phase == Ready && t.refunds == s.refunds
  {
  }

  lemma HandleOnce(m: nat, s: State, p: nat, item: Item, late: bool, quota: int)
    requires InvOnce(s, quota) && Enabled(s, Handle(p, item, late))
    ensures InvOnce(Next(m, s, Handle(p, item, late)), quota)
  {
    hide Credible, AfterTimeout, NeedsUpdate, Overwritten, HasFailed, Closed;
    assert Stale(s, s.pollers[p]);
    ClosedFailure(s.pollers[p].task, item, late);
    var s' := Next(m, s, Handle(p, item, late));
    forall q | 0 <= q < |s'.pollers|
      ensures Stale(s', s'.pollers[q])
    {
      assert Stale(s, s.pollers[q]);
    }
  }

  lemma OtherStepOnce(m: nat, s: State, action: Action, quota: int)
    requires m <= 1 && InvOnce(s, quota) && Enabled(s, action) && !action.Handle?
    ensures InvOnce(Next(m, s, action), quota)
  {
    hide Handled, Credible;
    var s' := Next(m, s, action);
    forall q | 0 <= q < |s'.pollers|
      ensures Stale(s', s'.pollers[q])
    {
      assert Stale(s, s.pollers[q]);
    }
    if action.Refund? {
      assert Stale(s, s.pollers[action.p]);
    }
  }

  lemma {:induction false} RunOnce(k: nat, m: nat, states: seq<State>, actions: seq<Action>, n: nat)
    requires m <= 1 && IsRun(k, m, states, actions) && n < |states|
    ensures InvOnce(states[n], states[0].row.quota)
  {
    hide Next, Enabled;
    if n > 0 {
      hide InvOnce, Start;
      RunOnce(k, m, states, actions, n - 1);
      var action, quota := actions[n - 1], states[0].row.quota;
      assert states[n] == Next(m, states[n - 1], action);
      if action.Handle? {
        HandleOnce(m, states[n - 1], action.p, action.item, action.late, quota);
      } else {
        OtherStepOnce(m, states[n - 1], action, quota);
      }
    }
  }

  /** However many pollers there are: if no polling pass mentions the task twice, it is
      refunded at most once, in full, and only when its row says it has failed. */
  lemma RefundedAtMostOnce(k: nat, m: nat, states: seq<State>, actions: seq<Action>, n: nat)
    requires m <= 1 && IsRun(k, m, states, actions) && n < |states|
    ensures states[n].refunds == [] || states[n].refunds == [states[0].row.quota]
    ensures states[n].refunds != [] ==> states[n].row.status == FAILURE && states[n].row.progress == DONE
  {
    hide IsRun, Stale, OnlyWinner, Owes;
    RunOnce(k, m, states, actions, n);
  }

  // ------------------------------------------------------------- a single poller

  /** Once paid, every copy that can still be fetched or written owes nothing. */
  predicate InvAlone(s: State, quota: int) {
    && |s.pollers| <= 1
    && Owes(quota, s.row)
    && (s.refunds == [] || (s.refunds == [quota] && (s.row.quota == 0 || s.row.progress == DONE)))
    && forall p :: 0 <= p < |s.pollers| ==>
         && var q := s.pollers[p];
         && (q.phase != Ready ==> q.holds)
         && (q.holds ==> Owes(quota, q.task))
         && (q.holds && s.refunds != [] ==> q.task.quota == 0)
         && (q.phase == Won ==> s.refunds == [] && s.row.progress == DONE && q.task.quota == quota)
  }

  lemma StepAlone(m: nat, s: State, action: Action, quota: int)
    requires InvAlone(s, quota) && Enabled(s, action)
    ensures InvAlone(Next(m, s, action), quota)
  {
    hide Credible, NeedsUpdate;
    if action.Handle? {
      ClosedFailure(s.pollers[action.p].task, action.item, action.late);
    }
  }

  lemma {:induction false} RunAlone(k: nat, m: nat, states: seq<State>, actions: seq<Action>, n: nat)
    requires k <= 1 && IsRun(k, m, states, actions) && n < |states|
    ensures InvAlone(states[n], states[0].row.quota)
  {
    hide Next, Enabled;
    if n > 0 {
      hide InvAlone, Start;
      RunAlone(k, m, states, actions, n - 1);
      assert states[n] == Next(m, states[n - 1], actions[n - 1]);
      StepAlone(m, states[n - 1], actions[n - 1], states[0].row.quota);
    }
  }

  // ------------------------------------------------------------- two pollers, two mentions

  const RUNNING: Task := Task(1, "IN_PROGRESS", "50%", "", 7)
  const REPORT: Item := Item(FAILURE, "50%", "bad prompt", false)
  const FAILED: Task := Task(1, FAILURE, DONE, "bad prompt", 7)

  function Asleep(k: nat): (r: seq<Poller>)
    ensures |r| == k && forall p :: 0 <= p < k ==> r[p] == Poller(false, RUNNING, 0, Ready)
  {
    if k == 0 then [] else Asleep(k - 1) + [Poller(false, RUNNING, 0, Ready)]
  }

  /** The row and the first two of k pollers; nobody else moves. */
  function Pair(k: nat, row: Task, a: Poller, b: Poller, refunds: seq<int>): State
    requires k >= 2
  {
    State(row, Asleep(k)[0 := a][1 := b], refunds)
  }

  /** Both fetch the running task; the first one fails and refunds it; the second one loses the
      race, but its copy now says FAILURE too, so the second mention wins and refunds again. */
  function DoubleRefund(k: nat, m: nat): seq<State>
    requires k >= 2 && m >= 2
  {
    var idle, seen := Poller(false, RUNNING, 0, Ready), Poller(true, RUNNING, m, Ready);
    var won := Poller(true, FAILED, m - 1, Won);
    var paid := won.(task := FAILED.(quota := 0), phase := Paid);
    [ Pair(k, RUNNING, idle, idle, []),
      Pair(k, RUNNING, seen, idle, []),
      Pair(k, RUNNING, seen, seen, []),
      Pair(k, FAILED, won, seen, []),
      Pair(k, FAILED, paid, seen, [7]),
      Pair(k, FAILED, paid, Poller(true, FAILED, m - 1, Ready), [7]),
      Pair(k, FAILED, paid, Poller(true, FAILED, m - 2, Won), [7]),
      Pair(k, FAILED, paid, Poller(true, FAILED.(quota := 0), m - 2, Paid), [7, 7]) ]
  }

  const DOUBLE: seq<Action> := [
    Fetch(0), Fetch(1), Handle(0, REPORT, false), Refund(0, true),
    Handle(1, REPORT, false), Handle(1, REPORT, false), Refund(1, true) ]

  predicate Steps(m: nat, s: State, action: Action, t: State) {
    Enabled(s, action) && t == Next(m, s, action)
  }

  lemma Moves(k: nat, m: nat, row: Task, a: Poller, b: Poller, refunds: seq<int>, c: Poller)
    requires k >= 2
    ensures Pair(k, row, a, b, refunds).pollers[0] == a && Pair(k, row, a, b, refunds).pollers[1] == b
    ensures Pair(k, row, a, b, refunds).pollers[0 := c] == Pair(k, row, c, b, refunds).pollers
    ensures Pair(k, row, a, b, refunds).pollers[1 := c] == Pair(k, row, a, c, refunds).pollers
  {
  }

  lemma Reported(task: Task)
    requires task == RUNNING || task == FAILED
    ensures Credible(REPORT) && NeedsUpdate(task, REPORT) && HasFailed(Overwritten(task, REPORT))
    ensures Closed(Overwritten(task, REPORT)) == FAILED
  {
    assert RUNNING.progress[0] != DONE[0] && REPORT.progress[0] != DONE[0];
  }

  lemma DoubleRefundFetches(k: nat, m: nat)
    requires k >= 2 && m >= 2
    ensures var s := DoubleRefund(k, m); Steps(m, s[0], Fetch(0), s[1]) && Steps(m, s[1], Fetch(1), s[2])
  {
    var idle, seen := Poller(false, RUNNING, 0, Ready), Poller(true, RUNNING, m, Ready);
    assert RUNNING.progress[0] != DONE[0];
    Moves(k, m, RUNNING, idle, idle, [], seen);
    Moves(k, m, RUNNING, seen, idle, [], seen);
  }

  lemma DoubleRefundWins(k: nat, m: nat)
    requires k >= 2 && m >= 2
    ensures var s := DoubleRefund(k, m); Steps(m, s[2], Handle(0, REPORT, false), s[3]) && Steps(m, s[3], Refund(0, true), s[4])
  {
    hide Credible, NeedsUpdate, HasFailed, Overwritten, Closed;
    var seen, won := Poller(true, RUNNING, m, Ready), Poller(true, FAILED, m - 1, Won);
    Reported(RUNNING);
    Moves(k, m, RUNNING, seen, seen, [], won);
    Moves(k, m, FAILED, won, seen, [], won.(task := FAILED.(quota := 0), phase := Paid));
  }

  lemma DoubleRefundLosesAndWins(k: nat, m: nat)
    requires k >= 2 && m >= 2
    ensures var s, again := DoubleRefund(k, m), Handle(1, REPORT, false);
            Steps(m, s[4], again, s[5]) && Steps(m, s[5], again, s[6]) && Steps(m, s[6], Refund(1, true), s[7])
  {
    hide Credible, NeedsUpdate, HasFailed, Overwritten, Closed;
    var seen, paid := Poller(true, RUNNING, m, Ready), Poller(true, FAILED.(quota := 0), m - 1, Paid);
    var lost, won := Poller(true, FAILED, m - 1, Ready), Poller(true, FAILED, m - 2, Won);
    assert FAILED.status[0] != RUNNING.status[0];
    Reported(RUNNING);
    Reported(FAILED);
    Moves(k, m, FAILED, paid, seen, [7], lost);
    Moves(k, m, FAILED, paid, lost, [7], won);
    Moves(k, m, FAILED, paid, won, [7], won.(task := FAILED.(quota := 0), phase := Paid));
    assert [7] + [7] == [7, 7];
  }

  lemma DoubleRefundRuns(k: nat, m: nat)
    requires k >= 2 && m >= 2
    ensures IsRun(k, m, DoubleRefund(k, m), DOUBLE)
  {
    hide Enabled, Next;
    DoubleRefundFetches(k, m);
    DoubleRefundWins(k, m);
    DoubleRefundLosesAndWins(k, m);
    assert RUNNING.status[0] != FAILURE[0];
  }

  /** Refunding twice is impossible in every run exactly when there is at most one poller
      or a polling pass mentions a task at most once. */
  ghost predicate NeverTwice(k: nat, m: nat) {
    forall states: seq<State>, actions: seq<Action> | IsRun(k, m, states, actions) :: |states[|actions|].refunds| <= 1
  }

  lemma NeverTwiceWhen(k: nat, m: nat)
    ensures NeverTwice(k, m) <==> k <= 1 || m <= 1
  {
    hide Start, Next, Enabled;
    if k <= 1 || m <= 1 {
      forall states: seq<State>, actions: seq<Action> | IsRun(k, m, states, actions)
        ensures |states[|actions|].refunds| <= 1
      {
        if m <= 1 {
          RefundedAtMostOnce(k, m, states, actions, |actions|);
        } else {
          RunAlone(k, m, states, actions, |actions|);
        }
      }
    } else {
      DoubleRefundRuns(k, m);
      assert |DoubleRefund(k, m)[|DOUBLE|].refunds| == 2;
    }
  }
}
