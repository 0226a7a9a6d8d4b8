/** The shared download limit: slots, a broadcast channel that is closed and replaced,
    and transfers that a lower limit pauses. */
module DownloadManager {
  import opened Prelude

  type Task = nat

  /** What the manager's mutex protects. A wake channel is known by its number; all but
      the newest are closed. slots records whether the manager cancelled the transfer. */
  datatype Shared = Shared(limit: int, running: int, wake: nat, slots: map<Task, bool>)

  // ---- The critical sections

  function Acquired(s: Shared, t: Task): Shared {
    if s.running < s.limit then s.(running := s.running + 1, slots := s.slots[t := false]) else s
  }

  function Finished(s: Shared, t: Task): Shared {
    s.(running := s.running - 1, slots := s.slots - {t}, wake := s.wake + 1)
  }

  function AtLeastOne(n: int): int {
    if n < 1 then 1 else n
  }

  function Excess(s: Shared, parallel: int): nat {
    if |s.slots| > AtLeastOne(parallel) then |s.slots| - AtLeastOne(parallel) else 0
  }

  /** The limit changes, and as many transfers as there are too many are cancelled;
      which ones is up to the iteration order of a map. */
  function Limited(s: Shared, parallel: int, chosen: set<Task>): Shared {
    s.(limit := AtLeastOne(parallel), wake := s.wake + 1,
       slots := map t | t in s.slots :: t in chosen || s.slots[t])
  }

  predicate MayChoose(s: Shared, parallel: int, chosen: set<Task>) {
    chosen <= s.slots.Keys && |chosen| == Excess(s, parallel)
  }

  class Manager {
    var limit: int
    var running: int
    var wake: nat
    var runningTasks: map<Task, bool>

    ghost function View(): Shared
      reads this
    {
      Shared(limit, running, wake, runningTasks)
    }

    constructor (parallel: int)
      ensures View() == Shared(AtLeastOne(parallel), 0, 0, map[]) && limit == if parallel < 1 then 1 else parallel
    {
      limit := if parallel < 1 then 1 else parallel;
      running, wake, runningTasks := 0, 0, map[];
    }

    /** The locked part of acquireSlot: a slot, or the channel to wait on. */
    method TryAcquire(t: Task) returns (got: bool, channel: nat)
      modifies this
      ensures View() == Acquired(old(View()), t)
      ensures got <==> old(running) < old(limit)
      ensures channel == old(wake) == wake && limit == old(limit)
      ensures if got then running == old(running) + 1 && runningTasks == old(runningTasks)[t := false]
              else running == old(running) && runningTasks == old(runningTasks)
    {
      channel := wake;
      got := running < limit;
      if got {
        running := running + 1;
        runningTasks := runningTasks[t := false];
      }
    }

    /** The locked part of runDownload after a transfer. */
    method Finish(t: Task)
      modifies this
      ensures View() == Finished(old(View()), t)
      ensures running == old(running) - 1 && runningTasks == old(runningTasks) - {t}
      ensures wake == old(wake) + 1 && limit == old(limit)
    {
      running := running - 1;
      runningTasks := runningTasks - {t};
      NotifyLocked();
    }

    method SetLimit(parallel: int) returns (ghost chosen: set<Task>)
      modifies this
      ensures MayChoose(old(View()), parallel, chosen)
      ensures View() == Limited(old(View()), parallel, chosen)
      ensures limit == (if parallel < 1 then 1 else parallel) && wake == old(wake) + 1 && running == old(running)
      ensures |old(runningTasks)| <= limit ==> runningTasks == old(runningTasks)
      ensures |old(runningTasks)| > limit ==> |old(runningTasks)| - |chosen| == limit
      ensures runningTasks.Keys == old(runningTasks).Keys && chosen <= runningTasks.Keys
      ensures forall t :: t in runningTasks ==> (runningTasks[t] <==> t in chosen || old(runningTasks)[t])
    {
      var at := if parallel < 1 then 1 else parallel;
      limit := at;
      chosen := CancelTransfers(|runningTasks| - at);
      NotifyLocked();
    }

    /** The loop over the running transfers, in the order of a map iteration. */
    method CancelTransfers(excess0: int) returns (ghost chosen: set<Task>)
      requires excess0 <= |runningTasks|
      modifies this`runningTasks
      ensures chosen <= old(runningTasks).Keys && |chosen| == if excess0 > 0 then excess0 else 0
      ensures runningTasks == map t | t in old(runningTasks) :: t in chosen || old(runningTasks)[t]
    {
      var excess := excess0;
      ghost var tasks, total := runningTasks, if excess > 0 then excess else 0;
      var pending := runningTasks.Keys;
      assert |pending| == |runningTasks|;
      chosen := {};
      while pending != {}
        invariant pending <= tasks.Keys && runningTasks.Keys == tasks.Keys
        invariant chosen <= tasks.Keys - pending
        invariant forall t :: t in tasks ==> runningTasks[t] == (t in chosen || tasks[t])
        invariant |chosen| + (if excess > 0 then excess else 0) == total <= |chosen| + |pending|
        decreases pending
      {
        var t :| t in pending;
        if excess <= 0 { break; }
        runningTasks := runningTasks[t := true];
        chosen := chosen + {t};
        pending := pending - {t};
        excess := excess - 1;
      }
    }

    /** Close the channel and replace it. */
    method NotifyLocked()
      modifies this`wake
      ensures wake == old(wake) + 1
    {
      wake := wake + 1;
    }
  }

  // ---- All interleavings

  datatype Ending = Succeeded | Cancelled | Failed

  /** Where one runDownload is. Transferred is the moment between giving the slot back
      and looking at the outcome. */
  datatype Phase =
    | Waiting
    | Parked(channel: nat)
    | Transferring
    | Transferred(outcome: Ending)
    | Ended(result: Ending)

  datatype System = System(shared: Shared, tasks: map<Task, Phase>, withdrawn: set<Task>)

  datatype Step =
    | Submit(t: Task)
    | Withdraw(t: Task)                    // the caller's context is cancelled
    | Acquire(t: Task)
    | Wake(t: Task)
    | GiveUp(t: Task)
    | EndTransfer(t: Task, outcome: Ending)
    | Decide(t: Task)
    | SetLimit(parallel: int, chosen: set<Task>)

  predicate In(s: System, t: Task, p: Phase) {
    t in s.tasks && s.tasks[t] == p
  }

  /** A transfer reports a cancellation only when its context was cancelled, by the
      manager or through the caller's context. */
  predicate Enabled(s: System, step: Step) {
    match step
    case Submit(t) => t !in s.tasks
    case Withdraw(t) => t in s.tasks
    case Acquire(t) => In(s, t, Waiting)
    case Wake(t) => t in s.tasks && s.tasks[t].Parked? && s.tasks[t].channel != s.shared.wake
    case GiveUp(t) => t in s.tasks && s.tasks[t].Parked? && t in s.withdrawn
    case EndTransfer(t, outcome) =>
      In(s, t, Transferring) && t in s.shared.slots && (outcome.Cancelled? ==> s.shared.slots[t] || t in s.withdrawn)
    case Decide(t) => t in s.tasks && s.tasks[t].Transferred?
    case SetLimit(parallel, chosen) => MayChoose(s.shared, parallel, chosen)
  }

  function Next(s: System, step: Step): System
    requires Enabled(s, step)
  {
    match step
    case Submit(t) => s.(tasks := s.tasks[t := Waiting])
    case Withdraw(t) => s.(withdrawn := s.withdrawn + {t})
    case Acquire(t) =>
      var phase := if s.shared.running < s.shared.limit then Transferring else Parked(s.shared.wake);
      s.(shared := Acquired(s.shared, t), tasks := s.tasks[t := phase])
    case Wake(t) => s.(tasks := s.tasks[t := Waiting])
    case GiveUp(t) => s.(tasks := s.tasks[t := Ended(Cancelled)])
    case EndTransfer(t, outcome) => s.(shared := Finished(s.shared, t), tasks := s.tasks[t := Transferred(outcome)])
    case Decide(t) =>
      var outcome := s.tasks[t].outcome;
      var phase :=
        if outcome.Succeeded? then Ended(Succeeded)
        else if t in s.withdrawn then Ended(Cancelled)
        else if !outcome.Cancelled? then Ended(outcome)
        else Waiting;
      s.(tasks := s.tasks[t := phase])
    case SetLimit(parallel, chosen) => s.(shared := Limited(s.shared, parallel, chosen))
  }

  /** A new manager. */
  function Fresh(parallel: int): System {
    System(Shared(AtLeastOne(parallel), 0, 0, map[]), map[], {})
  }

  /** Where a schedule of steps leads, if every step is possible when its turn comes. */
  function Run(s: System, steps: seq<Step>): Option<System>
    decreases |steps|
  {
    if steps == [] then Some(s)
    else if !Enabled(s, steps[0]) then None
    else Run(Next(s, steps[0]), steps[1..])
  }

  function Active(s: Shared): set<Task> {
    set t | t in s.slots && !s.slots[t]
  }

  ghost predicate SlotsMatchTransfers(s: System) {
    forall t :: t in s.shared.slots <==> In(s, t, Transferring)
  }

  ghost predicate NoLostWake(s: System) {
    forall t :: t in s.tasks && s.tasks[t].Parked? ==>
      && s.tasks[t].channel <= s.shared.wake
      && (s.tasks[t].channel == s.shared.wake ==> s.shared.running >= s.shared.limit)
  }

  ghost predicate OnlyWithdrawnAreCancelled(s: System) {
    forall t :: In(s, t, Ended(Cancelled)) ==> t in s.withdrawn
  }

  ghost predicate Invariant(s: System) {
    && s.shared.limit >= 1
    && s.shared.running == |s.shared.slots|
    && SlotsMatchTransfers(s)
    && |Active(s.shared)| <= s.shared.limit
    && NoLostWake(s)
    && OnlyWithdrawnAreCancelled(s)
  }

  lemma {:induction false} SubsetCount(a: set<Task>, b: set<Task>)
    requires a <= b
    ensures |a| <= |b|
  {
    if a != {} {
      var t :| t in a;
      SubsetCount(a - {t}, b - {t});
    }
  }

  lemma AcquiredCounts(s: Shared, t: Task)
    requires s.running == |s.slots| && |Active(s)| <= s.limit && t !in s.slots
    ensures Acquired(s, t).running == |Acquired(s, t).slots|
    ensures |Active(Acquired(s, t))| <= s.limit
  {
    var s' := Acquired(s, t);
    if s.running < s.limit {
      assert s'.slots.Keys == s.slots.Keys + {t};
      assert |s'.slots| == |s'.slots.Keys| && |s.slots| == |s.slots.Keys|;
      SubsetCount(Active(s'), s'.slots.Keys);
    }
  }

  lemma FinishedCounts(s: Shared, t: Task)
    requires s.running == |s.slots| && |Active(s)| <= s.limit && t in s.slots
    ensures Finished(s, t).running == |Finished(s, t).slots|
    ensures |Active(Finished(s, t))| <= s.limit
  {
    var s' := Finished(s, t);
    assert s'.slots.Keys == s.slots.Keys - {t};
    assert |s'.slots| == |s'.slots.Keys| && |s.slots| == |s.slots.Keys|;
    SubsetCount(Active(s'), Active(s));
  }

  lemma LimitedCounts(s: Shared, parallel: int, chosen: set<Task>)
    requires s.running == |s.slots| && MayChoose(s, parallel, chosen)
    ensures Limited(s, parallel, chosen).running == |Limited(s, parallel, chosen).slots|
    ensures |Active(Limited(s, parallel, chosen))| <= AtLeastOne(parallel)
  {
    var s' := Limited(s, parallel, chosen);
    assert s'.slots.Keys == s.slots.Keys;
    assert |s'.slots| == |s'.slots.Keys| && |s.slots| == |s.slots.Keys|;
    var kept := s.slots.Keys - chosen;
    assert s.slots.Keys == kept + chosen && kept !! chosen;
    SubsetCount(Active(s'), kept);
  }

  lemma StepKeepsCounts(s: System, step: Step)
    requires Invariant(s) && Enabled(s, step)
    ensures Next(s, step).shared.limit >= 1
    ensures Next(s, step).shared.running == |Next(s, step).shared.slots|
    ensures |Active(Next(s, step).shared)| <= Next(s, step).shared.limit
  {
    match step
    case Acquire(t) => AcquiredCounts(s.shared, t);
    case EndTransfer(t, _) => FinishedCounts(s.shared, t);
    case SetLimit(parallel, chosen) => LimitedCounts(s.shared, parallel, chosen);
    case _ =>
  }

  lemma StepKeepsSlots(s: System, step: Step)
    requires SlotsMatchTransfers(s) && Enabled(s, step)
    ensures SlotsMatchTransfers(Next(s, step))
  {
    forall t
      ensures t in Next(s, step).shared.slots <==> In(Next(s, step), t, Transferring)
    {
      assert t in s.shared.slots <==> In(s, t, Transferring);
    }
  }

  lemma StepKeepsWakes(s: System, step: Step)
    requires NoLostWake(s) && Enabled(s, step)
    ensures NoLostWake(Next(s, step))
  {
  }

  lemma StepKeepsWithdrawals(s: System, step: Step)
    requires OnlyWithdrawnAreCancelled(s) && Enabled(s, step)
    ensures OnlyWithdrawnAreCancelled(Next(s, step))
  {
    forall t | In(Next(s, step), t, Ended(Cancelled))
      ensures t in Next(s, step).withdrawn
    {
      assert In(s, t, Ended(Cancelled)) ==> t in s.withdrawn;
    }
  }

  lemma StepKeepsInvariant(s: System, step: Step)
    requires Invariant(s) && Enabled(s, step)
    ensures Invariant(Next(s, step))
  {
    StepKeepsCounts(s, step);
    StepKeepsSlots(s, step);
    StepKeepsWakes(s, step);
    StepKeepsWithdrawals(s, step);
  }

  lemma {:induction false} RunKeepsInvariant(s: System, steps: seq<Step>)
    requires Invariant(s)
    ensures Run(s, steps).Some? ==> Invariant(Run(s, steps).value)
    decreases |steps|
  {
    hide Invariant;
    if steps != [] && Enabled(s, steps[0]) {
      StepKeepsInvariant(s, steps[0]);
      RunKeepsInvariant(Next(s, steps[0]), steps[1..]);
    }
  }

  predicate TransfersNow(s: System, t: Task) {
    In(s, t, Transferring)
  }

  /** In every interleaving: the count is right, no more than limit transfers go on that
      nobody cancelled, and a waiter is never left behind while a slot is free. */
  lemma LimitHolds(parallel: int, steps: seq<Step>, s: System)
    requires Run(Fresh(parallel), steps) == Some(s)
    ensures s.shared.running == |set t | t in s.tasks && TransfersNow(s, t)|
    ensures |Active(s.shared)| <= s.shared.limit
    ensures forall t :: t in s.tasks && s.tasks[t].Parked? && s.shared.running < s.shared.limit ==> Enabled(s, Wake(t))
  {
    assert Active(Fresh(parallel).shared) == {};
    RunKeepsInvariant(Fresh(parallel), steps);
    assert s.shared.slots.Keys == set t | t in s.tasks && TransfersNow(s, t);
    assert |s.shared.slots| == |s.shared.slots.Keys|;
  }

  /** A pause is never what the caller gets: a download ends as cancelled only if the
      caller withdrew it, and a transfer the manager cancelled goes back to waiting. */
  lemma PausesStayInside(parallel: int, steps: seq<Step>, s: System, t: Task)
    requires Run(Fresh(parallel), steps) == Some(s)
    ensures In(s, t, Ended(Cancelled)) ==> t in s.withdrawn
    ensures In(s, t, Transferred(Cancelled)) && t !in s.withdrawn ==>
              Enabled(s, Decide(t)) && In(Next(s, Decide(t)), t, Waiting)
  {
    assert Active(Fresh(parallel).shared) == {};
    RunKeepsInvariant(Fresh(parallel), steps);
  }

  /** A caller can submit any new task and withdraw it at any time, also while it waits. */
  lemma CallersAreHeard(s: System, t: Task)
    ensures t !in s.tasks ==> Enabled(s, Submit(t)) && In(Next(s, Submit(t)), t, Waiting) && Next(s, Submit(t)).shared == s.shared
    ensures t in s.tasks ==> Enabled(s, Withdraw(t)) && t in Next(s, Withdraw(t)).withdrawn
    ensures t in s.tasks && s.tasks[t].Parked? && t in s.withdrawn ==>
              Enabled(s, GiveUp(t)) && In(Next(s, GiveUp(t)), t, Ended(Cancelled)) && Next(s, GiveUp(t)).shared == s.shared
  {
  }

  /** In every reachable state with a free slot a task that waits, parked or not, can begin its
      transfer at once, and its end gives the slot back. */
  lemma WaitersAreServed(parallel: int, before: seq<Step>, s: System, t: Task, outcome: Ending) returns (steps: seq<Step>, g: System)
    requires Run(Fresh(parallel), before) == Some(s) && t in s.tasks && (s.tasks[t].Parked? || s.tasks[t].Waiting?)
    requires s.shared.running < s.shared.limit && !outcome.Cancelled?
    ensures Run(s, steps) == Some(g) && g.shared.running == s.shared.running && g.shared.slots == s.shared.slots
    ensures In(g, t, if outcome.Succeeded? then Ended(Succeeded) else if t in s.withdrawn then Ended(Cancelled) else Ended(Failed))
  {
    hide Run;
    LimitHolds(parallel, before, s);
    KeepsItsSlots(parallel, before, s);
    var w := if s.tasks[t].Parked? then Next(s, Wake(t)) else s;
    var a := Next(w, Acquire(t));
    var e := Next(a, EndTransfer(t, outcome));
    g := Next(e, Decide(t));
    assert a.shared.slots - {t} == s.shared.slots;
    steps := OneStep(e, Decide(t), [], g);
    steps := OneStep(a, EndTransfer(t, outcome), steps, g);
    steps := OneStep(w, Acquire(t), steps, g);
    if s.tasks[t].Parked? {
      steps := OneStep(s, Wake(t), steps, g);
    }
  }

  lemma KeepsItsSlots(parallel: int, steps: seq<Step>, s: System)
    requires Run(Fresh(parallel), steps) == Some(s)
    ensures SlotsMatchTransfers(s)
  {
    assert Active(Fresh(parallel).shared) == {};
    RunKeepsInvariant(Fresh(parallel), steps);
  }

  lemma OneStep(s: System, step: Step, rest: seq<Step>, g: System) returns (steps: seq<Step>)
    requires Enabled(s, step) && (if rest == [] then Next(s, step) == g else Run(Next(s, step), rest) == Some(g))
    ensures Run(s, steps) == Some(g) && steps != []
  {
    steps := [step] + rest;
    assert steps[1..] == rest;
  }

  /** The caller gets what the transfer came to, unless the manager alone cancelled it. */
  lemma CallerGets(s: System, t: Task, outcome: Ending)
    requires In(s, t, Transferred(outcome))
    ensures var now := Next(s, Decide(t)).tasks[t];
            && (now == Ended(Succeeded) <==> outcome == Succeeded)
            && (now == Ended(Failed) <==> outcome == Failed && t !in s.withdrawn)
            && (now == Waiting <==> outcome == Cancelled && t !in s.withdrawn)
            && (now == Ended(Cancelled) <==> outcome != Succeeded && t in s.withdrawn)
  {
  }

  /** A change of the limit that leaves room for all that are running. */
  predicate LeavesRoom(s: System, step: Step) {
    step.SetLimit? ==> |s.shared.slots| <= (if step.parallel < 1 then 1 else step.parallel)
  }

  predicate AlwaysLeavesRoom(s: System, steps: seq<Step>)
    decreases |steps|
  {
    steps != [] && Enabled(s, steps[0]) ==> LeavesRoom(s, steps[0]) && AlwaysLeavesRoom(Next(s, steps[0]), steps[1..])
  }

  predicate NobodyIsPaused(s: System) {
    forall t :: t in s.shared.slots ==> !s.shared.slots[t]
  }

  /** The manager pauses a transfer only when the limit goes below what is running. */
  lemma {:induction false} OnlyLoweringPauses(s: System, steps: seq<Step>)
    requires NobodyIsPaused(s) && AlwaysLeavesRoom(s, steps)
    ensures Run(s, steps).Some? ==> NobodyIsPaused(Run(s, steps).value)
    decreases |steps|
  {
    if steps != [] && Enabled(s, steps[0]) {
      if steps[0].SetLimit? {
        assert steps[0].chosen == {};
      }
      OnlyLoweringPauses(Next(s, steps[0]), steps[1..]);
    }
  }

  /** Lowering it pauses no more than it has to. */
  lemma LoweringPausesTheExcess(s: System, parallel: int, chosen: set<Task>)
    requires Enabled(s, SetLimit(parallel, chosen)) && 1 <= parallel < |s.shared.slots|
    ensures |s.shared.slots| - |chosen| == parallel && chosen <= s.shared.slots.Keys
    ensures forall t :: t in s.shared.slots ==>
              t in Next(s, SetLimit(parallel, chosen)).shared.slots
              && (Next(s, SetLimit(parallel, chosen)).shared.slots[t] <==> t in chosen || s.shared.slots[t])
  {
  }
}
