/** All interleavings of guarded operations, plain locks, restores and launches. */
module Exclusion {
  import opened Prelude
  import opened InstanceSlots

  /** A thread, which is also the session of the game it launches. */
  type Id = nat

  /** One operation or launch. Guarding, and every phase of a launch before Playing, has
      the launch mutex. Restoring has put its operation's marker over its reservation;
      Leaving has given that marker back and still owes the release of the reservation. */
  datatype Phase =
    | Asking(guarded: bool, marker: Marker)
    | Guarding(marker: Marker)
    | Cleared(marker: Marker)                     // the running check passed
    | Holding(guarded: bool, marker: Marker)
    | Restoring(marker: Marker, reservation: Marker)
    | Leaving(reservation: Marker)
    | Wanting(client: Client, exclusive: bool)
    | Launching(client: Client, exclusive: bool)
    | NotBusy(client: Client, exclusive: bool)
    | NotRunning(client: Client, exclusive: bool)
    | Ready(client: Client, exclusive: bool)
    | Playing(client: Client, exclusive: bool)
    | Over

  datatype Thread = Thread(instance: InstanceId, phase: Phase)

  datatype System = System(
    busy: map<InstanceId, Marker>,
    running: map<InstanceId, Game>,
    launchLock: Option<Id>,
    threads: map<Id, Thread>)

  datatype Step =
    | Arrive(id: Id, instance: InstanceId, phase: Phase)
    | LockLaunch(id: Id)
    | CheckRunning(id: Id)
    | Acquire(id: Id)
    | SetMarker(id: Id, marker: Marker)
    | Release(id: Id)
    | CheckBusy(id: Id)
    | CheckClient(id: Id)
    | Fail(id: Id)
    | Start(id: Id)
    | Stop(id: Id)

  function PhaseOf(s: System, id: Id): Phase {
    if id in s.threads then s.threads[id].phase else Over
  }

  function InstanceOf(s: System, id: Id): InstanceId {
    if id in s.threads then s.threads[id].instance else ""
  }

  predicate Enabled(s: System, step: Step) {
    match step
    case Arrive(id, _, phase) =>
      id !in s.threads && (phase.Wanting? || (phase.Asking? && phase.marker != ""))
      && (phase.Wanting? && phase.exclusive ==> phase.client.Optimum?)
    case LockLaunch(id) =>
      s.launchLock.None? && (PhaseOf(s, id).Wanting? || (PhaseOf(s, id).Asking? && PhaseOf(s, id).guarded))
    case CheckRunning(id) => PhaseOf(s, id).Guarding? || PhaseOf(s, id).NotBusy?
    case Acquire(id) => PhaseOf(s, id).Cleared? || (PhaseOf(s, id).Asking? && !PhaseOf(s, id).guarded)
    case SetMarker(id, marker) => PhaseOf(s, id).Holding? && PhaseOf(s, id).guarded && marker != ""
    case Release(id) => PhaseOf(s, id).Holding? || PhaseOf(s, id).Restoring? || PhaseOf(s, id).Leaving?
    case CheckBusy(id) => PhaseOf(s, id).Launching?
    case CheckClient(id) => PhaseOf(s, id).NotRunning?
    case Fail(id) => InLaunch(PhaseOf(s, id))
    case Start(id) => PhaseOf(s, id).Ready?
    case Stop(id) => PhaseOf(s, id).Playing?
  }

  /** The phases in which a launch has the launch mutex. */
  predicate InLaunch(p: Phase) {
    p.Launching? || p.NotBusy? || p.NotRunning? || p.Ready?
  }

  predicate HasLaunchLock(p: Phase) {
    InLaunch(p) || p.Guarding? || p.Cleared?
  }

  predicate SomeOptimumRunning(s: System) {
    exists i :: i in s.running && s.running[i].client.Optimum?
  }

  function Moved(s: System, id: Id, phase: Phase): System {
    s.(threads := s.threads[id := Thread(InstanceOf(s, id), phase)])
  }

  function Unlocked(s: System, id: Id, phase: Phase): System {
    Moved(s, id, phase).(launchLock := None)
  }

  function Next(s: System, step: Step): System
    requires Enabled(s, step)
  {
    var id := step.id;
    var instance := InstanceOf(s, id);
    var p := PhaseOf(s, id);
    match step
    case Arrive(_, at, phase) => s.(threads := s.threads[id := Thread(at, phase)])
    case LockLaunch(_) =>
      Moved(s, id, if p.Wanting? then Launching(p.client, p.exclusive) else Guarding(p.marker)).(launchLock := Some(id))
    case CheckRunning(_) =>
      if instance in s.running then Unlocked(s, id, Over)
      else Moved(s, id, if p.Guarding? then Cleared(p.marker) else NotRunning(p.client, p.exclusive))
    case Acquire(_) =>
      var free := Current(s.busy, instance) == "";
      var held := if free then s.(busy := s.busy[instance := p.marker]) else s;
      var phase := if free then Holding(p.Cleared?, p.marker) else Over;
      if p.Cleared? then Unlocked(held, id, phase) else Moved(held, id, phase)
    case SetMarker(_, marker) => Moved(s, id, Restoring(marker, p.marker)).(busy := s.busy[instance := marker])
    case Release(_) =>
      match p {
        case Restoring(marker, reservation) =>
          Moved(s, id, Leaving(reservation)).(busy := InstanceSlots.Cleared(s.busy, instance, marker))
        case Leaving(reservation) =>
          Moved(s, id, Over).(busy := InstanceSlots.Cleared(s.busy, instance, reservation))
        case _ => Moved(s, id, Over).(busy := InstanceSlots.Cleared(s.busy, instance, p.marker))
      }
    case CheckBusy(_) =>
      if Current(s.busy, instance) != "" then Unlocked(s, id, Over) else Moved(s, id, NotBusy(p.client, p.exclusive))
    case CheckClient(_) =>
      if p.exclusive && SomeOptimumRunning(s) then Unlocked(s, id, Over) else Moved(s, id, Ready(p.client, p.exclusive))
    case Fail(_) => Unlocked(s, id, Over)
    case Start(_) =>
      Unlocked(s, id, Playing(p.client, p.exclusive)).(running := s.running[instance := Game(id, p.client)])
    case Stop(_) => Moved(s, id, Over).(running := s.running - {instance})
  }

  // ---- What runs keep

  /** The marker a thread relies on while its operation is at work. */
  predicate Live(p: Phase) {
    p.Holding? || p.Restoring?
  }

  predicate Guarded(p: Phase) {
    (p.Holding? && p.guarded) || p.Restoring?
  }

  predicate LiveOn(s: System, id: Id, instance: InstanceId) {
    id in s.threads && s.threads[id].instance == instance && Live(s.threads[id].phase)
  }

  predicate GuardedOn(s: System, id: Id, instance: InstanceId) {
    id in s.threads && s.threads[id].instance == instance && Guarded(s.threads[id].phase)
  }

  ghost predicate LockIsKnown(s: System) {
    forall id :: id in s.threads ==> (HasLaunchLock(s.threads[id].phase) <==> s.launchLock == Some(id))
  }

  ghost predicate LockIsReal(s: System) {
    s.launchLock.Some? ==> s.launchLock.value in s.threads
  }

  ghost predicate MarkersAreHeld(s: System) {
    forall id, i :: LiveOn(s, id, i) ==>
      s.threads[id].phase.marker != "" && Current(s.busy, i) == s.threads[id].phase.marker
  }

  predicate Named(p: Phase) {
    p.Asking? || p.Guarding? || p.Cleared? ==> p.marker != ""
  }

  ghost predicate MarkersAreNamed(s: System) {
    forall id :: id in s.threads ==> Named(s.threads[id].phase)
  }

  ghost predicate OneHolder(s: System) {
    forall a, b, i :: LiveOn(s, a, i) && LiveOn(s, b, i) ==> a == b
  }

  /** No operation that was let in past the running check shares its instance with a game,
      or with a launch that has found the instance free. */
  ghost predicate GuardsAreAlone(s: System) {
    forall id, i :: GuardedOn(s, id, i) ==>
      i !in s.running && forall t :: t in s.threads && s.threads[t].instance == i ==> !PastBusyCheck(s.threads[t].phase)
  }

  predicate PastBusyCheck(p: Phase) {
    p.NotBusy? || p.NotRunning? || p.Ready?
  }

  predicate PastRunningCheck(p: Phase) {
    p.Cleared? || p.NotRunning? || p.Ready?
  }

  ghost predicate ChecksStillHold(s: System) {
    forall id :: id in s.threads ==>
      && (PastRunningCheck(s.threads[id].phase) ==> s.threads[id].instance !in s.running)
      && (s.threads[id].phase.Ready? && s.threads[id].phase.exclusive ==> !SomeOptimumRunning(s))
  }

  predicate PlaysOn(s: System, id: Id, i: InstanceId) {
    id in s.threads && s.threads[id].instance == i && s.threads[id].phase.Playing?
  }

  ghost predicate GamesAreKnown(s: System) {
    && (forall id, i :: PlaysOn(s, id, i) ==> i in s.running && s.running[i] == Game(id, s.threads[id].phase.client))
    && (forall i :: i in s.running ==> PlaysOn(s, s.running[i].session, i))
  }

  predicate Exclusive(p: Phase) {
    match p
    case Wanting(_, e) => e
    case Launching(_, e) => e
    case NotBusy(_, e) => e
    case NotRunning(_, e) => e
    case Ready(_, e) => e
    case Playing(_, e) => e
    case _ => false
  }

  predicate OptimumIfExclusive(p: Phase) {
    Exclusive(p) ==> p.client.Optimum?
  }

  ghost predicate ExclusiveIsOptimum(s: System) {
    forall id :: id in s.threads ==> OptimumIfExclusive(s.threads[id].phase)
  }

  predicate PlaysExclusively(s: System, id: Id) {
    id in s.threads && s.threads[id].phase.Playing? && s.threads[id].phase.exclusive
  }

  ghost predicate OneExclusiveGame(s: System) {
    forall a, b :: PlaysExclusively(s, a) && PlaysExclusively(s, b) ==> a == b
  }

  /** What the launch mutex alone ensures, whoever releases which slot. */
  ghost predicate GameInvariant(s: System) {
    && LockIsKnown(s)
    && LockIsReal(s)
    && ChecksStillHold(s)
    && GamesAreKnown(s)
    && ExclusiveIsOptimum(s)
    && OneExclusiveGame(s)
  }

  ghost predicate Invariant(s: System) {
    && GameInvariant(s)
    && MarkersAreNamed(s)
    && MarkersAreHeld(s)
    && OneHolder(s)
    && GuardsAreAlone(s)
  }

  /** What a release clears belongs to nobody else: no other operation at work on the
      instance has the same marker. */
  ghost predicate Undisturbing(s: System, step: Step)
    requires Enabled(s, step)
  {
    step.Release? ==>
      var p := PhaseOf(s, step.id);
      var marker := if p.Leaving? then p.reservation else p.marker;
      forall other :: other != step.id && LiveOn(s, other, InstanceOf(s, step.id)) ==> s.threads[other].phase.marker != marker
  }

  // ---- Each part of the invariant, step by step

  lemma KeepsLock(s: System, step: Step)
    requires LockIsKnown(s) && LockIsReal(s) && Enabled(s, step)
    ensures LockIsKnown(Next(s, step)) && LockIsReal(Next(s, step))
  {
    hide Current, InstanceSlots.Cleared, SomeOptimumRunning;
    var s' := Next(s, step);
    forall id | id in s'.threads
      ensures HasLaunchLock(s'.threads[id].phase) <==> s'.launchLock == Some(id)
    {
      assert id != step.id ==> id in s.threads && s'.threads[id] == s.threads[id];
    }
  }

  lemma KeepsNames(s: System, step: Step)
    requires MarkersAreNamed(s) && Enabled(s, step)
    ensures MarkersAreNamed(Next(s, step))
  {
  }

  lemma KeepsMarkers(s: System, step: Step)
    requires MarkersAreNamed(s) && MarkersAreHeld(s) && OneHolder(s) && Enabled(s, step) && Undisturbing(s, step)
    ensures MarkersAreHeld(Next(s, step))
  {
    var s' := Next(s, step);
    var at := InstanceOf(s, step.id);
    forall id, i | LiveOn(s', id, i)
      ensures s'.threads[id].phase.marker != "" && Current(s'.busy, i) == s'.threads[id].phase.marker
    {
      if id != step.id {
        assert LiveOn(s, id, i);
        assert Live(PhaseOf(s, step.id)) ==> LiveOn(s, step.id, at);
        assert i != at ==> Current(s'.busy, i) == Current(s.busy, i);
      }
    }
  }

  lemma KeepsOneHolder(s: System, step: Step)
    requires MarkersAreHeld(s) && OneHolder(s) && Enabled(s, step)
    ensures OneHolder(Next(s, step))
  {
    var s' := Next(s, step);
    forall a, b, i | LiveOn(s', a, i) && LiveOn(s', b, i)
      ensures a == b
    {
      assert a != step.id ==> LiveOn(s, a, i);
      assert b != step.id ==> LiveOn(s, b, i);
    }
  }

  /** A step leaves the other threads alone; only a start adds a game. */
  lemma OnlyItsThread(s: System, step: Step)
    requires Enabled(s, step)
    ensures forall t :: t != step.id ==> Get(Next(s, step).threads, t) == Get(s.threads, t)
    ensures step.id in Next(s, step).threads
    ensures step.Arrive? ==> step.id !in s.threads
    ensures !step.Arrive? ==> step.id in s.threads && Next(s, step).threads[step.id].instance == s.threads[step.id].instance
    ensures forall i :: i in Next(s, step).running ==> i in s.running || (step.Start? && i == InstanceOf(s, step.id))
    ensures !step.Start? && !step.Stop? ==> Next(s, step).running == s.running
  {
    hide Current, InstanceSlots.Cleared, SomeOptimumRunning, HasLaunchLock;
  }

  /** Where a guarded operation begins, and where a launch finds its instance free. */
  lemma ItsPhase(s: System, step: Step)
    requires Enabled(s, step)
    ensures var p, p' := PhaseOf(s, step.id), PhaseOf(Next(s, step), step.id);
            && (Guarded(p') ==> Guarded(p) || (step.Acquire? && p.Cleared?))
            && (PastBusyCheck(p') ==> PastBusyCheck(p) || (p.Launching? && Current(s.busy, InstanceOf(s, step.id)) == ""))
            && (step.Start? ==> p.Ready? && !Guarded(p'))
            && (p'.Playing? ==> step.Start?) && (p.Playing? ==> step.Stop?)
  {
    hide InstanceSlots.Cleared, SomeOptimumRunning, HasLaunchLock;
  }

  lemma KeepsGuards(s: System, step: Step)
    requires LockIsKnown(s) && MarkersAreHeld(s) && GuardsAreAlone(s) && ChecksStillHold(s) && Enabled(s, step)
    ensures GuardsAreAlone(Next(s, step))
  {
    hide Next, Enabled, SomeOptimumRunning;
    OnlyItsThread(s, step);
    ItsPhase(s, step);
    var s' := Next(s, step);
    forall id, i | GuardedOn(s', id, i)
      ensures i !in s'.running
      ensures forall t :: t in s'.threads && s'.threads[t].instance == i ==> !PastBusyCheck(s'.threads[t].phase)
    {
      GuardIsAlone(s, step, id, i);
      forall t | t in s'.threads && s'.threads[t].instance == i
        ensures !PastBusyCheck(s'.threads[t].phase)
      {
        GuardMeetsNoLaunch(s, step, id, i, t);
      }
    }
  }

  lemma GuardIsAlone(s: System, step: Step, id: Id, i: InstanceId)
    requires GuardsAreAlone(s) && ChecksStillHold(s) && Enabled(s, step) && GuardedOn(Next(s, step), id, i)
    ensures i !in Next(s, step).running
  {
    hide Next, Enabled, SomeOptimumRunning;
    OnlyItsThread(s, step);
    ItsPhase(s, step);
    assert Get(Next(s, step).threads, id) == Get(s.threads, id) || id == step.id;
    if id != step.id || Guarded(PhaseOf(s, id)) {
      assert GuardedOn(s, id, i);
      assert step.Start? ==> PastBusyCheck(s.threads[step.id].phase);
    } else {
      assert PastRunningCheck(s.threads[id].phase);
    }
  }

  lemma GuardMeetsNoLaunch(s: System, step: Step, id: Id, i: InstanceId, t: Id)
    requires LockIsKnown(s) && MarkersAreHeld(s) && GuardsAreAlone(s) && Enabled(s, step) && GuardedOn(Next(s, step), id, i)
    requires t in Next(s, step).threads && Next(s, step).threads[t].instance == i
    ensures !PastBusyCheck(Next(s, step).threads[t].phase)
  {
    hide Next, Enabled, SomeOptimumRunning;
    OnlyItsThread(s, step);
    ItsPhase(s, step);
    assert Get(Next(s, step).threads, id) == Get(s.threads, id) || id == step.id;
    assert Get(Next(s, step).threads, t) == Get(s.threads, t) || t == step.id;
    if id != step.id || Guarded(PhaseOf(s, id)) {
      assert GuardedOn(s, id, i) && LiveOn(s, id, i);
    } else {
      assert HasLaunchLock(s.threads[id].phase);
    }
  }

  lemma KeepsChecks(s: System, step: Step)
    requires LockIsKnown(s) && ChecksStillHold(s) && Enabled(s, step)
    ensures ChecksStillHold(Next(s, step))
  {
    var s' := Next(s, step);
    assert !step.Start? ==> s'.running.Keys <= s.running.Keys;
  }

  /** Games begin and end in two steps only. */
  lemma OtherStepsKeepGames(s: System, step: Step)
    requires Enabled(s, step) && !step.Start? && !step.Stop?
    ensures Next(s, step).running == s.running
    ensures forall id :: id in Next(s, step).threads && Next(s, step).threads[id].phase.Playing? ==>
              id in s.threads && Next(s, step).threads[id] == s.threads[id]
    ensures forall id :: id in s.threads && s.threads[id].phase.Playing? ==>
              id in Next(s, step).threads && Next(s, step).threads[id] == s.threads[id]
  {
    hide Next, Enabled;
    OnlyItsThread(s, step);
    ItsPhase(s, step);
    assert !PhaseOf(s, step.id).Playing? && !PhaseOf(Next(s, step), step.id).Playing?;
    forall id
      ensures id in Next(s, step).threads && Next(s, step).threads[id].phase.Playing? ==>
                id in s.threads && Next(s, step).threads[id] == s.threads[id]
      ensures id in s.threads && s.threads[id].phase.Playing? ==>
                id in Next(s, step).threads && Next(s, step).threads[id] == s.threads[id]
    {
      assert id != step.id ==> Get(Next(s, step).threads, id) == Get(s.threads, id);
    }
  }

  lemma KeepsGames(s: System, step: Step)
    requires GamesAreKnown(s) && ChecksStillHold(s) && Enabled(s, step)
    ensures GamesAreKnown(Next(s, step))
  {
    hide Current, InstanceSlots.Cleared, SomeOptimumRunning;
    var s' := Next(s, step);
    if step.Start? || step.Stop? {
      forall id, i | PlaysOn(s', id, i)
        ensures i in s'.running && s'.running[i] == Game(id, s'.threads[id].phase.client)
      {
        assert id != step.id ==> PlaysOn(s, id, i);
      }
      forall i | i in s'.running
        ensures PlaysOn(s', s'.running[i].session, i)
      {
        assert i in s.running ==> PlaysOn(s, s.running[i].session, i);
      }
    } else {
      SameGames(s, step);
    }
  }

  lemma SameGames(s: System, step: Step)
    requires GamesAreKnown(s) && Enabled(s, step) && !step.Start? && !step.Stop?
    ensures GamesAreKnown(Next(s, step))
    ensures forall id :: PlaysExclusively(Next(s, step), id) <==> PlaysExclusively(s, id)
  {
    hide Next, Enabled;
    OtherStepsKeepGames(s, step);
    var s' := Next(s, step);
    forall id, i | PlaysOn(s', id, i)
      ensures i in s'.running && s'.running[i] == Game(id, s'.threads[id].phase.client)
    {
      assert PlaysOn(s, id, i);
    }
    forall i | i in s'.running
      ensures PlaysOn(s', s'.running[i].session, i)
    {
      assert PlaysOn(s, s.running[i].session, i);
    }
  }

  lemma KeepsOptimum(s: System, step: Step)
    requires ExclusiveIsOptimum(s) && Enabled(s, step)
    ensures ExclusiveIsOptimum(Next(s, step))
  {
    hide Current, InstanceSlots.Cleared, SomeOptimumRunning;
    var s' := Next(s, step);
    forall id | id in s'.threads
      ensures OptimumIfExclusive(s'.threads[id].phase)
    {
      assert id in s.threads ==> OptimumIfExclusive(s.threads[id].phase);
    }
  }

  lemma KeepsExclusive(s: System, step: Step)
    requires GamesAreKnown(s) && ChecksStillHold(s) && ExclusiveIsOptimum(s) && OneExclusiveGame(s) && Enabled(s, step)
    ensures OneExclusiveGame(Next(s, step))
  {
    hide Current, InstanceSlots.Cleared;
    var s' := Next(s, step);
    if step.Start? || step.Stop? {
      forall a, b | PlaysExclusively(s', a) && PlaysExclusively(s', b)
        ensures a == b
      {
        assert a != step.id ==> PlaysExclusively(s, a) && PlaysOn(s, a, s.threads[a].instance);
        assert b != step.id ==> PlaysExclusively(s, b) && PlaysOn(s, b, s.threads[b].instance);
      }
    } else {
      SameGames(s, step);
    }
  }

  lemma StepKeepsInvariant(s: System, step: Step)
    requires Invariant(s) && Enabled(s, step) && Undisturbing(s, step)
    ensures Invariant(Next(s, step))
  {
    hide Next, Enabled, Undisturbing, LockIsKnown, LockIsReal, MarkersAreNamed, MarkersAreHeld, OneHolder, GuardsAreAlone,
         ChecksStillHold, GamesAreKnown, ExclusiveIsOptimum, OneExclusiveGame;
    StepKeepsGames(s, step);
    KeepsNames(s, step);
    KeepsMarkers(s, step);
    KeepsOneHolder(s, step);
    KeepsGuards(s, step);
  }

  lemma StepKeepsGames(s: System, step: Step)
    requires GameInvariant(s) && Enabled(s, step)
    ensures GameInvariant(Next(s, step))
  {
    hide Next, Enabled, LockIsKnown, LockIsReal, ChecksStillHold, GamesAreKnown, ExclusiveIsOptimum, OneExclusiveGame;
    KeepsLock(s, step);
    KeepsChecks(s, step);
    KeepsGames(s, step);
    KeepsOptimum(s, step);
    KeepsExclusive(s, step);
  }

  // ---- Runs

  const INITIAL := System(map[], map[], None, map[])

  /** Where a schedule of steps leads, if every step is possible when its turn comes. */
  function Run(s: System, steps: seq<Step>): Option<System>
    decreases |steps|
  {
    if steps == [] then Some(s)
    else if !Enabled(s, steps[0]) then None
    else Run(Next(s, steps[0]), steps[1..])
  }

  ghost predicate Orderly(s: System, steps: seq<Step>)
    decreases |steps|
  {
    steps != [] && Enabled(s, steps[0]) ==> Undisturbing(s, steps[0]) && Orderly(Next(s, steps[0]), steps[1..])
  }

  lemma {:induction false} RunKeepsInvariant(s: System, steps: seq<Step>)
    requires Invariant(s) && Orderly(s, steps)
    ensures Run(s, steps).Some? ==> Invariant(Run(s, steps).value)
    decreases |steps|
  {
    if steps != [] && Enabled(s, steps[0]) {
      StepKeepsInvariant(s, steps[0]);
      RunKeepsInvariant(Next(s, steps[0]), steps[1..]);
    }
  }

  lemma {:induction false} RunKeepsGames(s: System, steps: seq<Step>)
    requires GameInvariant(s)
    ensures Run(s, steps).Some? ==> GameInvariant(Run(s, steps).value)
    decreases |steps|
  {
    hide Next, Enabled, GameInvariant;
    if steps != [] && Enabled(s, steps[0]) {
      StepKeepsGames(s, steps[0]);
      RunKeepsGames(Next(s, steps[0]), steps[1..]);
    }
  }

  // ---- Main results

  /** In every interleaving whose releases disturb nobody: an instance with a guarded
      operation has no game, and an instance has one operation at most. */
  lemma OneThingAtATime(steps: seq<Step>, s: System)
    requires Orderly(INITIAL, steps) && Run(INITIAL, steps) == Some(s)
    ensures forall id, i :: GuardedOn(s, id, i) ==> i !in s.running && forall other :: !PlaysOn(s, other, i)
    ensures forall a, b, i :: LiveOn(s, a, i) && LiveOn(s, b, i) ==> a == b
  {
    RunKeepsInvariant(INITIAL, steps);
  }

  /** In every interleaving at all an instance has one game at most, the registry names it
      exactly while it is played, and no two games use an exclusive Optimum installation. */
  lemma OneGameAtATime(steps: seq<Step>, s: System)
    requires Run(INITIAL, steps) == Some(s)
    ensures forall a, b, i :: PlaysOn(s, a, i) && PlaysOn(s, b, i) ==> a == b
    ensures forall i :: i in s.running <==> exists id :: PlaysOn(s, id, i)
    ensures forall a, b :: PlaysExclusively(s, a) && PlaysExclusively(s, b) ==> a == b
  {
    RunKeepsGames(INITIAL, steps);
  }

  /** When a game exits, in any interleaving, the entry that is removed is its own. */
  lemma StopRemovesItsOwn(steps: seq<Step>, s: System, id: Id)
    requires Run(INITIAL, steps) == Some(s) && PhaseOf(s, id).Playing?
    ensures InstanceOf(s, id) in s.running && s.running[InstanceOf(s, id)].session == id
    ensures forall i :: i in s.running && s.running[i].session != id ==> Get(Next(s, Stop(id)).running, i) == Get(s.running, i)
    ensures forall i :: i in Next(s, Stop(id)).running ==> Next(s, Stop(id)).running[i].session != id
  {
    RunKeepsGames(INITIAL, steps);
    assert PlaysOn(s, id, InstanceOf(s, id));
    forall i | i in s.running
      ensures PlaysOn(s, s.running[i].session, i)
    {
    }
  }

  /** A release takes the slot from another operation at work exactly when that operation
      uses the same marker on the same instance. */
  lemma ReleaseFreesAnotherIff(s: System, id: Id)
    requires Invariant(s) && Enabled(s, Release(id))
    ensures !Undisturbing(s, Release(id)) <==>
            exists other, i :: other != id && LiveOn(s, other, i)
                               && Current(Next(s, Release(id)).busy, i) != s.threads[other].phase.marker
  {
    var at := InstanceOf(s, id);
    if !Undisturbing(s, Release(id)) {
      var p := PhaseOf(s, id);
      var marker := if p.Leaving? then p.reservation else p.marker;
      var other :| other != id && LiveOn(s, other, at) && s.threads[other].phase.marker == marker;
      assert Current(Next(s, Release(id)).busy, at) == "";
    } else {
      forall other, i | other != id && LiveOn(s, other, i)
        ensures Current(Next(s, Release(id)).busy, i) == s.threads[other].phase.marker
      {
        assert i != at ==> Current(Next(s, Release(id)).busy, i) == Current(s.busy, i);
      }
    }
  }

  /** Only the second release of a restore can do that: every other operation that
      releases its slot still has it. */
  lemma OnlyRestoresDisturb(s: System, id: Id)
    requires Invariant(s) && Enabled(s, Release(id))
    ensures !Undisturbing(s, Release(id)) ==> PhaseOf(s, id).Leaving?
  {
    assert Live(PhaseOf(s, id)) ==> LiveOn(s, id, InstanceOf(s, id));
  }

  lemma {:induction false} OneStepFurther(s: System, steps: seq<Step>, t: System, step: Step)
    requires Run(s, steps) == Some(t) && Enabled(t, step)
    ensures Run(s, steps + [step]) == Some(Next(t, step))
    decreases |steps|
  {
    if steps == [] {
      assert Run(Next(s, step), []) == Some(Next(s, step));
      assert (steps + [step])[1..] == [];
    } else {
      assert (steps + [step])[1..] == steps[1..] + [step];
      OneStepFurther(Next(s, steps[0]), steps[1..], t, step);
    }
  }

  predicate Free(s: System, instance: InstanceId) {
    Current(s.busy, instance) == "" && instance !in s.running && s.launchLock.None?
  }

  lemma GuardSucceeds(steps: seq<Step>, s: System, id: Id, instance: InstanceId, marker: Marker)
    returns (further: seq<Step>, t: System)
    requires Run(INITIAL, steps) == Some(s) && id !in s.threads && Free(s, instance) && marker != ""
    ensures Run(INITIAL, further) == Some(t)
    ensures t == s.(busy := s.busy[instance := marker], threads := s.threads[id := Thread(instance, Holding(true, marker))])
  {
    var s1 := Next(s, Arrive(id, instance, Asking(true, marker)));
    OneStepFurther(INITIAL, steps, s, Arrive(id, instance, Asking(true, marker)));
    further := steps + [Arrive(id, instance, Asking(true, marker))];
    OneStepFurther(INITIAL, further, s1, LockLaunch(id));
    further := further + [LockLaunch(id)];
    var s2 := Next(s1, LockLaunch(id));
    OneStepFurther(INITIAL, further, s2, CheckRunning(id));
    further := further + [CheckRunning(id)];
    var s3 := Next(s2, CheckRunning(id));
    OneStepFurther(INITIAL, further, s3, Acquire(id));
    further := further + [Acquire(id)];
    t := Next(s3, Acquire(id));
    assert t.threads == s.threads[id := Thread(instance, Holding(true, marker))];
  }

  /** A plain lock needs the slot only: not the launch mutex, and a game does not matter. Giving
      it back leaves the slot free. */
  lemma LockSucceeds(steps: seq<Step>, s: System, id: Id, instance: InstanceId, marker: Marker)
    returns (further: seq<Step>, t: System)
    requires Run(INITIAL, steps) == Some(s) && id !in s.threads && Current(s.busy, instance) == "" && marker != ""
    ensures Run(INITIAL, further) == Some(t)
    ensures t == s.(busy := s.busy[instance := marker], threads := s.threads[id := Thread(instance, Holding(false, marker))])
    ensures Enabled(t, Release(id)) && Current(Next(t, Release(id)).busy, instance) == "" && PhaseOf(Next(t, Release(id)), id) == Over
    ensures forall other :: other != instance ==> Current(Next(t, Release(id)).busy, other) == Current(s.busy, other)
  {
    var s1 := Next(s, Arrive(id, instance, Asking(false, marker)));
    OneStepFurther(INITIAL, steps, s, Arrive(id, instance, Asking(false, marker)));
    further := steps + [Arrive(id, instance, Asking(false, marker))];
    OneStepFurther(INITIAL, further, s1, Acquire(id));
    further := further + [Acquire(id)];
    t := Next(s1, Acquire(id));
    assert t.threads == s.threads[id := Thread(instance, Holding(false, marker))];
  }

  function Locked(s: System, id: Id, instance: InstanceId, phase: Phase): System {
    s.(launchLock := Some(id), threads := s.threads[id := Thread(instance, phase)])
  }

  lemma LaunchIsLocked(steps: seq<Step>, s: System, id: Id, instance: InstanceId)
    returns (further: seq<Step>)
    requires Run(INITIAL, steps) == Some(s) && id !in s.threads && Free(s, instance)
    ensures Run(INITIAL, further) == Some(Locked(s, id, instance, NotBusy(Vanilla, false)))
  {
    hide Run;
    var s1 := Next(s, Arrive(id, instance, Wanting(Vanilla, false)));
    OneStepFurther(INITIAL, steps, s, Arrive(id, instance, Wanting(Vanilla, false)));
    further := steps + [Arrive(id, instance, Wanting(Vanilla, false))];
    OneStepFurther(INITIAL, further, s1, LockLaunch(id));
    further := further + [LockLaunch(id)];
    var s2 := Locked(s, id, instance, Launching(Vanilla, false));
    assert Next(s1, LockLaunch(id)) == s2;
    OneStepFurther(INITIAL, further, s2, CheckBusy(id));
    further := further + [CheckBusy(id)];
    assert Next(s2, CheckBusy(id)) == Locked(s, id, instance, NotBusy(Vanilla, false));
  }

  lemma LaunchSucceeds(steps: seq<Step>, s: System, id: Id, instance: InstanceId)
    returns (further: seq<Step>, t: System)
    requires Run(INITIAL, steps) == Some(s) && id !in s.threads && Free(s, instance)
    ensures Run(INITIAL, further) == Some(t) && PlaysOn(t, id, instance)
    ensures forall other :: other != id ==> PhaseOf(t, other) == PhaseOf(s, other) && InstanceOf(t, other) == InstanceOf(s, other)
  {
    hide Run;
    further := LaunchIsLocked(steps, s, id, instance);
    var s3 := Locked(s, id, instance, NotBusy(Vanilla, false));
    OneStepFurther(INITIAL, further, s3, CheckRunning(id));
    further := further + [CheckRunning(id)];
    var s4 := Locked(s, id, instance, NotRunning(Vanilla, false));
    assert Next(s3, CheckRunning(id)) == s4;
    OneStepFurther(INITIAL, further, s4, CheckClient(id));
    further := further + [CheckClient(id)];
    var s5 := Locked(s, id, instance, Ready(Vanilla, false));
    assert Next(s4, CheckClient(id)) == s5;
    OneStepFurther(INITIAL, further, s5, Start(id));
    further := further + [Start(id)];
    t := Next(s5, Start(id));
  }

  const RESERVATION := "snapshot-reservation"

  /** And it does happen. A restore has given its marker back, another operation reserves
      the instance, the restore releases the reservation, and a game starts on the
      instance that the other operation is still working on. */
  lemma RestoreExample()
    ensures exists steps, s :: Run(INITIAL, steps) == Some(s) && GuardedOn(s, 1, "a") && PlaysOn(s, 2, "a")
  {
    var steps, s := GuardSucceeds([], INITIAL, 0, "a", RESERVATION);
    OneStepFurther(INITIAL, steps, s, SetMarker(0, "operation"));
    steps, s := steps + [SetMarker(0, "operation")], Next(s, SetMarker(0, "operation"));
    OneStepFurther(INITIAL, steps, s, Release(0));
    steps, s := steps + [Release(0)], Next(s, Release(0));
    assert PhaseOf(s, 0) == Leaving(RESERVATION) && Free(s, "a");
    steps, s := GuardSucceeds(steps, s, 1, "a", RESERVATION);
    OneStepFurther(INITIAL, steps, s, Release(0));
    steps, s := steps + [Release(0)], Next(s, Release(0));
    assert GuardedOn(s, 1, "a") && Free(s, "a");
    steps, s := LaunchSucceeds(steps, s, 2, "a");
    assert PhaseOf(s, 1) == Holding(true, RESERVATION) && InstanceOf(s, 1) == "a";
  }
}
