/** All interleavings of starting, cancelling, deleting and finishing operations with
    startup and shutdown. */
module OperationRuns {
  import opened Prelude
  import opened Operations

  type Result = int

  /** Where one started operation is: first the goroutine that called Start, then, from
      Spawned on, the worker goroutine. */
  datatype Phase =
    | Saving
    | Registering
    | Handing
    | Undoing
    | Refused
    | Spawned
    | Orphaned
    | Executing
    | Leaving(returned: Result)
    | Closed(result: Option<Result>)
    | Exited(result: Option<Result>)

  /** closes counts how often the done channel was closed. */
  datatype Task = Task(key: Key, phase: Phase, closes: nat)

  /** asked: accepted cancels. cancelled: contexts that were cancelled. persisted: the
      operations stored as finished, which only a worker body does. */
  datatype System = System(
    book: Book,
    life: Life,
    tasks: map<OpId, Task>,
    asked: set<OpId>,
    cancelled: set<OpId>,
    persisted: set<OpId>,
    shutDown: bool)

  datatype Step =
    | Start(id: OpId, key: Key)
    | Save(id: OpId, ok: bool)
    | Register(id: OpId)
    | Hand(id: OpId)
    | Undo(id: OpId)
    | Begin(id: OpId)
    | CloseOrphan(id: OpId)
    | Persist(id: OpId)
    | Return(id: OpId, result: Result)
    | End(id: OpId)
    | Exit(id: OpId)
    | Cancel(id: OpId)
    | Delete(id: OpId)
    | Clear
    | Startup
    | Shutdown
    | ShutdownReturns

  predicate At(s: System, id: OpId, p: Phase) {
    id in s.tasks && s.tasks[id].phase == p
  }

  predicate Enabled(s: System, step: Step) {
    match step
    case Start(id, _) => id !in s.tasks
    case Save(id, _) => At(s, id, Saving)
    case Register(id) => At(s, id, Registering)
    case Hand(id) => At(s, id, Handing)
    case Undo(id) => At(s, id, Undoing)
    case Begin(id) => At(s, id, Spawned)
    case CloseOrphan(id) => At(s, id, Orphaned)
    case Persist(id) => At(s, id, Executing)
    case Return(id, _) => At(s, id, Executing)
    case End(id) => id in s.tasks && s.tasks[id].phase.Leaving?
    case Exit(id) => id in s.tasks && s.tasks[id].phase.Closed?
    case Cancel(id) => Cancellable(s.book, id)
    case Delete(id) => id in s.persisted
    case Clear => true
    case Startup => true
    case Shutdown => true
    case ShutdownReturns => s.life.stopping && s.life.count == 0
  }

  function Moved(s: System, id: OpId, phase: Phase): System
    requires id in s.tasks
  {
    s.(tasks := s.tasks[id := s.tasks[id].(phase := phase)])
  }

  function DoneClosed(s: System, id: OpId, result: Option<Result>): System
    requires id in s.tasks
  {
    s.(tasks := s.tasks[id := s.tasks[id].(phase := Closed(result), closes := s.tasks[id].closes + 1)])
  }

  function Next(s: System, step: Step): System
    requires Enabled(s, step)
  {
    match step
    case Start(id, key) =>
      var reserved := Reserved(s.book, id, key);
      if reserved.None? then s.(tasks := s.tasks[id := Task(key, Refused, 0)])
      else s.(book := reserved.value, tasks := s.tasks[id := Task(key, Saving, 0)])
    case Save(id, ok) =>
      if ok then Moved(s, id, Registering)
      else Moved(s, id, Refused).(book := s.book.(active := s.book.active - {s.tasks[id].key}))
    case Register(id) => Moved(s, id, Handing).(book := Registered(s.book, id, s.tasks[id].key))
    case Hand(id) =>
      if Accepts(s.life) then Moved(s, id, Spawned).(life := s.life.(count := s.life.count + 1))
      else Moved(s, id, Undoing)
    case Undo(id) => Moved(s, id, Refused).(book := Withdrawn(s.book, id, s.tasks[id].key))
    case Begin(id) =>
      var runs := id in s.book.workers;
      var cancelled := if runs && s.book.workers[id].cancelRequested then s.cancelled + {id} else s.cancelled;
      Moved(s, id, if runs then Executing else Orphaned)
        .(book := WorkerBegun(s.book, id, s.tasks[id].key), cancelled := cancelled)
    case CloseOrphan(id) => DoneClosed(s, id, None)
    case Persist(id) => s.(persisted := s.persisted + {id})
    case Return(id, result) => Moved(s, id, Leaving(result))
    case End(id) =>
      DoneClosed(s, id, Some(s.tasks[id].phase.returned)).(book := WorkerEnded(s.book, id, s.tasks[id].key))
    case Exit(id) => Moved(s, id, Exited(s.tasks[id].phase.result)).(life := s.life.(count := s.life.count - 1))
    case Cancel(id) =>
      s.(book := CancelAsked(s.book, id), asked := s.asked + {id},
         cancelled := if s.book.workers[id].bound then s.cancelled + {id} else s.cancelled)
    case Delete(id) => s.(book := Forgotten(s.book, id), persisted := s.persisted - {id})
    case Clear => s.(book := ClearedOut(s.book), persisted := {})
    case Startup => if s.life.started || s.life.stopping then s else s.(life := s.life.(started := true))
    case Shutdown => s.(life := s.life.(stopping := true))
    case ShutdownReturns => s.(shutDown := true)
  }

  const INITIAL := System(Book(map[], map[]), Life(false, false, 0), map[], {}, {}, {}, false)

  function Run(s: System, steps: seq<Step>): Option<System>
    decreases |steps|
  {
    if steps == [] then Some(s)
    else if !Enabled(s, steps[0]) then None
    else Run(Next(s, steps[0]), steps[1..])
  }

  // ---- What runs keep

  predicate HoldsKey(p: Phase) {
    p.Saving? || p.Registering? || p.Handing? || p.Undoing? || p.Spawned? || p.Executing? || p.Leaving?
  }

  predicate Owned(p: Phase) {
    p.Spawned? || p.Orphaned? || p.Executing? || p.Leaving? || p.Closed?
  }

  predicate Done(p: Phase) {
    p.Closed? || p.Exited?
  }

  predicate KeyFits(s: System, id: OpId)
    requires id in s.tasks
  {
    HoldsKey(s.tasks[id].phase) && s.tasks[id].key != "" ==> Get(s.book.active, s.tasks[id].key) == Some(id)
  }

  predicate OwnerFits(s: System, k: Key) {
    k in s.book.active ==>
      var id := s.book.active[k];
      k != "" && id in s.tasks && s.tasks[id].key == k && HoldsKey(s.tasks[id].phase)
  }

  ghost predicate KeysAreHeld(s: System) {
    && (forall id :: id in s.tasks ==> KeyFits(s, id))
    && (forall k :: OwnerFits(s, k))
  }

  /** The entry of an operation, before its worker begins and after. */
  predicate EntryFits(s: System, id: OpId)
    requires id in s.tasks
  {
    var p := s.tasks[id].phase;
    && (p.Saving? || p.Registering? ==> id !in s.book.workers)
    && (p.Handing? || p.Undoing? || p.Spawned? ==>
          id in s.book.workers && s.book.workers[id].active && !s.book.workers[id].bound)
    && (id in s.book.workers && (p.Executing? || p.Leaving?) ==> s.book.workers[id].active && s.book.workers[id].bound)
    && (id in s.book.workers && (p.Refused? || p.Orphaned? || Done(p)) ==> !s.book.workers[id].active)
    && (id in s.persisted ==> p.Executing? || p.Leaving? || Done(p))
  }

  ghost predicate EntriesFit(s: System) {
    && (forall id :: id in s.tasks ==> EntryFits(s, id))
    && (forall id :: id in s.book.workers || id in s.persisted ==> id in s.tasks)
  }

  predicate CancelFits(s: System, id: OpId)
    requires id in s.tasks
  {
    var p := s.tasks[id].phase;
    id in s.asked ==>
      && (p.Handing? || p.Undoing? || p.Spawned? ==> id in s.book.workers && s.book.workers[id].cancelRequested)
      && (p.Executing? || p.Leaving? ==> id in s.cancelled)
      && !p.Saving? && !p.Registering?
  }

  ghost predicate CancelsFit(s: System) {
    && (forall id :: id in s.tasks ==> CancelFits(s, id))
    && (forall id :: id in s.asked ==> id in s.tasks)
  }

  ghost predicate ClosesFit(s: System) {
    forall id :: id in s.tasks ==> s.tasks[id].closes == if Done(s.tasks[id].phase) then 1 else 0
  }

  function OwnedTasks(s: System): set<OpId> {
    set id | id in s.tasks && Owned(s.tasks[id].phase)
  }

  ghost predicate CountFits(s: System) {
    && s.life.count == |OwnedTasks(s)|
    && (s.shutDown ==> s.life.stopping && s.life.count == 0)
  }

  ghost predicate Invariant(s: System) {
    KeysAreHeld(s) && EntriesFit(s) && CancelsFit(s) && ClosesFit(s) && CountFits(s)
  }

  lemma KeepsKeys(s: System, step: Step)
    requires KeysAreHeld(s) && Enabled(s, step)
    requires step.Begin? ==> step.id in s.book.workers
    ensures KeysAreHeld(Next(s, step))
  {
    var s' := Next(s, step);
    forall id | id in s'.tasks
      ensures KeyFits(s', id)
    {
      KeepsKeyOf(s, step, id);
    }
    forall k
      ensures OwnerFits(s', k)
    {
      KeepsOwnerOf(s, step, k);
    }
  }

  lemma KeepsKeyOf(s: System, step: Step, id: OpId)
    requires KeysAreHeld(s) && Enabled(s, step) && id in Next(s, step).tasks
    requires step.Begin? ==> step.id in s.book.workers
    ensures KeyFits(Next(s, step), id)
  {
    if id in s.tasks {
      assert KeyFits(s, id);
    }
    match step
    case Start(other, _) =>
    case Save(other, _) => assert KeyFits(s, other);
    case Undo(other) => assert KeyFits(s, other);
    case End(other) => assert KeyFits(s, other);
    case _ =>
  }

  lemma KeepsOwnerOf(s: System, step: Step, k: Key)
    requires KeysAreHeld(s) && Enabled(s, step)
    requires step.Begin? ==> step.id in s.book.workers
    ensures OwnerFits(Next(s, step), k)
  {
    assert OwnerFits(s, k);
    match step
    case Save(other, _) => assert KeyFits(s, other);
    case Undo(other) => assert KeyFits(s, other);
    case End(other) => assert KeyFits(s, other);
    case _ =>
  }

  lemma KeepsEntries(s: System, step: Step)
    requires EntriesFit(s) && Enabled(s, step)
    ensures EntriesFit(Next(s, step))
  {
    hide Next, Enabled, EntryFits;
    var s' := Next(s, step);
    KnownOperations(s, step);
    forall id | id in s'.tasks
      ensures EntryFits(s', id)
    {
      KeepsEntryOf(s, step, id);
    }
  }

  lemma KnownOperations(s: System, step: Step)
    requires EntriesFit(s) && Enabled(s, step)
    ensures forall id :: id in Next(s, step).book.workers || id in Next(s, step).persisted ==> id in Next(s, step).tasks
  {
    hide EntryFits, KeyFreed;
    BooksGrowBy(s, step);
  }

  lemma BooksGrowBy(s: System, step: Step)
    requires Enabled(s, step)
    ensures step.Clear? || step.Startup? || step.Shutdown? || step.ShutdownReturns? ==> Next(s, step).book.workers.Keys <= s.book.workers.Keys
    ensures !(step.Clear? || step.Startup? || step.Shutdown? || step.ShutdownReturns?) ==>
              Next(s, step).book.workers.Keys <= s.book.workers.Keys + {step.id}
  {
  }

  predicate About(step: Step, id: OpId) {
    !step.Clear? && !step.Startup? && !step.Shutdown? && !step.ShutdownReturns? && step.id == id
  }

  /** A step about another operation leaves this one as it is; clearing may forget an
      inactive entry. */
  lemma OthersStay(s: System, step: Step, id: OpId)
    requires Enabled(s, step) && !About(step, id) && id in Next(s, step).tasks
    ensures Get(Next(s, step).tasks, id) == Get(s.tasks, id)
    ensures id in Next(s, step).asked <==> id in s.asked
    ensures id in Next(s, step).cancelled <==> id in s.cancelled
    ensures id in Next(s, step).persisted ==> id in s.persisted
    ensures var w, w' := Get(s.book.workers, id), Get(Next(s, step).book.workers, id);
            w' == w || (w'.None? && w.Some? && !w.value.active)
  {
    hide KeyFreed, Accepts;
    EntriesOfOthers(s.book, id);
  }

  /** Freeing keys does not touch entries. */
  lemma EntriesOfOthers(b: Book, id: OpId)
    ensures forall other, key :: KeyFreed(b, other, key).workers == b.workers
    ensures forall other, key :: other != id ==>
              Get(WorkerBegun(b, other, key).workers, id) == Get(b.workers, id)
              && Get(WorkerEnded(b, other, key).workers, id) == Get(b.workers, id)
  {
  }

  lemma KeepsEntryOf(s: System, step: Step, id: OpId)
    requires EntriesFit(s) && Enabled(s, step) && id in Next(s, step).tasks
    ensures EntryFits(Next(s, step), id)
  {
    if About(step, id) {
      KeepsOwnEntry(s, step, id);
    } else {
      hide Next, Enabled;
      OthersStay(s, step, id);
      assert EntryFits(s, id);
    }
  }

  lemma KeepsOwnEntry(s: System, step: Step, id: OpId)
    requires EntriesFit(s) && Enabled(s, step) && About(step, id) && id in Next(s, step).tasks
    ensures EntryFits(Next(s, step), id)
  {
    if id in s.tasks {
      assert EntryFits(s, id);
    }
  }

  lemma KeepsCancels(s: System, step: Step)
    requires EntriesFit(s) && CancelsFit(s) && Enabled(s, step)
    ensures CancelsFit(Next(s, step))
  {
    hide Next, Enabled, EntryFits, CancelFits;
    AskedAreKnown(s, step);
    forall id | id in Next(s, step).tasks
      ensures CancelFits(Next(s, step), id)
    {
      KeepsCancelOf(s, step, id);
    }
  }

  lemma AskedAreKnown(s: System, step: Step)
    requires EntriesFit(s) && CancelsFit(s) && Enabled(s, step)
    ensures forall id :: id in Next(s, step).asked ==> id in Next(s, step).tasks
  {
    hide EntryFits, CancelFits, Reserved, Registered, Withdrawn, WorkerBegun, WorkerEnded, CancelAsked, Forgotten, ClearedOut;
  }

  lemma KeepsCancelOf(s: System, step: Step, id: OpId)
    requires EntriesFit(s) && CancelsFit(s) && Enabled(s, step) && id in Next(s, step).tasks
    ensures CancelFits(Next(s, step), id)
  {
    if About(step, id) {
      KeepsOwnCancel(s, step, id);
    } else {
      hide Next, Enabled;
      OthersStay(s, step, id);
      assert EntryFits(s, id) && CancelFits(s, id);
    }
  }

  lemma KeepsOwnCancel(s: System, step: Step, id: OpId)
    requires EntriesFit(s) && CancelsFit(s) && Enabled(s, step) && About(step, id) && id in Next(s, step).tasks
    ensures CancelFits(Next(s, step), id)
  {
    if id in s.tasks {
      assert EntryFits(s, id) && CancelFits(s, id);
    }
  }

  lemma KeepsCloses(s: System, step: Step)
    requires ClosesFit(s) && Enabled(s, step)
    ensures ClosesFit(Next(s, step))
  {
    hide Reserved, Registered, Withdrawn, WorkerBegun, WorkerEnded, CancelAsked, Forgotten, ClearedOut, KeyFreed;
  }

  predicate IsOwned(s: System, id: OpId) {
    id in s.tasks && Owned(s.tasks[id].phase)
  }

  predicate HandsOver(s: System, step: Step) {
    step.Hand? && Accepts(s.life)
  }

  /** The lifecycle counts the workers handed over that have not exited. */
  lemma OwnedChange(s: System, step: Step, id: OpId)
    requires Enabled(s, step)
    ensures HandsOver(s, step) && step.id == id ==> !IsOwned(s, id) && IsOwned(Next(s, step), id)
    ensures step.Exit? && step.id == id ==> IsOwned(s, id) && !IsOwned(Next(s, step), id)
    ensures !((HandsOver(s, step) || step.Exit?) && step.id == id) ==> (IsOwned(Next(s, step), id) <==> IsOwned(s, id))
  {
    hide Reserved, Registered, Withdrawn, WorkerBegun, WorkerEnded, CancelAsked, Forgotten, ClearedOut, KeyFreed;
  }

  lemma LifeChange(s: System, step: Step)
    requires Enabled(s, step)
    ensures Next(s, step).life.count == s.life.count + (if HandsOver(s, step) then 1 else if step.Exit? then -1 else 0)
    ensures s.life.stopping ==> Next(s, step).life.stopping && !HandsOver(s, step)
    ensures Next(s, step).shutDown ==> s.shutDown || (s.life.stopping && s.life.count == 0 && step.ShutdownReturns?)
  {
    hide Reserved, Registered, Withdrawn, WorkerBegun, WorkerEnded, CancelAsked, Forgotten, ClearedOut, KeyFreed;
  }

  lemma KeepsCount(s: System, step: Step)
    requires CountFits(s) && Enabled(s, step)
    ensures CountFits(Next(s, step))
  {
    hide Next, Enabled;
    var s' := Next(s, step);
    LifeChange(s, step);
    forall id
      ensures id in OwnedTasks(s') <==> IsOwned(s', id)
      ensures id in OwnedTasks(s) <==> IsOwned(s, id)
    {
    }
    forall id
      ensures HandsOver(s, step) && step.id == id ==> !IsOwned(s, id) && IsOwned(s', id)
      ensures step.Exit? && step.id == id ==> IsOwned(s, id) && !IsOwned(s', id)
      ensures !((HandsOver(s, step) || step.Exit?) && step.id == id) ==> (IsOwned(s', id) <==> IsOwned(s, id))
    {
      OwnedChange(s, step, id);
    }
    if HandsOver(s, step) {
      assert OwnedTasks(s') == OwnedTasks(s) + {step.id};
    } else if step.Exit? {
      assert OwnedTasks(s') == OwnedTasks(s) - {step.id} && step.id in OwnedTasks(s);
    } else {
      assert OwnedTasks(s') == OwnedTasks(s);
    }
  }

  lemma StepKeepsInvariant(s: System, step: Step)
    requires Invariant(s) && Enabled(s, step)
    ensures Invariant(Next(s, step))
  {
    if step.Begin? {
      assert EntryFits(s, step.id);
    }
    KeepsKeys(s, step);
    KeepsEntries(s, step);
    KeepsCancels(s, step);
    KeepsCloses(s, step);
    KeepsCount(s, step);
  }

  lemma {:induction false} RunKeepsInvariant(s: System, steps: seq<Step>)
    requires Invariant(s)
    ensures Run(s, steps).Some? ==> Invariant(Run(s, steps).value)
    decreases |steps|
  {
    if steps != [] && Enabled(s, steps[0]) {
      StepKeepsInvariant(s, steps[0]);
      RunKeepsInvariant(Next(s, steps[0]), steps[1..]);
    }
  }

  lemma InitialInvariant()
    ensures Invariant(INITIAL)
  {
    assert OwnedTasks(INITIAL) == {};
  }

  // ---- Main results

  predicate Working(p: Phase) {
    p.Spawned? || p.Executing? || p.Leaving?
  }

  predicate WorksOn(s: System, id: OpId, key: Key) {
    id in s.tasks && s.tasks[id].key == key && Working(s.tasks[id].phase)
  }

  /** In every interleaving: one worker at most for each non-empty key; a cancel that was
      accepted before or after the worker began has cancelled its context; the done
      channel is closed once, when the key is free again. */
  lemma WorkersAreExclusive(steps: seq<Step>, s: System)
    requires Run(INITIAL, steps) == Some(s)
    ensures forall a, b, key :: WorksOn(s, a, key) && WorksOn(s, b, key) && key != "" ==> a == b
    ensures forall id :: id in s.asked && id in s.tasks && s.tasks[id].phase.Executing? ==> id in s.cancelled
    ensures forall id :: id in s.tasks ==> s.tasks[id].closes == if Done(s.tasks[id].phase) then 1 else 0
    ensures forall id :: id in s.tasks && Done(s.tasks[id].phase) ==> Get(s.book.active, s.tasks[id].key) != Some(id)
  {
    InitialInvariant();
    RunKeepsInvariant(INITIAL, steps);
    forall a, b, key | WorksOn(s, a, key) && WorksOn(s, b, key) && key != ""
      ensures a == b
    {
      assert KeyFits(s, a) && KeyFits(s, b);
    }
    forall id | id in s.asked && id in s.tasks && s.tasks[id].phase.Executing?
      ensures id in s.cancelled
    {
      assert CancelFits(s, id);
    }
    forall id | id in s.tasks && Done(s.tasks[id].phase)
      ensures Get(s.book.active, s.tasks[id].key) != Some(id)
    {
      assert OwnerFits(s, s.tasks[id].key);
    }
  }

  /** A key whose operation is done can be taken again at once. */
  lemma DoneKeyIsFree(steps: seq<Step>, s: System, id: OpId)
    requires Run(INITIAL, steps) == Some(s) && id in s.tasks && Done(s.tasks[id].phase)
    requires forall other :: other in s.tasks && other != id && s.tasks[other].key == s.tasks[id].key ==>
               !HoldsKey(s.tasks[other].phase)
    ensures forall next: OpId :: Reserved(s.book, next, s.tasks[id].key).Some?
  {
    InitialInvariant();
    RunKeepsInvariant(INITIAL, steps);
    assert OwnerFits(s, s.tasks[id].key);
  }

  /** What a waiter reads once the channel is closed is final. */
  lemma {:induction false} ResultIsFinal(s: System, id: OpId, steps: seq<Step>)
    requires id in s.tasks && Done(s.tasks[id].phase) && Run(s, steps).Some?
    ensures var t := Run(s, steps).value;
            id in t.tasks && Done(t.tasks[id].phase) && t.tasks[id].phase.result == s.tasks[id].phase.result
            && t.tasks[id].closes == s.tasks[id].closes
    decreases |steps|
  {
    if steps != [] {
      ResultIsFinal(Next(s, steps[0]), id, steps[1..]);
    }
  }

  /** Once Shutdown has returned, no worker runs, and none ever will. */
  lemma NothingRunsAfterShutdown(before: seq<Step>, s: System, after: seq<Step>, t: System)
    requires Run(INITIAL, before) == Some(s) && s.shutDown
    requires Run(s, after) == Some(t)
    ensures forall id :: id in t.tasks ==> !Owned(t.tasks[id].phase)
    ensures !Accepts(t.life)
  {
    InitialInvariant();
    RunKeepsInvariant(INITIAL, before);
    RunKeepsInvariant(s, after);
    ShutdownStays(s, after);
    forall id | id in t.tasks
      ensures !Owned(t.tasks[id].phase)
    {
      assert OwnedTasks(t) == {};
      assert id !in OwnedTasks(t);
    }
  }

  lemma {:induction false} ShutdownStays(s: System, steps: seq<Step>)
    ensures Run(s, steps).Some? && s.shutDown ==> Run(s, steps).value.shutDown
    ensures Run(s, steps).Some? && s.life.stopping ==> Run(s, steps).value.life.stopping
    decreases |steps|
  {
    if steps != [] && Enabled(s, steps[0]) {
      ShutdownStays(Next(s, steps[0]), steps[1..]);
    }
  }

  // ---- When a cancel waits for ever

  /** The lifecycle refused the worker, or is bound to. */
  predicate Doomed(s: System, id: OpId) {
    id in s.tasks && (s.tasks[id].phase.Undoing? || s.tasks[id].phase.Refused? || (s.tasks[id].phase.Handing? && s.life.stopping))
  }

  lemma {:induction false} DoomedStays(s: System, id: OpId, steps: seq<Step>)
    requires Doomed(s, id)
    ensures Run(s, steps).Some? ==> Doomed(Run(s, steps).value, id)
    decreases |steps|
  {
    if steps != [] && Enabled(s, steps[0]) {
      DoomedStays(Next(s, steps[0]), id, steps[1..]);
    }
  }

  predicate DoneAfter(s: System, steps: seq<Step>, id: OpId) {
    Run(s, steps).Some? && id in Run(s, steps).value.tasks && Done(Run(s, steps).value.tasks[id].phase)
  }

  lemma DoneThen(s: System, step: Step, steps: seq<Step>, id: OpId)
    requires Enabled(s, step) && DoneAfter(Next(s, step), steps, id)
    ensures DoneAfter(s, [step] + steps, id)
  {
    assert ([step] + steps)[1..] == steps;
  }

  lemma WorkerCanFinish(s: System, id: OpId) returns (steps: seq<Step>)
    requires Invariant(s) && id in s.tasks
    requires var p := s.tasks[id].phase;
             p.Handing? || p.Spawned? || p.Orphaned? || p.Executing? || p.Leaving? || Done(p)
    requires !Doomed(s, id)
    ensures DoneAfter(s, steps, id)
    decreases var p := s.tasks[id].phase;
              if p.Handing? then if s.life.started then 4 else 5 else if p.Spawned? then 3
              else if p.Executing? then 2 else if p.Leaving? || p.Orphaned? then 1 else 0
  {
    hide Run, Invariant;
    var p := s.tasks[id].phase;
    if Done(p) {
      steps := [];
      assert DoneAfter(s, [], id) by { NoSteps(s); }
    } else {
      var step := match p
        case Handing => if s.life.started then Hand(id) else Startup
        case Spawned => Begin(id)
        case Executing => Return(id, 0)
        case Leaving(_) => End(id)
        case _ => CloseOrphan(id);
      StepKeepsInvariant(s, step);
      if p.Spawned? {
        BegunIsExecuting(s, id);
      }
      var rest := WorkerCanFinish(Next(s, step), id);
      DoneThen(s, step, rest, id);
      steps := [step] + rest;
    }
  }

  lemma NoSteps(s: System)
    ensures Run(s, []) == Some(s)
  {
  }

  lemma BegunIsExecuting(s: System, id: OpId)
    requires Invariant(s) && At(s, id, Spawned)
    ensures At(Next(s, Begin(id)), id, Executing)
  {
    assert EntryFits(s, id);
  }

  /** A cancel that was accepted waits for the done channel. It can be answered exactly
      when the lifecycle has taken the worker or still may: between an operation's
      registration and a refused hand-over, an accepted cancel waits for ever. */
  lemma CancelIsAnsweredIff(before: seq<Step>, s: System, id: OpId)
    requires Run(INITIAL, before) == Some(s) && id in s.asked
    ensures (exists steps :: DoneAfter(s, steps, id)) <==> !Doomed(s, id)
  {
    InitialInvariant();
    RunKeepsInvariant(INITIAL, before);
    assert id in s.tasks && CancelFits(s, id);
    if Doomed(s, id) {
      forall steps
        ensures !DoneAfter(s, steps, id)
      {
        DoomedStays(s, id, steps);
      }
    } else {
      var steps := WorkerCanFinish(s, id);
    }
  }

  /** Such a cancel exists: it comes after the operation is registered, and shutdown
      begins before the worker is handed over. */
  lemma UnansweredCancelExample()
    ensures exists steps, s :: Run(INITIAL, steps) == Some(s) && 0 in s.asked && Doomed(s, 0)
  {
    hide Run, Next, Enabled;
    var running := INITIAL.(life := Life(true, false, 0));
    var registered := running.(book := Book(map["k" := 0], map[0 := Entry("k", true, false, false)]),
                               tasks := map[0 := Task("k", Handing, 0)]);
    var refused := registered.(book := Book(map["k" := 0], map[0 := Entry("k", true, true, false)]),
                               tasks := map[0 := Task("k", Undoing, 0)], asked := {0}, life := Life(true, true, 0));
    NoSteps(refused);
    var steps := CancelledBeforeRefusal(registered, refused);
    steps := StartedUpTo(running, registered, steps, refused);
    assert Enabled(INITIAL, Startup) && Next(INITIAL, Startup) == running by { StartupRuns(); }
    steps := Earlier(INITIAL, Startup, steps, refused);
  }

  lemma StartupRuns()
    ensures Enabled(INITIAL, Startup) && Next(INITIAL, Startup) == INITIAL.(life := Life(true, false, 0))
  {
  }

  lemma StartedUpTo(running: System, registered: System, later: seq<Step>, end: System) returns (steps: seq<Step>)
    requires running == INITIAL.(life := Life(true, false, 0))
    requires registered == running.(book := Book(map["k" := 0], map[0 := Entry("k", true, false, false)]),
                                    tasks := map[0 := Task("k", Handing, 0)])
    requires Run(registered, later) == Some(end)
    ensures Run(running, steps) == Some(end)
  {
    hide Run;
    var asked := running.(book := Book(map["k" := 0], map[]), tasks := map[0 := Task("k", Saving, 0)]);
    var saved := asked.(tasks := map[0 := Task("k", Registering, 0)]);
    assert Next(running, Start(0, "k")) == asked;
    assert Next(asked, Save(0, true)) == saved;
    assert Next(saved, Register(0)) == registered;
    steps := Earlier(saved, Register(0), later, end);
    steps := Earlier(asked, Save(0, true), steps, end);
    steps := Earlier(running, Start(0, "k"), steps, end);
  }

  lemma CancelledBeforeRefusal(registered: System, refused: System) returns (steps: seq<Step>)
    requires registered.book == Book(map["k" := 0], map[0 := Entry("k", true, false, false)])
    requires registered.tasks == map[0 := Task("k", Handing, 0)] && registered.life == Life(true, false, 0)
    requires registered.asked == {} && registered.cancelled == {}
    requires refused == registered.(book := Book(map["k" := 0], map[0 := Entry("k", true, true, false)]),
                                    tasks := map[0 := Task("k", Undoing, 0)], asked := {0}, life := Life(true, true, 0))
    ensures Run(registered, steps) == Some(refused)
  {
    hide Run;
    NoSteps(refused);
    var cancelled := registered.(book := refused.book, asked := {0});
    var stopping := cancelled.(life := Life(true, true, 0));
    assert Next(registered, Cancel(0)) == cancelled;
    assert Next(cancelled, Shutdown) == stopping;
    assert Next(stopping, Hand(0)) == refused;
    steps := Earlier(stopping, Hand(0), [], refused);
    steps := Earlier(cancelled, Shutdown, steps, refused);
    steps := Earlier(registered, Cancel(0), steps, refused);
  }

  lemma Earlier(s: System, step: Step, steps: seq<Step>, t: System) returns (all: seq<Step>)
    requires Enabled(s, step) && Run(Next(s, step), steps) == Some(t)
    ensures all == [step] + steps && Run(s, all) == Some(t)
  {
    all := [step] + steps;
    assert all[1..] == steps;
  }

  // ---- What single steps do

  /** A start is refused exactly if another operation has its key, and reserves it otherwise. */
  lemma StartReserves(s: System, id: OpId, key: Key)
    requires id !in s.tasks
    ensures Enabled(s, Start(id, key))
    ensures var t := Next(s, Start(id, key));
            && (At(t, id, Refused) <==> key != "" && key in s.book.active)
            && (At(t, id, Refused) ==> t.book == s.book)
            && (At(t, id, Saving) <==> key == "" || key !in s.book.active)
            && (At(t, id, Saving) && key != "" ==> Get(t.book.active, key) == Some(id))
  {
  }

  /** Deleting forgets the one operation, clearing every one that is stored as finished, and the
      entries of all that are not at work. */
  lemma ForgettingForgets(s: System, id: OpId)
    requires id in s.persisted
    ensures Enabled(s, Delete(id)) && Enabled(s, Clear)
    ensures var t := Next(s, Delete(id));
            id !in t.book.workers && t.persisted == s.persisted - {id} && t.book.active == s.book.active
            && forall other :: other != id ==> Get(t.book.workers, other) == Get(s.book.workers, other)
    ensures var t := Next(s, Clear);
            t.persisted == {} && t.book.active == s.book.active
            && forall other :: Get(t.book.workers, other) ==
                 if other in s.book.workers && s.book.workers[other].active then Some(s.book.workers[other]) else None
  {
  }

  /** Work is taken once started and until it stops, and a stored result stays stored. */
  lemma LifeOfTheApplication(s: System)
    ensures Enabled(s, Startup) && Enabled(s, Shutdown)
    ensures Next(s, Startup).life.started <==> s.life.started || !s.life.stopping
    ensures !s.life.stopping ==> Accepts(Next(s, Startup).life)
    ensures !Accepts(Next(s, Shutdown).life) && Next(s, Shutdown).life.count == s.life.count
    ensures forall id :: At(s, id, Executing) ==> Enabled(s, Persist(id)) && Next(s, Persist(id)).persisted == s.persisted + {id}
    ensures s.life.stopping && s.life.count == 0 ==> Enabled(s, ShutdownReturns) && Next(s, ShutdownReturns).shutDown
  {
  }

  // ---- Where results and cancellations come from

  /** The result that a worker returned and that a waiter reads once done is closed. */
  predicate Carries(s: System, id: OpId, result: Result) {
    At(s, id, Leaving(result)) || At(s, id, Closed(Some(result))) || At(s, id, Exited(Some(result)))
  }

  /** What a waiter reads is what the worker of that operation returned, and a worker that
      returned is read so once done is closed. */
  lemma {:induction false} ResultIsTheWorkers(s: System, steps: seq<Step>, t: System, id: OpId, result: Result)
    requires Run(s, steps) == Some(t)
    ensures Carries(t, id, result) && !Carries(s, id, result) ==> Return(id, result) in steps
    ensures Carries(s, id, result) && id in t.tasks && Done(t.tasks[id].phase) ==> Carries(t, id, result)
    decreases |steps|
  {
    hide Next, Enabled, Carries;
    if steps != [] {
      CarriedBySteps(s, steps[0], id, result);
      TaskStays(s, steps[0], id);
      ResultIsTheWorkers(Next(s, steps[0]), steps[1..], t, id, result);
    }
  }

  lemma TaskStays(s: System, step: Step, id: OpId)
    requires Enabled(s, step)
    ensures id in s.tasks ==> id in Next(s, step).tasks
  {
    hide Reserved, KeyFreed;
  }

  lemma CarriedBySteps(s: System, step: Step, id: OpId, result: Result)
    requires Enabled(s, step)
    ensures Carries(Next(s, step), id, result) && !Carries(s, id, result) ==> step == Return(id, result)
    ensures Carries(s, id, result) ==> Carries(Next(s, step), id, result)
  {
    hide Reserved, KeyFreed, Registered, Withdrawn, WorkerBegun, WorkerEnded, CancelAsked, Forgotten, ClearedOut, Accepts;
  }

  predicate AskedFor(s: System, id: OpId) {
    id in s.asked || id in s.cancelled || (id in s.book.workers && s.book.workers[id].cancelRequested)
  }

  lemma OnlyCancelAsks(s: System, step: Step, id: OpId)
    requires Enabled(s, step) && AskedFor(Next(s, step), id) && !AskedFor(s, id)
    ensures step == Cancel(id)
  {
    hide Accepts;
  }

  /** The context of a worker is cancelled, and a cancel accepted, only if one was asked. */
  lemma {:induction false} CancelledOnlyIfAsked(s: System, steps: seq<Step>, t: System, id: OpId)
    requires Run(s, steps) == Some(t) && AskedFor(t, id) && !AskedFor(s, id)
    ensures Cancel(id) in steps
    decreases |steps|
  {
    hide Next, Enabled, AskedFor;
    if steps != [] {
      if AskedFor(Next(s, steps[0]), id) {
        OnlyCancelAsks(s, steps[0], id);
      } else {
        CancelledOnlyIfAsked(Next(s, steps[0]), steps[1..], t, id);
      }
    }
  }
}
