/** The gate that keeps data relocation and every other change apart, and the flows that
    pass it: some give their pass to a background goroutine, which gives it back. */
module MutationGate {
  import opened Prelude

  datatype State = State(relocating: bool, active: int)

  function Ended(g: State): State {
    if g.active > 0 then g.(active := g.active - 1) else g
  }

  class Gate {
    var relocating: bool
    var active: int

    ghost function View(): State
      reads this
    {
      State(relocating, active)
    }

    constructor ()
      ensures View() == State(false, 0)
    {
      relocating, active := false, 0;
    }

    method Begin() returns (ok: bool)
      modifies this
      ensures ok <==> !old(relocating)
      ensures View() == if ok then State(false, old(active) + 1) else old(View())
    {
      if relocating {
        return false;
      }
      active := active + 1;
      return true;
    }

    method End()
      modifies this
      ensures View() == Ended(old(View()))
      ensures relocating == old(relocating) && active == if old(active) > 0 then old(active) - 1 else old(active)
    {
      if active > 0 {
        active := active - 1;
      }
    }

    method BeginRelocation() returns (ok: bool)
      modifies this
      ensures ok <==> !old(relocating) && old(active) <= 0
      ensures View() == if ok then State(true, old(active)) else old(View())
    {
      if relocating || active > 0 {
        return false;
      }
      relocating := true;
      return true;
    }

    method EndRelocation()
      modifies this
      ensures View() == State(false, old(active))
    {
      relocating := false;
    }

    method Busy() returns (busy: bool)
      ensures busy == relocating
    {
      return relocating;
    }
  }

  // ---- The functions that hand their pass on

  /** The gate as it is between two critical sections. */
  predicate Sound(g: State) {
    g.active >= 0 && (g.relocating ==> g.active == 0)
  }

  /** InstallCatalog: checks are the steps that may fail before the worker is started. The
      pass is released on every path but the one that gives it to the worker. */
  method InstallCatalog(gate: Gate, checks: seq<bool>, starts: bool) returns (handedOver: bool)
    requires Sound(gate.View())
    modifies gate
    ensures handedOver <==> !old(gate.relocating) && (forall i :: 0 <= i < |checks| ==> checks[i]) && starts
    ensures gate.View() == if handedOver then State(false, old(gate.active) + 1) else old(gate.View())
  {
    var begun := gate.Begin();
    if !begun {
      return false;
    }
    var releaseOnReturn := true;
    var failed := false;
    for i := 0 to |checks|
      invariant failed <==> exists j :: 0 <= j < i && !checks[j]
      invariant gate.View() == State(false, old(gate.active) + 1)
    {
      if !checks[i] {
        failed := true;
        break;
      }
    }
    if !failed && starts {
      releaseOnReturn := false;
    }
    if releaseOnReturn {
      gate.End();
    }
    return !releaseOnReturn;
  }

  /** The worker of an install and the waiter of a game: whatever happens, one release. */
  method WorkThenEnd(gate: Gate)
    requires gate.active > 0
    modifies gate
    ensures gate.View() == State(old(gate.relocating), old(gate.active) - 1)
  {
    gate.End();
  }

  /** Move: the gate stays shut only for a worker that runs, and for good once it succeeded. */
  method Move(gate: Gate, prepares: bool, accepted: bool, succeeds: bool) returns (moved: bool)
    requires Sound(gate.View())
    modifies gate
    ensures moved <==> !old(gate.relocating) && old(gate.active) == 0 && prepares && accepted && succeeds
    ensures gate.View() == if moved then State(true, 0) else old(gate.View())
  {
    var begun := gate.BeginRelocation();
    if !begun {
      return false;
    }
    var release := true;
    if prepares && accepted {
      release := false;
      if succeeds {
        return true;
      }
      gate.EndRelocation();
    }
    if release {
      gate.EndRelocation();
    }
    return false;
  }

  // ---- The flows

  type Id = nat

  /** A plain mutation, a game launch, a catalog install and a move of the data folder. */
  datatype Kind = Mutation | Launch | Install | Move

  /** How far the calling goroutine is. From Inside to Spawned its deferred release is
      armed; at Handing a launch has started its waiter and an install has told its
      worker that it owns the pass. */
  datatype Caller = Entering | Inside | Spawned | Disarmed | Handing | Returned

  /** The background goroutine. An install worker starts Parked; a move that succeeded
      ends in Quitting and never opens the gate again. */
  datatype Worker = Absent | Parked | Working | Exited | Quitting

  datatype Flow = Flow(kind: Kind, caller: Caller, worker: Worker, begins: nat, ends: nat)

  datatype System = System(gate: State, flows: map<Id, Flow>)

  datatype Step =
    | Arrive(id: Id, kind: Kind)
    | CallerStep(id: Id, ok: bool)
    | WorkerEnds(id: Id, ok: bool)

  predicate Enabled(s: System, step: Step) {
    match step
    case Arrive(id, _) => id !in s.flows
    case CallerStep(id, _) => id in s.flows && !s.flows[id].caller.Returned?
    case WorkerEnds(id, _) => id in s.flows && s.flows[id].worker.Working?
  }

  /** Passing the gate, or being turned away. */
  function Entered(g: State, f: Flow): (State, Flow) {
    if f.kind.Move? then
      if g.relocating || g.active > 0 then (g, f.(caller := Returned))
      else (g.(relocating := true), f.(caller := Inside, begins := f.begins + 1))
    else if g.relocating then (g, f.(caller := Returned))
    else (g.(active := g.active + 1), f.(caller := Inside, begins := f.begins + 1))
  }

  function Released(g: State, f: Flow): (State, Flow) {
    (if f.kind.Move? then g.(relocating := false) else Ended(g), f.(ends := f.ends + 1))
  }

  /** The next step of the caller; ok is whether what the function tries there succeeds. */
  function Advanced(g: State, f: Flow, ok: bool): (State, Flow)
    requires !f.caller.Returned?
  {
    match f.caller
    case Entering => Entered(g, f)
    case Inside =>
      if !ok || f.kind.Mutation? then Released(g, f.(caller := Returned))
      else (g, match f.kind
               case Launch => f.(caller := Disarmed)
               case Install => f.(caller := Spawned, worker := Parked)
               case _ => f.(caller := Spawned, worker := Working))
    case Spawned => (g, f.(caller := Disarmed))
    case Disarmed => (g, if f.kind.Move? then f.(caller := Returned) else f.(caller := Handing, worker := Working))
    case Handing => (g, f.(caller := Returned))
  }

  function Finished(g: State, f: Flow, ok: bool): (State, Flow) {
    if f.kind.Move? && ok then (g, f.(worker := Quitting)) else Released(g, f.(worker := Exited))
  }

  function Next(s: System, step: Step): System
    requires Enabled(s, step)
  {
    match step
    case Arrive(id, kind) => s.(flows := s.flows[id := Flow(kind, Entering, Absent, 0, 0)])
    case CallerStep(id, ok) =>
      var (gate, flow) := Advanced(s.gate, s.flows[id], ok);
      System(gate, s.flows[id := flow])
    case WorkerEnds(id, ok) =>
      var (gate, flow) := Finished(s.gate, s.flows[id], ok);
      System(gate, s.flows[id := flow])
  }

  const INITIAL := System(State(false, 0), map[])

  /** Where a schedule of steps leads, if every step is possible when its turn comes. */
  function Run(s: System, steps: seq<Step>): Option<System>
    decreases |steps|
  {
    if steps == [] then Some(s)
    else if !Enabled(s, steps[0]) then None
    else Run(Next(s, steps[0]), steps[1..])
  }

  // ---- What every run keeps

  /** The flow passed the gate and has not given the pass back. */
  predicate Owes(f: Flow) {
    f.ends < f.begins
  }

  predicate Owing(s: System, id: Id) {
    id in s.flows && Owes(s.flows[id]) && !s.flows[id].kind.Move?
  }

  predicate Moving(s: System, id: Id) {
    id in s.flows && Owes(s.flows[id]) && s.flows[id].kind.Move?
  }

  function Owers(s: System): set<Id> {
    set id | id in s.flows && Owing(s, id)
  }

  /** Which of the two goroutines has the pass. */
  predicate WellFormed(f: Flow) {
    && f.ends <= f.begins <= 1
    && match f.caller
       case Entering => f.begins == 0 && f.worker.Absent?
       case Inside => Owes(f) && f.worker.Absent?
       case Spawned => if f.kind.Install? then Owes(f) && f.worker.Parked? else f.kind.Move? && MoverAtWork(f)
       case Disarmed =>
         (match f.kind
          case Install => Owes(f) && f.worker.Parked?
          case Launch => Owes(f) && f.worker.Absent?
          case Move => MoverAtWork(f)
          case Mutation => false)
       case Handing => (f.kind.Install? || f.kind.Launch?) && HandedOver(f)
       case Returned =>
         || (f.begins == f.ends && f.worker.Absent?)
         || (f.kind.Move? && MoverAtWork(f))
         || ((f.kind.Install? || f.kind.Launch?) && HandedOver(f))
  }

  predicate HandedOver(f: Flow) {
    f.begins == 1 && ((f.worker.Working? && f.ends == 0) || (f.worker.Exited? && f.ends == 1))
  }

  predicate MoverAtWork(f: Flow) {
    f.begins == 1 && (((f.worker.Working? || f.worker.Quitting?) && f.ends == 0) || (f.worker.Exited? && f.ends == 1))
  }

  ghost predicate Invariant(s: System) {
    && (forall id :: id in s.flows ==> WellFormed(s.flows[id]))
    && s.gate.active == |Owers(s)|
    && (s.gate.relocating ==> s.gate.active == 0)
    && (forall id :: Moving(s, id) ==> s.gate.relocating)
    && (forall a, b :: Moving(s, a) && Moving(s, b) ==> a == b)
  }

  lemma OneFlowChanges(s: System, id: Id, gate: State, f: Flow)
    requires forall i :: i in s.flows ==> WellFormed(s.flows[i])
    ensures var s' := System(gate, s.flows[id := f]);
            && (forall i :: i != id ==> (Owing(s', i) <==> Owing(s, i)) && (Moving(s', i) <==> Moving(s, i)))
            && Owers(s') == (if Owes(f) && !f.kind.Move? then Owers(s) + {id} else Owers(s) - {id})
  {
    var s' := System(gate, s.flows[id := f]);
    forall i | i != id
      ensures (Owing(s', i) <==> Owing(s, i)) && (Moving(s', i) <==> Moving(s, i))
    {
      assert i in s'.flows <==> i in s.flows;
    }
    assert forall i :: i in Owers(s') <==> Owing(s', i);
    assert forall i :: i in Owers(s) <==> Owing(s, i);
  }

  /** The release a flow owes always finds the gate as that flow left it: it is never
      ignored, and it never opens the gate for another move. */
  lemma ReleaseIsExact(s: System, id: Id)
    requires Invariant(s) && id in s.flows && Owes(s.flows[id])
    ensures s.flows[id].kind.Move? ==> s.gate == State(true, 0) && forall other :: Moving(s, other) ==> other == id
    ensures !s.flows[id].kind.Move? ==> s.gate.active > 0 && !s.gate.relocating
  {
    if s.flows[id].kind.Move? {
      assert Moving(s, id);
    } else {
      assert id in Owers(s);
    }
  }

  lemma FlowStepKeepsShape(g: State, f: Flow, ok: bool)
    requires WellFormed(f)
    ensures !f.caller.Returned? ==> WellFormed(Advanced(g, f, ok).1)
    ensures f.worker.Working? ==> WellFormed(Finished(g, f, ok).1)
  {
  }

  datatype Pass = Keeps | Takes | Gives

  /** What one step does to the gate and to what its flow owes. */
  predicate Passed(g: State, f: Flow, g': State, f': Flow, pass: Pass) {
    && f'.kind == f.kind
    && match pass
       case Keeps => g' == g && Owes(f') == Owes(f)
       case Takes =>
         !Owes(f) && Owes(f') && !g.relocating
         && (if f.kind.Move? then g.active <= 0 && g' == State(true, g.active) else g' == State(false, g.active + 1))
       case Gives =>
         Owes(f) && !Owes(f')
         && g' == if f.kind.Move? then State(false, g.active) else Ended(g)
  }

  lemma StepPasses(g: State, f: Flow, ok: bool) returns (caller: Pass, worker: Pass)
    requires WellFormed(f)
    ensures !f.caller.Returned? ==> Passed(g, f, Advanced(g, f, ok).0, Advanced(g, f, ok).1, caller)
    ensures f.worker.Working? ==> Passed(g, f, Finished(g, f, ok).0, Finished(g, f, ok).1, worker)
  {
    caller := if f.caller.Entering? && Owes(Entered(g, f).1) then Takes
              else if f.caller.Inside? && (!ok || f.kind.Mutation?) then Gives
              else Keeps;
    worker := if f.kind.Move? && ok then Keeps else Gives;
  }

  lemma PassKeepsInvariant(s: System, id: Id, gate: State, f: Flow, pass: Pass)
    requires Invariant(s) && id in s.flows && WellFormed(f)
    requires Passed(s.gate, s.flows[id], gate, f, pass)
    ensures Invariant(System(gate, s.flows[id := f]))
  {
    hide WellFormed, Invariant;
    match pass
    case Keeps => KeepingKeepsInvariant(s, id, gate, f);
    case Takes => TakingKeepsInvariant(s, id, gate, f);
    case Gives => GivingKeepsInvariant(s, id, gate, f);
  }

  lemma KeepingKeepsInvariant(s: System, id: Id, gate: State, f: Flow)
    requires Invariant(s) && id in s.flows && WellFormed(f) && Passed(s.gate, s.flows[id], gate, f, Keeps)
    ensures Invariant(System(gate, s.flows[id := f]))
  {
    hide WellFormed;
    var s' := System(gate, s.flows[id := f]);
    OneFlowChanges(s, id, gate, f);
    assert id in Owers(s) <==> Owing(s, id);
    assert Owers(s') == Owers(s);
    assert Moving(s', id) <==> Moving(s, id);
  }

  lemma TakingKeepsInvariant(s: System, id: Id, gate: State, f: Flow)
    requires Invariant(s) && id in s.flows && WellFormed(f) && Passed(s.gate, s.flows[id], gate, f, Takes)
    ensures Invariant(System(gate, s.flows[id := f]))
  {
    hide WellFormed;
    var s' := System(gate, s.flows[id := f]);
    OneFlowChanges(s, id, gate, f);
    assert id in Owers(s) <==> Owing(s, id);
    if !f.kind.Move? {
      assert Owers(s') == Owers(s) + {id};
    } else {
      assert Owers(s') == Owers(s);
    }
  }

  lemma GivingKeepsInvariant(s: System, id: Id, gate: State, f: Flow)
    requires Invariant(s) && id in s.flows && WellFormed(f) && Passed(s.gate, s.flows[id], gate, f, Gives)
    ensures Invariant(System(gate, s.flows[id := f]))
  {
    hide WellFormed;
    var s' := System(gate, s.flows[id := f]);
    OneFlowChanges(s, id, gate, f);
    assert id in Owers(s) <==> Owing(s, id);
    ReleaseIsExact(s, id);
    if f.kind.Move? {
      assert Owers(s') == Owers(s);
    } else {
      assert Owers(s') == Owers(s) - {id};
    }
  }

  lemma NewFlowIsWellFormed(kind: Kind)
    ensures WellFormed(Flow(kind, Entering, Absent, 0, 0)) && !Owes(Flow(kind, Entering, Absent, 0, 0))
  {
  }

  lemma ArrivalKeepsInvariant(s: System, id: Id, kind: Kind)
    requires Invariant(s) && id !in s.flows
    ensures Invariant(Next(s, Arrive(id, kind)))
  {
    hide WellFormed;
    var f := Flow(kind, Entering, Absent, 0, 0);
    NewFlowIsWellFormed(kind);
    OneFlowChanges(s, id, s.gate, f);
    assert id !in Owers(s);
    assert Owers(Next(s, Arrive(id, kind))) == Owers(s);
  }

  lemma StepKeepsInvariant(s: System, step: Step)
    requires Invariant(s) && Enabled(s, step)
    ensures Invariant(Next(s, step))
  {
    match step
    case Arrive(id, kind) => ArrivalKeepsInvariant(s, id, kind);
    case CallerStep(id, ok) =>
      var f := s.flows[id];
      FlowStepKeepsShape(s.gate, f, ok);
      var pass, _ := StepPasses(s.gate, f, ok);
      PassKeepsInvariant(s, id, Advanced(s.gate, f, ok).0, Advanced(s.gate, f, ok).1, pass);
    case WorkerEnds(id, ok) =>
      var f := s.flows[id];
      FlowStepKeepsShape(s.gate, f, ok);
      var _, pass := StepPasses(s.gate, f, ok);
      PassKeepsInvariant(s, id, Finished(s.gate, f, ok).0, Finished(s.gate, f, ok).1, pass);
  }

  lemma {:induction false} RunKeepsInvariant(s: System, steps: seq<Step>)
    requires Invariant(s)
    ensures Run(s, steps).Some? ==> Invariant(Run(s, steps).value)
    decreases |steps|
  {
    hide Invariant;
    if steps != [] && Enabled(s, steps[0]) {
      StepKeepsInvariant(s, steps[0]);
      RunKeepsInvariant(Next(s, steps[0]), steps[1..]);
    }
  }

  lemma InitialInvariant()
    ensures Invariant(INITIAL)
  {
    assert Owers(INITIAL) == {};
  }

  // ---- Main results

  /** A goroutine is between its pass and its release: a mutation runs, a game is being
      started or played, an install is being prepared or carried out. */
  predicate Underway(f: Flow) {
    !f.kind.Move? && f.caller != Entering && (f.worker.Parked? || f.worker.Working? || (f.worker.Absent? && f.caller != Returned))
  }

  /** In every run the count at the gate is the number of passes out, and while the data
      folder moves nothing else is underway: no mutation, no game, no install. */
  lemma RelocationIsAlone(steps: seq<Step>, s: System)
    requires Run(INITIAL, steps) == Some(s)
    ensures s.gate.active == |Owers(s)|
    ensures s.gate.relocating ==> Owers(s) == {} && forall id :: id in s.flows ==> !Underway(s.flows[id])
    ensures forall id :: Moving(s, id) ==> s.gate.relocating
  {
    InitialInvariant();
    RunKeepsInvariant(INITIAL, steps);
    if s.gate.relocating {
      forall id | id in s.flows
        ensures !Underway(s.flows[id])
      {
        assert id in Owers(s) <==> Owing(s, id);
        assert WellFormed(s.flows[id]);
      }
    }
  }

  /** A mutation started under another one's pass is never turned away, and a move
      always is. */
  lemma NestedBeginSucceeds(steps: seq<Step>, s: System, outer: Id, inner: Id)
    requires Run(INITIAL, steps) == Some(s) && Owing(s, outer)
    requires inner in s.flows && s.flows[inner].caller.Entering?
    ensures Next(s, CallerStep(inner, true)).flows[inner].caller == if s.flows[inner].kind.Move? then Returned else Inside
  {
    InitialInvariant();
    RunKeepsInvariant(INITIAL, steps);
    assert outer in Owers(s);
  }

  /** On every path, whoever holds the pass in the end, a flow whose goroutines are done
      has released exactly what it took; only a move that succeeded keeps the gate shut.
      A pass that is out can always make progress: the goroutine that has it can step. */
  lemma EveryPassIsReturnedOnce(steps: seq<Step>, s: System, id: Id)
    requires Run(INITIAL, steps) == Some(s) && id in s.flows
    ensures var f := s.flows[id];
            && f.ends <= f.begins <= 1
            && (f.caller.Returned? && (f.worker.Absent? || f.worker.Exited?) ==> f.ends == f.begins)
            && (Owes(f) && !f.worker.Quitting? ==> Enabled(s, CallerStep(id, true)) || Enabled(s, WorkerEnds(id, true)))
            && (f.worker.Quitting? ==> f.kind.Move? && s.gate.relocating)
  {
    InitialInvariant();
    RunKeepsInvariant(INITIAL, steps);
    var f := s.flows[id];
    assert WellFormed(f);
    if f.worker.Quitting? {
      assert Moving(s, id);
    }
  }

  // ---- Flows that nothing interleaves with

  lemma {:induction false} Further(s: System, steps: seq<Step>, t: System, step: Step) returns (further: seq<Step>, u: System)
    requires Run(s, steps) == Some(t) && Enabled(t, step)
    ensures u == Next(t, step) && Run(s, further) == Some(u)
    decreases |steps|
  {
    hide Next, Enabled;
    u := Next(t, step);
    if steps == [] {
      further := [step];
      assert further[1..] == [] && Run(u, []) == Some(u);
    } else {
      var rest, _ := Further(Next(s, steps[0]), steps[1..], t, step);
      further := [steps[0]] + rest;
      assert further[1..] == rest;
    }
  }

  /** What a flow comes to if everything it tries works, except that moving may fail: it is
      turned away exactly while the folder moves, a move also while a pass is out; a move that
      succeeds leaves the gate shut, and every other flow leaves it as it was. */
  lemma FlowRunsThrough(s: System, id: Id, kind: Kind, moves: bool) returns (steps: seq<Step>, t: System)
    requires Invariant(s) && id !in s.flows
    ensures Run(s, steps) == Some(t) && id in t.flows && t.flows[id].kind == kind && t.flows[id].caller.Returned?
    ensures forall other :: other != id ==> Get(t.flows, other) == Get(s.flows, other)
    ensures var f := t.flows[id];
            if s.gate.relocating || (kind.Move? && s.gate.active != 0)
            then f == Flow(kind, Returned, Absent, 0, 0) && t.gate == s.gate
            else if kind.Move? && moves then f == Flow(kind, Returned, Quitting, 1, 0) && t.gate == State(true, 0)
            else f == Flow(kind, Returned, if kind.Mutation? then Absent else Exited, 1, 1) && t.gate == s.gate
  {
    hide Run;
    assert Run(s, []) == Some(s) by { NoSteps(s); }
    steps, t := Further(s, [], s, Arrive(id, kind));
    assert t == Stood(s, s.gate, id, Flow(kind, Entering, Absent, 0, 0));
    steps, t := Further(s, steps, t, CallerStep(id, true));
    if t.flows[id].caller.Returned? { return; }
    var g := if kind.Move? then s.gate.(relocating := true) else s.gate.(active := s.gate.active + 1);
    assert t == Stood(s, g, id, Flow(kind, Inside, Absent, 1, 0));
    if kind.Mutation? {
      steps, t := Further(s, steps, t, CallerStep(id, true));
      return;
    }
    steps, t := Returning(s, steps, t, g, id, kind);
    steps, t := Further(s, steps, t, WorkerEnds(id, moves));
  }

  function Stood(s: System, gate: State, id: Id, f: Flow): System {
    System(gate, s.flows[id := f])
  }

  lemma NoSteps(s: System)
    ensures Run(s, []) == Some(s)
  {
  }

  /** From inside the gate to where only the worker is left. */
  lemma Returning(s: System, before: seq<Step>, h: System, g: State, id: Id, kind: Kind) returns (steps: seq<Step>, t: System)
    requires Run(s, before) == Some(h) && h == Stood(s, g, id, Flow(kind, Inside, Absent, 1, 0)) && !kind.Mutation?
    ensures Run(s, steps) == Some(t) && t == Stood(s, g, id, Flow(kind, Returned, Working, 1, 0))
  {
    hide Run;
    steps, t := Further(s, before, h, CallerStep(id, true));
    if kind.Launch? {
      assert t == Stood(s, g, id, Flow(kind, Disarmed, Absent, 1, 0));
    } else {
      assert t == Stood(s, g, id, Flow(kind, Spawned, if kind.Install? then Parked else Working, 1, 0));
      steps, t := Further(s, steps, t, CallerStep(id, true));
    }
    steps, t := Further(s, steps, t, CallerStep(id, true));
    if !kind.Move? {
      assert t == Stood(s, g, id, Flow(kind, Handing, Working, 1, 0));
      steps, t := Further(s, steps, t, CallerStep(id, true));
    }
    assert t == Stood(s, g, id, Flow(kind, Returned, Working, 1, 0));
  }
}
