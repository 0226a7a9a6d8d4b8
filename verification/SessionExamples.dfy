/** Runs of overlapping calls that lose a session, and calls that nothing overlaps. */
module SessionExamples {
  import opened Prelude
  import opened Credentials
  import opened SessionRuns

  // ---- Runs, step by step

  lemma {:induction false} OneStepFurther(s: System, steps: seq<Step>, g: System, step: Step) returns (further: seq<Step>, h: System)
    requires Run(s, steps) == Some(g) && Enabled(g, step)
    ensures further == steps + [step] && h == Next(g, step) && Run(s, further) == Some(h)
    decreases |steps|
  {
    hide Next, Enabled;
    further, h := steps + [step], Next(g, step);
    if steps == [] {
      assert further[1..] == [] && Run(h, []) == Some(h);
    } else {
      var rest, _ := OneStepFurther(Next(s, steps[0]), steps[1..], g, step);
      assert further[1..] == rest;
    }
  }

  /** No call fails and nothing crashes. */
  predicate Succeeds(step: Step) {
    match step
    case BeginCommit(_, _, _) => true
    case LookUp(_, _) => true
    case Crash => false
    case Startup(_, _, _) => false
    case _ => step.ok
  }

  predicate AllSucceed(steps: seq<Step>) {
    forall i :: 0 <= i < |steps| ==> Succeeds(steps[i])
  }

  function Only(id: AccountId, session: Credential): System {
    System(State(map[id := session], {id}, []), None, map[])
  }

  lemma JournalOfOne(id: AccountId)
    ensures Marked([], id) == [id] && Cleared([id], id) == []
  {
    assert [id][1..] == [];
  }

  /** A login to an account that is being removed: no call fails, and the new session stays
      in the store although its account is gone and the journal is empty. */
  lemma OverlappingLoginExample(id: AccountId, earlier: Credential, later: Credential)
    ensures exists steps :: AllSucceed(steps) &&
                            Run(Only(id, earlier), steps) == Some(System(State(map[id := later], {}, []), None, map[]))
  {
    hide Run;
    var s := Only(id, earlier);
    JournalOfOne(id);
    var steps, g := RemovalBegins(id, earlier);
    steps, g := LoginRuns(s, steps, g, id, later);
    steps, g := OneStepFurther(s, steps, g, DropAccount(0, true));
    assert g == System(State(map[id := later], {}, []), None, map[]);
  }

  lemma RemovalBegins(id: AccountId, earlier: Credential) returns (steps: seq<Step>, g: System)
    ensures Run(Only(id, earlier), steps) == Some(g) && AllSucceed(steps)
    ensures g == System(State(map[], {id}, []), None, map[0 := Emptied(id, Some(earlier))])
  {
    hide Run;
    var s := Only(id, earlier);
    NoSteps(s);
    steps, g := OneStepFurther(s, [], s, LookUp(0, Found(id)));
    steps, g := OneStepFurther(s, steps, g, ReadPrevious(0, true));
    steps, g := OneStepFurther(s, steps, g, DropSession(0, true));
  }

  lemma LoginRuns(s: System, before: seq<Step>, h: System, id: AccountId, session: Credential) returns (steps: seq<Step>, g: System)
    requires Run(s, before) == Some(h) && AllSucceed(before)
    requires h.commits == None && 1 !in h.tasks && id in h.data.accounts && h.data.journal == []
    ensures Run(s, steps) == Some(g) && AllSucceed(steps)
    ensures g == h.(data := h.data.(store := h.data.store[id := session]))
  {
    hide Run;
    JournalOfOne(id);
    steps, g := LoginBegins(s, before, h, id, session);
    steps, g := OneStepFurther(s, steps, g, Put(1, true));
    steps, g := OneStepFurther(s, steps, g, Save(1, true));
    assert g.data == State(h.data.store[id := session], h.data.accounts, [id]);
    steps, g := OneStepFurther(s, steps, g, Clear(1, true));
    assert g.tasks == h.tasks;
  }

  lemma LoginBegins(s: System, before: seq<Step>, h: System, id: AccountId, session: Credential) returns (steps: seq<Step>, g: System)
    requires Run(s, before) == Some(h) && AllSucceed(before)
    requires h.commits == None && 1 !in h.tasks && id in h.data.accounts && h.data.journal == []
    ensures Run(s, steps) == Some(g) && AllSucceed(steps)
    ensures g == System(h.data.(journal := [id]), Some(1), h.tasks[1 := Journaled(id, false, session, Get(h.data.store, id))])
  {
    hide Run;
    JournalOfOne(id);
    steps, g := OneStepFurther(s, before, h, BeginCommit(1, id, session));
    steps, g := OneStepFurther(s, steps, g, ReadPrevious(1, true));
    steps, g := OneStepFurther(s, steps, g, Mark(1, true));
  }

  lemma NoSteps(s: System)
    ensures Run(s, []) == Some(s)
  {}

  /** Two removals of one account: no call fails but the second deletion of its record, which
      finds none, and the first one then puts back the session. */
  lemma TwoRemovalsExample(id: AccountId, earlier: Credential)
    ensures exists steps :: AllSucceed(steps) &&
                            Run(Only(id, earlier), steps) == Some(System(State(map[id := earlier], {}, []), None, map[]))
  {
    hide Run;
    var s := Only(id, earlier);
    var steps, g := TwoRemovalsBegin(id, earlier);
    steps, g := OneStepFurther(s, steps, g, DropAccount(1, true));
    assert g == System(State(map[], {}, []), None, map[0 := Emptied(id, Some(earlier))]);
    steps, g := OneStepFurther(s, steps, g, DropAccount(0, true));
    steps, g := OneStepFurther(s, steps, g, PutBack(0, true));
    assert g == System(State(map[id := earlier], {}, []), None, map[]);
  }

  lemma TwoRemovalsBegin(id: AccountId, earlier: Credential) returns (steps: seq<Step>, g: System)
    ensures Run(Only(id, earlier), steps) == Some(g) && AllSucceed(steps)
    ensures g == System(State(map[], {id}, []), None, map[0 := Emptied(id, Some(earlier)), 1 := Emptied(id, None)])
  {
    hide Run;
    var s := Only(id, earlier);
    steps, g := RemovalBegins(id, earlier);
    steps, g := OneStepFurther(s, steps, g, LookUp(1, Found(id)));
    steps, g := OneStepFurther(s, steps, g, ReadPrevious(1, true));
    steps, g := OneStepFurther(s, steps, g, DropSession(1, true));
  }

  /** An account that is removed while a logout or a validation is about to save its record
      again comes back, without its session. */
  lemma RemovedAccountComesBackExample(id: AccountId, earlier: Credential)
    ensures exists steps :: AllSucceed(steps) &&
                            Run(Only(id, earlier), steps) == Some(System(State(map[], {id}, []), None, map[]))
  {
    hide Run;
    var s := Only(id, earlier);
    var steps, g := RemovalBegins(id, earlier);
    steps, g := OneStepFurther(s, steps, g, LookUp(1, Renewing(id)));
    steps, g := OneStepFurther(s, steps, g, DropAccount(0, true));
    assert g == System(State(map[], {}, []), None, map[1 := Renewing(id)]);
    steps, g := OneStepFurther(s, steps, g, Renew(1, true));
    assert g == System(State(map[], {id}, []), None, map[]);
  }

  /** A start whose deletions all work leaves sessions of saved accounts only, and no journal. */
  lemma StartupCleansUp(s: System, deletes: AccountId -> bool)
    requires Idle(s) && Covered(s.data) && forall id :: id in s.data.journal ==> deletes(id)
    ensures var step := Startup(deletes, true, |s.data.journal| + 1);
            && Enabled(s, step)
            && var d := Next(s, step).data;
               d.store.Keys <= d.accounts && d.journal == [] && d.accounts == s.data.accounts
               && forall id :: id in d.accounts ==> Get(d.store, id) == Get(s.data.store, id)
  {
    ReconcileKeepsCover(s.data, s.data.journal, deletes, true, |s.data.journal| + 1);
    ReconcileEnds(s.data, s.data.journal, deletes, |s.data.journal| + 1);
  }

  lemma {:induction false} ReconcileEnds(d: State, ids: seq<AccountId>, deletes: AccountId -> bool, crash: nat)
    requires crash > |ids| && forall id :: id in ids ==> deletes(id)
    ensures Reconciled(d, ids, deletes, true, crash).1.Done?
    decreases |ids|
  {
    if ids != [] {
      assert forall id :: id in ids[1..] ==> id in ids;
      ReconcileEnds(d, ids[1..], deletes, crash);
      ReconcileEnds(d.(store := d.store - {ids[0]}), ids[1..], deletes, crash - 1);
    }
  }

  // ---- A call on its own

  lemma Stopped(s: System, steps: seq<Step>, g: System) returns (all: seq<Step>, h: System)
    requires Run(s, steps) == Some(g)
    ensures Run(s, all) == Some(h) && h == System(g.data, None, map[])
  {
    all, h := OneStepFurther(s, steps, g, Crash);
  }

  /** A commit that nothing interleaves with is the commit as one call. */
  lemma CommitAlone(s: System, id: AccountId, credential: Credential, calls: Calls, crash: nat) returns (steps: seq<Step>, g: System)
    requires Idle(s) && (id in s.data.accounts || (id !in s.data.store && id !in s.data.journal))
    ensures Run(s, steps) == Some(g) && Idle(g)
    ensures g.data == Committed(s.data, id, credential, calls, crash).0
  {
    hide Run, Marked, Cleared;
    steps, g := CommitBegins(s, id, credential, calls, crash);
    if Idle(g) { return; }
    steps, g := OneStepFurther(s, steps, g, Put(0, calls.put));
    if crash == 2 { steps, g := Stopped(s, steps, g); return; }
    if calls.put {
      steps, g := CommitEnds(s, steps, g, id, credential, calls, crash);
    } else {
      steps, g := OneStepFurther(s, steps, g, Clear(0, calls.clear));
    }
  }

  lemma CommitEnds(s: System, before: seq<Step>, h: System, id: AccountId, credential: Credential, calls: Calls, crash: nat)
    returns (steps: seq<Step>, g: System)
    requires Run(s, before) == Some(h) && calls.get && calls.mark && calls.put && crash > 2
    requires h == System(State(s.data.store[id := credential], s.data.accounts, Marked(s.data.journal, id)), Some(0),
                         map[0 := Stored(id, id !in s.data.accounts, Get(s.data.store, id))])
    ensures Run(s, steps) == Some(g) && Idle(g)
    ensures g.data == Committed(s.data, id, credential, calls, crash).0
  {
    hide Run, Marked, Cleared;
    steps, g := OneStepFurther(s, before, h, Save(0, calls.save));
    if crash == 3 { steps, g := Stopped(s, steps, g); return; }
    if !calls.save {
      steps, g := OneStepFurther(s, steps, g, TakeBack(0, calls.rollback));
      if crash == 4 { steps, g := Stopped(s, steps, g); return; }
    }
    steps, g := OneStepFurther(s, steps, g, Clear(0, calls.clear));
  }

  lemma CommitBegins(s: System, id: AccountId, credential: Credential, calls: Calls, crash: nat) returns (steps: seq<Step>, g: System)
    requires Idle(s) && (id in s.data.accounts || Unused(s, id))
    ensures Run(s, steps) == Some(g)
    ensures if Idle(g) then g.data == Committed(s.data, id, credential, calls, crash).0
            else calls.get && calls.mark && crash >= 2 &&
                 g == System(s.data.(journal := Marked(s.data.journal, id)), Some(0),
                             map[0 := Journaled(id, id !in s.data.accounts, credential, Get(s.data.store, id))])
  {
    hide Run, Marked, Cleared;
    NoSteps(s);
    steps, g := OneStepFurther(s, [], s, BeginCommit(0, id, credential));
    steps, g := OneStepFurther(s, steps, g, ReadPrevious(0, calls.get));
    if !calls.get { return; }
    if crash == 0 { steps, g := Stopped(s, steps, g); return; }
    steps, g := OneStepFurther(s, steps, g, Mark(0, calls.mark));
    if calls.mark && crash == 1 { steps, g := Stopped(s, steps, g); }
  }

  /** And so is a removal. */
  lemma RemovalAlone(s: System, id: AccountId, calls: Calls, crash: nat) returns (steps: seq<Step>, g: System)
    requires Idle(s) && id in s.data.accounts
    ensures Run(s, steps) == Some(g) && Idle(g)
    ensures g.data == Removed(s.data, id, calls, crash).0
  {
    hide Run;
    NoSteps(s);
    steps, g := OneStepFurther(s, [], s, LookUp(0, Found(id)));
    steps, g := OneStepFurther(s, steps, g, ReadPrevious(0, calls.get));
    if !calls.get { return; }
    if crash == 0 { steps, g := Stopped(s, steps, g); return; }
    steps, g := OneStepFurther(s, steps, g, DropSession(0, calls.put));
    if !calls.put { return; }
    if crash == 1 { steps, g := Stopped(s, steps, g); return; }
    steps, g := OneStepFurther(s, steps, g, DropAccount(0, calls.save));
    if crash == 2 { steps, g := Stopped(s, steps, g); return; }
    if !calls.save && id in s.data.store {
      steps, g := OneStepFurther(s, steps, g, PutBack(0, calls.rollback));
    }
  }
}
