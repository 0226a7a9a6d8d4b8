/** All interleavings of logins, removals, logouts and refreshed accounts, step by step.
    Commits exclude each other by a mutex; nothing keeps a removal from overlapping one. */
module SessionRuns {
  import opened Prelude
  import opened Credentials

  type Id = nat

  /** What a call is in the middle of, with what it has read so far. Chosen to Closing are a
      commit, Found to Unremoved a removal. isNew: the account is a new one. stuck: the
      session of a new account could not be taken back after the account was not saved. */
  datatype Task =
    | Chosen(id: AccountId, isNew: bool, credential: Credential)
    | Prepared(id: AccountId, isNew: bool, credential: Credential, previous: Option<Credential>)
    | Journaled(id: AccountId, isNew: bool, credential: Credential, previous: Option<Credential>)
    | Stored(id: AccountId, isNew: bool, previous: Option<Credential>)
    | Unsaved(id: AccountId, isNew: bool, previous: Option<Credential>)
    | Closing(id: AccountId, stuck: bool)
    | Found(id: AccountId)
    | Seen(id: AccountId, previous: Option<Credential>)
    | Emptied(id: AccountId, previous: Option<Credential>)
    | Unremoved(id: AccountId, session: Credential)
    | LoggingOut(id: AccountId)
    | Renewing(id: AccountId)

  datatype System = System(data: State, commits: Option<Id>, tasks: map<Id, Task>)

  /** The fallible calls carry whether they succeed. Renew saves the record that a logout or
      a validation has read before. */
  datatype Step =
    | BeginCommit(t: Id, id: AccountId, credential: Credential)
    | LookUp(t: Id, task: Task)
    | ReadPrevious(t: Id, ok: bool)
    | Mark(t: Id, ok: bool)
    | Put(t: Id, ok: bool)
    | Save(t: Id, ok: bool)
    | TakeBack(t: Id, ok: bool)
    | Clear(t: Id, ok: bool)
    | DropSession(t: Id, ok: bool)
    | DropAccount(t: Id, ok: bool)
    | PutBack(t: Id, ok: bool)
    | Renew(t: Id, ok: bool)
    | Crash
    | Startup(deletes: AccountId -> bool, clears: bool, crash: nat)

  predicate Committing(task: Task) {
    task.Chosen? || task.Prepared? || task.Journaled? || task.Stored? || task.Unsaved? || task.Closing?
  }

  predicate Removing(task: Task) {
    task.Found? || task.Seen? || task.Emptied? || task.Unremoved?
  }

  /** A new identifier: nothing stored, recorded or underway has it. */
  predicate Unused(s: System, id: AccountId) {
    && id !in s.data.accounts && id !in s.data.store && id !in s.data.journal
    && forall t :: t in s.tasks ==> s.tasks[t].id != id
  }

  predicate Enabled(s: System, step: Step) {
    match step
    case BeginCommit(t, id, _) => t !in s.tasks && s.commits.None? && (id in s.data.accounts || Unused(s, id))
    case LookUp(t, task) =>
      t !in s.tasks && task.id in s.data.accounts && (task.Found? || task.LoggingOut? || task.Renewing?)
    case ReadPrevious(t, _) => t in s.tasks && (s.tasks[t].Chosen? || s.tasks[t].Found?)
    case Mark(t, _) => t in s.tasks && s.tasks[t].Prepared?
    case Put(t, _) => t in s.tasks && s.tasks[t].Journaled?
    case Save(t, _) => t in s.tasks && s.tasks[t].Stored?
    case TakeBack(t, _) => t in s.tasks && s.tasks[t].Unsaved?
    case Clear(t, _) => t in s.tasks && s.tasks[t].Closing?
    case DropSession(t, _) => t in s.tasks && (s.tasks[t].Seen? || s.tasks[t].LoggingOut?)
    case DropAccount(t, _) => t in s.tasks && s.tasks[t].Emptied?
    case PutBack(t, _) => t in s.tasks && s.tasks[t].Unremoved?
    case Renew(t, _) => t in s.tasks && s.tasks[t].Renewing?
    case Crash => true
    case Startup(_, _, _) => s.tasks == map[] && s.commits.None?
  }

  function Going(s: System, t: Id, task: Task, data: State): System {
    System(data, s.commits, s.tasks[t := task])
  }

  function Ended(s: System, t: Id, data: State): System {
    System(data, if s.commits == Some(t) then None else s.commits, s.tasks - {t})
  }

  function Next(s: System, step: Step): System
    requires Enabled(s, step)
  {
    var d := s.data;
    match step
    case BeginCommit(t, id, credential) =>
      Going(s, t, Chosen(id, id !in d.accounts, credential), d).(commits := Some(t))
    case LookUp(t, task) => Going(s, t, task, d)
    case ReadPrevious(t, ok) =>
      var task := s.tasks[t];
      if !ok then Ended(s, t, d)
      else if task.Found? then Going(s, t, Seen(task.id, Get(d.store, task.id)), d)
      else Going(s, t, Prepared(task.id, task.isNew, task.credential, Get(d.store, task.id)), d)
    case Mark(t, ok) =>
      var task := s.tasks[t];
      if !ok then Ended(s, t, d)
      else Going(s, t, Journaled(task.id, task.isNew, task.credential, task.previous),
                 d.(journal := Marked(d.journal, task.id)))
    case Put(t, ok) =>
      var task := s.tasks[t];
      if !ok then Going(s, t, Closing(task.id, false), d)
      else Going(s, t, Stored(task.id, task.isNew, task.previous), d.(store := d.store[task.id := task.credential]))
    case Save(t, ok) =>
      var task := s.tasks[t];
      if ok then Going(s, t, Closing(task.id, false), d.(accounts := d.accounts + {task.id}))
      else Going(s, t, Unsaved(task.id, task.isNew, task.previous), d)
    case TakeBack(t, ok) =>
      var task := s.tasks[t];
      Going(s, t, Closing(task.id, task.isNew && !ok), if ok then d.(store := Back(d.store, task.id, task.previous)) else d)
    case Clear(t, ok) => Ended(s, t, ClearedIf(d, s.tasks[t].id, ok))
    case DropSession(t, ok) =>
      var task := s.tasks[t];
      if !ok then Ended(s, t, d)
      else Going(s, t, if task.Seen? then Emptied(task.id, task.previous) else Renewing(task.id),
                 d.(store := d.store - {task.id}))
    case DropAccount(t, ok) =>
      var task := s.tasks[t];
      if ok && task.id in d.accounts then Ended(s, t, d.(accounts := d.accounts - {task.id}))
      else if task.previous.Some? then Going(s, t, Unremoved(task.id, task.previous.value), d)
      else Ended(s, t, d)
    case PutBack(t, ok) =>
      var task := s.tasks[t];
      Ended(s, t, if ok then d.(store := d.store[task.id := task.session]) else d)
    case Renew(t, ok) => Ended(s, t, if ok then d.(accounts := d.accounts + {s.tasks[t].id}) else d)
    case Crash => System(d, None, map[])
    case Startup(deletes, clears, crash) => s.(data := Reconciled(d, d.journal, deletes, clears, crash).0)
  }

  function Back(store: map<AccountId, Credential>, id: AccountId, previous: Option<Credential>): map<AccountId, Credential> {
    match previous
    case Some(session) => store[id := session]
    case None => store - {id}
  }

  function Run(s: System, steps: seq<Step>): Option<System>
    decreases |steps|
  {
    if steps == [] then Some(s)
    else if !Enabled(s, steps[0]) then None
    else Run(Next(s, steps[0]), steps[1..])
  }

  // ---- The mutex of the commits

  predicate Marking(task: Task) {
    task.Journaled? || task.Stored? || task.Unsaved? || task.Closing?
  }

  /** One commit at a time, and its account is in the journal while its session may be stored. */
  ghost predicate Locked(s: System) {
    forall t :: t in s.tasks && Committing(s.tasks[t]) ==>
      s.commits == Some(t) && (Marking(s.tasks[t]) ==> s.tasks[t].id in s.data.journal)
  }

  lemma StepKeepsLocked(s: System, step: Step)
    requires Locked(s) && Enabled(s, step)
    ensures Locked(Next(s, step))
  {}

  // ---- Which step loses track of a session

  /** A journal entry is cleared, an account deleted or a session put back, and a stored
      session is left without both. */
  predicate Loses(s: System, step: Step)
    requires Enabled(s, step)
  {
    match step
    case Clear(t, ok) => ok && s.tasks[t].id in s.data.store && s.tasks[t].id !in s.data.accounts
    case DropAccount(t, ok) =>
      var id := s.tasks[t].id;
      ok && id in s.data.accounts && id in s.data.store && id !in s.data.journal
    case PutBack(t, ok) => ok && s.tasks[t].id !in s.data.accounts && s.tasks[t].id !in s.data.journal
    case _ => false
  }

  /** In any interleaving, cover is lost in these steps and in no other. */
  lemma StepKeepsCoverIff(s: System, step: Step)
    requires Locked(s) && Enabled(s, step) && Covered(s.data)
    ensures Covered(Next(s, step).data) <==> !Loses(s, step)
  {
    hide Reconciled;
    if step.Startup? {
      ReconcileKeepsCover(s.data, s.data.journal, step.deletes, step.clears, step.crash);
    } else if Loses(s, step) {
      var id := s.tasks[step.t].id;
      var d := Next(s, step).data;
      assert id in d.store && id !in d.accounts && id !in d.journal;
    }
  }

  // ---- Calls on one account that do not overlap

  /** While an account is being removed nothing else removes it or stores a session for it. */
  ghost predicate NoOverlap(s: System) {
    forall a, b :: a in s.tasks && b in s.tasks && a != b && s.tasks[a].id == s.tasks[b].id && Removing(s.tasks[a]) ==>
      !Removing(s.tasks[b]) && !Committing(s.tasks[b])
  }

  /** Only this task is about the account. */
  ghost predicate OnlyOne(s: System, t: Id)
    requires t in s.tasks
  {
    forall other :: other in s.tasks && other != t ==> s.tasks[other].id != s.tasks[t].id
  }

  ghost predicate TaskFits(s: System, t: Id)
    requires t in s.tasks
  {
    PhaseFits(s.data, s.tasks[t])
    && (Committing(s.tasks[t]) && s.tasks[t].id !in s.data.accounts ==> OnlyOne(s, t))
  }

  predicate PhaseFits(d: State, task: Task) {
    var stored, saved := task.id in d.store, task.id in d.accounts;
    match task
    case Chosen(_, isNew, _) => if isNew then !saved && !stored else saved
    case Prepared(_, isNew, _, previous) => if isNew then !saved && !stored && previous.None? else saved
    case Journaled(_, isNew, _, previous) => if isNew then !saved && !stored && previous.None? else saved
    case Stored(_, isNew, previous) => if isNew then !saved && stored && previous.None? else saved
    case Unsaved(_, isNew, previous) => if isNew then !saved && stored && previous.None? else saved
    case Closing(_, stuck) => if stuck then stored && !saved else saved || !stored
    case Found(_) => saved
    case Seen(_, _) => saved
    case Emptied(_, _) => saved && !stored
    case Unremoved(_, _) => saved && !stored
    case LoggingOut(_) => true
    case Renewing(_) => true
  }

  ghost predicate AllFit(s: System) {
    forall t :: t in s.tasks ==> TaskFits(s, t)
  }

  lemma OwnTaskFits(s: System, step: Step)
    requires AllFit(s) && Enabled(s, step) && !step.Crash? && !step.Startup? && step.t in Next(s, step).tasks
    ensures TaskFits(Next(s, step), step.t)
  {
    hide Reconciled, Marked, Cleared;
    assert step.t in s.tasks ==> TaskFits(s, step.t);
  }

  lemma OtherTaskFits(s: System, step: Step, u: Id)
    requires Locked(s) && NoOverlap(s) && Enabled(s, step) && !step.Crash? && !step.Startup?
    requires u in s.tasks && u != step.t && TaskFits(s, u)
    ensures TaskFits(Next(s, step), u)
  {
    hide Next, Enabled, PhaseFits, NoOverlap, Locked;
    OtherPhaseFits(s, step, u);
    StaysOnlyOne(s, step, u);
  }

  lemma OtherPhaseFits(s: System, step: Step, u: Id)
    requires Locked(s) && NoOverlap(s) && Enabled(s, step) && !step.Crash? && !step.Startup?
    requires u in s.tasks && u != step.t && TaskFits(s, u)
    ensures u in Next(s, step).tasks && Next(s, step).tasks[u] == s.tasks[u] && PhaseFits(Next(s, step).data, s.tasks[u])
  {
    hide Reconciled, Marked, Cleared;
  }

  lemma StaysOnlyOne(s: System, step: Step, u: Id)
    requires Locked(s) && NoOverlap(s) && Enabled(s, step) && !step.Crash? && !step.Startup?
    requires u in s.tasks && u != step.t && TaskFits(s, u) && u in Next(s, step).tasks
    ensures Committing(s.tasks[u]) && s.tasks[u].id !in Next(s, step).data.accounts ==> OnlyOne(Next(s, step), u)
  {
    hide Reconciled, Marked, Cleared, PhaseFits;
  }

  lemma StepKeepsFit(s: System, step: Step, u: Id)
    requires AllFit(s) && Locked(s) && NoOverlap(s) && Enabled(s, step) && u in Next(s, step).tasks
    ensures TaskFits(Next(s, step), u)
  {
    hide Reconciled, Marked, ClearedIf, TaskFits, NoOverlap, Locked;
    if !step.Crash? && !step.Startup? {
      if u == step.t {
        OwnTaskFits(s, step);
      } else {
        OtherTaskFits(s, step, u);
      }
    }
  }

  lemma StepKeepsAllFit(s: System, step: Step)
    requires AllFit(s) && Locked(s) && NoOverlap(s) && Enabled(s, step)
    ensures AllFit(Next(s, step))
  {
    hide Next, Enabled, TaskFits, NoOverlap, Locked;
    forall u | u in Next(s, step).tasks
      ensures TaskFits(Next(s, step), u)
    {
      StepKeepsFit(s, step, u);
    }
  }

  /** A commit gives up on the session of a new account that it could neither save nor
      take back, and clears its journal entry all the same. */
  predicate GivesUp(s: System, step: Step)
    requires Enabled(s, step)
  {
    step.Clear? && step.ok && s.tasks[step.t].stuck
  }

  lemma LosesOnlyByGivingUp(s: System, step: Step)
    requires AllFit(s) && Enabled(s, step)
    ensures Loses(s, step) <==> GivesUp(s, step)
  {
    if !step.Crash? && !step.Startup? && step.t in s.tasks {
      assert TaskFits(s, step.t);
    }
  }

  // ---- Runs

  predicate Idle(s: System) {
    s.tasks == map[] && s.commits.None?
  }

  /** At every moment of the run. */
  predicate CoveredThroughout(s: System, steps: seq<Step>)
    decreases |steps|
  {
    Covered(s.data) && (steps != [] && Enabled(s, steps[0]) ==> CoveredThroughout(Next(s, steps[0]), steps[1..]))
  }

  ghost predicate NeverOverlaps(s: System, steps: seq<Step>)
    decreases |steps|
  {
    NoOverlap(s) && (steps != [] && Enabled(s, steps[0]) ==> NeverOverlaps(Next(s, steps[0]), steps[1..]))
  }

  predicate NeverLoses(s: System, steps: seq<Step>)
    decreases |steps|
  {
    steps != [] && Enabled(s, steps[0]) ==> !Loses(s, steps[0]) && NeverLoses(Next(s, steps[0]), steps[1..])
  }

  predicate NeverGivesUp(s: System, steps: seq<Step>)
    decreases |steps|
  {
    steps != [] && Enabled(s, steps[0]) ==> !GivesUp(s, steps[0]) && NeverGivesUp(Next(s, steps[0]), steps[1..])
  }

  lemma {:induction false} RunKeepsCoverIff(s: System, steps: seq<Step>)
    requires Locked(s) && Covered(s.data)
    ensures CoveredThroughout(s, steps) <==> NeverLoses(s, steps)
    decreases |steps|
  {
    hide Next, Enabled, Loses, Covered, Locked;
    if steps != [] && Enabled(s, steps[0]) {
      StepKeepsCoverIff(s, steps[0]);
      StepKeepsLocked(s, steps[0]);
      if !Loses(s, steps[0]) {
        RunKeepsCoverIff(Next(s, steps[0]), steps[1..]);
      } else {
        assert !CoveredThroughout(Next(s, steps[0]), steps[1..]);
      }
    }
  }

  lemma {:induction false} LossesAreGivingUp(s: System, steps: seq<Step>)
    requires Locked(s) && AllFit(s) && NeverOverlaps(s, steps)
    ensures NeverLoses(s, steps) <==> NeverGivesUp(s, steps)
    decreases |steps|
  {
    hide Next, Enabled, Loses, GivesUp, Locked, AllFit, NoOverlap;
    if steps != [] && Enabled(s, steps[0]) {
      LosesOnlyByGivingUp(s, steps[0]);
      StepKeepsLocked(s, steps[0]);
      NowNoOverlap(Next(s, steps[0]), steps[1..]);
      StepKeepsAllFit(s, steps[0]);
      LossesAreGivingUp(Next(s, steps[0]), steps[1..]);
    }
  }

  lemma NowNoOverlap(s: System, steps: seq<Step>)
    requires NeverOverlaps(s, steps)
    ensures NoOverlap(s)
  {}

  // ---- Main results

  /** Over any interleaving of logins, removals, logouts, validations, crashes and restarts in
      which no removal overlaps a login to the same account or another removal of it: every
      stored session is accounted for at every moment exactly if no commit gives up on one. */
  lemma SessionsStayCoveredIff(s: System, steps: seq<Step>)
    requires Idle(s) && Covered(s.data) && NeverOverlaps(s, steps)
    ensures CoveredThroughout(s, steps) <==> NeverGivesUp(s, steps)
  {
    hide NeverLoses, NeverGivesUp, NeverOverlaps, CoveredThroughout;
    RunKeepsCoverIff(s, steps);
    LossesAreGivingUp(s, steps);
  }

  /** And over any interleaving at all exactly if no step loses one. */
  lemma SessionsStayCoveredAtAllIff(s: System, steps: seq<Step>)
    requires Idle(s) && Covered(s.data)
    ensures CoveredThroughout(s, steps) <==> NeverLoses(s, steps)
  {
    RunKeepsCoverIff(s, steps);
  }

  // ---- Why a removal loses a session

  /** A commit stores the session of the account or takes an older one back, or another
      removal puts one back. */
  predicate StoresFor(s: System, step: Step, id: AccountId) {
    && Enabled(s, step) && (step.Put? || step.TakeBack? || step.PutBack?)
    && step.ok && s.tasks[step.t].id == id
  }

  predicate StoresAt(h: System, steps: seq<Step>, n: nat, id: AccountId) {
    && n < |steps|
    && var so := Run(h, steps[..n]);
       so.Some? && StoresFor(so.value, steps[n], id)
  }

  ghost predicate StoredMeanwhile(h: System, steps: seq<Step>, id: AccountId) {
    exists n: nat :: StoresAt(h, steps, n, id)
  }

  lemma {:induction false} ReconcileShrinks(d: State, ids: seq<AccountId>, deletes: AccountId -> bool, clears: bool, crash: nat)
    ensures Reconciled(d, ids, deletes, clears, crash).0.store.Keys <= d.store.Keys
    decreases |ids|
  {
    if crash > 0 && ids != [] {
      if ids[0] in d.accounts {
        ReconcileShrinks(d, ids[1..], deletes, clears, crash);
      } else if deletes(ids[0]) {
        ReconcileShrinks(d.(store := d.store - {ids[0]}), ids[1..], deletes, clears, crash - 1);
      }
    }
  }

  lemma OnlyTheseStore(s: System, step: Step, id: AccountId)
    requires Enabled(s, step) && id !in s.data.store && id in Next(s, step).data.store
    ensures StoresFor(s, step, id)
  {
    hide Reconciled, Marked, Cleared;
    if step.Startup? {
      ReconcileShrinks(s.data, s.data.journal, step.deletes, step.clears, step.crash);
    }
  }

  lemma {:induction false} WhoStored(h: System, steps: seq<Step>, g: System, id: AccountId) returns (n: nat)
    requires Run(h, steps) == Some(g) && id !in h.data.store && id in g.data.store
    ensures StoresAt(h, steps, n, id)
    decreases |steps|
  {
    hide Next, Enabled, StoresFor;
    var one := Next(h, steps[0]);
    if id in one.data.store {
      n := 0;
      assert steps[..0] == [];
      OnlyTheseStore(h, steps[0], id);
    } else {
      n := WhoStored(one, steps[1..], g, id);
      n := n + 1;
      assert steps[..n][1..] == steps[1..][..n - 1] && steps[..n][0] == steps[0];
    }
  }

  /** From the moment a removal deletes the session, whatever overlaps it: its last step loses
      a session exactly when one is stored again and has no journal entry. Then a commit or
      another removal has stored one for the account in between; without that, nothing is lost. */
  lemma RemovalLosesSessionIff(h: System, t: Id, meanwhile: seq<Step>, g: System)
    requires Enabled(h, DropSession(t, true)) && h.tasks[t].Seen?
    requires Run(Next(h, DropSession(t, true)), meanwhile) == Some(g)
    requires Enabled(g, DropAccount(t, true)) && g.tasks[t].id == h.tasks[t].id && Covered(g.data)
    ensures var id := h.tasks[t].id;
            var lost := !Covered(Next(g, DropAccount(t, true)).data);
            && (lost <==> id in g.data.accounts && id in g.data.store && id !in g.data.journal)
            && (lost ==> StoredMeanwhile(Next(h, DropSession(t, true)), meanwhile, id))
  {
    var id := h.tasks[t].id;
    var after := Next(g, DropAccount(t, true)).data;
    if id in g.data.accounts && id in g.data.store {
      var n := WhoStored(Next(h, DropSession(t, true)), meanwhile, g, id);
      assert id in after.store && id !in after.accounts && after.journal == g.data.journal;
    }
  }

  // ---- When a removed account comes back

  /** A commit saves the account, or a logout or a validation saves the record it read before. */
  predicate SavesAccount(s: System, step: Step, id: AccountId) {
    Enabled(s, step) && (step.Save? || step.Renew?) && step.ok && s.tasks[step.t].id == id
  }

  predicate SavesAccountAt(h: System, steps: seq<Step>, n: nat, id: AccountId) {
    && n < |steps|
    && var so := Run(h, steps[..n]);
       so.Some? && SavesAccount(so.value, steps[n], id)
  }

  lemma ReconcileKeepsAccounts(d: State, ids: seq<AccountId>, deletes: AccountId -> bool, clears: bool, crash: nat)
    ensures Reconciled(d, ids, deletes, clears, crash).0.accounts == d.accounts
    decreases |ids|
  {
    if crash > 0 && ids != [] {
      if ids[0] in d.accounts {
        ReconcileKeepsAccounts(d, ids[1..], deletes, clears, crash);
      } else if deletes(ids[0]) {
        ReconcileKeepsAccounts(d.(store := d.store - {ids[0]}), ids[1..], deletes, clears, crash - 1);
      }
    }
  }

  lemma OnlySavingBringsBack(s: System, step: Step, id: AccountId)
    requires Enabled(s, step)
    ensures SavesAccount(s, step, id) ==> id in Next(s, step).data.accounts
    ensures id !in s.data.accounts && id in Next(s, step).data.accounts ==> SavesAccount(s, step, id)
  {
    hide Reconciled, Marked, Cleared;
    if step.Startup? {
      ReconcileKeepsAccounts(s.data, s.data.journal, step.deletes, step.clears, step.crash);
    }
  }

  /** An account that is not there comes back exactly through such a step: one that saves it puts
      it there, and if it is there later one of the steps in between has saved it. */
  lemma {:induction false} AccountComesBackOnlyIfSaved(h: System, steps: seq<Step>, g: System, id: AccountId) returns (n: nat)
    requires Run(h, steps) == Some(g) && id !in h.data.accounts && id in g.data.accounts
    ensures SavesAccountAt(h, steps, n, id)
    decreases |steps|
  {
    hide Next, Enabled, SavesAccount;
    var one := Next(h, steps[0]);
    OnlySavingBringsBack(h, steps[0], id);
    if id in one.data.accounts {
      n := 0;
      assert steps[..0] == [];
    } else {
      n := AccountComesBackOnlyIfSaved(one, steps[1..], g, id);
      n := n + 1;
      assert steps[..n][1..] == steps[1..][..n - 1] && steps[..n][0] == steps[0];
    }
  }
}
