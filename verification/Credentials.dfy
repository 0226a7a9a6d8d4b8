/** Account sessions in the credential store, the accounts they belong to, and the journal
    of commits under way. */
module Credentials {
  import opened Prelude

  type AccountId = string

  datatype Credential = Credential(key: string, signature: string)

  /** accounts are the saved ones; an empty journal is no journal file. */
  datatype State = State(store: map<AccountId, Credential>, accounts: set<AccountId>, journal: seq<AccountId>)

  datatype Outcome = Done | Failed | Crashed

  /** Which of the fallible calls succeed; a failed write changes nothing. */
  datatype Calls = Calls(get: bool, mark: bool, put: bool, save: bool, rollback: bool, clear: bool)

  function Marked(journal: seq<AccountId>, id: AccountId): seq<AccountId> {
    if id in journal then journal else journal + [id]
  }

  function Cleared(journal: seq<AccountId>, id: AccountId): (r: seq<AccountId>)
    ensures forall x :: x in r <==> x in journal && x != id
  {
    if journal == [] then []
    else if journal[0] == id then Cleared(journal[1..], id)
    else [journal[0]] + Cleared(journal[1..], id)
  }

  function RolledBack(store: map<AccountId, Credential>, before: map<AccountId, Credential>, id: AccountId): map<AccountId, Credential> {
    if id in before then store[id := before[id]] else store - {id}
  }

  function ClearedIf(s: State, id: AccountId, clears: bool): State {
    if clears then s.(journal := Cleared(s.journal, id)) else s
  }

  /** persistSession for the account id; the process dies after crash attempted writes. */
  function Committed(s: State, id: AccountId, credential: Credential, calls: Calls, crash: nat): (State, Outcome) {
    if !calls.get then (s, Failed)
    else if crash == 0 then (s, Crashed)
    else if !calls.mark then (s, Failed)
    else
      var marked := s.(journal := Marked(s.journal, id));
      if crash == 1 then (marked, Crashed)
      else if !calls.put then (if crash == 2 then marked else ClearedIf(marked, id, calls.clear), if crash == 2 then Crashed else Failed)
      else
        var stored := marked.(store := s.store[id := credential]);
        if crash == 2 then (stored, Crashed)
        else if !calls.save then Undone(stored, s.store, id, calls, crash)
        else
          var saved := stored.(accounts := s.accounts + {id});
          if crash == 3 then (saved, Crashed) else (ClearedIf(saved, id, calls.clear), Done)
  }

  /** The account could not be saved. */
  function Undone(stored: State, before: map<AccountId, Credential>, id: AccountId, calls: Calls, crash: nat): (State, Outcome) {
    if crash == 3 then (stored, Crashed)
    else
      var undone := if calls.rollback then stored.(store := RolledBack(stored.store, before, id)) else stored;
      if crash == 4 then (undone, Crashed) else (ClearedIf(undone, id, calls.clear), Failed)
  }

  /** RemoveAccount: the session goes first, and comes back if the account cannot go. */
  function Removed(s: State, id: AccountId, calls: Calls, crash: nat): (State, Outcome) {
    if id !in s.accounts || !calls.get then (s, Failed)
    else if crash == 0 then (s, Crashed)
    else if !calls.put then (s, Failed)
    else
      var without := s.(store := s.store - {id});
      if crash == 1 then (without, Crashed)
      else if !calls.save then
        (if crash > 2 && id in s.store && calls.rollback then s else without, if crash > 2 then Failed else Crashed)
      else (without.(accounts := s.accounts - {id}), if crash == 2 then Crashed else Done)
  }

  /** ReconcilePending: sessions of unknown accounts in the journal go, then the journal. */
  function Reconciled(s: State, ids: seq<AccountId>, deletes: AccountId -> bool, clears: bool, crash: nat): (State, Outcome)
    decreases |ids|
  {
    if crash == 0 then (s, Crashed)
    else if ids == [] then (if clears then s.(journal := []) else s, if clears then Done else Failed)
    else if ids[0] in s.accounts then Reconciled(s, ids[1..], deletes, clears, crash)
    else if !deletes(ids[0]) then (s, Failed)
    else Reconciled(s.(store := s.store - {ids[0]}), ids[1..], deletes, clears, crash - 1)
  }

  class AccountService {
    var store: map<AccountId, Credential>
    var accounts: set<AccountId>
    var journal: seq<AccountId>

    ghost function View(): State
      reads this
    {
      State(store, accounts, journal)
    }

    method MarkPending(id: AccountId)
      modifies this`journal
      ensures journal == Marked(old(journal), id)
    {
      for i := 0 to |journal|
        invariant journal == old(journal) && id !in journal[..i]
      {
        if journal[i] == id {
          return;
        }
      }
      journal := journal + [id];
    }

    method ClearPending(id: AccountId, clears: bool)
      modifies this`journal
      ensures journal == if clears then Cleared(old(journal), id) else old(journal)
    {
      if clears {
        var filtered: seq<AccountId> := [];
        assert journal[0..] == journal;
        for i := 0 to |journal|
          invariant journal == old(journal)
          invariant filtered + Cleared(journal[i..], id) == Cleared(journal, id)
        {
          assert journal[i..][0] == journal[i] && journal[i..][1..] == journal[i + 1..];
          if journal[i] != id {
            filtered := filtered + [journal[i]];
          }
        }
        journal := filtered;
      }
    }

    method PersistSession(id: AccountId, credential: Credential, calls: Calls, crash: nat) returns (outcome: Outcome)
      modifies this
      ensures (View(), outcome) == Committed(old(View()), id, credential, calls, crash)
      ensures (View(), outcome) == Performed(old(View()), Persist(id, credential, calls, crash))
      ensures outcome.Done? <==> calls.get && calls.mark && calls.put && calls.save && crash > 3
      ensures outcome.Crashed? <==>
                calls.get && crash < if !calls.mark then 1 else if !calls.put then 3 else if calls.save then 4 else 5
      ensures outcome.Done? ==> id in accounts && Get(store, id) == Some(credential) && (calls.clear ==> id !in journal)
      ensures outcome.Failed? && calls.rollback ==> store == old(store) && accounts == old(accounts)
      ensures forall other :: other != id ==> Get(store, other) == Get(old(store), other)
      ensures forall other :: other != id ==> (other in accounts <==> other in old(accounts)) && (other in journal <==> other in old(journal))
    {
      RollbackRestores(View(), id, credential);
      if !calls.get {
        return Failed;
      }
      if crash == 0 {
        return Crashed;
      }
      if !calls.mark {
        return Failed;
      }
      var previous := store;
      MarkPending(id);
      if crash == 1 {
        return Crashed;
      }
      if calls.put {
        store := store[id := credential];
      }
      if crash == 2 {
        return Crashed;
      }
      if !calls.put {
        ClearPending(id, calls.clear);
        return Failed;
      }
      if !calls.save {
        if crash == 3 {
          return Crashed;
        }
        if calls.rollback {
          store := if id in previous then store[id := previous[id]] else store - {id};
        }
        if crash == 4 {
          return Crashed;
        }
        ClearPending(id, calls.clear);
        return Failed;
      }
      accounts := accounts + {id};
      if crash == 3 {
        return Crashed;
      }
      ClearPending(id, calls.clear);
      return Done;
    }

    method RemoveAccount(id: AccountId, calls: Calls, crash: nat) returns (outcome: Outcome)
      modifies this
      ensures (View(), outcome) == Removed(old(View()), id, calls, crash)
      ensures (View(), outcome) == Performed(old(View()), Remove(id, calls, crash))
      ensures outcome.Done? <==> id in old(accounts) && calls.get && calls.put && calls.save && crash > 2
      ensures outcome.Crashed? <==> id in old(accounts) && calls.get && crash < if calls.put then 3 else 1
      ensures outcome.Done? ==> accounts == old(accounts) - {id} && store == old(store) - {id}
      ensures outcome.Failed? && calls.rollback ==> store == old(store) && accounts == old(accounts)
      ensures forall other :: other != id ==> Get(store, other) == Get(old(store), other)
      ensures journal == old(journal)
    {
      if id !in accounts || !calls.get {
        return Failed;
      }
      if crash == 0 {
        return Crashed;
      }
      if !calls.put {
        return Failed;
      }
      var previous := Get(store, id);
      store := store - {id};
      if crash == 1 {
        return Crashed;
      }
      if !calls.save {
        if crash == 2 {
          return Crashed;
        }
        if previous.Some? && calls.rollback {
          store := store[id := previous.value];
          assert store == old(store);
        }
        return Failed;
      }
      accounts := accounts - {id};
      return if crash == 2 then Crashed else Done;
    }

    /** LogOutLocally: the session goes, the account stays. */
    method LogOut(id: AccountId, deletes: bool) returns (outcome: Outcome)
      modifies this
      ensures (View(), outcome) == Performed(old(View()), Call.LogOut(id, deletes))
      ensures outcome == if id in old(accounts) && deletes then Done else Failed
      ensures store == (if outcome.Done? then old(store) - {id} else old(store)) && accounts == old(accounts) && journal == old(journal)
    {
      if id !in accounts || !deletes {
        return Failed;
      }
      store := store - {id};
      return Done;
    }

    method ReconcilePending(deletes: AccountId -> bool, clears: bool, crash: nat) returns (outcome: Outcome)
      modifies this
      ensures (View(), outcome) == Reconciled(old(View()), old(journal), deletes, clears, crash)
      ensures (View(), outcome) == Performed(old(View()), Reconcile(deletes, clears, crash))
      ensures accounts == old(accounts) && forall id :: id in accounts || id !in old(journal) ==> Get(store, id) == Get(old(store), id)
      ensures outcome.Done? ==> journal == [] && forall id :: id in old(journal) && id !in accounts ==> id !in store
      ensures (forall id :: id in old(journal) ==> deletes(id)) && clears && crash > |old(journal)| ==> outcome.Done?
    {
      var left, ids := crash, journal;
      assert ids[0..] == ids;
      for i := 0 to |ids|
        invariant journal == ids && accounts == old(accounts) && 0 <= left <= crash
        invariant Reconciled(old(View()), ids, deletes, clears, crash) == Reconciled(View(), ids[i..], deletes, clears, left)
        invariant left >= crash - i
        invariant forall id :: id in accounts || id !in ids ==> Get(store, id) == Get(old(store), id)
        invariant forall j :: 0 <= j < i && ids[j] !in accounts ==> ids[j] !in store
      {
        assert ids[i..][0] == ids[i] && ids[i..][1..] == ids[i + 1..];
        if left == 0 {
          return Crashed;
        }
        if ids[i] in accounts {
          continue;
        }
        if !deletes(ids[i]) {
          return Failed;
        }
        store := store - {ids[i]};
        left := left - 1;
      }
      if left == 0 {
        return Crashed;
      }
      if !clears {
        return Failed;
      }
      journal := [];
      return Done;
    }
  }

  lemma RollbackRestores(s: State, id: AccountId, credential: Credential)
    ensures RolledBack(s.store[id := credential], s.store, id) == s.store
  {
  }

  // ---- What every history keeps

  /** Every stored session belongs to a saved account or is in the journal. */
  predicate Covered(s: State) {
    forall id :: id in s.store ==> id in s.accounts || id in s.journal
  }

  /** The one way to lose track of a session: it is not one of a saved account, it is
      still in the store when the commit has failed, and its journal entry is cleared all the
      same. For a new account that takes a rollback that fails. */
  predicate Forgets(s: State, id: AccountId, calls: Calls, crash: nat) {
    && id !in s.accounts && calls.get && calls.mark && calls.clear
    && (if calls.put then !calls.save && (!calls.rollback || id in s.store) && crash > 4 else id in s.store && crash > 2)
  }

  /** A commit that dies or fails at any step keeps every session accounted for, exactly
      unless it forgets one. */
  lemma CommitKeepsCoverIff(s: State, id: AccountId, credential: Credential, calls: Calls, crash: nat)
    requires Covered(s)
    ensures Covered(Committed(s, id, credential, calls, crash).0) <==> !Forgets(s, id, calls, crash)
  {
    var t := Committed(s, id, credential, calls, crash).0;
    if Forgets(s, id, calls, crash) {
      assert id in t.store && id !in t.accounts && id !in t.journal;
    }
  }

  lemma RemovalKeepsCover(s: State, id: AccountId, calls: Calls, crash: nat)
    requires Covered(s)
    ensures Covered(Removed(s, id, calls, crash).0)
  {
  }

  lemma {:induction false} ReconcileKeepsCover(s: State, ids: seq<AccountId>, deletes: AccountId -> bool, clears: bool, crash: nat)
    requires Covered(s) && (forall id :: id in s.journal && id in s.store && id !in s.accounts ==> id in ids)
    ensures var (t, outcome) := Reconciled(s, ids, deletes, clears, crash);
            && Covered(t)
            && t.accounts == s.accounts
            && (outcome.Done? ==> t.journal == [] && t.store.Keys <= t.accounts)
            && (forall id :: id in s.accounts ==> Get(t.store, id) == Get(s.store, id))
    decreases |ids|
  {
    if crash > 0 && ids != [] {
      if ids[0] in s.accounts {
        ReconcileKeepsCover(s, ids[1..], deletes, clears, crash);
      } else if deletes(ids[0]) {
        ReconcileKeepsCover(s.(store := s.store - {ids[0]}), ids[1..], deletes, clears, crash - 1);
      }
    }
  }

  // ---- Histories

  datatype Call =
    | Persist(id: AccountId, credential: Credential, calls: Calls, crash: nat)
    | Remove(id: AccountId, calls: Calls, crash: nat)
    | LogOut(id: AccountId, deleted: bool)
    | Reconcile(deletes: AccountId -> bool, clears: bool, crash: nat)

  function Performed(s: State, call: Call): (State, Outcome) {
    match call
    case Persist(id, credential, calls, crash) => Committed(s, id, credential, calls, crash)
    case Remove(id, calls, crash) => Removed(s, id, calls, crash)
    case LogOut(id, deleted) =>
      if id !in s.accounts || !deleted then (s, Failed) else (s.(store := s.store - {id}), Done)
    case Reconcile(deletes, clears, crash) => Reconciled(s, s.journal, deletes, clears, crash)
  }

  predicate Careful(s: State, call: Call) {
    call.Persist? ==> !Forgets(s, call.id, call.calls, call.crash)
  }

  function Replayed(s: State, history: seq<Call>): State
    decreases |history|
  {
    if history == [] then s else Replayed(Performed(s, history[0]).0, history[1..])
  }

  predicate AllCareful(s: State, history: seq<Call>)
    decreases |history|
  {
    history != [] ==> Careful(s, history[0]) && AllCareful(Performed(s, history[0]).0, history[1..])
  }

  /** Over any history of logins, removals, logouts and restarts, each stopped at any step:
      as long as no commit forgets its session every stored session is accounted for, and a
      reconciliation that finishes leaves sessions of saved accounts only, untouched. */
  lemma {:induction false} SessionsAreAccountedFor(history: seq<Call>, s: State, deletes: AccountId -> bool, clears: bool, crash: nat)
    requires Covered(s) && AllCareful(s, history)
    ensures Covered(Replayed(s, history))
    ensures var t := Replayed(s, history);
            var (u, outcome) := Performed(t, Reconcile(deletes, clears, crash));
            && (outcome.Done? ==> u.store.Keys <= u.accounts && u.journal == [])
            && (forall id :: id in t.accounts ==> Get(u.store, id) == Get(t.store, id))
    decreases |history|
  {
    if history == [] {
      ReconcileKeepsCover(s, s.journal, deletes, clears, crash);
    } else {
      match history[0] {
        case Persist(id, credential, calls, at) => CommitKeepsCoverIff(s, id, credential, calls, at);
        case Remove(id, calls, at) => RemovalKeepsCover(s, id, calls, at);
        case LogOut(_, _) =>
        case Reconcile(ds, cs, at) => ReconcileKeepsCover(s, s.journal, ds, cs, at);
      }
      SessionsAreAccountedFor(history[1..], Performed(s, history[0]).0, deletes, clears, crash);
    }
  }
}
