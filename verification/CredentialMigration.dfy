/** Moving sessions from the legacy plaintext file into the credential store. */
module CredentialMigration {
  import opened Prelude
  import opened Credentials

  type Secrets = map<AccountId, Credential>

  /** The legacy file: gone, as it was written, or half erased. */
  datatype LegacyFile = Absent | Intact(secrets: Secrets) | Damaged

  datatype Status = NoStatus | Blocked | RetryRequired | CleanupRequired | Complete

  datatype Migration = Migration(file: LegacyFile, store: Secrets, status: Status)

  /** Which of the fallible events succeed: reading the file, storing and reading back each
      secret, writing the status down, and how far the erasure gets: it is not opened, fails
      half way, is cut off there by a crash, or ends. */
  datatype Erasure = NotOpened | HalfWay | CutOff | Whole

  datatype Events = Events(read: bool, stored: AccountId -> bool, readBack: AccountId -> bool, noted: bool, erasure: Erasure)

  function Noted(before: Status, status: Status, events: Events): Status {
    if events.noted then status else before
  }

  /** The imports, in some order; the process dies after crash of them. */
  function Imported(store: Secrets, secrets: Secrets, order: seq<AccountId>, events: Events, crash: nat): (Secrets, Outcome)
    requires forall id :: id in order ==> id in secrets
    decreases |order|
  {
    if order == [] then (store, Done)
    else if crash == 0 then (store, Crashed)
    else
      var id := order[0];
      if !events.stored(id) then (store, Failed)
      else
        var stored := store[id := secrets[id]];
        if !events.readBack(id) then (stored, Failed)
        else Imported(stored, secrets, order[1..], events, crash - 1)
  }

  predicate IsOrder(order: seq<AccountId>, secrets: Secrets) {
    (forall id :: id in order ==> id in secrets) && (forall id :: id in secrets ==> id in order)
  }

  class Migrator {
    var file: LegacyFile
    var store: Secrets
    var status: Status

    ghost function View(): Migration
      reads this
    {
      Migration(file, store, status)
    }

    /** known are the saved accounts; order the iteration over the secrets of the file. */
    method Run(known: set<AccountId>, order: seq<AccountId>, events: Events, crash: nat) returns (outcome: Outcome)
      requires file.Intact? ==> IsOrder(order, file.secrets)
      modifies this
      ensures (View(), outcome) == Migrated(old(View()), known, order, events, crash)
    {
      if file.Absent? {
        return Done;
      }
      if !events.read || file.Damaged? {
        status := Noted(status, Blocked, events);
        return Failed;
      }
      var secrets := file.secrets;
      for i := 0 to |order|
        invariant file == old(file) && store == old(store) && status == old(status)
        invariant forall j :: 0 <= j < i ==> order[j] in known
      {
        if order[i] !in known {
          status := Noted(status, Blocked, events);
          return Failed;
        }
      }
      ghost var start, result := store, Imported(store, secrets, order, events, crash);
      var left := crash;
      assert order[0..] == order;
      for i := 0 to |order|
        invariant file == old(file) && status == old(status) && 0 <= left <= crash
        invariant result == Imported(store, secrets, order[i..], events, left)
      {
        var id := order[i];
        assert id in order;
        assert order[i..][0] == id && order[i..][1..] == order[i + 1..];
        if left == 0 {
          return Crashed;
        }
        left := left - 1;
        if !events.stored(id) {
          status := Noted(status, RetryRequired, events);
          return Failed;
        }
        store := store[id := secrets[id]];
        if !events.readBack(id) {
          status := Noted(status, RetryRequired, events);
          return Failed;
        }
      }
      if events.erasure.NotOpened? {
        status := Noted(status, CleanupRequired, events);
        return Failed;
      }
      file := Damaged;
      if events.erasure.CutOff? {
        return Crashed;
      }
      if events.erasure.HalfWay? {
        status := Noted(status, CleanupRequired, events);
        return Failed;
      }
      file, status := Absent, Noted(status, Complete, events);
      return if events.noted then Done else Failed;
    }
  }

  function Migrated(s: Migration, known: set<AccountId>, order: seq<AccountId>, events: Events, crash: nat): (Migration, Outcome)
    requires s.file.Intact? ==> IsOrder(order, s.file.secrets)
  {
    if s.file.Absent? then (s, Done)
    else if !events.read || s.file.Damaged? || !(s.file.secrets.Keys <= known) then (s.(status := Noted(s.status, Blocked, events)), Failed)
    else
      var (store, outcome) := Imported(s.store, s.file.secrets, order, events, crash);
      if outcome.Crashed? then (s.(store := store), Crashed)
      else if outcome.Failed? then (s.(store := store, status := Noted(s.status, RetryRequired, events)), Failed)
      else match events.erasure
        case NotOpened => (Migration(s.file, store, Noted(s.status, CleanupRequired, events)), Failed)
        case HalfWay => (Migration(Damaged, store, Noted(s.status, CleanupRequired, events)), Failed)
        case CutOff => (Migration(Damaged, store, s.status), Crashed)
        case Whole => (Migration(Absent, store, Noted(s.status, Complete, events)), if events.noted then Done else Failed)
  }

  // ---- No secret is lost

  /** The secret is where it was, or in the store. */
  predicate Kept(s: Migration, secrets: Secrets) {
    s.file == Intact(secrets) || forall id :: id in secrets ==> Get(s.store, id) == Some(secrets[id])
  }

  lemma {:induction false} ImportStores(store: Secrets, secrets: Secrets, order: seq<AccountId>, events: Events, crash: nat)
    requires forall id :: id in order ==> id in secrets
    ensures var (after, outcome) := Imported(store, secrets, order, events, crash);
            && (forall id :: Get(after, id) == Get(store, id) || (id in secrets && Get(after, id) == Some(secrets[id])))
            && (outcome.Done? ==> forall id :: id in order ==> Get(after, id) == Some(secrets[id]))
            && (forall id :: id !in order ==> Get(after, id) == Get(store, id))
    decreases |order|
  {
    if order != [] && crash > 0 && events.stored(order[0]) && events.readBack(order[0]) {
      var rest := order[1..];
      assert forall id :: id in order <==> id == order[0] || id in rest;
      ImportStores(store[order[0] := secrets[order[0]]], secrets, rest, events, crash - 1);
    }
  }

  /** Whatever fails and wherever the process dies, every legacy secret is in the source
      file or in the store; a migration that finishes has stored exactly those secrets and
      removed the file. */
  lemma MigrationLosesNothing(s: Migration, secrets: Secrets, known: set<AccountId>, order: seq<AccountId>, events: Events, crash: nat)
    requires Kept(s, secrets) && (s.file.Intact? ==> s.file.secrets == secrets && IsOrder(order, secrets))
    ensures var (t, outcome) := Migrated(s, known, order, events, crash);
            && Kept(t, secrets)
            && (t.file == Intact(secrets) || forall id :: id in secrets ==> Get(t.store, id) == Some(secrets[id]))
            && (t.file.Intact? ==> t.file.secrets == secrets)
            && (forall id :: id !in secrets ==> Get(t.store, id) == Get(s.store, id))
            && (outcome.Done? && s.file.Intact? ==>
                  t.file.Absent? && forall id :: id in secrets ==> Get(t.store, id) == Some(secrets[id]))
  {
    if s.file.Intact? {
      ImportStores(s.store, secrets, order, events, crash);
      var imported := Imported(s.store, secrets, order, events, crash);
      var t := Migrated(s, known, order, events, crash).0;
      if imported.1.Done? && secrets.Keys <= known && events.read {
        forall id | id in secrets
          ensures Get(t.store, id) == Some(secrets[id])
        {
          assert id in order;
        }
      } else {
        assert t.file == s.file;
      }
    } else {
      assert Migrated(s, known, order, events, crash).0.store == s.store;
    }
  }

  datatype Attempt = Attempt(known: set<AccountId>, order: seq<AccountId>, events: Events, crash: nat)

  function Attempted(s: Migration, attempts: seq<Attempt>): Migration
    decreases |attempts|
  {
    if attempts == [] then s
    else
      var a := attempts[0];
      if s.file.Intact? && !IsOrder(a.order, s.file.secrets) then s
      else Attempted(Migrated(s, a.known, a.order, a.events, a.crash).0, attempts[1..])
  }

  /** Over any number of restarts. */
  lemma {:induction false} SecretsSurvive(s: Migration, secrets: Secrets, attempts: seq<Attempt>)
    requires Kept(s, secrets) && (s.file.Intact? ==> s.file.secrets == secrets)
    ensures Kept(Attempted(s, attempts), secrets)
    ensures var t := Attempted(s, attempts);
            t.file == Intact(secrets) || forall id :: id in secrets ==> Get(t.store, id) == Some(secrets[id])
    decreases |attempts|
  {
    if attempts != [] {
      var a := attempts[0];
      if !(s.file.Intact? && !IsOrder(a.order, s.file.secrets)) {
        MigrationLosesNothing(s, secrets, a.known, a.order, a.events, a.crash);
        SecretsSurvive(Migrated(s, a.known, a.order, a.events, a.crash).0, secrets, attempts[1..]);
      }
    }
  }

  // ---- What a retry does to the sessions in the store

  /** The run gets as far as storing the nth entry: nothing before it failed or was cut off. */
  predicate Reaches(order: seq<AccountId>, events: Events, crash: nat, n: int) {
    && 0 <= n < |order| && n < crash && events.stored(order[n])
    && forall j :: 0 <= j < n ==> events.stored(order[j]) && events.readBack(order[j])
  }

  predicate ReachesAccount(order: seq<AccountId>, events: Events, crash: nat, id: AccountId) {
    exists n :: 0 <= n < |order| && Reaches(order, events, crash, n) && order[n] == id
  }

  lemma ReachesRest(order: seq<AccountId>, events: Events, crash: nat, n: nat)
    requires |order| > n + 1 && crash > 0 && events.stored(order[0]) && events.readBack(order[0])
    ensures Reaches(order, events, crash, n + 1) <==> Reaches(order[1..], events, crash - 1, n)
  {
    var rest := order[1..];
    assert forall j :: 0 <= j < |rest| ==> rest[j] == order[j + 1];
    if Reaches(rest, events, crash - 1, n) {
      forall j | 0 <= j < n + 1
        ensures events.stored(order[j]) && events.readBack(order[j])
      {
        if j > 0 { assert events.stored(rest[j - 1]) && events.readBack(rest[j - 1]); }
      }
    }
    if Reaches(order, events, crash, n + 1) {
      forall j | 0 <= j < n
        ensures events.stored(rest[j]) && events.readBack(rest[j])
      {
        assert events.stored(order[j + 1]) && events.readBack(order[j + 1]);
      }
    }
  }

  lemma {:induction false} ImportReplaces(store: Secrets, secrets: Secrets, order: seq<AccountId>, events: Events, crash: nat, id: AccountId)
    requires forall k :: k in order ==> k in secrets
    ensures Get(Imported(store, secrets, order, events, crash).0, id) ==
            if ReachesAccount(order, events, crash, id) then Some(secrets[id]) else Get(store, id)
    decreases |order|
  {
    if order != [] && crash > 0 && events.stored(order[0]) {
      var first, rest := order[0], order[1..];
      assert Reaches(order, events, crash, 0);
      if events.readBack(first) {
        ImportReplaces(store[first := secrets[first]], secrets, rest, events, crash - 1, id);
        if ReachesAccount(rest, events, crash - 1, id) {
          var n :| 0 <= n < |rest| && Reaches(rest, events, crash - 1, n) && rest[n] == id;
          ReachesRest(order, events, crash, n);
        } else if ReachesAccount(order, events, crash, id) {
          var n :| 0 <= n < |order| && Reaches(order, events, crash, n) && order[n] == id;
          if n > 0 { ReachesRest(order, events, crash, n - 1); }
        }
      } else {
        assert forall n :: Reaches(order, events, crash, n) ==> n == 0;
      }
    }
  }

  /** The file is there, can be read and names saved accounts only. */
  predicate Imports(s: Migration, known: set<AccountId>, events: Events) {
    s.file.Intact? && events.read && s.file.secrets.Keys <= known
  }

  /** A run leaves the session of an account as it was exactly when it imports nothing, or
      stops before it gets to that account, or the file has that very session. */
  lemma SessionIsKeptIff(s: Migration, known: set<AccountId>, order: seq<AccountId>, events: Events, crash: nat, id: AccountId)
    requires s.file.Intact? ==> IsOrder(order, s.file.secrets)
    ensures Get(Migrated(s, known, order, events, crash).0.store, id) == Get(s.store, id) <==>
            || !Imports(s, known, events)
            || !ReachesAccount(order, events, crash, id)
            || Get(s.store, id) == Some(s.file.secrets[id])
  {
    if Imports(s, known, events) {
      ImportReplaces(s.store, s.file.secrets, order, events, crash, id);
    }
  }

  /** A run leaves every stored session as it was exactly when it imports nothing, or every
      entry it stores before it stops equals the stored session. */
  lemma SessionsAreKeptIff(s: Migration, known: set<AccountId>, order: seq<AccountId>, events: Events, crash: nat)
    requires s.file.Intact? ==> IsOrder(order, s.file.secrets)
    ensures Migrated(s, known, order, events, crash).0.store == s.store <==>
            || !Imports(s, known, events)
            || forall n :: Reaches(order, events, crash, n) ==> Get(s.store, order[n]) == Some(s.file.secrets[order[n]])
  {
    var after := Migrated(s, known, order, events, crash).0.store;
    forall id
      ensures Get(after, id) == Get(s.store, id) <==>
              || !Imports(s, known, events)
              || !ReachesAccount(order, events, crash, id)
              || Get(s.store, id) == Some(s.file.secrets[id])
    {
      SessionIsKeptIff(s, known, order, events, crash, id);
    }
    if !Imports(s, known, events)
       || forall n :: Reaches(order, events, crash, n) ==> Get(s.store, order[n]) == Some(s.file.secrets[order[n]]) {
      forall id
        ensures Get(after, id) == Get(s.store, id)
      {}
      MapsAgree(after, s.store);
    } else {
      var n :| Reaches(order, events, crash, n) && Get(s.store, order[n]) != Some(s.file.secrets[order[n]]);
      assert ReachesAccount(order, events, crash, order[n]);
      assert Get(after, order[n]) != Get(s.store, order[n]);
    }
  }

  /** The nth entry is where the import fails: it cannot be stored, or not read back. */
  predicate FailsAt(order: seq<AccountId>, events: Events, crash: nat, n: int) {
    && 0 <= n < |order| && n < crash && !GoesIn(events, order[n])
    && forall j :: 0 <= j < n ==> GoesIn(events, order[j])
  }

  predicate GoesIn(events: Events, id: AccountId) {
    events.stored(id) && events.readBack(id)
  }

  predicate AllComeIn(order: seq<AccountId>, events: Events, crash: nat) {
    |order| <= crash && forall j :: 0 <= j < |order| ==> GoesIn(events, order[j])
  }

  predicate SomeFails(order: seq<AccountId>, events: Events, crash: nat) {
    exists n :: 0 <= n < |order| && FailsAt(order, events, crash, n)
  }

  lemma ShiftedFailure(order: seq<AccountId>, events: Events, crash: nat, n: int)
    requires 0 <= n < |order| - 1 && crash > 0 && GoesIn(events, order[0])
    ensures FailsAt(order[1..], events, crash - 1, n) <==> FailsAt(order, events, crash, n + 1)
  {
    hide GoesIn;
    var rest := order[1..];
    if FailsAt(rest, events, crash - 1, n) {
      forall j | 0 <= j < n + 1
        ensures GoesIn(events, order[j])
      {
        if j > 0 { assert GoesIn(events, rest[j - 1]); }
      }
    }
    if FailsAt(order, events, crash, n + 1) {
      forall j | 0 <= j < n
        ensures GoesIn(events, rest[j])
      {
        assert GoesIn(events, order[j + 1]);
      }
    }
  }

  lemma FailsLater(order: seq<AccountId>, events: Events, crash: nat)
    requires order != [] && crash > 0 && events.stored(order[0]) && events.readBack(order[0])
    ensures SomeFails(order[1..], events, crash - 1) <==> SomeFails(order, events, crash)
    ensures AllComeIn(order[1..], events, crash - 1) <==> AllComeIn(order, events, crash)
  {
    var rest := order[1..];
    if SomeFails(rest, events, crash - 1) {
      var n :| 0 <= n < |rest| && FailsAt(rest, events, crash - 1, n);
      ShiftedFailure(order, events, crash, n);
      assert FailsAt(order, events, crash, n + 1);
    }
    if SomeFails(order, events, crash) {
      var n :| 0 <= n < |order| && FailsAt(order, events, crash, n);
      ShiftedFailure(order, events, crash, n - 1);
      assert FailsAt(rest, events, crash - 1, n - 1);
    }
    if AllComeIn(order, events, crash) {
      forall j | 0 <= j < |rest|
        ensures GoesIn(events, rest[j])
      {
        assert GoesIn(events, order[j + 1]);
      }
    }
    if AllComeIn(rest, events, crash - 1) {
      forall j | 0 <= j < |order|
        ensures GoesIn(events, order[j])
      {
        if j > 0 { assert GoesIn(events, rest[j - 1]); }
      }
    }
  }

  lemma {:induction false} HowImportsEnd(store: Secrets, secrets: Secrets, order: seq<AccountId>, events: Events, crash: nat)
    requires forall k :: k in order ==> k in secrets
    ensures var outcome := Imported(store, secrets, order, events, crash).1;
            (outcome.Done? <==> AllComeIn(order, events, crash)) && (outcome.Failed? <==> SomeFails(order, events, crash))
    decreases |order|
  {
    if order != [] && crash > 0 {
      if events.stored(order[0]) && events.readBack(order[0]) {
        FailsLater(order, events, crash);
        HowImportsEnd(store[order[0] := secrets[order[0]]], secrets, order[1..], events, crash - 1);
      } else {
        assert FailsAt(order, events, crash, 0);
      }
    }
  }

  /** The status that a run with a legacy file leaves, if it gets to write it down: blocked
      exactly if nothing could be imported, retry if an entry failed, cleanup if only the
      erasure did, and complete if all went through. A crash leaves the status as it was. */
  lemma StatusTellsHowItEnded(s: Migration, known: set<AccountId>, order: seq<AccountId>, events: Events, crash: nat)
    requires s.file.Intact? ==> IsOrder(order, s.file.secrets)
    ensures var (t, outcome) := Migrated(s, known, order, events, crash);
            && (s.file.Absent? || outcome.Crashed? || !events.noted ==> t.status == s.status)
            && (!s.file.Absent? && !outcome.Crashed? && events.noted ==>
                  && (t.status == Blocked <==> !Imports(s, known, events))
                  && (t.status == RetryRequired <==> Imports(s, known, events) && SomeFails(order, events, crash))
                  && (t.status == CleanupRequired <==>
                      Imports(s, known, events) && AllComeIn(order, events, crash) && events.erasure in {NotOpened, HalfWay})
                  && (t.status == Complete <==>
                      Imports(s, known, events) && AllComeIn(order, events, crash) && events.erasure == Whole)
                  && (t.status == Complete <==> outcome.Done?))
            && (if Imports(s, known, events) && AllComeIn(order, events, crash)
                then
                  && (events.erasure == NotOpened ==> t.file == s.file && outcome.Failed?)
                  && (events.erasure == HalfWay ==> t.file == Damaged && outcome.Failed?)
                  && (events.erasure == CutOff ==> t.file == Damaged && outcome.Crashed?)
                  && (events.erasure == Whole ==> t.file == Absent)
                else t.file == s.file)
  {
    if s.file.Intact? {
      HowImportsEnd(s.store, s.file.secrets, order, events, crash);
    }
  }

  /** The other side of retrying: as long as the file could not be removed, every restart
      stores its secrets again, over a session that a login has saved meanwhile. */
  lemma RetryReplacesNewerSession(secrets: Secrets, id: AccountId, newer: Credential, order: seq<AccountId>, status: Status)
    requires id in secrets && secrets[id] != newer && IsOrder(order, secrets)
    ensures var s := Migration(Intact(secrets), secrets[id := newer], status);
            var events := Events(true, _ => true, _ => true, true, Whole);
            var (t, outcome) := Migrated(s, secrets.Keys, order, events, |order|);
            outcome.Done? && t.store == secrets
  {
    var events := Events(true, _ => true, _ => true, true, Whole);
    EveryImportSucceeds(secrets[id := newer], secrets, order, events, |order|);
    ImportStores(secrets[id := newer], secrets, order, events, |order|);
    var after := Imported(secrets[id := newer], secrets, order, events, |order|).0;
    forall k
      ensures Get(after, k) == Get(secrets, k)
    {
    }
    MapsAgree(after, secrets);
  }

  lemma {:induction false} EveryImportSucceeds(store: Secrets, secrets: Secrets, order: seq<AccountId>, events: Events, crash: nat)
    requires (forall id :: id in order ==> id in secrets) && crash >= |order|
    requires forall id :: events.stored(id) && events.readBack(id)
    ensures Imported(store, secrets, order, events, crash).1.Done?
    decreases |order|
  {
    if order != [] {
      EveryImportSucceeds(store[order[0] := secrets[order[0]]], secrets, order[1..], events, crash - 1);
    }
  }
}
