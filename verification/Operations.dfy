/** Keyed background operations: the manager's critical sections and the lifecycle that
    owns the goroutines. */
module Operations {
  import opened Prelude

  type OpId = nat
  type Key = string

  /** bound: the worker has put its own cancel function in the entry. */
  datatype Entry = Entry(key: Key, active: bool, cancelRequested: bool, bound: bool)

  datatype Book = Book(active: map<Key, OpId>, workers: map<OpId, Entry>)

  function Reserved(b: Book, id: OpId, key: Key): Option<Book> {
    if key == "" then Some(b)
    else if key in b.active then None
    else Some(b.(active := b.active[key := id]))
  }

  function Registered(b: Book, id: OpId, key: Key): Book {
    b.(workers := b.workers[id := Entry(key, true, false, false)])
  }

  function Withdrawn(b: Book, id: OpId, key: Key): Book {
    Book(b.active - {key}, b.workers - {id})
  }

  function KeyFreed(b: Book, id: OpId, key: Key): Book {
    if key != "" && key in b.active && b.active[key] == id then b.(active := b.active - {key}) else b
  }

  function WorkerBegun(b: Book, id: OpId, key: Key): Book {
    if id in b.workers then b.(workers := b.workers[id := b.workers[id].(bound := true)]) else KeyFreed(b, id, key)
  }

  function WorkerEnded(b: Book, id: OpId, key: Key): Book {
    var marked := if id in b.workers then b.(workers := b.workers[id := b.workers[id].(active := false)]) else b;
    KeyFreed(marked, id, key)
  }

  predicate Cancellable(b: Book, id: OpId) {
    id in b.workers && b.workers[id].active
  }

  function CancelAsked(b: Book, id: OpId): Book {
    if Cancellable(b, id) then b.(workers := b.workers[id := b.workers[id].(cancelRequested := true)]) else b
  }

  function Forgotten(b: Book, id: OpId): Book {
    b.(workers := b.workers - {id})
  }

  function ClearedOut(b: Book): Book {
    b.(workers := map id | id in b.workers && b.workers[id].active :: b.workers[id])
  }

  class Manager {
    var active: map<Key, OpId>
    var workers: map<OpId, Entry>

    ghost function View(): Book
      reads this
    {
      Book(active, workers)
    }

    method Reserve(id: OpId, key: Key) returns (ok: bool)
      modifies this
      ensures ok <==> Reserved(old(View()), id, key).Some?
      ensures View() == if ok then Reserved(old(View()), id, key).value else old(View())
      ensures ok <==> key == "" || key !in old(active)
      ensures active == (if ok && key != "" then old(active)[key := id] else old(active)) && workers == old(workers)
    {
      if key != "" {
        if key in active {
          return false;
        }
        active := active[key := id];
      }
      return true;
    }

    method Register(id: OpId, key: Key)
      modifies this
      ensures View() == Registered(old(View()), id, key)
      ensures active == old(active) && workers == old(workers)[id := Entry(key, true, false, false)]
    {
      workers := workers[id := Entry(key, true, false, false)];
    }

    /** Saving the operation failed. */
    method Unreserve(key: Key)
      modifies this
      ensures View() == Book(old(active) - {key}, old(workers))
    {
      active := active - {key};
    }

    /** The lifecycle did not take the worker. */
    method Withdraw(id: OpId, key: Key)
      modifies this
      ensures View() == Withdrawn(old(View()), id, key)
      ensures active == old(active) - {key} && workers == old(workers) - {id}
    {
      active := active - {key};
      workers := workers - {id};
    }

    /** Whether the worker body may run, and whether its context is cancelled at once. */
    method BeginWorker(id: OpId, key: Key) returns (runs: bool, cancelled: bool)
      modifies this
      ensures View() == WorkerBegun(old(View()), id, key)
      ensures runs <==> id in old(workers)
      ensures cancelled <==> runs && old(workers)[id].cancelRequested
      ensures runs ==> active == old(active) && workers == old(workers)[id := old(workers)[id].(bound := true)]
      ensures !runs ==> workers == old(workers)
      ensures !runs ==> active == if key != "" && Get(old(active), key) == Some(id) then old(active) - {key} else old(active)
    {
      if id !in workers {
        if key != "" && key in active && active[key] == id {
          active := active - {key};
        }
        return false, false;
      }
      workers := workers[id := workers[id].(bound := true)];
      return true, workers[id].cancelRequested;
    }

    method EndWorker(id: OpId, key: Key)
      modifies this
      ensures View() == WorkerEnded(old(View()), id, key)
      ensures workers == if id in old(workers) then old(workers)[id := old(workers)[id].(active := false)] else old(workers)
      ensures active == if key != "" && Get(old(active), key) == Some(id) then old(active) - {key} else old(active)
    {
      if id in workers {
        workers := workers[id := workers[id].(active := false)];
      }
      if key != "" && key in active && active[key] == id {
        active := active - {key};
      }
    }

    /** The locked part of Cancel; cancels is whether the worker's context is cancelled
        now rather than when the worker begins. */
    method RequestCancel(id: OpId) returns (accepted: bool, cancels: bool)
      modifies this
      ensures accepted <==> Cancellable(old(View()), id)
      ensures cancels <==> accepted && old(workers)[id].bound
      ensures View() == CancelAsked(old(View()), id)
      ensures accepted <==> id in old(workers) && old(workers)[id].active
      ensures active == old(active)
      ensures workers == if accepted then old(workers)[id := old(workers)[id].(cancelRequested := true)] else old(workers)
    {
      if id !in workers || !workers[id].active {
        return false, false;
      }
      workers := workers[id := workers[id].(cancelRequested := true)];
      return true, workers[id].bound;
    }

    method Delete(id: OpId)
      modifies this
      ensures View() == Forgotten(old(View()), id)
      ensures active == old(active) && workers == old(workers) - {id}
    {
      workers := workers - {id};
    }

    method Clear()
      modifies this
      ensures View() == ClearedOut(old(View()))
      ensures active == old(active)
      ensures forall id :: Get(workers, id) == if id in old(workers) && old(workers)[id].active then Some(old(workers)[id]) else None
    {
      var pending := workers.Keys;
      ghost var all := workers;
      while pending != {}
        invariant pending <= all.Keys && active == old(active)
        invariant workers == map id | id in all && (id in pending || all[id].active) :: all[id]
      {
        var id :| id in pending;
        if !workers[id].active {
          workers := workers - {id};
        }
        pending := pending - {id};
      }
    }
  }

  // ---- The lifecycle

  datatype Life = Life(started: bool, stopping: bool, count: int)

  predicate Accepts(l: Life) {
    l.started && !l.stopping
  }

  class Lifecycle {
    var started: bool
    var stopping: bool
    var workers: int

    ghost function View(): Life
      reads this
    {
      Life(started, stopping, workers)
    }

    constructor ()
      ensures View() == Life(false, false, 0)
    {
      started, stopping, workers := false, false, 0;
    }

    method Startup()
      modifies this
      ensures View() == if old(started) || old(stopping) then old(View()) else old(View()).(started := true)
    {
      if started || stopping {
        return;
      }
      started := true;
    }

    method Go() returns (ok: bool)
      modifies this
      ensures ok <==> Accepts(old(View()))
      ensures ok <==> old(started) && !old(stopping)
      ensures View() == if ok then old(View()).(count := old(workers) + 1) else old(View())
    {
      if !started || stopping {
        return false;
      }
      workers := workers + 1;
      return true;
    }

    method Done()
      modifies this
      ensures View() == old(View()).(count := old(workers) - 1)
    {
      workers := workers - 1;
    }

    /** Shutdown up to its wait for the workers. */
    method BeginShutdown()
      modifies this
      ensures View() == old(View()).(stopping := true)
    {
      stopping := true;
    }
  }
}
