/** The busy slot of each instance and the registry of running games: the atomic steps
    that operations, restores and launches take on them. */
module InstanceSlots {
  import opened Prelude

  type InstanceId = string
  type Marker = string

  /** The marker that holds an instance, empty when it is free. */
  function Current(busy: map<InstanceId, Marker>, instance: InstanceId): Marker {
    if instance in busy then busy[instance] else ""
  }

  function Cleared(busy: map<InstanceId, Marker>, instance: InstanceId, marker: Marker): map<InstanceId, Marker> {
    if Current(busy, instance) == marker then busy - {instance} else busy
  }

  class Slot {
    var busy: map<InstanceId, Marker>

    constructor ()
      ensures busy == map[]
    {
      busy := map[];
    }

    /** The empty answer means that the slot was free and is now held by marker. */
    method TryAcquire(instance: InstanceId, marker: Marker) returns (holder: Marker)
      modifies this
      ensures holder == Current(old(busy), instance)
      ensures busy == if holder == "" then old(busy)[instance := marker] else old(busy)
    {
      holder := if instance in busy then busy[instance] else "";
      if holder != "" {
        return;
      }
      busy := busy[instance := marker];
    }

    method Release(instance: InstanceId, marker: Marker)
      modifies this
      ensures busy == Cleared(old(busy), instance, marker)
    {
      var held := if instance in busy then busy[instance] else "";
      if held == marker {
        busy := busy - {instance};
      }
    }

    method Set(instance: InstanceId, marker: Marker)
      modifies this
      ensures busy == old(busy)[instance := marker]
    {
      busy := busy[instance := marker];
    }

    method IsBusy(instance: InstanceId) returns (held: bool)
      ensures held <==> Current(busy, instance) != ""
    {
      return instance in busy && busy[instance] != "";
    }
  }

  datatype Client = Vanilla | Optimum

  type SessionId = nat

  datatype Game = Game(session: SessionId, client: Client)

  datatype Refusal = GameRunning | OperationInProgress

  class Registry {
    const slot: Slot
    var running: map<InstanceId, Game>

    constructor (slot: Slot)
      ensures this.slot == slot && running == map[]
    {
      this.slot, running := slot, map[];
    }

    method Guard(instance: InstanceId, marker: Marker) returns (refusal: Option<Refusal>)
      modifies slot
      ensures refusal == (if instance in running then Some(GameRunning)
                          else if Current(old(slot.busy), instance) != "" then Some(OperationInProgress)
                          else None)
      ensures slot.busy == if refusal.None? then old(slot.busy)[instance := marker] else old(slot.busy)
    {
      if instance in running {
        return Some(GameRunning);
      }
      var holder := slot.TryAcquire(instance, marker);
      return if holder != "" then Some(OperationInProgress) else None;
    }

    method Lock(instance: InstanceId, marker: Marker) returns (refusal: Option<Refusal>)
      modifies slot
      ensures refusal == if Current(old(slot.busy), instance) != "" then Some(OperationInProgress) else None
      ensures slot.busy == if refusal.None? then old(slot.busy)[instance := marker] else old(slot.busy)
    {
      var holder := slot.TryAcquire(instance, marker);
      return if holder != "" then Some(OperationInProgress) else None;
    }

    method ClientRunning(client: Client) returns (found: bool)
      ensures found <==> exists id :: id in running && running[id].client == client
    {
      var pending := running.Keys;
      while pending != {}
        invariant pending <= running.Keys
        invariant forall id :: id in running.Keys - pending ==> running[id].client != client
      {
        var id :| id in pending;
        if running[id].client == client {
          return true;
        }
        pending := pending - {id};
      }
      return false;
    }

    method Start(instance: InstanceId, game: Game)
      modifies this`running
      ensures running == old(running)[instance := game]
    {
      running := running[instance := game];
    }

    method Stop(instance: InstanceId)
      modifies this`running
      ensures running == old(running) - {instance}
    {
      running := running - {instance};
    }
  }
}
