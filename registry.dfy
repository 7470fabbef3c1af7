/**
 * The connection registry: the one shared map from client id to the handle
 * of a live connection (the sending end of its outbound queue and its
 * one-shot shutdown sender).  The mutex around it serialises these methods;
 * each one below is one critical section.
 */
module Registry {
  import opened Wrappers
  import opened Outbound

  /** The `oneshot::Sender<()>`: it completes the receiver of the write task it belongs to. */
  datatype ShutdownSender = ShutdownSender(receiver: WriteTask)

  /** `ConnectionHandle { write_tx, shutdown_tx }`. */
  datatype ConnectionHandle = ConnectionHandle(writeTx: WriteTask, shutdownTx: Option<ShutdownSender>)

  /** The handle `connect` stores: both senders lead to the freshly spawned write task. */
  function NewHandle(writer: WriteTask): ConnectionHandle
  {
    ConnectionHandle(writer, Some(ShutdownSender(writer)))
  }

  function NotFound(id: string): string
  {
    "No connection found for client_id: " + id
  }

  /** `SocketState`: the map behind the mutex. */
  class SocketState {
    var connections: map<string, ConnectionHandle>

    /** Every stored handle still holds its shutdown sender, and both its senders reach one task. */
    ghost predicate Valid()
      reads this
    {
      forall id :: id in connections ==> connections[id] == NewHandle(connections[id].writeTx)
    }

    /** The write task reachable from the handle stored for `id`, if there is one. */
    function Writers(id: string): set<object>
      reads this
    {
      if id in connections then
        {connections[id].writeTx} +
        (if connections[id].shutdownTx.Some? then {connections[id].shutdownTx.value.receiver} else {})
      else {}
    }

    constructor ()
      ensures connections == map[] && Valid()
    {
      connections := map[];
    }

    /**
     * Drops a handle taken out of the map.  Dropping the shutdown sender
     * completes the write task's receiver just as a send would, since its
     * `select!` arm accepts any completion.
     */
    static method DropHandle(h: ConnectionHandle)
      modifies if h.shutdownTx.Some? then {h.shutdownTx.value.receiver} else {}
      ensures h.shutdownTx.Some? ==>
        h.shutdownTx.value.receiver.State() == old(h.shutdownTx.value.receiver.State()).(shutdownReady := true)
    {
      if h.shutdownTx.Some? {
        h.shutdownTx.value.receiver.SignalShutdown();
      }
    }

    /**
     * `connections.insert(client_id, handle)` at the end of `connect`: any
     * handle already stored under the id is replaced and dropped, and the
     * rest of the map is untouched.
     */
    method Insert(id: string, handle: ConnectionHandle)
      requires Valid() && handle == NewHandle(handle.writeTx)
      modifies this, Writers(id)
      ensures Valid()
      ensures connections == old(connections)[id := handle]
      ensures id in old(connections) ==>
        var w := old(connections)[id].writeTx;
        w.State() == old(w.State()).(shutdownReady := true)
    {
      if id in connections {
        var previous := connections[id];
        connections := connections[id := handle];
        DropHandle(previous);
      } else {
        connections := connections[id := handle];
      }
    }

    /** `connections.remove(&client_id)` of the read task: the entry goes, whatever handle it holds. */
    method Remove(id: string)
      requires Valid()
      modifies this, Writers(id)
      ensures Valid()
      ensures connections == old(connections) - {id}
      ensures id in old(connections) ==>
        var w := old(connections)[id].writeTx;
        w.State() == old(w.State()).(shutdownReady := true)
    {
      if id in connections {
        var handle := connections[id];
        connections := connections - {id};
        DropHandle(handle);
      }
    }

    /**
     * `disconnect`: a present id loses its entry (and only it) and its
     * shutdown signal is sent; an absent id is an error and nothing changes.
     */
    method Disconnect(id: string) returns (r: Result<()>)
      requires Valid()
      modifies this, Writers(id)
      ensures Valid()
      ensures r.Ok? <==> id in old(connections)
      ensures r.Err? ==> r.error == NotFound(id) && connections == old(connections)
      ensures connections == old(connections) - {id}
      ensures r.Ok? ==>
        var w := old(connections)[id].writeTx;
        w.State() == old(w.State()).(shutdownReady := true)
    {
      if id in connections {
        var handle := connections[id];
        connections := connections - {id};
        // `handle.shutdown_tx.take()`: the sender leaves the handle and is used once
        var shutdownTx := handle.shutdownTx;
        handle := handle.(shutdownTx := None);
        if shutdownTx.Some? {
          shutdownTx.value.receiver.SignalShutdown();
        }
        r := Ok(());
      } else {
        r := Err(NotFound(id));
      }
    }

    /**
     * `send`: looks the id up without changing the map and queues the
     * payload on its connection; an unknown id, or a write task that has
     * already exited, is an error.
     */
    method Send(id: string, data: string) returns (r: Result<()>)
      modifies Writers(id)
      ensures unchanged(this)
      ensures id !in connections ==> r == Err(NotFound(id))
      ensures id in connections ==>
        var w := connections[id].writeTx;
        && (r.Ok? <==> old(w.status) == Running)
        && (r.Err? ==> r.error == "Failed to send data: channel closed")
        && w.State() == if r.Ok? then old(w.State()).(queue := old(w.queue) + [data]) else old(w.State())
    {
      if id in connections {
        var writeTx := connections[id].writeTx;
        r := writeTx.Enqueue(data);
      } else {
        r := Err(NotFound(id));
      }
    }
  }

  /** Disconnecting twice: the first call succeeds, the second finds nothing. */
  method DisconnectTwice(state: SocketState, id: string) returns (first: Result<()>, second: Result<()>)
    requires state.Valid() && id in state.connections
    modifies state, state.Writers(id)
    ensures first.Ok? && second == Err(NotFound(id))
    ensures state.connections == old(state.connections) - {id}
  {
    first := state.Disconnect(id);
    second := state.Disconnect(id);
  }
}
