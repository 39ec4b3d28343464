/**
 * `AsyncServerSocket`: one listening node, its list of connected clients,
 * and the completion handlers that accept clients and drive each
 * connection's reader. Channels are opaque handles compared by identity.
 */
module Server {
  import opened Java
  import opened Wrappers
  import opened Node
  import opened ClientList
  import opened FrameReader
  import opened Dispatcher

  /** A client connection, identified the way Java's identity `equals` tells channels apart. */
  datatype Channel = Channel(id: nat)

  /** What the accept handler does, in order. */
  datatype AcceptEffect =
    | ReArmAccept
    | Registered(client: Channel)
    | StartedReading(client: Channel, reader: ReaderState)
    | Caught(exception: JavaException)
    | Thrown(exception: JavaException)

  /** `connectedClients` after `notifyDisconnect(socketChannel)`; a null channel equals no entry. */
  function AfterDisconnect(clients: seq<Channel>, socketChannel: Option<Channel>): seq<Channel> {
    if socketChannel.Some? then RemoveFirst(clients, socketChannel.value) else clients
  }

  /**
   * `ConnectionHandler.failed`: the failure is only logged. No accept is
   * re-armed, so the node accepts no further connections after it.
   */
  function AcceptFailed(): (effects: seq<AcceptEffect>)
    ensures ReArmAccept !in effects
    ensures forall e :: e in effects ==> !e.Registered? && !e.StartedReading?
  {
    []
  }

  class AsyncServerSocket {
    const node: NodeManager
    var connectedClients: seq<Channel>

    /** A node with no clients yet; binding and the first accept are I/O and left to the caller. */
    constructor (node: NodeManager)
      ensures this.node == node
      ensures connectedClients == []
    {
      this.node := node;
      connectedClients := [];
    }

    /** `notifyConnect`: a null channel throws and changes nothing; otherwise the channel is appended, duplicates included. */
    method NotifyConnect(socketChannel: Option<Channel>) returns (outcome: Outcome<JavaException>)
      modifies this
      ensures socketChannel.None? ==> outcome == Fail(IOException) && connectedClients == old(connectedClients)
      ensures socketChannel.Some? ==> outcome == Pass && connectedClients == old(connectedClients) + [socketChannel.value]
      ensures socketChannel.Some? && Distinct(old(connectedClients)) && socketChannel.value !in old(connectedClients)
           ==> Distinct(connectedClients)
    {
      if socketChannel.None? {
        return Fail(IOException);
      }
      if Distinct(connectedClients) && socketChannel.value !in connectedClients {
        AppendFreshDistinct(connectedClients, socketChannel.value);
      }
      connectedClients := connectedClients + [socketChannel.value];
      outcome := Pass;
    }

    /**
     * `notifyDisconnect`: scan for the first entry equal to the channel and
     * remove that one entry; an absent or null channel changes nothing.
     */
    method NotifyDisconnect(socketChannel: Option<Channel>)
      modifies this
      ensures connectedClients == AfterDisconnect(old(connectedClients), socketChannel)
      ensures Distinct(old(connectedClients)) ==> Distinct(connectedClients)
      ensures Distinct(old(connectedClients)) && socketChannel.Some? ==> socketChannel.value !in connectedClients
    {
      if socketChannel.Some? && Distinct(connectedClients) {
        RemoveFirstDistinct(connectedClients, socketChannel.value);
      }
      var connectionSize := |connectedClients|;
      var i := 0;
      while i < connectionSize
        invariant 0 <= i <= connectionSize == |connectedClients|
        invariant connectedClients == old(connectedClients)
        invariant forall j :: 0 <= j < i ==> Some(connectedClients[j]) != socketChannel
      {
        if Some(connectedClients[i]) == socketChannel {
          connectedClients := RemoveFirst(connectedClients, socketChannel.value);
          break;
        }
        i := i + 1;
      }
      if socketChannel.Some? && socketChannel.value !in old(connectedClients) {
        RemoveFirstAbsent(old(connectedClients), socketChannel.value);
      }
    }

    /**
     * `ConnectionHandler.completed`: the next accept is armed before
     * anything else; then the remote address is looked up (a null client
     * throws there, an I/O error is caught), the client is registered and
     * its length read is started.
     */
    method AcceptCompleted(client: Option<Channel>, remoteAddressAvailable: bool) returns (effects: seq<AcceptEffect>)
      modifies this
      ensures |effects| >= 2 && effects[0] == ReArmAccept
      ensures client.None? ==> effects == [ReArmAccept, Thrown(NullPointerException)]
      ensures client.Some? && !remoteAddressAvailable ==> effects == [ReArmAccept, Caught(IOException)]
      ensures client.Some? && remoteAddressAvailable
           ==> effects == [ReArmAccept, Registered(client.value), StartedReading(client.value, Initial)]
      ensures connectedClients == if client.Some? && remoteAddressAvailable
                                  then old(connectedClients) + [client.value]
                                  else old(connectedClients)
    {
      effects := [ReArmAccept];
      if client.None? {
        effects := effects + [Thrown(NullPointerException)];
        return;
      }
      if !remoteAddressAvailable {
        effects := effects + [Caught(IOException)];
        return;
      }
      var outcome := NotifyConnect(client);
      assert outcome == Pass;
      effects := effects + [Registered(client.value), StartedReading(client.value, Initial)];
    }

    /**
     * One read completion on `client`'s connection in reader state `state`:
     * the reader steps, a disconnect removes the client from the list,
     * and a dispatched body yields the frame `handleRequest` writes back.
     */
    method ReadCompleted(client: Channel, state: ReaderState, ev: ReadEvent)
      returns (next: ReaderState, written: Option<seq<byte>>)
      requires Deliverable(state, ev)
      modifies this
      ensures next == Step(state, ev).next
      ensures connectedClients == if next.Disconnected?
                                  then RemoveFirst(old(connectedClients), client)
                                  else old(connectedClients)
      ensures written == if state.AwaitingBody? && ev.Completed?
                         then HandleRequest(node, FilledBuffer(state.capacity, ev.bytes))
                         else None
    {
      var t := Step(state, ev);
      next := t.next;
      written := None;
      if next.Disconnected? {
        NotifyDisconnect(Some(client));
      } else if state.AwaitingBody? {
        written := HandleRequest(node, FilledBuffer(state.capacity, ev.bytes));
      }
    }
  }
}
