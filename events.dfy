/**
 * The events the connection manager emits to the user interface on its one
 * `tcp-message` channel, and the application handle that receives them.
 */
module Events {
  import opened Wrappers
  import opened Framing

  datatype MessageData = MessageData(data: Bytes)

  /** Exactly the three optional fields of the emitted event. */
  datatype MessageEvent = MessageEvent(message: Option<MessageData>, error: Option<string>, connected: Option<bool>)

  datatype ReceivedPayload = ReceivedPayload(id: string, event: MessageEvent)

  /** A received line (or the final unterminated remainder). */
  function MessagePayload(id: string, data: Bytes): ReceivedPayload
  {
    ReceivedPayload(id, MessageEvent(Some(MessageData(data)), None, None))
  }

  /** The connection closed. */
  function DisconnectedPayload(id: string): ReceivedPayload
  {
    ReceivedPayload(id, MessageEvent(None, None, Some(false)))
  }

  /** A read failed: the error text and the closing flag in ONE event. */
  function ReadErrorPayload(id: string, description: string): ReceivedPayload
  {
    ReceivedPayload(id, MessageEvent(None, Some("Read error: " + description), Some(false)))
  }

  /** The connection was set up. */
  function ConnectedPayload(id: string): ReceivedPayload
  {
    ReceivedPayload(id, MessageEvent(None, None, Some(true)))
  }

  /** The application handle: everything emitted so far, in order.  Emitting never fails. */
  class EventSink {
    var emitted: seq<ReceivedPayload>

    constructor ()
      ensures emitted == []
    {
      emitted := [];
    }

    method Emit(p: ReceivedPayload)
      modifies this
      ensures emitted == old(emitted) + [p]
    {
      emitted := emitted + [p];
    }
  }
}
