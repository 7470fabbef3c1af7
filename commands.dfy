/**
 * The `connect` command: parse the address, dial, optionally wrap the stream
 * in TLS, start the read and write tasks, register the connection and report
 * it as connected.
 */
module Commands {
  import opened Wrappers
  import opened Numeric
  import opened Address
  import opened Events
  import opened Outbound
  import opened Registry
  import opened ReadLoop
  import opened Text

  /** What `TcpStream::connect` gave: a stream, or an error with its text. */
  datatype TcpOutcome = TcpConnected | TcpError(description: string)

  /** What building the TLS connector and the handshake gave, when TLS is asked for. */
  datatype TlsOutcome = TlsEstablished | ConnectorError(description: string) | HandshakeError(description: string)

  /** The error `connect` returns, if any, for a parsed endpoint and the dial outcomes. */
  function ConnectError(ep: Endpoint, tcp: TcpOutcome, tls: TlsOutcome): (r: Option<string>)
    // success exactly when the dial worked and, if TLS was asked for, so did TLS
    ensures r.None? <==> tcp.TcpConnected? && (!ep.tls || tls.TlsEstablished?)
    // each failure is reported with its own text, ending in the underlying error's
    ensures tcp.TcpError? ==> StartsWith(r.value, "Failed to connect to ") && EndsWith(r.value, tcp.description)
    ensures tcp.TcpConnected? && ep.tls && tls.ConnectorError? ==>
      StartsWith(r.value, "Failed to create TLS connector: ") && EndsWith(r.value, tls.description)
    ensures tcp.TcpConnected? && ep.tls && tls.HandshakeError? ==>
      StartsWith(r.value, "TLS handshake failed: ") && EndsWith(r.value, tls.description)
  {
    if tcp.TcpError? then
      Some("Failed to connect to " + ep.host + ":" + ToDecimal(ep.port) + ": " + tcp.description)
    else if !ep.tls then None
    else match tls
      case TlsEstablished => None
      case ConnectorError(e) => Some("Failed to create TLS connector: " + e)
      case HandshakeError(e) => Some("TLS handshake failed: " + e)
  }

  /**
   * `connect`.  On failure nothing is registered and nothing is emitted.  On
   * success a fresh write task (empty queue, running, no shutdown signalled)
   * and a fresh read task for the client exist, the client's entry holds a
   * fresh handle for that writer (replacing, and so waking the writer of,
   * any previous entry of the same id), and one `connected: true` event has
   * been emitted after the registration.
   */
  method Connect(clientId: string, address: string, state: SocketState, app: EventSink, tcp: TcpOutcome, tls: TlsOutcome)
    returns (r: Result<()>, reader: ReadTask?)
    requires state.Valid()
    modifies state, state.Writers(clientId), app
    ensures state.Valid()
    ensures var err := ConnectError(ParseAddress(address).value, tcp, tls);
      && (err.Some? ==> r == Err(err.value) && reader == null)
      && (err.None? ==> r == Ok(()) && reader != null)
    ensures r.Err? ==> state.connections == old(state.connections) && app.emitted == old(app.emitted)
    ensures r.Err? && clientId in old(state.connections) ==>
      var w := old(state.connections)[clientId].writeTx;
      w.State() == old(w.State())
    ensures r.Ok? ==>
      && reader != null && fresh(reader)
      && reader.clientId == clientId && reader.app == app && reader.lineBuffer == [] && reader.phase == Reading
      && clientId in state.connections
      && var w := state.connections[clientId].writeTx;
      && fresh(w) && w.State() == WriterState([], [], Running, false)
      && state.connections == old(state.connections)[clientId := NewHandle(w)]
      && app.emitted == old(app.emitted) + [ConnectedPayload(clientId)]
    ensures r.Ok? && clientId in old(state.connections) ==>
      var w := old(state.connections)[clientId].writeTx;
      w.State() == old(w.State()).(shutdownReady := true)
  {
    var ep := ParseAddress(address).value;
    reader := null;
    if tcp.TcpError? {
      return Err("Failed to connect to " + ep.host + ":" + ToDecimal(ep.port) + ": " + tcp.description), reader;
    }
    if ep.tls {
      match tls {
        case TlsEstablished =>
        case ConnectorError(e) =>
          return Err("Failed to create TLS connector: " + e), reader;
        case HandshakeError(e) =>
          return Err("TLS handshake failed: " + e), reader;
      }
    }
    var writer := new WriteTask();
    reader := new ReadTask(clientId, app);
    state.Insert(clientId, NewHandle(writer));
    app.Emit(ConnectedPayload(clientId));
    r := Ok(());
  }

  /** Connecting twice under one id leaves one entry, for the second connection, and wakes the first writer. */
  method Reconnect(clientId: string, address: string, state: SocketState, app: EventSink)
    returns (first: Result<()>, second: Result<()>)
    requires state.Valid()
    modifies state, state.Writers(clientId), app
    ensures first == Ok(()) && second == Ok(())
    ensures clientId in state.connections && state.connections.Keys == old(state.connections.Keys) + {clientId}
    ensures app.emitted == old(app.emitted) + [ConnectedPayload(clientId), ConnectedPayload(clientId)]
  {
    ghost var keys, events := state.connections.Keys, app.emitted;
    var r1, t1 := Connect(clientId, address, state, app, TcpConnected, TlsEstablished);
    assert state.connections.Keys == keys + {clientId};
    assert app.emitted == events + [ConnectedPayload(clientId)];
    var r2, t2 := Connect(clientId, address, state, app, TcpConnected, TlsEstablished);
    first, second := r1, r2;
  }
}
