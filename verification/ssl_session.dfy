/**
 * The TLS server and its connections (struct s_ssl_server, struct s_ssl_connection). A
 * connection holds its server; the server lists its live connections in a daemon list,
 * in the order they reported themselves connected.
 *
 * OpenSSL, libevent's bufferevents and the callbacks are outside the model. What they
 * hand back (bytes read from a buffer, the result of bufferevent_write, a new SSL context
 * or listener) arrives as parameters; the calls the code makes on them, and what it frees,
 * are returned as a trace of effects.
 */
module SslSession {
  import opened Wrappers
  import opened Errno
  import opened Foreign
  import opened DaemonList
  import opened Ssl
  import SslPacket

  /** The bits of a bufferevent event (libevent's BEV_EVENT_*), a C short. */
  const BEV_EVENT_READING: bv16 := 0x01
  const BEV_EVENT_WRITING: bv16 := 0x02
  const BEV_EVENT_EOF: bv16 := 0x10
  const BEV_EVENT_ERROR: bv16 := 0x20
  const BEV_EVENT_TIMEOUT: bv16 := 0x40
  const BEV_EVENT_CONNECTED: bv16 := 0x80

  /**
   * The e_ssl_error _s_ssl_connection_event derives from the direction bits: WRITING clear
   * is a read error, WRITING alone a write error, both an end of stream.
   */
  function ErrorKindOf(what: bv16): (kind: ErrorKind)
    ensures kind == ReadError <==> what & BEV_EVENT_WRITING == 0
    ensures kind == WriteError <==> what & BEV_EVENT_WRITING != 0 && what & BEV_EVENT_READING == 0
    ensures kind == Eof <==> what & (BEV_EVENT_READING | BEV_EVENT_WRITING) == BEV_EVENT_READING | BEV_EVENT_WRITING
    ensures kind != ConnectionError
  {
    if what & BEV_EVENT_WRITING != BEV_EVENT_WRITING then ReadError
    else if what & BEV_EVENT_READING != BEV_EVENT_READING then WriteError
    else Eof
  }

  /** What a connection does about an event. */
  datatype Action = Connect | Terminate | Report(kind: ErrorKind)

  /**
   * The decision of _s_ssl_connection_event: EOF, then TIMEOUT, terminate; then CONNECTED
   * joins the server; anything else is an error, and an end of stream terminates.
   */
  function Classify(what: bv16): (a: Action)
    ensures a == Connect <==>
              what & BEV_EVENT_EOF == 0 && what & BEV_EVENT_TIMEOUT == 0 && what & BEV_EVENT_CONNECTED != 0
    ensures a == Terminate <==>
              what & BEV_EVENT_EOF != 0 || what & BEV_EVENT_TIMEOUT != 0 ||
              (what & BEV_EVENT_CONNECTED == 0 && what & BEV_EVENT_READING != 0 && what & BEV_EVENT_WRITING != 0)
    ensures a.Report? ==> (a.kind == ReadError || a.kind == WriteError) && a.kind == ErrorKindOf(what)
  {
    if what & BEV_EVENT_EOF == BEV_EVENT_EOF then Terminate
    else if what & BEV_EVENT_TIMEOUT == BEV_EVENT_TIMEOUT then Terminate
    else if what & BEV_EVENT_CONNECTED == BEV_EVENT_CONNECTED then Connect
    else
      var kind := ErrorKindOf(what);
      if kind == Eof then Terminate else Report(kind)
  }

  /** BEV_EVENT_ERROR plays no part in the decision: only the other bits are looked at. */
  lemma ErrorBitIgnored(what: bv16)
    ensures Classify(what | BEV_EVENT_ERROR) == Classify(what & !BEV_EVENT_ERROR)
  {
  }

  /** The error callback is only ever told about reads and writes, never an end of stream. */
  lemma ReportedKinds(what: bv16)
    ensures Classify(what).Report? <==>
              what & (BEV_EVENT_EOF | BEV_EVENT_TIMEOUT | BEV_EVENT_CONNECTED) == 0 &&
              what & (BEV_EVENT_READING | BEV_EVENT_WRITING) != BEV_EVENT_READING | BEV_EVENT_WRITING
  {
  }

  /** What the code does outside its own state: callbacks called, results ignored, memory freed. */
  datatype Effect =
    | ReadCalled(callback: Handle, server: Server, packet: SslPacket.Packet?)
    | ErrorCalled(callback: Handle, server: Server, kind: ErrorKind, error: int, packet: SslPacket.Packet?)
    | Listed(status: int)
    | Unlisted(status: int)
    | PacketReleased(part: SslPacket.Release)
    | BufferFreed(buffer: Handle)
    | ConnectionFreed(connection: Connection)
    | SslDeinit
    | ListenerFreed(listener: Handle)
    | ContextFreed(context: Handle)
    | ServerFreed

  /** s_ssl_connection_free on a connection: its bufferevent, then the connection. */
  function ConnectionFreeing(c: Connection): seq<Effect>
  {
    [BufferFreed(c.buffer), ConnectionFreed(c)]
  }

  /** s_ssl_connection_free on each connection in turn. */
  function ConnectionsFreeing(cs: seq<Connection>): (r: seq<Effect>)
    ensures |r| == 2 * |cs|
  {
    if cs == [] then [] else ConnectionFreeing(cs[0]) + ConnectionsFreeing(cs[1..])
  }

  /** Freeing one more connection adds its two effects at the end. */
  lemma {:induction false} ConnectionsFreeingAppend(cs: seq<Connection>, c: Connection)
    ensures ConnectionsFreeing(cs + [c]) == ConnectionsFreeing(cs) + ConnectionFreeing(c)
  {
    if cs != [] {
      assert (cs + [c])[1..] == cs[1..] + [c];
      ConnectionsFreeingAppend(cs[1..], c);
    } else {
      assert ConnectionsFreeing([c][1..]) == [];
    }
  }

  /** Each connection is freed once, in list order, its bufferevent just before it. */
  lemma {:induction false} ConnectionsFreeingOrder(cs: seq<Connection>)
    ensures forall i :: 0 <= i < |cs| ==>
              ConnectionsFreeing(cs)[2 * i] == BufferFreed(cs[i].buffer) &&
              ConnectionsFreeing(cs)[2 * i + 1] == ConnectionFreed(cs[i])
    ensures forall c :: ConnectionFreed(c) in ConnectionsFreeing(cs) <==> c in cs
    ensures forall e :: e in ConnectionsFreeing(cs) ==> e.BufferFreed? || e.ConnectionFreed?
  {
    if cs != [] {
      ConnectionsFreeingOrder(cs[1..]);
      var r := ConnectionsFreeing(cs);
      assert r == ConnectionFreeing(cs[0]) + ConnectionsFreeing(cs[1..]);
      forall i | 0 < i < |cs|
        ensures r[2 * i] == BufferFreed(cs[i].buffer) && r[2 * i + 1] == ConnectionFreed(cs[i])
      {
        assert cs[1..][i - 1] == cs[i];
        assert r[2 * i] == ConnectionsFreeing(cs[1..])[2 * (i - 1)];
        assert r[2 * i + 1] == ConnectionsFreeing(cs[1..])[2 * (i - 1) + 1];
      }
      forall c | ConnectionFreed(c) in r
        ensures c in cs
      {
        if ConnectionFreed(c) !in ConnectionFreeing(cs[0]) {
          assert ConnectionFreed(c) in ConnectionsFreeing(cs[1..]);
        }
      }
      forall c | c in cs
        ensures ConnectionFreed(c) in r
      {
        if c != cs[0] {
          assert c in cs[1..];
        }
      }
      forall e | e in r
        ensures e.BufferFreed? || e.ConnectionFreed?
      {
        if e !in ConnectionFreeing(cs[0]) {
          assert e in ConnectionsFreeing(cs[1..]);
        }
      }
    }
  }

  /**
   * A connection that reports CONNECTED again while listed is appended a second time.
   * Terminating it then removes one entry and frees the connection, yet it stays listed,
   * and tearing the server down frees it once more.
   */
  lemma {:induction false} FreedConnectionStaysListed(cs: seq<Connection>, c: Connection,
                                                      context: Option<Handle>, listener: Option<Handle>)
    requires c in cs
    ensures var left := RemoveFirst(cs + [c], c);
            c in left && ConnectionFreed(c) in ConnectionFreeing(c) &&
            ConnectionFreed(c) in Teardown(context, listener, left)
  {
    var left := RemoveFirst(cs + [c], c);
    assert multiset(cs + [c])[c] == multiset(cs)[c] + 1;
    RemoveFirstKeeps(cs + [c], c);
    ConnectionsFreeingOrder(left);
    var prefix := if context.None? then []
                  else [SslDeinit] + (if listener.Some? then [ListenerFreed(listener.value)] else []) + [ContextFreed(context.value)];
    assert Teardown(context, listener, left) == prefix + ConnectionsFreeing(left) + [ServerFreed];
  }

  /** The teardown order of s_ssl_server_free. */
  function Teardown(context: Option<Handle>, listener: Option<Handle>, cs: seq<Connection>): seq<Effect>
  {
    (if context.None? then []
     else [SslDeinit] + (if listener.Some? then [ListenerFreed(listener.value)] else []) + [ContextFreed(context.value)])
    + ConnectionsFreeing(cs) + [ServerFreed]
  }

  /**
   * Tearing a server down: with a context, OpenSSL is deinitialised, the listener (if any)
   * is freed before the context; then every connection, in list order; the server last.
   */
  lemma TeardownOrder(context: Option<Handle>, listener: Option<Handle>, cs: seq<Connection>)
    ensures var t := Teardown(context, listener, cs);
            var k := if context.None? then 0 else if listener.Some? then 3 else 2;
            |t| == k + 2 * |cs| + 1 && t[|t| - 1] == ServerFreed &&
            (context.Some? ==> t[0] == SslDeinit && t[k - 1] == ContextFreed(context.value)) &&
            (context.Some? && listener.Some? ==> t[1] == ListenerFreed(listener.value)) &&
            (forall i :: 0 <= i < |cs| ==> t[k + 2 * i] == BufferFreed(cs[i].buffer) && t[k + 2 * i + 1] == ConnectionFreed(cs[i]))
    ensures context.None? ==> forall e :: e in Teardown(context, listener, cs) ==> !e.ListenerFreed? && !e.ContextFreed?
  {
    ConnectionsFreeingOrder(cs);
    var t := Teardown(context, listener, cs);
    var k := if context.None? then 0 else if listener.Some? then 3 else 2;
    var head: seq<Effect> := if context.None? then []
      else [SslDeinit] + (if listener.Some? then [ListenerFreed(listener.value)] else []) + [ContextFreed(context.value)];
    assert |head| == k && t == head + ConnectionsFreeing(cs) + [ServerFreed];
    forall i | 0 <= i < |cs|
      ensures t[k + 2 * i] == BufferFreed(cs[i].buffer) && t[k + 2 * i + 1] == ConnectionFreed(cs[i])
    {
      assert t[k + 2 * i] == ConnectionsFreeing(cs)[2 * i];
      assert t[k + 2 * i + 1] == ConnectionsFreeing(cs)[2 * i + 1];
    }
    if context.None? {
      forall e | e in t
        ensures !e.ListenerFreed? && !e.ContextFreed?
      {
        if e != ServerFreed {
          assert e in ConnectionsFreeing(cs);
        }
      }
    }
  }

  /** The destructor s_ssl_server_free hands to s_list_free_full. */
  datatype Destructor = ConnectionFree

  /** s_ssl_connection_free: a NULL connection is left alone. */
  method FreeConnection(c: Connection?) returns (released: seq<Effect>)
    ensures c == null ==> released == []
    ensures c != null ==> released == ConnectionFreeing(c)
  {
    if c == null {
      return [];
    }
    released := [BufferFreed(c.buffer), ConnectionFreed(c)];
  }

  /** The destroy callback s_list_free_full applies, s_ssl_connection_free, on each connection in order. */
  method FreeConnections(cs: seq<Connection>) returns (released: seq<Effect>)
    ensures released == ConnectionsFreeing(cs)
  {
    released := [];
    var i := 0;
    while i < |cs|
      invariant 0 <= i <= |cs|
      invariant released == ConnectionsFreeing(cs[..i])
    {
      var freeing := FreeConnection(cs[i]);
      ConnectionsFreeingAppend(cs[..i], cs[i]);
      assert cs[..i + 1] == cs[..i] + [cs[i]];
      released := released + freeing;
      i := i + 1;
    }
    assert cs[..i] == cs;
  }

  /**
   * _s_ssl_packet_generate with s_ssl_packet_new: the bytes drained from the bufferevent
   * (`incoming`, NULL when nothing could be read) become a packet. evbuffer_get_length's
   * size_t is passed as the packet's uint32_t size, so the length is cut modulo 2^32 and
   * only that many leading bytes are copied.
   */
  method Generate(incoming: array?<uint8>) returns (packet: SslPacket.Packet?)
    ensures packet == null <==> incoming == null
    ensures packet != null ==> fresh(packet) && packet.size as int == incoming.Length % UINT32_LIMIT &&
                               packet.Bytes() == incoming[..incoming.Length % UINT32_LIMIT]
    ensures packet != null && incoming.Length < UINT32_LIMIT ==> packet.Bytes() == incoming[..]
  {
    if incoming == null {
      return null;
    }
    var size: uint32 := incoming.Length % UINT32_LIMIT;
    packet := SslPacket.New(incoming, size);
    assert incoming[..incoming.Length] == incoming[..];
  }

  /** The trace of s_ssl_packet_free. */
  function PacketFreeing(packet: SslPacket.Packet?): seq<Effect>
  {
    if packet == null then [] else [PacketReleased(SslPacket.PayloadBuffer(packet)), PacketReleased(SslPacket.PacketRecord(packet))]
  }

  class Connection {
    const buffer: Handle
    const error: Handle
    const read: Handle
    const server: Server
    /** Whether bufferevent_enable turned reading on. */
    const reading: bool

    /** The connection s_ssl_connection_new builds, with reading turned on. */
    constructor (server: Server, buffer: Handle, read: Handle, error: Handle)
      ensures this.server == server && this.buffer == buffer && this.read == read && this.error == error
      ensures reading
    {
      this.buffer := buffer;
      this.error := error;
      this.read := read;
      this.server := server;
      reading := true;
    }

    /**
     * _s_ssl_connection_read: one packet is built from what the buffer holds, passed to
     * the read callback with the server as context, then freed.
     */
    method OnRead(incoming: array?<uint8>) returns (packet: SslPacket.Packet?, effects: seq<Effect>)
      ensures packet == null <==> incoming == null
      ensures packet != null ==> fresh(packet) && packet.Bytes() == incoming[..incoming.Length % UINT32_LIMIT]
      ensures effects == [ReadCalled(read, server, packet)] + PacketFreeing(packet)
    {
      packet := Generate(incoming);
      effects := [ReadCalled(read, server, packet)];
      var released := SslPacket.Free(packet);
      if packet != null {
        effects := effects + [PacketReleased(released[0]), PacketReleased(released[1])];
      }
    }

    /**
     * _s_ssl_connection_event. Connect: the connection is appended to its server's set,
     * again if it was already there. Terminate: it is removed from the set (the status,
     * -EBADE when it was not there, is ignored) and then freed. An error: a packet is built
     * from the buffer and handed to the error callback with error code 0; the set is unchanged.
     */
    method OnEvent(what: bv16, incoming: array?<uint8>) returns (packet: SslPacket.Packet?, effects: seq<Effect>)
      requires server.Valid()
      modifies server, server.nodes
      ensures server.Valid()
      ensures Classify(what) == Connect ==>
                Elems(server.nodes) == old(Elems(server.nodes)) + [this] && packet == null && effects == [Listed(0)]
      ensures Classify(what) == Terminate ==>
                Elems(server.nodes) == RemoveFirst(old(Elems(server.nodes)), this) && packet == null &&
                effects == [Unlisted(if this in old(Elems(server.nodes)) then 0 else -EBADE)] + ConnectionFreeing(this)
      ensures Classify(what) == Terminate ==>
                (this in Elems(server.nodes) <==> multiset(old(Elems(server.nodes)))[this] > 1)
      ensures Classify(what).Report? ==>
                Elems(server.nodes) == old(Elems(server.nodes)) && (packet == null <==> incoming == null) &&
                (packet != null ==> fresh(packet) && packet.Bytes() == incoming[..incoming.Length % UINT32_LIMIT]) &&
                effects == [ErrorCalled(error, server, Classify(what).kind, 0, packet)]
      ensures server.context == old(server.context) && server.listener == old(server.listener)
    {
      packet := null;
      ghost var before := Elems(server.nodes);
      var action := Classify(what);
      match action {
        case Connect =>
          var status := server.AddConnection(this);
          effects := [Listed(status)];
        case Terminate =>
          var status := server.RemoveConnection(this);
          RemoveFirstKeeps(before, this);
          var released := FreeConnection(this);
          effects := [Unlisted(status)] + released;
        case Report(kind) =>
          packet := Generate(incoming);
          effects := [ErrorCalled(error, server, kind, 0, packet)];
      }
    }
  }

  /**
   * s_ssl_connection_new: any NULL argument gives NULL; otherwise a connection holding all
   * four, reading from its buffer.
   */
  method NewConnection(server: Server?, buffer: Option<Handle>, read: Option<Handle>, error: Option<Handle>)
      returns (c: Connection?)
    ensures c == null <==> server == null || buffer.None? || read.None? || error.None?
    ensures c != null ==> fresh(c) && c.server == server && c.buffer == buffer.value &&
                          c.read == read.value && c.error == error.value && c.reading
  {
    if server == null || buffer.None? || read.None? || error.None? {
      return null;
    }
    c := new Connection(server, buffer.value, read.value, error.value);
  }

  /**
   * s_ssl_connection_write: -EINVAL for a NULL connection or packet; otherwise what
   * bufferevent_write answers (`written`).
   */
  method WriteConnection(c: Connection?, packet: SslPacket.Packet?, written: int) returns (r: int)
    ensures c == null || packet == null ==> r == -EINVAL
    ensures c != null && packet != null ==> r == written
  {
    if c == null || packet == null {
      return -EINVAL;
    }
    return written;
  }

  class Server {
    const funcs: Funcs
    const loop: Handle
    const userdata: Handle
    /** ssl.context and ssl.listener: NULL until s_ssl_server_connect sets them. */
    var context: Option<Handle>
    var listener: Option<Handle>
    /** The live connections, in the order they connected (the head of a daemon list). */
    var connections: Node?<Connection>
    ghost var nodes: seq<Node<Connection>>

    ghost predicate Valid()
      reads this, nodes
    {
      Chain(connections, nodes)
    }

    /** The zeroed allocation of s_ssl_server_new: no SSL state, no connections. */
    constructor (funcs: Funcs, loop: Handle, userdata: Handle)
      ensures Valid() && Elems(nodes) == [] && context == None && listener == None
      ensures this.funcs == funcs && this.loop == loop && this.userdata == userdata
    {
      this.funcs := funcs;
      this.loop := loop;
      this.userdata := userdata;
      context := None;
      listener := None;
      connections := null;
      nodes := [];
    }

    /**
     * s_ssl_server_connect, with what OpenSSL and libevent hand back: NULL certificate or key
     * gives -EINVAL; the new context is stored, and a NULL one gives -EBADE; otherwise the
     * new listener is stored and the result says whether there is one.
     */
    method Connect(certificate: Option<string>, privateKey: Option<string>,
                   newContext: Option<Handle>, newListener: Option<Handle>) returns (r: int)
      modifies this
      ensures nodes == old(nodes) && connections == old(connections)
      ensures certificate.None? || privateKey.None? ==>
                r == -EINVAL && context == old(context) && listener == old(listener)
      ensures certificate.Some? && privateKey.Some? ==> context == newContext
      ensures certificate.Some? && privateKey.Some? && newContext.None? ==> r == -EBADE && listener == old(listener)
      ensures certificate.Some? && privateKey.Some? && newContext.Some? ==>
                listener == newListener && (r == 0 <==> newListener.Some?) && (r != 0 ==> r == -EBADE)
    {
      if certificate.None? || privateKey.None? {
        return -EINVAL;
      }
      context := newContext;
      if context.None? {
        return -EBADE;
      }
      listener := newListener;
      r := if listener.Some? then 0 else -EBADE;
    }

    /** s_ssl_server_add_connection: NULL gives -EINVAL; otherwise appended, duplicates too. */
    method AddConnection(connection: Connection?) returns (r: int)
      requires Valid()
      modifies this, nodes
      ensures Valid() && context == old(context) && listener == old(listener)
      ensures connection == null ==> r == -EINVAL && Elems(nodes) == old(Elems(nodes))
      ensures connection != null ==> r == 0 && Elems(nodes) == old(Elems(nodes)) + [connection]
    {
      if connection == null {
        return -EINVAL;
      }
      connections, nodes := Append(connections, nodes, Some(connection));
      return 0;
    }

    /**
     * s_ssl_server_remove_connection: NULL gives -EINVAL; a connection in the set loses its
     * first occurrence and gives 0; any other, -EBADE with the set unchanged.
     */
    method RemoveConnection(connection: Connection?) returns (r: int)
      requires Valid()
      modifies this, nodes
      ensures Valid() && context == old(context) && listener == old(listener)
      ensures connection == null ==> r == -EINVAL && Elems(nodes) == old(Elems(nodes))
      ensures connection != null && connection !in old(Elems(nodes)) ==> r == -EBADE && Elems(nodes) == old(Elems(nodes))
      ensures connection != null && connection in old(Elems(nodes)) ==>
                r == 0 && Elems(nodes) == RemoveFirst(old(Elems(nodes)), connection)
    {
      if connection == null {
        return -EINVAL;
      }
      connections, nodes, r := RemoveMember(connections, nodes, connection);
    }

    /** s_ssl_server_write: checks its arguments, then sends nothing and answers 0. */
    method Write(name: Option<string>, packet: SslPacket.Packet?) returns (r: int)
      ensures r == 0 <==> name.Some? && packet != null
      ensures r != 0 ==> r == -EINVAL
    {
      if name.None? || packet == null {
        return -EINVAL;
      }
      return 0;
    }

    /**
     * s_ssl_server_free: the SSL side first (when there is a context: OpenSSL deinit, the
     * listener, the context), then every connection through s_ssl_connection_free, then
     * the server.
     */
    method Free() returns (released: seq<Effect>)
      requires Valid()
      modifies this, nodes
      ensures released == Teardown(old(context), old(listener), old(Elems(nodes)))
      ensures Valid() && Elems(nodes) == []
    {
      var ssl: seq<Effect> := [];
      if context.Some? {
        ssl := ssl + [SslDeinit];
        if listener.Some? {
          ssl := ssl + [ListenerFreed(listener.value)];
        }
        ssl := ssl + [ContextFreed(context.value)];
      }
      var destroyed;
      ghost var freed;
      destroyed, freed := FreeFull(connections, nodes, Some(ConnectionFree));
      var freeing := FreeConnections(destroyed);
      released := ssl + freeing + [ServerFreed];
      connections, nodes := null, [];
    }
  }

  /**
   * s_ssl_server_new: a NULL loop, a NULL table or an incomplete one gives NULL; otherwise
   * a server keeping a copy of the table, with no SSL state and no connections.
   */
  method NewServer(loop: Option<Handle>, funcs: Option<Funcs>, userdata: Handle) returns (s: Server?)
    ensures s == null <==> loop.None? || funcs.None? || !Complete(funcs.value)
    ensures s != null ==> fresh(s) && s.Valid() && Elems(s.nodes) == [] && s.context == None && s.listener == None &&
                          s.funcs == funcs.value && s.loop == loop.value && s.userdata == userdata
  {
    if loop.None? || funcs.None? || FuncsCheck(funcs) != 0 {
      return null;
    }
    s := new Server(funcs.value, loop.value, userdata);
  }

  /**
   * The walk of s_ssl_server_remove_connection: the set is scanned from its first cell;
   * on the first cell holding the connection, s_list_remove drops that occurrence.
   */
  method RemoveMember(head: Node?<Connection>, ghost nodes: seq<Node<Connection>>, connection: Connection)
      returns (r: Node?<Connection>, ghost nodes': seq<Node<Connection>>, status: int)
    requires Chain(head, nodes)
    modifies nodes
    ensures Chain(r, nodes')
    ensures connection !in Elems(nodes) ==> status == -EBADE && r == head && nodes' == nodes
    ensures connection in Elems(nodes) ==> status == 0 && Elems(nodes') == RemoveFirst(Elems(nodes), connection)
  {
    var current := First(head, nodes);
    ghost var i := 0;
    while current != null
      invariant 0 <= i <= |nodes| && current == (if i < |nodes| then nodes[i] else null)
      invariant forall j :: 0 <= j < i ==> nodes[j].data != connection
      decreases |nodes| - i
    {
      if current.data == connection {
        assert Elems(nodes)[i] == connection;
        r, nodes' := Remove(head, nodes, Some(connection));
        return r, nodes', 0;
      }
      current := current.next;
      i := i + 1;
    }
    assert forall j :: 0 <= j < |nodes| ==> Elems(nodes)[j] != connection;
    return head, nodes, -EBADE;
  }
}
