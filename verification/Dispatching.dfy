/** What epoll's flags do, flag by flag and table by table, in every reachable state. */
module Dispatching {
  import opened Outcomes
  import opened Epoll
  import opened StateMachine
  import opened Safety
  import opened Routing
  import Q = Requests
  import R = Responses
  import B = BridgeStream
  import W = WireFormat

  /** A state that some run of the proxy reaches. */
  ghost predicate Reached(listener: int, es: seq<Event>, w: World) {
    LegalRun(Start(listener), es) && Run(Start(listener), es).Running? && Run(Start(listener), es).world == w
  }

  lemma ReachedInv(listener: int, es: seq<Event>, w: World)
    requires Reached(listener, es, w)
    ensures Inv(w)
  {
    hide Run, LegalRun, Inv;
    RunSafety(listener, es);
  }

  /** Everything but these tables is as before. */
  predicate OnlyTables(w: World, w': World, gone: set<int>) {
    && w'.reg.handlers == w.reg.handlers - gone && w'.open == w.open - gone
    && w'.listener == w.listener && w'.nextId == w.nextId
  }

  /** The bridge of a client, if it has one, as a set of descriptors. */
  function BridgeOf(w: World, c: int): set<int> {
    if c in w.conMap then {w.conMap[c].fd} else {}
  }

  /** With EPOLLRDHUP on a client, whatever else is set and whatever there is to read, the client goes,
      its request parser and its bridge go with it, and nothing is sent. */
  lemma HangUpOfClient(listener: int, es: seq<Event>, w: World, c: int, flags: Flags, data: string, newFd: Option<int>)
    requires Reached(listener, es, w) && c in w.clients && flags.rdhup
    ensures var o := Step(w, Ready(c, flags, data, newFd));
            && o.Running? && o.out == []
            && o.world.clients == w.clients - {c} && o.world.requests == w.requests - {c}
            && o.world.conMap == w.conMap - {c} && OnlyTables(w, o.world, {c} + BridgeOf(w, c))
  {
    ReachedInv(listener, es, w);
    hide Inv, Unregister, Reached;
    ClientHandler(w, c);
    ClientCloseTables(w, c);
    SecondRemovalIsIdle(ClientClose(w, c).world, c);
  }

  lemma ClientCloseTables(w: World, c: int)
    requires Inv(w) && c in w.clients
    ensures var o := ClientClose(w, c);
            && o.Running? && o.out == [] && Inv(o.world) && c !in o.world.reg.handlers
            && o.world.clients == w.clients - {c} && o.world.requests == w.requests - {c}
            && o.world.conMap == w.conMap - {c} && OnlyTables(w, o.world, {c} + BridgeOf(w, c))
  {
    ClientCloseInv(w, c);
    hide Inv, Unregister;
    var w1 := w;
    if c in w.conMap {
      DropBridgeInv(w, c);
      w1 := DropBridge(w, c);
    } else {
      assert w.conMap - {c} == w.conMap;
    }
    RequestsKeepInv(w1, c);
    var w2 := w1.(requests := w1.requests - {c});
    DisconnectClientInv(w2, c);
    assert w.reg.handlers - BridgeOf(w, c) - {c} == w.reg.handlers - ({c} + BridgeOf(w, c));
    assert w.open - BridgeOf(w, c) - {c} == w.open - ({c} + BridgeOf(w, c));
  }

  lemma RequestsKeepInv(w: World, c: int)
    requires Inv(w)
    ensures Inv(w.(requests := w.requests - {c}))
  {
    RequestsInv(w, w.requests - {c});
  }

  /** With EPOLLRDHUP on a bridge, it goes and its client with it; request_map is left alone. */
  lemma HangUpOfBridge(listener: int, es: seq<Event>, w: World, c: int, flags: Flags, data: string, newFd: Option<int>)
    requires Reached(listener, es, w) && c in w.conMap && flags.rdhup
    ensures var b := w.conMap[c].fd;
            var o := Step(w, Ready(b, flags, data, newFd));
            && o.Running? && o.out == []
            && o.world.clients == w.clients - {c} && o.world.requests == w.requests
            && o.world.conMap == w.conMap - {c} && OnlyTables(w, o.world, {c, b})
  {
    ReachedInv(listener, es, w);
    hide Unregister, Reached, Consistent;
    var b := w.conMap[c].fd;
    assert BridgeOk(w, c);
    BridgeCloseInv(w, b);
    hide Inv;
    BridgeCloseTables(w, c);
    SecondRemovalIsIdle(BridgeClose(w, c, w.clients[c], w.conMap[c].id).world, b);
  }

  lemma BridgeCloseTables(w: World, c: int)
    requires Inv(w) && c in w.conMap && c in w.clients
    ensures var o := BridgeClose(w, c, w.clients[c], w.conMap[c].id);
            && o.Running? && o.out == []
            && o.world.clients == w.clients - {c} && o.world.requests == w.requests
            && o.world.conMap == w.conMap - {c} && OnlyTables(w, o.world, {c, w.conMap[c].fd})
  {
    hide Inv, Unregister;
    var b := w.conMap[c].fd;
    DropBridgeInv(w, c);
    DisconnectClientInv(DropBridge(w, c), c);
    assert w.reg.handlers - {b} - {c} == w.reg.handlers - {c, b};
    assert w.open - {b} - {c} == w.open - {c, b};
  }

  /** With EPOLLRDHUP on the listener, it is taken out of the registry. */
  lemma HangUpOfListener(listener: int, es: seq<Event>, w: World, flags: Flags, data: string, newFd: Option<int>)
    requires Reached(listener, es, w) && w.listener in w.reg.handlers && flags.rdhup
    ensures var o := Step(w, Ready(w.listener, flags, data, newFd));
            o == Running(w.(reg := Unregister(w.reg, w.listener)), [])
            && o.world.reg.handlers == w.reg.handlers - {w.listener}
  {
    ReachedInv(listener, es, w);
    InvListens(w);
    UnregisterConsistent(w.reg, w.listener);
    hide Unregister, Inv;
  }

  /** Without EPOLLRDHUP, anything but plain EPOLLIN is passed over. */
  lemma NoPlainInput(w: World, fd: int, flags: Flags, data: string, newFd: Option<int>)
    requires !flags.rdhup && (flags.hup || flags.err || !flags.input)
    ensures Step(w, Ready(fd, flags, data, newFd)) == Running(w, [])
  {
  }

  /** And so is every event on a descriptor that is not registered. */
  lemma NotRegistered(w: World, fd: int, flags: Flags, data: string, newFd: Option<int>)
    requires fd !in w.reg.handlers
    ensures Step(w, Ready(fd, flags, data, newFd)) == Running(w, [])
  {
  }

  /** EPOLLIN alone runs the data handler: on a client and on a bridge that of this very client, with
      the bytes that were read. */
  lemma PlainInput(listener: int, es: seq<Event>, w: World, fd: int, data: string, newFd: Option<int>)
    requires Reached(listener, es, w) && fd in w.reg.handlers
    ensures var o := Step(w, Ready(fd, Flags(false, false, false, true), data, newFd));
            && (fd in w.clients ==> o == ClientData(w, fd, data, newFd))
            && (forall c | c in w.conMap && w.conMap[c].fd == fd ::
                  c in w.clients && o == BridgeData(w, c, w.clients[c], w.conMap[c].id, data))
            && (fd == w.listener ==> o == Accept(w, newFd))
  {
    ReachedInv(listener, es, w);
    InvListens(w);
    HandlersKnown(w);
    hide ClientData, BridgeData, Accept, Inv, Reached;
  }

  lemma HandlersKnown(w: World)
    requires Inv(w)
    ensures forall c | c in w.clients :: c in w.reg.handlers && w.reg.handlers[c] == OnClient
    ensures forall c | c in w.conMap ::
              && c in w.clients && w.conMap[c].fd in w.reg.handlers
              && w.reg.handlers[w.conMap[c].fd] == OnBridge(c, w.clients[c], w.conMap[c].id)
  {
    hide Consistent;
    forall c | c in w.clients ensures c in w.reg.handlers && w.reg.handlers[c] == OnClient {
      assert ClientOk(w, c);
    }
    forall c | c in w.conMap
      ensures && c in w.clients && w.conMap[c].fd in w.reg.handlers
              && w.reg.handlers[w.conMap[c].fd] == OnBridge(c, w.clients[c], w.conMap[c].id)
    {
      assert BridgeOk(w, c);
    }
  }

  /** An accept that succeeds makes a client with a request parser that has seen nothing, and registers
      it; one that fails ends the program. */
  lemma AcceptTables(listener: int, es: seq<Event>, w: World, c: int)
    requires Reached(listener, es, w) && c !in w.open
    ensures var o := Accept(w, Some(c));
            && o.Running? && o.out == []
            && o.world.clients == w.clients[c := w.nextId]
            && o.world.requests
               == w.requests[c := Q.Request("", "/", "HTTP/1.1", map[], "", "", false, false, false)]
            && o.world.conMap == w.conMap && o.world.reg.handlers == w.reg.handlers[c := OnClient]
            && o.world.open == w.open + {c} && o.world.listener == w.listener
    ensures Accept(w, None) == Halted(Uncaught)
  {
    ReachedInv(listener, es, w);
    W.FreshParsers();
    hide Consistent, Reached;
    assert c in w.clients ==> ClientOk(w, c);
    assert c !in w.reg.handlers;
  }

  /** What a bridge's bytes do, from the tables: its parser takes them, and a complete response, or an
      exception, makes room for a fresh one. */
  lemma BridgeDataTables(w: World, c: int, data: string)
    requires Inv(w) && c in w.conMap && c in w.clients
    ensures var b := w.conMap[c];
            var o, r := BridgeData(w, c, w.clients[c], b.id, data), R.AppendData(b.parser, data);
            var anew := R.Response("HTTP/1.1", 0, "", map[], "", "", false, false, false);
            && o.Running?
            && (r.Failure? ==> o == Running(w.(conMap := w.conMap[c := b.(parser := anew)]), []))
            && (r.Success? && r.value.titleParsed && r.value.headersParsed && r.value.bodyParsed ==>
                  o == Running(w.(conMap := w.conMap[c := b.(parser := anew)]), [ToClient(c, w.clients[c], r.value)]))
            && (r.Success? && !r.value.bodyParsed ==>
                  o == Running(w.(conMap := w.conMap[c := b.(parser := r.value)]), []))
  {
    W.FreshParsers();
    hide Consistent, R.AppendData;
    assert BridgeOk(w, c);
    B.ReceiveStaysIncomplete(w.conMap[c].parser, data);
  }
}
