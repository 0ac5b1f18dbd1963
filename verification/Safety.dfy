/** The invariant of the proxy's tables, in every state of every run. */
module Safety {
  import opened Outcomes
  import opened Epoll
  import opened StateMachine
  import Q = Requests
  import R = Responses
  import B = BridgeStream

  // ---------------------------------------------------------------- the invariant

  /** A handler stands for exactly what the other tables say. */
  predicate HandlerOk(w: World, fd: int)
    requires fd in w.reg.handlers
  {
    match w.reg.handlers[fd]
    case OnListener => fd == w.listener
    case OnClient => fd in w.clients
    case OnBridge(c, cid, bid) => Live(w, c, cid, bid) && w.conMap[c].fd == fd
  }

  predicate ClientOk(w: World, c: int)
    requires c in w.clients
  {
    c != w.listener && c in w.reg.handlers && w.reg.handlers[c] == OnClient && w.clients[c] < w.nextId
  }

  predicate BridgeOk(w: World, c: int)
    requires c in w.conMap
  {
    var b := w.conMap[c];
    && c in w.clients && b.fd != w.listener && b.alive && b.id < w.nextId && !b.parser.bodyParsed
    && b.fd in w.reg.handlers && w.reg.handlers[b.fd] == OnBridge(c, w.clients[c], b.id)
  }

  ghost predicate Inv(w: World) {
    && Consistent(w.reg)
    && (forall fd | fd in w.reg.handlers :: HandlerOk(w, fd))
    && (forall c | c in w.clients :: ClientOk(w, c))
    && (forall c | c in w.conMap :: BridgeOk(w, c))
    && (forall c | c in w.requests :: !w.requests[c].bodyParsed)
    && w.open == {w.listener} + w.reg.handlers.Keys
  }

  lemma StartInv(listener: int)
    ensures Inv(Start(listener))
  {
    var reg: Registry<Handler> := Registry(map[], []);
    RegisterConsistent(reg, listener, OnListener);
    assert Start(listener).open == {listener} + Start(listener).reg.handlers.Keys;
  }

  /** No two clients share a bridge descriptor, and none is a client's. */
  lemma BridgesDiffer(w: World, c: int)
    requires Inv(w) && c in w.conMap
    ensures forall x | x in w.conMap && x != c :: w.conMap[x].fd != w.conMap[c].fd
    ensures w.conMap[c].fd !in w.clients
  {
    hide Consistent;
    assert BridgeOk(w, c);
    forall x | x in w.conMap && x != c ensures w.conMap[x].fd != w.conMap[c].fd {
      assert BridgeOk(w, x);
    }
    assert w.conMap[c].fd in w.clients ==> ClientOk(w, w.conMap[c].fd);
  }

  lemma DropBridgeInv(w: World, c: int)
    requires Inv(w) && c in w.conMap
    ensures Inv(DropBridge(w, c))
    ensures DropBridge(w, c).reg.handlers == w.reg.handlers - {w.conMap[c].fd}
  {
    hide Unregister, Consistent;
    var b := w.conMap[c].fd;
    assert BridgeOk(w, c);
    BridgesDiffer(w, c);
    UnregisterConsistent(w.reg, b);
    var w' := DropBridge(w, c);
    forall fd | fd in w'.reg.handlers ensures HandlerOk(w', fd) {
      assert HandlerOk(w, fd);
    }
    forall x | x in w'.clients ensures ClientOk(w', x) {
      assert ClientOk(w, x);
    }
    forall x | x in w'.conMap ensures BridgeOk(w', x) {
      assert BridgeOk(w, x);
    }
    assert w'.open == {w'.listener} + w'.reg.handlers.Keys;
  }

  lemma DisconnectClientInv(w: World, c: int)
    requires Inv(w) && c in w.clients && c !in w.conMap
    ensures Inv(DisconnectClient(w, c))
    ensures DisconnectClient(w, c).reg.handlers == w.reg.handlers - {c}
  {
    hide Unregister, Consistent;
    assert ClientOk(w, c);
    UnregisterConsistent(w.reg, c);
    var w' := DisconnectClient(w, c);
    forall fd | fd in w'.reg.handlers ensures HandlerOk(w', fd) {
      assert HandlerOk(w, fd);
    }
    forall x | x in w'.clients ensures ClientOk(w', x) {
      assert ClientOk(w, x);
    }
    forall x | x in w'.conMap ensures BridgeOk(w', x) {
      assert BridgeOk(w, x);
    }
    assert w'.open == {w'.listener} + w'.reg.handlers.Keys;
  }

  lemma UnregisterListenerInv(w: World)
    requires Inv(w)
    ensures Inv(w.(reg := Unregister(w.reg, w.listener)))
  {
    UnregisterConsistent(w.reg, w.listener);
    var w' := w.(reg := Unregister(w.reg, w.listener));
    hide Unregister;
    forall fd | fd in w'.reg.handlers ensures HandlerOk(w', fd) {
      assert HandlerOk(w, fd);
    }
    forall x | x in w'.clients ensures ClientOk(w', x) {
      assert ClientOk(w, x);
    }
    forall x | x in w'.conMap ensures BridgeOk(w', x) {
      assert BridgeOk(w, x);
    }
    assert w'.open == {w'.listener} + w'.reg.handlers.Keys;
  }

  lemma RequestsInv(w: World, requests: map<int, Q.Request>)
    requires Inv(w) && forall c | c in requests :: !requests[c].bodyParsed
    ensures Inv(w.(requests := requests))
  {
    hide Consistent;
    var w' := w.(requests := requests);
    forall fd | fd in w'.reg.handlers ensures HandlerOk(w', fd) {
      assert HandlerOk(w, fd);
    }
    forall x | x in w'.clients ensures ClientOk(w', x) {
      assert ClientOk(w, x);
    }
    forall x | x in w'.conMap ensures BridgeOk(w', x) {
      assert BridgeOk(w, x);
    }
  }

  lemma ParserInv(w: World, c: int, p: R.Response)
    requires Inv(w) && c in w.conMap && !p.bodyParsed
    ensures Inv(w.(conMap := w.conMap[c := w.conMap[c].(parser := p)]))
  {
    hide Consistent;
    var w' := w.(conMap := w.conMap[c := w.conMap[c].(parser := p)]);
    forall fd | fd in w'.reg.handlers ensures HandlerOk(w', fd) {
      assert HandlerOk(w, fd);
    }
    forall x | x in w'.clients ensures ClientOk(w', x) {
      assert ClientOk(w, x);
    }
    forall x | x in w'.conMap ensures BridgeOk(w', x) {
      assert BridgeOk(w, x);
    }
  }

  lemma AcceptInv(w: World, fd: int)
    requires Inv(w) && fd !in w.open
    ensures Accept(w, Some(fd)).Running? && Inv(Accept(w, Some(fd)).world)
  {
    hide Register, Consistent;
    assert fd in w.clients ==> ClientOk(w, fd);
    RegisterConsistent(w.reg, fd, OnClient);
    var w' := Accept(w, Some(fd)).world;
    forall x | x in w'.reg.handlers ensures HandlerOk(w', x) {
      assert x != fd ==> HandlerOk(w, x);
    }
    forall x | x in w'.clients ensures ClientOk(w', x) {
      assert x != fd ==> ClientOk(w, x);
    }
    forall x | x in w'.conMap ensures BridgeOk(w', x) {
      assert BridgeOk(w, x);
    }
    assert w'.open == {w'.listener} + w'.reg.handlers.Keys;
  }

  /** Opening a bridge: the new entry and its registration together keep the invariant. */
  function Connected(w: World, c: int, host: string, b: int): World
    requires c in w.clients
  {
    w.(conMap := w.conMap[c := Bridge(host, b, w.nextId, true, R.FRESH)],
       reg := Register(w.reg, b, OnBridge(c, w.clients[c], w.nextId)),
       open := w.open + {b}, nextId := w.nextId + 1)
  }

  lemma ConnectedInv(w: World, c: int, host: string, b: int)
    requires Inv(w) && c in w.clients && c !in w.conMap && b !in w.open
    ensures Inv(Connected(w, c, host, b))
    ensures Connected(w, c, host, b).reg.handlers == w.reg.handlers[b := OnBridge(c, w.clients[c], w.nextId)]
  {
    RegisterConsistent(w.reg, b, OnBridge(c, w.clients[c], w.nextId));
    var w' := Connected(w, c, host, b);
    hide Register;
    forall x | x in w'.reg.handlers ensures HandlerOk(w', x) {
      assert x != b ==> HandlerOk(w, x);
    }
    forall x | x in w'.clients ensures ClientOk(w', x) {
      assert ClientOk(w, x);
    }
    forall x | x in w'.conMap ensures BridgeOk(w', x) {
      assert x != c ==> BridgeOk(w, x);
    }
    assert w'.open == {w'.listener} + w'.reg.handlers.Keys;
  }

  // ---------------------------------------------------------------- one step

  /** What querying a bridge leaves, spelled out: nothing new on a live bridge. */
  lemma QueryLive(w: World, c: int, r: Q.Request)
    requires Inv(w) && c in w.conMap && c in w.clients
    ensures Query(w, c, r) == Running(w, [ToServer(w.conMap[c].fd, w.conMap[c].host, r)])
  {
    assert BridgeOk(w, c);
  }

  lemma QueryNew(w: World, c: int, host: string, b: int, r: Q.Request)
    requires c in w.clients && c !in w.conMap
    ensures Query(w.(conMap := w.conMap[c := Bridge(host, b, w.nextId, false, R.FRESH)],
                     open := w.open + {b}, nextId := w.nextId + 1), c, r)
         == Running(Connected(w, c, host, b), [ToServer(b, host, r)])
  {
    hide Register;
    var entry := Bridge(host, b, w.nextId, false, R.FRESH);
    assert w.conMap[c := entry][c := entry.(alive := true)] == w.conMap[c := entry.(alive := true)];
  }

  lemma BeforeConnectInv(w: World, c: int, host: string)
    requires Inv(w) && c in w.clients
    ensures var w1 := BeforeConnect(w, c, host);
            && Inv(w1) && w1.clients == w.clients && w1.requests == w.requests
            && w1.nextId == w.nextId && w1.listener == w.listener
            && (c in w1.conMap ==> c in w.conMap && w1.conMap == w.conMap && w1.conMap[c].host == host)
  {
    if WrongBridge(w, c, host) {
      DropBridgeInv(w, c);
    }
  }

  lemma OnRequestInv(w: World, c: int, r: Q.Request, newFd: Option<int>)
    requires Inv(w) && c in w.clients
    requires newFd.Some? && NeedsConnect(w, c, HostOf(r)) ==> newFd.value !in BeforeConnect(w, c, HostOf(r)).open
    ensures OnRequest(w, c, r, newFd).Running? && Inv(OnRequest(w, c, r, newFd).world)
    ensures OnRequest(w, c, r, newFd).world.requests == w.requests
  {
    hide Inv, Query;
    var host := HostOf(r);
    BeforeConnectInv(w, c, host);
    var w1 := BeforeConnect(w, c, host);
    if c in w1.conMap {
      QueryLive(w1, c, r);
    } else if newFd.Some? {
      QueryNew(w1, c, host, newFd.value, r);
      ConnectedInv(w1, c, host, newFd.value);
    }
  }

  /** The one way a step ends the program: an exception that nobody catches, from an accept that
      failed or from a request that cannot be parsed. */
  predicate Throws(w: World, e: Event) {
    IsInput(e) && e.fd in w.reg.handlers &&
    match w.reg.handlers[e.fd]
    case OnListener => e.newFd.None?
    case OnClient => Q.AppendData(RequestParser(w, e.fd), e.data).Failure?
    case OnBridge(_, _, _) => false
  }

  lemma ParserIsIncomplete(w: World, c: int)
    requires Inv(w)
    ensures !RequestParser(w, c).bodyParsed
  {
    hide Consistent;
  }

  lemma ParserReturns(w: World, c: int, data: string)
    requires Inv(w)
    ensures Q.AppendData(RequestParser(w, c), data) != Failure(NeverReturns)
    ensures var r := Q.AppendData(RequestParser(w, c), data);
            r.Success? && !r.value.Complete() ==> !r.value.bodyParsed
  {
    hide Q.AppendData;
    Q.IncompleteReturns(RequestParser(w, c), data);
  }

  lemma ClientDataInv(w: World, e: Event)
    requires Inv(w) && Legal(w, e) && IsInput(e) && e.fd in w.clients
    ensures var o := ClientData(w, e.fd, e.data, e.newFd);
            if Q.AppendData(RequestParser(w, e.fd), e.data).Failure? then o == Halted(Uncaught)
            else o.Running? && Inv(o.world)
  {
    hide Q.AppendData, OnRequest, BeforeConnect;
    var c := e.fd;
    assert ClientOk(w, c);
    ParserReturns(w, c, e.data);
    var parsed := Q.AppendData(RequestParser(w, c), e.data);
    if parsed.Success? {
      var r := parsed.value;
      if !r.Complete() {
        RequestsInv(w, w.requests[c := r]);
      } else {
        CompletedInv(w, e, r);
      }
    }
  }

  /** While the callback runs, request_map holds the complete request; it is erased right after. */
  lemma CompletedInv(w: World, e: Event, r: Q.Request)
    requires Inv(w) && Legal(w, e) && IsInput(e) && e.fd in w.clients
    requires Q.AppendData(RequestParser(w, e.fd), e.data) == Success(r) && r.Complete()
    ensures var o := OnRequest(w.(requests := w.requests[e.fd := r]), e.fd, r, e.newFd);
            && o.Running? && Inv(o.world.(requests := o.world.requests - {e.fd}))
            && OnRequest(w, e.fd, r, e.newFd) == Running(o.world.(requests := w.requests), o.out)
  {
    hide Q.AppendData, Query, Unregister;
    assert ClientOk(w, e.fd);
    var host := HostOf(r);
    assert Connects(w, e) == NeedsConnect(w, e.fd, host);
    NotAccepting(w, e);
    OnRequestInv(w, e.fd, r, e.newFd);
    OnRequestIgnoresRequests(w, e.fd, r, e.newFd, w.requests[e.fd := r]);
    var o := OnRequest(w, e.fd, r, e.newFd);
    RequestsInv(o.world, w.requests - {e.fd});
    assert w.requests[e.fd := r] - {e.fd} == w.requests - {e.fd};
  }

  lemma NotAccepting(w: World, e: Event)
    requires Inv(w) && IsInput(e) && e.fd in w.clients
    ensures !Accepts(w, e)
  {
    assert ClientOk(w, e.fd);
  }

  lemma OnRequestIgnoresRequests(w: World, c: int, r: Q.Request, newFd: Option<int>, requests: map<int, Q.Request>)
    requires c in w.clients
    ensures var o := OnRequest(w, c, r, newFd);
            OnRequest(w.(requests := requests), c, r, newFd) ==
            if o.Halted? then o else Running(o.world.(requests := requests), o.out)
  {
    hide Unregister, Register;
  }

  lemma ClientCloseInv(w: World, c: int)
    requires Inv(w) && c in w.clients
    ensures ClientClose(w, c).Running? && Inv(ClientClose(w, c).world)
    ensures c !in ClientClose(w, c).world.reg.handlers
  {
    hide Unregister;
    var w1 := w;
    if c in w.conMap {
      DropBridgeInv(w, c);
      w1 := DropBridge(w, c);
    }
    RequestsInv(w1, w1.requests - {c});
    var w2 := w1.(requests := w1.requests - {c});
    DisconnectClientInv(w2, c);
  }

  lemma BridgeCloseInv(w: World, fd: int)
    requires Inv(w) && fd in w.reg.handlers && w.reg.handlers[fd].OnBridge?
    ensures var h := w.reg.handlers[fd];
            var o := BridgeClose(w, h.client, h.clientId, h.bridgeId);
            o.Running? && Inv(o.world) && fd !in o.world.reg.handlers
  {
    hide Unregister;
    assert HandlerOk(w, fd);
    var c := w.reg.handlers[fd].client;
    DropBridgeInv(w, c);
    DisconnectClientInv(DropBridge(w, c), c);
  }

  lemma BridgeDataInv(w: World, fd: int, data: string)
    requires Inv(w) && fd in w.reg.handlers && w.reg.handlers[fd].OnBridge?
    ensures var h := w.reg.handlers[fd];
            var o := BridgeData(w, h.client, h.clientId, h.bridgeId, data);
            o.Running? && Inv(o.world)
  {
    hide R.AppendData, B.Receive;
    assert HandlerOk(w, fd);
    var c := w.reg.handlers[fd].client;
    assert BridgeOk(w, c);
    B.ReceiveStaysIncomplete(w.conMap[c].parser, data);
    ParserInv(w, c, B.Receive(w.conMap[c].parser, data).0);
  }

  /** Removing a descriptor that the disconnect handler has removed already changes nothing. */
  lemma SecondRemovalIsIdle(w: World, fd: int)
    requires Inv(w) && fd !in w.reg.handlers
    ensures w.(reg := Unregister(w.reg, fd)) == w
  {
  }

  /** A legal step from a good state leads to a good state, or ends the program by an uncaught
      exception, and the latter happens exactly when Throws says so.  It never spins, never makes a
      connection by operator[], never uses a connection that is gone. */
  lemma StepInv(w: World, e: Event)
    requires Inv(w) && Legal(w, e)
    ensures if Throws(w, e) then Step(w, e) == Halted(Uncaught)
            else Step(w, e).Running? && Inv(Step(w, e).world)
  {
    hide Unregister, Register, Q.AppendData, ClientData, ClientClose, BridgeClose, BridgeData;
    if e.Stop? {
      UnregisterListenerInv(w);
    } else if e.fd in w.reg.handlers {
      assert HandlerOk(w, e.fd);
      if IsClose(e) {
        CloseInv(w, e);
      } else if IsInput(e) {
        match w.reg.handlers[e.fd]
        case OnListener =>
          if e.newFd.Some? {
            ListenerOnlyAccepts(w, e);
            AcceptInv(w, e.newFd.value);
          }
        case OnClient => ClientDataInv(w, e);
        case OnBridge(_, _, _) => BridgeDataInv(w, e.fd, e.data);
      }
    }
  }

  lemma ListenerOnlyAccepts(w: World, e: Event)
    requires Legal(w, e) && IsInput(e) && e.newFd.Some? && e.fd in w.reg.handlers && w.reg.handlers[e.fd].OnListener?
    ensures e.newFd.value !in w.open
  {
    hide Q.AppendData;
  }

  lemma CloseInv(w: World, e: Event)
    requires Inv(w) && IsClose(e) && e.fd in w.reg.handlers
    ensures Step(w, e).Running? && Inv(Step(w, e).world)
  {
    hide Unregister, ClientClose, BridgeClose;
    assert HandlerOk(w, e.fd);
    match w.reg.handlers[e.fd]
    case OnListener => UnregisterListenerInv(w);
    case OnClient =>
      ClientCloseInv(w, e.fd);
      SecondRemovalIsIdle(ClientClose(w, e.fd).world, e.fd);
    case OnBridge(c, cid, bid) =>
      BridgeCloseInv(w, e.fd);
      SecondRemovalIsIdle(BridgeClose(w, c, cid, bid).world, e.fd);
  }

  // ---------------------------------------------------------------- what a step registers

  lemma ClientHandler(w: World, c: int)
    requires Inv(w) && c in w.clients
    ensures c in w.reg.handlers && w.reg.handlers[c] == OnClient
  {
    hide Consistent;
    assert ClientOk(w, c);
  }

  lemma ClientDataIsOnRequest(w: World, e: Event, r: Q.Request)
    requires Inv(w) && Legal(w, e) && IsInput(e) && e.fd in w.clients
    requires Q.AppendData(RequestParser(w, e.fd), e.data) == Success(r) && r.Complete()
    ensures var o, o' := Step(w, e), OnRequest(w, e.fd, r, e.newFd);
            && o.Running? && o'.Running? && o.world.reg == o'.world.reg && o.world.conMap == o'.world.conMap
            && o.out == o'.out
  {
    hide Q.AppendData, Unregister, Register, BeforeConnect, OnRequest, Inv;
    ClientHandler(w, e.fd);
    CompletedInv(w, e, r);
  }

  lemma RegisteredIsListed(w: World, fd: int)
    requires Inv(w) && fd in w.reg.handlers
    ensures w.reg.handlers[fd] == OnClient <==> fd in w.clients
  {
    hide Consistent;
    assert HandlerOk(w, fd);
    assert fd in w.clients ==> ClientOk(w, fd);
  }

  lemma OnRequestAdds(w: World, c: int, r: Q.Request, newFd: Option<int>, fd: int)
    requires Inv(w) && c in w.clients && fd !in w.reg.handlers && newFd != Some(fd)
    ensures OnRequest(w, c, r, newFd).Running? && fd !in OnRequest(w, c, r, newFd).world.reg.handlers
  {
    hide Inv;
    var host := HostOf(r);
    BeforeConnectInv(w, c, host);
    var w1 := BeforeConnect(w, c, host);
    if c in w1.conMap {
      QueryLive(w1, c, r);
    } else if newFd.Some? {
      QueryNew(w1, c, host, newFd.value, r);
    }
  }

  /** A step registers no descriptor but one that the kernel hands out in it. */
  lemma OnlyHandedOutIsAdded(w: World, e: Event, fd: int)
    requires Inv(w) && Legal(w, e) && Step(w, e).Running? && fd !in w.reg.handlers && !HandsOut(e, fd)
    ensures fd !in Step(w, e).world.reg.handlers
  {
    hide Consistent, Q.AppendData, R.AppendData, Inv, OnRequest, Legal;
    if e.Ready? && e.fd in w.reg.handlers && IsInput(e) && w.reg.handlers[e.fd].OnClient? {
      RegisteredIsListed(w, e.fd);
      var parsed := Q.AppendData(RequestParser(w, e.fd), e.data);
      if parsed.Success? && parsed.value.Complete() {
        ClientDataIsOnRequest(w, e, parsed.value);
        OnRequestAdds(w, e.fd, parsed.value, e.newFd, fd);
      }
    }
  }

  /** The events after which the proxy listens no more. */
  predicate StopsListening(e: Event, listener: int) {
    e.Stop? || (IsClose(e) && e.fd == listener)
  }

  lemma ListenerIsOpen(w: World, e: Event)
    requires Inv(w) && Legal(w, e)
    ensures !HandsOut(e, w.listener)
  {
    hide Q.AppendData, Inv, BeforeConnect;
    InvListens(w);
    if Connects(w, e) {
      var host := HostOf(Q.AppendData(RequestParser(w, e.fd), e.data).value);
      RegisteredIsListed(w, e.fd);
      BeforeConnectInv(w, e.fd, host);
      InvListens(BeforeConnect(w, e.fd, host));
    }
  }

  lemma InvListens(w: World)
    requires Inv(w)
    ensures w.listener in w.open
    ensures w.listener in w.reg.handlers ==> w.reg.handlers[w.listener] == OnListener
    ensures w.listener !in w.clients && forall c | c in w.conMap :: w.conMap[c].fd != w.listener
  {
    hide Consistent;
    if w.listener in w.reg.handlers {
      assert HandlerOk(w, w.listener);
    }
    assert w.listener in w.clients ==> ClientOk(w, w.listener);
    forall c | c in w.conMap ensures w.conMap[c].fd != w.listener {
      assert BridgeOk(w, c);
    }
  }

  lemma UnregisterKeepsOthers(reg: Registry<Handler>, fd: int, x: int)
    requires x != fd
    ensures x in Unregister(reg, fd).handlers <==> x in reg.handlers
  {
  }

  lemma OnRequestListens(w: World, c: int, r: Q.Request, newFd: Option<int>)
    requires Inv(w) && c in w.clients && w.listener in w.reg.handlers
    ensures OnRequest(w, c, r, newFd).Running?
    ensures var w' := OnRequest(w, c, r, newFd).world; w'.listener == w.listener && w.listener in w'.reg.handlers
  {
    hide Inv, Unregister;
    InvListens(w);
    var host := HostOf(r);
    BeforeConnectInv(w, c, host);
    if c in w.conMap {
      UnregisterKeepsOthers(w.reg, w.conMap[c].fd, w.listener);
    }
    var w1 := BeforeConnect(w, c, host);
    if c in w1.conMap {
      QueryLive(w1, c, r);
    } else if newFd.Some? {
      QueryNew(w1, c, host, newFd.value, r);
    }
  }

  lemma CloseListens(w: World, e: Event)
    requires Inv(w) && IsClose(e) && e.fd in w.reg.handlers && Step(w, e).Running?
    requires w.listener in w.reg.handlers && e.fd != w.listener
    ensures w.listener in Step(w, e).world.reg.handlers
  {
    InvListens(w);
    assert HandlerOk(w, e.fd);
    hide Inv, Unregister, Consistent;
    var c := if w.reg.handlers[e.fd].OnBridge? then w.reg.handlers[e.fd].client else e.fd;
    var r1 := if c in w.conMap then Unregister(w.reg, w.conMap[c].fd) else w.reg;
    if c in w.conMap {
      UnregisterKeepsOthers(w.reg, w.conMap[c].fd, w.listener);
    }
    if c in w.clients {
      UnregisterKeepsOthers(r1, c, w.listener);
    }
    UnregisterKeepsOthers(Unregister(r1, c), e.fd, w.listener);
    UnregisterKeepsOthers(r1, e.fd, w.listener);
  }

  lemma InputListens(w: World, e: Event)
    requires Inv(w) && Legal(w, e) && IsInput(e) && e.fd in w.reg.handlers && Step(w, e).Running?
    requires w.listener in w.reg.handlers
    ensures w.listener in Step(w, e).world.reg.handlers
  {
    hide Inv, Q.AppendData, R.AppendData, B.Receive, OnRequest, Legal;
    match w.reg.handlers[e.fd]
    case OnListener =>
    case OnBridge(_, _, _) =>
    case OnClient =>
      RegisteredIsListed(w, e.fd);
      var parsed := Q.AppendData(RequestParser(w, e.fd), e.data);
      if parsed.Success? && parsed.value.Complete() {
        ClientDataIsOnRequest(w, e, parsed.value);
        OnRequestListens(w, e.fd, parsed.value, e.newFd);
      }
  }

  lemma StepKeepsListener(w: World, e: Event)
    requires Step(w, e).Running?
    ensures Step(w, e).world.listener == w.listener
  {
    hide Unregister, Register, Q.AppendData, R.AppendData, B.Receive;
  }

  lemma StoppedIsGone(w: World, e: Event)
    requires Inv(w) && Step(w, e).Running? && StopsListening(e, w.listener)
    ensures w.listener !in Step(w, e).world.reg.handlers
  {
    InvListens(w);
    UnregisterConsistent(w.reg, w.listener);
    hide Inv, Unregister;
  }

  /** Dispatch asks the registry at the moment of the event: a descriptor that is not registered,
      say because an earlier event of the batch removed it, is passed over. */
  lemma UnregisteredIsPassedOver(w: World, e: Event)
    requires e.Ready? && e.fd !in w.reg.handlers
    ensures Step(w, e) == Running(w, [])
  {
  }

  /** A step ends the listening exactly if it is one of those events, and none resumes it. */
  lemma ListenerStep(w: World, e: Event)
    requires Inv(w) && Legal(w, e) && Step(w, e).Running?
    ensures w.listener in Step(w, e).world.reg.handlers
       <==> w.listener in w.reg.handlers && !StopsListening(e, w.listener)
  {
    hide Inv, Legal, Step;
    if StopsListening(e, w.listener) {
      StoppedIsGone(w, e);
    } else if w.listener !in w.reg.handlers {
      ListenerIsOpen(w, e);
      OnlyHandedOutIsAdded(w, e, w.listener);
    } else if e.fd !in w.reg.handlers {
      UnregisteredIsPassedOver(w, e);
    } else if IsClose(e) {
      CloseListens(w, e);
    } else if IsInput(e) {
      InputListens(w, e);
    } else {
      OtherFlagsAreIgnored(w, e);
    }
  }

  lemma OtherFlagsAreIgnored(w: World, e: Event)
    requires e.Ready? && !IsClose(e) && !IsInput(e)
    ensures Step(w, e) == Running(w, [])
  {
  }

  // ---------------------------------------------------------------- whole runs

  /** Safety of whole runs: in any list of events that the kernel may report, in any batches, with
      descriptors reused at will, the tables stay consistent, no parser ever spins, no closure ever
      touches a dead connection and no operator[] ever makes one. */
  lemma {:induction false} RunSafety(listener: int, es: seq<Event>)
    requires LegalRun(Start(listener), es)
    ensures match Run(Start(listener), es)
            case Running(w, _) => Inv(w)
            case Halted(f) => f == Uncaught
  {
    hide Step, Legal, Inv;
    if es == [] {
      StartInv(listener);
    } else {
      RunSafety(listener, es[..|es| - 1]);
      var o := Run(Start(listener), es[..|es| - 1]);
      if o.Running? {
        StepInv(o.world, es[|es| - 1]);
      }
    }
  }

  lemma {:induction false} ListensUntilStopped(listener: int, es: seq<Event>)
    requires LegalRun(Start(listener), es) && Run(Start(listener), es).Running?
    ensures var w := Run(Start(listener), es).world;
            && w.listener == listener
            && (listener in w.reg.handlers <==> forall e | e in es :: !StopsListening(e, listener))
  {
    hide Inv, Legal, Step, StopsListening;
    if es != [] {
      var init, e := es[..|es| - 1], es[|es| - 1];
      ListensUntilStopped(listener, init);
      RunSafety(listener, init);
      var w := Run(Start(listener), init).world;
      ListenerStep(w, e);
      StepKeepsListener(w, e);
      assert forall x :: x in es <==> x in init || x == e by {
        assert es == init + [e];
      }
    }
  }

  function BridgeFds(w: World): set<int> {
    set c | c in w.conMap :: w.conMap[c].fd
  }

  /** The tables that different files edit agree in every reachable state: the keys of `handlers`
      are the listener (until it is stopped), the clients and the bridges; these are pairwise
      distinct; only live clients have bridges and no two share one; `fdStatus` has one entry per
      key; the open descriptors are those and no others, so none leaks; and every parser that is
      kept, in request_map or behind a bridge, is incomplete. */
  lemma TablesAgree(listener: int, es: seq<Event>, w: World, out: seq<Output>)
    requires LegalRun(Start(listener), es) && Run(Start(listener), es) == Running(w, out)
    ensures var listening := forall e | e in es :: !StopsListening(e, listener);
            w.reg.handlers.Keys == (if listening then {listener} else {}) + w.clients.Keys + BridgeFds(w)
    ensures w.clients.Keys !! BridgeFds(w) && listener !in w.clients.Keys + BridgeFds(w)
    ensures w.conMap.Keys <= w.clients.Keys
    ensures forall c, d | c in w.conMap && d in w.conMap && c != d :: w.conMap[c].fd != w.conMap[d].fd
    ensures Unique(w.reg.fdStatus) && forall fd :: fd in w.reg.fdStatus <==> fd in w.reg.handlers
    ensures w.open == {listener} + w.clients.Keys + BridgeFds(w)
    ensures forall c | c in w.requests :: !w.requests[c].Complete()
    ensures forall c | c in w.conMap :: !w.conMap[c].parser.Complete()
  {
    hide LegalRun, Run, StopsListening;
    RunSafety(listener, es);
    ListensUntilStopped(listener, es);
    KeysSplit(w);
    assert w.reg.handlers.Keys
        == (if listener in w.reg.handlers then {listener} else {}) + (w.reg.handlers.Keys - {listener});
    forall c, d | c in w.conMap && d in w.conMap && c != d ensures w.conMap[c].fd != w.conMap[d].fd {
      BridgesDiffer(w, c);
    }
    forall c | c in w.conMap ensures c in w.clients && !w.conMap[c].parser.Complete() {
      assert BridgeOk(w, c);
    }
  }

  lemma KeysSplit(w: World)
    requires Inv(w)
    ensures w.reg.handlers.Keys - {w.listener} == w.clients.Keys + BridgeFds(w)
    ensures w.clients.Keys !! BridgeFds(w) && w.listener !in w.clients.Keys + BridgeFds(w)
    ensures w.open == {w.listener} + w.clients.Keys + BridgeFds(w)
  {
    hide Consistent;
    var bridges := BridgeFds(w);
    forall fd | fd in w.reg.handlers.Keys - {w.listener} ensures fd in w.clients.Keys + bridges {
      assert HandlerOk(w, fd);
    }
    forall fd | fd in w.clients.Keys ensures fd in w.reg.handlers.Keys - {w.listener} {
      assert ClientOk(w, fd);
    }
    forall c | c in w.conMap ensures w.conMap[c].fd !in w.clients {
      BridgesDiffer(w, c);
    }
    forall fd | fd in bridges ensures fd in w.reg.handlers.Keys - {w.listener} {
      var c :| c in w.conMap && w.conMap[c].fd == fd;
      assert BridgeOk(w, c);
    }
  }
}
