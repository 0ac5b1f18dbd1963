/** Who gets what: per-connection histories read off the list of events alone, and the proof that
    the tables, descriptors reused and all, keep every connection's stream to itself. */
module Routing {
  import opened Outcomes
  import opened Epoll
  import opened StateMachine
  import opened Safety
  import Q = Requests
  import R = Responses
  import B = BridgeStream

  // ---------------------------------------------------------------- histories

  predicate InputOn(e: Event, x: int) {
    IsInput(e) && e.fd == x
  }

  /** For a client's descriptor: what arrived since the kernel last handed it out, or since the
      last request that was complete. */
  function ClientSince(es: seq<Event>, x: int): seq<string> {
    if es == [] then []
    else
      var e, before := es[|es| - 1], ClientSince(es[..|es| - 1], x);
      if HandsOut(e, x) then []
      else if InputOn(e, x) then
        var r := Q.Feed(Q.FRESH, before + [e.data]);
        if r.Success? && r.value.Complete() then [] else before + [e.data]
      else before
  }

  /** For a bridge's descriptor: what arrived since the kernel last handed it out, since the last
      response that was complete, or since the last exception. */
  function BridgeSince(es: seq<Event>, x: int): seq<string> {
    if es == [] then []
    else
      var e, before := es[|es| - 1], BridgeSince(es[..|es| - 1], x);
      if HandsOut(e, x) then []
      else if InputOn(e, x) then
        var r := R.Feed(R.FRESH, before + [e.data]);
        if r.Failure? || r.value.Complete() then [] else before + [e.data]
      else before
  }

  /** The Host of the last complete request on a client's descriptor, since it was handed out. */
  function LastHost(es: seq<Event>, x: int): Option<string> {
    if es == [] then None
    else
      var e, before := es[|es| - 1], LastHost(es[..|es| - 1], x);
      if HandsOut(e, x) then None
      else if InputOn(e, x) then
        var r := Q.Feed(Q.FRESH, ClientSince(es[..|es| - 1], x) + [e.data]);
        if r.Success? && r.value.Complete() then Some(HostOf(r.value)) else before
      else before
  }

  // ---------------------------------------------------------------- one event touches one client

  /** The client an event is about. */
  function Subject(w: World, e: Event): Option<int> {
    if e.Ready? && e.fd in w.reg.handlers && (IsClose(e) || IsInput(e)) then
      match w.reg.handlers[e.fd]
      case OnListener => if IsInput(e) then e.newFd else None
      case OnClient => Some(e.fd)
      case OnBridge(c, _, _) => Some(c)
    else None
  }

  /** A client, its request parser and its bridge are the same in both states. */
  predicate Untouched(w: World, w': World, x: int) {
    && (x in w.clients <==> x in w'.clients) && (x in w.clients ==> w.clients[x] == w'.clients[x])
    && (x in w.requests <==> x in w'.requests) && (x in w.requests ==> w.requests[x] == w'.requests[x])
    && (x in w.conMap <==> x in w'.conMap) && (x in w.conMap ==> w.conMap[x] == w'.conMap[x])
  }

  lemma OnRequestTouchesOne(w: World, c: int, r: Q.Request, newFd: Option<int>, x: int)
    requires c in w.clients && x != c
    ensures var o := OnRequest(w, c, r, newFd); o.Running? && Untouched(w, o.world, x)
    ensures forall y | y in OnRequest(w, c, r, newFd).out :: y.ToServer?
    ensures OnRequest(w, c, r, newFd).world.clients == w.clients
    ensures OnRequest(w, c, r, newFd).world.requests == w.requests
  {
    hide Unregister, Register;
  }

  lemma ClientDataTouchesOne(w: World, e: Event, x: int)
    requires e.Ready? && x != e.fd && ClientData(w, e.fd, e.data, e.newFd).Running?
    ensures var o := ClientData(w, e.fd, e.data, e.newFd);
            Untouched(w, o.world, x) && forall y | y in o.out :: y.ToServer?
  {
    hide Q.AppendData, OnRequest;
    var parsed := Q.AppendData(RequestParser(w, e.fd), e.data);
    if parsed.Success? && parsed.value.Complete() {
      var w1 := w.(requests := w.requests[e.fd := parsed.value]);
      OnRequestTouchesOne(w1, e.fd, parsed.value, e.newFd, x);
    }
  }

  /** An event changes nothing for any other client than its subject, and sends it nothing. */
  lemma StepTouchesOne(w: World, e: Event, x: int)
    requires Inv(w) && Step(w, e).Running? && Subject(w, e) != Some(x)
    ensures Untouched(w, Step(w, e).world, x)
    ensures forall y | y in Step(w, e).out && y.ToClient? :: y.fd != x
  {
    hide Unregister, Register, ClientData, B.Receive, R.AppendData, Consistent;
    if e.Ready? && e.fd in w.reg.handlers && (IsClose(e) || IsInput(e)) {
      assert HandlerOk(w, e.fd);
      if IsInput(e) && w.reg.handlers[e.fd].OnClient? {
        ClientDataTouchesOne(w, e, x);
      }
    }
  }

  // ---------------------------------------------------------------- what happens to the subject

  /** Neither a live client's descriptor nor its bridge's is handed out, unless the bridge is the
      one that this very event has just closed. */
  lemma LiveIsNotHandedOut(w: World, e: Event, x: int)
    requires Inv(w) && Legal(w, e)
    ensures x in w.clients ==> !HandsOut(e, x)
    ensures x in w.conMap && !InputOn(e, x) ==> !HandsOut(e, w.conMap[x].fd)
    ensures x in w.conMap && InputOn(e, x) && !Connects(w, e) ==> !HandsOut(e, w.conMap[x].fd)
  {
    hide Q.AppendData, Unregister, Consistent;
    if x in w.clients {
      assert ClientOk(w, x);
    }
    if x in w.conMap {
      assert BridgeOk(w, x);
    }
    if Connects(w, e) {
      ClientStaysOpen(w, e, x);
    }
  }

  lemma ClientStaysOpen(w: World, e: Event, x: int)
    requires Inv(w) && Connects(w, e)
    ensures x in w.clients ==> x in OpenAtConnect(w, e)
    ensures x in w.conMap && e.fd != x ==> w.conMap[x].fd in OpenAtConnect(w, e)
  {
    hide Q.AppendData, Unregister, Consistent;
    assert HandlerOk(w, e.fd);
    if x in w.clients {
      assert ClientOk(w, x);
    }
    if x in w.conMap {
      assert BridgeOk(w, x);
    }
    if e.fd in w.conMap {
      BridgesDiffer(w, e.fd);
    }
  }

  /** The bridge that is opened in this very event: on the descriptor handed out, under a serial
      number never used before, with a parser that has seen nothing. */
  predicate IsNewBridge(w: World, e: Event, b: Bridge) {
    HandsOut(e, b.fd) && b.id == w.nextId && b.parser == R.FRESH
  }

  /** A client's input, when the step goes through: its parser moves on, or a request is complete
      and goes out over a bridge that was opened for its Host, old or new; it is dropped exactly when
      a bridge is needed and cannot be opened. */
  lemma ClientInput(w: World, e: Event)
    requires Inv(w) && Legal(w, e) && IsInput(e) && e.fd in w.clients && Step(w, e).Running?
    ensures var c, o, parsed := e.fd, Step(w, e), Q.AppendData(RequestParser(w, e.fd), e.data);
            && parsed.Success? && c in o.world.clients && o.world.clients[c] == w.clients[c]
            && (!parsed.value.Complete() ==>
                  && RequestParser(o.world, c) == parsed.value && o.out == []
                  && o.world.conMap == w.conMap)
            && (parsed.value.Complete() ==>
                  && RequestParser(o.world, c) == Q.FRESH
                  && (c !in o.world.conMap <==> Connects(w, e) && e.newFd.None?)
                  && (c !in o.world.conMap ==> o.out == [])
                  && (c in o.world.conMap ==>
                        && o.world.conMap[c].host == HostOf(parsed.value)
                        && o.out == [ToServer(o.world.conMap[c].fd, HostOf(parsed.value), parsed.value)]
                        && (if Connects(w, e) then IsNewBridge(w, e, o.world.conMap[c])
                            else c in w.conMap && o.world.conMap[c] == w.conMap[c])))
  {
    hide Q.AppendData, Unregister, Register, Consistent, OnRequest, BeforeConnect, Inv;
    var c := e.fd;
    ClientHandler(w, c);
    var r := Q.AppendData(RequestParser(w, c), e.data).value;
    if r.Complete() {
      CompletedInv(w, e, r);
      OnRequestShape(w, c, r, e.newFd);
      var w1 := w.(requests := w.requests[c := r]);
    }
  }

  lemma OnRequestShape(w: World, c: int, r: Q.Request, newFd: Option<int>)
    requires Inv(w) && c in w.clients
    ensures var o, host := OnRequest(w, c, r, newFd), HostOf(r);
            && o.Running? && o.world.clients == w.clients
            && (c !in o.world.conMap <==> NeedsConnect(w, c, host) && newFd.None?)
            && (c !in o.world.conMap ==> o.out == [])
            && (c in o.world.conMap ==>
                  && o.world.conMap[c].host == host
                  && o.out == [ToServer(o.world.conMap[c].fd, host, r)]
                  && (if NeedsConnect(w, c, host)
                      then newFd == Some(o.world.conMap[c].fd) && o.world.conMap[c].parser == R.FRESH
                           && o.world.conMap[c].id == w.nextId
                      else c in w.conMap && o.world.conMap[c] == w.conMap[c]))
  {
    hide Unregister, Register, Inv;
    var host := HostOf(r);
    BeforeConnectInv(w, c, host);
    var w1 := BeforeConnect(w, c, host);
    if c in w1.conMap {
      QueryLive(w1, c, r);
    } else if newFd.Some? {
      QueryNew(w1, c, host, newFd.value, r);
    }
  }

  /** A bridge's input: the handler is its client's, and the stream transducer says the rest. */
  lemma BridgeInput(w: World, e: Event, c: int)
    requires Inv(w) && c in w.conMap && InputOn(e, w.conMap[c].fd)
    ensures var o, (p, done) := Step(w, e), B.Receive(w.conMap[c].parser, e.data);
            && o.Running? && o.world == w.(conMap := w.conMap[c := w.conMap[c].(parser := p)])
            && o.out == if done.Some? then [ToClient(c, w.clients[c], done.value)] else []
  {
    hide R.AppendData, B.Receive, Consistent;
    assert BridgeOk(w, c);
    BridgeDataInv(w, e.fd, e.data);
  }

  lemma ClosedIsGone(w: World, e: Event, c: int)
    requires Inv(w) && Step(w, e).Running? && IsClose(e) && Subject(w, e) == Some(c)
    ensures c !in Step(w, e).world.clients && c !in Step(w, e).world.conMap
    ensures Step(w, e).out == []
  {
    hide Unregister, Consistent;
    assert HandlerOk(w, e.fd);
    if c in w.conMap {
      assert BridgeOk(w, c);
    }
  }

  lemma AcceptedIsFresh(w: World, e: Event, c: int)
    requires Inv(w) && Legal(w, e) && Accepts(w, e) && e.newFd == Some(c)
    ensures var o := Step(w, e);
            o.Running? && o.out == [] && RequestParser(o.world, c) == Q.FRESH && c !in o.world.conMap
  {
    hide Register, Q.AppendData, Consistent;
    assert HandlerOk(w, e.fd);
    ListenerOnlyAccepts(w, e);
    assert c in w.clients ==> ClientOk(w, c);
    assert c in w.conMap ==> BridgeOk(w, c);
  }

  // ---------------------------------------------------------------- parser isolation

  /** Each client's request parser and its bridge's response parser are what their own histories
      make of a fresh parser, and the bridge belongs to the client's last Host. */
  ghost predicate Isolated(es: seq<Event>, w: World) {
    && (forall c | c in w.clients :: Q.Feed(Q.FRESH, ClientSince(es, c)) == Success(RequestParser(w, c)))
    && (forall c | c in w.conMap ::
          && R.Feed(R.FRESH, BridgeSince(es, w.conMap[c].fd)) == Success(w.conMap[c].parser)
          && LastHost(es, c) == Some(w.conMap[c].host))
  }

  lemma FedFurther(fs: seq<string>, r: Q.Request, data: string)
    requires Q.Feed(Q.FRESH, fs) == Success(r)
    ensures Q.Feed(Q.FRESH, fs + [data]) == Q.AppendData(r, data)
  {
    hide Q.AppendData;
    assert (fs + [data])[..|fs|] == fs;
  }

  lemma BridgeFedFurther(fs: seq<string>, r: R.Response, data: string)
    requires R.Feed(R.FRESH, fs) == Success(r)
    ensures R.Feed(R.FRESH, fs + [data]) == R.AppendData(r, data)
  {
    hide R.AppendData;
    assert (fs + [data])[..|fs|] == fs;
  }

  /** What one more event does to the histories. */
  lemma HistoryStep(es: seq<Event>, e: Event, x: int)
    requires e.Ready?
    ensures var s := ClientSince(es, x);
            var r := Q.Feed(Q.FRESH, s + [e.data]);
            var done := r.Success? && r.value.Complete();
            && ClientSince(es + [e], x) == (if HandsOut(e, x) then [] else if !InputOn(e, x) then s
                                            else if done then [] else s + [e.data])
            && LastHost(es + [e], x) == (if HandsOut(e, x) then None else if !InputOn(e, x) then LastHost(es, x)
                                         else if done then Some(HostOf(r.value)) else LastHost(es, x))
    ensures var s := BridgeSince(es, x);
            var r := R.Feed(R.FRESH, s + [e.data]);
            BridgeSince(es + [e], x) == (if HandsOut(e, x) then [] else if !InputOn(e, x) then s
                                         else if r.Failure? || r.value.Complete() then [] else s + [e.data])
  {
    hide Q.Feed, R.Feed, HostOf;
    assert (es + [e])[..|es|] == es;
  }

  lemma StopKeepsHistory(es: seq<Event>, x: int)
    ensures ClientSince(es + [Stop], x) == ClientSince(es, x)
    ensures BridgeSince(es + [Stop], x) == BridgeSince(es, x)
    ensures LastHost(es + [Stop], x) == LastHost(es, x)
  {
    hide Q.Feed, R.Feed;
    assert (es + [Stop])[..|es|] == es;
  }

  lemma NoInputOnOthers(w: World, e: Event, x: int)
    requires Inv(w) && e.Ready? && Subject(w, e) != Some(x)
    ensures x in w.clients ==> !InputOn(e, x)
    ensures x in w.conMap ==> !InputOn(e, w.conMap[x].fd)
  {
    hide Consistent;
    if x in w.clients {
      assert ClientOk(w, x);
    }
    if x in w.conMap {
      assert BridgeOk(w, x);
    }
  }

  ghost predicate IsolatedFor(es: seq<Event>, w: World, c: int) {
    && (c in w.clients ==> Q.Feed(Q.FRESH, ClientSince(es, c)) == Success(RequestParser(w, c)))
    && (c in w.conMap ==>
          && R.Feed(R.FRESH, BridgeSince(es, w.conMap[c].fd)) == Success(w.conMap[c].parser)
          && LastHost(es, c) == Some(w.conMap[c].host))
  }

  lemma OthersStayIsolated(es: seq<Event>, w: World, e: Event, x: int)
    requires Inv(w) && Legal(w, e) && Step(w, e).Running? && IsolatedFor(es, w, x)
    requires Subject(w, e) != Some(x)
    ensures IsolatedFor(es + [e], Step(w, e).world, x)
  {
    hide Inv, Legal, Step, Subject, Q.Feed, R.Feed, ClientSince, BridgeSince, LastHost;
    StepTouchesOne(w, e, x);
    HasBridgeHasClient(w, x);
    if e.Stop? {
      StopKeepsHistory(es, x);
      if x in w.conMap {
        StopKeepsHistory(es, w.conMap[x].fd);
      }
    } else {
      LiveIsNotHandedOut(w, e, x);
      NoInputOnOthers(w, e, x);
      HistoryStep(es, e, x);
      if x in w.conMap {
        HistoryStep(es, e, w.conMap[x].fd);
      }
    }
  }

  lemma HasBridgeHasClient(w: World, x: int)
    requires Inv(w)
    ensures x in w.conMap ==> x in w.clients
    ensures x in w.conMap ==> w.conMap[x].fd !in w.clients
  {
    hide Consistent;
    if x in w.conMap {
      assert BridgeOk(w, x);
      BridgesDiffer(w, x);
    }
  }

  lemma ClientInputStaysIsolated(es: seq<Event>, w: World, e: Event)
    requires Inv(w) && Legal(w, e) && Step(w, e).Running?
    requires IsInput(e) && e.fd in w.clients && IsolatedFor(es, w, e.fd)
    ensures IsolatedFor(es + [e], Step(w, e).world, e.fd)
  {
    hide Inv, Legal, Step, Q.Feed, R.Feed, ClientSince, BridgeSince, LastHost, Q.AppendData, Connects;
    var c := e.fd;
    ClientInput(w, e);
    LiveIsNotHandedOut(w, e, c);
    FedFurther(ClientSince(es, c), RequestParser(w, c), e.data);
    HistoryStep(es, e, c);
    HasBridgeHasClient(w, c);
    NothingFedIsFresh();
    var w' := Step(w, e).world;
    if c in w'.conMap {
      HistoryStep(es, e, w'.conMap[c].fd);
      IncompleteDoesNotConnect(w, e);
    }
  }

  lemma NothingFedIsFresh()
    ensures Q.Feed(Q.FRESH, []) == Success(Q.FRESH) && R.Feed(R.FRESH, []) == Success(R.FRESH)
  {
  }

  lemma IncompleteDoesNotConnect(w: World, e: Event)
    requires IsInput(e)
    ensures var parsed := Q.AppendData(RequestParser(w, e.fd), e.data);
            Connects(w, e) ==> parsed.Success? && parsed.value.Complete()
  {
    hide Q.AppendData;
  }

  lemma BridgeInputStaysIsolated(es: seq<Event>, w: World, e: Event, c: int)
    requires Inv(w) && Legal(w, e) && Step(w, e).Running? && IsolatedFor(es, w, c)
    requires c in w.conMap && InputOn(e, w.conMap[c].fd)
    ensures IsolatedFor(es + [e], Step(w, e).world, c)
  {
    hide Inv, Legal, Step, Q.Feed, R.Feed, ClientSince, BridgeSince, LastHost, R.AppendData;
    BridgeInput(w, e, c);
    HasBridgeHasClient(w, c);
    LiveIsNotHandedOut(w, e, c);
    var b := w.conMap[c].fd;
    BridgeFedFurther(BridgeSince(es, b), w.conMap[c].parser, e.data);
    HistoryStep(es, e, c);
    HistoryStep(es, e, b);
    NothingFedIsFresh();
  }

  lemma AcceptStaysIsolated(es: seq<Event>, w: World, e: Event, c: int)
    requires Inv(w) && Legal(w, e) && Accepts(w, e) && e.newFd == Some(c)
    ensures IsolatedFor(es + [e], Step(w, e).world, c)
  {
    hide Inv, Legal, Step, Q.Feed, R.Feed, ClientSince, BridgeSince, LastHost;
    AcceptedIsFresh(w, e, c);
    HistoryStep(es, e, c);
    NothingFedIsFresh();
  }

  /** The subject of an event is a client with input, one whose bridge has input, one that goes, or
      one that comes. */
  lemma SubjectCases(w: World, e: Event, c: int)
    requires Inv(w) && Subject(w, e) == Some(c)
    ensures || IsClose(e)
            || (InputOn(e, c) && c in w.clients)
            || (c in w.conMap && InputOn(e, w.conMap[c].fd))
            || (Accepts(w, e) && e.newFd == Some(c))
  {
    hide Consistent;
    assert HandlerOk(w, e.fd);
  }

  lemma SubjectStaysIsolated(es: seq<Event>, w: World, e: Event, c: int)
    requires Inv(w) && Legal(w, e) && Step(w, e).Running? && IsolatedFor(es, w, c)
    requires Subject(w, e) == Some(c)
    ensures IsolatedFor(es + [e], Step(w, e).world, c)
  {
    hide Inv, Legal, Step, Subject, Accepts, IsolatedFor;
    SubjectCases(w, e, c);
    if IsClose(e) {
      ClosedIsGone(w, e, c);
      GoneIsIsolated(es + [e], Step(w, e).world, c);
    } else if InputOn(e, c) && c in w.clients {
      ClientInputStaysIsolated(es, w, e);
    } else if c in w.conMap && InputOn(e, w.conMap[c].fd) {
      BridgeInputStaysIsolated(es, w, e, c);
    } else {
      AcceptStaysIsolated(es, w, e, c);
    }
  }

  lemma GoneIsIsolated(es: seq<Event>, w: World, c: int)
    requires c !in w.clients && c !in w.conMap
    ensures IsolatedFor(es, w, c)
  {
  }

  /** Isolation in every run: whatever the interleaving and however descriptors are reused, the
      parser of a client depends only on the bytes received since that client was accepted or last
      completed a request, although a bridge that closes disconnects its client without clearing
      request_map; the parser of a bridge depends only on the bytes of that bridge since it was
      opened or last reset; and a client's bridge was opened for the Host of its last complete
      request. */
  lemma {:induction false} Isolation(listener: int, es: seq<Event>)
    requires LegalRun(Start(listener), es) && Run(Start(listener), es).Running?
    ensures Inv(Run(Start(listener), es).world) && Isolated(es, Run(Start(listener), es).world)
  {
    hide Inv, Legal, Step, IsolatedFor;
    if es == [] {
      StartInv(listener);
    } else {
      var init, e := es[..|es| - 1], es[|es| - 1];
      Isolation(listener, init);
      var w := Run(Start(listener), init).world;
      var w' := Run(Start(listener), es).world;
      StepInv(w, e);
      forall c ensures IsolatedFor(es, w', c) {
        IsolatedAt(init, w, c);
        assert es == init + [e];
        if Subject(w, e) == Some(c) {
          SubjectStaysIsolated(init, w, e, c);
        } else {
          OthersStayIsolated(init, w, e, c);
        }
      }
      IsolatedAll(es, w');
    }
  }

  lemma IsolatedAt(es: seq<Event>, w: World, c: int)
    requires Isolated(es, w)
    ensures IsolatedFor(es, w, c)
  {
    hide Q.Feed, R.Feed, ClientSince, BridgeSince, LastHost;
  }

  lemma IsolatedAll(es: seq<Event>, w: World)
    requires forall c :: IsolatedFor(es, w, c)
    ensures Isolated(es, w)
  {
    hide Q.Feed, R.Feed, ClientSince, BridgeSince, LastHost;
    forall c | c in w.clients ensures Q.Feed(Q.FRESH, ClientSince(es, c)) == Success(RequestParser(w, c)) {
      assert IsolatedFor(es, w, c);
    }
    forall c | c in w.conMap
      ensures R.Feed(R.FRESH, BridgeSince(es, w.conMap[c].fd)) == Success(w.conMap[c].parser)
      ensures LastHost(es, c) == Some(w.conMap[c].host)
    {
      assert IsolatedFor(es, w, c);
    }
  }
}
