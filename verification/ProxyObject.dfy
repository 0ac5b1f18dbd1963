/** The proxy as an object: the tables of `tcp_server`, `http_server` and `main` as fields, the
    event handlers as methods that edit them step by step, each proved to be the transition that
    the state machine prescribes and to keep its invariant. */
module ProxyObject {
  import opened Outcomes
  import opened Epoll
  import opened StateMachine
  import opened Safety
  import opened HttpRequestObject
  import opened HttpResponseObject
  import Q = Requests
  import R = Responses
  import B = BridgeStream

  class Proxy {
    const epoll: EpollWrapper<Handler>
    const listener: int
    var clients: map<int, nat>
    var requestMap: map<int, Q.Request>
    var conMap: map<int, Bridge>
    var nextId: nat
    ghost var open: set<int>

    ghost function State(): World
      reads this, epoll
    {
      World(epoll.State(), listener, clients, requestMap, conMap, open, nextId)
    }

    /** The server socket is bound and registered. */
    constructor (listener: int)
      ensures State() == Start(listener) && fresh(epoll)
    {
      this.listener := listener;
      clients, requestMap, conMap, nextId, open := map[], map[], map[], 0, {listener};
      var wrapper := new EpollWrapper<Handler>();
      epoll := wrapper;
      new;
      epoll.AddSocket(listener, OnListener);
    }

    /** tcp_server::disconnect_client: out of epoll, then destroyed, which closes it. */
    method Disconnect(fd: int)
      modifies this`clients, this`open, epoll
      ensures State() == DisconnectClient(old(State()), fd)
    {
      epoll.RemoveSocket(fd);
      clients := clients - {fd};
      open := open - {fd};
    }

    /** The bridge of a client: out of epoll, out of con_map, closed. */
    method CloseBridge(c: int)
      requires c in conMap
      modifies this`conMap, this`open, epoll
      ensures State() == DropBridge(old(State()), c)
    {
      var b := conMap[c].fd;
      epoll.RemoveSocket(b);
      conMap := conMap - {c};
      open := open - {b};
    }

    /** The listener's data handler.  A failed accept yields descriptor -1, on which setting a flag
        throws. */
    method OnAccept(newFd: Option<int>) returns (thrown: bool)
      modifies this, epoll
      ensures thrown ==> Accept(old(State()), newFd) == Halted(Uncaught)
      ensures !thrown ==> Accept(old(State()), newFd) == Running(State(), [])
    {
      if newFd.None? {
        return true;
      }
      var fd := newFd.value;
      open := open + {fd};
      if fd !in clients {
        clients := clients[fd := nextId];
      }
      nextId := nextId + 1;
      epoll.AddSocket(fd, OnClient);
      requestMap := requestMap[fd := Q.FRESH];
      thrown := false;
    }

    /** http_connection::query on the bridge of a client. */
    method SendQuery(c: int, r: Q.Request) returns (out: seq<Output>)
      requires c in conMap && c in clients
      modifies this`conMap, epoll
      ensures Query(old(State()), c, r) == Running(State(), out)
    {
      var b := conMap[c];
      if !b.alive {
        epoll.AddSocket(b.fd, OnBridge(c, clients[c], b.id));
        conMap := conMap[c := b.(alive := true, parser := R.FRESH)];
      }
      out := [ToServer(b.fd, b.host, r)];
    }

    /** The request callback of main. */
    method OnCompleteRequest(c: int, r: Q.Request, newFd: Option<int>) returns (out: seq<Output>)
      requires c in clients
      modifies this`conMap, this`open, this`nextId, epoll
      ensures OnRequest(old(State()), c, r, newFd) == Running(State(), out)
      ensures c in conMap ==> conMap[c].host == if "Host" in r.headers then r.headers["Host"] else ""
    {
      hide Register, Unregister;
      var host := HostOf(r);
      if c in conMap && conMap[c].host != host {
        CloseBridge(c);
      }
      if c !in conMap {
        if newFd.None? {
          return [];
        }
        open := open + {newFd.value};
        conMap := conMap[c := Bridge(host, newFd.value, nextId, false, R.FRESH)];
        nextId := nextId + 1;
      }
      out := SendQuery(c, r);
    }

    /** A client's data handler: a copy of its parser takes the data and goes back into the map; a
        complete request is passed on and erased.  The parser is incomplete, as AppendData demands,
        because the invariant says so. */
    method OnClientData(e: Event) returns (thrown: bool, out: seq<Output>)
      requires Inv(State()) && IsInput(e) && e.fd in clients
      modifies this, epoll
      ensures thrown ==> ClientData(old(State()), e.fd, e.data, e.newFd) == Halted(Uncaught)
      ensures !thrown ==> ClientData(old(State()), e.fd, e.data, e.newFd) == Running(State(), out)
    {
      hide OnRequest, Q.AppendData;
      out := [];
      var fd := e.fd;
      ParserIsIncomplete(State(), fd);
      if fd !in requestMap {
        requestMap := requestMap[fd := Q.FRESH];
      }
      ghost var before := State();
      var r := new HttpRequest.Copy(requestMap[fd]);
      var error := r.AppendData(e.data);
      if error.Some? {
        NotSpinning(before, fd, e.data);
        return true, [];
      }
      var parsed := r.State();
      requestMap := requestMap[fd := parsed];
      if r.IsComplete() {
        assert State() == old(State()).(requests := old(State()).requests[fd := parsed]);
        out := OnCompleteRequest(fd, parsed, e.newFd);
        requestMap := requestMap - {fd};
      }
      assert old(State()).requests[fd := parsed] == before.requests[fd := parsed];
      thrown := false;
    }

    /** A client's disconnect handler. */
    method OnClientClose(fd: int)
      requires fd in clients
      modifies this, epoll
      ensures ClientClose(old(State()), fd) == Running(State(), [])
    {
      hide Unregister;
      if fd in conMap {
        CloseBridge(fd);
      }
      requestMap := requestMap - {fd};
      Disconnect(fd);
    }

    /** A bridge's data handler.  Its closure holds references to the client and to the bridge;
        both are alive because the invariant says so. */
    method OnBridgeData(c: int, clientId: nat, bridgeId: nat, data: string) returns (out: seq<Output>)
      requires Inv(State()) && Live(State(), c, clientId, bridgeId)
      modifies this`conMap
      ensures BridgeData(old(State()), c, clientId, bridgeId, data) == Running(State(), out)
    {
      hide R.AppendData;
      out := [];
      assert BridgeOk(State(), c);
      var b := conMap[c];
      B.ReceiveStaysIncomplete(b.parser, data);
      var parser := new HttpResponse.Copy(b.parser);
      var error := parser.AppendData(data);
      if error.Some? {
        conMap := conMap[c := b.(parser := R.FRESH)];
      } else if parser.IsComplete() {
        out := [ToClient(c, clientId, parser.State())];
        conMap := conMap[c := b.(parser := R.FRESH)];
      } else {
        conMap := conMap[c := b.(parser := parser.State())];
      }
    }

    /** A bridge's disconnect handler: the bridge goes, and its client with it.  request_map keeps
        the client's entry. */
    method OnBridgeClose(c: int, clientId: nat, bridgeId: nat)
      requires Live(State(), c, clientId, bridgeId)
      modifies this`conMap, this`clients, this`open, epoll
      ensures BridgeClose(old(State()), c, clientId, bridgeId) == Running(State(), [])
    {
      hide Unregister;
      CloseBridge(c);
      Disconnect(c);
    }

    method Stop()
      modifies epoll
      ensures Step(old(State()), Event.Stop) == Running(State(), [])
    {
      epoll.RemoveSocket(listener);
    }

    /** One event of a batch. */
    method Dispatch(e: Event) returns (thrown: bool, out: seq<Output>)
      requires Inv(State()) && Legal(State(), e)
      modifies this, epoll
      ensures thrown ==> Step(old(State()), e) == Halted(Uncaught)
      ensures !thrown ==> Step(old(State()), e) == Running(State(), out) && Inv(State())
      ensures e.Ready? && e.flags.rdhup ==> !thrown && out == []
      ensures e.Ready? && !e.flags.rdhup && (e.flags.hup || e.flags.err || !e.flags.input) ==>
                !thrown && out == [] && State() == old(State())
    {
      hide Inv, Legal, Register, Unregister, ClientData, ClientClose, BridgeData, BridgeClose;
      StepInv(State(), e);
      thrown, out := false, [];
      if e.Stop? {
        Stop();
      } else if e.flags.rdhup {
        if e.fd in epoll.handlers {
          HandlerKnown(State(), e.fd);
          match epoll.handlers[e.fd] {
            case OnListener =>
            case OnClient => OnClientClose(e.fd);
            case OnBridge(c, cid, bid) => OnBridgeClose(c, cid, bid);
          }
          epoll.RemoveSocket(e.fd);
        }
      } else if e.flags.hup {
      } else if e.flags.err || !e.flags.input {
      } else {
        if e.fd in epoll.handlers {
          HandlerKnown(State(), e.fd);
          match epoll.handlers[e.fd] {
            case OnListener => thrown := OnAccept(e.newFd);
            case OnClient => thrown, out := OnClientData(e);
            case OnBridge(c, cid, bid) => out := OnBridgeData(c, cid, bid, e.data);
          }
        }
      }
    }

    /** process_events on a batch: the events in order, each against the tables as they are then. */
    method ProcessEvents(events: seq<Event>) returns (thrown: bool, out: seq<Output>)
      requires Inv(State()) && LegalRun(State(), events)
      modifies this, epoll
      ensures thrown ==> Run(old(State()), events) == Halted(Uncaught)
      ensures !thrown ==> Run(old(State()), events) == Running(State(), out) && Inv(State())
    {
      hide Inv, Legal, Step;
      out := [];
      for i := 0 to |events|
        invariant Inv(State())
        invariant Run(old(State()), events[..i]) == Running(State(), out)
      {
        RunStep(old(State()), events, i);
        ghost var before := State();
        var more;
        thrown, more := Dispatch(events[i]);
        if thrown {
          return true, out;
        }
        out := out + more;
        assert events[..i + 1][..i] == events[..i];
      }
      assert events[..|events|] == events;
      thrown := false;
    }
  }

  lemma NotSpinning(w: World, c: int, data: string)
    requires !RequestParser(w, c).bodyParsed
    ensures Q.AppendData(RequestParser(w, c), data) != Failure(NeverReturns)
  {
    hide Q.AppendData;
    Q.IncompleteReturns(RequestParser(w, c), data);
  }

  lemma HandlerKnown(w: World, fd: int)
    requires Inv(w) && fd in w.reg.handlers
    ensures match w.reg.handlers[fd]
            case OnListener => true
            case OnClient => fd in w.clients
            case OnBridge(c, cid, bid) => Live(w, c, cid, bid)
  {
    hide Consistent;
    assert HandlerOk(w, fd);
  }

  /** Every prefix of a legal run is legal, and if one prefix ends in an exception so does the run. */
  lemma {:induction false} RunStep(w: World, es: seq<Event>, i: nat)
    requires i < |es| && LegalRun(w, es)
    ensures LegalRun(w, es[..i])
    ensures Run(w, es[..i]).Running? ==> Legal(Run(w, es[..i]).world, es[i])
    ensures Run(w, es[..i]).Running? && Step(Run(w, es[..i]).world, es[i]).Halted? ==>
              Run(w, es) == Step(Run(w, es[..i]).world, es[i])
  {
    hide Legal, Step;
    if i < |es| - 1 {
      var init := es[..|es| - 1];
      assert init[..i] == es[..i];
      RunStep(w, init, i);
    } else {
      assert es[..i] == es[..|es| - 1];
    }
  }
}
