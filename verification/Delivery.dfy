/** What the proxy sends, in whole runs: every output is accounted for by the histories of the
    connections involved, and responses reach their client complete and in order. */
module Delivery {
  import opened Outcomes
  import opened Text
  import opened StartLines
  import opened Epoll
  import opened StateMachine
  import opened Safety
  import opened Routing
  import Q = Requests
  import R = Responses
  import B = BridgeStream
  import X = Rejections
  import C = ClientStream
  import Y = ResponseRejections
  import opened Headers
  import opened RawHeads

  // ---------------------------------------------------------------- routing

  lemma LegalRunSplits(w0: World, es: seq<Event>, e: Event)
    requires LegalRun(w0, es + [e])
    ensures LegalRun(w0, es)
    ensures Run(w0, es).Running? ==> Legal(Run(w0, es).world, e)
  {
    hide Legal, Step;
    assert (es + [e])[..|es|] == es;
  }

  /** What a bridge's input sends, exactly: the response that its bytes complete, to the client that
      owns the bridge, and nothing otherwise. */
  lemma DeliveredExactly(listener: int, es: seq<Event>, e: Event, c: int)
    requires LegalRun(Start(listener), es + [e]) && Run(Start(listener), es).Running?
    requires var w := Run(Start(listener), es).world; c in w.conMap && InputOn(e, w.conMap[c].fd)
    ensures var w := Run(Start(listener), es).world;
            var r := R.Feed(R.FRESH, BridgeSince(es, w.conMap[c].fd) + [e.data]);
            && c in w.clients && Step(w, e).Running?
            && Step(w, e).out == if r.Success? && r.value.Complete() then [ToClient(c, w.clients[c], r.value)] else []
  {
    hide Inv, Legal, Step, Run, LegalRun, R.Feed, R.AppendData, BridgeSince, Isolated;
    LegalRunSplits(Start(listener), es, e);
    Isolation(listener, es);
    var w := Run(Start(listener), es).world;
    IsolatedAt(es, w, c);
    HasBridgeHasClient(w, c);
    BridgeInput(w, e, c);
    BridgeFedFurther(BridgeSince(es, w.conMap[c].fd), w.conMap[c].parser, e.data);
  }

  /** The bytes a bridge loses, exactly: its input sends nothing and starts its parser afresh, because
      of an exception, if and only if the bytes since the last reset are rejected. */
  lemma ResponseIsDropped(listener: int, es: seq<Event>, e: Event, c: int)
    requires LegalRun(Start(listener), es + [e]) && Run(Start(listener), es).Running?
    requires var w := Run(Start(listener), es).world; c in w.conMap && InputOn(e, w.conMap[c].fd)
    ensures var w := Run(Start(listener), es).world;
            var fs := BridgeSince(es, w.conMap[c].fd) + [e.data];
            && (R.Feed(R.FRESH, fs).Failure? <==> Y.Rejected(fs))
            && (Y.Rejected(fs) ==>
                  Step(w, e) == Running(w.(conMap := w.conMap[c := w.conMap[c].(parser := R.FRESH)]), []))
  {
    hide Inv, Legal, Step, Run, LegalRun, R.Feed, R.AppendData, BridgeSince, Isolated, Y.Rejected;
    LegalRunSplits(Start(listener), es, e);
    Isolation(listener, es);
    var w := Run(Start(listener), es).world;
    IsolatedAt(es, w, c);
    HasBridgeHasClient(w, c);
    BridgeInput(w, e, c);
    BridgeIsIncomplete(w, c);
    var before := BridgeSince(es, w.conMap[c].fd);
    BridgeFedFurther(before, w.conMap[c].parser, e.data);
    assert (before + [e.data])[..|before|] == before;
    Y.ThrowsExactly(before + [e.data]);
  }

  lemma BridgeIsIncomplete(w: World, c: int)
    requires Inv(w) && c in w.conMap
    ensures !w.conMap[c].parser.bodyParsed
  {
    hide Consistent;
    assert BridgeOk(w, c);
  }

  /** A response goes to the client that owns the bridge whose bytes completed it; the bridge was
      opened for the Host of that client's last complete request. */
  predicate ResponseAccounted(es: seq<Event>, w: World, e: Event, o: Output)
    requires o.ToClient?
  {
    && o.fd in w.clients && w.clients[o.fd] == o.id
    && o.fd in w.conMap && InputOn(e, w.conMap[o.fd].fd)
    && LastHost(es, o.fd) == Some(w.conMap[o.fd].host)
    && R.Feed(R.FRESH, BridgeSince(es, w.conMap[o.fd].fd) + [e.data]) == Success(o.response)
    && o.response.Complete()
  }

  /** A request goes over the bridge that its client has afterwards, and both have its Host. */
  predicate RequestAccounted(es: seq<Event>, w: World, e: Event, w': World, o: Output)
    requires o.ToServer?
  {
    && IsInput(e) && e.fd in w.clients
    && Q.Feed(Q.FRESH, ClientSince(es, e.fd) + [e.data]) == Success(o.request) && o.request.Complete()
    && o.host == HostOf(o.request)
    && e.fd in w'.conMap && w'.conMap[e.fd].fd == o.fd && w'.conMap[e.fd].host == o.host
  }

  /** Routing safety in every run.  A step sends at most one thing.  A response that goes to a
      client was completed by the bytes of the bridge that this very client owns at that moment,
      and that bridge was opened for the Host of the client's last complete request.  A request
      that goes out was completed by the client's own bytes, and goes over the client's own bridge,
      opened for the Host it names. */
  lemma RoutingSafety(listener: int, es: seq<Event>, e: Event, o: Output)
    requires LegalRun(Start(listener), es + [e]) && Run(Start(listener), es).Running?
    requires var w := Run(Start(listener), es).world; Step(w, e).Running? && o in Step(w, e).out
    ensures var w := Run(Start(listener), es).world;
            && Step(w, e).out == [o]
            && (o.ToClient? ==> ResponseAccounted(es, w, e, o))
            && (o.ToServer? ==> RequestAccounted(es, w, e, Step(w, e).world, o))
  {
    hide Inv, Legal, Step, Run, LegalRun, R.Feed, Q.Feed, Q.AppendData, R.AppendData, BridgeSince, ClientSince,
      LastHost, Isolated, Connects;
    LegalRunSplits(Start(listener), es, e);
    Isolation(listener, es);
    var w := Run(Start(listener), es).world;
    var c := OutputHasSubject(w, e, o);
    IsolatedAt(es, w, c);
    if c in w.conMap && InputOn(e, w.conMap[c].fd) {
      DeliveredExactly(listener, es, e, c);
    } else {
      ClientInput(w, e);
      FedFurther(ClientSince(es, c), RequestParser(w, c), e.data);
    }
  }

  /** Only input from a client or from a bridge makes the proxy send anything. */
  lemma OutputHasSubject(w: World, e: Event, o: Output) returns (c: int)
    requires Inv(w) && Legal(w, e) && Step(w, e).Running? && o in Step(w, e).out
    ensures (c in w.conMap && InputOn(e, w.conMap[c].fd)) || (IsInput(e) && e.fd == c && c in w.clients)
  {
    hide Consistent, Unregister, Register, Q.AppendData, R.AppendData, ClientData, BridgeData, Legal;
    assert HandlerOk(w, e.fd);
    c := 0;
    if IsClose(e) {
      NoOutputOnClose(w, e);
    } else {
      match w.reg.handlers[e.fd]
      case OnListener =>
      case OnClient => c := e.fd;
      case OnBridge(x, _, _) => c := x;
    }
  }

  lemma NoOutputOnClose(w: World, e: Event)
    requires Inv(w) && IsClose(e) && Step(w, e).Running?
    ensures Step(w, e).out == []
  {
    hide Consistent, Unregister;
  }

  lemma ClientHandlerOnly(w: World, c: int)
    requires Inv(w) && c in w.conMap
    ensures c in w.clients && c in w.reg.handlers && w.reg.handlers[c] == OnClient
  {
    hide Consistent;
    assert BridgeOk(w, c);
    assert ClientOk(w, c);
  }

  lemma ReplacedInOnRequest(w: World, c: int, r: Q.Request, newFd: Option<int>)
    requires Inv(w) && c in w.conMap && c in w.clients && NeedsConnect(w, c, HostOf(r))
    ensures var o, b := OnRequest(w, c, r, newFd), w.conMap[c].fd;
            && o.Running?
            && (b !in o.world.reg.handlers
                || (newFd == Some(b) && c in o.world.conMap && o.world.conMap[c].fd == b
                    && o.world.conMap[c].parser == R.FRESH))
  {
    hide Inv, Unregister;
    DropBridgeInv(w, c);
    if newFd.Some? {
      QueryNew(DropBridge(w, c), c, HostOf(r), newFd.value, r);
    }
  }

  /** Once a client's bridge has been replaced, it is out of the registry, unless the kernel has
      handed its descriptor to the new bridge. */
  lemma ReplacedIsUnregistered(w: World, e: Event)
    requires Inv(w) && Legal(w, e) && Connects(w, e) && e.fd in w.conMap && Step(w, e).Running?
    ensures e.Ready?
    ensures var w', b := Step(w, e).world, w.conMap[e.fd];
            && Gone(w', e.fd, b.id)
            && (b.fd !in w'.reg.handlers || (HandsOut(e, b.fd) && e.fd in w'.conMap && w'.conMap[e.fd].fd == b.fd))
  {
    hide Inv, Q.AppendData, ClientData, Unregister, Register, BeforeConnect, OnRequest, Step, Legal;
    var c := e.fd;
    ClientHandlerOnly(w, c);
    var r := Q.AppendData(RequestParser(w, c), e.data).value;
    ClientDataIsOnRequest(w, e, r);
    ReplacedInOnRequest(w, c, r, e.newFd);
    ClientInput(w, e);
    NextIdGrows(w, e);
    IdIsUsed(w, c);
  }

  /** This serial number is used up, and client `c` has no bridge with it. */
  predicate Gone(w: World, c: int, id: nat) {
    id < w.nextId && (c in w.conMap ==> w.conMap[c].id != id)
  }

  lemma IdIsUsed(w: World, c: int)
    requires Inv(w) && c in w.conMap
    ensures w.conMap[c].id < w.nextId
  {
    hide Consistent;
    assert BridgeOk(w, c);
  }

  lemma NextIdGrows(w: World, e: Event)
    requires Step(w, e).Running?
    ensures w.nextId <= Step(w, e).world.nextId
  {
    hide Unregister, Register, Q.AppendData, R.AppendData, B.Receive;
  }

  lemma StepKeepsGone(w: World, e: Event, c: int, id: nat)
    requires Inv(w) && Legal(w, e) && Step(w, e).Running? && Gone(w, c, id)
    ensures Gone(Step(w, e).world, c, id)
  {
    hide Inv, Legal, Step, Subject, Accepts, Connects, Q.AppendData, B.Receive;
    NextIdGrows(w, e);
    if Subject(w, e) != Some(c) {
      StepTouchesOne(w, e, c);
    } else {
      SubjectCases(w, e, c);
      if IsClose(e) {
        ClosedIsGone(w, e, c);
      } else if InputOn(e, c) && c in w.clients {
        ClientInput(w, e);
      } else if c in w.conMap && InputOn(e, w.conMap[c].fd) {
        BridgeInput(w, e, c);
      } else {
        AcceptedIsFresh(w, e, c);
      }
    }
  }

  lemma {:induction false} GoneForGood(w: World, es: seq<Event>, c: int, id: nat)
    requires Inv(w) && Gone(w, c, id) && LegalRun(w, es) && Run(w, es).Running?
    ensures Inv(Run(w, es).world) && Gone(Run(w, es).world, c, id)
  {
    hide Inv, Legal, Step, Gone;
    if es != [] {
      GoneForGood(w, es[..|es| - 1], c, id);
      var w1 := Run(w, es[..|es| - 1]).world;
      StepInv(w1, es[|es| - 1]);
      StepKeepsGone(w1, es[|es| - 1], c, id);
    }
  }

  /** No handler stands for that bridge. */
  ghost predicate Silent(w: World, c: int, id: nat) {
    forall fd, clientId | fd in w.reg.handlers :: w.reg.handlers[fd] != OnBridge(c, clientId, id)
  }

  lemma GoneIsSilent(w: World, c: int, id: nat)
    requires Inv(w) && Gone(w, c, id)
    ensures Silent(w, c, id)
  {
    hide Consistent;
    forall fd, clientId | fd in w.reg.handlers ensures w.reg.handlers[fd] != OnBridge(c, clientId, id) {
      assert HandlerOk(w, fd);
    }
  }

  /** A bridge that is replaced is silent from then on, in every continuation of the run: no handler
      ever stands for it again, so that nothing its parser held can be delivered; and what epoll
      still reports for its descriptor is passed over until the kernel hands that out again. */
  lemma ReplacedBridgeIsSilent(w: World, e: Event, es: seq<Event>)
    requires Inv(w) && Legal(w, e) && Connects(w, e) && e.fd in w.conMap && Step(w, e).Running?
    requires LegalRun(Step(w, e).world, es) && Run(Step(w, e).world, es).Running?
    ensures Silent(Run(Step(w, e).world, es).world, e.fd, w.conMap[e.fd].id)
    ensures var w1, b := Step(w, e).world, w.conMap[e.fd].fd;
            (forall x | x in [e] + es :: !HandsOut(x, b)) ==> Run(w1, es) == Run(w1, Skip(es, b))
  {
    hide Inv, Legal, Step, Gone, Run, LegalRun, Connects, Skip, Silent;
    StepInv(w, e);
    ReplacedIsUnregistered(w, e);
    var w1, b := Step(w, e).world, w.conMap[e.fd];
    GoneForGood(w1, es, e.fd, b.id);
    GoneIsSilent(Run(w1, es).world, e.fd, b.id);
    if forall x | x in [e] + es :: !HandsOut(x, b.fd) {
      assert e in [e] + es;
      RemovedIsNeverDispatched(w1, es, b.fd);
    }
  }

  /** What a complete request does, in every run: it is sent once, over the bridge its client has if
      that one was opened for its Host, otherwise over the bridge that is opened now; only a connect
      that fails drops it. */
  lemma RequestIsForwarded(listener: int, es: seq<Event>, e: Event, r: Q.Request)
    requires LegalRun(Start(listener), es + [e]) && Run(Start(listener), es).Running?
    requires IsInput(e) && e.fd in Run(Start(listener), es).world.clients
    requires Q.Feed(Q.FRESH, ClientSince(es, e.fd) + [e.data]) == Success(r) && r.Complete()
    ensures var w, c := Run(Start(listener), es).world, e.fd;
            var keeps := c in w.conMap && LastHost(es, c) == Some(HostOf(r));
            var over := if keeps then Some(w.conMap[c].fd) else e.newFd;
            && Step(w, e).Running?
            && Step(w, e).out == (if over.Some? then [ToServer(over.value, HostOf(r), r)] else [])
            && (c in Step(w, e).world.conMap <==> over.Some?)
  {
    hide Inv, Legal, Step, Run, LegalRun, Q.Feed, Q.AppendData, ClientSince, LastHost, Isolated, R.Feed, BridgeSince;
    LegalRunSplits(Start(listener), es, e);
    Isolation(listener, es);
    var w := Run(Start(listener), es).world;
    IsolatedAt(es, w, e.fd);
    FedFurther(ClientSince(es, e.fd), RequestParser(w, e.fd), e.data);
    StepInv(w, e);
    ClientHandler(w, e.fd);
    ClientInput(w, e);
    DropBridgeDrops(w, e.fd);
  }

  /** The host in a request's own bytes: what the last of its "Host" lines says, or nothing if there
      is none. */
  ghost predicate NamesHost(fs: seq<string>, host: string) {
    fs != [] &&
    var ls := RawLines(HeadBytes(fs));
    Says(ls, KeepLastRaw, "Host", host) || (!Mentions(ls, "Host") && host == "")
  }

  lemma HostIsNamed(fs: seq<string>, r: Q.Request, host: string)
    requires NamesHost(fs, host) && Q.Feed(Q.FRESH, fs) == Success(r) && r.Complete()
    ensures HostOf(r) == host
  {
    hide Q.Feed, Says, Mentions, RawLines, HeadBytes;
    X.HeadersOfRun(fs, "Host", host);
  }

  /** Where a complete request goes, in every run, by its bytes: over its client's bridge if that one
      is to the host it names, otherwise over a bridge opened now to that host; and that bridge is
      then its client's. */
  lemma RequestGoesToItsHost(listener: int, es: seq<Event>, e: Event, r: Q.Request, host: string)
    requires LegalRun(Start(listener), es + [e]) && Run(Start(listener), es).Running?
    requires IsInput(e) && e.fd in Run(Start(listener), es).world.clients
    requires Q.Feed(Q.FRESH, ClientSince(es, e.fd) + [e.data]) == Success(r) && r.Complete()
    requires NamesHost(ClientSince(es, e.fd) + [e.data], host)
    ensures var w, c := Run(Start(listener), es).world, e.fd;
            var keeps := c in w.conMap && w.conMap[c].host == host;
            var over := if keeps then Some(w.conMap[c].fd) else e.newFd;
            && Step(w, e).Running?
            && var w' := Step(w, e).world;
               && Step(w, e).out == (if over.Some? then [ToServer(over.value, host, r)] else [])
               && (c in w'.conMap <==> over.Some?)
               && (c in w'.conMap ==> w'.conMap[c].host == host && w'.conMap[c].fd == over.value)
               && (keeps ==> w'.conMap[c] == w.conMap[c])
  {
    hide Inv, Legal, Step, Run, LegalRun, Q.Feed, Q.AppendData, ClientSince, LastHost, Isolated, R.Feed, BridgeSince,
      NamesHost;
    LegalRunSplits(Start(listener), es, e);
    Isolation(listener, es);
    var w := Run(Start(listener), es).world;
    IsolatedAt(es, w, e.fd);
    FedFurther(ClientSince(es, e.fd), RequestParser(w, e.fd), e.data);
    HostIsNamed(ClientSince(es, e.fd) + [e.data], r, host);
    StepInv(w, e);
    ClientHandler(w, e.fd);
    ClientInput(w, e);
    DropBridgeDrops(w, e.fd);
  }

  lemma DropBridgeDrops(w: World, c: int)
    ensures c in w.conMap ==> c !in DropBridge(w, c).conMap
  {
    hide Unregister;
  }

  // ---------------------------------------------------------------- how a run can end

  /** The program ends, in any run, exactly at an accept that fails or at input from a client that
      makes the bytes it has sent, since it was accepted or last completed a request, unacceptable:
      no request line in the first fragment, a header field with an empty value, or a header block
      that declares a length that is not a number. */
  lemma RunEndsExactly(listener: int, es: seq<Event>, e: Event)
    requires LegalRun(Start(listener), es + [e]) && Run(Start(listener), es).Running?
    ensures var w := Run(Start(listener), es).world;
            Step(w, e).Halted? <==>
              || (Accepts(w, e) && e.newFd.None?)
              || (IsInput(e) && e.fd in w.clients && X.Rejected(ClientSince(es, e.fd) + [e.data]))
  {
    hide Inv, Legal, Step, Run, LegalRun, Q.Feed, Q.AppendData, ClientSince, Isolated, X.Rejected;
    LegalRunSplits(Start(listener), es, e);
    Isolation(listener, es);
    var w := Run(Start(listener), es).world;
    StepInv(w, e);
    if IsInput(e) && e.fd in w.reg.handlers {
      RegisteredIsListed(w, e.fd);
    }
    if IsInput(e) && e.fd in w.clients {
      ClientHandler(w, e.fd);
      IsolatedAt(es, w, e.fd);
      FedFurther(ClientSince(es, e.fd), RequestParser(w, e.fd), e.data);
      ParserIsIncomplete(w, e.fd);
      var fs := ClientSince(es, e.fd) + [e.data];
      assert fs[..|fs| - 1] == ClientSince(es, e.fd);
      X.ThrowsExactly(fs);
    }
  }

  /** Such bytes need not be odd: a client that starts its request with a request line and a header
      field whose value is empty ends the program. */
  lemma EmptyFieldEndsRun(
      listener: int, es: seq<Event>, e: Event, verb: string, url: string, version: string, name: string)
    requires LegalRun(Start(listener), es + [e]) && Run(Start(listener), es).Running?
    requires IsInput(e) && e.fd in Run(Start(listener), es).world.clients && ClientSince(es, e.fd) == []
    requires ' ' !in verb && ' ' !in url && CrlfFree(version) && ':' !in name && CrlfFree(name)
    requires e.data == StartText(verb, url, version, name + ":" + CRLF)
    ensures Step(Run(Start(listener), es).world, e).Halted?
  {
    hide Run, LegalRun, Step, ClientSince, X.Rejected, CrlfFree, StartText;
    X.EmptyFieldIsRejected(verb, url, version, name);
    assert [] + [e.data] == [e.data];
    RunEndsExactly(listener, es, e);
  }

  // ---------------------------------------------------------------- dispatching batches

  /** The events without those on one descriptor. */
  function Skip(es: seq<Event>, fd: int): seq<Event> {
    if es == [] then []
    else
      var e, before := es[|es| - 1], Skip(es[..|es| - 1], fd);
      if e.Ready? && e.fd == fd then before else before + [e]
  }

  /** Batch dispatch is safe: once a descriptor has been removed and while the kernel does not hand
      it out again, its events, in this batch or later ones, might as well not be there. */
  lemma {:induction false} RemovedIsNeverDispatched(w: World, es: seq<Event>, fd: int)
    requires Inv(w) && LegalRun(w, es) && fd !in w.reg.handlers
    requires forall e | e in es :: !HandsOut(e, fd)
    ensures Run(w, es) == Run(w, Skip(es, fd))
    ensures Run(w, es).Running? ==> Inv(Run(w, es).world) && fd !in Run(w, es).world.reg.handlers
  {
    hide Inv, Legal, Step;
    if es != [] {
      var init, e := es[..|es| - 1], es[|es| - 1];
      RemovedIsNeverDispatched(w, init, fd);
      if Run(w, init).Running? {
        var w1 := Run(w, init).world;
        StepInv(w1, e);
        if Step(w1, e).Running? {
          OnlyHandedOutIsAdded(w1, e, fd);
        }
        if e.Ready? && e.fd == fd {
          UnregisteredIsPassedOver(w1, e);
          assert Run(w, init).out + [] == Run(w, init).out;
        }
      }
      assert (Skip(init, fd) + [e])[..|Skip(init, fd)|] == Skip(init, fd);
    }
  }

  // ---------------------------------------------------------------- one bridge in a busy system

  /** The fragments that arrive on a descriptor. */
  function InputsOn(es: seq<Event>, fd: int): seq<string> {
    if es == [] then []
    else
      var e, before := es[|es| - 1], InputsOn(es[..|es| - 1], fd);
      if InputOn(e, fd) then before + [e.data] else before
  }

  /** The responses sent to a client, in order. */
  function SentTo(out: seq<Output>, c: int): seq<R.Response> {
    if out == [] then []
    else
      var o, before := out[|out| - 1], SentTo(out[..|out| - 1], c);
      if o.ToClient? && o.fd == c then before + [o.response] else before
  }

  lemma {:induction false} SentToAppend(a: seq<Output>, b: seq<Output>, c: int)
    ensures SentTo(a + b, c) == SentTo(a, c) + SentTo(b, c)
  {
    if b == [] {
      assert a + b == a;
    } else {
      SentToAppend(a, b[..|b| - 1], c);
      assert (a + b)[..|a + b| - 1] == a + b[..|b| - 1];
    }
  }

  lemma SentToOne(o: Output, c: int)
    ensures SentTo([o], c) == if o.ToClient? && o.fd == c then [o.response] else []
  {
    assert [o][..0] == [];
  }

  lemma {:induction false} NothingSent(out: seq<Output>, c: int)
    requires forall o | o in out && o.ToClient? :: o.fd != c
    ensures SentTo(out, c) == []
  {
    if out != [] {
      NothingSent(out[..|out| - 1], c);
    }
  }

  /** The event leaves a client its bridge: neither of the two is closed, and the client does not
      ask for another host.  The client may well send more, even whole requests for the same Host;
      all other connections may do as they like. */
  predicate Spares(w: World, e: Event, c: int)
    requires c in w.conMap
  {
    e.Ready? ==>
      && (e.fd == c ==> !IsClose(e) && !Connects(w, e))
      && (e.fd == w.conMap[c].fd ==> !IsClose(e))
  }

  /** Every event of the run does. */
  predicate SparesAll(w: World, es: seq<Event>, c: int) {
    es == [] ||
    (SparesAll(w, es[..|es| - 1], c) &&
     match Run(w, es[..|es| - 1])
     case Halted(_) => true
     case Running(w1, _) => c in w1.conMap ==> Spares(w1, es[|es| - 1], c))
  }

  /** One event: it is input on the bridge, or it is the client's and keeps the bridge, or it is
      somebody else's. */
  lemma StepProjects(w: World, e: Event, c: int)
    requires Inv(w) && Legal(w, e) && Step(w, e).Running? && c in w.conMap && Spares(w, e, c)
    ensures var w', b := Step(w, e).world, w.conMap[c];
            var (p, done) := if InputOn(e, b.fd) then B.Receive(b.parser, e.data) else (b.parser, None);
            && c in w'.conMap && w'.conMap[c] == b.(parser := p)
            && SentTo(Step(w, e).out, c) == B.AsSeq(done)
  {
    hide Inv, Legal, Step, B.Receive, Connects, Q.AppendData, SentTo;
    HasBridgeHasClient(w, c);
    NothingSent([], c);
    if InputOn(e, w.conMap[c].fd) {
      BridgeInput(w, e, c);
      var done := B.Receive(w.conMap[c].parser, e.data).1;
      if done.Some? {
        SentToOne(ToClient(c, w.clients[c], done.value), c);
      }
    } else if InputOn(e, c) {
      ClientInput(w, e);
      NothingSent(Step(w, e).out, c);
    } else {
      NotTheSubject(w, e, c);
      StepTouchesOne(w, e, c);
      NothingSent(Step(w, e).out, c);
    }
  }

  lemma NotTheSubject(w: World, e: Event, c: int)
    requires Inv(w) && Legal(w, e) && c in w.conMap && Spares(w, e, c)
    requires !InputOn(e, w.conMap[c].fd) && !InputOn(e, c)
    ensures Subject(w, e) != Some(c)
  {
    hide Consistent, Legal, Connects;
    LiveIsNotHandedOut(w, e, c);
    HasBridgeHasClient(w, c);
    if e.Ready? && e.fd in w.reg.handlers {
      assert HandlerOk(w, e.fd);
    }
  }

  /** Non-interference: seen from one bridge, any run that leaves it to its client is the stream
      transducer on the bridge's own fragments.  What the other connections do in between, what the
      client itself sends, and which descriptors come and go, makes no difference to what this
      client is sent. */
  lemma {:induction false} BridgeProjection(w: World, es: seq<Event>, c: int)
    requires Inv(w) && LegalRun(w, es) && Run(w, es).Running? && c in w.conMap && SparesAll(w, es, c)
    ensures var w', out := Run(w, es).world, Run(w, es).out;
            var (p, sent) := B.ReceiveAll(w.conMap[c].parser, InputsOn(es, w.conMap[c].fd));
            && Inv(w') && c in w'.conMap && w'.conMap[c] == w.conMap[c].(parser := p)
            && SentTo(out, c) == sent
  {
    hide Inv, Legal, Step, Spares, B.Receive;
    if es != [] {
      var init, e, b := es[..|es| - 1], es[|es| - 1], w.conMap[c].fd;
      BridgeProjection(w, init, c);
      var w1 := Run(w, init).world;
      StepInv(w1, e);
      StepProjects(w1, e, c);
      SentToAppend(Run(w, init).out, Step(w1, e).out, c);
      if InputOn(e, b) {
        ReceiveOneMore(w.conMap[c].parser, InputsOn(init, b), e.data);
      } else {
        B.NoneAdded(SentTo(Run(w, init).out, c));
      }
    }
  }

  lemma ReceiveOneMore(parser: R.Response, fs: seq<string>, data: string)
    ensures var (p, sent) := B.ReceiveAll(parser, fs);
            var (p', done) := B.Receive(p, data);
            B.ReceiveAll(parser, fs + [data]) == (p', sent + B.AsSeq(done))
  {
    hide B.Receive;
    assert (fs + [data])[..|fs|] == fs;
  }

  /** In-order delivery by the whole system: take any reachable state in which a client's bridge is
      between responses, and any further run that leaves the client its bridge, whatever the client
      itself and all the other connections send.  If the bridge's fragments are well-formed
      responses, each quietly cut, the client is sent exactly those responses, one each, in order,
      with their own status, headers and body, and the bridge is between responses again. */
  lemma SystemInOrderDelivery(listener: int, es: seq<Event>, more: seq<Event>, c: int, ss: seq<B.Sent>)
    requires LegalRun(Start(listener), es) && Run(Start(listener), es).Running?
    requires var w := Run(Start(listener), es).world;
             && LegalRun(w, more) && Run(w, more).Running?
             && c in w.conMap && w.conMap[c].parser == R.FRESH && SparesAll(w, more, c)
             && InputsOn(more, w.conMap[c].fd) == B.Arrivals(ss)
    requires forall s | s in ss :: B.SentOk(s)
    ensures var w := Run(Start(listener), es).world;
            && SentTo(Run(w, more).out, c) == B.Meanings(ss)
            && c in Run(w, more).world.conMap && Run(w, more).world.conMap[c] == w.conMap[c]
  {
    hide Run, LegalRun, Inv, SparesAll, B.ReceiveAll, B.SentOk, InputsOn;
    RunSafety(listener, es);
    BridgeProjection(Run(Start(listener), es).world, more, c);
    B.InOrderDelivery(ss);
  }

  /** From the origin's bytes to the client's, in such a run: of the responses printed to it on its
      one connection, each print a fragment and its headers in any order, a client that reads as the
      proxy does gets exactly those before the first whose body the origin delimited by
      Content-Length, each as the origin meant it.  That one and all later ones are lost; its parser
      is ready for more if and only if there is none. */
  lemma SystemEndToEnd(
      listener: int, es: seq<Event>, more: seq<Event>, c: int, ss: seq<B.Sent>, orders: seq<seq<string>>)
    requires LegalRun(Start(listener), es) && Run(Start(listener), es).Running?
    requires var w := Run(Start(listener), es).world;
             && LegalRun(w, more) && Run(w, more).Running?
             && c in w.conMap && w.conMap[c].parser == R.FRESH && SparesAll(w, more, c)
             && InputsOn(more, w.conMap[c].fd) == B.Arrivals(ss)
    requires forall s | s in ss :: B.SentOk(s)
    requires |ss| == |orders|
    requires forall i | 0 <= i < |ss| :: B.SentOk(ss[i]) && Enumerates(orders[i], R.HeaderFold(ss[i].message))
    ensures var sent := SentTo(Run(Run(Start(listener), es).world, more).out, c);
            && sent == B.Meanings(ss) && C.Printable(sent, orders)
            && (forall i | 0 <= i < |ss| :: CONTENT_LENGTH in sent[i].headers <==> ss[i].message.body.Sized?)
            && var n, (p, got) := C.Uncounted(sent), B.ReceiveAll(R.FRESH, C.Prints(sent, orders));
               && C.SameMeanings(sent[..n], got)
               && (p == R.FRESH <==> n == |ss|) && (p != R.FRESH ==> C.Swallows(p))
  {
    SystemInOrderDelivery(listener, es, more, c, ss);
    hide Run, LegalRun, SparesAll, InputsOn, SentTo, B.SentOk, B.ReceiveAll, C.Printable, C.SameMeanings, C.Swallows,
      Enumerates, R.HeaderFold, B.Meanings;
    C.MeaningsArePrintable(ss, orders);
    C.ClientReads(B.Meanings(ss), orders);
  }
}
