/** The proxy as an event-driven state machine: the tables that `tcp_server`, `http_server`,
    `http_connection` and `main` edit, and what every event makes of them.  Branches that the proxy
    should never take (a map operator[] that would create a connection, a closure whose object is
    gone, a parser that never returns) are part of the model and end in a fault. */
module StateMachine {
  import opened Outcomes
  import opened Epoll
  import Q = Requests
  import R = Responses
  import B = BridgeStream

  /** The closures registered with epoll, with what they capture: the listener's and the clients'
      find their objects by descriptor, a bridge's holds references to its client's connection and
      to its own, which are identified here by serial numbers. */
  datatype Handler = OnListener | OnClient | OnBridge(client: int, clientId: nat, bridgeId: nat)

  /** An entry of con_map, with the response parser that the bridge's closures own. */
  datatype Bridge = Bridge(host: string, fd: int, id: nat, alive: bool, parser: R.Response)

  datatype World = World(
    reg: Registry<Handler>, listener: int, clients: map<int, nat>, requests: map<int, Q.Request>,
    conMap: map<int, Bridge>, open: set<int>, nextId: nat)

  datatype Flags = Flags(rdhup: bool, hup: bool, err: bool, input: bool)

  /** A descriptor reported by epoll, or the stop signal.  `data` is what reading the descriptor
      returns, `newFd` what accept or connect returns if the handler calls it. */
  datatype Event = Stop | Ready(fd: int, flags: Flags, data: string, newFd: Option<int>)

  datatype Output =
    | ToClient(fd: int, id: nat, response: R.Response)
    | ToServer(fd: int, host: string, request: Q.Request)

  datatype Fault =
    | Uncaught           // an exception leaves main
    | Spins              // a parser loops for ever
    | DefaultConnection  // operator[] makes a connection to localhost
    | Dangling           // a closure uses a connection that no longer exists

  datatype Outcome = Running(world: World, out: seq<Output>) | Halted(fault: Fault)

  function Start(listener: int): World {
    World(Register(Registry(map[], []), listener, OnListener), listener, map[], map[], map[], {listener}, 0)
  }

  // ---------------------------------------------------------------- pieces of the handlers

  /** Removes the bridge of a client from epoll and from con_map, which closes it. */
  function DropBridge(w: World, c: int): World
    requires c in w.conMap
  {
    var b := w.conMap[c].fd;
    w.(reg := Unregister(w.reg, b), conMap := w.conMap - {c}, open := w.open - {b})
  }

  /** tcp_server::disconnect_client. */
  function DisconnectClient(w: World, c: int): World {
    w.(reg := Unregister(w.reg, c), clients := w.clients - {c}, open := w.open - {c})
  }

  /** The accept handler. */
  function Accept(w: World, newFd: Option<int>): Outcome {
    match newFd
    case None => Halted(Uncaught)  // setting a flag on descriptor -1 throws
    case Some(fd) =>
      Running(w.(clients := if fd in w.clients then w.clients else w.clients[fd := w.nextId],
                 reg := Register(w.reg, fd, OnClient),
                 requests := w.requests[fd := Q.FRESH],
                 open := w.open + {fd},
                 nextId := w.nextId + 1), [])
  }

  /** request.get_headers()["Host"]. */
  function HostOf(r: Q.Request): string {
    if Q.HOST in r.headers then r.headers[Q.HOST] else ""
  }

  predicate WrongBridge(w: World, c: int, host: string) {
    c in w.conMap && w.conMap[c].host != host
  }

  /** The table of bridges as it is when the handler may have to connect. */
  function BeforeConnect(w: World, c: int, host: string): World {
    if WrongBridge(w, c, host) then DropBridge(w, c) else w
  }

  predicate NeedsConnect(w: World, c: int, host: string) {
    c !in BeforeConnect(w, c, host).conMap
  }

  /** http_connection::query: the first query on a bridge registers its handlers. */
  function Query(w: World, c: int, r: Q.Request): Outcome
    requires c in w.conMap && c in w.clients
  {
    var b := w.conMap[c];
    var w1 := if b.alive then w
              else w.(reg := Register(w.reg, b.fd, OnBridge(c, w.clients[c], b.id)),
                      conMap := w.conMap[c := b.(alive := true, parser := R.FRESH)]);
    Running(w1, [ToServer(b.fd, b.host, r)])
  }

  /** The request callback of main: keep the bridge, or replace it, or open one; a bridge that
      cannot be opened is an exception that is caught, and the request is dropped. */
  function OnRequest(w: World, c: int, r: Q.Request, newFd: Option<int>): Outcome
    requires c in w.clients
  {
    var host := HostOf(r);
    var w1 := BeforeConnect(w, c, host);
    if c in w1.conMap then Query(w1, c, r)
    else
      match newFd
      case None => Running(w1, [])
      case Some(b) =>
        Query(w1.(conMap := w1.conMap[c := Bridge(host, b, w1.nextId, false, R.FRESH)],
                  open := w1.open + {b}, nextId := w1.nextId + 1), c, r)
  }

  function RequestParser(w: World, c: int): Q.Request {
    if c in w.requests then w.requests[c] else Q.FRESH
  }

  /** The data handler of a client. */
  function ClientData(w: World, c: int, data: string, newFd: Option<int>): Outcome {
    if c !in w.clients then Halted(DefaultConnection)
    else
      match Q.AppendData(RequestParser(w, c), data)
      case Failure(e) => Halted(if e == NeverReturns then Spins else Uncaught)
      case Success(r) =>
        var w1 := w.(requests := w.requests[c := r]);
        if !r.Complete() then Running(w1, [])
        else
          match OnRequest(w1, c, r, newFd)
          case Halted(f) => Halted(f)
          case Running(w2, out) => Running(w2.(requests := w2.requests - {c}), out)
  }

  /** The disconnect handler of a client. */
  function ClientClose(w: World, c: int): Outcome {
    if c !in w.clients then Halted(DefaultConnection)
    else
      var w1 := if c in w.conMap then DropBridge(w, c) else w;
      Running(DisconnectClient(w1.(requests := w1.requests - {c}), c), [])
  }

  /** Both objects that a bridge's closures refer to exist. */
  predicate Live(w: World, c: int, clientId: nat, bridgeId: nat) {
    c in w.conMap && w.conMap[c].id == bridgeId && c in w.clients && w.clients[c] == clientId
  }

  /** The data handler of a bridge. */
  function BridgeData(w: World, c: int, clientId: nat, bridgeId: nat, data: string): Outcome {
    if !Live(w, c, clientId, bridgeId) then Halted(Dangling)
    else if R.AppendData(w.conMap[c].parser, data) == Failure(NeverReturns) then Halted(Spins)
    else
      var (p, done) := B.Receive(w.conMap[c].parser, data);
      Running(w.(conMap := w.conMap[c := w.conMap[c].(parser := p)]),
              if done.Some? then [ToClient(c, clientId, done.value)] else [])
  }

  /** The disconnect handler of a bridge: its client goes with it. */
  function BridgeClose(w: World, c: int, clientId: nat, bridgeId: nat): Outcome {
    if !Live(w, c, clientId, bridgeId) then Halted(Dangling)
    else Running(DisconnectClient(DropBridge(w, c), c), [])
  }

  // ---------------------------------------------------------------- dispatch

  function OnData(w: World, h: Handler, fd: int, data: string, newFd: Option<int>): Outcome {
    match h
    case OnListener => Accept(w, newFd)
    case OnClient => ClientData(w, fd, data, newFd)
    case OnBridge(c, cid, bid) => BridgeData(w, c, cid, bid, data)
  }

  function OnDisconnect(w: World, h: Handler, fd: int): Outcome {
    match h
    case OnListener => Running(w, [])
    case OnClient => ClientClose(w, fd)
    case OnBridge(c, cid, bid) => BridgeClose(w, c, cid, bid)
  }

  predicate IsClose(e: Event) {
    e.Ready? && e.flags.rdhup
  }

  predicate IsInput(e: Event) {
    e.Ready? && !e.flags.rdhup && !e.flags.hup && !e.flags.err && e.flags.input
  }

  /** One event of a batch, or the stop signal.  Whether the descriptor has a handler is asked at
      this moment, not when the batch was collected. */
  function Step(w: World, e: Event): Outcome {
    if e.Stop? then Running(w.(reg := Unregister(w.reg, w.listener)), [])
    else if IsClose(e) && e.fd in w.reg.handlers then
      match OnDisconnect(w, w.reg.handlers[e.fd], e.fd)
      case Halted(f) => Halted(f)
      case Running(w1, out) => Running(w1.(reg := Unregister(w1.reg, e.fd)), out)
    else if IsInput(e) && e.fd in w.reg.handlers then
      OnData(w, w.reg.handlers[e.fd], e.fd, e.data, e.newFd)
    else Running(w, [])
  }

  /** A run: any list of events, batch after batch. */
  function Run(w: World, es: seq<Event>): Outcome {
    if es == [] then Running(w, [])
    else
      match Run(w, es[..|es| - 1])
      case Halted(f) => Halted(f)
      case Running(w1, out) =>
        match Step(w1, es[|es| - 1])
        case Halted(f) => Halted(f)
        case Running(w2, out') => Running(w2, out + out')
  }

  // ---------------------------------------------------------------- what the kernel promises

  /** A step that will call accept, or connect, and the descriptors open when it does. */
  predicate Accepts(w: World, e: Event) {
    IsInput(e) && e.fd in w.reg.handlers && w.reg.handlers[e.fd].OnListener?
  }

  predicate Connects(w: World, e: Event) {
    && IsInput(e) && e.fd in w.reg.handlers && w.reg.handlers[e.fd].OnClient?
    && var r := Q.AppendData(RequestParser(w, e.fd), e.data);
       r.Success? && r.value.Complete() && NeedsConnect(w, e.fd, HostOf(r.value))
  }

  function OpenAtConnect(w: World, e: Event): set<int>
    requires Connects(w, e)
  {
    BeforeConnect(w, e.fd, HostOf(Q.AppendData(RequestParser(w, e.fd), e.data).value)).open
  }

  /** The kernel hands out a descriptor in this event. */
  predicate HandsOut(e: Event, x: int) {
    e.Ready? && e.newFd == Some(x)
  }

  /** A descriptor is handed out only by accept and connect, and is not open when it is.  It may
      well be one that was closed a moment ago. */
  predicate Legal(w: World, e: Event) {
    e.Ready? && e.newFd.Some? ==>
      || (Accepts(w, e) && e.newFd.value !in w.open)
      || (Connects(w, e) && e.newFd.value !in OpenAtConnect(w, e))
  }

  predicate LegalRun(w: World, es: seq<Event>) {
    es == [] ||
    (LegalRun(w, es[..|es| - 1]) &&
     match Run(w, es[..|es| - 1])
     case Halted(_) => true
     case Running(w1, _) => Legal(w1, es[|es| - 1]))
  }
}
