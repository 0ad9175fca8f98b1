/** Who owns which operating-system handle: the life cycle of sockets as values, and the
    conservation law every run of it obeys. */
module Handles {
  import opened Bytes
  import opened Network

  type Handle = nat

  datatype Protocol = InvalidProtocol | Tcp | Udp

  /** The fields of a socket that its life cycle works on; no handle is INVALID_SOCKET. */
  datatype Sock = Sock(
    handle: Option<Handle>, protocol: Protocol, blocking: bool, connected: bool, error: SocketError)

  /** The system's handle table, with a count of how often each handle was opened and closed, and
      of closes that hit no open handle. */
  datatype Kernel = Kernel(
    open: set<Handle>, opens: multiset<Handle>, closes: multiset<Handle>, strayCloses: nat)

  function OpenHandle(k: Kernel, h: Handle): Kernel {
    k.(open := k.open + {h}, opens := k.opens + multiset{h})
  }

  function CloseHandle(k: Kernel, h: Handle): Kernel {
    if h in k.open then k.(open := k.open - {h}, closes := k.closes + multiset{h})
    else k.(strayCloses := k.strayCloses + 1)
  }

  datatype Call = Succeeds | Fails(error: SocketError)

  /** What the system answers during one life-cycle call: whether the address converts, the handle
      `socket` or `accept` returns, how `ioctlsocket` and the call itself end, and whether the
      addresses can be read back afterwards. */
  datatype Replies = Replies(
    address: bool, handle: Option<Handle>, handleError: SocketError, ioctl: Call, call: Call,
    names: bool)

  datatype Effect = Effect(outcome: Outcome<SocketState>, sock: Sock, kernel: Kernel)

  function SetBlocking(s: Sock, value: bool, ioctl: Call): (SocketState, Sock) {
    if s.handle.Some? && ioctl.Fails? then
      (ToState(ioctl.error), s.(blocking := value, error := ioctl.error))
    else
      (Done, s.(blocking := value, error := NoError))
  }

  /** Opening the handle, unless there is one. When the mode cannot be set the call throws, but the
      socket keeps the handle it got. */
  function InitSocket(s: Sock, k: Kernel, r: Replies): Effect {
    if s.handle.Some? then Effect(Returned(Done), s, k)
    else if r.handle.None? then Effect(Threw, s.(error := r.handleError), k)
    else
      var (state, next) := SetBlocking(s.(handle := r.handle), s.blocking, r.ioctl);
      Effect(if state == Done then Returned(Done) else Threw, next, OpenHandle(k, r.handle.value))
  }

  function Bind(s: Sock, k: Kernel, r: Replies): Effect {
    if s.handle.Some? || !r.address then Effect(Threw, s, k) else
    var init := InitSocket(s, k, r);
    if init.outcome.Threw? then init else
    match r.call
    case Fails(e) => Effect(Returned(ToState(e)), init.sock.(error := e), init.kernel)
    case Succeeds =>
      if r.names then Effect(Returned(Done), init.sock.(error := NoError), init.kernel)
      else Effect(Threw, init.sock, init.kernel)
  }

  function Connect(s: Sock, k: Kernel, r: Replies): Effect {
    if s.connected || !r.address then Effect(Threw, s, k) else
    var init := InitSocket(s, k, r);
    if init.outcome.Threw? then init else
    match r.call
    case Fails(e) => Effect(Returned(ToState(e)), init.sock.(error := e), init.kernel)
    case Succeeds =>
      var up := init.sock.(connected := true);
      if r.names then Effect(Returned(Done), up.(error := NoError), init.kernel)
      else Effect(Threw, up, init.kernel)
  }

  function Close(s: Sock, k: Kernel): (Sock, Kernel) {
    (s.(handle := None, connected := false), if s.handle.Some? then CloseHandle(k, s.handle.value) else k)
  }

  /** What a move takes out of its source. */
  function MovedFrom(s: Sock): Sock {
    s.(handle := None, connected := false, error := NoError)
  }

  /** The socket an accepted connection is put into; what it held before is closed. */
  function Accepted(h: Handle, blocking: bool, ioctl: Call): Sock {
    SetBlocking(Sock(Some(h), Tcp, blocking, true, NoError), blocking, ioctl).1
  }

  // ---------------------------------------------------------------------------
  // What each call comes to

  /** Setting the mode stores it and never touches handle, protocol or connection. A refusal by the
      system is the error and its state; otherwise there is no error, and `Done`. */
  lemma SetBlockingLaw(s: Sock, value: bool, ioctl: Call)
    ensures var (state, next) := SetBlocking(s, value, ioctl);
            && next.blocking == value && Tells(state, next.error)
            && next.handle == s.handle && next.protocol == s.protocol && next.connected == s.connected
            && (s.handle.None? || ioctl.Succeeds? ==> state == Done && next.error == NoError)
            && (s.handle.Some? && ioctl.Fails? ==> next.error == ioctl.error)
  {
  }

  /** The socket has a handle, or can get one and set its mode. */
  ghost predicate CanOpen(s: Sock, r: Replies) {
    s.handle.Some? ||
    (r.handle.Some? && (r.ioctl.Fails? ==> r.ioctl.error in {NoError, IsConnected}))
  }

  /** The error a socket is left with once it is open. */
  ghost function OpenError(s: Sock, r: Replies): SocketError {
    if s.handle.Some? then s.error else if r.ioctl.Fails? then r.ioctl.error else NoError
  }

  /** Opening returns `Done` exactly when it can. The system is asked for a handle only by a socket
      that has none; the socket keeps the handle it got even when the mode cannot be set and the call
      throws. An open socket is left alone, and the error always says what went wrong. */
  lemma InitSocketLaw(s: Sock, k: Kernel, r: Replies)
    ensures var e := InitSocket(s, k, r);
            && e.outcome == (if CanOpen(s, r) then Returned(Done) else Threw)
            && (s.handle.Some? ==> e.sock == s && e.kernel == k)
            && (s.handle.None? && r.handle.None? ==>
                e.sock == s.(error := r.handleError) && e.kernel == k)
            && (s.handle.None? && r.handle.Some? ==>
                && e.sock == s.(handle := r.handle,
                                error := if r.ioctl.Fails? then r.ioctl.error else NoError)
                && e.kernel == k.(open := k.open + {r.handle.value},
                                  opens := k.opens + multiset{r.handle.value}))
  {
  }

  /** A call that sets up a socket and gets as far as asking the system keeps or opens a handle, and
      leaves protocol and mode alone. */
  ghost predicate HandleReady(s: Sock, k: Kernel, r: Replies, e: Effect) {
    && e.sock.handle.Some?
    && e.sock.handle == (if s.handle.Some? then s.handle else r.handle)
    && e.sock.protocol == s.protocol && e.sock.blocking == s.blocking
    && e.kernel == if s.handle.Some? then k
                   else k.(open := k.open + {r.handle.value},
                           opens := k.opens + multiset{r.handle.value})
  }

  /** Binding an open socket, or to an address that does not convert, throws with nothing changed.
      The call returns exactly when it can open the socket and the native call fails or the addresses
      can be read back. A failing native call is the error and its state, a succeeding one clears the
      error. Nothing here connects a socket. */
  lemma BindLaw(s: Sock, k: Kernel, r: Replies)
    ensures var e, reached := Bind(s, k, r), s.handle.None? && r.address && CanOpen(s, r);
            && (s.handle.Some? || !r.address ==> e == Effect(Threw, s, k))
            && (e.outcome.Returned? <==> reached && (r.call.Fails? || r.names))
            && (reached ==> HandleReady(s, k, r, e))
            && (e.outcome.Returned? ==> Tells(e.outcome.value, e.sock.error))
            && (reached && r.call.Fails? ==> e.sock.error == r.call.error)
            && (reached && r.call.Succeeds? && !r.names ==> e.sock.error == OpenError(s, r))
            && (e.outcome.Returned? && r.call.Succeeds? ==>
                e.outcome.value == Done && e.sock.error == NoError)
            && e.sock.connected == s.connected
            && (s.handle.None? && r.address && !CanOpen(s, r) ==> e == InitSocket(s, k, r))
  {
  }

  /** Connecting a connected socket, or to an address that does not convert, throws with nothing
      changed. The call returns exactly when it can open the socket and the native call fails or the
      addresses can be read back. A failing native call is the error and its state, and the socket
      stays unconnected; a succeeding one connects it, also when the call then throws, and clears the
      error when it returns. */
  lemma ConnectLaw(s: Sock, k: Kernel, r: Replies)
    ensures var e, reached := Connect(s, k, r), !s.connected && r.address && CanOpen(s, r);
            && (s.connected || !r.address ==> e == Effect(Threw, s, k))
            && (e.outcome.Returned? <==> reached && (r.call.Fails? || r.names))
            && (reached ==> HandleReady(s, k, r, e))
            && (e.outcome.Returned? ==> Tells(e.outcome.value, e.sock.error))
            && (reached && r.call.Fails? ==> e.sock.error == r.call.error && !e.sock.connected)
            && (reached && r.call.Succeeds? && !r.names ==> e.sock.error == OpenError(s, r))
            && (e.outcome.Returned? && r.call.Succeeds? ==>
                e.outcome.value == Done && e.sock.error == NoError)
            && (e.sock.connected <==> s.connected || (reached && r.call.Succeeds?))
            && (!s.connected && r.address && !CanOpen(s, r) ==> e == InitSocket(s, k, r))
  {
  }

  /** An accepted connection is a connected TCP socket in the mode of the listener; its error is that
      of setting the mode. */
  lemma AcceptedLaw(h: Handle, blocking: bool, ioctl: Call)
    ensures Accepted(h, blocking, ioctl)
            == Sock(Some(h), Tcp, blocking, true, if ioctl.Fails? then ioctl.error else NoError)
  {
  }

  /** Closing gives up the handle and the connection and nothing else, and closes that handle once;
      a socket without one closes nothing. Closing again does nothing. */
  lemma CloseLaw(s: Sock, k: Kernel)
    ensures var (next, kernel) := Close(s, k);
            && next == Sock(None, s.protocol, s.blocking, false, s.error)
            && Close(next, kernel) == (next, kernel)
            && (s.handle.None? ==> kernel == k)
            && (s.handle.Some? && s.handle.value in k.open ==>
                kernel == Kernel(k.open - {s.handle.value}, k.opens,
                                 k.closes + multiset{s.handle.value}, k.strayCloses))
  {
  }

  // ---------------------------------------------------------------------------
  // Runs

  type Id = nat

  datatype World = World(socks: map<Id, Sock>, kernel: Kernel)

  datatype Event =
    | Creates(id: Id, protocol: Protocol, blocking: bool)
    | Binds(id: Id, replies: Replies)
    | Connects(id: Id, replies: Replies)
    | Accepts(listener: Id, target: Id, replies: Replies)
    | MoveConstructs(id: Id, from: Id)
    | MoveAssigns(to: Id, from: Id)
    | SetsBlocking(id: Id, value: bool, ioctl: Call)
    | Closes(id: Id)
    | Destroys(id: Id)

  /** The system never hands out a handle that is open. */
  predicate FreshHandle(k: Kernel, r: Replies) {
    r.handle.Some? ==> r.handle.value !in k.open
  }

  predicate Possible(w: World, e: Event) {
    match e
    case Creates(id, _, _) => id !in w.socks
    case Binds(id, r) => id in w.socks && FreshHandle(w.kernel, r)
    case Connects(id, r) => id in w.socks && FreshHandle(w.kernel, r)
    case Accepts(listener, target, r) =>
      listener in w.socks && target in w.socks && FreshHandle(w.kernel, r)
    case MoveConstructs(id, from) => id !in w.socks && from in w.socks
    case MoveAssigns(to, from) => to in w.socks && from in w.socks
    case SetsBlocking(id, _, _) => id in w.socks
    case Closes(id) => id in w.socks
    case Destroys(id) => id in w.socks
  }

  function Apply(w: World, id: Id, effect: Effect): World {
    World(w.socks[id := effect.sock], effect.kernel)
  }

  function CloseIn(w: World, id: Id): World
    requires id in w.socks
  {
    var (s, k) := Close(w.socks[id], w.kernel);
    World(w.socks[id := s], k)
  }

  /** The native `accept` has returned a new handle; a socket that accepts into itself loses the
      listening handle. */
  function AcceptInto(w: World, listener: Id, target: Id, r: Replies): World
    requires listener in w.socks && target in w.socks && r.handle.Some?
  {
    var closed := CloseIn(w, target);
    var accepted := Accepted(r.handle.value, w.socks[listener].blocking, r.ioctl);
    var socks := closed.socks[target := accepted];
    World(if r.names then socks[listener := socks[listener].(error := NoError)] else socks,
          OpenHandle(closed.kernel, r.handle.value))
  }

  function Step(w: World, e: Event): World
    requires Possible(w, e)
  {
    match e
    case Creates(id, protocol, blocking) =>
      if protocol.InvalidProtocol? then w
      else w.(socks := w.socks[id := Sock(None, protocol, blocking, false, NoError)])
    case Binds(id, r) => Apply(w, id, Bind(w.socks[id], w.kernel, r))
    case Connects(id, r) => Apply(w, id, Connect(w.socks[id], w.kernel, r))
    case Accepts(listener, target, r) =>
      if r.handle.None? then
        w.(socks := w.socks[listener := w.socks[listener].(error := r.handleError)])
      else AcceptInto(w, listener, target, r)
    case MoveConstructs(id, from) =>
      w.(socks := w.socks[id := w.socks[from]][from := MovedFrom(w.socks[from])])
    case MoveAssigns(to, from) =>
      if to == from then w else
      var closed := CloseIn(w, to);
      closed.(socks := closed.socks[to := w.socks[from]][from := MovedFrom(w.socks[from])])
    case SetsBlocking(id, value, ioctl) =>
      w.(socks := w.socks[id := SetBlocking(w.socks[id], value, ioctl).1])
    case Closes(id) => CloseIn(w, id)
    case Destroys(id) =>
      var closed := CloseIn(w, id);
      closed.(socks := closed.socks - {id})
  }

  predicate PossibleRun(w: World, es: seq<Event>)
    decreases |es|
  {
    es == [] || (Possible(w, es[0]) && PossibleRun(Step(w, es[0]), es[1..]))
  }

  function Run(w: World, es: seq<Event>): World
    requires PossibleRun(w, es)
    decreases |es|
  {
    if es == [] then w else Run(Step(w, es[0]), es[1..])
  }

  // ---------------------------------------------------------------------------
  // Conservation

  ghost predicate Owns(w: World, id: Id, h: Handle) {
    id in w.socks && w.socks[id].handle == Some(h)
  }

  /** The open handles are exactly those that live sockets own, each by one socket; a handle was
      opened as often as it was closed, plus once if it is open; nothing was closed that was not
      open; and a connected socket has a handle. */
  ghost predicate Conserved(w: World) {
    && (forall h :: h in w.kernel.open <==> exists id :: Owns(w, id, h))
    && (forall id, id', h :: Owns(w, id, h) && Owns(w, id', h) ==> id == id')
    && (forall h :: w.kernel.opens[h] == w.kernel.closes[h] + if h in w.kernel.open then 1 else 0)
    && w.kernel.strayCloses == 0
    && (forall id | id in w.socks :: w.socks[id].connected ==> w.socks[id].handle.Some?)
  }

  /** Replacing a socket by one with the same handle. */
  lemma SameHandle(w: World, id: Id, s: Sock)
    requires Conserved(w) && id in w.socks
    requires s.handle == w.socks[id].handle && (s.connected ==> s.handle.Some?)
    ensures Conserved(w.(socks := w.socks[id := s]))
  {
    var next := w.(socks := w.socks[id := s]);
    forall i, h ensures Owns(next, i, h) <==> Owns(w, i, h) {
    }
  }

  /** A socket without a handle gets a new one. */
  lemma GetsHandle(w: World, id: Id, s: Sock, h: Handle)
    requires Conserved(w) && id in w.socks && w.socks[id].handle.None? && h !in w.kernel.open
    requires s.handle == Some(h)
    ensures Conserved(World(w.socks[id := s], OpenHandle(w.kernel, h)))
  {
    var next := World(w.socks[id := s], OpenHandle(w.kernel, h));
    forall i, h' ensures Owns(next, i, h') <==> Owns(w, i, h') || (i == id && h' == h) {
    }
    assert Owns(next, id, h);
  }

  lemma CloseConserves(w: World, id: Id)
    requires Conserved(w) && id in w.socks
    ensures Conserved(CloseIn(w, id))
    ensures CloseIn(w, id).kernel.open <= w.kernel.open
    ensures CloseIn(w, id).socks.Keys == w.socks.Keys
  {
    var next := CloseIn(w, id);
    forall i, h ensures Owns(next, i, h) <==> Owns(w, i, h) && i != id {
    }
    var s := w.socks[id];
    if s.handle.Some? {
      assert Owns(w, id, s.handle.value);
    }
  }

  /** A handle changes hands, to a socket that has none or is new. */
  lemma TransferConserves(w: World, to: Id, from: Id)
    requires Conserved(w) && from in w.socks && to != from
    requires to in w.socks ==> w.socks[to].handle.None?
    ensures Conserved(w.(socks := w.socks[to := w.socks[from]][from := MovedFrom(w.socks[from])]))
  {
    var next := w.(socks := w.socks[to := w.socks[from]][from := MovedFrom(w.socks[from])]);
    forall i, h ensures Owns(next, i, h) <==>
                        (Owns(w, i, h) && i != from) || (i == to && Owns(w, from, h)) {
    }
    forall h | h in w.kernel.open ensures exists id :: Owns(next, id, h) {
      var id :| Owns(w, id, h);
      assert Owns(next, if id == from then to else id, h);
    }
  }

  /** A socket without a handle leaves, or one arrives. */
  lemma HandlelessComesAndGoes(w: World, id: Id, s: Sock)
    requires Conserved(w) && (id in w.socks ==> w.socks[id].handle.None?)
    requires s.handle.None? && !s.connected
    ensures Conserved(w.(socks := w.socks[id := s])) && Conserved(w.(socks := w.socks - {id}))
  {
    var came, went := w.(socks := w.socks[id := s]), w.(socks := w.socks - {id});
    forall i, h ensures Owns(came, i, h) <==> Owns(w, i, h) {
    }
    forall i, h ensures Owns(went, i, h) <==> Owns(w, i, h) {
    }
  }

  /** Setting up a socket keeps the books, whether it succeeds or throws half way. */
  lemma SetUpConserves(w: World, id: Id, effect: Effect, r: Replies)
    requires Conserved(w) && id in w.socks && FreshHandle(w.kernel, r)
    requires effect == Bind(w.socks[id], w.kernel, r) || effect == Connect(w.socks[id], w.kernel, r)
    ensures Conserved(Apply(w, id, effect))
  {
    var s := w.socks[id];
    if effect.sock.handle == s.handle {
      SameHandle(w, id, effect.sock);
    } else {
      GetsHandle(w, id, effect.sock, r.handle.value);
    }
  }

  lemma AcceptConserves(w: World, listener: Id, target: Id, r: Replies)
    requires Conserved(w) && listener in w.socks && target in w.socks
    requires r.handle.Some? && FreshHandle(w.kernel, r)
    ensures Conserved(AcceptInto(w, listener, target, r))
  {
    CloseConserves(w, target);
    var closed := CloseIn(w, target);
    var accepted := Accepted(r.handle.value, w.socks[listener].blocking, r.ioctl);
    GetsHandle(closed, target, accepted, r.handle.value);
    var full := World(closed.socks[target := accepted], OpenHandle(closed.kernel, r.handle.value));
    SameHandle(full, listener, full.socks[listener].(error := NoError));
  }

  lemma StepConserves(w: World, e: Event)
    requires Conserved(w) && Possible(w, e)
    ensures Conserved(Step(w, e))
  {
    match e
    case Creates(id, protocol, blocking) =>
      HandlelessComesAndGoes(w, id, Sock(None, protocol, blocking, false, NoError));
    case Binds(id, r) => SetUpConserves(w, id, Bind(w.socks[id], w.kernel, r), r);
    case Connects(id, r) => SetUpConserves(w, id, Connect(w.socks[id], w.kernel, r), r);
    case Accepts(listener, target, r) =>
      if r.handle.None? {
        SameHandle(w, listener, w.socks[listener].(error := r.handleError));
      } else {
        AcceptConserves(w, listener, target, r);
      }
    case MoveConstructs(id, from) => TransferConserves(w, id, from);
    case MoveAssigns(to, from) =>
      if to != from {
        CloseConserves(w, to);
        TransferConserves(CloseIn(w, to), to, from);
      }
    case SetsBlocking(id, value, ioctl) =>
      SameHandle(w, id, SetBlocking(w.socks[id], value, ioctl).1);
    case Closes(id) => CloseConserves(w, id);
    case Destroys(id) =>
      CloseConserves(w, id);
      var closed := CloseIn(w, id);
      HandlelessComesAndGoes(closed, id, closed.socks[id]);
  }

  /** The sockets an event names. */
  function Named(e: Event): set<Id> {
    match e
    case Accepts(listener, target, _) => {listener, target}
    case MoveConstructs(id, from) => {id, from}
    case MoveAssigns(to, from) => {to, from}
    case _ => {e.id}
  }

  /** An event touches no socket but those it names, and closes no handle but theirs. */
  lemma StepTouchesNamed(w: World, e: Event)
    requires Possible(w, e)
    ensures var next := Step(w, e);
            && (forall id | id !in Named(e) ::
                  (id in next.socks <==> id in w.socks) &&
                  (id in w.socks ==> next.socks[id] == w.socks[id]))
            && (forall h | h in w.kernel.open && h !in next.kernel.open ::
                  exists id :: id in Named(e) && Owns(w, id, h))
  {
  }

  /** What the other events do: a created socket has its protocol and mode and nothing else, an invalid
      protocol creates none, a destroyed socket is gone with its handle, and the calls on one socket do
      to it what they do on their own. */
  lemma StepPerforms(w: World, e: Event)
    requires Possible(w, e)
    ensures var next := Step(w, e);
            && (e.Creates? && e.protocol != InvalidProtocol ==>
                next == World(w.socks[e.id := Sock(None, e.protocol, e.blocking, false, NoError)], w.kernel))
            && (e.Creates? && e.protocol == InvalidProtocol ==> next == w)
            && (e.Destroys? ==> e.id !in next.socks && next.kernel == Close(w.socks[e.id], w.kernel).1)
            && (e.MoveConstructs? ==>
                && next.kernel == w.kernel && {e.id, e.from} <= next.socks.Keys
                && next.socks[e.id] == w.socks[e.from] && next.socks[e.from] == MovedFrom(w.socks[e.from]))
            && (e.Closes? ==>
                e.id in next.socks && (next.socks[e.id], next.kernel) == Close(w.socks[e.id], w.kernel))
            && (e.SetsBlocking? ==>
                e.id in next.socks && next.kernel == w.kernel
                && next.socks[e.id] == SetBlocking(w.socks[e.id], e.value, e.ioctl).1)
            && (e.Binds? ==>
                && e.id in next.socks
                && var effect := Bind(w.socks[e.id], w.kernel, e.replies);
                   next.socks[e.id] == effect.sock && next.kernel == effect.kernel)
            && (e.Connects? ==>
                && e.id in next.socks
                && var effect := Connect(w.socks[e.id], w.kernel, e.replies);
                   next.socks[e.id] == effect.sock && next.kernel == effect.kernel)
  {
  }

  /** What moving does: the target becomes what the source was; the source keeps protocol and mode,
      without handle, connection or error; and what the target owned is closed. A socket moved to
      itself stays as it is. */
  lemma StepMoves(w: World, to: Id, from: Id)
    requires to in w.socks && from in w.socks
    ensures var next := Step(w, MoveAssigns(to, from));
            if to == from then next == w else
            && {to, from} <= next.socks.Keys
            && next.socks[to] == w.socks[from]
            && next.socks[from] == Sock(None, w.socks[from].protocol, w.socks[from].blocking, false, NoError)
            && next.kernel == Close(w.socks[to], w.kernel).1
  {
  }

  /** What accepting does: the target is the accepted connection, and what it owned is closed, also
      when the target is the listener itself, which then no longer listens. A refused accept only
      leaves its error on the listener. */
  lemma StepAccepts(w: World, listener: Id, target: Id, r: Replies)
    requires listener in w.socks && target in w.socks && FreshHandle(w.kernel, r)
    ensures var next := Step(w, Accepts(listener, target, r));
            && {listener, target} <= next.socks.Keys
            && (r.handle.None? ==>
                && next.socks[listener] == w.socks[listener].(error := r.handleError)
                && (target != listener ==> next.socks[target] == w.socks[target])
                && next.kernel == w.kernel)
            && (r.handle.Some? ==>
                && next.socks[target].handle == r.handle && next.socks[target].connected
                && next.socks[target].protocol == Tcp
                && next.socks[target].blocking == w.socks[listener].blocking
                && next.socks[target].error
                   == (if r.ioctl.Succeeds? || (target == listener && r.names) then NoError
                       else r.ioctl.error)
                && (target != listener ==>
                    next.socks[listener] == if r.names then w.socks[listener].(error := NoError)
                                            else w.socks[listener])
                && (forall h :: h in next.kernel.open <==>
                      h == r.handle.value || (h in w.kernel.open && !Owns(w, target, h))))
  {
  }

  function Boot(): World {
    World(map[], Kernel({}, multiset{}, multiset{}, 0))
  }

  /** Handle conservation over every run, thrown exceptions included. */
  lemma {:induction false} HandlesConserved(w: World, es: seq<Event>)
    requires Conserved(w) && PossibleRun(w, es)
    ensures Conserved(Run(w, es))
    decreases |es|
  {
    if es == [] {
    } else {
      StepConserves(w, es[0]);
      HandlesConserved(Step(w, es[0]), es[1..]);
    }
  }

  /** No leak and no double close: from a fresh start, once every socket is destroyed no handle is
      open, every handle was closed exactly as often as it was opened, and no close went astray. */
  lemma NoHandleLeaks(es: seq<Event>)
    requires PossibleRun(Boot(), es) && Run(Boot(), es).socks == map[]
    ensures var k := Run(Boot(), es).kernel;
            k.open == {} && k.closes == k.opens && k.strayCloses == 0
  {
    assert Conserved(Boot());
    HandlesConserved(Boot(), es);
    var w := Run(Boot(), es);
    forall h ensures h !in w.kernel.open {
      assert forall id :: !Owns(w, id, h);
    }
    assert forall h :: w.kernel.opens[h] == w.kernel.closes[h];
  }

  // The system's side of the life cycle.
  class Os {
    var open: set<Handle>
    var opens: multiset<Handle>
    var closes: multiset<Handle>
    var strayCloses: nat

    function State(): Kernel
      reads this
    {
      Kernel(open, opens, closes, strayCloses)
    }

    method Open(h: Handle)
      requires h !in open
      modifies this
      ensures State() == OpenHandle(old(State()), h)
    {
      open, opens := open + {h}, opens + multiset{h};
    }

    method CloseSocket(h: Handle)
      modifies this
      ensures State() == CloseHandle(old(State()), h)
    {
      if h in open {
        open, closes := open - {h}, closes + multiset{h};
      } else {
        strayCloses := strayCloses + 1;
      }
    }
  }
}
