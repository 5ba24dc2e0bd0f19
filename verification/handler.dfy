/** The handler application: it receives requests on its connection, routes
    each to a callback by the request's class, and sends back what the
    callback answers.

    Callbacks an application overrides are parameters (`Callbacks`); the
    defaults are modelled.  The receive loop is a state machine over a
    finite sequence of events: an incoming message (or the transport's
    error), possibly with a signal delivered while it is being handled, or
    a signal on its own.
 */
module Handlers {
  import opened Wrappers
  import opened Text
  import opened Headers
  import opened Messages
  import opened Responses
  import opened Requests
  import opened Connections

  // ---------------------------------------------------------------------
  // Routing

  /** What a callback answers: a response to send, or none, and the request
      as the callback left it (its memoised response may have been made). */
  type Answer = (Option<Response>, Request)

  datatype Callbacks = Callbacks(
    handle: Request -> Result<Answer>,
    handleJson: Request -> Result<Answer>,
    handleXml: Request -> Result<Answer>,
    handleDisconnect: Request -> Result<Answer>)

  /** The connector class a request class belongs to: the class just below
      the base request class on its line of ancestors (a handshake belongs
      to the HTTP requests). */
  function Family(cls: RequestClass): (f: RequestClass)
    decreases Depth(cls)
  {
    match cls
    case ClientHandshakeClass => HTTPRequestClass
    case UserRequestClass(_, parent) => if parent == BaseRequest then cls else Family(parent)
    case _ => cls
  }

  /** A class descends from one of the connector's request classes exactly
      when it belongs to that class's family. */
  lemma {:induction false} FamilyOfAncestry(cls: RequestClass)
    ensures IsA(cls, HTTPRequestClass) <==> Family(cls) == HTTPRequestClass
    ensures IsA(cls, JSONRequestClass) <==> Family(cls) == JSONRequestClass
    ensures IsA(cls, XMLRequestClass) <==> Family(cls) == XMLRequestClass
    decreases Depth(cls)
  {
    if cls.UserRequestClass? && cls.parent != BaseRequest {
      FamilyOfAncestry(cls.parent);
    }
  }

  /** `dispatch_request`: a disconnect notice goes to `handle_disconnect`,
      whose answer is dropped; otherwise the first of HTTP, JSON and XML
      that the request is decides the callback, and any other request gets
      no answer. */
  function Dispatch(cb: Callbacks, q: Request): (r: Result<Answer>)
    ensures IsDisconnect(q) ==> (r.Err? <==> cb.handleDisconnect(q).Err?)
    ensures IsDisconnect(q) && r.Ok? ==> r.value == (None, cb.handleDisconnect(q).value.1)
    ensures !IsDisconnect(q) ==> r == match Family(q.cls)
      case HTTPRequestClass => cb.handle(q)
      case JSONRequestClass => cb.handleJson(q)
      case XMLRequestClass => cb.handleXml(q)
      case _ => Ok((None, q))
  {
    FamilyOfAncestry(q.cls);
    if IsDisconnect(q) then
      var (_, q') :- cb.handleDisconnect(q);
      Ok((None, q'))
    else if IsA(q.cls, HTTPRequestClass) then cb.handle(q)
    else if IsA(q.cls, JSONRequestClass) then cb.handleJson(q)
    else if IsA(q.cls, XMLRequestClass) then cb.handleXml(q)
    else Ok((None, q))
  }

  /** A handshake is handled as an HTTP request; a WebSocket frame and a
      plain request get no answer. */
  lemma DispatchOfConnectorClasses(cb: Callbacks, q: Request)
    ensures q.cls == ClientHandshakeClass ==> Dispatch(cb, q) == cb.handle(q)
    ensures q.cls in {WebSocketRequestClass, BaseRequest} ==> Dispatch(cb, q) == Ok((None, q))
  {
  }

  const NoContent := 204

  /** The default `handle`: the request's response, with status 204. */
  function DefaultHandle(q: Request, c: HttpConstants): (r: Result<Answer>)
    ensures r.Err? <==> Respond(q, c).Err?
    ensures r.Ok? ==> var (res, q') := r.value;
      && res.Some? && res.value.status == Some(NoContent)
      && res.value.senderId == Respond(q, c).value.0.senderId
      && res.value.connId == Respond(q, c).value.0.connId
      && q'.response == res
    ensures r.Ok? ==> r.value.0 == Some(Respond(q, c).value.0.(status := Some(NoContent)))
    ensures r.Ok? ==> r.value.1 == Respond(q, c).value.1.(response := r.value.0)
  {
    var (resp, q') :- Respond(q, c);
    var resp' := resp.(status := Some(NoContent));
    Ok((Some(resp'), q'.(response := Some(resp'))))
  }

  /** The default `handle_json`, `handle_xml` and `handle_disconnect`. */
  function Ignore(q: Request): (r: Result<Answer>)
    ensures r.Ok? && r.value.0.None? && r.value.1 == q
  {
    Ok((None, q))
  }

  function Defaults(c: HttpConstants): Callbacks {
    Callbacks(q => DefaultHandle(q, c), Ignore, Ignore, Ignore)
  }

  /** With the default callbacks only HTTP requests are answered, with a
      204 carrying the request's sender and connection ids. */
  lemma DefaultDispatch(c: HttpConstants, q: Request)
    requires q.response.None? && FromRequest(q, c).Ok?
    ensures var r := Dispatch(Defaults(c), q);
      && r.Ok?
      && (r.value.0.Some? <==> !IsDisconnect(q) && IsA(q.cls, HTTPRequestClass))
      && (r.value.0.Some? ==>
            (r.value.0.value.status == Some(NoContent)
             && r.value.0.value.senderId == q.senderId && r.value.0.value.connId == q.connId))
  {
    FamilyOfAncestry(q.cls);
  }

  // ---------------------------------------------------------------------
  // Lifecycle

  /** A handler: its connection, and the connections a restart retired
      (each closed). */
  datatype Handler = Handler(conn: Connection, retired: seq<Connection>)

  /** `Handler.new( app_id, send_spec, recv_spec )` */
  function NewHandler(appId: string, sendSpec: string, recvSpec: string, identifier: string): (h: Handler)
    ensures h.conn == NewConnection(appId, sendSpec, recvSpec, identifier) && h.retired == []
  {
    Handler(NewConnection(appId, sendSpec, recvSpec, identifier), [])
  }

  /** `shutdown` */
  function Shutdown(h: Handler): (h': Handler)
    ensures h'.conn.closed && h'.retired == h.retired
    ensures Sent(h'.conn.log) == Sent(h.conn.log)
  {
    h.(conn := Close(h.conn))
  }

  /** `restart`: a copy of the connection is installed first, then the old
      one is closed. */
  function Restart(h: Handler): (h': Handler)
    ensures !h'.conn.closed && !h'.conn.requestOpen && !h'.conn.responseOpen && h'.conn.log == []
    ensures h'.conn.appId == h.conn.appId && h'.conn.subAddr == h.conn.subAddr && h'.conn.pubAddr == h.conn.pubAddr
    ensures h'.retired == h.retired + [Close(h.conn)] && Close(h.conn).closed
  {
    Handler(Dup(h.conn), h.retired + [Close(h.conn)])
  }

  datatype Signal = Hangup | Terminate | Interrupt | User1

  /** The signal callbacks: HUP restarts, TERM and INT shut down, USR1 only
      writes to the log. */
  function OnSignal(h: Handler, s: Signal): (h': Handler)
    ensures s == Hangup ==> !h'.conn.closed && |h'.retired| == |h.retired| + 1
    ensures s in {Terminate, Interrupt} ==> h'.conn.closed && h'.retired == h.retired
    ensures s == User1 ==> h' == h
  {
    match s
    case Hangup => Restart(h)
    case Terminate => Shutdown(h)
    case Interrupt => Shutdown(h)
    case User1 => h
  }

  function Interrupted(h: Handler, s: Option<Signal>): Handler {
    if s.Some? then OnSignal(h, s.value) else h
  }

  // ---------------------------------------------------------------------
  // The receive loop

  datatype Event =
    | Incoming(raw: Result<string>, during: Option<Signal>)
    | Signalled(signal: Signal)

  /** What the loop needs besides its state: the callbacks, the codecs and
      environment requests are parsed with, and the HTTP constants and clock
      responses are rendered with. */
  datatype Env = Env(cb: Callbacks, codecs: Codecs, world: World, http: HttpConstants, now: string)

  datatype Loop = Loop(handler: Handler, registry: Registry)

  const NilChunks := "undefined method `each_chunk' for nil:NilClass"

  /** `conn.reply( response )` on a response a callback returned. */
  function Deliver(conn: Connection, r: Response, env: Env): (res: Result<Connection>)
    ensures Coherent(r) ==> (res.Ok? <==> Reply(conn, r, env.http, env.now).Ok?)
    ensures Coherent(r) && res.Ok? ==> res.value == Reply(conn, r, env.http, env.now).value.0
  {
    if Coherent(r) then
      var (d, _) :- Reply(conn, r, env.http, env.now);
      Ok(d)
    else Fail(NoMethodError, NilChunks)
  }

  /** Dispatches a received request and replies when there is an answer
      and the connection is still open once the handler has run (a signal
      may have arrived meanwhile). */
  function Serve(h: Handler, reg: Registry, q: Request, during: Option<Signal>, env: Env): (r: Result<Loop>)
    ensures r.Ok? ==> Dispatch(env.cb, q).Ok?
    ensures Dispatch(env.cb, q).Ok? && (Dispatch(env.cb, q).value.0.None? || Interrupted(h, during).conn.closed) ==>
      r == Ok(Loop(Interrupted(h, during), reg))
    ensures Dispatch(env.cb, q).Ok? && Dispatch(env.cb, q).value.0.Some? && !Interrupted(h, during).conn.closed ==>
      var d := Deliver(Interrupted(h, during).conn, Dispatch(env.cb, q).value.0.value, env);
      (r.Ok? <==> d.Ok?) && (r.Ok? ==> r.value == Loop(Interrupted(h, during).(conn := d.value), reg))
  {
    var (answer, _) :- Dispatch(env.cb, q);
    var h' := Interrupted(h, during);
    if answer.Some? && !h'.conn.closed then
      var conn :- Deliver(h'.conn, answer.value, env);
      Ok(Loop(h'.(conn := conn), reg))
    else Ok(Loop(h', reg))
  }

  /** One turn of `start_accepting_requests`: receive, dispatch, and reply
      when there is an answer and the connection is still open.  A transport
      error is absorbed (the loop goes round again, and stops if the
      connection was closed meanwhile); any other error ends the loop. */
  function Step(st: Loop, ev: Event, env: Env): (r: Result<Loop>)
    ensures ev.Signalled? ==> r == Ok(st.(handler := OnSignal(st.handler, ev.signal)))
    ensures ev.Incoming? && ev.raw.Err? && ev.raw.error.kind == TransportError && !st.handler.conn.closed ==>
      r == Ok(st.(handler := Interrupted(st.handler, ev.during)))
    ensures ev.Incoming? && ev.raw.Err? && ev.raw.error.kind != TransportError && !st.handler.conn.closed ==>
      r == Err(ev.raw.error)
    ensures ev.Incoming? ==> var got := Receive(st.handler.conn, ev.raw, st.registry, env.codecs, env.world);
      got.Ok? ==> r == Serve(st.handler.(conn := got.value.2), got.value.1, got.value.0, ev.during, env)
  {
    match ev
    case Signalled(s) => Ok(st.(handler := OnSignal(st.handler, s)))
    case Incoming(raw, during) =>
      match Receive(st.handler.conn, raw, st.registry, env.codecs, env.world)
      case Err(e) =>
        if e.kind == TransportError then Ok(st.(handler := Interrupted(st.handler, during)))
        else Err(e)
      case Ok((q, reg, conn)) => Serve(st.handler.(conn := conn), reg, q, during, env)
  }

  /** `start_accepting_requests` over a sequence of events: it runs until the
      connection is closed (or the events run out). */
  function Run(st: Loop, events: seq<Event>, env: Env): (r: Result<Loop>)
    ensures st.handler.conn.closed ==> r == Ok(st)
    ensures r.Ok? && events != [] ==> r.value.handler.conn.closed || Step(st, events[0], env).Ok?
    decreases |events|
  {
    if st.handler.conn.closed || events == [] then Ok(st)
    else
      var st' :- Step(st, events[0], env);
      Run(st', events[1..], env)
  }

  /** A request answered with nothing sends nothing. */
  lemma UnansweredSendsNothing(st: Loop, raw: string, env: Env)
    requires !st.handler.conn.closed
    requires Receive(st.handler.conn, Ok(raw), st.registry, env.codecs, env.world).Ok?
    requires var (q, _, _) := Receive(st.handler.conn, Ok(raw), st.registry, env.codecs, env.world).value;
      Dispatch(env.cb, q).Ok? && Dispatch(env.cb, q).value.0.None?
    ensures var r := Step(st, Incoming(Ok(raw), None), env);
      r.Ok? && Sent(r.value.handler.conn.log) == Sent(st.handler.conn.log)
  {
  }

  /** An answered request is replied to on the open connection. */
  lemma AnsweredIsReplied(st: Loop, raw: string, env: Env)
    requires !st.handler.conn.closed
    requires Receive(st.handler.conn, Ok(raw), st.registry, env.codecs, env.world).Ok?
    requires var (q, _, conn) := Receive(st.handler.conn, Ok(raw), st.registry, env.codecs, env.world).value;
      && Dispatch(env.cb, q).Ok? && Dispatch(env.cb, q).value.0.Some?
      && var resp := Dispatch(env.cb, q).value.0.value;
      && Coherent(resp) && EachChunk(resp, env.http, env.now).Ok?
    ensures var (q, _, conn) := Receive(st.handler.conn, Ok(raw), st.registry, env.codecs, env.world).value;
      var resp := Dispatch(env.cb, q).value.0.value;
      var r := Step(st, Incoming(Ok(raw), None), env);
      r.Ok? && r.value.handler.conn == Reply(conn, resp, env.http, env.now).value.0
  {
  }

  /** A shutdown signal that arrives while a request is handled closes the
      connection first, so the answer is not sent and the loop ends. */
  lemma ShutdownDuringHandlingSendsNothing(st: Loop, raw: string, env: Env, rest: seq<Event>)
    requires !st.handler.conn.closed
    requires Step(st, Incoming(Ok(raw), Some(Terminate)), env).Ok?
    ensures var r := Step(st, Incoming(Ok(raw), Some(Terminate)), env);
      && r.value.handler.conn.closed
      && Sent(r.value.handler.conn.log) == Sent(st.handler.conn.log)
      && Run(st, [Incoming(Ok(raw), Some(Terminate))] + rest, env) == r
  {
    var got := Receive(st.handler.conn, Ok(raw), st.registry, env.codecs, env.world);
    if got.Ok? {
      var h := Interrupted(st.handler.(conn := got.value.2), Some(Terminate));
      assert h == Shutdown(st.handler.(conn := got.value.2));
    }
    RunEndsWhenClosed(st, Incoming(Ok(raw), Some(Terminate)), env, rest);
  }

  /** A turn that closes the connection is the loop's last. */
  lemma RunEndsWhenClosed(st: Loop, ev: Event, env: Env, rest: seq<Event>)
    requires !st.handler.conn.closed
    requires Step(st, ev, env).Ok? && Step(st, ev, env).value.handler.conn.closed
    ensures Run(st, [ev] + rest, env) == Step(st, ev, env)
  {
    assert ([ev] + rest)[0] == ev && ([ev] + rest)[1..] == rest;
  }

  /** A transport error is retried while the connection is open; one that
      came with a shutdown signal ends the loop. */
  lemma TransportErrorRetries(st: Loop, e: Error, env: Env, rest: seq<Event>)
    requires !st.handler.conn.closed && e.kind == TransportError
    ensures Run(st, [Incoming(Err(e), None)] + rest, env) == Run(st, rest, env)
    ensures var r := Run(st, [Incoming(Err(e), Some(Interrupt))] + rest, env);
      r.Ok? && r.value.handler.conn.closed && r.value.registry == st.registry
  {
    var evs := [Incoming(Err(e), None)] + rest;
    assert evs[1..] == rest;
    var evs' := [Incoming(Err(e), Some(Interrupt))] + rest;
    assert evs'[1..] == rest;
  }

  /** Any other error ends the loop with that error. */
  lemma OtherErrorsEndTheLoop(st: Loop, e: Error, env: Env, rest: seq<Event>, during: Option<Signal>)
    requires !st.handler.conn.closed && e.kind != TransportError
    ensures Run(st, [Incoming(Err(e), during)] + rest, env) == Err(e)
  {
    var evs := [Incoming(Err(e), during)] + rest;
    assert evs[0] == Incoming(Err(e), during);
  }

  /** A hangup replaces the connection with an open copy and keeps going. */
  lemma HangupKeepsRunning(st: Loop, env: Env, rest: seq<Event>)
    requires !st.handler.conn.closed
    ensures var h := Restart(st.handler);
      Run(st, [Signalled(Hangup)] + rest, env) == Run(st.(handler := h), rest, env)
  {
    var evs := [Signalled(Hangup)] + rest;
    assert evs[1..] == rest;
  }
}
