/** Requests: the registry that maps a METHOD to a request class, parsing a
    raw message from Mongrel2, building a request, asynchronous uploads,
    the HTTP request's header queries, and the memoised response of plain,
    handshake and WebSocket requests.

    The tnetstring and JSON decoders, the config database's server records
    and the file system are outside the model: `Codecs` and `World` stand
    for them.
 */
module Requests {
  import opened Wrappers
  import opened Text
  import opened Buffers
  import opened WsFrame
  import opened Headers
  import opened Messages
  import opened Responses

  // ---------------------------------------------------------------------
  // The request-type registry

  /** A method name handed to `register_request_type`: a Symbol or a String.
      Only the Symbol `:__default` selects the fallback. */
  datatype MethodArg = MethodSym(name: string) | MethodStr(name: string)

  const DefaultName := "__default"

  predicate IsDefault(m: MethodArg) { m.MethodSym? && m.name == DefaultName }

  /** `request_types`: the bound methods and the class the hash's default
      block stores for any other method. */
  datatype Registry = Registry(types: map<string, RequestClass>, fallback: RequestClass)

  /** The hash before any class registers: everything is a base request. */
  const InitialRegistry := Registry(map[], BaseRequest)

  /** `subclass_for_method`: the bound class, or else the fallback, which the
      default block stores under the method (a cached lookup). */
  function Lookup(reg: Registry, name: string): (r: (RequestClass, Registry))
    ensures name in reg.types ==> r == (reg.types[name], reg)
    ensures name !in reg.types ==> r.0 == reg.fallback
    ensures name in r.1.types && r.1.types[name] == r.0 && r.1.fallback == reg.fallback
  {
    if name in reg.types then (reg.types[name], reg)
    else (reg.fallback, reg.(types := reg.types[name := reg.fallback]))
  }

  /** One method of `register_request_type`: `:__default` drops every entry
      bound to the base class (cached lookups included) and makes the class
      the fallback; any other name binds that method. */
  function RegisterOne(reg: Registry, k: RequestClass, m: MethodArg): (r: Registry)
  {
    if IsDefault(m) then Registry(map n | n in reg.types && reg.types[n] != BaseRequest :: reg.types[n], k)
    else reg.(types := reg.types[m.name := k])
  }

  /** `register_request_type( subclass, *req_methods )`, in order. */
  function Register(reg: Registry, k: RequestClass, ms: seq<MethodArg>): (r: Registry)
    decreases |ms|
  {
    if ms == [] then reg else Register(RegisterOne(reg, k, ms[0]), k, ms[1..])
  }

  function NamesOf(ms: seq<MethodArg>): set<string> {
    set i | 0 <= i < |ms| :: ms[i].name
  }

  /** A cached lookup never changes the answer for any method. */
  lemma LookupCachesAnswer(reg: Registry, name: string, other: string)
    ensures Lookup(Lookup(reg, name).1, other).0 == Lookup(reg, other).0
  {
  }

  /** A named registration binds that method and no other. */
  lemma RegisterNamed(reg: Registry, k: RequestClass, m: MethodArg)
    requires !IsDefault(m)
    ensures Lookup(RegisterOne(reg, k, m), m.name).0 == k
    ensures forall n :: n != m.name ==> Lookup(RegisterOne(reg, k, m), n).0 == Lookup(reg, n).0
  {
  }

  /** A default registration keeps the methods bound to some other class and
      sends every other method, registered or not, to the new class. */
  lemma RegisterDefault(reg: Registry, k: RequestClass)
    ensures forall n :: (Lookup(RegisterOne(reg, k, MethodSym(DefaultName)), n).0
      == if n in reg.types && reg.types[n] != BaseRequest then reg.types[n] else k)
  {
  }

  /** A method that was looked up (and so cached as a base request) before a
      default registration still reaches the new default afterwards. */
  lemma DefaultClearsCachedLookups(reg: Registry, k: RequestClass, n: string)
    requires n !in reg.types && reg.fallback == BaseRequest
    ensures Lookup(RegisterOne(Lookup(reg, n).1, k, MethodSym(DefaultName)), n).0 == k
  {
    var cached := Lookup(reg, n).1;
    assert cached.types[n] == BaseRequest;
    RegisterDefault(cached, k);
  }

  /** Registering several names that are not `:__default` binds exactly
      those names and keeps the fallback. */
  lemma {:induction false} RegisterNames(reg: Registry, k: RequestClass, ms: seq<MethodArg>)
    requires forall i :: 0 <= i < |ms| ==> !IsDefault(ms[i])
    ensures Register(reg, k, ms).fallback == reg.fallback
    ensures forall n :: Lookup(Register(reg, k, ms), n).0 == (if n in NamesOf(ms) then k else Lookup(reg, n).0)
    decreases |ms|
  {
    if ms != [] {
      var next := RegisterOne(reg, k, ms[0]);
      RegisterNamed(reg, k, ms[0]);
      RegisterNames(next, k, ms[1..]);
      assert NamesOf(ms) == {ms[0].name} + NamesOf(ms[1..]) by {
        forall n | n in NamesOf(ms) ensures n in {ms[0].name} + NamesOf(ms[1..]) {
          var i :| 0 <= i < |ms| && ms[i].name == n;
          if i > 0 { assert ms[1..][i - 1].name == n; }
        }
        forall n | n in NamesOf(ms[1..]) ensures n in NamesOf(ms) {
          var i :| 0 <= i < |ms[1..]| && ms[1..][i].name == n;
          assert ms[i + 1].name == n;
        }
        assert ms[0].name in NamesOf(ms);
      }
    }
  }

  /** `HTTPRequest::HANDLED_HTTP_METHODS` */
  const HttpVerbs: seq<string> := ["OPTIONS", "GET", "HEAD", "POST", "PUT", "DELETE", "TRACE", "CONNECT"]

  function Symbols(names: seq<string>): (ms: seq<MethodArg>)
    ensures |ms| == |names| && forall i :: 0 <= i < |ms| ==> ms[i] == MethodSym(names[i])
  {
    seq(|names|, i requires 0 <= i < |names| => MethodSym(names[i]))
  }

  lemma NamesOfSymbols(names: seq<string>)
    ensures forall n :: n in NamesOf(Symbols(names)) <==> n in names
  {
    var ms := Symbols(names);
    forall n | n in names ensures n in NamesOf(ms) {
      var i :| 0 <= i < |names| && names[i] == n;
      assert ms[i].name == n;
    }
  }

  /** Registering a single name. */
  function RegisterName(reg: Registry, k: RequestClass, name: string): (r: Registry)
    requires name != DefaultName
    ensures forall n :: Lookup(r, n).0 == (if n == name then k else Lookup(reg, n).0)
  {
    RegisterNames(reg, k, [MethodSym(name)]);
    assert NamesOf([MethodSym(name)]) == {name};
    Register(reg, k, [MethodSym(name)])
  }

  /** The registry once the HTTP request class has loaded. */
  function HttpRegistry(): (r: Registry)
    ensures forall n :: Lookup(r, n).0 == if n in HttpVerbs then HTTPRequestClass else BaseRequest
  {
    RegisterNames(InitialRegistry, HTTPRequestClass, Symbols(HttpVerbs));
    NamesOfSymbols(HttpVerbs);
    Register(InitialRegistry, HTTPRequestClass, Symbols(HttpVerbs))
  }

  /** The registry once the connector's own request classes have loaded. */
  function StandardRegistry(): Registry {
    var r := RegisterName(HttpRegistry(), JSONRequestClass, "JSON");
    var r := RegisterName(r, XMLRequestClass, "XML");
    var r := RegisterName(r, ClientHandshakeClass, "WEBSOCKET_HANDSHAKE");
    RegisterName(r, WebSocketRequestClass, "WEBSOCKET")
  }

  lemma OtherMethodsAreNotVerbs()
    ensures "JSON" !in HttpVerbs && "XML" !in HttpVerbs
    ensures "WEBSOCKET" !in HttpVerbs && "WEBSOCKET_HANDSHAKE" !in HttpVerbs
  {
  }

  /** The standard routing: the eight HTTP verbs go to HTTP requests, JSON,
      XML, WEBSOCKET_HANDSHAKE and WEBSOCKET to their classes, and every
      other method to the base request class. */
  lemma StandardRoutes(n: string)
    ensures Lookup(StandardRegistry(), n).0 ==
      if n in HttpVerbs then HTTPRequestClass
      else if n == "JSON" then JSONRequestClass
      else if n == "XML" then XMLRequestClass
      else if n == "WEBSOCKET_HANDSHAKE" then ClientHandshakeClass
      else if n == "WEBSOCKET" then WebSocketRequestClass
      else BaseRequest
  {
    OtherMethodsAreNotVerbs();
  }

  // ---------------------------------------------------------------------
  // Asynchronous uploads

  const StartHeader := "x_mongrel2_upload_start"
  const DoneHeader := "x_mongrel2_upload_done"

  /** `upload_started?` */
  predicate UploadStarted(t: Table) { Member(t, StartHeader) && !Member(t, DoneHeader) }

  /** `upload_done?` */
  predicate UploadDone(t: Table) { Member(t, StartHeader) && Member(t, DoneHeader) }

  /** `upload_headers_match?` */
  predicate UploadHeadersMatch(t: Table) { UploadDone(t) && Get(t, StartHeader) == Get(t, DoneHeader) }

  /** `valid_upload?` */
  predicate ValidUpload(t: Table) { UploadDone(t) && UploadHeadersMatch(t) }

  /** The upload predicates agree with one another. */
  lemma UploadPredicatesConsistent(t: Table)
    ensures !(UploadStarted(t) && UploadDone(t))
    ensures ValidUpload(t) <==> UploadHeadersMatch(t)
    ensures UploadHeadersMatch(t) ==> UploadDone(t)
    ensures UploadStarted(t) || UploadDone(t) <==> Member(t, StartHeader)
  {
  }

  /** What the upload lookup reads from outside the process: each server's
      chroot by its uuid, and the files that exist with their contents. */
  datatype World = World(chroots: map<string, string>, files: map<string, Bytes>)

  /** `Pathname( base ) + rel` without clean-up of `.` and `..` segments. */
  function PathJoin(base: string, rel: string): (p: string)
    ensures StartsWith(rel, "/") ==> p == rel
  {
    if StartsWith(rel, "/") || base == "" || base == "." then rel
    else if EndsWith(base, "/") then base + rel
    else base + "/" + rel
  }

  const UploadMismatch := "invalid upload: upload headers don't match"
  const UploadMissing := "couldn't find the path to uploaded body."

  /** The done header as a path: `Pathname()` accepts only a String. */
  function DonePath(t: Table): (r: Result<string>)
    ensures r.Ok? <==> StringOf(Get(t, DoneHeader)).Some?
    ensures r.Ok? ==> r.value == StringOf(Get(t, DoneHeader)).value
  {
    match StringOf(Get(t, DoneHeader))
    case Some(s) => Ok(s)
    case None => Fail(TypeError, "can't convert into Pathname")
  }

  /** `Request#uploaded_file`: the spool file under the server's chroot if it
      exists there, else the path as given if that exists. */
  function UploadedFile(t: Table, senderId: string, w: World): (r: Result<string>)
    ensures !UploadHeadersMatch(t) ==> r == Fail(UploadError, UploadMismatch)
    ensures UploadHeadersMatch(t) && senderId !in w.chroots ==>
      r == Fail(UploadError, "couldn't find the server " + Text.Inspect(senderId) + " in the config DB")
    ensures r.Ok? ==> r.value in w.files && DonePath(t).Ok? && senderId in w.chroots
    ensures r.Ok? ==> var rel := DonePath(t).value; var chrooted := PathJoin(w.chroots[senderId], rel);
      r.value == (if chrooted in w.files then chrooted else rel)
    ensures UploadHeadersMatch(t) && senderId in w.chroots && DonePath(t).Ok? ==>
      var rel := DonePath(t).value;
      (r.Ok? <==> PathJoin(w.chroots[senderId], rel) in w.files || rel in w.files) &&
      (r.Err? ==> r == Fail(UploadError, UploadMissing))
  {
    if !UploadHeadersMatch(t) then Fail(UploadError, UploadMismatch)
    else if senderId !in w.chroots then
      Fail(UploadError, "couldn't find the server " + Text.Inspect(senderId) + " in the config DB")
    else
      var rel :- DonePath(t);
      var chrooted := PathJoin(w.chroots[senderId], rel);
      if chrooted in w.files then Ok(chrooted)
      else if rel in w.files then Ok(rel)
      else Fail(UploadError, UploadMissing)
  }

  /** `HTTPRequest#uploaded_file`: the done header as it is, with no lookup
      and no existence check. */
  function HttpUploadedFile(t: Table): (r: Result<string>)
    ensures !UploadHeadersMatch(t) ==> r == Fail(UploadError, UploadMismatch)
    ensures UploadHeadersMatch(t) ==> r == DonePath(t)
  {
    if !UploadHeadersMatch(t) then Fail(UploadError, UploadMismatch) else DonePath(t)
  }

  /** The `uploaded_file` a request of class `cls` runs. */
  function UploadedFileFor(cls: RequestClass, t: Table, senderId: string, w: World): Result<string> {
    if IsA(cls, HTTPRequestClass) then HttpUploadedFile(t) else UploadedFile(t, senderId, w)
  }

  /** With matching headers, an HTTP request trusts the done path, while a
      base request finds it under the chroot. */
  lemma UploadedFileOverride(t: Table, senderId: string, w: World, rel: string)
    requires UploadHeadersMatch(t) && Get(t, DoneHeader) == Some(VStr(rel))
    requires senderId in w.chroots && PathJoin(w.chroots[senderId], rel) in w.files
    ensures UploadedFileFor(HTTPRequestClass, t, senderId, w) == Ok(rel)
    ensures UploadedFileFor(BaseRequest, t, senderId, w) == Ok(PathJoin(w.chroots[senderId], rel))
  {
  }

  // ---------------------------------------------------------------------
  // Building a request

  /** The connection id argument: parsed text, an Integer, or nil. */
  datatype ConnArg = ConnText(s: string) | ConnNumber(n: int) | ConnNil

  /** `Integer( conn_id )` */
  function ConnInteger(a: ConnArg): (r: Result<int>)
    ensures a.ConnNumber? ==> r == Ok(a.n)
    ensures a.ConnText? ==> r == ParseInteger(a.s)
    ensures a.ConnNil? ==> r.Err? && r.error.kind == TypeError
  {
    match a
    case ConnText(s) => ParseInteger(s)
    case ConnNumber(n) => Ok(n)
    case ConnNil => Fail(TypeError, "can't convert nil into Integer")
  }

  /** The body argument: a string, an IO object, or some other object. */
  datatype BodyInput = TextBody(bytes: Bytes) | StreamBody(io: Buffer) | OtherBody

  /** The `flags` header as an argument to `Frame.new`. */
  function FlagsArg(v: Option<Value>): (a: Arg)
    ensures v.None? ==> a == Nil
    ensures v.Some? && v.value.VStr? ==> a == Str(v.value.s)
  {
    match v
    case None => Nil
    case Some(x) => ValueArg(x)
  }

  function ValueArg(v: Value): Arg {
    match v
    case VStr(s) => Str(s)
    case VInt(n) => Int(n)
    case VList(items) => Arr(seq(|items|, i requires 0 <= i < |items| => ValueArg(items[i])))
  }

  /** The body a request keeps: the spool file of a valid upload, a string
      wrapped in a stream at position 0, or nothing for an IO argument. */
  function RequestBody(cls: RequestClass, t: Table, senderId: string, body: BodyInput, w: World): (r: Result<Option<Buffer>>)
    ensures ValidUpload(t) ==> (r.Ok? <==> UploadedFileFor(cls, t, senderId, w).Ok? && UploadedFileFor(cls, t, senderId, w).value in w.files)
    ensures ValidUpload(t) && r.Ok? ==> r.value == Some(Open(w.files[UploadedFileFor(cls, t, senderId, w).value], ReadWrite))
    ensures !ValidUpload(t) ==> match body
      case TextBody(b) => r == Ok(Some(Open(b, ReadWrite)))
      case StreamBody(_) => r == Ok(None)
      case OtherBody => r.Err? && r.error.kind == TypeError
  {
    if ValidUpload(t) then
      var path :- UploadedFileFor(cls, t, senderId, w);
      if path in w.files then Ok(Some(Open(w.files[path], ReadWrite)))
      else Fail(SystemCallError, "No such file or directory - " + path)
    else
      match body
      case TextBody(b) => Ok(Some(Open(b, ReadWrite)))
      case StreamBody(_) => Ok(None)
      case OtherBody => Fail(TypeError, "no implicit conversion into String")
  }

  /** `WebSocket::Request#initialize`: the body is read into a frame built
      with the `flags` header, and rewound. */
  function WsSetup(q: Request): (r: Result<Request>)
    ensures q.body.None? ==> r == Fail(NoMethodError, "undefined method `read' for nil:NilClass")
    ensures r.Ok? ==> var b := r.value.body;
      && r.value == q.(body := b, frame := r.value.frame)
      && q.body.Some? && b == Some(Rewind(q.body.value)) && r.value.frame.Some?
      && (q.body.value.pos == 0 ==> r.value.frame.value.payload == Open(q.body.value.data, Append))
    ensures q.body.Some? && !Member(q.headers, "flags") ==> r.Ok? && r.value.frame.value.flags == DefaultFlags
  {
    if q.body.None? then Fail(NoMethodError, "undefined method `read' for nil:NilClass")
    else
      var (payload, read) := ReadAll(q.body.value);
      var arg := FlagsArg(Get(q.headers, "flags"));
      assert arg == Nil ==> Flatten([arg]) == [];
      var f :- NewFrame(payload, [arg]);
      Ok(q.(body := Some(Rewind(read)), frame := Some(f)))
  }

  /** No class is both a WebSocket request and a JSON request. */
  lemma {:induction false} FamiliesDisjoint(cls: RequestClass)
    ensures !(IsA(cls, WebSocketRequestClass) && IsA(cls, JSONRequestClass))
    decreases Depth(cls)
  {
    if cls.UserRequestClass? {
      FamiliesDisjoint(cls.parent);
    }
  }

  /** `cls.new( sender_id, conn_id, path, headers, body, raw )`.  A WebSocket
      request reads its body into a frame; `notice` is whether a JSON
      request's decoded body is a disconnect notice. */
  function NewRequest(cls: RequestClass, senderId: string, conn: ConnArg, path: string,
                      pairs: seq<(string, Value)>, body: BodyInput, raw: Option<string>,
                      w: World, notice: bool): (r: Result<Request>)
    ensures ConnInteger(conn).Err? ==> r == Err(ConnInteger(conn).error)
    ensures r.Ok? ==> var q := r.value;
      && q.cls == cls && q.senderId == senderId && q.path == path && q.raw == raw
      && ConnInteger(conn) == Ok(q.connId) && q.headers == FromPairs(pairs) && q.response.None?
      && RequestBody(cls, q.headers, senderId, body, w) == Ok(q.body)
      && (q.frame.Some? <==> IsA(cls, WebSocketRequestClass))
      && q.notice == (IsA(cls, JSONRequestClass) && notice)
    ensures r.Ok? && r.value.frame.Some? ==>
      r.value.body.Some? && r.value.body.value.pos == 0 &&
      r.value.frame.value.payload == Open(r.value.body.value.data, Append)
    ensures r.Ok? && r.value.frame.Some? && !Member(r.value.headers, "flags") ==>
      r.value.frame.value.flags == DefaultFlags
    ensures ConnInteger(conn).Ok? && IsA(cls, WebSocketRequestClass) && RequestBody(cls, FromPairs(pairs), senderId, body, w) == Ok(None) ==>
      r == Fail(NoMethodError, "undefined method `read' for nil:NilClass")
  {
    var connId :- ConnInteger(conn);
    var t := FromPairs(pairs);
    var b :- RequestBody(cls, t, senderId, body, w);
    var q := Request(cls, senderId, connId, path, t, b, raw, false, None, None);
    FamiliesDisjoint(cls);
    if IsA(cls, WebSocketRequestClass) then WsSetup(q)
    else if IsA(cls, JSONRequestClass) then Ok(q.(notice := notice))
    else Ok(q)
  }

  /** `is_disconnect?`: only a JSON request can be a disconnect notice. */
  predicate IsDisconnect(q: Request) { IsA(q.cls, JSONRequestClass) && q.notice }

  // ---------------------------------------------------------------------
  // Parsing

  /** A decoded tnetstring: a dictionary (as its pairs in order), a string,
      or any other value. */
  datatype Doc = DocHash(pairs: seq<(string, Value)>) | DocString(s: string) | DocOther(inspect: string)

  /** The decoders the parser calls. */
  datatype Codecs = Codecs(
    tnetstring: string -> Result<(Doc, string)>,     // TNetstring.parse: a value and the rest
    json: string -> Result<seq<(string, Value)>>,   // Yajl::Parser.parse of legacy headers
    disconnect: string -> bool)                     // a JSON body's type is "disconnect"

  /** The parts of a raw message. */
  datatype Envelope = Envelope(sender: string, connId: string, path: string,
                               headers: seq<(string, Value)>, body: Doc)

  /** Splits off sender, connection id and path on spaces, then reads the
      headers and the body as two tnetstrings; headers sent as a string are
      JSON. */
  function Unwrap(raw: string, k: Codecs): (r: Result<Envelope>)
    ensures r.Ok? ==> var f := SplitFour(raw);
      |f| == 4 && r.value.sender == f[0] && r.value.connId == f[1] && r.value.path == f[2]
  {
    var f := SplitFour(raw);
    if |f| < 4 then Fail(TypeError, "no implicit conversion of nil into String")
    else
      var first :- k.tnetstring(f[3]);
      var second :- k.tnetstring(first.1);
      var pairs :- match first.0
        case DocHash(p) => Ok(p)
        case DocString(s) => k.json(s)
        case DocOther(i) => Fail(DecodeError, "headers are not a dictionary: " + i);
      Ok(Envelope(f[0], f[1], f[2], pairs, second.0))
  }

  /** `hash[ key ]` of a hash built from the pairs: the last pair wins. */
  function HashGet(pairs: seq<(string, Value)>, key: string): (r: Option<Value>)
    ensures r.Some? <==> exists i :: 0 <= i < |pairs| && pairs[i].0 == key
    ensures r.Some? ==> exists i :: 0 <= i < |pairs| && pairs[i] == (key, r.value)
  {
    if pairs == [] then None
    else if pairs[|pairs| - 1].0 == key then Some(pairs[|pairs| - 1].1)
    else
      var r := HashGet(pairs[..|pairs| - 1], key);
      assert forall i :: 0 <= i < |pairs| - 1 ==> pairs[..|pairs| - 1][i] == pairs[i];
      r
  }

  /** The request method: a METHOD header whose first line is one word. */
  function MethodWord(pairs: seq<(string, Value)>): (r: Option<string>)
    ensures r.Some? ==> IsWord(r.value)
    ensures HashGet(pairs, "METHOD").None? ==> r.None?
  {
    match HashGet(pairs, "METHOD")
    case Some(VStr(s)) => FirstWordLine(s)
    case _ => None
  }

  /** The message of `raise UnhandledMethodError, headers['METHOD']`. */
  function UnhandledMessage(v: Option<Value>): (m: string)
    ensures v.Some? && v.value.VStr? ==> m == v.value.s
    ensures v.Some? && v.value.VList? ==> m == InspectValue(v.value)
  {
    match v
    case None => "Mongrel2::UnhandledMethodError"
    case Some(VStr(s)) => s
    case Some(VInt(n)) => IntToString(n)
    case Some(VList(items)) => InspectValue(VList(items))
  }

  /** A METHOD header given as a one-string list is named in the error as
      Ruby prints that array: `["GET"]`. */
  lemma UnhandledListMessage(s: string)
    ensures UnhandledMessage(Some(VList([VStr(s)]))) == "[" + Text.Inspect(s) + "]"
  {
  }

  function BodyOf(d: Doc): BodyInput {
    if d.DocString? then TextBody(ToBytes(d.s)) else OtherBody
  }

  /** `Request.parse( raw_request )`: the registered class for the method
      builds the request; the registry comes back with the lookup cached. */
  function Parse(raw: string, reg: Registry, k: Codecs, w: World): (r: Result<(Request, Registry)>)
    ensures r.Ok? ==> Unwrap(raw, k).Ok? && MethodWord(Unwrap(raw, k).value.headers).Some?
    ensures r.Ok? ==> var e := Unwrap(raw, k).value; var q := r.value.0;
      && (q.cls, r.value.1) == Lookup(reg, MethodWord(e.headers).value)
      && q.senderId == e.sender && q.path == e.path && ParseInteger(e.connId) == Ok(q.connId)
      && q.raw == Some(raw) && q.headers == FromPairs(e.headers) && q.response.None?
    ensures Unwrap(raw, k).Ok? && MethodWord(Unwrap(raw, k).value.headers).None? ==>
      r == Fail(UnhandledMethodError, UnhandledMessage(HashGet(Unwrap(raw, k).value.headers, "METHOD")))
    ensures Unwrap(raw, k).Err? ==> r.Err?
  {
    var e :- Unwrap(raw, k);
    match MethodWord(e.headers)
    case None => Fail(UnhandledMethodError, UnhandledMessage(HashGet(e.headers, "METHOD")))
    case Some(m) =>
      var (cls, reg') := Lookup(reg, m);
      var notice := e.body.DocString? && k.disconnect(e.body.s);
      var q :- NewRequest(cls, e.sender, ConnText(e.connId), e.path, e.headers, BodyOf(e.body), Some(raw), w, notice);
      Ok((q, reg'))
  }

  /** A message framed the way Mongrel2 frames it is read back into the
      sender, connection id and path it was built from. */
  lemma ParseReadsEnvelope(sender: string, id: int, path: string, rest: string, reg: Registry, k: Codecs, w: World)
    requires sender != "" && path != "" && NoSpace(sender) && NoSpace(path)
    requires rest == "" || !IsSpace(rest[0])
    ensures var r := Parse(sender + " " + IntToString(id) + " " + path + " " + rest, reg, k, w);
      r.Ok? ==> r.value.0.senderId == sender && r.value.0.connId == id && r.value.0.path == path
  {
    IntToStringNoSpace(id);
    SplitFourOfEnvelope(sender, IntToString(id), path, rest);
    ParseIntegerOfIntToString(id);
  }

  // ---------------------------------------------------------------------
  // Responses to requests

  /** `Request#response`: made once by the response class and kept. */
  function Respond(q: Request, c: HttpConstants): (res: Result<(Response, Request)>)
    ensures q.response.Some? ==> res == Ok((q.response.value, q))
    ensures q.response.None? ==> (res.Err? <==> FromRequest(q, c).Err?)
    ensures res.Ok? ==> res.value.1.response == Some(res.value.0)
    ensures q.response.None? && res.Ok? ==> var r := res.value.0;
      && r.cls == ResponseClassOf(q.cls) && r.senderId == q.senderId && r.connId == q.connId
      && Coherent(r) && !ExtendedReply(r)
  {
    if q.response.Some? then Ok((q.response.value, q))
    else
      var (r, q') :- FromRequest(q, c);
      Ok((r, q'.(response := Some(r))))
  }

  /** Asking again gives the same response and changes nothing. */
  lemma RespondIsMemoised(q: Request, c: HttpConstants)
    requires Respond(q, c).Ok?
    ensures var (r, q') := Respond(q, c).value; Respond(q', c) == Ok((r, q'))
  {
  }

  /** Every descendant of the handshake class answers with a server
      handshake, and every descendant of the WebSocket request class with a
      WebSocket response. */
  lemma {:induction false} ResponseClassInherited(cls: RequestClass)
    ensures IsA(cls, ClientHandshakeClass) ==> ResponseClassOf(cls) == ServerHandshakeClass
    ensures IsA(cls, WebSocketRequestClass) ==> ResponseClassOf(cls) == WebSocketResponseClass
    decreases Depth(cls)
  {
    if cls.UserRequestClass? {
      ResponseClassInherited(cls.parent);
    }
  }

  function HandshakeRefused(p: string): string {
    "attempt to create a " + p + " handshake which isn't supported by the client."
  }

  /** `ClientHandshake#response( protocol )`: the memoised server handshake,
      with its protocol set to one the client offered. */
  function HandshakeRespond(q: Request, c: HttpConstants, protocol: Option<string>): (res: Result<(Response, Request)>)
    requires IsA(q.cls, ClientHandshakeClass)
    ensures Respond(q, c).Err? ==> res.Err?
    ensures protocol.None? ==> res == Respond(q, c)
    ensures res.Ok? ==> res.value.1.response == Some(res.value.0)
    ensures q.response.None? && res.Ok? ==>
      res.value.0.cls == ServerHandshakeClass && res.value.0.status == Some(101)
    ensures protocol.Some? && res.Ok? ==>
      Protocols(q.headers).Ok? && protocol.value in Protocols(q.headers).value &&
      Get(res.value.0.headers, "sec_websocket_protocol") == Some(VStr(protocol.value))
    ensures (protocol.Some? && Respond(q, c).Ok? && Protocols(q.headers).Ok? &&
             protocol.value !in Protocols(q.headers).value) ==> res == Fail(HandshakeError, HandshakeRefused(protocol.value))
  {
    ResponseClassInherited(q.cls);
    var (r, q') :- Respond(q, c);
    if protocol.None? then Ok((r, q'))
    else
      var offered :- Protocols(q'.headers);
      if protocol.value !in offered then Fail(HandshakeError, HandshakeRefused(protocol.value))
      else
        var r' := SetProtocols(r, [protocol.value]);
        Ok((r', q'.(response := Some(r'))))
  }

  lemma SplitOnCommasSingle(s: string)
    requires s != "" && ',' !in s
    ensures SplitOnCommas(s) == [s]
  {
    assert IndexOf(s, ',') == |s|;
  }

  /** A protocol chosen from the offer is the one the server handshake
      announces: reading its header back gives exactly that protocol. */
  lemma HandshakeAnnouncesChoice(q: Request, c: HttpConstants, p: string)
    requires IsA(q.cls, ClientHandshakeClass) && p != ""
    requires HandshakeRespond(q, c, Some(p)).Ok?
    ensures Protocols(HandshakeRespond(q, c, Some(p)).value.0.headers) == Ok([p])
  {
    var offered := Protocols(q.headers).value;
    assert ',' !in p by {
      var i :| 0 <= i < |offered| && offered[i] == p;
    }
    SplitOnCommasSingle(p);
    assert Join([p], ", ") == p;
  }

  /** The most bytes of a ping's payload the pong echoes. */
  const PongCopyLimit := 4096

  /** How much of a ping's payload its pong carries: 4096 bytes, or what is
      left unread if that is less. */
  function PongLength(p: Buffer): (n: nat)
    ensures n <= PongCopyLimit && n <= Unread(p)
    ensures n == PongCopyLimit || n == Unread(p)
  {
    if PongCopyLimit <= Unread(p) then PongCopyLimit else Unread(p)
  }

  /** Answers a ping: a pong that copies the ping's payload, reading it
      through the request's payload stream. */
  function Pong(r: Response, q: Request): (res: (Response, Request))
    requires r.cls == WebSocketResponseClass && Coherent(r) && q.frame.Some?
    ensures var (r', q') := res; var p := q.frame.value.payload;
      && r' == r.(body := r'.body, frame := r'.frame) && Coherent(r')
      && Opcode(r'.frame.value) == "pong" && r'.frame.value.flags & 0xF0 == r.frame.value.flags & 0xF0
      && (r.body.mode == Append && p.pos <= |p.data| ==>
            r'.body.data == r.body.data + p.data[p.pos..p.pos + PongLength(p)])
      && q' == q.(frame := q'.frame) && q'.frame.Some?
      && q'.frame.value == q.frame.value.(payload := p.(pos := p.pos + PongLength(p)))
  {
    var f := q.frame.value;
    var pong := SetOpcode(r.frame.value, Sym("pong")).value;
    CopyStreamCopies(f.payload, pong.payload, PongCopyLimit);
    var (src, dst) := CopyStream(f.payload, pong.payload, PongCopyLimit);
    (r.(body := dst, frame := Some(pong.(payload := dst))), q.(frame := Some(f.(payload := src))))
  }

  lemma PongIsSymmetric(r: Response, q: Request)
    requires r.cls == WebSocketResponseClass && Coherent(r) && q.frame.Some?
    ensures var (r', q') := Pong(r, q); var f := q.frame.value; var p := f.payload;
      && r' == r.(body := r'.body, frame := r'.frame) && Coherent(r')
      && q' == q.(frame := q'.frame)
      && r'.frame.value.flags & 0xF0 == r.frame.value.flags & 0xF0
      && Opcode(r'.frame.value) == "pong"
      && ((r.body.mode == Append && p.pos <= |p.data|) ==>
            r'.body.data == r.body.data + p.data[p.pos..p.pos + PongLength(p)])
  {
  }

  /** Answers any other frame with the same numeric opcode. */
  function Echo(r: Response, q: Request): (res: (Response, Request))
    requires r.cls == WebSocketResponseClass && Coherent(r) && q.frame.Some?
    ensures var (r', q') := res;
      && r' == r.(frame := r'.frame) && Coherent(r') && q' == q
      && NumericOpcode(r'.frame.value) == NumericOpcode(q.frame.value)
      && r'.frame.value.flags & 0xF0 == r.frame.value.flags & 0xF0
  {
    var g := r.frame.value;
    var n := NumericOpcode(q.frame.value) as int;
    SetNumericOpcode(g, n);
    (r.(frame := Some(SetOpcode(g, Int(n)).value)), q)
  }

  /** `WebSocket::Request#response( *flags )`: made once.  A ping is answered
      by a pong carrying (up to 4096 bytes of) the ping's payload, which the
      request's payload stream is read through; any other frame by a frame
      of the same numeric opcode; extra flags are applied last. */
  function FrameRespond(q: Request, c: HttpConstants, flags: seq<Arg>): (res: Result<(Response, Request)>)
    requires IsA(q.cls, WebSocketRequestClass) && q.frame.Some?
    ensures q.response.Some? ==> res == Ok((q.response.value, q))
    ensures res.Ok? ==> res.value.1.response == Some(res.value.0)
    ensures q.response.None? ==>
      (res.Ok? <==> flags == [] || AllAccepted(Flatten(flags)))
    ensures q.response.None? && res.Ok? ==> var r := res.value.0;
      && r.cls == WebSocketResponseClass && Coherent(r)
      && r.senderId == q.senderId && r.connId == q.connId
    ensures q.response.None? && res.Ok? && Opcode(q.frame.value) == "ping" ==>
      Opcode(res.value.0.frame.value) == "pong" || flags != []
    ensures var p := q.frame.value.payload;
      q.response.None? && res.Ok? && Opcode(q.frame.value) == "ping" && p.pos <= |p.data| ==>
        res.value.0.body.data == p.data[p.pos..p.pos + PongLength(p)]
    ensures q.response.None? && res.Ok? && Opcode(q.frame.value) != "ping" && flags == [] ==>
      NumericOpcode(res.value.0.frame.value) == NumericOpcode(q.frame.value)
    ensures q.response.None? && res.Ok? && flags == [] ==> res.value.0.frame.value.flags & 0xF0 == FinFlag
  {
    if q.response.Some? then Ok((q.response.value, q))
    else
      var r2 := SymmetricAnswer(q, c);
      var r3 :- WithFlags(r2, flags);
      Ok((r3, SymmetricRequest(q, c).(response := Some(r3))))
  }

  /** Custom flags act on the symmetric answer: a fresh response's frame is
      that answer's frame after `set_flags`, and a rejected flag gives the
      error `set_flags` raises. */
  lemma FrameRespondFlags(q: Request, c: HttpConstants, flags: seq<Arg>)
    requires IsA(q.cls, WebSocketRequestClass) && q.frame.Some? && q.response.None?
    ensures var res := FrameRespond(q, c, flags); var s := SetFlags(SymmetricAnswer(q, c).frame.value, flags);
      && (res.Ok? && flags != [] ==> res.value.0.frame == Some(s.0))
      && (res.Err? ==> Some(res.error) == s.1)
  {
  }

  /** `request.response( :close, :fin )` answers with a final close frame,
      whatever the request's frame was. */
  lemma FrameRespondCloseFin(q: Request, c: HttpConstants)
    requires IsA(q.cls, WebSocketRequestClass) && q.frame.Some? && q.response.None?
    ensures var res := FrameRespond(q, c, [Sym("close"), Sym("fin")]);
      res.Ok? && Opcode(res.value.0.frame.value) == "close" && Fin(res.value.0.frame.value)
  {
    FrameRespondFlags(q, c, [Sym("close"), Sym("fin")]);
    SetFlagsCloseFin(SymmetricAnswer(q, c).frame.value);
  }

  /** `request.response( 0xB )` to a text frame answers with the reserved
      opcode 0xB. */
  lemma FrameRespondReservedOpcode(q: Request, c: HttpConstants)
    requires IsA(q.cls, WebSocketRequestClass) && q.frame.Some? && q.response.None?
    requires Opcode(q.frame.value) == "text"
    ensures var res := FrameRespond(q, c, [Int(0xB)]);
      res.Ok? && NumericOpcode(res.value.0.frame.value) == 0xB && Opcode(res.value.0.frame.value) == "reserved"
  {
    FrameRespondFlags(q, c, [Int(0xB)]);
    var f := SymmetricAnswer(q, c).frame.value;
    assert Opcode(f) == Opcode(q.frame.value);
    SetFlagsReservedOpcode(f);
  }

  /** The response a request without a stored response gets before its
      custom flags are applied. */
  function SymmetricAnswer(q: Request, c: HttpConstants): (r: Response)
    requires IsA(q.cls, WebSocketRequestClass) && q.frame.Some? && q.response.None?
    ensures r.cls == WebSocketResponseClass && Coherent(r)
    ensures r.senderId == q.senderId && r.connId == q.connId
    ensures Opcode(q.frame.value) == "ping" ==> Opcode(r.frame.value) == "pong"
    ensures Opcode(q.frame.value) != "ping" ==> NumericOpcode(r.frame.value) == NumericOpcode(q.frame.value)
    ensures var p := q.frame.value.payload; Opcode(q.frame.value) == "ping" && p.pos <= |p.data| ==>
      r.body.data == p.data[p.pos..p.pos + PongLength(p)]
    ensures r.frame.value.flags & 0xF0 == FinFlag
  {
    ResponseClassInherited(q.cls);
    var made := Respond(q, c);
    assert made.Ok?;
    Symmetric(made.value.0, made.value.1).0
  }

  /** The request after its symmetric answer: a ping's payload stream has
      been read by the pong. */
  function SymmetricRequest(q: Request, c: HttpConstants): (q': Request)
    requires IsA(q.cls, WebSocketRequestClass) && q.frame.Some? && q.response.None?
    ensures q' == q.(frame := q'.frame, response := q'.response)
    ensures q'.frame.Some?
    ensures var p := q.frame.value.payload; Opcode(q.frame.value) == "ping" ==>
      q'.frame.value.payload == p.(pos := p.pos + PongLength(p))
  {
    ResponseClassInherited(q.cls);
    var made := Respond(q, c);
    assert made.Ok?;
    Symmetric(made.value.0, made.value.1).1
  }

  /** The symmetrical answer before custom flags: a pong for a ping, the
      same numeric opcode for anything else. */
  function Symmetric(r: Response, q: Request): (res: (Response, Request))
    requires r.cls == WebSocketResponseClass && Coherent(r) && q.frame.Some?
    ensures var (r', q') := res; var f := q.frame.value; var p := f.payload;
      && r' == r.(body := r'.body, frame := r'.frame) && Coherent(r')
      && q' == q.(frame := q'.frame)
      && r'.frame.value.flags & 0xF0 == r.frame.value.flags & 0xF0
      && (Opcode(f) == "ping" ==> Opcode(r'.frame.value) == "pong")
      && ((Opcode(f) == "ping" && r.body.mode == Append && p.pos <= |p.data|) ==>
            r'.body.data == r.body.data + p.data[p.pos..p.pos + PongLength(p)])
      && (Opcode(f) != "ping" ==> NumericOpcode(r'.frame.value) == NumericOpcode(f))
  {
    if Opcode(q.frame.value) == "ping" then
      PongIsSymmetric(r, q);
      Pong(r, q)
    else
      var res := Echo(r, q);
      res
  }

  /** `set_flags( *flags )` on the response's frame, skipped for no flags. */
  function WithFlags(r: Response, flags: seq<Arg>): (res: Result<Response>)
    requires r.cls == WebSocketResponseClass && Coherent(r)
    ensures flags == [] ==> res == Ok(r)
    ensures res.Ok? <==> flags == [] || AllAccepted(Flatten(flags))
    ensures res.Ok? ==> res.value == r.(frame := res.value.frame) && Coherent(res.value)
    ensures flags != [] && res.Ok? ==> res.value.frame == Some(SetFlags(r.frame.value, flags).0)
    ensures flags != [] && res.Err? ==> Some(res.error) == SetFlags(r.frame.value, flags).1
  {
    if flags == [] then Ok(r)
    else
      var (h, e) := SetFlags(r.frame.value, flags);
      if e.Some? then Err(e.value) else Ok(r.(frame := Some(h)))
  }

  // ---------------------------------------------------------------------
  // HTTP request headers

  /** The header names the HTTP request reads are in normal form. */
  lemma RequestHeaderNames()
    ensures NormalKey("version") == "version" && NormalKey("connection") == "connection"
    ensures NormalKey("content_length") == "content_length"
    ensures NormalKey("x_forwarded_for") == "x_forwarded_for"
  {
    NormalKeyOfNormal("version");
    NormalKeyOfNormal("connection");
    NormalKeyOfNormal("content_length");
    NormalKeyOfNormal("x_forwarded_for");
  }

  /** `HTTPRequest#keepalive?`: only an HTTP/1.1 request persists, and then
      unless its Connection header lists `close`. */
  function KeepaliveRequest(t: Table): (r: Result<bool>)
    ensures Get(t, "version") != Some(VStr("HTTP/1.1")) ==> r == Ok(false)
    ensures Get(t, "version") == Some(VStr("HTTP/1.1")) ==> var conn := Get(t, "connection");
      && (conn.None? ==> r == Ok(true))
      && (conn.Some? && conn.value.VStr? ==> r == Ok("close" !in SplitOnCommas(conn.value.s)))
      && (conn.Some? && !conn.value.VStr? ==> r.Err? && r.error.kind == NoMethodError)
  {
    if Get(t, "version") != Some(VStr("HTTP/1.1")) then Ok(false)
    else
      match Get(t, "connection")
      case None => Ok(true)
      case Some(VStr(s)) => Ok("close" !in SplitOnCommas(s))
      case Some(_) => Fail(NoMethodError, "undefined method `split' for a non-String header")
  }

  /** A Connection header written as a list of tokens persists exactly when
      `close` is not among them. */
  lemma KeepaliveOfTokens(t: Table, tokens: seq<string>)
    requires Get(t, "version") == Some(VStr("HTTP/1.1"))
    requires forall i :: 0 <= i < |tokens| ==> IsListItem(tokens[i])
    ensures var r := KeepaliveRequest(Put(t, "connection", VStr(Join(tokens, ", "))));
      r.Ok? && (r.value <==> "close" !in tokens)
  {
    var j := Join(tokens, ", ");
    var t' := Put(t, "connection", VStr(j));
    RequestHeaderNames();
    assert Get(t', "version") == Get(t, "version");
    assert Get(t', "connection") == Some(VStr(j));
    SplitOnCommasOfJoin(tokens);
    assert KeepaliveRequest(t') == Ok("close" !in SplitOnCommas(j));
  }

  /** `HTTPRequest#content_length`: 0 without the header, else `Integer()`
      of it. */
  function ContentLengthRequest(t: Table): (r: Result<int>)
    ensures Get(t, "content_length").None? ==> r == Ok(0)
    ensures Get(t, "content_length") == Some(VInt(0)) ==> r == Ok(0)
    ensures Get(t, "content_length").Some? && Get(t, "content_length").value.VStr? ==>
      r == ParseInteger(Get(t, "content_length").value.s)
    ensures Get(t, "content_length").Some? && Get(t, "content_length").value.VList? ==>
      r.Err? && r.error.kind == TypeError
  {
    match Get(t, "content_length")
    case None => Ok(0)
    case Some(VStr(s)) => ParseInteger(s)
    case Some(VInt(n)) => Ok(n)
    case Some(VList(_)) => Fail(TypeError, "can't convert Array into Integer")
  }

  /** A Content-Length written in decimal reads back as the length. */
  lemma ContentLengthOfDecimal(t: Table, n: int)
    ensures ContentLengthRequest(Put(t, "content_length", VStr(IntToString(n)))) == Ok(n)
  {
    RequestHeaderNames();
    ParseIntegerOfIntToString(n);
  }

  /** The value `remote_ip` hands to `IPAddr.new`: the first of the
      X-Forwarded-For values, nil when there is none. */
  function FirstForwarded(t: Table): (r: Option<Value>)
    ensures Get(t, "x_forwarded_for").None? ==> r.None?
    ensures r.Some? ==> !r.value.VList?
    ensures Get(t, "x_forwarded_for") == Some(VStr("")) ==> r == Some(VStr(""))
  {
    match Get(t, "x_forwarded_for")
    case None => None
    case Some(v) => FirstLeaf(v)
  }

  datatype IpFamily = Inet | Inet6

  /** An `IPAddr`: its family, address and prefix length. */
  datatype IpAddr = IpAddr(family: IpFamily, address: nat, prefix: nat)

  const NoFamily := "address family must be specified"

  /** `remote_ip`: `IPAddr.new` of the first forwarded value.  Anything but
      a string (nil when the header is missing or empty, a number) is refused
      with AddressFamilyError, because no address family is given; a string
      is handed to `parseIp`, which stands for IPAddr's own parser and its
      InvalidAddressError. */
  function RemoteIp(t: Table, parseIp: string -> Result<IpAddr>): (r: Result<IpAddr>)
    ensures Get(t, "x_forwarded_for").None? ==> r == Fail(AddressFamilyError, NoFamily)
    ensures Get(t, "x_forwarded_for") == Some(VList([])) ==> r == Fail(AddressFamilyError, NoFamily)
    ensures FirstForwarded(t).Some? && FirstForwarded(t).value.VStr? ==> r == parseIp(FirstForwarded(t).value.s)
    ensures !(FirstForwarded(t).Some? && FirstForwarded(t).value.VStr?) ==> r == Fail(AddressFamilyError, NoFamily)
  {
    match FirstForwarded(t)
    case Some(VStr(s)) => parseIp(s)
    case _ => Fail(AddressFamilyError, NoFamily)
  }

  /** A repeated header gives its first value to the parser; a single one,
      commas and all, goes to it whole. */
  lemma RemoteIpFirst(t: Table, first: string, rest: seq<Value>, one: string, parseIp: string -> Result<IpAddr>)
    ensures RemoteIp(Put(t, "x_forwarded_for", VList([VStr(first)] + rest)), parseIp) == parseIp(first)
    ensures RemoteIp(Put(t, "x_forwarded_for", VStr(one)), parseIp) == parseIp(one)
    ensures RemoteIp(Delete(t, "x_forwarded_for"), parseIp) == Fail(AddressFamilyError, NoFamily)
  {
    RequestHeaderNames();
    var items := [VStr(first)] + rest;
    assert items[0] == VStr(first);
    assert FirstLeaf(items[0]) == Some(VStr(first));
    assert FirstLeafOf(items) == Some(VStr(first));
  }
}
