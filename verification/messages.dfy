/** The request and response objects the connector passes around, and the
    class hierarchy they belong to.

    Ruby dispatches on classes: a request's class decides how it is built,
    which response class answers it and which handler method receives it.
    The classes become tags; `IsA` is Ruby's `is_a?` over the hierarchy.
 */
module Messages {
  import opened Wrappers
  import opened Buffers
  import opened TNetstring
  import opened WsFrame
  import opened Headers

  /** The request classes: the connector's own, and a class registered by an
      application, which names its superclass. */
  datatype RequestClass =
    | BaseRequest              // Mongrel2::Request
    | HTTPRequestClass         // Mongrel2::HTTPRequest
    | JSONRequestClass         // Mongrel2::JSONRequest
    | XMLRequestClass          // Mongrel2::XMLRequest
    | ClientHandshakeClass     // Mongrel2::WebSocket::ClientHandshake < HTTPRequest
    | WebSocketRequestClass    // Mongrel2::WebSocket::Request
    | UserRequestClass(name: string, parent: RequestClass)

  function Depth(c: RequestClass): nat {
    match c
    case BaseRequest => 0
    case ClientHandshakeClass => 2
    case UserRequestClass(_, p) => Depth(p) + 1
    case _ => 1
  }

  /** The direct superclass. */
  function Parent(c: RequestClass): (p: Option<RequestClass>)
    ensures p.Some? ==> Depth(p.value) < Depth(c)
    ensures p.None? <==> c == BaseRequest
  {
    match c
    case BaseRequest => None
    case ClientHandshakeClass => Some(HTTPRequestClass)
    case UserRequestClass(_, parent) => Some(parent)
    case _ => Some(BaseRequest)
  }

  /** `is_a?`: the class itself or one of its ancestors. */
  predicate IsA(c: RequestClass, k: RequestClass)
    decreases Depth(c)
  {
    c == k || (Parent(c).Some? && IsA(Parent(c).value, k))
  }

  /** Every request class descends from the base request class. */
  lemma {:induction false} EveryClassIsARequest(c: RequestClass)
    ensures IsA(c, BaseRequest)
    decreases Depth(c)
  {
    if c != BaseRequest {
      EveryClassIsARequest(Parent(c).value);
    }
  }

  datatype ResponseClass =
    | BaseResponse             // Mongrel2::Response
    | HTTPResponseClass        // Mongrel2::HTTPResponse
    | ServerHandshakeClass     // Mongrel2::WebSocket::ServerHandshake < HTTPResponse
    | WebSocketResponseClass   // Mongrel2::WebSocket::Response

  /** Response classes that carry HTTP headers and a status. */
  predicate IsHttpResponse(c: ResponseClass) {
    c == HTTPResponseClass || c == ServerHandshakeClass
  }

  /** `response_class`: each request class answers with its own response
      class, and an application's class inherits its superclass's. */
  function ResponseClassOf(c: RequestClass): ResponseClass
    decreases Depth(c)
  {
    match c
    case HTTPRequestClass => HTTPResponseClass
    case ClientHandshakeClass => ServerHandshakeClass
    case WebSocketRequestClass => WebSocketResponseClass
    case UserRequestClass(_, p) => ResponseClassOf(p)
    case _ => BaseResponse
  }

  /** A request.  `body` is None when the constructor was handed an IO that
      is not an upload (it keeps no body then); `notice` is whether a JSON
      request's decoded body is a disconnect notice; `frame` is the frame of
      a WebSocket request; `response` is the memoised response. */
  datatype Request = Request(
    cls: RequestClass,
    senderId: string,
    connId: int,
    path: string,
    headers: Table,
    body: Option<Buffer>,
    raw: Option<string>,
    notice: bool,
    frame: Option<Frame>,
    response: Option<Response>)

  /** A response.  `request` is the request it answers (as it was when the
      response was made); `filter` and `extendedData` make up an extended
      reply; `headers` and `status` belong to HTTP responses; `frame` to
      WebSocket responses, whose body stream is the frame's payload. */
  datatype Response = Response(
    cls: ResponseClass,
    senderId: string,
    connId: int,
    body: Buffer,
    request: Option<Request>,
    chunksize: int,
    filter: Option<string>,
    extendedData: seq<TValue>,
    headers: Table,
    status: Option<int>,
    frame: Option<Frame>)

  /** A WebSocket response shares one stream between its body and its
      frame's payload; other responses have no frame. */
  predicate Coherent(r: Response) {
    if r.cls == WebSocketResponseClass then r.frame.Some? && r.frame.value.payload == r.body
    else r.frame.None?
  }

  /** A handshake is an HTTP request, and an application class built on one
      of the connector's classes is one too. */
  lemma HandshakeIsHttp()
    ensures IsA(ClientHandshakeClass, HTTPRequestClass)
    ensures !IsA(WebSocketRequestClass, HTTPRequestClass)
    ensures !IsA(HTTPRequestClass, ClientHandshakeClass)
  {
  }
}
