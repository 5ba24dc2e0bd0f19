/** Responses: the base response, the HTTP response, the server side of
    the WebSocket opening handshake and the WebSocket response.

    The reason phrases, the set of status codes that forbid a body, the
    server's version string and the rendering of a header table come from
    classes that are not part of this model; they are gathered in
    `HttpConstants`.  The current time for the Date header is a parameter.
 */
module Responses {
  import opened Wrappers
  import opened Text
  import opened Buffers
  import opened TNetstring
  import opened WsFrame
  import opened Headers
  import opened Messages

  /** `Response::DEFAULT_CHUNKSIZE` */
  const ResponseChunksize: int := 1024 * 512

  /** A body handed to a response: a string, or an IO object (kept as it is). */
  datatype BodyArg = StringBody(bytes: Bytes) | IoBody(io: Buffer)

  /** Strings are wrapped in a fresh stream opened for appending ('a+');
      IO objects are used as they are. */
  function Wrap(b: BodyArg): (s: Buffer)
    ensures b.StringBody? ==> s.data == b.bytes && s.pos == 0 && s.mode == Append
    ensures b.IoBody? ==> s == b.io
  {
    match b
    case StringBody(bytes) => Open(bytes, Append)
    case IoBody(io) => io
  }

  predicate ExtendedReply(r: Response) { r.filter.Some? }

  /** `Response#initialize( sender_id, conn_id, body )` */
  function NewResponse(senderId: string, connId: int, body: BodyArg): (r: Response)
    ensures r.cls == BaseResponse && r.senderId == senderId && r.connId == connId
    ensures r.body == Wrap(body) && r.request.None? && r.chunksize == ResponseChunksize
    ensures !ExtendedReply(r) && r.extendedData == [] && Coherent(r)
  {
    Response(BaseResponse, senderId, connId, Wrap(body), None, ResponseChunksize, None, [], map[], None, None)
  }

  // ---------------------------------------------------------------------
  // HTTP responses

  /** What the HTTP response takes from outside this model. */
  datatype HttpConstants = HttpConstants(
    reasons: map<int, string>,       // HTTP::STATUS_NAME
    bodiless: set<int>,              // HTTP::BODILESS_HTTP_RESPONSE_CODES
    serverVersion: string,           // Mongrel2.version_string( true )
    renderHeaders: Table -> string)  // Mongrel2::Table#to_s

  const DefaultContentType := "application/octet-stream"

  /** An HTTP response's body argument may be a Hash, which is then taken as
      the headers and the body is empty. */
  datatype HttpBodyArg = PlainBody(body: BodyArg) | HeaderHash(pairs: seq<(string, Value)>)

  /** `set_defaults`: only the Server header. */
  function DefaultHeaders(c: HttpConstants): (t: Table)
    ensures forall name :: Get(t, name) == (if NormalKey(name) == "server" then Some(VStr(c.serverVersion)) else None)
  {
    NormalKeyOfNormal("server");
    Put(map[], "server", VStr(c.serverVersion))
  }

  /** `HTTPResponse#initialize( sender_id, conn_id, body, headers )`, also
      used by the server handshake. */
  function NewHttpResponse(c: HttpConstants, cls: ResponseClass, senderId: string, connId: int,
                           body: HttpBodyArg, headers: seq<(string, Value)>): (r: Response)
    requires IsHttpResponse(cls)
    ensures r.cls == cls && r.senderId == senderId && r.connId == connId
    ensures r.status.None? && r.request.None? && !ExtendedReply(r) && Coherent(r)
    ensures r.body == (if body.HeaderHash? then Open([], Append) else Wrap(body.body))
    ensures var given := if body.HeaderHash? then body.pairs else headers;
      forall name :: (forall i :: 0 <= i < |given| ==> NormalKey(given[i].0) != NormalKey(name)) ==>
        Get(r.headers, name) == (if NormalKey(name) == "server" then Some(VStr(c.serverVersion)) else None)
    ensures var given := if body.HeaderHash? then body.pairs else headers;
      forall i :: 0 <= i < |given| && LastOfItsName(given, i) ==> Get(r.headers, given[i].0) == Some(given[i].1)
  {
    var (b, given) := if body.HeaderHash? then (StringBody([]), body.pairs) else (body.body, headers);
    var base := NewResponse(senderId, connId, b);
    base.(cls := cls, headers := Merge(DefaultHeaders(c), given))
  }

  /** The status `status_line` reports: the one set, or else 204 for an
      empty body and 200 otherwise. */
  function StatusCode(r: Response): (st: int)
    ensures r.status.Some? ==> st == r.status.value
    ensures r.status.None? ==> (st == 204 <==> |r.body.data| == 0) && (st == 200 <==> |r.body.data| != 0)
  {
    if r.status.Some? then r.status.value else if |r.body.data| == 0 then 204 else 200
  }

  /** A missing reason phrase formats as nothing. */
  function Reason(c: HttpConstants, st: int): string {
    if st in c.reasons then c.reasons[st] else ""
  }

  /** `status_line`: "HTTP/1.1 ", the status as three digits, a space and
      the reason phrase. */
  function StatusLine(r: Response, c: HttpConstants): (line: string)
    ensures StartsWith(line, "HTTP/1.1 ")
    ensures var st := StatusCode(r); 0 <= st <= 999 ==>
      && |line| >= 13
      && AllDigitsIn(line[9..12], 10) && ValueIn(line[9..12], 10) == st
      && line[12] == ' ' && line[13..] == Reason(c, st)
  {
    var st := StatusCode(r);
    var line := "HTTP/1.1 " + Decimal3(st) + " " + Reason(c, st);
    assert line[..9] == "HTTP/1.1 ";
    assert 0 <= st <= 999 ==> line[9..12] == Decimal3(st) && line[13..] == Reason(c, st);
    line
  }

  /** `handled?` */
  predicate Handled(r: Response) { r.status.Some? }

  /** `bodiless?`: an unset status is not in the set. */
  predicate Bodiless(r: Response, c: HttpConstants) {
    r.status.Some? && r.status.value in c.bodiless
  }

  /** `status_category`: the hundreds of the status, 0 when unset. */
  function StatusCategory(r: Response): (k: int)
    ensures r.status.None? ==> k == 0
    ensures r.status.Some? ==> 100 * k <= r.status.value < 100 * (k + 1)
  {
    if r.status.None? then 0 else r.status.value / 100
  }

  predicate IsInformational(r: Response) { StatusCategory(r) == 1 }
  predicate IsSuccessful(r: Response) { StatusCategory(r) == 2 }
  predicate IsRedirect(r: Response) { StatusCategory(r) == 3 }
  predicate IsClientError(r: Response) { StatusCategory(r) == 4 }
  predicate IsServerError(r: Response) { StatusCategory(r) == 5 }

  /** Each status predicate is a range of hundreds; an unset status is in
      none of them, and at most one holds. */
  lemma StatusPredicates(r: Response)
    ensures IsInformational(r) <==> r.status.Some? && 100 <= r.status.value < 200
    ensures IsSuccessful(r) <==> r.status.Some? && 200 <= r.status.value < 300
    ensures IsRedirect(r) <==> r.status.Some? && 300 <= r.status.value < 400
    ensures IsClientError(r) <==> r.status.Some? && 400 <= r.status.value < 500
    ensures IsServerError(r) <==> r.status.Some? && 500 <= r.status.value < 600
    ensures (if IsInformational(r) then 1 else 0) + (if IsSuccessful(r) then 1 else 0)
      + (if IsRedirect(r) then 1 else 0) + (if IsClientError(r) then 1 else 0)
      + (if IsServerError(r) then 1 else 0) <= 1
  {
    var k := StatusCategory(r);
    if r.status.Some? {
      var s := r.status.value;
      assert 100 * k <= s < 100 * (k + 1);
      assert 100 <= s < 200 ==> k == 1;
      assert 200 <= s < 300 ==> k == 2;
      assert 300 <= s < 400 ==> k == 3;
      assert 400 <= s < 500 ==> k == 4;
      assert 500 <= s < 600 ==> k == 5;
    }
  }

  /** `get_content_length`: nothing for a bodiless status; otherwise what
      is left to read, except that a stream at its end counts whole. */
  function ContentLength(r: Response, c: HttpConstants): (n: nat)
    ensures n <= |r.body.data|
    ensures Bodiless(r, c) ==> n == 0
    ensures !Bodiless(r, c) && r.body.pos < |r.body.data| ==> n == |r.body.data[r.body.pos..]|
    ensures !Bodiless(r, c) && r.body.pos >= |r.body.data| ==> n == |r.body.data|
  {
    if Bodiless(r, c) then 0
    else if r.body.pos != 0 && !Eof(r.body) then Size(r.body) - r.body.pos
    else Size(r.body)
  }

  /** `normalized_headers`: a copy of the headers with Date and
      Content-Length filled in when absent, and Content-Type removed for a
      bodiless status or defaulted otherwise; nothing else differs. */
  function NormalizedHeaders(r: Response, c: HttpConstants, now: string): (t: Table)
    ensures Get(t, "date") == (if Member(r.headers, "date") then Get(r.headers, "date") else Some(VStr(now)))
    ensures Get(t, "content_length") ==
      (if Member(r.headers, "content_length") then Get(r.headers, "content_length")
       else Some(VInt(ContentLength(r, c))))
    ensures Bodiless(r, c) ==> Get(t, "content_type").None?
    ensures !Bodiless(r, c) ==> (Get(t, "content_type") ==
      (if Member(r.headers, "content_type") then Get(r.headers, "content_type") else Some(VStr(DefaultContentType))))
    ensures forall name :: NormalKey(name) !in {"date", "content_length", "content_type"} ==>
      Get(t, name) == Get(r.headers, name)
  {
    NormalKeyOfNormal("date");
    NormalKeyOfNormal("content_length");
    NormalKeyOfNormal("content_type");
    var t1 := if Member(r.headers, "date") then r.headers else Put(r.headers, "date", VStr(now));
    var t2 := if Member(t1, "content_length") then t1 else Put(t1, "content_length", VInt(ContentLength(r, c)));
    if Bodiless(r, c) then Delete(t2, "content_type")
    else if Member(t2, "content_type") then t2
    else Put(t2, "content_type", VStr(DefaultContentType))
  }

  /** `Response#to_s`: the whole body from its start; the stream position
      is put back, so the response is unchanged. */
  function BodyText(r: Response): Bytes {
    r.body.data
  }

  /** `HTTPResponse#to_s`: status line, header block and body joined by
      CRLF, the body left out for a bodiless status. */
  function HttpText(r: Response, c: HttpConstants, now: string): (b: Bytes)
    ensures var head := ToBytes(StatusLine(r, c) + "\r\n");
      |b| >= |head| && b[..|head|] == head
    ensures Bodiless(r, c) ==> |b| >= 2 && b[|b| - 2..] == [13, 10]
    ensures !Bodiless(r, c) ==> |b| >= |r.body.data| && b[|b| - |r.body.data|..] == r.body.data
    ensures var n := |StatusLine(r, c) + "\r\n"|; var h := c.renderHeaders(NormalizedHeaders(r, c, now));
      && |b| == n + |h| + 2 + (if Bodiless(r, c) then 0 else |r.body.data|)
      && b[n..n + |h|] == ToBytes(h) && b[n + |h|..n + |h| + 2] == [13, 10]
  {
    HttpMessage(StatusLine(r, c) + "\r\n", c.renderHeaders(NormalizedHeaders(r, c, now)), BodyText(r), Bodiless(r, c))
  }

  /** A message with its head line, a header block, and a body unless the
      message has none. */
  function HttpMessage(head: string, headers: string, body: Bytes, bodiless: bool): (b: Bytes)
    ensures |b| >= |head| && b[..|head|] == ToBytes(head)
    ensures bodiless ==> |b| >= 2 && b[|b| - 2..] == [13, 10]
    ensures !bodiless ==> |b| >= |body| && b[|b| - |body|..] == body
    ensures var n := |head|;
      && |b| == n + |headers| + 2 + (if bodiless then 0 else |body|)
      && b[n..n + |headers|] == ToBytes(headers) && b[n + |headers|..n + |headers| + 2] == [13, 10]
  {
    ToBytesFramed(head, headers, "\r\n");
    ToBytesConcat(head, headers);
    ToBytesConcat(head + headers, "\r\n");
    assert ToBytes("\r\n") == [13, 10];
    var b := ToBytes(head + headers + "\r\n") + (if bodiless then [] else body);
    assert b[|head|..|head| + |headers|] == ToBytes(headers);
    b
  }

  /** `reset`: the headers go back to the defaults, the body is emptied (its
      position kept), the status is unset; the answer is true. */
  function Reset(r: Response, c: HttpConstants): (res: (bool, Response))
    requires IsHttpResponse(r.cls)
    ensures res.0
    ensures forall name :: Get(res.1.headers, name) == (if NormalKey(name) == "server" then Some(VStr(c.serverVersion)) else None)
    ensures !Handled(res.1) && res.1.body.data == [] && res.1.body.pos == r.body.pos
    ensures res.1 == r.(headers := res.1.headers, body := res.1.body, status := None)
  {
    (true, r.(headers := DefaultHeaders(c), body := Truncate(r.body, 0), status := None))
  }

  /** `keepalive=` */
  function SetKeepalive(r: Response, on: bool): (r': Response)
    ensures Get(r'.headers, "connection") == Some(VStr(if on then "keep-alive" else "close"))
    ensures r' == r.(headers := r'.headers)
  {
    r.(headers := Put(r.headers, "connection", VStr(if on then "keep-alive" else "close")))
  }

  /** `keepalive?`: a Connection header containing "keep-alive" in any
      letter case. */
  predicate Keepalive(r: Response) {
    var v := StringOf(Get(r.headers, "connection"));
    v.Some? && Contains(Lower(v.value), "keep-alive")
  }

  /** What `keepalive=` sets, `keepalive?` reads back. */
  lemma KeepaliveRoundTrip(r: Response, on: bool)
    ensures Keepalive(SetKeepalive(r, on)) == on
  {
    var s := if on then "keep-alive" else "close";
    assert StringOf(Get(SetKeepalive(r, on).headers, "connection")) == Some(s);
    if on {
      assert Lower(s) == s;
      assert OccursAt(s, "keep-alive", 0);
    } else {
      assert |Lower(s)| < |"keep-alive"|;
    }
  }

  /** A response with no status and an empty body reports 204, and one with
      a body reports 200. */
  lemma DefaultStatusLine(r: Response, c: HttpConstants)
    requires r.status.None?
    ensures var line := StatusLine(r, c);
      ValueIn(line[9..12], 10) == (if |r.body.data| == 0 then 204 else 200)
  {
  }

  // ---------------------------------------------------------------------
  // Server handshake

  // The Sec-WebSocket-Protocol header (or the empty string when there is
  // none) split on commas with the whitespace around them: the offered
  // sub-protocols.  A header that is not a string cannot be split.
  function Protocols(t: Table): (r: Result<seq<string>>)
    ensures Get(t, "sec_websocket_protocol").None? ==> r == Ok([])
    ensures r.Ok? ==> forall i :: 0 <= i < |r.value| ==> ',' !in r.value[i]
  {
    match Get(t, "sec_websocket_protocol")
    case None => Ok([])
    case Some(VStr(s)) => Ok(SplitOnCommas(s))
    case Some(_) => Fail(NoMethodError, "undefined method `split' for a non-String header")
  }

  /** `ServerHandshake#protocols=`: the protocols joined with ", ". */
  function SetProtocols(r: Response, ps: seq<string>): (r': Response)
    ensures r' == r.(headers := r'.headers)
    ensures Get(r'.headers, "sec_websocket_protocol") == Some(VStr(Join(ps, ", ")))
    ensures forall name :: NormalKey(name) != "sec_websocket_protocol" ==> Get(r'.headers, name) == Get(r.headers, name)
  {
    NormalKeyOfNormal("sec_websocket_protocol");
    r.(headers := Put(r.headers, "sec_websocket_protocol", VStr(Join(ps, ", "))))
  }

  /** Protocols set on the handshake are read back as they were. */
  lemma ProtocolsRoundTrip(r: Response, ps: seq<string>)
    requires forall i :: 0 <= i < |ps| ==> IsListItem(ps[i])
    ensures Protocols(SetProtocols(r, ps).headers) == Ok(ps)
  {
    SplitOnCommasOfJoin(ps);
  }

  lemma HandshakeHeaderNames()
    ensures NormalKey("sec_websocket_accept") == "sec_websocket_accept"
    ensures NormalKey("upgrade") == "upgrade" && NormalKey("connection") == "connection"
  {
    NormalKeyOfNormal("sec_websocket_accept");
    NormalKeyOfNormal("upgrade");
    NormalKeyOfNormal("connection");
  }

  /** The headers that accept a WebSocket upgrade. */
  function UpgradeHeaders(t: Table, accept: string): (t': Table)
    ensures Get(t', "upgrade") == Some(VStr("websocket"))
    ensures Get(t', "connection") == Some(VStr("Upgrade"))
    ensures Get(t', "sec_websocket_accept") == Some(VStr(accept))
  {
    HandshakeHeaderNames();
    var t := Put(t, "sec_websocket_accept", VStr(accept));
    var t := Put(t, "upgrade", VStr("websocket"));
    Put(t, "connection", VStr("Upgrade"))
  }

  /** `ServerHandshake.from_request( handshake )`: an HTTP response to the
      same sender and connection with an empty body, status 101, the
      Upgrade and Connection headers, and the accept key Mongrel2 left in
      the request body (which is read to its end). */
  function ServerHandshakeFor(req: Request, c: HttpConstants): (res: Result<(Response, Request)>)
    ensures res.Err? <==> req.body.None?
    ensures res.Ok? ==> var (r, req') := res.value;
      && r.cls == ServerHandshakeClass && r.senderId == req.senderId && r.connId == req.connId
      && r.request == Some(req) && r.status == Some(101) && r.body.data == [] && Coherent(r)
      && Get(r.headers, "upgrade") == Some(VStr("websocket"))
      && Get(r.headers, "connection") == Some(VStr("Upgrade"))
      && Get(r.headers, "sec_websocket_accept") == Some(VStr(FromBytes(ReadAll(req.body.value).0)))
      && req' == req.(body := Some(ReadAll(req.body.value).1))
  {
    var r := NewHttpResponse(c, ServerHandshakeClass, req.senderId, req.connId, PlainBody(StringBody([])), []);
    var r := r.(request := Some(req));
    var r := r.(body := Truncate(r.body, 0));
    if req.body.None? then Fail(NoMethodError, "undefined method `read' for nil:NilClass")
    else
      var (key, body') := ReadAll(req.body.value);
      var t := UpgradeHeaders(r.headers, FromBytes(key));
      Ok((r.(headers := t, status := Some(101)), req.(body := Some(body'))))
  }

  // ---------------------------------------------------------------------
  // WebSocket responses

  /** `WebSocket::Response#initialize( sender_id, conn_id, body )`: a default
      frame around the body, whose payload stream is the response body. */
  function NewWsResponse(senderId: string, connId: int, body: Bytes): (r: Response)
    ensures r.cls == WebSocketResponseClass && r.senderId == senderId && r.connId == connId
    ensures Coherent(r) && r.frame.value.flags == DefaultFlags && r.body == Open(body, Append)
    ensures r.request.None? && !ExtendedReply(r) && r.chunksize == ResponseChunksize
  {
    var f := NewFrame(body, []);
    var base := NewResponse(senderId, connId, IoBody(f.value.payload));
    base.(cls := WebSocketResponseClass, frame := Some(f.value))
  }

  /** `response_class.from_request( request )`: a response of the request's
      response class, to the same sender and connection, pointing back at
      the request.  Only a server handshake touches the request (it reads
      the body), and it fails when the request kept no body. */
  function FromRequest(req: Request, c: HttpConstants): (res: Result<(Response, Request)>)
    ensures res.Err? <==> ResponseClassOf(req.cls) == ServerHandshakeClass && req.body.None?
    ensures res.Ok? ==> var (r, req') := res.value;
      && r.cls == ResponseClassOf(req.cls) && r.senderId == req.senderId && r.connId == req.connId
      && r.request == Some(req) && Coherent(r) && !ExtendedReply(r)
      && req' == req.(body := req'.body)
      && (r.cls != ServerHandshakeClass ==> req' == req)
  {
    match ResponseClassOf(req.cls)
    case BaseResponse =>
      Ok((NewResponse(req.senderId, req.connId, StringBody([])).(request := Some(req)), req))
    case HTTPResponseClass =>
      var r := NewHttpResponse(c, HTTPResponseClass, req.senderId, req.connId, PlainBody(StringBody([])), []);
      Ok((r.(request := Some(req)), req))
    case ServerHandshakeClass => ServerHandshakeFor(req, c)
    case WebSocketResponseClass =>
      Ok((NewWsResponse(req.senderId, req.connId, []).(request := Some(req)), req))
  }

  // ---------------------------------------------------------------------
  // Body operations

  /** `body=`: a string becomes a fresh appending stream, an IO is stored as
      it is.  A WebSocket response's frame keeps its own payload. */
  function SetBody(r: Response, b: BodyArg): (r': Response)
    ensures r' == r.(body := Wrap(b))
  {
    r.(body := Wrap(b))
  }

  /** `<<` as intended: the bytes go to the body stream, which for a
      WebSocket response is the frame's payload. */
  function AppendBody(r: Response, s: Bytes): (r': Response)
    ensures Coherent(r) ==> Coherent(r')
    ensures r.body.mode == Append ==> r'.body.data == r.body.data + s
    ensures r' == r.(body := r'.body, frame := r'.frame)
  {
    var body := Write(r.body, s);
    assert r.body.mode == Append ==> body.data == r.body.data + s by {
      if r.body.mode == Append { AppendWrite(r.body, s); }
    }
    if r.cls == WebSocketResponseClass && r.frame.Some? then
      var g := AppendPayload(r.frame.value, s);
      assert g.payload == Write(r.frame.value.payload, s);
      r.(body := body, frame := Some(g))
    else r.(body := body)
  }

  /** `<<` as written: a server handshake takes `<<` from the frame mix-in,
      which forwards it to a frame the handshake never has. */
  function AppendBodyAsWritten(r: Response, s: Bytes): (res: Result<Response>)
    ensures res.Err? <==> r.cls == ServerHandshakeClass
    ensures res.Ok? ==> res.value == AppendBody(r, s)
  {
    if r.cls == ServerHandshakeClass then Fail(NoMethodError, "undefined method `<<' for nil:NilClass")
    else Ok(AppendBody(r, s))
  }

  /** `puts( line )` on the body (a WebSocket response forwards it to its
      frame, whose payload is the same stream). */
  function PutLineBody(r: Response, line: Bytes): (r': Response)
    ensures Coherent(r) ==> Coherent(r')
    ensures r.body.mode == Append ==>
      r'.body.data == r.body.data + line || r'.body.data == r.body.data + line + [10]
    ensures r' == r.(body := r'.body, frame := r'.frame)
  {
    var body := Puts(r.body, line);
    if r.cls == WebSocketResponseClass && r.frame.Some? then
      r.(body := body, frame := Some(PutLine(r.frame.value, line)))
    else r.(body := body)
  }

  /** Appending twice to a response made with a string body, then reading
      it, gives the string followed by both appended parts. */
  lemma ChainedAppends(senderId: string, connId: int, b: Bytes, x: Bytes, y: Bytes)
    ensures BodyText(AppendBody(AppendBody(NewResponse(senderId, connId, StringBody(b)), x), y)) == b + x + y
  {
    var r := NewResponse(senderId, connId, StringBody(b));
    AppendWritesConcatenate(r.body, x, y);
  }

  /** `to_s` reads from the start whatever the stream position is. */
  lemma BodyTextIgnoresPosition(r: Response, p: nat)
    ensures BodyText(r.(body := r.body.(pos := p))) == BodyText(r)
  {
  }

  /** `extend_reply_with( filter )` */
  function ExtendReplyWith(r: Response, filter: string): (r': Response)
    ensures ExtendedReply(r') && r'.filter == Some(filter)
    ensures r' == r.(filter := r'.filter)
  {
    r.(filter := Some(filter))
  }

  /** `socket_id`: the sender id, a colon, and the connection id in
      decimal, which reads back as the connection id. */
  function SocketId(r: Response): (s: string)
    ensures |s| > |r.senderId| && s[..|r.senderId|] == r.senderId && s[|r.senderId|] == ':'
    ensures ParseInteger(s[|r.senderId| + 1..]) == Ok(r.connId)
  {
    var s := r.senderId + ":" + IntToString(r.connId);
    assert s[|r.senderId| + 1..] == IntToString(r.connId);
    ParseIntegerOfIntToString(r.connId);
    s
  }

  // ---------------------------------------------------------------------
  // Chunks

  /** `each_chunk` as intended: a WebSocket response yields its frame's
      chunks (moving the shared stream to its end); every other response
      yields one chunk, its `to_s`. */
  function EachChunk(r: Response, c: HttpConstants, now: string): (res: Result<(seq<Bytes>, Response)>)
    requires Coherent(r)
    ensures r.cls != WebSocketResponseClass ==> res.Ok? && res.value.1 == r
    ensures IsHttpResponse(r.cls) ==> res == Ok(([HttpText(r, c, now)], r))
    ensures r.cls == BaseResponse ==> res == Ok(([r.body.data], r))
    ensures r.cls == WebSocketResponseClass ==>
      (res.Ok? <==> WellFormed(r.frame.value) && r.frame.value.chunksize > 0)
    ensures r.cls == WebSocketResponseClass && res.Ok? ==>
      Concat(res.value.0) == WireBytes(r.frame.value) && Coherent(res.value.1)
  {
    match r.cls
    case WebSocketResponseClass =>
      var (chunks, f) :- WsFrame.EachChunk(r.frame.value);
      Ok((chunks, r.(body := f.payload, frame := Some(f))))
    case BaseResponse => Ok(([BodyText(r)], r))
    case _ => Ok(([HttpText(r, c, now)], r))
  }

  /** `each_chunk` as written: a server handshake takes `each_chunk` from the
      frame mix-in, which forwards it to a frame the handshake never has. */
  function EachChunkAsWritten(r: Response, c: HttpConstants, now: string): (res: Result<(seq<Bytes>, Response)>)
    requires Coherent(r)
    ensures r.cls == ServerHandshakeClass ==> res.Err? && res.error.kind == NoMethodError
    ensures r.cls != ServerHandshakeClass ==> res == EachChunk(r, c, now)
  {
    if r.cls == ServerHandshakeClass then Fail(NoMethodError, "undefined method `each_chunk' for nil:NilClass")
    else EachChunk(r, c, now)
  }

  /** The handshake answer as intended goes out as one HTTP message, status
      line "HTTP/1.1 101 ...". */
  lemma HandshakeChunkIsHttp(req: Request, c: HttpConstants, now: string)
    requires req.body.Some?
    ensures var res := ServerHandshakeFor(req, c);
      && res.Ok?
      && var r := res.value.0;
      && EachChunk(r, c, now) == Ok(([HttpText(r, c, now)], r))
      && ValueIn(StatusLine(r, c)[9..12], 10) == 101
  {
  }
}
