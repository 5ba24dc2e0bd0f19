/** The connection to a Mongrel2 server: a PULL socket for requests and a
    PUB socket for responses.

    The sockets themselves are outside the model.  A connection records
    which sockets exist and a log of what happened on them (connecting,
    publishing a message, closing a socket); the inbound side is the
    message the request socket delivers, passed in by the caller.  The
    socket identity (a digest of the app id, host and process) is a
    parameter.
 */
module Connections {
  import opened Wrappers
  import opened Text
  import opened TNetstring
  import opened Headers
  import opened Messages
  import opened Responses
  import opened Requests

  datatype Socket = RequestSocket | ResponseSocket

  datatype Event = Connected | Published(msg: Bytes) | SocketClosed(which: Socket)

  datatype Connection = Connection(
    appId: string,
    subAddr: string,
    pubAddr: string,
    identifier: string,
    requestOpen: bool,    // @request_sock is set
    responseOpen: bool,   // @response_sock is set
    closed: bool,
    log: seq<Event>)

  /** `Connection.new( app_id, sub_addr, pub_addr )`: no sockets yet and
      not closed. */
  function NewConnection(appId: string, subAddr: string, pubAddr: string, identifier: string): (c: Connection)
    ensures c.appId == appId && c.subAddr == subAddr && c.pubAddr == pubAddr && c.identifier == identifier
    ensures !c.requestOpen && !c.responseOpen && !c.closed && c.log == []
  {
    Connection(appId, subAddr, pubAddr, identifier, false, false, false, [])
  }

  /** `dup`: the copy keeps the app id, the addresses and the identifier,
      but has no sockets of its own and is open. */
  function Dup(c: Connection): (d: Connection)
    ensures d.appId == c.appId && d.subAddr == c.subAddr && d.pubAddr == c.pubAddr && d.identifier == c.identifier
    ensures !d.requestOpen && !d.responseOpen && !d.closed && d.log == []
  {
    c.(requestOpen := false, responseOpen := false, closed := false, log := [])
  }

  /** Every message published on the connection, in order. */
  function Sent(log: seq<Event>): (s: seq<Bytes>)
    ensures |s| <= |log|
  {
    if log == [] then []
    else Sent(log[..|log| - 1]) + (if log[|log| - 1].Published? then [log[|log| - 1].msg] else [])
  }

  lemma {:induction false} SentConcat(a: seq<Event>, b: seq<Event>)
    ensures Sent(a + b) == Sent(a) + Sent(b)
    decreases |b|
  {
    if b == [] {
      assert a + b == a;
    } else {
      assert (a + b)[..|a + b| - 1] == a + b[..|b| - 1];
      assert (a + b)[|a + b| - 1] == b[|b| - 1];
      SentConcat(a, b[..|b| - 1]);
    }
  }

  const ClosedMessage := "operation on closed Connection"

  /** `check_closed` */
  function CheckClosed(c: Connection): (r: Result<bool>)
    ensures r.Err? <==> c.closed
    ensures r.Err? ==> r.error == Error(ConnectionError, ClosedMessage)
  {
    if c.closed then Fail(ConnectionError, ClosedMessage) else Ok(true)
  }

  /** `connect`: both sockets are created and connected. */
  function Connect(c: Connection): (d: Connection)
    ensures d == c.(requestOpen := true, responseOpen := true, log := c.log + [Connected])
  {
    c.(requestOpen := true, responseOpen := true, log := c.log + [Connected])
  }

  /** `request_sock`: connects on first use; refused once closed. */
  function RequestSock(c: Connection): (r: Result<Connection>)
    ensures r.Err? <==> c.closed
    ensures r.Ok? ==> r.value.requestOpen && Sent(r.value.log) == Sent(c.log)
    ensures r.Ok? && c.requestOpen ==> r.value == c
  {
    var _ :- CheckClosed(c);
    if c.requestOpen then Ok(c)
    else
      SentConcat(c.log, [Connected]);
      Ok(Connect(c))
  }

  /** `response_sock`: connects on first use; refused once closed. */
  function ResponseSock(c: Connection): (r: Result<Connection>)
    ensures r.Err? <==> c.closed
    ensures r.Ok? ==> r.value.responseOpen && Sent(r.value.log) == Sent(c.log)
    ensures r.Ok? && c.responseOpen ==> r.value == c
  {
    var _ :- CheckClosed(c);
    if c.responseOpen then Ok(c)
    else
      SentConcat(c.log, [Connected]);
      Ok(Connect(c))
  }

  /** `recv`: the next message the request socket delivers (or the
      transport's error). */
  function Recv(c: Connection, incoming: Result<string>): (r: Result<(string, Connection)>)
    ensures c.closed ==> r == Fail(ConnectionError, ClosedMessage)
    ensures !c.closed ==> (r.Ok? <==> incoming.Ok?)
    ensures r.Ok? ==> r.value.0 == incoming.value && r.value.1.requestOpen && Sent(r.value.1.log) == Sent(c.log)
  {
    var d :- RequestSock(c);
    var msg :- incoming;
    Ok((msg, d))
  }

  /** `receive`: the next message, parsed into a request. */
  function Receive(c: Connection, incoming: Result<string>, reg: Registry, k: Codecs, w: World)
    : (r: Result<(Request, Registry, Connection)>)
    ensures c.closed ==> r == Fail(ConnectionError, ClosedMessage)
    ensures r.Ok? ==> incoming.Ok? && Requests.Parse(incoming.value, reg, k, w) == Ok((r.value.0, r.value.1))
    ensures r.Ok? ==> !r.value.2.closed && Sent(r.value.2.log) == Sent(c.log)
    ensures !c.closed ==> (r.Ok? <==> incoming.Ok? && Requests.Parse(incoming.value, reg, k, w).Ok?)
    ensures !c.closed && incoming.Err? ==> r == Err(incoming.error)
    ensures !c.closed && incoming.Ok? && Requests.Parse(incoming.value, reg, k, w).Err? ==>
      r == Err(Requests.Parse(incoming.value, reg, k, w).error)
  {
    var (raw, d) :- Recv(c, incoming);
    var (q, reg') :- Requests.Parse(raw, reg, k, w);
    Ok((q, reg', d))
  }

  // ---------------------------------------------------------------------
  // Messages to the server

  /** The text before the data of a reply: the sender, then the target ids
      as a netstring (`<length>:<ids>,`), then a space. */
  function ReplyHeader(sender: string, ids: string): string {
    sender + " " + NatToString(|ids|) + ":" + ids + ", "
  }

  /** `send`'s message: the header and the data. */
  function Message(sender: string, ids: string, data: Bytes): (m: Bytes)
    ensures m == ToBytes(ReplyHeader(sender, ids)) + data
  {
    ToBytes(ReplyHeader(sender, ids)) + data
  }

  /** `send_extended`'s message: the ids netstring starts with "X ", and the
      data is a tnetstring list of the reply type and its arguments. */
  function ExtendedMessage(sender: string, ids: string, kind: string, data: seq<TValue>): (m: Bytes)
    ensures m == Message(sender, "X " + ids, Dump(TList([TStr(ToBytes(kind))] + data)))
  {
    Message(sender, "X " + ids, Dump(TList([TStr(ToBytes(kind))] + data)))
  }

  /** Writes one message to the response socket, connecting first if need
      be; refused once closed. */
  function Publish(c: Connection, m: Bytes): (r: Result<Connection>)
    ensures r.Err? <==> c.closed
    ensures r.Err? ==> r.error == Error(ConnectionError, ClosedMessage)
    ensures r.Ok? ==> Sent(r.value.log) == Sent(c.log) + [m]
    ensures r.Ok? ==> r.value.responseOpen && !r.value.closed
    ensures r.Ok? ==> r.value == c.(requestOpen := r.value.requestOpen, responseOpen := true, log := r.value.log)
  {
    var d :- ResponseSock(c);
    SentConcat(d.log, [Published(m)]);
    Ok(d.(log := d.log + [Published(m)]))
  }

  /** `send( sender_id, conn_id, data )` */
  function Send(c: Connection, sender: string, ids: string, data: Bytes): (r: Result<Connection>)
    ensures r.Err? <==> c.closed
    ensures r.Err? ==> r.error == Error(ConnectionError, ClosedMessage)
    ensures r.Ok? ==> Sent(r.value.log) == Sent(c.log) + [Message(sender, ids, data)]
    ensures r.Ok? ==> !r.value.closed
  {
    Publish(c, Message(sender, ids, data))
  }

  /** `send_extended( sender_id, conn_id, response_type, *data )` */
  function SendExtended(c: Connection, sender: string, ids: string, kind: string, data: seq<TValue>): (r: Result<Connection>)
    ensures r.Err? <==> c.closed
    ensures r.Err? ==> r.error == Error(ConnectionError, ClosedMessage)
    ensures r.Ok? ==> Sent(r.value.log) == Sent(c.log) + [ExtendedMessage(sender, ids, kind, data)]
    ensures r.Ok? ==> !r.value.closed
  {
    Publish(c, ExtendedMessage(sender, ids, kind, data))
  }

  /** Reads a reply the way the server does: the sender up to the first
      space, the target ids as a netstring, a space, and the data. */
  function ReadReply(m: Bytes): (r: Option<(Bytes, Bytes, Bytes)>)
  {
    var k := IndexOf(m, 32);
    if k == |m| then None
    else
      match TNetstring.Parse(m[k + 1..])
      case Some((TStr(ids), rest)) =>
        if rest != [] && rest[0] == 32 then Some((m[..k], ids, rest[1..])) else None
      case _ => None
  }


  predicate IsByteName(s: string) {
    forall i :: 0 <= i < |s| ==> s[i] as int < 256 && s[i] != ' '
  }

  lemma SplitHeader(sender: string, ids: string, data: Bytes)
    ensures Message(sender, ids, data)
      == ToBytes(sender) + [32] + Dump(TStr(ToBytes(ids))) + [32] + data
  {
    DumpString(ids);
    var mid := NatToString(|ids|) + ":" + ids + ",";
    assert ReplyHeader(sender, ids) == sender + " " + mid + " ";
    ToBytesOfFour(sender, " ", mid, " ");
    assert ToBytes(" ") == [32];
  }

  lemma ToBytesOfFour(a: string, b: string, c: string, d: string)
    ensures ToBytes(a + b + c + d) == ToBytes(a) + ToBytes(b) + ToBytes(c) + ToBytes(d)
  {
    ToBytesConcat(a, b);
    ToBytesConcat(a + b, c);
    ToBytesConcat(a + b + c, d);
  }

  /** The server reads a reply back into the sender, the ids and the data it
      was made from. */
  lemma ReadReplyOfMessage(sender: string, ids: string, data: Bytes)
    requires IsByteName(sender)
    ensures ReadReply(Message(sender, ids, data)) == Some((ToBytes(sender), ToBytes(ids), data))
  {
    SplitHeader(sender, ids, data);
    NoSpaceInName(sender);
    ReadReplyOfParts(ToBytes(sender), ToBytes(ids), data);
  }

  lemma NoSpaceInName(sender: string)
    requires IsByteName(sender)
    ensures forall j :: 0 <= j < |ToBytes(sender)| ==> ToBytes(sender)[j] != 32
  {
    var s := ToBytes(sender);
    forall j | 0 <= j < |s| ensures s[j] != 32 {
      assert s[j] as int == sender[j] as int;
    }
  }

  lemma ReadReplyOfParts(s: Bytes, ids: Bytes, data: Bytes)
    requires forall j :: 0 <= j < |s| ==> s[j] != 32
    ensures ReadReply(s + [32] + Dump(TStr(ids)) + [32] + data) == Some((s, ids, data))
  {
    var body := Dump(TStr(ids)) + [32] + data;
    var m := s + [32] + Dump(TStr(ids)) + [32] + data;
    assert m == s + [32] + body;
    FirstSpaceAfter(s, body);
    assert m[|s| + 1..] == body;
    assert body == LengthPrefix(|ids|) + ids + [Comma] + ([32] + data);
    ParseStringEncoding(ids, [32] + data);
    assert ([32] + data)[1..] == data;
    assert m[..|s|] == s;
  }

  lemma {:induction false} FirstSpaceAfter(s: Bytes, rest: Bytes)
    requires forall j :: 0 <= j < |s| ==> s[j] != 32
    ensures IndexOf(s + [32] + rest, 32) == |s|
    decreases |s|
  {
    if s != [] {
      assert (s + [32] + rest)[1..] == s[1..] + [32] + rest;
      FirstSpaceAfter(s[1..], rest);
    }
  }

  /** An extended reply is read back with "X " before its ids and the
      tnetstring list as its data. */
  lemma ReadExtendedReply(sender: string, ids: string, kind: string, data: seq<TValue>)
    requires IsByteName(sender)
    ensures ReadReply(ExtendedMessage(sender, ids, kind, data))
      == Some((ToBytes(sender), ToBytes("X " + ids), Dump(TList([TStr(ToBytes(kind))] + data))))
  {
    ReadReplyOfMessage(sender, "X " + ids, Dump(TList([TStr(ToBytes(kind))] + data)));
  }

  // ---------------------------------------------------------------------
  // Broadcasts

  /** Connection ids as given to `broadcast`: nested arrays are allowed. */
  datatype Ids = One(id: int) | Many(items: seq<Ids>)

  /** `conn_ids.flatten` */
  function FlattenIds(ids: seq<Ids>): (r: seq<int>)
    decreases ids
  {
    if ids == [] then []
    else
      assert ids[0] in ids;
      (match ids[0] case One(n) => [n] case Many(items) => FlattenIds(items)) + FlattenIds(ids[1..])
  }

  /** Flattening distributes over concatenation: the ids keep their order. */
  lemma {:induction false} FlattenIdsConcat(a: seq<Ids>, b: seq<Ids>)
    ensures FlattenIds(a + b) == FlattenIds(a) + FlattenIds(b)
  {
    if a == [] {
      assert a + b == b;
    } else {
      assert (a + b)[0] == a[0];
      assert (a + b)[1..] == a[1..] + b;
      FlattenIdsConcat(a[1..], b);
    }
  }

  /** Ids that are not nested flatten to themselves, and wrapping a list in
      an array changes nothing. */
  lemma {:induction false} FlattenIdsOfOnes(ns: seq<int>)
    ensures FlattenIds(seq(|ns|, i requires 0 <= i < |ns| => One(ns[i]))) == ns
    ensures FlattenIds([Many(seq(|ns|, i requires 0 <= i < |ns| => One(ns[i])))]) == ns
  {
    var ones := seq(|ns|, i requires 0 <= i < |ns| => One(ns[i]));
    if ns != [] {
      var rest := seq(|ns| - 1, i requires 0 <= i < |ns| - 1 => One(ns[1..][i]));
      assert ones[1..] == rest;
      FlattenIdsOfOnes(ns[1..]);
      assert ns == [ns[0]] + ns[1..];
    }
    assert FlattenIds([Many(ones)]) == FlattenIds(ones) + FlattenIds([]);
  }

  /** The fields of a text split at every single space, as the server reads
      the target ids of a reply. */
  function SpaceFields(s: string): (r: seq<string>)
    decreases |s|
  {
    if s == "" then []
    else
      var k := IndexOf(s, ' ');
      if k == |s| then [s] else [s[..k]] + SpaceFields(s[k + 1..])
  }

  /** The decimal texts of the ids, in order. */
  function IdTexts(ids: seq<int>): (r: seq<string>)
    ensures |r| == |ids|
  {
    seq(|ids|, i requires 0 <= i < |ids| => IntToString(ids[i]))
  }

  /** `.map( &:to_s ).join( ' ' )`: split at its spaces, the list gives back
      the decimal text of every id, in order. */
  function IdList(ids: seq<int>): (s: string)
    ensures |ids| == 1 ==> s == IntToString(ids[0])
    ensures SpaceFields(s) == IdTexts(ids)
  {
    if ids == [] then ""
    else if |ids| == 1 then
      var w := IntToString(ids[0]);
      IntToStringNoSpace(ids[0]);
      IndexOfNoSpace(w);
      w
    else
      var w := IntToString(ids[0]);
      var rest := IdList(ids[1..]);
      IntToStringNoSpace(ids[0]);
      SpaceFieldsStep(w, rest);
      assert IdTexts(ids) == [w] + IdTexts(ids[1..]);
      w + " " + rest
  }

  lemma SpaceFieldsStep(w: string, rest: string)
    requires w != "" && NoSpace(w)
    ensures SpaceFields(w + " " + rest) == [w] + SpaceFields(rest)
  {
    var m := w + " " + rest;
    assert m[..|w|] == w;
    IndexOfAfter(m, w);
    assert m[|w| + 1..] == rest;
  }

  /** Every id of a broadcast reads back: `Integer()` of each field of the
      id list is the id at that place. */
  lemma IdListReadsBack(ids: seq<int>)
    ensures |SpaceFields(IdList(ids))| == |ids|
    ensures forall i :: 0 <= i < |ids| ==> ParseInteger(SpaceFields(IdList(ids))[i]) == Ok(ids[i])
  {
    forall i | 0 <= i < |ids|
      ensures ParseInteger(SpaceFields(IdList(ids))[i]) == Ok(ids[i])
    {
      ParseIntegerOfIntToString(ids[i]);
    }
  }

  /** `broadcast( sender_id, conn_ids, data )` */
  function Broadcast(c: Connection, sender: string, ids: seq<Ids>, data: Bytes): (r: Result<Connection>)
    ensures r.Err? <==> c.closed
    ensures r.Ok? ==> Sent(r.value.log) == Sent(c.log) + [Message(sender, IdList(FlattenIds(ids)), data)]
  {
    Send(c, sender, IdList(FlattenIds(ids)), data)
  }

  /** `broadcast_extended( sender_id, conn_ids, response_type, *data )` */
  function BroadcastExtended(c: Connection, sender: string, ids: seq<Ids>, kind: string, data: seq<TValue>): (r: Result<Connection>)
    ensures r.Err? <==> c.closed
    ensures r.Ok? ==> Sent(r.value.log) == Sent(c.log) + [ExtendedMessage(sender, IdList(FlattenIds(ids)), kind, data)]
  {
    SendExtended(c, sender, IdList(FlattenIds(ids)), kind, data)
  }

  /** Broadcasting to ids 8, 16, 44, 45 and 1833 addresses "15:8 16 44 45
      1833," however the ids are nested. */
  lemma BroadcastExample(c: Connection, sender: string, data: Bytes)
    requires !c.closed
    ensures var ids := [One(8), Many([One(16), Many([One(44), One(45)])]), One(1833)];
      var r := Broadcast(c, sender, ids, data);
      r.Ok? && Sent(r.value.log) == Sent(c.log) + [Message(sender, "8 16 44 45 1833", data)]
    ensures ReplyHeader(sender, "8 16 44 45 1833") == sender + " 15:8 16 44 45 1833, "
  {
    ExampleIds();
    ExampleIdList();
    ExampleHeader(sender);
  }

  lemma ExampleHeader(sender: string)
    ensures ReplyHeader(sender, "8 16 44 45 1833") == sender + " 15:8 16 44 45 1833, "
  {
    assert |"8 16 44 45 1833"| == 15;
    assert NatToString(15) == "15";
  }

  lemma ExampleIds()
    ensures FlattenIds([One(8), Many([One(16), Many([One(44), One(45)])]), One(1833)]) == [8, 16, 44, 45, 1833]
  {
    var inner := [One(44), One(45)];
    assert FlattenIds(inner[1..]) == [45];
    assert FlattenIds(inner) == [44, 45];
    var mid := [One(16), Many(inner)];
    assert FlattenIds(mid[1..]) == [44, 45];
    assert FlattenIds(mid) == [16, 44, 45];
    var ids := [One(8), Many(mid), One(1833)];
    assert FlattenIds(ids[2..]) == [1833];
    assert ids[1..][1..] == ids[2..];
    assert FlattenIds(ids[1..]) == [16, 44, 45, 1833];
  }

  lemma Decimals()
    ensures IntToString(8) == "8" && IntToString(16) == "16" && IntToString(44) == "44"
    ensures IntToString(45) == "45" && IntToString(1833) == "1833"
  {
    assert NatToString(18) == "18";
    assert NatToString(183) == "183";
    assert NatToString(1833) == "1833";
  }

  lemma ExampleIdList()
    ensures IdList([8, 16, 44, 45, 1833]) == "8 16 44 45 1833"
  {
    Decimals();
    ExampleSpelling();
    IdListOfFive(8, 16, 44, 45, 1833);
  }

  lemma IdListOfTwo(d: int, e: int)
    ensures IdList([d, e]) == IntToString(d) + " " + IntToString(e)
  {
    IdListStep(d, [e], IntToString(e));
    assert [d] + [e] == [d, e];
  }

  lemma IdListOfThree(c: int, d: int, e: int)
    ensures IdList([c, d, e]) == IntToString(c) + " " + (IntToString(d) + " " + IntToString(e))
  {
    IdListOfTwo(d, e);
    IdListStep(c, [d, e], IntToString(d) + " " + IntToString(e));
    assert [c] + [d, e] == [c, d, e];
  }

  lemma IdListOfFour(b: int, c: int, d: int, e: int)
    ensures IdList([b, c, d, e]) == IntToString(b) + " " + (IntToString(c) + " " + (IntToString(d) + " " + IntToString(e)))
  {
    IdListOfThree(c, d, e);
    IdListStep(b, [c, d, e], IntToString(c) + " " + (IntToString(d) + " " + IntToString(e)));
    assert [b] + [c, d, e] == [b, c, d, e];
  }

  lemma IdListOfFive(a: int, b: int, c: int, d: int, e: int)
    ensures IdList([a, b, c, d, e])
      == IntToString(a) + " " + (IntToString(b) + " " + (IntToString(c) + " " + (IntToString(d) + " " + IntToString(e))))
  {
    var ids := [a, b, c, d, e];
    IdListUnfold(ids);
    assert ids[1..] == [b, c, d, e];
    IdListOfFour(b, c, d, e);
  }

  lemma IdListUnfold(ids: seq<int>)
    requires |ids| >= 2
    ensures IdList(ids) == IntToString(ids[0]) + " " + IdList(ids[1..])
  {
  }

  lemma ExampleSpelling()
    ensures "45" + " " + "1833" == "45 1833"
    ensures "44" + " " + "45 1833" == "44 45 1833"
    ensures "16" + " " + "44 45 1833" == "16 44 45 1833"
    ensures "8" + " " + "16 44 45 1833" == "8 16 44 45 1833"
  {
  }

  lemma IdListStep(a: int, rest: seq<int>, t: string)
    requires rest != [] && IdList(rest) == t
    ensures IdList([a] + rest) == IntToString(a) + " " + t
  {
    assert ([a] + rest)[1..] == rest;
  }

  // ---------------------------------------------------------------------
  // Closing messages

  /** `send_close( sender_id, conn_id )`: an empty reply. */
  function SendClose(c: Connection, sender: string, connId: int): (r: Result<Connection>)
    ensures r.Err? <==> c.closed
    ensures r.Ok? ==> Sent(r.value.log) == Sent(c.log) + [ToBytes(ReplyHeader(sender, IntToString(connId)))]
  {
    assert Message(sender, IntToString(connId), []) == ToBytes(ReplyHeader(sender, IntToString(connId)));
    Send(c, sender, IntToString(connId), [])
  }

  /** `reply_close( request_or_response )` */
  function ReplyClose(c: Connection, senderId: string, connId: int): (r: Result<Connection>)
    ensures r == SendClose(c, senderId, connId)
  {
    SendClose(c, senderId, connId)
  }

  lemma FlattenSingle(ids: seq<Ids>)
    ensures FlattenIds([Many(ids)]) == FlattenIds(ids)
  {
    assert [Many(ids)][1..] == [];
  }

  /** `broadcast_close( sender_id, *conn_ids )` */
  function BroadcastClose(c: Connection, sender: string, ids: seq<Ids>): (r: Result<Connection>)
    ensures r.Err? <==> c.closed
    ensures r.Ok? ==> Sent(r.value.log) == Sent(c.log) + [ToBytes(ReplyHeader(sender, IdList(FlattenIds(ids))))]
  {
    FlattenSingle(ids);
    assert Message(sender, IdList(FlattenIds(ids)), []) == ToBytes(ReplyHeader(sender, IdList(FlattenIds(ids))));
    Broadcast(c, sender, [Many(ids)], [])
  }

  // ---------------------------------------------------------------------
  // Replies

  /** Sends the chunks in order. */
  function SendAll(c: Connection, sender: string, ids: string, chunks: seq<Bytes>): (r: Result<Connection>)
    ensures chunks != [] ==> (r.Err? <==> c.closed)
    ensures !c.closed ==> r.Ok?
    ensures r.Ok? ==> Sent(r.value.log) == Sent(c.log) + ChunkMessages(sender, ids, chunks)
    ensures r.Ok? ==> r.value.closed == c.closed
    decreases |chunks|
  {
    if chunks == [] then Ok(c)
    else
      var d :- Send(c, sender, ids, chunks[0]);
      assert ChunkMessages(sender, ids, chunks) == [Message(sender, ids, chunks[0])] + ChunkMessages(sender, ids, chunks[1..]);
      SendAll(d, sender, ids, chunks[1..])
  }

  function ChunkMessages(sender: string, ids: string, chunks: seq<Bytes>): (ms: seq<Bytes>)
    ensures |ms| == |chunks| && forall i :: 0 <= i < |ms| ==> ms[i] == Message(sender, ids, chunks[i])
  {
    seq(|chunks|, i requires 0 <= i < |chunks| => Message(sender, ids, chunks[i]))
  }

  /** `reply( response )`: one message per chunk, then the extended reply if
      the response has one. */
  function Reply(c: Connection, resp: Response, hc: HttpConstants, now: string): (r: Result<(Connection, Response)>)
    requires Coherent(resp)
    ensures r.Ok? ==> (EachChunk(resp, hc, now).Ok? &&
      var (chunks, _) := EachChunk(resp, hc, now).value; var ids := IntToString(resp.connId);
      Sent(r.value.0.log) == Sent(c.log) + ChunkMessages(resp.senderId, ids, chunks)
        + (if ExtendedReply(resp) then [ExtendedMessage(resp.senderId, ids, resp.filter.value, resp.extendedData)] else []))
    ensures c.closed && EachChunk(resp, hc, now).Ok? && (EachChunk(resp, hc, now).value.0 != [] || ExtendedReply(resp)) ==>
      r.Err? && r.error.kind == ConnectionError
    ensures !c.closed && EachChunk(resp, hc, now).Ok? ==> r.Ok?
    ensures EachChunk(resp, hc, now).Err? ==> r == Err(EachChunk(resp, hc, now).error)
  {
    var (chunks, resp') :- EachChunk(resp, hc, now);
    var ids := IntToString(resp.connId);
    var d :- SendAll(c, resp.senderId, ids, chunks);
    if ExtendedReply(resp) then
      var e :- SendExtended(d, resp.senderId, ids, resp.filter.value, resp.extendedData);
      Ok((e, resp'))
    else Ok((d, resp'))
  }

  /** A plain response goes out as exactly one message, its body. */
  lemma ReplyOfBaseResponse(c: Connection, resp: Response, hc: HttpConstants, now: string)
    requires !c.closed && resp.cls == BaseResponse && resp.frame.None? && !ExtendedReply(resp)
    ensures var r := Reply(c, resp, hc, now);
      r.Ok? && Sent(r.value.0.log) == Sent(c.log) + [Message(resp.senderId, IntToString(resp.connId), resp.body.data)]
  {
  }

  // ---------------------------------------------------------------------
  // Closing the connection

  /** `close`: marks the connection closed, then closes the sockets that
      exist; closing again does nothing. */
  function Close(c: Connection): (d: Connection)
    ensures d.closed && Sent(d.log) == Sent(c.log)
    ensures c.closed ==> d == c
    ensures !c.closed ==> (d.log == c.log
      + (if c.requestOpen then [SocketClosed(RequestSocket)] else [])
      + (if c.responseOpen then [SocketClosed(ResponseSocket)] else []))
    ensures d == c.(closed := true, log := d.log)
  {
    if c.closed then c
    else
      var l1 := if c.requestOpen then [SocketClosed(RequestSocket)] else [];
      var l2 := if c.responseOpen then [SocketClosed(ResponseSocket)] else [];
      SentConcat(c.log, l1);
      SentConcat(c.log + l1, l2);
      assert Sent(l1) == [] && Sent(l2) == [];
      c.(closed := true, log := c.log + l1 + l2)
  }

  /** Closing twice is closing once, and a connection that never connected
      closes no socket. */
  lemma CloseIdempotent(c: Connection)
    ensures Close(Close(c)) == Close(c)
    ensures !c.requestOpen && !c.responseOpen ==> Close(c).log == c.log
  {
  }

  /** After `close` every operation that needs a socket is refused with the
      same error, and sends nothing. */
  lemma ClosedRefuses(c: Connection, incoming: Result<string>, sender: string, ids: string, data: Bytes,
                      kind: string, args: seq<TValue>)
    ensures var d := Close(c);
      && Recv(d, incoming) == Fail(ConnectionError, ClosedMessage)
      && Send(d, sender, ids, data) == Fail(ConnectionError, ClosedMessage)
      && SendExtended(d, sender, ids, kind, args) == Fail(ConnectionError, ClosedMessage)
      && RequestSock(d).Err? && ResponseSock(d).Err?
  {
  }

  /** `to_s`: "{app id} sub <-> pub". */
  function ToString(c: Connection): (s: string)
    ensures StartsWith(s, "{" + c.appId + "} " + c.subAddr)
    ensures EndsWith(s, " <-> " + c.pubAddr)
    ensures |s| == |"{" + c.appId + "} " + c.subAddr| + |" <-> " + c.pubAddr|
  {
    var s := "{" + c.appId + "} " + c.subAddr + " <-> " + c.pubAddr;
    assert s[..|"{" + c.appId + "} " + c.subAddr|] == "{" + c.appId + "} " + c.subAddr;
    s
  }

  /** The parts `to_s` states fix the text: any string with that prefix,
      that suffix and that length is the one `to_s` gives. */
  lemma ToStringOfParts(c: Connection, t: string)
    requires StartsWith(t, "{" + c.appId + "} " + c.subAddr)
    requires EndsWith(t, " <-> " + c.pubAddr)
    requires |t| == |"{" + c.appId + "} " + c.subAddr| + |" <-> " + c.pubAddr|
    ensures t == ToString(c)
  {
    var p := "{" + c.appId + "} " + c.subAddr;
    assert t == t[..|p|] + t[|p|..];
  }
}
