# Mongrel2 connector core in Dafny

A model of the wire-protocol core of the Ruby Mongrel2 connector. A handler
process talks to a Mongrel2 web server over two ZeroMQ sockets: it pulls
requests from one and publishes replies on the other. The model covers:

- **WebSocket frames** (`WsFrame`, frame.dfy): the flags byte, the opcode
  names, `set_flags`, `opcode=`, the payload stream, close frames and their
  status text, validation, and the header layout on the wire. It also covers
  chunking and the fragmenting of a stream into frames.
- **Requests** (`Requests`, requests.dfy): `Request.parse` of a raw
  Mongrel2 message and the registry of request classes by method. Also the
  request constructor, its upload handling and the HTTP request helpers:
  `keepalive?`, `content_length` and `remote_ip`. For WebSocket requests it
  covers the opening-handshake response with protocol choice and the frame
  response (pong to a ping, same opcode otherwise).
- **Responses** (`Responses`, responses.dfy): the base response and its
  body stream, and the HTTP response. For HTTP responses that means the
  status line, status categories, normalised headers, `to_s`, `reset` and
  keep-alive. It also covers the server handshake and the WebSocket
  response, and `each_chunk` for every response class.
- **Connections** (`Connections`, connection.dfy): the lifecycle of the two
  sockets, and the reply header format (`"<sender> <len>:<ids>, <data>"`).
  It also covers extended replies, broadcast id flattening, close messages,
  `reply` and `close`.
- **Handlers** (`Handlers`, handler.dfy): request dispatch by class family,
  and the default callbacks. It also covers signal reactions (hang-up
  restarts, term and int shut down) and the receive loop over a finite
  sequence of events.
- **Directories** (`Directories`, directory.dfy): validation of a
  directory record of the server configuration, and its description string.

Supporting modules:

- `Wrappers`: `Option`, `Result`, and the Ruby exception classes as an
  `ErrorKind`.
- `Text`: bytes and strings, Ruby's `Integer()`, `split`, and `%03d`.
- `Buffers`: Ruby's `StringIO`, with data, position and open mode. This
  matters because `Frame#<<`, `set_status` and `get_content_length` depend
  on the position.
- `TNetstring`: a reference tnetstring codec.
- `Headers`: the header table, whose keys are normalised to lower case
  with `-` read as `_`.
- `Messages`: the class hierarchy and the request and response records.

Every operation is a pure function. State that the Ruby code mutates comes
back in the result: the memoised response, the cached registry lookup, the
stream position, and the connection's event log. The outside world enters
as a parameter. That covers incoming socket messages, the chroot and file
table (`World`), the JSON and tnetstring-dictionary decoders (`Codecs`),
reason phrases and header rendering (`HttpConstants`), and the clock
(`now`).

The model follows the code, including where the program's own tests
expect otherwise. `HTTPResponse#status_line` gives an unset status with an
empty body as `204` even when an explicit Content-Length header is set
(httpresponse.rb:75-81). The test at spec/mongrel2/httpresponse_spec.rb:257-267
expects `200 OK` in that case.

The handler's receive loop rescues only ZeroMQ errors, so any other
exception escapes it (handler.rb:158-177).

The exceptions are the defects listed under "## Findings". For each one the
model keeps the code as written next to a corrected definition, and the
rest of the model builds on the corrected one. "## Left out" names every
member that does so.

## Model

| member | source | states |
|---|---|---|
| WsFrame.OpcodeName | lib/mongrel2/websocket.rb:92-101 | codes outside 0..15 raise RangeError; 0,1,2,8,9,10 get their opcode names and every other nibble is `reserved` |
| WsFrame.OpcodeBits | lib/mongrel2/websocket.rb:104 | the inverted table knows exactly the six opcode names, each mapped to its nibble |
| WsFrame.OpcodeNameOfBits | lib/mongrel2/websocket.rb:92-104 | name -> bits -> name is the identity on the six opcode names |
| WsFrame.OpcodeBitsOfName | lib/mongrel2/websocket.rb:92-104 | bits -> name -> bits is the identity on the six defined codes |
| WsFrame.NibbleNameAgrees | lib/mongrel2/websocket.rb:569-571 | the name read from a frame's low nibble is the table's name for that code |
| WsFrame.RsvFlagsAreTheThreeBits | lib/mongrel2/websocket.rb:562-564 | `has_rsv_flags?` holds iff one of rsv1, rsv2, rsv3 is set |
| WsFrame.NumericOpcode | lib/mongrel2/websocket.rb:575-577 | the numeric opcode is the low nibble, never above 15 |
| WsFrame.Opcode | lib/mongrel2/websocket.rb:569-571 | the opcode name is `reserved` exactly for undefined nibbles, and otherwise inverts to the frame's nibble |
| WsFrame.SetFlag | lib/mongrel2/websocket.rb:466-477 | a flag setter turns its bit on or off and leaves every other bit and field alone |
| WsFrame.PutOpcode | lib/mongrel2/websocket.rb:582-594 | writing an opcode replaces the low nibble and keeps FIN and RSV bits |
| WsFrame.PutOpcodeNamed | lib/mongrel2/websocket.rb:582-594 | after writing a named opcode the frame reads back that name, FIN and RSV kept |
| WsFrame.SetOpcode | lib/mongrel2/websocket.rb:582-594 | `opcode=` accepts any integer; a symbol or string succeeds iff it names an opcode and otherwise raises ArgumentError "unknown opcode ..." |
| WsFrame.SetNumericOpcode | lib/mongrel2/websocket.rb:582-594 | any Integer is accepted: the opcode nibble is cleared and the integer ORed in, so a code above 15 also sets upper bits (0x81 sets FIN); a code in 0..15 becomes the opcode with the upper bits kept; the model keeps the flags' low byte |
| WsFrame.Flatten | lib/mongrel2/websocket.rb:535-558 | `flatten.compact` leaves no arrays and no nils |
| WsFrame.FlattenConcat | lib/mongrel2/websocket.rb:535-558 | flattening distributes over concatenation |
| WsFrame.Classify | lib/mongrel2/websocket.rb:535-558 | the `case` of set_flags: flag symbols, then opcode symbols, then hex-byte text, each recognised exactly |
| WsFrame.ApplyFlag | lib/mongrel2/websocket.rb:535-558 | one flag argument changes only the flags, and fails exactly for the arguments set_flags rejects |
| WsFrame.ApplyFlagBit | lib/mongrel2/websocket.rb:535-558 | a flag symbol sets its bit and nothing else |
| WsFrame.ApplyFlagOpcode | lib/mongrel2/websocket.rb:535-558 | an opcode symbol behaves as `opcode=` with that name |
| WsFrame.ApplyFlagInteger | lib/mongrel2/websocket.rb:535-558 | an integer is OR-ed into the flags; the model keeps the flags' low byte |
| WsFrame.ApplyFlagHexString | lib/mongrel2/websocket.rb:535-558 | a hex-byte string replaces the flags with its value |
| WsFrame.ApplyFlagErrors | lib/mongrel2/websocket.rb:535-558 | a hex-looking symbol is a TypeError; any other unknown argument is ArgumentError "Don't know what the ... flag is." |
| WsFrame.SetFlags | lib/mongrel2/websocket.rb:535-558 | set_flags changes only the flags and succeeds iff every flattened argument is accepted |
| WsFrame.ApplyFlagsSucceed | lib/mongrel2/websocket.rb:535-558 | the flag loop stops with an error iff some argument is not accepted |
| WsFrame.SetFlagsConcat | lib/mongrel2/websocket.rb:535-558 | flags given together act as the first group followed by the second, stopping at the first error |
| WsFrame.SetFlagsCloseFin | lib/mongrel2/websocket.rb:535-558 | `set_flags( :close, :fin )` makes any frame a final close frame and keeps the RSV bits |
| WsFrame.SetFlagsReservedOpcode | lib/mongrel2/websocket.rb:535-558 | `set_flags( 0xB )` on a text frame ORs the integer into the opcode, which becomes the reserved 0xB |
| WsFrame.FlagSymbolsOnlySetBits | lib/mongrel2/websocket.rb:535-558 | a list of flag symbols ORs in exactly their bits |
| WsFrame.NewFrameIn | lib/mongrel2/websocket.rb:485-492 | a new frame holds the payload at position 0, no errors, the 512 KiB chunk size and FIN\|close flags unless flags are given; it succeeds iff the flags do |
| WsFrame.NewFrameAsWritten | lib/mongrel2/websocket.rb:485-492 | the constructor as written opens the payload read-write at position 0 |
| WsFrame.NewFrame | lib/mongrel2/websocket.rb:485-492 | the corrected constructor opens the payload for appending |
| WsFrame.NewFrameWithOpcode | lib/mongrel2/websocket.rb:485-492 | a frame made with an opcode symbol reads back that opcode with only FIN set among the high bits |
| WsFrame.Named | lib/mongrel2/websocket.rb:457-462 | each convenience constructor yields a frame with its opcode and succeeds iff the extra flags are accepted; the constructor as written gives the same frame except that its payload stream is read-write |
| WsFrame.NewFrameModes | lib/mongrel2/websocket.rb:485-492 | the constructor as written and the intended one agree on success, errors and header byte, and differ only in the payload's stream mode |
| WsFrame.NamedDefaults | lib/mongrel2/websocket.rb:457-462 | with no extra flags the frame is final, has no RSV bits and is a control frame iff it is close, ping or pong |
| WsFrame.AppendPayload | lib/mongrel2/websocket.rb:605-608 | `<<` on an appending payload adds the bytes at the end and touches nothing else |
| WsFrame.PutLine | lib/mongrel2/websocket.rb:612-614 | `puts` appends the line, with a newline unless it already ends in one |
| WsFrame.AppendAfterConstructionOverwrites | lib/mongrel2/websocket.rb:485-492 | as written, appending to a freshly made frame overwrites the start of its payload |
| WsFrame.AppendAfterConstructionExample | lib/mongrel2/websocket.rb:605-608 | `Frame.text("Hello") << "!"` holds `!ello` as written |
| WsFrame.AppendAfterConstructionExtends | lib/mongrel2/websocket.rb:605-608 | with the corrected constructor, appending extends the payload |
| WsFrame.CloseDescription | lib/mongrel2/websocket.rb:182-196 | only codes 1000..1015 have descriptions, each a sentence ending in `.` |
| WsFrame.StatusMessage | lib/mongrel2/websocket.rb:626-632 | the status text is the decimal code, a space and the code's CLOSING_STATUS_DESC entry (nothing for an unknown code) |
| WsFrame.StatusMessageReadsBack | lib/mongrel2/websocket.rb:626-632 | `Integer()` of the text before the first space is the code, and the rest is its description |
| WsFrame.SetStatus | lib/mongrel2/websocket.rb:626-632 | set_status changes only the payload and keeps its mode |
| WsFrame.SetStatusReplacesPayload | lib/mongrel2/websocket.rb:626-632 | on an appending payload at position 0 the new payload is exactly the status line and a newline |
| WsFrame.SetStatusAfterWritePadsWithNul | lib/mongrel2/websocket.rb:626-632 | as written, after earlier writes the status line is preceded by NUL bytes up to the old position |
| WsFrame.SetStatusAfterWriteExample | lib/mongrel2/websocket.rb:626-632 | a read-write close frame that received `abc` gets, for every status code, a status payload starting with three NULs |
| WsFrame.MakeCloseFrame | lib/mongrel2/websocket.rb:618-632 | the frame becomes a close frame with FIN and RSV bits kept; an appending payload becomes the status line, and a read-write payload has one NUL byte per position before it |
| WsFrame.FromBigEndianOf | lib/mongrel2/websocket.rb:729-749 | the extended length field reads back the length it was packed from |
| WsFrame.MakeHeader | lib/mongrel2/websocket.rb:729-749 | 2 bytes for lengths up to 125, 4 with marker 126 below 65536, otherwise 10 with marker 127; the first byte is the flags |
| WsFrame.DecodeMakeHeader | lib/mongrel2/websocket.rb:729-749 | the header decodes back to the flags and payload length it encodes |
| WsFrame.WireBytes | lib/mongrel2/websocket.rb:677-679 | the wire form starts with the flags and ends with the payload |
| WsFrame.Render | lib/mongrel2/websocket.rb:677-679 | `to_s` yields the wire form and leaves the payload stream at its end |
| WsFrame.DecodeRender | lib/mongrel2/websocket.rb:677-696 | decoding the rendered bytes gives back the flags and the whole payload |
| WsFrame.RenderHelloExample | lib/mongrel2/websocket.rb:729-749 | a final text frame `Hello` renders as 81 05 48 65 6c 6c 6f |
| WsFrame.Render256Example | lib/mongrel2/websocket.rb:729-749 | a final binary frame with a 256-byte payload starts 82 7E 01 00 |
| WsFrame.Valid | lib/mongrel2/websocket.rb:648-657 | `valid?` holds iff the frame is well formed; each error appears iff its rule is broken (control frame too long or fragmented, reserved opcode, RSV bits) |
| WsFrame.ValidIdempotent | lib/mongrel2/websocket.rb:648-657 | checking twice gives the same result and errors as checking once |
| WsFrame.Validate | lib/mongrel2/websocket.rb:637-643 | validate succeeds iff the frame is well formed and otherwise raises FrameError listing the errors |
| WsFrame.Slices | lib/mongrel2/websocket.rb:662-673 | `each_slice` pieces concatenate to the input and are non-empty and at most n long, all but the last exactly n |
| WsFrame.EachChunk | lib/mongrel2/websocket.rb:662-673 | each_chunk validates first; the chunks concatenate to the wire form and respect the chunk size |
| WsFrame.Fragments | lib/mongrel2/websocket.rb:429-453 | an opcode that is not a defined name raises ArgumentError "Invalid opcode ..."; with a valid opcode it fails exactly when data is left and the size is not positive: a negative size raises ArgumentError and a zero size never finishes |
| WsFrame.FragmentsSucceed | lib/mongrel2/websocket.rb:435-447 | the fragments are collected unless data is left and the size is not positive |
| WsFrame.FragmentsStep | lib/mongrel2/websocket.rb:435-447 | each fragment carries the next read, the first the opcode and the rest `continuation`, and is final iff the stream is then exhausted |
| WsFrame.FragmentsCarryTheStream | lib/mongrel2/websocket.rb:429-453 | the fragments' payloads concatenate to the unread rest of the stream |
| WsFrame.FragmentsSized | lib/mongrel2/websocket.rb:429-453 | every fragment payload is non-empty and at most the fragment size |
| WsFrame.FragmentsOpcodes | lib/mongrel2/websocket.rb:438-442 | only the first fragment carries the opcode; the rest are continuations |
| WsFrame.FragmentsFinalOnlyLast | lib/mongrel2/websocket.rb:443 | exactly the last fragment has FIN set |
| Buffers.Write | lib/mongrel2/websocket.rb:605-608 | StringIO#write replaces bytes at the write offset, grows the stream with NUL fill and moves the position past the write |
| Buffers.AppendWritesConcatenate | lib/mongrel2/response.rb:87-90 | two writes to an appending stream concatenate |
| Buffers.ReadWriteOverwritesFromStart | lib/mongrel2/websocket.rb:486 | writing to a read-write stream at position 0 overwrites its start |
| Buffers.ReadPartial | lib/mongrel2/websocket.rb:437 | readpartial returns up to n unread bytes, fails at end of stream or for a negative n, and advances the position by what it read |
| Buffers.ReadAll | lib/mongrel2/websocket.rb:349 | read returns the unread bytes and leaves the position at the end |
| Buffers.CopyStream | lib/mongrel2/websocket.rb:366 | copy_stream moves exactly `limit` bytes from the source position into the destination, or all that is left if that is less |
| Buffers.CopyStreamCopies | lib/mongrel2/websocket.rb:366 | the source advances by the bytes copied, and an appending destination gains exactly those bytes at its end |
| Buffers.CopyStreamInSteps | lib/mongrel2/websocket.rb:366 | copying `a` bytes and then `b` more is the same as copying `a + b` at once |
| TNetstring.ParseDump | lib/mongrel2/connection.rb:130-137 | a dumped value parses back to itself with the rest untouched |
| TNetstring.ParseAllDumpAll | lib/mongrel2/connection.rb:133 | a dumped list's body parses back to its items |
| TNetstring.DumpString | lib/mongrel2/connection.rb:118-125 | a dumped string is `<length>:<text>,`, the same shape as the reply header's id field |
| Text.ParseIntegerOfIntToString | lib/mongrel2/request.rb:116 | `Integer()` reads back any decimal it printed |
| Text.UnderscoreSeparates | lib/mongrel2/request.rb:116 | `Integer()` reads a single underscore between digits as nothing |
| Text.UnderscoreMisplaced | lib/mongrel2/request.rb:116 | a leading, trailing or doubled underscore makes `Integer()` fail |
| Text.SeparatedThousand | lib/mongrel2/httprequest.rb:68 | `Integer( "1_000" )` is 1000 |
| Text.SplitOnCommasOfJoin | lib/mongrel2/websocket.rb:268-270 | splitting on `\s*,\s*` undoes joining with `, ` for items without commas or edge spaces |
| Text.SplitFourOfEnvelope | lib/mongrel2/request.rb:28 | `split(' ', 4)` of sender, id, path and rest gives the four parts back |
| Text.Decimal3 | lib/mongrel2/httpresponse.rb:20 | `%03d` gives three digits with the status's value |
| Headers.NormalKeyIdempotent | lib/mongrel2/httprequest.rb:42-60 | normalising a header name twice is the same as once |
| Headers.Merge | lib/mongrel2/httpresponse.rb:42 | `merge!` stores the last value given for each name, under any spelling, and leaves the names not given as they were |
| Headers.MergeConcat | lib/mongrel2/httpresponse.rb:42 | merging two lists of headers in turn is merging their concatenation |
| Headers.InspectValue | lib/mongrel2/request.rb:44 | a header value prints as Ruby's `inspect` does: a quoted string, a decimal integer, a bracketed list |
| Headers.Put | lib/mongrel2/httpresponse.rb:198-201 | a stored header reads back under any spelling of its name, and other headers are untouched |
| Headers.Delete | lib/mongrel2/httpresponse.rb:168-181 | a deleted header is gone and other headers are untouched |
| Headers.PutGetAnySpelling | lib/mongrel2/httpresponse.rb:168-181 | a header stored under one spelling reads back under any spelling with the same normal form |
| Messages.EveryClassIsARequest | lib/mongrel2/request.rb:77-96 | every registered class descends from Mongrel2::Request |
| Messages.HandshakeIsHttp | lib/mongrel2/websocket.rb:246 | a client handshake is an HTTP request, a WebSocket frame request is not |
| Requests.Lookup | lib/mongrel2/request.rb:94-96 | a bound method gives its class; an unbound one gives the default class and caches it |
| Requests.LookupCachesAnswer | lib/mongrel2/request.rb:94-96 | a cached lookup never changes the answer for any method |
| Requests.RegisterNamed | lib/mongrel2/request.rb:77-90 | registering a method binds it to the class and leaves every other method's class |
| Requests.RegisterDefault | lib/mongrel2/request.rb:77-90 | registering `__default` makes the class the answer for every method not bound to a non-base class |
| Requests.DefaultClearsCachedLookups | lib/mongrel2/request.rb:77-90 | a lookup cached before the default changes still gets the new default |
| Requests.RegisterNames | lib/mongrel2/request.rb:77-90 | registering several methods binds exactly those to the class |
| Requests.RegisterName | lib/mongrel2/request.rb:77-90 | registering one method symbol changes the answer for that method only |
| Requests.HttpRegistry | lib/mongrel2/httprequest.rb:19-22 | the eight HTTP verbs route to HTTPRequest and everything else to Request |
| Requests.StandardRoutes | lib/mongrel2/websocket.rb:250 | with all connector classes registered, verbs, JSON, XML, WEBSOCKET_HANDSHAKE and WEBSOCKET each route to their class and anything else to Request |
| Requests.UploadPredicatesConsistent | lib/mongrel2/request.rb:205-230 | an upload is never both started and done; valid iff headers match; started or done iff the start header is present |
| Requests.UploadedFile | lib/mongrel2/request.rb:180-201 | mismatched headers, an unknown server (named with `%p`) and a missing file each raise their UploadError; otherwise the chroot joined with the given path if that exists, else the given one |
| Requests.HttpUploadedFile | lib/mongrel2/httprequest.rb:109-113 | an HTTP request trusts the done header's path once the headers match |
| Requests.UploadedFileOverride | lib/mongrel2/httprequest.rb:109-113 | for the same upload an HTTP request gets the given path, a base request the chrooted one |
| Requests.ConnInteger | lib/mongrel2/request.rb:116 | `Integer( conn_id )` takes numbers as they are, parses text and refuses nil with TypeError |
| Requests.RequestBody | lib/mongrel2/request.rb:121-128 | a valid upload's body is the spool file's contents, text is wrapped at position 0, an IO argument leaves the body nil, and anything else fails |
| Requests.WsSetup | lib/mongrel2/websocket.rb:346-353 | a WebSocket request reads its body into a frame with the header's flags and rewinds the body; no body is a NoMethodError |
| Requests.FamiliesDisjoint | lib/mongrel2/request.rb:77-96 | no class is both a WebSocket request and a JSON request |
| Requests.NewRequest | lib/mongrel2/request.rb:113-131 | a request keeps its class, sender, path, raw text and normalised headers; the connection id is `Integer()` of the argument; only WebSocket requests get a frame |
| Requests.Unwrap | lib/mongrel2/request.rb:28-40 | sender, connection id and path are the first three space-separated fields |
| Requests.MethodWord | lib/mongrel2/request.rb:43-45 | only a METHOD header that is one word is accepted |
| Requests.Parse | lib/mongrel2/request.rb:27-50 | the request's class is the registry's answer for the method, its fields come from the envelope, and a missing or non-word METHOD raises UnhandledMethodError |
| Requests.UnhandledMessage | lib/mongrel2/request.rb:43-44 | the UnhandledMethodError names a string METHOD as itself and a list-valued one as the list prints |
| Requests.UnhandledListMessage | lib/mongrel2/request.rb:43-44 | a METHOD given as a one-string list is named as `["GET"]` is |
| Requests.ParseReadsEnvelope | lib/mongrel2/request.rb:28 | a parsed request reports the sender, integer connection id and path the message started with |
| Requests.Respond | lib/mongrel2/request.rb:163-165 | `response` is memoised: the first call builds a response of the class's response class with the request's ids, and later calls return it |
| Requests.RespondIsMemoised | lib/mongrel2/request.rb:163-165 | asking again returns the same response and request |
| Requests.ResponseClassInherited | lib/mongrel2/websocket.rb:257-259 | any handshake class answers with a ServerHandshake, any WebSocket request class with a WebSocket response |
| Requests.HandshakeRespond | lib/mongrel2/websocket.rb:275-285 | the handshake response is a 101; a chosen protocol must be one the client offered, else HandshakeError, and is announced in the response |
| Requests.HandshakeAnnouncesChoice | lib/mongrel2/websocket.rb:275-285 | the response's protocol list is exactly the chosen protocol |
| Requests.Pong | lib/mongrel2/websocket.rb:364-366 | a ping's response is a pong whose body gains the ping's next 4096 unread bytes (all of them if fewer), and the ping's payload stream advances past them |
| Requests.Echo | lib/mongrel2/websocket.rb:367-368 | any other frame's response has the request's numeric opcode |
| Requests.FrameRespond | lib/mongrel2/websocket.rb:358-380 | the memoised WebSocket response has the request's ids, a pong for a ping carrying the ping's next 4096 unread bytes (all if fewer) or the same opcode otherwise, and custom flags applied; it fails iff the flags are rejected; with flags, the frame is the symmetric answer's frame after `set_flags`, and the error is the first one `set_flags` raises |
| Requests.WithFlags | lib/mongrel2/websocket.rb:372-375 | custom flags change only the response's frame, which becomes the frame after `set_flags`; their error is `set_flags`' error |
| Requests.FrameRespondCloseFin | spec/mongrel2/websocket_spec.rb:163-176 | `request.response( :close, :fin )` answers with a final close frame |
| Requests.FrameRespondReservedOpcode | spec/mongrel2/websocket_spec.rb:179-192 | `request.response( 0xB )` to a text frame answers with the reserved opcode 0xB |
| Requests.KeepaliveRequest | lib/mongrel2/httprequest.rb:42-60 | only HTTP/1.1 keeps alive; a missing Connection header means yes, otherwise no iff `close` is among its comma-separated tokens |
| Requests.KeepaliveOfTokens | lib/mongrel2/httprequest.rb:42-60 | for a Connection header listing tokens, keep-alive holds iff `close` is not among them |
| Requests.ContentLengthRequest | lib/mongrel2/httprequest.rb:66-69 | a missing header is 0; text is read with `Integer()` |
| Requests.ContentLengthOfDecimal | lib/mongrel2/httprequest.rb:66-69 | a decimal content length reads back as its value |
| Requests.FirstForwarded | lib/mongrel2/httprequest.rb:97-99 | the value handed to `IPAddr.new` is the first X-Forwarded-For value, nil when there is none |
| Requests.RemoteIp | lib/mongrel2/httprequest.rb:97-100 | `IPAddr.new` raises AddressFamilyError when the header is missing or its first value is not a string; otherwise the string is parsed as an address |
| Requests.RemoteIpFirst | lib/mongrel2/httprequest.rb:97-100 | the address parsed is the first value of a repeated header, or the whole single value, commas and all; a missing header is AddressFamilyError |
| Responses.NewResponse | lib/mongrel2/response.rb:35-45 | a response keeps its ids, wraps a string body as an appending stream at 0, has no request, the 512 KiB chunk size and no extended reply |
| Responses.DefaultHeaders | lib/mongrel2/httpresponse.rb:59-61 | a fresh header table holds only the Server header |
| Responses.NewHttpResponse | lib/mongrel2/httpresponse.rb:30-43 | an HTTP response starts unhandled; a hash in the body position is the headers with an empty body; headers not given are the defaults; the last value given for each header name is stored |
| Responses.StatusCode | lib/mongrel2/httpresponse.rb:75-81 | an unset status is 204 for an empty body and 200 otherwise |
| Responses.StatusLine | lib/mongrel2/httpresponse.rb:75-81 | the line is `HTTP/1.1 `, the status as three digits, a space and the reason phrase |
| Responses.DefaultStatusLine | lib/mongrel2/httpresponse.rb:75-81 | the status line of an unset status reads 204 or 200 depending on the body |
| Responses.StatusCategory | lib/mongrel2/httpresponse.rb:99-102 | the category is the hundreds of the status, 0 when unset |
| Responses.StatusPredicates | lib/mongrel2/httpresponse.rb:106-132 | each status predicate is its range of hundreds, and at most one holds |
| Responses.ContentLength | lib/mongrel2/httpresponse.rb:186-194 | 0 for a bodiless status, otherwise the bytes after the position, or the whole body when the position is at the end |
| Responses.NormalizedHeaders | lib/mongrel2/httpresponse.rb:168-181 | Date and Content-Length are filled in when missing; Content-Type is dropped for bodiless statuses and defaulted otherwise; every other header is kept |
| Responses.HttpText | lib/mongrel2/httpresponse.rb:65-71 | `to_s` is the status line, CRLF, the rendered normalised headers, CRLF, then the body unless bodiless: each part is stated at its place and the length is their sum |
| Responses.Reset | lib/mongrel2/httpresponse.rb:148-156 | reset leaves only the default headers, an empty body and no status, and changes nothing else |
| Responses.SetKeepalive | lib/mongrel2/httpresponse.rb:198-201 | `keepalive=` sets Connection to keep-alive or close and touches nothing else |
| Responses.KeepaliveRoundTrip | lib/mongrel2/httpresponse.rb:198-210 | `keepalive?` reads back what `keepalive=` set |
| Responses.Protocols | lib/mongrel2/websocket.rb:315-317 | no protocol header is an empty list; items never contain commas |
| Responses.SetProtocols | lib/mongrel2/websocket.rb:321-324 | the protocols are joined with `, ` into the header and other headers are untouched |
| Responses.ProtocolsRoundTrip | lib/mongrel2/websocket.rb:315-324 | reading the protocols back gives the list that was set |
| Responses.ServerHandshakeFor | lib/mongrel2/websocket.rb:296-310 | the server handshake is a 101 with Upgrade, Connection and the accept key read from the request body, with an empty body |
| Responses.NewWsResponse | lib/mongrel2/websocket.rb:392-395 | a WebSocket response's body is its frame's payload and the frame has the default flags |
| Responses.FromRequest | lib/mongrel2/response.rb:25-31 | a response to a request has the class's response class, the request's ids and the request attached |
| Responses.SetBody | lib/mongrel2/response.rb:79-82 | `body=` replaces the body with the wrapped value |
| Responses.AppendBody | lib/mongrel2/response.rb:87-90 | `<<` appends to the body and keeps a WebSocket response's frame in step |
| Responses.AppendBodyAsWritten | lib/mongrel2/websocket.rb:231-234 | as written, `<<` on a server handshake fails because its frame is nil |
| Responses.PutLineBody | lib/mongrel2/response.rb:94-96 | `puts` appends the line, with a newline unless it already ends in one |
| Responses.ChainedAppends | lib/mongrel2/response.rb:87-90 | chained appends to a new response concatenate onto its body |
| Responses.ExtendReplyWith | lib/mongrel2/response.rb:102-111 | after extending, the response is an extended reply with that filter |
| Responses.SocketId | lib/mongrel2/response.rb:137-139 | the socket id is the sender, a colon and the connection id in decimal |
| Responses.EachChunk | lib/mongrel2/response.rb:126-132 | a base response yields its body; an HTTP response its rendered text, and so does a server handshake (the corrected behaviour of the third finding); a WebSocket response its frame's chunks |
| Responses.EachChunkAsWritten | lib/mongrel2/websocket.rb:225-227 | as written, a server handshake's each_chunk goes to its nil frame and raises NoMethodError |
| Responses.HandshakeChunkIsHttp | lib/mongrel2/websocket.rb:296-310 | the corrected server handshake is sent as one HTTP text whose status line reads 101 |
| Connections.NewConnection | lib/mongrel2/connection.rb:30-39 | a new connection has its addresses, no sockets, is open and has sent nothing |
| Connections.Dup | lib/mongrel2/connection.rb:43-46 | a copy keeps the addresses but none of the sockets or the closed state |
| Connections.SentConcat | lib/mongrel2/connection.rb:118-137 | what a log has published is the concatenation of its parts' publications |
| Connections.CheckClosed | lib/mongrel2/connection.rb:258-260 | fails with ConnectionError "operation on closed Connection" iff closed |
| Connections.RequestSock | lib/mongrel2/connection.rb:81-86 | the request socket is connected on demand and refused iff the connection is closed |
| Connections.ResponseSock | lib/mongrel2/connection.rb:90-95 | the response socket is connected on demand and refused iff the connection is closed |
| Connections.Recv | lib/mongrel2/connection.rb:98-106 | recv fails on a closed connection and otherwise yields the incoming message, publishing nothing |
| Connections.Receive | lib/mongrel2/connection.rb:110-114 | on an open connection, receive succeeds iff recv got a message that `Request.parse` accepts, and passes recv's or parse's error through otherwise |
| Connections.Message | lib/mongrel2/connection.rb:118-125 | a message is the header `<sender> <len>:<ids>, ` followed by the data |
| Connections.ExtendedMessage | lib/mongrel2/connection.rb:130-137 | an extended message prefixes the ids with `X ` and carries the dumped list of the type and the data |
| Connections.Send | lib/mongrel2/connection.rb:118-125 | send fails iff closed and otherwise publishes exactly that message |
| Connections.SendExtended | lib/mongrel2/connection.rb:130-137 | send_extended fails iff closed and otherwise publishes exactly the extended message |
| Connections.ReadReplyOfMessage | lib/mongrel2/connection.rb:118-125 | a published message reads back as its sender, ids and data |
| Connections.ReadExtendedReply | lib/mongrel2/connection.rb:130-137 | an extended message reads back as the sender, `X ` with the ids, and the dumped data |
| Connections.IdList | lib/mongrel2/connection.rb:157-160 | split at its spaces, the id list gives back the decimal text of every id, in order |
| Connections.IdListReadsBack | lib/mongrel2/connection.rb:157-160 | `Integer()` of each field of the id list is the id at that place |
| Connections.FlattenIdsConcat | lib/mongrel2/connection.rb:157-160 | `flatten` distributes over concatenation, so the ids keep their order |
| Connections.FlattenIdsOfOnes | lib/mongrel2/connection.rb:157-160 | ids that are not nested, or nested once, flatten to themselves |
| Connections.Broadcast | lib/mongrel2/connection.rb:157-160 | broadcast sends one message to the flattened id list joined by spaces |
| Connections.BroadcastExtended | lib/mongrel2/connection.rb:167-170 | broadcast_extended sends one extended message to the flattened id list |
| Connections.BroadcastExample | lib/mongrel2/connection.rb:157-160 | ids `[8, [16, [44, 45]], 1833]` go out as `8 16 44 45 1833` with length 15 |
| Connections.SendClose | lib/mongrel2/connection.rb:175-178 | a close message is the header with empty data |
| Connections.ReplyClose | lib/mongrel2/connection.rb:182-184 | reply_close is send_close with the ids of the request or response |
| Connections.BroadcastClose | lib/mongrel2/connection.rb:189-191 | broadcast_close sends one empty message to all the flattened ids |
| Connections.SendAll | lib/mongrel2/connection.rb:141-145 | one message per chunk, in order; it succeeds on an open connection and, with anything to send, fails on a closed one |
| Connections.Reply | lib/mongrel2/connection.rb:141-151 | reply publishes one message per chunk of the response, then the extended reply if there is one; on an open connection it succeeds whenever `each_chunk` does, an `each_chunk` error propagates, and on a closed connection with anything to send it fails |
| Connections.ReplyOfBaseResponse | lib/mongrel2/connection.rb:141-151 | a base response goes out as one message with its body |
| Connections.Close | lib/mongrel2/connection.rb:195-206 | close marks the connection closed, closes only the sockets that were open, sends nothing, and does nothing when already closed |
| Connections.CloseIdempotent | lib/mongrel2/connection.rb:195-206 | closing twice is closing once |
| Connections.ClosedRefuses | lib/mongrel2/connection.rb:98-137 | after close, recv, send, send_extended and both socket accessors fail |
| Connections.ToString | lib/mongrel2/connection.rb:216-222 | the text starts with `{app_id} sub_addr`, ends with ` <-> pub_addr` and is exactly that long |
| Connections.ToStringOfParts | lib/mongrel2/connection.rb:216-222 | the prefix, suffix and length stated for `to_s` fix the text |
| Handlers.FamilyOfAncestry | lib/mongrel2/handler.rb:181-203 | a class is an HTTP, JSON or XML request exactly when its family is that class |
| Handlers.Dispatch | lib/mongrel2/handler.rb:181-203 | disconnect notices go to handle_disconnect with no reply; otherwise HTTP, JSON and XML requests go to their callback and anything else gets no reply |
| Handlers.DispatchOfConnectorClasses | lib/mongrel2/handler.rb:181-203 | a handshake is handled as HTTP; a frame or a base request gets no reply |
| Handlers.DefaultHandle | lib/mongrel2/handler.rb:228-234 | the default handler answers with the request's response, only its status changed to 204 |
| Handlers.Ignore | lib/mongrel2/handler.rb:239-258 | the JSON, XML and disconnect defaults answer nothing and keep the request |
| Handlers.DefaultDispatch | lib/mongrel2/handler.rb:181-258 | with the defaults only HTTP requests are answered, with a 204 to the request's ids |
| Handlers.NewHandler | lib/mongrel2/handler.rb:113-115 | a handler starts with a new connection on its addresses |
| Handlers.Shutdown | lib/mongrel2/handler.rb:140-143 | shutdown closes the connection without sending |
| Handlers.Restart | lib/mongrel2/handler.rb:148-154 | restart replaces the connection with an unopened copy and closes the old one |
| Handlers.OnSignal | lib/mongrel2/handler.rb:289-308 | hang-up restarts, term and int shut down, usr1 changes nothing |
| Handlers.Deliver | lib/mongrel2/handler.rb:165-167 | a returned response is sent with `reply` |
| Handlers.Serve | lib/mongrel2/handler.rb:161-168 | a dispatched request is replied to iff the callback answered and the connection is still open after signals during handling |
| Handlers.Step | lib/mongrel2/handler.rb:158-177 | a signal runs its handler; a ZeroMQ error is skipped; any other error ends the loop; a received request is served |
| Handlers.Run | lib/mongrel2/handler.rb:158-177 | the loop stops at once when the connection is closed and otherwise continues only past successful steps |
| Handlers.UnansweredSendsNothing | lib/mongrel2/handler.rb:165-167 | a request the callback does not answer publishes nothing |
| Handlers.AnsweredIsReplied | lib/mongrel2/handler.rb:165-167 | an answered request whose response can be chunked is replied on the open connection |
| Handlers.ShutdownDuringHandlingSendsNothing | lib/mongrel2/handler.rb:165-167 | a response whose handling was interrupted by shutdown is not sent, and the loop ends there |
| Handlers.RunEndsWhenClosed | lib/mongrel2/handler.rb:159 | a step that closes the connection is the loop's last |
| Handlers.TransportErrorRetries | lib/mongrel2/handler.rb:172-176 | a ZeroMQ error is retried, unless a shutdown arrived meanwhile |
| Handlers.OtherErrorsEndTheLoop | lib/mongrel2/handler.rb:158-177 | any other error propagates out of the loop |
| Handlers.HangupKeepsRunning | lib/mongrel2/handler.rb:289-292 | after a hang-up the loop runs on with the restarted handler |
| Text.Inspect | lib/mongrel2/config/directory.rb:45-46 | `%p` of a string is quoted, and reading the inside back (a backslash takes the next character) gives the string |
| Text.UnescapeEscaped | lib/mongrel2/config/directory.rb:45-46 | the escaping of `"` and `\` loses nothing: unescaping recovers every string |
| Directories.ValidateBase | lib/mongrel2/config/directory.rb:42-62 | a missing base is one error; a leading `/` and a missing trailing `/` are each an error, independently |
| Directories.BaseMessagesDiffer | lib/mongrel2/config/directory.rb:44-56 | the two base complaints are different messages |
| Directories.BothBaseErrors | lib/mongrel2/config/directory.rb:42-62 | `/var/www` earns both base errors, leading-slash first |
| Directories.ValidatePresence | lib/mongrel2/config/directory.rb:66-74 | a blank value earns `must not be nil`, and only then |
| Directories.TtlValue | lib/mongrel2/config/directory.rb:80 | `Integer( cache_ttl )` of a number is the number and of text is its parse |
| Directories.ValidateCacheTtl | lib/mongrel2/config/directory.rb:78-84 | no TTL is fine, a non-integer raises, a negative one is an error and zero or more is fine |
| Directories.Validate | lib/mongrel2/config/directory.rb:18-23 | the errors of all four checks accumulate in order |
| Directories.ValidIffWellConfigured | lib/mongrel2/config/directory.rb:18-84 | a directory validates cleanly iff its base is relative and ends in `/`, index and type are present, and the TTL is unset or non-negative |
| Directories.ErrorsOfEachField | lib/mongrel2/config/directory.rb:18-74 | each field's error appears exactly when that field is at fault |
| Directories.FormatTtl | lib/mongrel2/config/directory.rb:27-34 | `%d` of nil is a TypeError, of a number its decimal |
| Directories.ToString | lib/mongrel2/config/directory.rb:27-34 | `Directory base(index) {ctype} [cache Ns]`: the head, the default content type between the braces and the TTL tail, failing only when the TTL cannot be formatted |
| Directories.ToStringTtlRoundTrip | lib/mongrel2/config/directory.rb:27-34 | the description's TTL field reads back as the TTL |

## Left out

- ZeroMQ sockets: a socket is a flag on the connection. A publish is an event in its log, and a receive takes the incoming message (or the ZeroMQ error) as a parameter.
- `Connection#make_identifier` (SHA1 of app id, host name, pid and time) is a parameter; `inspect` methods are not modelled.
- `Handler.run` and `connection_info_for` look the handler up in the configuration database; that database, and the configuration ORM in general, is not part of this model.
- Signal trapping and `restore_signal_handlers`: signals arrive as events of the loop; the loop runs over a finite sequence of events rather than forever.
- Logging everywhere, since it has no effect on results.
- `lib/mongrel2/table.rb` is not part of this model; Headers keeps the normalisation (lower case, `-` as `_`) that the request and response code relies on.
- The tnetstring library is not part of this model. TNetstring is a reference codec for strings and lists; a request's dictionary decode, the JSON decode of legacy headers and of disconnect bodies are parameters (`Codecs`).
- HTTP reason phrases, the bodiless status set, the server version string and the rendering of the header block are parameters (`HttpConstants`); `Time.now` is the `now` parameter.
- The file system (chroot lookup in the config database, file existence and contents for uploads) is the `World` parameter.
- String encodings: bytes are `bv8`, characters stand for bytes, and Ruby's encoding tags and conversions are not modelled.
- Text.Inspect: escapes only `"` and `\`, not control characters.
- Directories.ValidatePresence: the record layer's presence check is modelled as "missing or only whitespace".
- Handlers.Deliver: a response that is not coherent (a WebSocket response without a frame) is reported as a NoMethodError instead of being traced through `each_chunk`. A server handshake is delivered through the corrected `each_chunk` (third finding), where the code as written raises NoMethodError.
- WsFrame.Named: builds the frame with the intended appending payload (first finding). The program's read-write frame is the same frame with another stream mode, as its contract states.
- WsFrame.Fragments: every fragment is built with the intended appending payload (first finding). A zero size on unread data loops forever in the program; the model returns a `Diverges` error for it.
- Requests.WsSetup: the request frame's payload stream appends (first finding), where `Frame.new` opens it read-write. Both modes read the same bytes from position 0.
- Responses.NewWsResponse: the body is the frame's appending payload (first finding), where `Frame.new` opens it read-write. For the default empty body, writes land in the same place in both modes.
- Responses.EachChunk: a server handshake yields its HTTP text (third finding), where the code as written raises NoMethodError (Responses.EachChunkAsWritten).
- Connections.Reply: replies through the corrected Responses.EachChunk, so replying with a server handshake sends it; as written the reply raises NoMethodError.
- Requests.RequestBody: the upload spool file is opened read-write rather than read-only (`open( 'r' )`). Nothing in the connector writes to a request body.
- Requests.HandshakeRespond: when the chosen protocol is refused, the error comes back alone. Ruby has already stored the server handshake in `@response` by then (websocket.rb:275-281), so a later `response` call on the same request returns it. The handler loop drops the request after the error, so only a handler that rescues the error and asks again sees the difference.
- Requests.FrameRespond: when `set_flags` rejects a flag, the error comes back alone. Ruby has already stored the response in `@response`, with the flags before the bad one applied (websocket.rb:359-375), so a later `response` call returns that frame. As for the handshake, only a handler that rescues the error sees it.
- Requests.RemoteIp: IPAddr's parsing of an address string (IPv4, IPv6, prefixes, InvalidAddressError) is the `parseIp` parameter.
- WsFrame.SetNumericOpcode: the flags are one byte. The program keeps them as an unbounded Integer, so `opcode = 0x181` leaves bit 0x100 set and a negative integer makes the flags negative; every reader of the flags (the bit predicates, `opcode`, the header byte packed by `to_s`) sees only the low byte, which is what the model keeps.
- WsFrame.ApplyFlagInteger: the same one-byte flags: `set_flags( 0x100 )` leaves `flags == 0x181` in the program, and only the public `flags` reader could see the bits the model drops.
- Requests.UploadedFile: `Pathname( chroot ) + path` also removes `.` segments and resolves a leading `..` against the chroot (`/srv/app` with `../tmp/up` is `/srv/tmp/up`); the model joins the two texts as they are, which changes the path looked up and returned for such paths.
- Handlers.Run: states the stopping rule and the one-step shape of the loop, not a closed form of many steps.
- `HTTPRequest#content_type`, `content_encoding` and their setters, and `HTTPResponse#content_type`, are single header reads and writes covered by Headers.Put and Headers.Get.
- JSONRequest and XMLRequest body decoding (jsonrequest.rb, xmlrequest.rb) is not modelled; the two classes appear only in the request class hierarchy.
- lib/mongrel2/testing.rb (request factories for tests) is not modelled.

## Findings

| source | as written | input that shows it | evidently intended | confidence | as-written member | corrected member |
|---|---|---|---|---|---|---|
| lib/mongrel2/websocket.rb:486 | the payload is `StringIO.new( payload )`, opened read-write at position 0, so `<<` overwrites it from the start | `Frame.text( "Hello" ) << "!"` holds `!ello` | appending extends the payload (`Hello!`), as `Response#<<` does | not executed | WsFrame.AppendAfterConstructionExample | WsFrame.AppendAfterConstructionExtends |
| lib/mongrel2/websocket.rb:626-632 | `set_status` truncates to 0 but keeps the stream position, so the status line is written after a run of NUL bytes | a close frame built read-write that received `abc`, then `set_status( 1000 )` | the payload is just the status line and a newline | not executed | WsFrame.SetStatusAfterWriteExample | WsFrame.SetStatusReplacesPayload |
| lib/mongrel2/websocket.rb:225-227 | ServerHandshake includes FrameMethods, whose `each_chunk` and `<<` go to a frame that a handshake never has | replying to any WEBSOCKET_HANDSHAKE request with its `response` | the handshake is sent as an HTTP response, as HTTPResponse#to_s renders it | not executed | Responses.EachChunkAsWritten | Responses.HandshakeChunkIsHttp |
