# A verified model of Haze

Haze is a DAW core that its clients drive over MessagePack-RPC. This Dafny project models the
parts of it where correctness is hard to see and proves what they promise:

- **Codecs** (`Wire`, `Mpack`, `Objects`, `Notification`, `Response`, `CppObject`,
  `CppResponse`, `Encoders`, `Request`, `Grammar`, `StrictGrammar`, `RequestForms`, `Envelopes`): trees of unbounded depth to MessagePack bytes and
  back. Each recursive C or C++ function over a moving cursor is a method, proved equal to a
  function on the bytes left and the sticky error flag; round trips, rejection of prefixes,
  canonical forms and the agreement of encoders and languages are lemmas about those functions,
  and each reader is shown to accept exactly a grammar that is written without it.
- **The server** (`Dispatcher`, `Answers`, `Server`, `Connections`): `haze_on_read` with its growing
  buffer and drain loop as a class, refined to handling messages one by one over whole streams;
  the connection table and the life of connections and write requests over every run of
  callbacks.
- **The Go client** (`Client`, `EndToEnd`): many calls and one reader as interleaved atomic
  steps, then joined with codecs and dispatcher so that every call gets its own answer.
- **Object containers** (`Trees`, `ObjectHeap`, `Copies`, `Tables`, `MapTable`, `CppTable`):
  deep copy on a heap of owned nodes with allocation failure, and the C and C++ association
  tables against an insertion-ordered finite map.
- **Tempo and samples** (`Tempo`, `SampleList`): wrap-around tick arithmetic and per-segment
  truncation against the exact piecewise-linear map; sample names over every run of imports
  and deletes.

Imperative code is written as classes and methods whose postconditions name specification
functions; the properties are then proved of those functions. `DispatchRPCMessage` and
`ServerDispatch` have no loop and change nothing in place but the context, so they are
functions from context to context.

## Reading the model

- Bytes are integers below 256; `UInt32`, `UInt64` and `Int64` are ranges, and every cast or
  wrap-around of the source is written out (`Cut`, `Low32`, `Wrap`, `% UINT32_LIMIT`).
- `Objects.Object` is a tree in which every pointer the C code may find null is a constructor.
  `Trees.Tree` is the same tree as the heap routines see it; `Copies.CopyViewsAgree` joins them.
- Memory is a parameter: `Memory` says for each allocation whether it succeeds, so "fails
  exactly when an allocation fails" can be stated.
- libuv callbacks, the clock, the audio device and the transport are events and oracles; every
  theorem is for all of them.

## Where the code does not do what one might expect

The model follows the code; each of these is proved, with the exact condition where there is one.

- A request cut after its header is taken for a whole request: the parameters that are whole,
  then the cut one (a cut string is empty, a cut binary all zeros, anything else nil), then nil
  up to the count (`Requests.RequestTruncation`, `Server.SplitRequest`).
- A request comes back as sent exactly when no parameter is an array
  (`Requests.RequestFramingIff`).
- An array of 2^32 or more elements is written with its count cut to 32 bits and all its
  elements; exactly then a response does not come back whole and a prefix of it is accepted
  (`Responses.ResponseRoundTrip`, `Responses.ResponsePrefixesRejectedIff`).
- Canonicalisation of responses is idempotent exactly on trees without a buffer of length zero
  that has a data pointer, and the bytes are the same again exactly when also no string has a
  NUL and every count fits (`Responses.CanonIdempotent`, `Responses.ResponseReencode`).
- The handle is closed twice exactly when more than 4 MB of a read cannot be understood
  (`Connections.DoubleCloseIff`). The buffer of an open connection is empty before each read, so
  this takes a single read of more than 4 MB, and `haze_on_alloc` hands out only the size that
  libuv suggests.
- After the reader has exited, a call waits forever exactly when it registered later, and such
  calls are reachable (`Client.WaitsForeverIffLate`, `Client.LateCallHangs`,
  `Client.LateCallReachable`).
- Two samples can hold the same name exactly when it is a file name followed by " #" and a
  number k, and that file name can itself be held k times (`Samples.RepeatsIff`, `Samples.DeletedIsGoneIff`).
- A key is found again exactly when its kind can be compared: not nil, arrays or NaN in the C
  table, only NaN not in the C++ one (`Tables.AssignThenLookup`, `Tables.NilKeyTwice`).
- `session/create` puts its refusal "Session already started!" in the result field and no
  request to it changes anything (`Answers.CreateAnswers`).

## Model

| member | source | states |
|---|---|---|
| `Wire.TagRoundTrip` | third_party/mpack/mpack-writer.c:921-982 | Every tag written in shortest form is read back from exactly its own bytes, whatever follows, as its wire form (a non-negative signed integer becomes unsigned) |
| `Wire.BigEndianRoundTrip` | third_party/mpack/mpack-writer.c:921-982 | The fixed-width field of a tag gives back the number it was made from, for every width |
| `Wire.BigEndianDigit` | third_party/mpack/mpack-writer.c:921-982 | The byte at each place of a field is the digit of that weight, most significant first |
| `Wire.ParseTagExtends` | third_party/mpack/mpack-reader.c:588-935 | A complete tag reads the same when more bytes follow, so a cut never changes what was already there |
| `Wire.ParseTagIff` | third_party/mpack/mpack-reader.c:588-935 | Reading a tag is exactly recognising, at the front, one of the formats of the value in any width it fits: wide small numbers, non-negative signed ones, sized strings, binaries, arrays and maps |
| `Wire.ParseTagLocal` | third_party/mpack/mpack-reader.c:588-935 | A tag is read from its own bytes alone |
| `Wire.WriteTagShortest` | third_party/mpack/mpack-writer.c:921-982 | The writer is the shortest form: no tag can be read from fewer bytes than it is written in |
| `Wire.WriteTagSpells` | third_party/mpack/mpack-writer.c:921-982 | What the writer writes is one of the formats of what is read back |
| `Wire.ReadTag` | third_party/mpack/mpack-reader.c:940-996 | After an error every tag is nil; a failure leaves nothing to read; success always moves the cursor |
| `Wire.ReadTagSpelled` | third_party/mpack/mpack-reader.c:940-996 | Whatever width a value is written in, the reader takes that value and exactly those bytes |
| `Wire.PeekTag` | third_party/mpack/mpack-reader.c:940-996 | A peek shows the tag a read would give, keeps the cursor, and flags the failure a read would flag |
| `Wire.ReadBytes` | third_party/mpack/mpack-reader.c:294-324 | Exactly the bytes asked for, or zeros with the error flag set and nothing left |
| `Wire.ExpectArray` | third_party/mpack/mpack-expect.c:411-417 | Fails exactly when the reader has failed, the next tag is no array or its count is beyond the limit |
| `Wire.ExpectUInt` | third_party/mpack/mpack-expect.c:102-125 | Succeeds exactly when the next tag is an integer in range, signed or unsigned, and gives that integer |
| `Wire.ExpectCStr` | third_party/mpack/mpack-expect.c:633-672 | Succeeds exactly on a string shorter than the limit, all there and NUL-free, and gives its bytes |
| `Wire.CString` | source/api/proto/Response.c:113-127 | The bytes before the first NUL, which is the whole string exactly when it has none |
| `Mpack.MpackReader.ReadTag` | third_party/mpack/mpack-reader.c:940-996 | The cursor over the buffer moves as the reader state of module Wire says |
| `Mpack.MpackReader.PeekTag` | third_party/mpack/mpack-reader.c:940-996 | Same, for peeking |
| `Mpack.MpackReader.ReadBytes` | third_party/mpack/mpack-reader.c:294-324 | Same, for payload bytes |
| `Mpack.MpackReader.Flag` | third_party/mpack/mpack-reader.c:199-222 | Flagging an error moves the end to the cursor: nothing is left and the flag stays |
| `Mpack.MpackReader.Remaining` | third_party/mpack/mpack-reader.c:199-222 | The number of unread bytes, none after an error |
| `Notifications.NotificationWriteObject` | source/api/proto/Notification.c:20-110 | Succeeds exactly on the trees that Strict encodes and then appends exactly those bytes, recursing through arrays |
| `Notifications.StrictIff` | source/api/proto/Notification.c:20-110 | Writing succeeds exactly when no node at any depth is undefined, a map, a null payload or too long for 32 bits |
| `Notifications.NotificationMarshal` | source/api/proto/Notification.c:369-453 | The whole writer with its error flag returns Marshal, the bytes the round trip is about |
| `Envelopes.NotificationBytes` | source/api/proto/Notification.c:369-453 | A notification is 93 02, its method, its parameters, in that order |
| `Notifications.NotificationReadObject` | source/api/proto/Notification.c:113-307 | The recursive reader over a moving cursor computes ReadObject on every input, malformed ones included |
| `Notifications.ReadObject` | source/api/proto/Notification.c:113-307 | A null result always comes with the error flag; success always consumes; after an error the result is nil |
| `Notifications.NotificationUnmarshal` | source/api/proto/Notification.c:456-562 | The envelope checks, the unguarded parameter loop and the final error check accept exactly what Decode accepts |
| `Notifications.Decode` | source/api/proto/Notification.c:456-562 | A notification is returned exactly when the reader ends without an error |
| `Notifications.ReadStrict` | source/api/proto/Notification.c:248-276 | Reading what the writer wrote: the normal form and exactly its bytes when every string is NUL-free and every array has at most 4096 items, otherwise an error |
| `Notifications.NotificationRoundTrip` | source/api/proto/Notification.c:369-562 | Marshal succeeds exactly on representable notifications; its bytes are accepted, whatever follows, exactly when Deliverable; then the normal form comes back and exactly the encoding is consumed |
| `Notifications.ReadObjectExtends` | source/api/proto/Notification.c:113-307 | A read that ends without an error builds the same tree and stops at the same place when more bytes follow |
| `Notifications.DecodeExtends` | source/api/proto/Notification.c:456-562 | An accepted notification is accepted the same way when more bytes follow |
| `Notifications.NotificationPrefixRejected` | source/api/proto/Notification.c:532-559 | No strict prefix of an encoded notification is ever accepted |
| `StrictGrammar.DecodeIff` | source/api/proto/Notification.c:456-562 | Decoding a notification is exactly recognising [2, method, params] in a grammar written without the reader: method NUL-free and under 4096 bytes, at most 4096 items at every depth, NUL-free strings, no maps |
| `StrictGrammar.SpelledReads` | source/api/proto/Notification.c:113-307 | Every encoding of a value, in any width, is read as that value from exactly its own bytes |
| `Envelopes.NotificationInGrammar` | source/api/proto/Notification.c:369-453 | What the strict writer writes is in the grammar of notifications when it can be delivered |
| `Responses.ObjectMarshalMPack` | source/api/proto/Response.c:20-88 | The recursive lenient writer never fails and appends exactly Lenient |
| `Responses.ObjectUnmarshalMPack` | source/api/proto/Response.c:91-170 | The recursive reader over a moving cursor computes ReadObject on every input, leaving out children that could not be read or copied |
| `Responses.ResponseMarshal` | source/api/proto/Response.c:214-251 | The envelope and both fields, type cut to one byte: the bytes the round trip is about |
| `Envelopes.ResponseBytes` | source/api/proto/Response.c:214-251 | A response is 94 01, its id, its error, its result, in that order |
| `Responses.ResponseUnmarshal` | source/api/proto/Response.c:253-321 | Accepts exactly what Decode accepts, with top-level nil dropped |
| `Responses.Decode` | source/api/proto/Response.c:253-321 | A response is returned exactly when the reader ends without an error |
| `Responses.ReadersAgree` | clients/cpp/src/proto/Response.cpp:81-136 | On every input the C and the C++ reader stop at the same byte with the same error flag; without an error they built the same tree, cut at NUL in C |
| `Responses.ReadSpill` | source/api/proto/Response.c:20-170 | One read from any sequence of encodings never fails and leaves a sequence of encodings: all but the first when its counts fit 32 bits, otherwise the elements beyond a count spill and at least one more is left |
| `Responses.ReadLenientIff` | source/api/proto/Response.c:20-170 | Over all trees: the received value comes back from exactly its own bytes exactly when every array count fits 32 bits |
| `Responses.OverlongArrayReads` | source/api/proto/Response.c:20-170 | Of any array as many elements come back as the low 32 bits of its length say |
| `Responses.CanonIsReceived` | source/api/proto/Response.c:91-170 | What the C++ client receives is the recursive canonicalisation, seen from C |
| `Responses.ResponseRoundTrip` | source/api/proto/Response.c:214-321 | Over all responses and whatever follows: accepted exactly when the type byte is 1; then the canonical response comes back and exactly the encoding is consumed, exactly when every array count fits 32 bits |
| `Responses.DecodeExtends` | source/api/proto/Response.c:253-321 | An accepted response is accepted the same way when more bytes follow |
| `Responses.DecodeLocal` | source/api/proto/Response.c:253-321 | A response is read from its own bytes alone: dropping bytes behind it changes nothing |
| `Responses.ResponsePrefixesRejectedIff` | source/api/proto/Response.c:286-309 | Every strict prefix of an encoded response is rejected exactly when the type byte is wrong or every array count fits 32 bits |
| `Responses.CanonIdempotent` | source/api/proto/Response.c:91-170 | Canonicalisation is idempotent exactly on trees without a buffer that has a data pointer and length zero |
| `Responses.CanonShrinks` | source/api/proto/Response.c:20-170 | Re-encoding the canonical form never takes more bytes, and as many only on steady trees |
| `Responses.ReencodeSame` | source/api/proto/Response.c:20-170 | Re-encoding gives the same bytes exactly when every string is NUL-free and every buffer with data is non-empty |
| `Responses.RemarshalNoLonger` | source/api/proto/Response.c:214-321 | Encoding any accepted response again never takes more bytes than decoding it consumed |
| `Responses.ResponseReencode` | source/api/proto/Response.c:214-321 | Decode then encode gives back the very bytes exactly when both fields are steady and every array count fits 32 bits |
| `CppObjects.ObjectUnmarshalMPack` | clients/cpp/src/proto/Response.cpp:81-136 | The recursive C++ reader computes ReadValue on every input |
| `CppObjects.ObjectMarshalMPack` | clients/cpp/src/proto/Response.cpp:14-77 | The recursive C++ writer appends exactly WriteValue |
| `CppObjects.ReadValueExtends` | clients/cpp/src/proto/Response.cpp:81-136 | A C++ read that ends without an error goes the same way when more bytes follow |
| `CppObjects.ReadValueLocal` | clients/cpp/src/proto/Response.cpp:81-136 | A value is read from its own bytes alone |
| `Grammar.ReadValueIff` | clients/cpp/src/proto/Response.cpp:81-136 | Reading a value is exactly recognising one of its encodings at the front, in a grammar written without the reader: any tag width, arrays of encodings, a map tag alone for nil |
| `CppResponses.ResponseMarshal` | clients/cpp/src/proto/Response.cpp:149-182 | The bytes that CppToServer decodes |
| `CppResponses.ResponseUnmarshal` | clients/cpp/src/proto/Response.cpp:184-237 | Accepts exactly what Decode accepts |
| `CppResponses.LanguagesAgree` | clients/cpp/src/proto/Response.cpp:184-237 | On every byte string both clients accept the same responses, stop at the same byte and hold the same content |
| `Grammar.DecodeIff` | clients/cpp/src/proto/Response.cpp:184-237 | Decoding a response is exactly recognising [1, msgid, error, result] in that grammar, integers of either kind in any width |
| `Grammar.CDecodeIff` | source/api/proto/Response.c:253-321 | The C client accepts exactly the byte strings of the same grammar and stops at the same place |
| `Envelopes.ResponseInGrammar` | source/api/proto/Response.c:214-251 | What the server writes is in the grammar of responses |
| `CppResponses.ServerToCppClient` | clients/cpp/src/proto/Response.cpp:184-237 | The C++ client accepts every response the C server encodes; it holds the received canonical value and has consumed exactly the encoding exactly when every array count fits 32 bits |
| `CppResponses.CppPrefixesRejectedIff` | clients/cpp/src/proto/Response.cpp:184-237 | The C++ client rejects every strict prefix of a server response under exactly the same condition as the C one |
| `CppResponses.WritersAgree` | clients/cpp/src/proto/Response.cpp:14-77 | The C++ writer and the C lenient writer emit the same bytes for the same tree |
| `CppResponses.CppToServer` | clients/cpp/src/proto/Response.cpp:149-182 | A response encoded in C++ decodes in C to the canonical form of its fields exactly when every array count fits 32 bits |
| `Encoders.EncodersAgree` | source/api/proto/Request.c:17-85 | On every tree the strict writer accepts, the lenient writers emit the same bytes exactly when no buffer lacks data |
| `Requests.RequestMarshal` | source/api/proto/Request.c:156-212 | The bytes that RequestFraming reads back |
| `Envelopes.RequestBytes` | source/api/proto/Request.c:156-212 | A request is 94 00, its id, its method, its parameters, in that order |
| `Requests.ParamAppend` | source/api/proto/Request.c:129-154 | Appends at the end, refuses to overwrite, pads every place of a gap with nil and keeps what was there |
| `Requests.RequestUnmarshal` | source/api/proto/Request.c:214-376 | The tag-by-tag reader computes Decode on every input: request and new buffer length |
| `Requests.Decode` | source/api/proto/Request.c:214-376 | The new length never exceeds the buffer and is positive for every accepted request, so the stream loop always advances |
| `Requests.RequestAccepted` | source/api/proto/Request.c:156-376 | An encoded request is accepted, whatever follows, exactly when its type is 0 and its method is set |
| `Requests.RequestFraming` | source/api/proto/Request.c:129-362 | Decoding an encoding followed by arbitrary bytes returns the request in normal form and exactly the length of the encoding |
| `Requests.RequestFramingIff` | source/api/proto/Request.c:285-352 | Over all parameters: the request comes back as sent exactly when no parameter is an array |
| `Requests.RequestTruncation` | source/api/proto/Request.c:285-362 | A strict prefix is rejected exactly when it stops inside the header; otherwise all of it is consumed and accepted as a request with the whole parameters, then the cut one with its payload zeroed, then nil up to the count |
| `RequestForms.SpelledRequestReads` | source/api/proto/Request.c:214-376 | However a request is written (tags in any width, ids of either sign and up to 64 bits by their low 32, strings with bytes behind a NUL), decoding it followed by anything gives that request and exactly its length; the tag of an array or map among the items is passed over, leaving nil before a later parameter and nothing after the last |
| `RequestForms.WideIdReads` | source/api/proto/Request.c:240-275 | An id in a four-byte field, however small, is decoded as itself |
| `Dispatcher.OneSided` | source/api/Dispatcher.c:18-158 | Every response answers this very message id and never carries both a non-nil error and a non-nil result |
| `Envelopes.PongBytes` | source/api/Dispatcher.c:38-48 | The answer to a ping, byte for byte |
| `Dispatcher.NamesDistinct` | source/api/Dispatcher.c:18-158 | No two methods share a name, so the order of the chain does not matter |
| `Answers.Vocabulary` | source/api/Dispatcher.c:18-158 | The names of the methods and the texts of the answers, letter by letter |
| `Answers.PingAnswers` | source/api/Dispatcher.c:38-48 | pong! exactly without parameters, otherwise the complaint as an error; nothing changes |
| `Answers.CreateAnswers` | source/api/Dispatcher.c:49-67 | For one string parameter the refusal is in the result, not in the error; any others are an error; nothing ever changes |
| `Answers.GetNameAnswers` | source/api/Dispatcher.c:68-78 | The session name exactly without parameters, otherwise an error; nothing changes |
| `Answers.GetWorkingTimeAnswers` | source/api/Dispatcher.c:79-89 | What the clock says exactly without parameters, otherwise an error; nothing changes |
| `Answers.ImportAnswers` | source/api/Dispatcher.c:93-113 | For one string no answer and exactly one job with this id and path; otherwise an error and nothing changes |
| `Answers.RemoveAnswers` | source/api/Dispatcher.c:115-134 | A held name loses exactly one sample, all other counts stay, and the answer is nil; an empty or absent name is an error and nothing changes |
| `Answers.SamplesChangeIff` | source/api/Dispatcher.c:115-134 | Over all requests the sample list changes exactly on a remove with one string parameter, non-empty and held |
| `Answers.PlayAnswers` | source/api/Dispatcher.c:136-152 | Only a held name reaches the audio device, whose verdict is the answer; an empty or absent name is an error |
| `Answers.UnknownMethodAnswers` | source/api/Dispatcher.c:154-158 | A method that is none of the seven is an error and changes nothing |
| `Answers.NoMethodAnswers` | source/api/Dispatcher.c:33-36 | A request without a method is an error and changes nothing |
| `Dispatcher.SilentIffQueued` | source/api/Dispatcher.c:18-158 | There is no answer exactly for a well-formed import, which queues exactly one job; nothing else queues any |
| `Dispatcher.ServerDispatch` | source/server/Dispatch.c:10-32 | A dispatched buffer always has a positive number of bytes consumed, at most all of them |
| `Server.HazeConn.OnRead` | source/server/HazeServer.c:113-204 | For every event and buffer: bytes are kept exactly when the buffer fits or can grow; then contents, state, replies and close requests are those of the drain; otherwise nothing but a close request changes |
| `Server.HazeConn.Reserve` | source/server/HazeServer.c:132-153 | Growth by doubling keeps the contents, succeeds exactly when no memory is needed or memory is there, and then the new bytes fit |
| `Server.HazeConn.Store` | source/server/HazeServer.c:155-157 | The chunk is appended to the contents |
| `Server.HazeConn.Consume` | source/server/HazeServer.c:190-196 | Exactly the first n bytes go, the rest keeps its order |
| `Server.HazeConn.DrainBuffer` | source/server/HazeServer.c:161-197 | The in-place loop terminates and leaves the contents, state, replies and close request of Drain |
| `Server.DrainConserves` | source/server/HazeServer.c:161-197 | Bytes taken followed by bytes left are the bytes received; it closes exactly when something is left; one dispatch per request |
| `Server.DrainServes` | source/server/HazeServer.c:161-197 | Whatever arrives, the replies and final state are those of serving the decoded requests one by one |
| `Server.SentAreAnswers` | source/server/Dispatch.c:10-32 | The bytes sent for any list of requests are exactly their answers, in order: one for each that has one, and each decodes to it |
| `Server.DrainLeavesUnread` | source/server/HazeServer.c:161-197 | What is left, and whether it closes, depends on the bytes alone and not on context or environment |
| `Server.DrainWhole` | source/server/HazeServer.c:161-197 | A buffer of whole requests is drained without closing, dispatching exactly those requests in order |
| `Server.Receive` | source/server/HazeServer.c:113-204 | A connection object driven through any list of reads is where the stream of FeedAll is; it stops early exactly at a read for which the buffer cannot grow, closing with everything else unchanged |
| `Server.StreamConserves` | source/server/HazeServer.c:132-197 | Over every sequence of chunks cut anywhere: received is consumed followed by buffered, and after each callback the connection is closing or its buffer is empty |
| `Server.StreamRefines` | source/server/HazeServer.c:132-197 | However requests are cut at message boundaries: dispatches, replies and final state are those of handling them one by one, and the buffer ends empty |
| `Server.CutsAgree` | source/server/HazeServer.c:132-197 | Two cuts of the same requests leave the same connection |
| `Server.SplitRequest` | source/server/HazeServer.c:161-197 | A first chunk that stops inside a request closes the connection exactly when it stops in the header; otherwise exactly one request is dispatched, the truncated one, and the chunk is consumed |
| `Connections.HazeServer.Add` | source/server/HazeServer.c:251-264 | Appends exactly when there is room or memory, and returns -1 with the table unchanged otherwise |
| `Connections.HazeServer.Remove` | source/server/HazeServer.c:266-274 | The in-place swap-removal computes SwapRemove |
| `Connections.HazeServer.Broadcast` | source/server/HazeServer.c:276-280 | Sends to every entry of the table in order |
| `Connections.SwapRemoveMultiset` | source/server/HazeServer.c:266-274 | Swap-removal takes out exactly one occurrence and keeps all others |
| `Connections.SwapRemoveNoDuplicates` | source/server/HazeServer.c:266-274 | Without duplicates it stays so, and exactly the removed connection is gone |
| `Connections.BroadcastOnce` | source/server/HazeServer.c:276-280 | Each registered connection is addressed exactly once and nobody else |
| `Connections.AtMostOneClose` | source/server/HazeServer.c:170-204 | A chunk of at most 4 MB asks for one close exactly when it is not all requests, never two |
| `Connections.DoubleCloseIff` | source/server/HazeServer.c:170-204 | For every chunk, context and environment: the handle is closed twice exactly when more than 4 MB of the bytes cannot be read as requests |
| `Connections.DoubleCloseHappens` | source/server/HazeServer.c:170-204 | Any larger chunk that does not begin with a tag does it |
| `Connections.StepKeepsInv` | source/server/HazeServer.c:24-60 | Every callback keeps: one close at most, freed only after closing, every write released exactly when no longer pending, table duplicate-free and unfreed |
| `Connections.LifeCycle` | source/server/HazeServer.c:24-111 | That invariant over every run |
| `Connections.LifeCycleFromStart` | source/server/HazeServer.c:24-280 | Over every run from an empty server: table without duplicates or freed entries, at most one close and one free per connection in that order, each write released once, a broadcast hits each registered connection once |
| `Connections.RegisteredStays` | source/server/HazeServer.c:24-37 | Over every run a registered connection stays in the table until its close callback |
| `Connections.CloseFrees` | source/server/HazeServer.c:24-37 | The close callback frees the connection and takes it, and only it, out of the table |
| `Connections.CallbacksHappen` | source/server/HazeServer.c:24-60 | An open connection can be read, a pending write can complete, and a closing connection without one can be freed |
| `Connections.WriteReleases` | source/server/HazeServer.c:46-60 | A completed write is released; a failed one also closes its connection if that is still open |
| `Connections.ReadsAnswer` | source/server/HazeServer.c:161-187 | The replies to a chunk become exactly one pending write each, to the connection it came from |
| `Connections.ReadsClose` | source/server/HazeServer.c:113-204 | A failed read, and a read that is not all requests, asks for exactly one close; any other leaves the connection as it was |
| `Connections.ConnectedRegisters` | source/server/HazeServer.c:206-247 | A new connection is open, and in the table exactly when it could be registered |
| `Connections.DroppedCloses` | source/server/HazeServer.c:206-247 | A connection that is dropped at once is closing; one that is refused never exists |
| `Connections.BroadcastReaches` | source/server/HazeServer.c:276-280 | When sends start, a broadcast adds exactly one pending write per registered connection, in order, and changes nothing else |
| `Connections.OneSend` | source/server/HazeServer.c:87-111 | One send leaves nothing without memory, a request released at once when refused, and a pending one when started |
| `Client.StepKeepsInv` | hazectl/clients/mpackrpc_client.go:39-135 | Every atomic step keeps: distinct ids, each registered call in exactly one of pending, held by the reader, answered or closed, channels closed at most once |
| `Client.RunKeepsInv` | hazectl/clients/mpackrpc_client.go:39-135 | That invariant over every interleaving |
| `Client.ChannelSafety` | hazectl/clients/mpackrpc_client.go:90-129 | Over every interleaving and every incoming response: the reader only sends to an open empty channel of the call with that id, no channel is closed twice, a call returns only a response with its id |
| `Client.AnswerReturns` | hazectl/clients/mpackrpc_client.go:90-127 | From every state with the invariant: a response for a waiting call can be taken, delivered and received, and then the call has returned exactly that response |
| `Client.TakenIsReturned` | hazectl/clients/mpackrpc_client.go:90-127 | Over every continuation: once the response of a waiting call has been taken, the call still waits or has returned exactly that response; it never fails |
| `Client.WaitingEndsIff` | hazectl/clients/mpackrpc_client.go:90-95 | A waiting call ends only in its own receive: it returns exactly when the channel holds a response, that one, and fails exactly when the channel is closed and empty |
| `Client.CallBegins` | hazectl/clients/mpackrpc_client.go:39-89 | A call that begins while the reader is idle gets the next id, is listed and waits once it has written three copies |
| `Client.GivingUp` | hazectl/clients/mpackrpc_client.go:68-87 | A call that gives up has failed and is unlisted; no other call and no other listing changes |
| `Client.UnknownIdIgnored` | hazectl/clients/mpackrpc_client.go:114-127 | A response of another kind, or with an id nobody waits for (a duplicate too), changes nothing |
| `Client.DuplicateIgnored` | hazectl/clients/mpackrpc_client.go:114-127 | Once a response has been taken for a pending call, no later response with that id changes anything, whatever happened in between |
| `Client.DeliverTouchesOne` | hazectl/clients/mpackrpc_client.go:118-127 | A delivery leaves every other call and the pending map as they were, and no other call has that id |
| `Client.Shutdown` | hazectl/clients/mpackrpc_client.go:99-112 | When the reader exits the pending map is empty and every registered call that has not ended has a response or a closed channel |
| `Client.DisconnectCloses` | hazectl/clients/mpackrpc_client.go:103-112 | When the reader exits, exactly the channels of the listed calls are closed, each once |
| `Client.WaitsForeverIffLate` | hazectl/clients/mpackrpc_client.go:90-112 | After the reader has gone a waiting call can go on exactly when it registered before |
| `Client.LateCallHangs` | hazectl/clients/mpackrpc_client.go:44-93 | A call that registers later waits in every continuation |
| `Client.LateCallReachable` | hazectl/clients/mpackrpc_client.go:44-112 | A run in which the connection drops before a call registers, and the call ends up waiting |
| `EndToEnd.StepKeepsInv` | hazectl/clients/mpackrpc_client.go:39-129 | Every step of client, wire and server keeps: each message on the wire belongs to one call or one dispatch, each response in the client was dispatched |
| `EndToEnd.RunKeepsInv` | hazectl/clients/mpackrpc_client.go:39-129 | That invariant over every run with repetition and reordering |
| `EndToEnd.EveryCallGetsItsOwnAnswer` | hazectl/clients/mpackrpc_client.go:39-129 | However requests are encoded and whatever other connections do to the shared context: what a Call returns is the answer dispatched for its own id, method and parameters, and never carries both error and result |
| `EndToEnd.ServedCallReturns` | hazectl/clients/mpackrpc_client.go:39-129 | From every reachable state: when the request of a waiting call is served, taken, delivered and received, the call returns the answer of the dispatcher to it |
| `EndToEnd.CallCanReturn` | hazectl/clients/mpackrpc_client.go:39-129 | From every reachable state with an idle reader a new call can be made, and it returns the answer of the dispatcher if there is one |
| `EndToEnd.PingReturns` | hazectl/clients/mpackrpc_client.go:39-129 | A run from the start in which the first call, a ping, returns pong! |
| `EndToEnd.ServingAdvances` | source/server/Dispatch.c:10-32 | Serving a request of a call or of another connection moves the server as handling it alone would |
| `EndToEnd.WriterCarries` | source/api/proto/Request.c:156-362 | The writer of Request.c is one encoder whose bytes the theorem covers, for every request with flat parameters |
| `EndToEnd.SpellingCarries` | source/api/proto/Request.c:214-376 | Any spelling of a request, in any tag widths, is covered by the theorem |
| `ObjectHeap.ObjectCopy` | source/msgpack/Object.c:59-140 | On the heap: null exactly when an allocation fails, otherwise a valid tree of fresh nodes only, with the copied value |
| `ObjectHeap.ObjectArrayCopy` | source/msgpack/Object.c:300-316 | Same for arrays, through the mutual recursion with append |
| `ObjectHeap.ObjectArrayAppend` | source/msgpack/Object.c:318-341 | False exactly when an allocation fails, and then the contents are unchanged; otherwise exactly one copied element more |
| `ObjectHeap.ObjectArrayRemove` | source/msgpack/Object.c:349-363 | Exactly the indexed element goes, the others keep values and order; false and unchanged beyond the end |
| `ObjectHeap.ObjectFree` | source/msgpack/Object.c:23-57 | Every node of the tree is freed and nothing outside it is touched; a node is freed while valid and is invalid afterwards, so none is freed twice |
| `ObjectHeap.ObjectArrayFree` | source/msgpack/Object.c:284-298 | Every node of every element is freed, each element once and while it is still whole |
| `ObjectHeap.ChangeOne` | source/msgpack/Object.c:318-363 | Any run of appends and removes on one array leaves any array it shares no node with unchanged |
| `ObjectHeap.ChangeCopy` | source/msgpack/Object.c:300-363 | After a copy, any run of changes to the copy leaves the original value unchanged |
| `ObjectHeap.ChangeOriginal` | source/msgpack/Object.c:300-363 | After a copy, any run of changes to the original leaves the copy unchanged |
| `Trees.CopyEqualIff` | source/msgpack/Object.c:59-140 | A copy equals its original exactly when no map with a table occurs at any depth |
| `Trees.CopiedIsMapFree` | source/msgpack/Object.c:59-140 | A copy is map-free, so copying it again loses nothing |
| `Trees.FloatEqualIff` | source/msgpack/Object.c:425-428 | Floats are equal exactly when neither is a NaN and they stand for the same number |
| `Trees.DoubleEqualIff` | source/msgpack/Object.c:425-428 | The same for doubles |
| `Trees.CEqualsIsEquality` | source/msgpack/Object.c:413-437 | Apart from floats ObjectEquals is equality on exactly the kinds it compares |
| `Trees.CppEqualsIsEquality` | clients/cpp/src/proto/Object.cpp:208-239 | On trees without floats operator== is equality, at every depth |
| `Trees.EqualsSymmetric` | clients/cpp/src/proto/Object.cpp:208-239 | Both equalities are symmetric on all trees |
| `Copies.CopyViewsAgree` | source/msgpack/Object.c:59-140 | The copy the codecs speak of and the copy made on the heap are the same tree |
| `Copies.CopyFailsIff` | source/msgpack/Object.c:59-140 | A copy fails exactly when a null pointer is found somewhere in the tree |
| `Copies.CopyIsTidy` | source/msgpack/Object.c:59-140 | In a copy every string ends before its first NUL and a buffer has a data pointer exactly when it is not empty |
| `MapTable.ObjectEquals` | source/msgpack/Object.c:413-437 | On heap nodes: the C key equality of their values |
| `MapTable.Search` | source/msgpack/Object.c:492-544 | The linear search finds the first matching pair, or the length |
| `MapTable.ObjectMapTableSet` | source/msgpack/Object.c:492-531 | False exactly when an allocation fails, with nothing changed; otherwise the assigned pair list, even when the value is a node of the table being replaced |
| `MapTable.ObjectMapTableGet` | source/msgpack/Object.c:533-544 | The value of the first match, as a node of the table; null exactly when there is none |
| `MapTable.ObjectMapTableRemove` | source/msgpack/Object.c:546-565 | The first matching pair goes and the order of the others stays; the answer says whether there was one |
| `MapTable.SetFromTable` | source/msgpack/Object.c:492-544 | A get whose result goes straight into a set gives exactly the table of SetFrom |
| `MapTable.ObjectMapCreate` | source/msgpack/Object.c:373-392 | A fresh pair of copies, null exactly when an allocation fails |
| `MapTable.ObjectMapTableCopy` | source/msgpack/Object.c:474-490 | Null exactly when an allocation fails; otherwise a fresh table with the pair list of CopyTable |
| `CppTable.MapObject.MapSet` | clients/cpp/src/proto/Object.cpp:138-157 | The vector becomes the assigned pair list, a non-map becoming an empty map first |
| `CppTable.MapObject.MapGet` | clients/cpp/src/proto/Object.cpp:159-183 | The value of the first match |
| `CppTable.MapObject.MapSetFrom` | clients/cpp/src/proto/Object.cpp:138-170 | A get whose result goes straight into a set gives exactly the table of SetFrom |
| `CppTable.MapObject.MapRemove` | clients/cpp/src/proto/Object.cpp:185-199 | Every match goes; the answer says whether there was one, and if not nothing changes |
| `CppTable.WithoutKeyLength` | clients/cpp/src/proto/Object.cpp:185-199 | The remove_if pass shortens the vector exactly when some key matches |
| `Tables.AssignRefines` | source/msgpack/Object.c:492-531 | In both languages a set on the pair list is a put on the insertion-ordered map |
| `Tables.LookupRefines` | source/msgpack/Object.c:533-544 | In both languages a get answers as the map does |
| `Tables.EraseRefines` | clients/cpp/src/proto/Object.cpp:185-199 | Removing the first match and removing every match are both the deletion of the key |
| `Tables.RunRefines` | source/msgpack/Object.c:492-565 | Over every run of set, get, remove and set-from-table with plain keys: the answers and ordered pairs of the insertion-ordered map, in both languages |
| `Tables.ListingFaithful` | source/msgpack/Object.c:492-565 | The pair list has distinct keys and holds exactly the associations of the map |
| `Tables.LanguagesAgree` | clients/cpp/src/proto/Object.cpp:138-199 | For values without maps the C and the C++ table give the same answers and the same ordered pairs over every run |
| `Tables.RunKeepsDistinct` | source/msgpack/Object.c:492-531 | Whatever the keys, no run makes a key match an earlier one |
| `Tables.AssignThenLookup` | source/msgpack/Object.c:413-437 | After a set the key is found exactly when its kind can be compared; otherwise every set adds an unreachable pair |
| `Tables.CppReflexive` | clients/cpp/src/proto/Object.cpp:208-239 | operator== is reflexive exactly on values without a NaN at any depth |
| `Tables.NilKeyTwice` | source/msgpack/Object.c:413-437 | A nil key set twice leaves two pairs in C and one in C++ |
| `Tables.CopyTableReproduces` | source/msgpack/Object.c:474-490 | Because no key matches an earlier one, the copy has a copy of each pair in its place |
| `Tables.CopyTableExact` | source/msgpack/Object.c:474-490 | The copied pair list is the original exactly when no pair holds a map |
| `Tables.ReachedTableCopiesExactly` | source/msgpack/Object.c:474-531 | Every table that a run reaches is copied exactly |
| `Tempo.TempoMapToFrame` | source/audio/Tempo.c:3-29 | The loop with its early break computes ToFrame |
| `Tempo.DeltaIsDistance` | source/audio/Tempo.c:14-17 | The wrap-around 64-bit delta is the true tick distance whenever positions fit 64 bits, also with a negative tick part |
| `Tempo.LexIsAbsolute` | source/audio/Tempo.c:12-12 | With ticks inside their bar, (bar, tick) order is absolute tick order, both directions |
| `Tempo.PositionsFitIff` | source/audio/Playlist.h:12-13 | Every position has a 64-bit absolute tick exactly up to 4473924 beats per bar |
| `Tempo.TruncationError` | source/audio/Tempo.c:9-28 | On absolute ticks: truncation never overshoots and loses less than one frame per applied point plus one |
| `Tempo.WalkIsTruncated` | source/audio/Tempo.c:9-28 | The wrap-around loop computes the truncated piecewise-linear map |
| `Tempo.FrameErrorBound` | source/audio/Tempo.c:9-28 | The frame never exceeds the sum over the segments of ticks * 60 * rate / (bpm * 960), stated on the points themselves, and falls short by less than one per point at or before the target plus one |
| `Tempo.SingleTempo` | source/audio/Tempo.c:5-28 | With one tempo the frame is exactly the whole part of ticks * 60 * rate / (bpm * 960) |
| `Tempo.Minute` | source/audio/Tempo.c:16-16 | As many beats as the tempo says take exactly one minute: 60 times the sample rate |
| `Tempo.FrameMonotone` | source/audio/Tempo.c:9-28 | A later target never has an earlier frame |
| `Tempo.LaterPointsIrrelevant` | source/audio/Tempo.c:12-12 | The early break loses nothing: only points at or before the target count |
| `Tempo.FrameIgnoresLater` | source/audio/Tempo.c:9-28 | Two maps that agree up to the target give the same frame |
| `Tempo.FrameRedundantPoint` | source/audio/Tempo.c:9-26 | Inserting a point that repeats the tempo in force never raises a frame and lowers it by at most one |
| `Samples.SampleList.ImportByFile` | source/audio/SampleList.c:35-92 | Succeeds exactly when loading and the needed allocations do, then appends the freshly named sample; a failed import leaves the list unchanged |
| `Samples.BaseNameSplits` | source/audio/Sample.c:111-112 | Every path is nothing or a directory with its slash, followed by the base name, which has no slash |
| `Samples.BaseNameUnique` | source/audio/Sample.c:111-112 | And any such split is that one |
| `Samples.ImportedIs` | source/audio/SampleList.c:53-88 | An import adds one sample at the end, named by the base name if that is free and otherwise by it, a blank, # and the decimal number of samples that hold it |
| `Samples.DecimalStandsFor` | source/audio/SampleList.c:71-71 | The digits stand for the number and do not begin with a zero |
| `Samples.OccurrencesCount` | source/audio/SampleList.c:56-61 | The counting loop gives how often the name is among the names |
| `Samples.SampleList.DeleteByName` | source/audio/SampleList.c:149-235 | Exactly the first match goes and the others keep their order; fails exactly when there is none |
| `Samples.SampleList.GetByName` | source/audio/SampleList.c:237-249 | The first sample with the name, none exactly when there is none |
| `Samples.RepeatsIff` | source/audio/SampleList.c:35-92 | Some run holds a name twice exactly when the name is repeatable: a file name with k added, where k is 1 or the file name is itself repeatable |
| `Samples.Reach` | source/audio/SampleList.c:35-92 | A repeatable name can be held any number of times |
| `Samples.DeletedIsGoneIff` | source/audio/SampleList.c:149-235 | One delete makes a name unfindable in every reachable list exactly when the name is not repeatable |
| `Samples.NumberZeroNeverRepeats` | source/audio/SampleList.c:64-75 | A name that ends in number 0 is numbered but never repeats |
| `Samples.PlainNamesStayUnique` | source/audio/SampleList.c:35-92 | Over every run two samples never share a name without a number |
| `Samples.DeletedPlainNameIsGone` | source/audio/SampleList.c:149-235 | In every reachable list, deleting such a name makes it unfindable |
| `Samples.NumberedNameTwice` | source/audio/SampleList.c:56-75 | The shortest witness: three imports of one file hold a numbered name twice, and one delete leaves it findable |

## Left out

- Wire.TagRoundTrip: floats and doubles are bit patterns, and the extension types that mpack has disabled are read errors.
- Mpack: tracking is off, so the done and finish calls do not appear; allocation failure inside mpack and in the codecs is not modelled.
- Requests.RequestFraming: is about flat parameters, since RequestFramingIff shows that it holds for no others.
- Server.StreamRefines: is about chunks that end at message boundaries, since SplitRequest shows what happens to others.
- Server.HazeConn.Reserve: sizes are unbounded, so overflow of the doubled capacity in size_t is not modelled.
- Connections.StepKeepsInv: reads deliver at most 4 MB and the close callback of a handle comes after its write callbacks, as libuv orders them; DoubleCloseIff covers larger reads.
- Client.StepKeepsInv: fewer than 2^32 calls take an id, since after that ids repeat.
- EndToEnd.EveryCallGetsItsOwnAnswer: the Go msgpack library is not part of this model; a request may be any bytes that the server reads as that request, replies are decoded as the C client decodes them, and the transport carries whole messages.
- ObjectHeap.ObjectArrayAppend: requires that the appended tree does not contain the array itself; the source has no such case and makes no promise about one.
- ObjectHeap.ObjectFree: object nodes are marked as freed; the byte payloads and arrays that go with them are only left without a promise.
- ObjectHeap.ObjectCopy: the size field, which is copied unchanged, and the table behind a map, which is not copied, are kept out of the nodes.
- MapTable.ObjectMapTableSet: requires that key and value do not contain the table itself; they may be nodes of it.
- CppTable.MapObject.MapRemove: the key is passed by value, so a key that refers into the vector while remove_if moves its entries is not modelled.
- CppTable.MapObject.MapSet: key and value are passed by value; MapSetFrom covers a value read from the table, but not one nested inside the entry that it replaces.
- Tempo.FrameErrorBound: doubles are real numbers, and positions and frames stay below 2^64; IEEE rounding is not modelled.
- Samples.SampleList.ImportByFile: the count of equal names is unbounded, and the audio library is an input.
- The job queue, the audio worker and the job payload that outlives its request: a queued import is "no immediate answer".
- Notifications are never produced by the dispatcher, so broadcasts appear in Connections as events of their own.
- The constructors and setters of responses, notifications and requests beyond those the dispatcher uses: easy members only.
- ObjectMapToObject, ObjectMapTableToObject, the array operations of the C++ client and the getters: easy members only.
- Decoder.c and Types.h are commented out; Header.c is unfinished; Dispatcher.c after its unconditional return is unreachable.
- RawBufferAppend, RawBufferToString, ResponseToString and RequestPrint: not used by the modelled code.
- Server start, stop, signals and teardown; paths, registry, session and playlist construction; the Lua client, the command line tool and the length-prefixed framing of hazectl/proto.
