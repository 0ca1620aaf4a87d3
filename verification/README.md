# C2R, modelled and verified

C2R lets a C program talk to an R process through Rserve. Its calls speak QAP1 over a byte stream: each
sends a request (a sixteen-byte header and typed parameters) and parses the reply from a stream that
may deliver its bytes in any fragments. This project models those calls, the encoders and decoders they
rest on, a reference server behind them, and the echo protocol of the sample client and server, and
proves what the two sides do together.

- `Wire`: bytes, little-endian words, header words with a type and a 24-bit length.
- `StringVectors`: packing of strings with NULs, and the walk that recovers them.
- `Qap`: headers, parameters, values and their encoding, replies.
- `RServer`: decoding, a cut-down evaluator over a map of variables, and the framing rule by which a
  server splits its inbound bytes into requests, whatever the sizes in which they come.
- `Replies`: for every inbound stream, well formed or not, the outcome of each call and the bytes it
  leaves unread. These are the specifications of the methods.
- `SetRequests`: the request of `set_vec`, with the two-pass packing of string vectors in place.
- `Client`: class `Link`, a socket with the server behind it, and every call as a method on it. Reads
  and sends move any amount the system calls may move. A call that uses only the reassembly loop is
  proved to have exactly its specified outcome under every fragmentation, once its request is out. A
  call with a raw `read`, which stands outside that loop, has it if raw reads move all that is there,
  however the looped reads are fragmented; otherwise its read of eight bytes may be cut short, and then
  the call fails with -1.
- `ReplyProofs`: the specifications applied to the replies of the server, followed by any other bytes.
- `Session`: sequences of calls, against a plain map from names to values.
- `Driver`: programs that make the calls through the methods. On a connection whose raw reads may move
  less than is there, `get_F8` and `get_I4` can succeed with part of a cell; there the results on programs
  carry the proviso `wholeCells`, that the last read of each of them that succeeded moved its whole cell.
- `Literal`: requests and replies written out byte for byte, and every parser as a condition on the bytes
  at their offsets, without the encoders and the constants that client and reference server share.
- `Echo`: the echo protocol as a state machine over interleaved statements of the two processes.

Main results: `Session.RunRefinesMap` and `Driver.Converse` (client and server together are a map, for
every sequence of calls, failures included, as long as each call reads its reply to the end, and the
server sees exactly the requests), `Session.QuietAfterIff` (exactly when a call does so),
`Session.SetStoresIffAccepted` and `SetRequests.SetRoundTrip` (exactly when the server has what was sent),
`ReplyProofs.NamedOfValue` and `NamedOfReply` (the nested reply of a named vector, and every other value
in its place), `Replies.ScalarAgreesWithVector`, `StringVectors.PackingInjective`, `Link.GetBufFromSock`,
and for the echo protocol `Echo.InFlightBounded`, `Echo.RunsAreSafe` and `Echo.EchoFinishesIff`.

Where the code differs from what it or its comments promise:

- `get_F8` and `get_I4` do not compare the count of their last `read` with the width. On a stream that
  stops inside the cell they succeed where `get_vec` fails; `ScalarAgreesWithVector` says exactly when
  the two agree, `CutReplyCutsCell` gives the streams on which they do not, and `ScalarOfReply` says what
  a short last read leaves behind.
- `set_vec` succeeds on every empty reply, whatever its response code. Under a name whose padded length
  reaches 2^24 nothing is stored, a body of 2^24 bytes or more (2097152 doubles) is stored cut short, and
  the call still returns 0. `SetStoresIffAccepted` says exactly when the value is there.
- An early error exit leaves the rest of the reply unread. `QuietAfterIff` says exactly when a call leaves
  bytes behind, and `EarlyExitDesynchronises` what they do to the next call.
- `get_named_vec_F8` does not look at the type word of the value. `NamedOfValue` gives its outcome on
  every value; `LookalikeParses` gives plain double vectors that it takes for named ones, and leaves unread
  what they have behind the values.
- The sample server exits on a message larger than its buffer, whose size the client does not know, and
  both ends of the echo protocol ignore the count of the read that takes the length word. If fewer than four
  bytes are there, the length is made up with what the buffer held before. `EchoFinishesIff` needs a message
  that fits and a network that hands the length over whole, and shows runs that stop without them: after
  the server's exit the next write kills the client. A client that is reading asks for ever (`ClientSpins`).
- Every exit of `get_vec` before src/get_vec.c:96 jumps over the declaration of `data` and then frees it
  while its value is indeterminate. In the model these exits are a plain failure with nothing returned.
- The comment over the padding loop of `mk_dt_string` wants the length plus four to be divisible by
  eight; the loop stops at a length divisible by eight, and the parameter is four more than that.
- The outer word of `set_vec` announces four bytes more than follow it, and the inner word of logicals
  eight more. The reference server goes by the frame, the inner word and the element count.
- Logicals come back padded to whole words with padding counted as elements, because `get_vec` takes the
  number of elements from the length and ignores the count on the wire.
- The twelve bytes that `get_named_vec_F8` skips without knowing why are the word of the symbol and the
  padded text "names": attributes come value first, then tag.
- The walk over the keys at src/get_named_vec.c:93-98 stands between `#undef PRINT` and `#ifdef PRINT` and
  is never compiled. `KeyWalk` is what it would do, and what a user of the key blob has to do.

## Model

| member | source | states |
|---|---|---|
| Wire.WordRoundTrip | rincs/Rsrv.h:67-78 | a 32-bit word stored low byte first reads back as itself at any offset |
| Wire.Le32Bytes | rincs/Rsrv.h:69-70 | a word travels low byte first: its four bytes for every value, and 0x12345678 as 78 56 34 12 |
| Wire.HeaderWordBytes | rincs/Rsrv.h:86-88 | a header word travels as the type byte and the length in three bytes, low byte first |
| Wire.HeaderWordRoundTrip | rincs/Rsrv.h:103-107 | a header word returns its type always and its length exactly when that is below 2^24, otherwise the length modulo 2^24 |
| StringVectors.WalkPacked | src/get_named_vec.c:93-98 | walking a packed blob recovers every string in order, whatever surrounds it |
| StringVectors.StringsOfPacked | src/set_vec.c:62-89 | counting NULs and walking undo packing for every list of NUL-free strings and every NUL-free padding |
| StringVectors.PackingInjective | src/set_vec.c:82-88 | distinct lists never pack to the same blob, which is why the padding must not be NUL |
| StringVectors.KeyWalk | src/get_named_vec.c:93-98 | the cursor loop over a key blob yields the strings of the walk |
| Qap.ReplyShape | rincs/Rsrv.h:283-289 | header, outer word, inner word and body of a value reply stand at offsets 0, 16, 20 and 24 |
| RServer.DrainSplit | rincs/Rsrv.h:90-96 | a server that gets its bytes in two instalments answers as if it got them at once |
| RServer.DeliverSplit | src/set_vec.c:113-139 | cutting a request into several sends changes neither the server nor its replies |
| RServer.FramesOfConcat | rincs/Rsrv.h:80-96 | reading sixteen bytes and then as many as they announce splits concatenated requests into exactly those requests |
| RServer.DeliverRequest | rincs/Rsrv.h:197-229 | a quiet server answers one well-framed request at once and is quiet again |
| RServer.HandleKeepsOk | rincs/Rsrv.h:226-229 | no request makes the server hold a value that is ill formed or that a reply cannot carry |
| Replies.ScalarAgreesWithVector | src/get_F8.c:31-53 | for every stream, get_F8 and get_I4 agree with a one-element get_vec in value and unread bytes if and only if the stream does not stop inside the cell |
| Replies.CutReplyCutsCell | src/get_F8.c:50-53 | the reply for one cell, ended anywhere inside the cell, is such a stream |
| Replies.NamedBuffersFit | src/get_named_vec.c:73-116 | whatever arrives, what get_named_vec_F8 reads fits both buffers, and on success they hold its result |
| Replies.VectorRemainder | src/get_vec.c:79-98 | after a successful F8 or I4 get_vec, (ph.len - 8) mod width bytes of the reply are unread, so it is drained exactly when the width divides |
| SetRequests.SlotsOfLayout | src/set_vec.c:63-69 | strings laid out in rows of a width larger than each of them are found again, each at its row and in their order, and each ends inside its slot |
| SetRequests.SlotEndsIffNul | src/set_vec.c:64-66 | a string ends inside its slot exactly when a byte of the slot, which starts at the index times the width, is NUL |
| SetRequests.PackStrings | src/set_vec.c:62-89 | fails exactly when a string does not end in its slot; otherwise the buffer holds the strings, their NULs and X up to the next multiple of eight; for strings laid out at the width it succeeds, and the strings of the buffer are those |
| SetRequests.MeasureStrings | src/set_vec.c:63-73 | the measuring pass yields the least multiple of eight at or above the packed length |
| SetRequests.FillStrings | src/set_vec.c:75-81 | the fill pass ends at the sum of the measuring pass and writes the strings with their NULs inside the buffer |
| SetRequests.PadTail | src/set_vec.c:86-88 | X covers exactly what is left behind the strings |
| SetRequests.CellsAccepted | src/set_vec.c:26-53 | doubles, integers and logicals are accepted exactly with a name and at least one element |
| SetRequests.StringsAccepted | src/set_vec.c:48-66 | strings laid out at a width larger than each of them are accepted, with a name and at least one string |
| SetRequests.BlobRoundTrip | src/set_vec.c:62-89 | counting and walking recover from the blob of set_vec exactly the strings of the slots, empty ones included |
| SetRequests.PackedFits | src/set_vec.c:64-69 | packing never takes more room than the slots |
| SetRequests.StringParamRoundTrip | src/aux_rcli.c:89-97 | the server recovers the name from its parameter exactly while the padded length is below 2^24 |
| SetRequests.HeaderWordsOverdeclare | src/set_vec.c:94-107 | the outer word announces four bytes too many for every type, the inner one eight too many for logicals and none otherwise |
| SetRequests.HeaderWordThresholds | src/set_vec.c:94-100 | the outer word is faithful exactly for n below 2097151 doubles or 4194302 integers, the inner below 2097152 or 4194304 |
| SetRequests.DecodeSetParam | src/set_vec.c:94-107 | what the server decodes for every type and size: a length that wraps cuts the body to its low 24 bits |
| SetRequests.CutBlobLosesStrings | src/set_vec.c:86-102 | a string vector whose length wraps loses strings at the server |
| SetRequests.SetRoundTrip | src/set_vec.c:5-7 | name and value are recovered if and only if the padded name and, except for logicals, the body are below 2^24 bytes |
| SetRequests.SetHandled | src/set_vec.c:90-144 | the answer for every size of name and body: under a name that fits the decoded value is stored, cut short if the length wrapped; under one that does not, nothing is; the reply is empty either way |
| SetRequests.StoredIffAccepted | src/set_vec.c:90-144 | after the request the server has the value under the name if and only if it was accepted, or refused with the value there before |
| Client.MkHdr | src/aux_rcli.c:105-141 | the header in place, with the code of each command; an unknown command or a negative length is refused |
| Client.PadLength | src/aux_rcli.c:70-79 | the padding loop ends at the least multiple of eight at or above the length, within seven steps |
| Client.MkDtString | src/aux_rcli.c:59-103 | the parameter is the word, the string and zeros, and its length is four more than a multiple of eight, so the divisibility exit is never taken; NULL is refused |
| Client.MkSetHead | src/set_vec.c:94-107 | the words before the body, in place, for each type |
| Client.CountNuls | src/get_named_vec.c:85-90 | the counting loop yields the number of NULs |
| Client.Link.GetBufFromSock | src/aux_rcli.c:23-57 | for every fragmentation: 0 exactly when all bytes come, with exactly those bytes in the buffer and none beyond them taken; otherwise -2 after a close and -3 after an error, what came is in the buffer and the rest of it unchanged |
| Client.Link.SendTwo | src/aux_rcli.c:188-197 | both buffers go out, or a proper prefix of the two has, the server has seen exactly that, and nothing was read |
| Client.Link.SendSet | src/set_vec.c:109-139 | the header, the name, the words and the body of the request go out in this order, or a proper prefix of them has, which is all the server has seen |
| Client.Link.ReadHdr | src/aux_rcli.c:8-22 | the next sixteen bytes, whatever the response code |
| Client.Link.ReadGreeting | src/aux_rcli.c:323-331 | 32 bytes are taken, and the call succeeds exactly when they open with the twelve bytes "Rsrv0103QAP1" |
| Client.Link.ExecStr | src/aux_rcli.c:162-243 | sends the text as one request; outcome, output and unread bytes are those of ParseExec under every fragmentation; after a send that falls short it fails with -1, a proper prefix of the request sent and nothing read |
| Client.Link.GetBool | src/get_bool.c:7-29 | the outcome of ParseBool: the value of a single logical, or -1 for every failure; after a short send as for ExecStr |
| Client.Link.SetBool | src/get_bool.c:31-54 | executes the name followed by " <- TRUE " or " <- FALSE " and takes the reply; after a short send as for ExecStr |
| Client.Link.GetVecLen | src/get_vec.c:106-128 | executes length(name) and returns the integer; after a short send as for ExecStr |
| Client.Link.GetVec | src/get_vec.c:10-105 | the outcome of ParseVec, its cells and its unread bytes, under every fragmentation of the looped reads if raw reads are whole; otherwise the raw read of eight bytes may be cut short, which fails with -1 behind what was read; nothing is returned on failure; a short send fails with -1 and nothing read |
| Client.Link.GetScalar | src/get_F8.c:12-57 | get_F8, and get_I4 likewise: the outcome of ParseScalar under every fragmentation of the looped reads if raw reads are whole; otherwise as much of the cell as the last read moved, unless the raw read of eight bytes is cut short; a short send fails with -1 and nothing read |
| Client.Link.SetVec | src/set_vec.c:8-156 | each refusal sends nothing; a name and at least one cell, or strings laid out at the width, are accepted: on a whole connection something is sent, and a quiet server makes the call return 0; it sends exactly the request and succeeds on an empty reply; a short send fails with -1, a proper prefix of the request sent and nothing read |
| Client.Link.GetNamedVecF8 | src/get_named_vec.c:19-123 | the outcome of ParseNamed under every fragmentation; on success and on every failure the two buffers hold exactly what arrived for them, and the rest is cleared as the code clears it |
| ReplyProofs.VecOfReply | src/get_vec.c:54-100 | on any value reply with anything behind it, get_vec returns the vector and stops at the reply's end, or fails with the body unread |
| ReplyProofs.LogicalsComeBackPadded | src/get_vec.c:79-100 | n logicals come back as 4*ceil(n/4) cells that start with them; the same vector exactly when four divides n |
| ReplyProofs.ScalarOfReply | src/get_I4.c:31-53 | a scalar call on any value reply, for every size of its last read; it drains the reply exactly when that read is whole |
| ReplyProofs.ExecOfReply | src/aux_rcli.c:199-232 | exec_str returns the whole body of a value of the expected type and drains the reference server's reply; another type leaves the body unread |
| ReplyProofs.BoolOfReply | src/get_bool.c:19-25 | get_bool accepts exactly one logical, and NA reads as false; other logicals fail with the reply drained, other types with the body unread |
| ReplyProofs.LenOfReply | src/get_vec.c:119-123 | get_vec_len returns the integer of the reply and drains it |
| ReplyProofs.NamedShape | doc/Simon1.txt:91-100 | the attribute list: two words, the keys, the twelve bytes of the tag, the values |
| ReplyProofs.NamedOfValue | src/get_named_vec.c:56-119 | the outcome on the reply for any value whatever, with the bytes left unread, as a condition on the bytes of its body: the type word plays no part |
| ReplyProofs.NamedOfReply | src/get_named_vec.c:56-119 | on a named vector it succeeds if and only if the lengths fit and both buffers have room to spare, then with all keys and values and the reply drained; otherwise -1, and what stays unread |
| ReplyProofs.LookalikeParses | src/get_named_vec.c:63-73 | a plain double vector that starts with the bytes of a named vector is taken for one, and what it has behind them stays unread |
| ReplyProofs.FiveDoublesParse | src/get_named_vec.c:63-73 | with keys "a" and "b" such a vector has five doubles: this is one that get_named_vec_F8 takes for a named vector |
| ReplyProofs.OnEmptyReply | src/set_vec.c:143-150 | void calls succeed on every reply without a body, an error included; calls that want a value fail on it |
| Session.TextExchange | src/aux_rcli.c:181-201 | a call that sends a text gets the reply to that text and nothing else |
| Session.CallExact | src/aux_rcli.c:199-232 | on a quiet connection every call, with any arguments and on any map, has the result, the unread bytes and the new map that the map alone determines |
| Session.QuietAfterIff | src/aux_rcli.c:202-203 | a call leaves the connection quiet if and only if it sends nothing, wants no value, gets none, or gets one whose reply it reads to the end |
| Session.NameLookup | src/get_F8.c:41-48 | for a plain name the condition is on the map: no value under the name, or one that the call accepts or whose body is empty |
| Session.OverlongExact | src/get_named_vec.c:104-116 | a call succeeds and still leaves bytes unread exactly when get_named_vec_F8 meets a body that goes on behind its values |
| Session.NamedReadsNotOverlong | src/get_named_vec.c:104-116 | a sequence whose named reads meet named vectors, or no value, meets no such body |
| Session.NoNamedReads | src/get_named_vec.c:104-116 | a sequence without named reads meets no such body |
| Session.SetStoresIffAccepted | src/set_vec.c:143-150 | set_vec returns 0 for every request it sends; it stores what decodes, or nothing under a name too long, and the value is there if and only if the request was accepted or refused with the value there before |
| Session.VectorStored | test/unit_test_1.c:29-42 | from the raw arguments: after set_vec of at least one double, integer or logical within the limits the server has exactly that vector under the name |
| Session.StringsStored | test/unit_test_1.c:105-123 | after set_vec of strings laid out at a fixed width the server has exactly those strings, in their order |
| Session.NamedReadBack | src/get_named_vec.c:56-119 | a named vector that the server holds comes back whole, with nothing left behind |
| Session.NamedLength | src/get_vec.c:119-123 | get_vec_len of a named vector is the number of its keys |
| Session.PlainNames | src/get_bool.c:5-5 | letters, digits, the dot and the underscore make names that the results on plain names cover |
| Session.RunRefinesMap | src/aux_rcli.c:202-203 | for every sequence of calls: the connection is quiet after each if and only if, by the map, each leaves it so, and then all results, failures included, and the contents are the map's |
| Session.SuccessKeepsQuiet | src/aux_rcli.c:202-203 | apart from bodies that go on behind named values, all calls succeed if and only if the map answers all, and success means that each left the connection quiet |
| Session.QuietBetweenCalls | src/aux_rcli.c:202-203 | in a session whose calls all succeed, nothing is unread or pending between any two calls |
| Session.LastWriteStands | src/set_vec.c:5-7 | what a call made of the map at a name is there until a call that writes the name, failed calls in between included |
| Session.WritesItsName | src/get_bool.c:42-47 | a storing call writes exactly its name; lookups of plain names and get_vec_len write none |
| Session.GetReturnsLastSet | test/unit_test_1.c:29-42 | get_vec returns the data last stored under the name with that type: doubles and integers if and only if they are below 2^24 bytes, otherwise what the server kept; logicals padded, the same vector exactly when four divides n, up to 2^24 - 8 of them |
| Session.GetBoolReturnsLastSet | test/unit_test_1.c:262-279 | get_bool returns the last value set_bool gave the name, after any calls in between |
| Session.LengthReturnsLastSet | test/unit_test_1.c:121-132 | get_vec_len returns the number of elements last stored, strings included, if and only if the request was accepted |
| Session.RequestFramed | src/set_vec.c:109-139 | every call's header announces exactly the bytes it sends behind it, for every type |
| Session.FramesOfCalls | src/set_vec.c:109-139 | the framing rule splits all that a sequence of calls sends into exactly their requests |
| Session.EarlyExitDesynchronises | src/get_F8.c:45 | get_F8 on an integer leaves four bytes unread, and the get_F8 after it fails although the map has its value |
| Literal.SetOneDouble | src/set_vec.c:90-139 | the 44 bytes that store one double under "x", whatever the double |
| Literal.SetManyDoubles | src/set_vec.c:90-139 | the same for 32 doubles, whose lengths take two bytes |
| Literal.SetOneInt | src/set_vec.c:90-139 | the bytes that store one integer |
| Literal.SetOneLogical | src/set_vec.c:54-60 | the bytes that store one logical, with the element count |
| Literal.SetTwoStrings | src/set_vec.c:62-89 | the bytes that store "a" and "b" from slots of two bytes, with the padding of X |
| Literal.LookUpX | src/aux_rcli.c:181-197 | the bytes of a lookup of "x" and of a void execution |
| Literal.AssignX | src/get_bool.c:43-48 | the bytes of set_bool("x", true) and of set_bool("x", false) |
| Literal.MeasureX | src/get_vec.c:115-119 | the bytes of get_vec_len("x") |
| Literal.EmptyReplyBytes | rincs/Rsrv.h:90-110 | the bytes of a reply without a value and of an error |
| Literal.NamedReplyBytes | doc/Simon1.txt:91-100 | the named vector of the hex dump, byte for byte, and the keys and doubles that get_named_vec_F8 makes of it |
| Literal.LogicalReplyBytes | rincs/Rsrv.h:315-315 | the reply for one logical, byte for byte, and what get_bool makes of it |
| Literal.StringReplyBytes | rincs/Rsrv.h:313-313 | the reply for one string, with its padding of bytes 1 |
| Literal.SetOnBytes | src/set_vec.c:143-150 | set_vec fails on every header that announces a body, and succeeds on every other |
| Literal.ExecOnBytes | src/aux_rcli.c:199-232 | the outcome of exec_str on every stream, by the bytes at their offsets |
| Literal.SetBoolOnBytes | src/get_bool.c:49-49 | set_bool takes a reply of any type, and reads it to its end |
| Literal.VecHeadOnBytes | src/get_vec.c:54-78 | the head of a vector reply is accepted exactly when the two types are right and the two lengths agree |
| Literal.CellsOnBytes | src/get_vec.c:79-98 | doubles and integers: as many whole cells as the length has room for, and what stays unread |
| Literal.LogicalsOnBytes | src/get_vec.c:79-98 | logicals: four bytes are skipped, and the rest of the length are the cells |
| Literal.ScalarOnBytes | src/get_I4.c:31-53 | get_F8 and get_I4 want exactly one cell in the length, and take as much of it as one read moves |
| Literal.BoolOnBytes | src/get_bool.c:19-25 | get_bool succeeds exactly on one logical in eight bytes, and returns its lowest bit |
| Literal.LenOnBytes | src/get_vec.c:119-123 | get_vec_len succeeds exactly on integers, at least one, and returns the first |
| Literal.NamedHeadOnBytes | src/get_named_vec.c:56-83 | the head of a named vector is accepted exactly when lengths and types agree and the keys leave room to spare |
| Literal.NamedOnBytes | src/get_named_vec.c:84-119 | then the keys, twelve bytes that are skipped, and eight bytes for each NUL of the keys, for every stream |
| Driver.Perform | src/get_F8.c:31-53 | one call, once its request is out, does what Exchange says if it succeeds or has no read that could be cut short; a scalar that succeeds does so exactly when it has read a whole cell, which it has on a quiet connection with whole raw reads |
| Driver.RunCalls | test/unit_test_1.c:30-36 | a program whose requests all go out, as they do if its calls succeed, does what Run says under every fragmentation of the looped reads, failures included if raw reads are whole or there are none; with other raw reads, if its calls succeed; each scalar that succeeds must have read a whole cell, which is proved for whole raw reads and programs that keep the connection quiet |
| Driver.Converse | test/unit_test_1.c:593-609 | on a quiet connection with whole raw reads, or without raw reads, under every fragmentation of the looped reads: a program whose requests go out and whose calls leave the connection quiet by the map gets the map's results, failures included, nothing is left inbound or pending, and the server can frame all it sent; with other raw reads the same if its calls succeed and each scalar has read a whole cell; success of the calls is enough for quietness, but for the overlong bodies |
| Echo.CheckAndRewrite | sample_client_socket/my_server.c:37-40 | the pass in place accepts exactly when every byte from the fifth on is one, turns those into twos and leaves the rest |
| Echo.CheckReply | sample_client_socket/my_client.c:47-49 | returns 0 exactly when every byte from the fifth on is two |
| Echo.InitSendbuf | sample_client_socket/my_client.c:105-109 | the send buffer holds the length and then ones |
| Echo.WrongReplyCounts | sample_client_socket/my_client.c:47-49 | a byte other than two in the reply is counted as a failed check, and nothing else is |
| Echo.WrongRequestExits | sample_client_socket/my_server.c:37-40 | the server exits exactly on a byte other than one, and otherwise sends the same bytes with twos for ones |
| Echo.LengthDecides | sample_client_socket/my_server.c:24-29 | the length is read low byte first as a signed number and refused unless positive and within the buffer |
| Echo.AnyChunkWritten | sample_client_socket/my_client.c:38-38 | a write may put any number of bytes into the channel that there is room for |
| Echo.AnyChunkRead | sample_client_socket/my_client.c:43-46 | a read of the client may take any number of bytes up to the whole length, however much it has; beyond the buffer that is an overrun |
| Echo.AnyChunkTaken | sample_client_socket/my_server.c:32-36 | and so may a read of the server |
| Echo.StepKeepsInv | sample_client_socket/my_server.c:23-44 | every statement of either process, with chunks of any size, keeps the invariant over both processes and both channels |
| Echo.InFlightBounded | sample_client_socket/my_client.c:43-46 | bytes in flight toward a reader never exceed what it still lacks, so a read that asks for the whole message stays in the buffer and in its round |
| Echo.ClientCheckKeeps | sample_client_socket/my_client.c:47-49 | the reply is checked only when it is all there; the check passes and the length word is the one sent |
| Echo.StepProgresses | sample_client_socket/my_client.c:110-113 | every statement increases the work done over rounds, phases and bytes |
| Echo.NeverStuck | sample_client_socket/my_client.c:38-46 | with room for four bytes in a channel, a message that fits and lengths read whole, some process can move until the client is done |
| Echo.RunsAreSafe | sample_client_socket/my_client.c:110-113 | for messages that fit and lengths read whole: in every interleaving all states satisfy the invariant, and the length of a run is bounded by its work |
| Echo.RunsGoWell | sample_client_socket/my_client.c:37-49 | and in no state of a run has a check failed, a read passed the end of its buffer, the server left or the client been killed |
| Echo.StuckWithoutRoom | sample_client_socket/my_server.c:24-25 | if the length is only ever read whole, a channel of less than four bytes has a run that stops before the client is done |
| Echo.KilledOnShortRead | sample_client_socket/my_server.c:25-29 | if one byte of the length can be read alone, there is a run in which the server makes a negative length of it and exits, and the client's write to the closed connection kills it |
| Echo.KilledOnLongMessage | sample_client_socket/my_server.c:27-29 | a message larger than the server's buffer makes it exit, and the client's write to the closed connection kills it |
| Echo.ClientSpins | sample_client_socket/my_client.c:43-46 | a client that is reading when the server has left never does anything but ask again |
| Echo.EchoFinishesIff | sample_client_socket/my_client.c:110-113 | every run that cannot go on has finished all rounds with all checks passed, if and only if a channel holds four bytes, the message fits the server's buffer and the length is always read whole |
| Echo.DefaultsFinish | sample_client_socket/my_client.c:61-62 | for the default sizes of the programs, and every message up to the server's buffer, four bytes of room decide |

## Left out

- Socket creation, connection, timeouts, TCP_NODELAY, close, the socket descriptor and its checks, and printing: operating-system plumbing. Of `rconnect` the greeting is kept.
- Waiting: the server answers a whole request at once, and a read that finds nothing inbound reports the end of the stream, as after a close or a timeout, where the real one may block.
- What follows after the end of the stream: with the end `Closed` a read has seen the peer leave, yet sends still reach the server and later calls are answered. Sequences that go on after a call that found nothing inbound stand for a real connection only with the end `Broken`, as after a timeout.
- `rshutdown` and the wrappers of `exec_str` in exists.c, chk_R_class.c and n_df.c: they would add only easy members.
- The R evaluator: vectors are measured, logical constants assigned, and every other text is looked up as a name.
- Strings and buffers of half a gibibyte and more, and with them the wrap-around of `n*width` and of `int` lengths outside the header words.
- Failure of allocations, except that a size made from a negative number cannot be allocated; an allocation of size zero succeeds.
- `XT_LARGE` and `DT_LARGE` lengths of 56 bits: the client rejects them by its exact type comparisons, and the reference server keeps the low 24 bits of a length instead.
- The meaning of doubles and integers: cells are opaque bytes.
- Client.Link.GetVecLen: a body of one to three bytes, which the code reads past, counts as a failure; the reference server never sends one.
- Client.Link.GetBool: the NULL check on the name stands for both argument checks, because the descriptor is left out.
- Client.Link.GetVec: the free of `data` while it is indeterminate, on every exit before src/get_vec.c:96, is not modelled, because its effect is undefined; these exits are a plain failure.
- Client.Link.GetNamedVecF8: the capacity of the values is taken as a number of cells, as its parameter comment has it, while the clearing covers that many bytes.
- Echo.NeverStuck: the closing of the connection by the client after the last round, on which the server exits, and messages shorter than the length word are not modelled.
- Echo.KilledOnLongMessage: of the ways the server's exit reaches the client, a write that is killed and reads that return zero are modelled; a write that reports an error instead, and a read that reports a reset, are not.
- The interactive chat programs client.c and server.c, get_time_usec.c, and the files the Makefile does not build.
