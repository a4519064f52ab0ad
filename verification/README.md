# A Redis-like key-value server: the sequential command path

This project models, in Dafny, the command path of a small Redis clone written
in Go: the byte-string store (`keyval.go`), the command vocabulary and the
RESP3 map-reply encoder (`protocol.go`), the per-connection read loop that
turns decoded RESP arrays into commands (`peer.go`), and the dispatch loop
that runs each command against the store, writes a reply, and keeps the set
of live peers (`server.go`).

Everything is a pure function over immutable values. The store is a
`map<Bytes, Bytes>`; a reply is the value `handleMessage` would have written
to the socket; the read loop is a fold over the results the RESP reader
returns; the dispatch loop is a fold over the events it receives on its
channels, in the order received. Peers are identified by number. Keys are
compared by content, as the Go store does by converting each key to a `string`
before using it as a map key.

Modules, one per source file plus helpers:

- `Bytes` (bytes.dfy): bytes, ASCII literals, Go's `%d` rendering and its inverse.
- `Resp` (resp.dfy): the RESP simple-string frame `+text\r\n` and its reader.
- `KeyVal` (keyval.dfy): `KV`, `NewKV`, `Set`, `Get` and the assumed `Del`.
- `Protocol` (protocol.dfy): tokens, `Command`, `respWriteMap` and a reader for its output.
- `Dispatch` (server.dfy): `NewServer`, `handleMessage`, one `loop` iteration, and the loop as a fold.
- `Peer` (peer.dfy): the decode step of `readLoop` and the loop itself.
- `Scenario` (scenario.dfy): SET/GET/DEL/GET/DEL on one key, end to end.

Where the code departs from what a Redis server does, the model follows the code:

- `del` is not decoded. The switch in `peer.go` has no `del` case, so a DEL request becomes a nil command. It is still forwarded, and it gets no reply. `Dispatch.HandleMessage` models the `DelCommand` branch of `handleMessage`, but no wire input reaches it (`Peer.DecodeRequest`, `Scenario.WireScenario`).
- `KV.Del` is called at server.go:131 but is not defined in keyval.go. The model assumes it removes the key if present and reports whether the key was present.
- Arity is never checked. An array that is shorter than its token needs makes the Go code index past its end, and the program panics. The model ends the read loop in a `Panicked` state. Extra trailing elements are ignored.
- A read error other than end of input calls `log.Fatal`, which exits the process. The model ends the loop in a `Fatal` state.
- Every reply except HELLO's goes through the RESP writer's `WriteString`; this includes the GET value and the DEL counts `1` and `0`. The model takes `WriteString` to write a simple string (see "Left out"). HELLO's reply is the bytes of `respWriteMap`, sent unframed with `Peer.Send` (server.go:91).

## Model

| member | source | states |
|---|---|---|
| KeyVal.NewKV | keyval.go:12-16 | a fresh store binds no key |
| KeyVal.Get | keyval.go:28-34 | a lookup reports absence (Go's `ok == false`) exactly when the key is unbound, and otherwise the bound value |
| KeyVal.Set | keyval.go:19-25 | after a write the key reads back the written value and every other key reads as before |
| KeyVal.GetAfterWrites | keyval.go:28-34 | after any sequence of writes from an empty store, a lookup returns the last value written to that key, and a key never written reads as absent |
| KeyVal.LastWriterWins | keyval.go:23 | of two writes to one key the second is what remains; the store is the same as after the second write alone |
| KeyVal.SetIdempotent | keyval.go:23 | writing the same binding twice equals writing it once |
| KeyVal.Del | server.go:131 | (assumed operation) reports removal exactly when the key was bound; afterwards the key is absent and other keys are untouched; an absent key leaves the store unchanged |
| KeyVal.DelAfterSet | server.go:130-141 | deleting a key just written reports it removed and leaves it absent; a second delete reports it absent |
| KeyVal.SetDetermined | keyval.go:19-25 | the store after a write is the only store that reads back the new binding and answers every other key as before |
| KeyVal.DelDetermined | server.go:131 | the store after a delete is the only store in which the key is unbound and every other key answers as before |
| Protocol.TokensDistinctLower | protocol.go:10-16 | there are exactly five command tokens, pairwise distinct, non-empty and lower-case |
| Protocol.Token | protocol.go:10-39 | every command is named on the wire by one of the five token constants |
| Protocol.TokenNamesVariant | protocol.go:18-39 | a command's wire token identifies its variant: two commands share a token exactly when they are the same variant |
| Bytes.Decimal | protocol.go:44 | the count is rendered as at least one decimal digit with no leading zero |
| Bytes.DecimalRoundTrip | protocol.go:44 | reading the rendered digits back gives the count |
| Protocol.Header | protocol.go:44 | the map header is `%`, the decimal count, then CR LF |
| Resp.SimpleString | protocol.go:48-49 | a simple string is `+`, the text, then CR LF, three bytes longer than the text |
| Resp.SimpleStringRoundTrip | protocol.go:48-49 | a CR-free text framed as a simple string reads back as that text, leaving what follows untouched |
| Protocol.Entry | protocol.go:48-49 | one map entry is `+`, the key, CR LF, then `+:`, the value, CR LF: seven bytes more than key and value together |
| Protocol.Entries | protocol.go:47-50 | the entries written are (key length + 3) + (value length + 4) bytes each, summed over the map |
| Protocol.RespWriteMap | protocol.go:42-53 | the reply starts with `%`, the decimal entry count and CR LF, its length is that header plus the entries' sizes, and an empty map gives exactly `%0\r\n` |
| Protocol.RespWriteMapLengthOrderIndependent | protocol.go:47-50 | the reply length is the same for every order in which Go may iterate the map |
| Protocol.MapReplyRoundTrip | protocol.go:42-53 | reading the reply back yields each key with its value, in iteration order and with the `:` prefix removed, when no key or value holds a CR |
| Dispatch.NewServer | server.go:38-51 | an empty listen address becomes `:5001` and a non-empty one is kept; no peers, an empty store, and not yet stopped by a quit (the loop itself is started later by `Start`, server.go:61) |
| Dispatch.HandleMessage | server.go:81-146 | a nil command writes nothing and changes nothing; HELLO writes the map reply and CLIENT writes OK, neither touching the store; SET binds the key and writes OK; GET leaves the store alone and writes the value or `(nil)`; DEL unbinds the key and writes `1` if it was bound, `0` if not |
| Dispatch.HelloReplyReadsBack | server.go:86-94 | the HELLO reply reads back as exactly one entry, `server` with value `redis` |
| Dispatch.HelloReply | server.go:87-91 | the HELLO reply is the bytes `%1\r\n`, then `+server\r\n`, then `+:redis\r\n` |
| Dispatch.NilReplyAmbiguous | server.go:115-126 | a GET of an absent key and a GET of a key bound to the text `(nil)` write the same bytes |
| Dispatch.Step | server.go:149-170 | a stopped loop ignores events; quit stops it; add inserts the peer and delete removes it, writing nothing; a message leaves the peer set alone, applies handleMessage to the store, and writes its reply, if any, to the message's peer |
| Dispatch.Run | server.go:149-170 | the loop keeps its configuration and writes at most one reply per event received |
| Dispatch.QuitStops | server.go:153-154 | after quit the loop is stopped and no later event changes the server or writes anything |
| Dispatch.Membership | server.go:161-167 | while the loop runs, a peer is in the set exactly when its last add or delete was an add, or, with neither, when it was there at the start |
| Dispatch.AllPeersGone | server_test.go:62-68 | if every peer added to a fresh server is later deleted and no quit arrives, the peer set ends empty |
| Peer.Decode | peer.go:47-84 | a non-array forwards nothing; an empty array, or one shorter than its token needs, panics; otherwise a message is forwarded whose command, if any, is never DEL and whose framing is a prefix of the array; a nil command means the first element is none of the four decoded tokens |
| Peer.Needs | peer.go:54-73 | for a decoded token, the array length the decoder indexes up to is the length of the request that token frames; any other first element needs only itself |
| Peer.DecodeRequest | peer.go:52-77 | a framed HELLO, CLIENT, SET or GET decodes to itself whatever trailing elements follow; a framed DEL decodes to a nil command |
| Peer.UnknownTokenForwardsNil | peer.go:75-83 | a first element that is not exactly one of the four lower-case tokens still forwards a message, with a nil command |
| Peer.Drive | peer.go:34-87 | the loop sends at most one event per value read |
| Peer.DriveShape | peer.go:39-83 | every event but the last is a message from this peer; the loop is closed exactly when its last event is this peer's deletion, so the deletion is announced once |
| Peer.DriveReading | peer.go:37-84 | the loop is still reading exactly when none of the reads so far was end of input, a read error or an array too short for its token |
| Peer.ReadLoop | peer.go:36-84 | the loop, written as a loop, sends the same events and ends the same way as the fold |
| Peer.DriveAppend | peer.go:37-84 | reading in two stretches sends the first stretch's events before the second's, so messages leave in read order |
| Peer.DriveStops | peer.go:39-45 | nothing read after end of input, a read error or a panic is looked at |
| Peer.DriveEOF | peer.go:39-42 | end of input, reached while the loop is still reading, appends this peer's deletion exactly once and closes the loop |
| Scenario.DirectScenario | server.go:102-141 | SET foo bar, GET foo, DEL foo, GET foo and DEL foo, delivered directly, answer OK, bar, 1, (nil) and 0, and the peer set is empty after the peer's deletion |
| Scenario.WireScenario | peer.go:52-83 | sent over a connection, the same requests answer OK, bar and bar: both DELs get no reply and the key stays bound; the peer leaves at end of input |

## Left out

- TCP listening, `Start`, `acceptLoop`, `handleConn`, `Shutdown`, `Peer.Send` and `RemoteAddr`: socket I/O. Replies are returned values, and a peer is a number rather than a connection.
- Goroutines, channels, the fairness of `select` and the store's `sync.RWMutex`: the dispatch loop takes its events as one given sequence. Any interleaving of the peers' sends is such a sequence.
- The RESP reader `ReadValue`: its results are the input of the read loop. An array is given by the bytes of its elements. How a nested array element would render as text is not modelled.
- The RESP writer: `WriteString` is taken to frame its text as `+text\r\n`. Whether the library rejects or rewrites text that holds CR or LF is not modelled. The round trips are stated for CR-free text.
- The byte-level statements `Resp.SimpleString`, `Protocol.Entry`, `Protocol.Entries`, `Dispatch.HelloReply` and `Dispatch.NilReplyAmbiguous` hold only under that framing. The RESP writer library is not part of this model, so the framing is an assumption, not a fact about the library.
- Reply write failures: the error results of `handleMessage` and the logging in `loop` are dropped. A failed write is not modelled.
- The error result of `KV.Set`: it is always nil, so the model's `Set` returns only the new store. The `(null)` reply for a failed SET (server.go:103-105) is therefore unreachable and is not modelled.
- `log.Fatal` and the runtime panic: modelled only as terminal states of the read loop. The process exit that takes down every connection is not modelled.
- Slice aliasing: Go stores and returns the caller's byte slice itself. Values here are immutable.
- All logging and the unused `val` argument of HELLO and CLIENT.
- main.go, which is an earlier draft of the server, and the client package and its tests: neither is part of this model.
