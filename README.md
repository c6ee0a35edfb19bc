# hash-nimbus key-value front-ends, modelled in Dafny

The repository holds two small programs. Each drives a replicated key-value
store through an external replication engine.

- `cmd/kvapi` is an HTTP front-end. It has its own binary command codec: a
  one-byte kind, then the key length (8 bytes, little-endian), the key, the
  value length and the value. Its `StateMachine` decodes a command, stores a
  Set, answers a Get or reports "Key not found", and rejects any other kind.
  `getHandler` serves reads in one of two ways. A relaxed read uses the local
  map. A linearizable read goes through the engine and checks the shape of
  the engine's reply. Either way, the handler then writes the value until
  every byte is out.
- `cmd/stress` is a cluster stress harness. Its codec has a 19-byte
  preamble: the ASCII tag `"get"` or `"set"`, the key length and the value
  length. A Get leaves the value-length field as 8 zero bytes. Its
  `kvStateMachine` tries a message as a Set, then as a Get, and panics on
  anything else. The harness cuts the workload into batches. When the
  cluster is done, it checks that every node holds every entry's value.

The two wire layouts are incompatible and belong to different programs.
They are modelled in separate modules (`KvApiCodec` and `StressCodec`).
They share only `GoBytes`, which models Go bytes and strings and the
`encoding/binary` little-endian helpers.

Modelling choices:

- A Go string or `[]byte` is a `seq<byte>`, where `byte` is a newtype over
  0..255. `len` is the byte length.
- Go's runtime panics are explicit values, not preconditions: `OutOfRange`
  when a slice bound runs past the end, and `Panicked` in the state
  machines. This covers the panics of `decodeCommand` and both stress
  decoders, and `panic("Unknown state machine message.")`.
- The state machines are classes with a `map<GoString, GoString>` field.
  Each `Apply` method is proved against a pure `Step` function, and the
  lemmas about `Step` state what `Apply` promises.
- The engine is a parameter, `apply: seq<seq<byte>> -> EngineReply`. The
  HTTP response writer is a class whose `Write` may accept any prefix and may
  fail.
- The two encoders require each length to fit its `uint64` field. Every Go
  string meets this, since `len` returns an `int`.

Where what the code does differs from its evident intent, the model
follows the code:

- The decoder never reads the value-length field of a non-Set, so that
  field looks meant for Sets only. Even so, `encodeCommand` writes it for
  every kind (cmd/kvapi/main.go:95-100), and so does
  `KvApiCodec.EncodeCommand`.
- A malformed message is not reported as an error. The code panics on a
  slice bound past the end, modelled as `OutOfRange` / `Panicked`.
- A state machine that applies a log keeps each key's *last* Set, so that
  is evidently what the harness means to check. The code asserts every
  entry's value instead (see Findings).

## Model

| member | source | states |
|---|---|---|
| GoBytes.PutUint64 | cmd/kvapi/main.go:88-91 | the 8 little-endian bytes written for a `uint64` read back as that number |
| GoBytes.Uint64 | cmd/kvapi/main.go:113 | 8 bytes read as a `uint64` give a number below 2^64 |
| GoBytes.PutUint64OfUint64 | cmd/stress/main.go:51 | a length field is uniquely determined by the number it holds (re-encoding what was read gives the same bytes) |
| KvApiCodec.EncodeCommand | cmd/kvapi/main.go:81-103 | byte 0 is the kind; bytes 1..9 read as `len(key)`, then the key; the next 8 bytes read as `len(value)`, then the value; total length `17+len(key)+len(value)`, a Get included |
| KvApiCodec.DecodeCommand | cmd/kvapi/main.go:109-122 | a message shorter than 9 bytes panics; whatever it decodes lies within the message (kind, key and, for a Set, both length fields and the value); a non-Set comes out with an empty value. `DecodeCommandSound` and the Prefix lemmas below characterise its result exactly |
| KvApiCodec.DecodeCommandSound | cmd/kvapi/main.go:109-122 | whatever the decoder returns re-encodes to a prefix of the message: the whole encoding for a Set, up to the key for any other kind, whose value is empty |
| KvApiCodec.DecodeSetPrefix | cmd/kvapi/main.go:109-122 | every message that starts with a Set's encoding decodes to that Set (the converse of `DecodeCommandSound`) |
| KvApiCodec.DecodeOtherPrefix | cmd/kvapi/main.go:109-115 | for a non-Set kind, a message holding the kind, key length and key decodes to that command with an empty value; the value field is never read |
| KvApiCodec.RoundTrip | cmd/kvapi/main.go:81-122 | `decodeCommand(encodeCommand(c))` is `c` for a Set, and `c` with its value emptied for any other kind, so a Get built with an empty value round-trips exactly |
| KvApiCodec.TruncatedSetRejected | cmd/kvapi/main.go:113-119 | every strict prefix of a Set encoding is rejected as `OutOfRange` |
| KvApiCodec.TruncatedOtherRejected | cmd/kvapi/main.go:113-114 | a prefix of a non-Set encoding decodes exactly when it holds at least `9+len(key)` bytes |
| KvApiStateMachine.Step | cmd/kvapi/main.go:59-76 | a panic or an error leaves the store unchanged; only a call that returns `(nil, nil)` changes it; no key is ever removed. `ApplySet`, `ApplyGet`, `ApplyUnknown` and `ApplyTruncated` give each case |
| KvApiStateMachine.ApplySet | cmd/kvapi/main.go:62-75 | a Set returns `(nil, nil)`, stores key→value and leaves every other key as it was |
| KvApiStateMachine.ApplyGet | cmd/kvapi/main.go:65-70 | a Get returns the stored value, or "Key not found" when the key is absent, and leaves the map unchanged |
| KvApiStateMachine.ApplyUnknown | cmd/kvapi/main.go:71-72 | any kind other than Set and Get returns an error and leaves the map unchanged |
| KvApiStateMachine.ApplyTruncated | cmd/kvapi/main.go:60 | a truncated Set makes `Apply` panic in decoding, with the map unchanged |
| KvApiStateMachine.LastWriteWins | cmd/kvapi/main.go:62-70 | Set(k,a), Set(k,b), Get(k) applied in order answer nil, nil, b |
| KvApiStateMachine.EmptyStoreNotFound | cmd/kvapi/main.go:66-68 | a Get on an empty store answers "Key not found" |
| KvApiStateMachine.StateMachine.Apply | cmd/kvapi/main.go:59-76 | the new `db` and the returned outcome are those of `Step` on the old `db` |
| KvApiHttp.GetBatch | cmd/kvapi/main.go:139-154 | the linearizable path submits one command, which decodes to a Get of the key with an empty value |
| KvApiHttp.ReadValue | cmd/kvapi/main.go:145-164 | relaxed: the local value, or not-found exactly when the key is absent; linearizable: an engine error unchanged, else a count error when the count is not 1, else the one result's error unchanged, else success with value `results[0].Result` |
| KvApiHttp.LinearizableMatchesRelaxed | cmd/kvapi/main.go:145-164 | if the engine applies the Get to a state machine holding `db`, the linearizable read gives the same value as a relaxed read of `db`, and on a missing key both give their not-found error |
| KvApiHttp.ResponseWriter.Write | cmd/kvapi/main.go:174 | the writer sends a prefix of what it is given, possibly a short one, and sends at least one byte of a non-empty buffer unless it fails; each failure is counted |
| KvApiHttp.WriteAll | cmd/kvapi/main.go:172-181 | partial writes are retried; the loop gives up exactly when a `Write` fails, after one failure and with a prefix of the value sent; otherwise all of the value is sent |
| KvApiHttp.GetHandler | cmd/kvapi/main.go:138-182 | a failed read writes none of the value and calls no `Write` (the `http.Error` reply is not modelled); a successful read writes the value in full, and reports a write failure exactly when a `Write` failed |
| StressCodec.EncodeGet | cmd/stress/main.go:28-39 | length `19+len(k)`; starts with "get"; bytes 3..11 read as `len(k)`; bytes 11..19 are zero; then the key |
| StressCodec.EncodeSet | cmd/stress/main.go:57-71 | length `19+len(k)+len(v)`; starts with "set"; `len(k)` at 3..11, `len(v)` at 11..19; then the key, then the value |
| StressCodec.Zeros | cmd/stress/main.go:29-34 | `make([]byte, n)` gives `n` zero bytes |
| StressCodec.CopyAt | cmd/stress/main.go:35-37 | `copy(buf[at:], src)` with room for `src` replaces the bytes at `at` by `src` and keeps the length and all other bytes |
| StressCodec.DecodeGet | cmd/stress/main.go:41-44 | a message shorter than 3 bytes is not a Get |
| StressCodec.DecodeSet | cmd/stress/main.go:73-76 | a message shorter than 3 bytes is not a Set |
| StressCodec.DecodeGetSound | cmd/stress/main.go:41-55 | a key the Get decoder returns re-encodes to the bytes it came from, apart from the 8 ignored bytes |
| StressCodec.DecodeSetSound | cmd/stress/main.go:73-90 | a pair the Set decoder returns re-encodes to a prefix of the message |
| StressCodec.DecodeGetPrefix | cmd/stress/main.go:41-55 | any message with the Get tag, key length and key decodes to that key, whatever its reserved bytes hold |
| StressCodec.DecodeSetPrefix | cmd/stress/main.go:73-90 | any message that starts with a Set encoding decodes to its key and value |
| StressCodec.RoundTrip | cmd/stress/main.go:28-90 | `decodeKvsmMessage_Get(encodeKvsmMessage_Get(k)) == (true,k)` and `decodeKvsmMessage_Set(encodeKvsmMessage_Set(k,v)) == (true,k,v)` |
| StressCodec.TagsExclusive | cmd/stress/main.go:46-49 | the Get decoder returns false on every Set encoding, and the Set decoder on every Get encoding |
| StressCodec.TruncatedSetRejected | cmd/stress/main.go:83-87 | every strict prefix of a Set encoding that keeps the tag panics rather than reading past the end |
| StressCodec.TruncatedGetRejected | cmd/stress/main.go:51-52 | a prefix of a Get encoding that keeps the tag decodes exactly when it is the whole encoding, and otherwise panics |
| StressStateMachine.ApplySet | cmd/stress/main.go:96-98 | a Set message returns nothing, stores key→value and leaves every other key as it was |
| StressStateMachine.ApplyGet | cmd/stress/main.go:99-100 | a Get message returns `kv[key]` (or "") and leaves the map unchanged |
| StressStateMachine.ApplyUnknown | cmd/stress/main.go:101-103 | a message that is neither a Set nor a Get panics |
| StressStateMachine.Step | cmd/stress/main.go:92-105 | a panic leaves the map unchanged; only a call returning nothing (a Set) changes it; no key is ever removed. `ApplySet`, `ApplyGet` and `ApplyUnknown` give each case |
| StressStateMachine.KvStateMachine.Apply | cmd/stress/main.go:92-105 | the new `kv` and the outcome are those of `Step` on the old `kv` |
| StressStateMachine.KvStateMachine.constructor | cmd/stress/main.go:22-26 | a new state machine has an empty map |
| StressHarness.SplitBatches | cmd/stress/main.go:197-206 | with a positive batch size, the batches are non-empty and at most that size, all but the last are exactly that size, and their concatenation is `allEntries` in order |
| StressHarness.EntryFields | cmd/stress/main.go:249 | reading an entry's fields panics exactly when the Set decoder does |
| StressHarness.EntryHeld | cmd/stress/main.go:249-252 | the assertion fails for an entry whose decoding panics; an entry that is not a Set is read as `("", "")` and passes exactly when the node maps "" to "" or not at all |
| StressHarness.SetEntryHeld | cmd/stress/main.go:249-252 | for an encoded Set entry the assertion holds exactly when `sm.kv[key]` is the entry's value |
| StressHarness.CheckNodes | cmd/stress/main.go:250-253 | no node is reported exactly when every node holds the value for the key; otherwise the reported node is the first, in order, that does not |
| StressHarness.ValidateStateMachines | cmd/stress/main.go:248-254 | passes exactly when every entry decodes and every node holds every entry's value; otherwise it names the first failure in entry-then-node order: every earlier entry decoded and held on every node, and for a stale node every earlier node held the entry |
| StressHarness.ReplaySetLast | cmd/stress/main.go:97 | replaying a log that ends with a Set stores that Set last |
| StressHarness.ReplayHoldsLastWrites | cmd/stress/main.go:248-254 | after Set entries are replayed in order, each key holds the value of its last Set |
| StressHarness.DistinctKeysPass | cmd/stress/main.go:248-254 | with distinct keys, a node that replayed the Set entries passes the harness's per-entry check |
| StressHarness.RepeatedKeyFailsCheck | cmd/stress/main.go:248-254 | with a key set twice to different values, a node that replayed the log holds every last write but fails the per-entry check |

## Left out

- The replication engine (`protoraft`/`goraft`: `NewServer`, `Start`, `Apply`, `Shutdown`, `Metadata`, `Id`, `ErrApplyToLeader`) is a foreign library. The engine's `Apply` is a function parameter, and its errors are the opaque `EngineError`.
- `setHandler` (cmd/kvapi/main.go:125-136) only forwards a Set to the engine and logs any error, so it is not modelled. `http.Error`, status codes and logging are not modelled either; `Response` only records which exit the handler took.
- Error message texts are not modelled; errors are datatype constructors. The relaxed path's "key not found" and the state machine's "Key not found" are different errors (`LocalKeyNotFound`, `KeyNotFound`). The unknown-kind message is built with `%x` but no argument, and that text is not modelled.
- `getConfig` (cmd/kvapi/main.go:184-236) and the empty `main` are argument-parsing glue and are not modelled.
- Concurrency is not modelled: `sync.Map`, the state machine's mutex, goroutines and `sync.WaitGroup`. The stores are plain maps. The relaxed read gets the map as a parameter, so the model does not capture that `HTTPServer.db` and `StateMachine.db` are evidently meant to share one map; the source never builds either struct, since `main` is empty (cmd/kvapi/main.go:238-240).
- Go checks a slice expression against the slice's capacity, not its length. The model treats every message's capacity as its length, so a bound past the length is `OutOfRange`.
- KvApiHttp.ResponseWriter.Write: a `Write` that does not fail is assumed to accept at least one byte of a non-empty buffer. A writer that returned `(0, nil)` would make the Go loop spin forever, and the model does not cover that. Short writes without an error, which `io.Writer` forbids but the loop retries, are covered.
- The stress harness's remaining steps are not modelled: deleting `.dat` files, profiling, bring-up, `waitForLeader`, the leader retry loop (sleeps, timing, `float64` throughput), `validateAllCommitted`, `validateUserEntries`, `debugEntry`, the "Validating get" step (cmd/stress/main.go:256-273), and the shutdown/restart and log-deletion rounds. They are I/O, timing or calls to helpers that are not part of this model. `randomString` is not part of this model either.
- StressHarness.SplitBatches: the loop runs while `i < len(allEntries)`. The source bounds it by `N_ENTRIES`, which equals `len(allEntries)` by construction (cmd/stress/main.go:170-175). A batch size of zero (`MAX_APPEND_ENTRIES_BATCH < N_CLIENTS`) would make the Go loop spin forever, and the method requires a positive size.
- Submission order across concurrent clients is decided by the engine, so it is not modelled. `ReplayHoldsLastWrites` takes the committed log as given.

## Findings

| source | as written | input that shows it | evidently intended | confidence | as-written member | corrected member |
|---|---|---|---|---|---|---|
| cmd/stress/main.go:248-254 | for every Set entry, asserts on every node that `sm.kv[key]` equals that entry's value | entries `Set(k,"a")`, `Set(k,"b")`: a correct node holds `k→"b"`, and the assertion for the first entry fails | each key holds the value of its last Set (later Sets win), so only the last Set of each key is checked | medium, not executed; it only shows up if `randomString` repeats a key | StressHarness.RepeatedKeyFailsCheck | StressHarness.ReplayHoldsLastWrites |
