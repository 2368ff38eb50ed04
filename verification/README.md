# Service-map receiver and Sumo Logic fields, in Dafny

This project models two small pieces of the Sumo Logic OpenTelemetry collector
and proves what they promise.

**The service-map receiver** (`ServiceMap`, in `servicemap.dfy`). It observes
socket exchanges between two endpoints and turns each one into a message. The
endpoint with the higher port is labelled the client. The receiver keeps the
messages in a cache. On each flush tick it hands the whole cache over as one
batch: traces are built from the batch and dispatched to the downstream
consumer. The model proves three things:

- The classification rule holds and fixes the roles uniquely.
- The cache loses and duplicates nothing. The `Receiver` class keeps a ghost
  history of every message added and every batch drained. Its invariant
  `Valid()` states that the drained batches, followed by the cache, are
  exactly the messages added.
- Batches of distinct messages never overlap.

**The Sumo Logic fields** (`SumoFields`, in `fields.dfy`). This is the
exporter's attribute map, rendered as one `key=value, key=value` string.
Each key and value is sanitised: `,` and line breaks become `_`, and `=`
becomes `:`. The three source keys and empty values are skipped. The entries
are sorted and joined with `", "`. The model proves these properties:

- Sanitising is pointwise, removes the three bytes and is idempotent.
- Every entry comes from a rendered attribute and holds exactly one `=`.
- The rendered string splits back into its sorted entries.
- The string is empty exactly when nothing is rendered.
- The map's visiting order never shows in the string.
- `equals` is map equality, for maps without repeated keys.

`Text` (`text.dfy`) holds the parts of Go's standard library that the
formatter uses. These are the byte-wise string order, `sort.Strings` (modelled
by its result: a sorted permutation, which is unique) and `strings.Join`.
It also defines a splitting function that is the inverse of the join.

Strings are `seq<char>`, so keys and values are taken to be valid UTF-8.
Go's `sanitizeField` works on bytes. `,`, `=` and `\n` are ASCII bytes, and
they never occur inside a multi-byte UTF-8 sequence, so on valid UTF-8
rewriting them character by character does the same as rewriting them byte by
byte. For the same reason, on valid UTF-8 Go's byte-wise string order equals
the code-point order used here.

Two points of the receiver's behaviour are worth stating:

- On equal ports, the source endpoint is the client. This tie-break is the
  `else` branch of `buildMessage`.
- receiver.go declares `ErrAlreadyStarted` and `ErrAlreadyStopped` but never
  returns them, so there is no start/stop state machine to model.

The Go receiver caches `*ebpfmessage` pointers, and two separate allocations
are never the same entry even when their contents are equal. The model holds
message values, so `Distinct` (used by `BatchesDisjoint` and
`HistoryDisjoint`) stands for that pointer identity. The positional guarantee
that nothing is lost or duplicated, `Receiver.Valid()`, needs no such
assumption and holds unconditionally.

## Model

| member | source | states |
|---|---|---|
| `ServiceMap.BuildMessage` | pkg/receiver/servicemapreceiver/receiver.go:140-160 | the client port is at least the server port; the client and server (address, port) pairs are exactly the two observed pairs, each address with its own port; on equal ports the source is the client; payload and receipt time are passed through; process names, status code, operation, path, trace and parent span ids are left at their zero values |
| `ServiceMap.ClassificationUnique` | pkg/receiver/servicemapreceiver/receiver.go:141-159 | any two messages that follow the port rule for the same observation agree on client and server, so the rule leaves no choice |
| `ServiceMap.BuildMessageRoles` | pkg/receiver/servicemapreceiver/receiver.go:141-158 | a lower source port makes the destination the client and the source the server; otherwise, equal ports included, the source is the client |
| `ServiceMap.BuildMessageSymmetric` | pkg/receiver/servicemapreceiver/receiver.go:141-158 | on distinct ports the message does not depend on which endpoint was reported as the source |
| `ServiceMap.BatchesDisjoint` | pkg/receiver/servicemapreceiver/receiver.go:108-113 | when no message of a run of batches occurs twice, no two batches share a message |
| `ServiceMap.HistoryDisjoint` | pkg/receiver/servicemapreceiver/receiver.go:107-138 | in a history kept by the receiver (drained batches followed by the cache equal the messages added), distinct messages are handed over in at most one batch |
| `ServiceMap.Receiver.constructor` | pkg/receiver/servicemapreceiver/receiver.go:70-80 | a new receiver has an empty cache and an empty history |
| `ServiceMap.Receiver.AddMessage` | pkg/receiver/servicemapreceiver/receiver.go:131-138 | the cache becomes the old cache followed by the message; the no-loss invariant is kept |
| `ServiceMap.Receiver.Drain` | pkg/receiver/servicemapreceiver/receiver.go:108-113 | the batch is the whole cache as it was and the cache becomes empty, so a second drain with no add in between returns an empty batch; the batch is recorded as delivered and the no-loss invariant is kept |
| `ServiceMap.Receiver.DumpData` | pkg/receiver/servicemapreceiver/receiver.go:107-121 | drains as `Drain` does; the consumer is called exactly when one is attached and the traces built from the batch hold at least one span |
| `SumoFields.SanitizeChar` | pkg/exporter/sumologicexporter/fields.go:92-99 | the result is never `,`, `=` or a line break, and every other character is left as it is |
| `SumoFields.SanitizeField` | pkg/exporter/sumologicexporter/fields.go:90-102 | rewrites the buffer in place into its sanitised form; its length is kept and nothing outside it changes |
| `SumoFields.SanitizedPointwise` | pkg/exporter/sumologicexporter/fields.go:91-101 | sanitising keeps the length and maps every position on its own |
| `SumoFields.SanitizedClean` | pkg/exporter/sumologicexporter/fields.go:91-100 | a sanitised key or value holds no `,`, `=` or line break |
| `SumoFields.SanitizedIdempotent` | pkg/exporter/sumologicexporter/fields.go:91-101 | sanitising twice gives what sanitising once gives |
| `SumoFields.SanitizedKeepsClean` | pkg/exporter/sumologicexporter/fields.go:92-99 | a key or value without the three characters passes unchanged |
| `SumoFields.Fields.String` | pkg/exporter/sumologicexporter/fields.go:49-86 | the loop over the attributes collects the entries, sanitising key and value in place, and the result is the sorted entries joined with `", "` |
| `SumoFields.EntryShape` | pkg/exporter/sumologicexporter/fields.go:67-75 | an entry holds exactly one `=`, no `,` and no line break, and is never empty |
| `SumoFields.EntriesSound` | pkg/exporter/sumologicexporter/fields.go:52-82 | every entry is `Sanitized(key) + "=" + Sanitized(value)` of an attribute whose key is not a source key and whose value is not empty |
| `SumoFields.EntriesComplete` | pkg/exporter/sumologicexporter/fields.go:52-82 | every attribute with a non-source key and a non-empty value has its entry |
| `SumoFields.EntriesEmpty` | pkg/exporter/sumologicexporter/fields.go:56-65 | no entry is collected exactly when every attribute has a source key or an empty value |
| `SumoFields.EntriesPermute` | pkg/exporter/sumologicexporter/fields.go:52-82 | ranging over the map in another order collects the same entries in another order |
| `SumoFields.FormattedShape` | pkg/exporter/sumologicexporter/fields.go:83-85 | the string splits back, at its commas, into exactly the entries in ascending order, each holding one `=` |
| `SumoFields.FormattedEmpty` | pkg/exporter/sumologicexporter/fields.go:50-85 | the string is empty exactly when no attribute is rendered (in particular for an empty map) |
| `SumoFields.FormattedOrderFree` | pkg/exporter/sumologicexporter/fields.go:52-85 | two maps holding the same pairs in any order render as the same string |
| `SumoFields.AsMap` | pkg/exporter/sumologicexporter/fields.go:45 | the raw map has exactly the keys of the pairs, and the final pair's key takes the final pair's value |
| `SumoFields.AsMapLastWins` | pkg/exporter/sumologicexporter/fields.go:45 | every key takes the value of its last pair, as assigning each pair in turn leaves it |
| `SumoFields.AsMapHolds` | pkg/exporter/sumologicexporter/fields.go:45 | for a map without repeated keys, the raw map gives a key a value exactly when that pair is in the map |
| `SumoFields.AsMapSize` | pkg/exporter/sumologicexporter/fields.go:41-45 | for a map without repeated keys, the raw map has as many keys as the map has attributes |
| `SumoFields.SameMapSamePairs` | pkg/exporter/sumologicexporter/fields.go:41-45 | for maps without repeated keys, the raw maps are equal exactly when both hold the same pairs, and then the maps are equally long |
| `SumoFields.Fields.IsEmpty` | pkg/exporter/sumologicexporter/fields.go:36-38 | fields are empty exactly when their raw map has no key, and empty fields render as the empty string |
| `SumoFields.Fields.Equals` | pkg/exporter/sumologicexporter/fields.go:40-46 | for maps without repeated keys, `equals` holds exactly when the raw maps are equal, and exactly when both hold the same pairs; the length test only short-cuts this |
| `SumoFields.EqualsFormatsAlike` | pkg/exporter/sumologicexporter/fields.go:40-86 | equal fields render as the same string |
| `Text.SortStrings` | pkg/exporter/sumologicexporter/fields.go:83 | the sorted entries are in ascending byte-wise order and are a permutation of the entries |
| `Text.SortedUnique` | pkg/exporter/sumologicexporter/fields.go:83 | any two sorted permutations of the same strings are equal, so the result does not depend on the sorting algorithm |
| `Text.UnjoinJoin` | pkg/exporter/sumologicexporter/fields.go:85 | joining non-empty, comma-free parts with `", "` and splitting them again gives back the parts |

## Left out

- The mutex, the ticker goroutine with its five-second interval and `select`, and the `cancel` call in `Shutdown` (receiver.go:83-105, 124-129). These are concurrency and lifecycle matters. Each operation is one atomic step here.
- The start/stop state machine. receiver.go declares `ErrAlreadyStarted` and `ErrAlreadyStopped` but never returns them.
- Clock reads (`time.Now()`). The receipt time is the `now` parameter of `BuildMessage`.
- The HTTP regular expressions (receiver.go:74-77) and the logger. The code that applies the expressions is not part of this model.
- `buildTraces`, `run` and `ConsumeTraces` are not part of this model. `DumpData` takes the span count of the built traces as a function of the batch and reports whether the consumer was called.
- The traces consumer is attached outside receiver.go, so the constructor takes whether one is attached.
- `translateAttributes` (fields.go:105-107) calls a function that is not part of this model.
- The source-key constants are declared in a file that is not part of this model. The model uses `_sourceCategory`, `_sourceHost` and `_sourceName`. No proof depends on these values.
- SumoFields.Fields.Equals: compares attribute values by their `AsString()` form, which is coarser than `cmp.Equal` on typed values (an integer `1` and a string `"1"` compare equal here), because attribute values are represented by their string form throughout.
- The visiting order of `Range` is the order of the pair sequence. The internals of `pdata.AttributeMap` are not part of this model.
- Keys and values that are not valid UTF-8. Go strings and `[]byte` buffers may hold any bytes, but strings here are `seq<char>`, so such input is outside the model, and the byte-wise order and byte-wise sanitising agree with the character-wise ones only on valid UTF-8.
- `sort.Strings` is modelled by its result (`Text.SortStrings`), not by Go's in-place sorting algorithm.
