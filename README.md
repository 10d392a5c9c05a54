# grpchat message store, modelled in Dafny

grpchat is a small public chat room served over gRPC. Its server keeps every
message in memory, in a list ordered by arrival, and offers three calls:

- **PublishMessage** builds a message from the sender's username and body. It
  gives the message a fresh UUID and the current UTC time, split into seconds
  and nanoseconds. It appends the message to the tail of the list and answers
  with the UUID.
- **DeleteMessage** scans the list from the oldest message and removes the
  first one whose id begins with the requested string. Everything else stays,
  in order. When nothing matches, the list is untouched and the reply is nil
  instead of an empty `Void`.
- **ListMessages** sends the stored messages to the client's stream in order.
  It stops at the first send that fails and returns that error.

Files:

- `api.dfy` (module `Api`): the protocol's value types `UUID`, `Void`,
  `MessageBody`, `Timestamp` and `Message`, with Go's `int64` and `int32` as
  newtypes.
- `server.dfy` (module `Server`): the specification functions (`HasPrefix`,
  `FirstMatch`, `RemoveAt`, `Deleted`, `NewMessage`, `WrapInt32`), the lemmas
  about them, and the class `Server`. The class has the `msgs` field and the
  three calls as methods. `DeleteMessage` and `ListMessages` are scanning
  loops with invariants; `PublishMessage` is a single append, as in the Go
  code. `Valid()` says that ids are distinct and every timestamp's
  nanoseconds lie in [0, 999 999 999].
- `trace.dfy` (module `Trace`): runs of publish and delete requests, one after
  another. It proves how they change the size, the order of published
  messages, the invariants kept along a run, and the Alice-and-Bob scenario.

The UUID generator and the clock are parameters of `PublishMessage`: an `id`
and an `Instant`. The id must be unused by every stored message. The
instant's nanosecond must be in range, as the clock promises. The client's
stream is a parameter of `ListMessages`: a function `send(k, m)` that gives
the outcome of the k-th send of that call, carrying message `m`.

## Model

| member | source | states |
|---|---|---|
| `Server.Server.constructor` | server/server.go:23-25 | a new server holds no messages and satisfies the store invariant |
| `Server.Server.PublishMessage` | server/server.go:30-53 | the store grows by exactly the new message at its tail, with earlier messages unchanged and in place; the reply's id is the new message's id; distinct ids and in-range nanos are kept |
| `Server.NewMessage` | server/server.go:31-42 | the built message carries the given id, the request's sender username and body unchanged, the clock's Unix seconds, and (for an in-range clock reading) exactly its nanoseconds, which are valid |
| `Server.WrapInt32` | server/server.go:40 | the `int32` conversion agrees with its argument modulo 2^32, and is the identity on values that fit in 32 bits |
| `Server.AppendFreshKeepsDistinct` | server/server.go:33-45 | appending a message whose id no stored message has keeps all ids distinct |
| `Server.HasPrefix` | server/server.go:61 | an id has the prefix exactly when the prefix is no longer than the id and agrees with it character by character; the empty prefix matches every id |
| `Server.FirstMatch` | server/server.go:60-61 | the result is the lowest index whose id has the prefix: that id matches and no earlier one does; it is none exactly when no id matches |
| `Server.RemoveAt` | server/server.go:62-66 | the splice is one shorter, keeps every element before the index and shifts every later one forward by one |
| `Server.Server.DeleteMessage` | server/server.go:56-74 | the new store is the old one with its first prefix match removed (the last-element and middle-element branches agree); a non-nil `Void` is returned exactly when some id matched; the size drops by one on a match and the store is unchanged otherwise; the store invariant is kept |
| `Server.Deleted` | server/server.go:60-73 | the store after a delete is unchanged exactly when no id has the prefix, and exactly one message shorter when some id does |
| `Server.DeleteRemovesOneMessage` | server/server.go:62-66 | on a match, the store afterwards plus the one matched message is, as a multiset, exactly the store before: nothing else is lost, added or duplicated |
| `Server.LaterMatchesRemain` | server/server.go:60-69 | when several ids share the prefix, every match after the first remains, one position earlier |
| `Server.DeleteOmitsOnlyMatch` | server/server.go:60-68 | with distinct ids, the removed message is absent afterwards and every other message is still present |
| `Server.EmptyPrefixDeletesOldest` | server/server.go:61 | the empty prefix matches every id, so on a non-empty store it removes the oldest message |
| `Server.RemoveAtKeepsDistinct` | server/server.go:62-66 | removing one message keeps the remaining ids distinct |
| `Server.DeleteKeepsInvariants` | server/server.go:56-73 | a delete keeps ids distinct and nanos in range |
| `Server.Server.ListMessages` | server/server.go:78-91 | the sends happen in stored order; if one fails, every earlier send succeeded, the failing one is at index `count` and its error is returned, and the stream has received exactly `msgs[..count]`, in order; otherwise every send succeeded, `count` equals the store's size, the stream has received the whole store in order and no error is returned; the store is not modified (the method has no `modifies` clause) |
| `Trace.RunSize` | server/server.go:44-73 | after any run of requests, the size is the starting size plus the publishes minus the deletes that matched |
| `Trace.PublishesAppendInOrder` | server/server.go:44-46 | a run of publishes keeps the old messages and appends exactly the published messages after them, in publish order |
| `Trace.RunKeepsInvariants` | server/server.go:30-74 | when every publish gets an unused id and an in-range clock reading, ids stay distinct and nanos stay in range over the whole run |
| `Trace.AliceAndBob` | server/server.go:30-74 | Alice then Bob publish and the store holds them in that order; the first four characters of Alice's id match her message first, whatever Bob's id is, and deleting by them leaves only Bob's message |
| `Trace.AliceAndBobSession` | server/server.go:23-91 | the same session against a server object: the first listing sends both messages, the delete by Alice's four-character prefix answers with a `Void`, and the store then holds only Bob's message |

## Left out

- The mutex (server/server.go:19, 44-46, 57-58): the model is sequential.
  `ListMessages` reads `msgs` without taking the lock (server/server.go:81), so
  the code takes no snapshot under a lock. The model claims no snapshot
  isolation against concurrent publishes or deletes.
- `uuid.New()` and `time.Now()`: foreign calls, so they are the `id` and
  `now` parameters. The library makes UUIDs unique only with high probability,
  so freshness is a precondition here, not a theorem.
- `Server.Server.PublishMessage`: it requires the id to be unused only by the
  messages stored at that moment. It does not promise that an id differs from
  ids of messages already deleted.
- The clock's nanosecond range [0, 999 999 999] is assumed: it is a
  precondition of `PublishMessage` and part of `Valid()`.
- Logging, including the `id[:8]` slices that only feed log lines
  (server/server.go:48-51, 67, 72, 79, 83, 89). The model takes ids of any
  length. The Go code would panic on a stored id shorter than 8 bytes, which a
  UUID string never is.
- The client's stream is a function of the send index and the message. A real
  stream has hidden state, but within one call its outcomes form such a
  function. The transport that carries the messages is not modelled.
- `main` (server/server.go:93-104): listening and gRPC registration are
  network I/O.
- `client/client.go`: a command-line client that only does I/O.
- The protobuf runtime in `api/messenger.pb.go` (reflection, descriptors,
  nil-safe getters). A nil request reads as empty strings through the
  getters, which is the same as a request whose fields are empty.
- `strings.HasPrefix` compares bytes. The model compares characters, and ids
  and prefixes are `seq<char>`.
- A delete that finds no match returns a nil reply with a nil error, and a
  delete that removes a message returns an empty `Void` with a nil error.
  Neither path fails, and a caller that looks only at the error cannot tell
  "not found" from a successful delete. A design with an explicit not-found
  result was considered. The model follows the code: `DeleteMessage` returns
  `None` in that case.
