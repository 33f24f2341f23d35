# Inclusion-constraint cache and commitments-RPC authentication, in Dafny

This project models two small pieces of the bolt stack and proves properties about them.

**The relay's constraint cache** (`mev-boost/server/constraints.go`). A `ConstraintCache` keeps the inclusion constraints that proposers submit, keyed by slot. For each slot it holds a map from transaction hash to `Constraint`: the raw transaction plus an optional index. The slot map lives in a fixed-capacity least-recently-used cache (hashicorp/golang-lru v2). The cache operations are:
- create the cache;
- add one constraint;
- add a batch of constraints;
- read a slot;
- find a constraint by hash across all slots.

**The sidecar's commitments endpoint** (`bolt-sidecar/src/api/commitments/server.rs`). This is the decision logic of the JSON-RPC handler:
- `auth_from_headers` reads the signer and signature from the header value `<address>:<signature>`;
- `handle_rpc` authenticates the request, routes it on the method name, and for an inclusion request checks the recovered signer against the header signer before forwarding.

Files:
- `common.dfy`: `Option`, `Result`, and the `byte` and `uint64` types.
- `lru.dfy`: module `Lru`. The LRU cache as a value, `Cache(order, items, size)`. `order` lists the keys from least to most recently used. Its operations are `Touch` (the recency effect of `Get`), `Add` (including eviction), `Update` and `Values`.
- `constraints.dfy`: module `Constraints`.
  - The constraint data types.
  - The decoder, modelled as a partial map from transaction bytes to hash.
  - Specification functions for each step of a write (`Prepared`, `Written`, `Inserted`, `Merge` and `FirstUndecodable`), and `FindIn` for the lookup.
  - The class `ConstraintCache`. Its one mutable field is the LRU state. Its methods are proved against those functions.
- `commitments_server.dfy`: module `CommitmentsServer`. Header lookup, `to_str`, string splitting, `ParseAuth`/`AuthFromHeaders`, `AdmitInclusion` and `HandleRpc`, all as pure functions.

Modelling decisions:
- A Go map is a reference: `Get` returns the cached map itself, and the add methods write into it. The model expresses this as `Lru.Update`, which replaces the slot's value in place and keeps the recency order. The batch method performs this update after every constraint it writes, as the Go loop does.
- Transaction decoding plus Keccak hashing is passed to every writing method as a parameter (`Decoder`).
- On the endpoint side, these are the fields of an `Env` parameter:
  - the address and signature parsers;
  - JSON decoding of the request;
  - the request digest;
  - signer recovery;
  - the commitment service.
- The endpoint's constants are the fields of an `ApiConstants` parameter: the header name, the two method names and the package version.

## Model

| member | source | states |
|---|---|---|
| `Lru.New` | mev-boost/server/constraints.go:48-52 | a new LRU cache of positive capacity is valid, has that capacity and holds no slot |
| `Lru.Touch` | mev-boost/server/constraints.go:98-100 | the recency effect of `Get`: no slot's map and not the capacity change, a cached slot becomes the most recently used, and a `Get` of a missing slot changes nothing |
| `Lru.TouchSpec` | mev-boost/server/constraints.go:98-100 | `Get` keeps the invariant, every slot's value and the number of slots. A cached slot is taken out of its place in the recency order and appended, and the other slots keep their relative order |
| `Lru.Add` | mev-boost/server/constraints.go:57-59 | `Add` keeps the capacity; the added key, when present afterwards, holds the new value, and in a cache of positive capacity it is the most recently used |
| `Lru.AddSpec` | mev-boost/server/constraints.go:57-59 | `Add` keeps the invariant and capacity and makes the key the newest, holding the new value. It evicts exactly when the key is new and the cache is full, and then only the least recently used key, which is never the added one. A cached key moves in the recency order as with `Get`; a new key is appended to the old order, less its first key on eviction. Nothing else changes |
| `Lru.EvictsLeastRecent` | mev-boost/server/constraints.go:57-59 | eviction follows recency: after a `Get` of another slot, adding a new slot to a full cache evicts the slot that was least recently used before, and keeps the slot just read and every other slot |
| `Lru.Update` | mev-boost/server/constraints.go:69-73 | a write through the map `Get` returned keeps the recency order and the capacity, gives a cached slot the new map, and stores nothing for a missing slot |
| `Lru.UpdateSpec` | mev-boost/server/constraints.go:69-73 | a write through the map `Get` returned changes that slot's value only and keeps the recency order and the invariant |
| `Lru.UpdateTwice` | mev-boost/server/constraints.go:91 | two writes through the same cached map amount to the last one |
| `Lru.TouchNewest` | mev-boost/server/constraints.go:69 | a `Get` of the slot that is already the most recently used changes nothing |
| `Lru.TouchedKeySurvives` | mev-boost/server/constraints.go:43-44 | a slot just read with `Get` survives adding a new slot to a full cache, provided the cache holds another slot that can be evicted |
| `Lru.Values` | mev-boost/server/constraints.go:104 | `Values()` has one entry per cached slot, and every cached slot's map appears at that slot's position in the recency order, from least to most recently used |
| `Constraints.SurvivorsSpec` | mev-boost/server/constraints.go:57-58 | every slot that survives a write to another slot was cached before and keeps its map |
| `Constraints.Prepared` | mev-boost/server/constraints.go:57-59 | the `Get`-then-`Add` preamble keeps the capacity and leaves the slot newest; the slot, when present, holds its earlier map, or an empty one |
| `Constraints.PreparedSpec` | mev-boost/server/constraints.go:56-59 | the `Get`-then-`Add` preamble keeps the invariant and capacity. Afterwards the slot is present, newest, and holds its earlier map (or a new empty one); every other slot keeps its map, except the least recently used one when a missing slot meets a full cache |
| `Constraints.RejectedWriteEvicts` | mev-boost/server/constraints.go:56-67 | the slot is created before decoding, so a write that is later rejected still evicts the least recently used slot when it targets a new slot in a full cache, and leaves an empty map behind |
| `Constraints.Written` | mev-boost/server/constraints.go:69-73 | writing a map into the prepared slot keeps the capacity, leaves the slot newest, and the slot holds the written map |
| `Constraints.WrittenSpec` | mev-boost/server/constraints.go:69-73 | writing a map into the prepared slot keeps the invariant and capacity, leaves the slot newest and holding that map, and keeps the surviving slots |
| `Constraints.WriteIsolated` | mev-boost/server/constraints.go:80-91 | per-slot isolation: after a write to a slot, every other cached slot was cached before, with the same constraints |
| `Constraints.Rewritten` | mev-boost/server/constraints.go:84-91 | a further write through the same reference replaces the earlier written map; this is the step of the batch loop |
| `Constraints.Inserted` | mev-boost/server/constraints.go:69-73 | after a successful single write, the slot's map holds the new constraint under its hash |
| `Constraints.InsertedSpec` | mev-boost/server/constraints.go:56-76 | a successful single write puts the constraint under its hash in the slot and keeps the slot's other entries. The slot becomes newest, the capacity is never exceeded, and other slots are untouched except for the eviction |
| `Constraints.InsertedSlot` | mev-boost/server/constraints.go:69-73 | after a successful write the slot is present, holding its previous map with the hash mapped to the new constraint |
| `Constraints.SameHashOverwrites` | mev-boost/server/constraints.go:70-73 | writing two constraints with the same hash to one slot leaves one entry for that hash, holding the later constraint and so its index |
| `Constraints.FirstUndecodable` | mev-boost/server/constraints.go:85-90 | the position at which a batch stops: every earlier constraint decodes, and the one at that position (if any) does not |
| `Constraints.FirstUndecodableUnique` | mev-boost/server/constraints.go:85-90 | that stopping position is the only one with this property |
| `Constraints.Merge` | mev-boost/server/constraints.go:85-92 | the batch's writes into a slot's map only add or replace entries: every hash it held before is still there |
| `Constraints.MergeStep` | mev-boost/server/constraints.go:91 | writing one more constraint of the batch adds it under its hash to the map built so far |
| `Constraints.MergeKeys` | mev-boost/server/constraints.go:85-92 | after the batch's writes, a hash is in the slot exactly when it was there before or one of the written constraints has it |
| `Constraints.MergeLastWins` | mev-boost/server/constraints.go:91 | within a batch, the last written constraint with a given hash is the one stored under it |
| `Constraints.MergeUntouched` | mev-boost/server/constraints.go:85-92 | an entry whose hash no written constraint has keeps its constraint |
| `Constraints.BatchNotAtomic` | mev-boost/server/constraints.go:85-92 | when a batch stops at its first undecodable constraint, every constraint before it has its hash stored (which of two constraints sharing a hash stays is `MergeLastWins`), and no new hash appears beyond those |
| `Constraints.FindIn` | mev-boost/server/constraints.go:104-109 | the scan finds a constraint exactly when some slot's map holds the hash; it returns the entry of the first such slot in scan order |
| `Constraints.InsertedIsFound` | mev-boost/server/constraints.go:70-73 | after a successful write the hash is found by `FindTransactionByHash`. The result is the written constraint itself when no other slot holds that hash |
| `Constraints.ConstraintCache.constructor` | mev-boost/server/constraints.go:46-53 | `NewConstraintCache(cap)` is an empty, valid cache of capacity `cap` |
| `Constraints.ConstraintCache.Get` | mev-boost/server/constraints.go:97-100 | `Get` returns the slot's map (empty when absent) and whether the slot is cached. It refreshes the slot's recency and changes no contents |
| `Constraints.ConstraintCache.AddInclusionConstraint` | mev-boost/server/constraints.go:55-76 | succeeds exactly when the transaction decodes. On success the new state is the insertion under its hash; on failure the state is only the prepared slot. Either way the slot is present and newest. Every other slot still cached keeps its map; the least recently used slot is evicted when a new slot meets a full cache |
| `Constraints.ConstraintCache.AddInclusionConstraints` | mev-boost/server/constraints.go:78-95 | succeeds exactly when every constraint decodes. The new state is the prepared slot holding its earlier map merged with the constraints before the first undecodable one, in order. Every other slot still cached keeps its map; the least recently used slot is evicted when a new slot meets a full cache |
| `Constraints.ConstraintCache.FindTransactionByHash` | mev-boost/server/constraints.go:102-110 | returns the first entry under the hash found scanning slots from least to most recently used, or nothing. Changes nothing |
| `CommitmentsServer.HeaderGet` | bolt-sidecar/src/api/commitments/server.rs:228 | the header value is absent exactly when no header has the name; otherwise it is the value of the first header with that name |
| `CommitmentsServer.Encode` | bolt-sidecar/src/api/commitments/server.rs:269 | a visible text becomes a header value of visible bytes, one byte per character |
| `CommitmentsServer.ToStr` | bolt-sidecar/src/api/commitments/server.rs:231 | a header value is text exactly when every byte is visible ASCII, a space or a tab, and the text's bytes are the value |
| `CommitmentsServer.ToStrEncode` | bolt-sidecar/src/api/commitments/server.rs:231 | round trip: reading back an encoded visible text yields that text |
| `CommitmentsServer.IndexOf` | bolt-sidecar/src/api/commitments/server.rs:233 | the first occurrence of the separator |
| `CommitmentsServer.Split` | bolt-sidecar/src/api/commitments/server.rs:233-238 | splitting yields at least one piece, no piece contains the separator, and joining the pieces gives back the text |
| `CommitmentsServer.SplitAt` | bolt-sidecar/src/api/commitments/server.rs:233-235 | a separator-free first piece followed by the separator is the first part of the split |
| `CommitmentsServer.SplitJoin` | bolt-sidecar/src/api/commitments/server.rs:233 | round trip: splitting joined separator-free pieces gives back the pieces |
| `CommitmentsServer.ParseAuth` | bolt-sidecar/src/api/commitments/server.rs:233-242 | parsing the header text fails only with `MalformedHeader` or `InvalidSignature`, and succeeds only on text that contains `:` |
| `CommitmentsServer.AuthFromHeaders` | bolt-sidecar/src/api/commitments/server.rs:227-243 | the error is `NoSignature` exactly when the signature header is missing; the only errors are `NoSignature`, `MalformedHeader` and `InvalidSignature` |
| `CommitmentsServer.ParseAuthNoColon` | bolt-sidecar/src/api/commitments/server.rs:238 | text with no `:` is `MalformedHeader` |
| `CommitmentsServer.ParseAuthBadAddress` | bolt-sidecar/src/api/commitments/server.rs:235-236 | an unparseable address is `MalformedHeader`, whatever follows it, even a bad signature |
| `CommitmentsServer.ParseAuthBadSignature` | bolt-sidecar/src/api/commitments/server.rs:238-240 | a good address with an unparseable signature is `InvalidSignature` |
| `CommitmentsServer.ParseAuthIgnoresTrailing` | bolt-sidecar/src/api/commitments/server.rs:233-242 | anything after a second `:` is ignored |
| `CommitmentsServer.AuthRoundTrip` | bolt-sidecar/src/api/commitments/server.rs:261-274 | a header written as `<address>:<signature>` from texts the parsers accept yields exactly that address and signature |
| `CommitmentsServer.AuthNotText` | bolt-sidecar/src/api/commitments/server.rs:231 | a header value holding a byte that is not visible text is `MalformedHeader` |
| `CommitmentsServer.AdmitInclusion` | bolt-sidecar/src/api/commitments/server.rs:177-203 | one outcome per branch: empty params are `ValidationFailed("Bad params")`; a parse failure is `ValidationFailed` with the parser's message; a failed recovery is `RecoveryFailed`; a recovered signer other than the header signer is `InvalidSignature`. The request is admitted exactly when it parses and the signature over its digest recovers to the header signer, and it is then the parsed request carrying the header signature and signer |
| `CommitmentsServer.Reply` | bolt-sidecar/src/api/commitments/server.rs:206-215 | a forwarded request is answered exactly when the commitment service succeeds, with the service's result under the request's id; the service's error is passed on unchanged |
| `CommitmentsServer.HandleRpc` | bolt-sidecar/src/api/commitments/server.rs:156-222 | a successful response needs successful authentication and echoes the request's id |
| `CommitmentsServer.AuthBeforeDispatch` | bolt-sidecar/src/api/commitments/server.rs:163-165 | for a body that decodes as a JSON-RPC payload: when authentication fails, its error is the answer, whatever the method |
| `CommitmentsServer.UnsignedRejected` | bolt-sidecar/src/api/commitments/server.rs:314-315 | a request whose body decodes as a JSON-RPC payload and that lacks the signature header is refused with `NoSignature`, for any method |
| `CommitmentsServer.VersionReply` | bolt-sidecar/src/api/commitments/server.rs:168-175 | an authenticated version request is answered with `"bolt-sidecar-v"` plus the package version, under the request's id |
| `CommitmentsServer.UnknownMethodRejected` | bolt-sidecar/src/api/commitments/server.rs:217-220 | an authenticated request for any other method is `UnknownMethod` |
| `CommitmentsServer.EmptyParamsRejected` | bolt-sidecar/src/api/commitments/server.rs:178-180 | an authenticated inclusion request without params is `ValidationFailed("Bad params")` |
| `CommitmentsServer.MismatchNotForwarded` | bolt-sidecar/src/api/commitments/server.rs:189-200 | when the recovered signer differs from the header signer, the answer is `InvalidSignature` whatever the commitment service would reply, so nothing is forwarded |
| `CommitmentsServer.InclusionForwarded` | bolt-sidecar/src/api/commitments/server.rs:177-215 | the success path: an authenticated inclusion request that parses and whose signature recovers to the header signer is forwarded with that signature and signer, and the service's reply is the response |
| `CommitmentsServer.ForwardedRequestIsSigned` | bolt-sidecar/src/api/commitments/server.rs:186-215 | a forwarded request carries the header signature and signer, and the service's reply is the response |

## Left out

- `String()` on the constraint types: `JSONStringify` is not part of this model.
- Typed-transaction decoding and Keccak hashing (`UnmarshalBinary`, `Hash`): these become the `Decoder` parameter.
- golang-lru's linked-list internals: only the observable behaviour of `Get`, `Add` and `Values` is modelled.
- `NewConstraintCache` with `cap <= 0`: `lru.New` returns an error that is ignored, and every later call on the nil cache panics. The constructor therefore requires a positive capacity.
- A nil `*Constraint` in a batch makes the Go loop panic; constraints here are values.
- A nil `index` is `None`.
- Concurrent use of the cache is not modelled, and neither is the locking inside golang-lru.
- The Go map-aliasing is not reproduced by reference. It is expressed as an in-place update of the slot's value; see `Lru.Update`.
- The block assembler, bundle cache and recommit controller that `builder/miner/worker_test.go` exercises: their code is not part of this model.
- `CommitmentsApiServer::run`, `new`, `with_shutdown` and `local_addr`: socket binding, routing, task spawning and graceful shutdown.
- `CommitmentsApiInner::request_inclusion`: the channel round trip and the encoding of the commitment become the `requestInclusion` function of `Env`. The channel failure `Error::Internal` is one of the errors that function may return.
- JSON decoding of the request body (`WithRejection<Json<JsonPayload>>`) is not modelled, and neither is `serde_json::from_value`, whose error text becomes a string. The body extractor runs before `handle_rpc`'s own code, so a body that does not decode is answered with the JSON rejection even when the signature header is missing. `HandleRpc` takes an already decoded payload, so `UnsignedRejected` and `AuthBeforeDispatch` hold for requests whose body decodes.
- Address and signature parsing, the request digest and secp256k1 signer recovery: these become the `Env` functions. A recovery error is reported as `RecoveryFailed`, because the conversion into the endpoint's error type is not part of this model.
- The values of `SIGNATURE_HEADER`, `GET_VERSION_METHOD`, `REQUEST_INCLUSION_METHOD` and `CARGO_PKG_VERSION` are defined in files that are not part of this model, so they are parameters.
- Header names are compared exactly: the HTTP library lower-cases both the names it stores and the name it looks up, and that normalisation is not modelled.
- The mapping from errors to JSON-RPC error codes is defined in a file that is not part of this model. The unsigned-request test expects `NoSignature` to be reported as code -32003; `UnsignedRejected` states that `NoSignature` is the error.
- Logging and tracing calls.
