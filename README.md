# Peer registry of a bazil server, in Dafny

This project models the peer registry of the bazil server (`server/peer.go`).
The registry gives every ed25519 public key a small integer peer id. It keeps
them in a Bolt database, a transactional, ordered key-value store, with one
bucket per index:

- the peer bucket maps a public key to a marshalled `wire.Peer` record that holds the id;
- the peer-id bucket maps the 4-byte big-endian encoding of an id back to the public key;
- the address bucket maps a public key to the peer's network address;
- the storage bucket maps a public key to a marshalled `wire.PeerStorage`, the backends offered to that peer.

The model has four modules:

- `Outcomes` (outcomes.dfy): `Option` and `Result`, the shapes of Go's `(value, error)` returns.
- `BigEndian` (bigendian.dfy): bytes, `uint32`, and `binary.BigEndian.PutUint32` / `Uint32`.
- `KeyOrder` (keyorder.dfy): Bolt's key order (`bytes.Compare`) and the bucket cursor's `Last()`. It also proves why the peer-id bucket's last key carries the largest id.
- `Server` (peer.dfy): the peer registry.
  - `findPeer` and `GetPeer` are functions.
  - The id allocation is the `App` class. `GetOrMake` is the transaction callback, `UpdateGetOrMake` is Bolt's all-or-nothing `Update`, and `MakePeer` is the two-phase operation.
  - `OpenKVForPeer` is a method with a loop over the storage binding.
  - The address lookup closure of `DialPeer` is a function.

`MakePeer` is proved against the ghost function `MakePeerSpec`. That function describes one atomic registration in terms of the largest id in the id bucket, not in terms of the byte order of its keys. The lemmas beside `MakePeerSpec` prove:

- the two buckets stay mutual inverses;
- new ids are non-zero and above every existing id;
- ids are dense: an id bucket holding exactly the ids 1 to n stays that way, and the next peer gets n + 1;
- exactly two entries are added;
- exhausting the ids changes nothing;
- a second call for the same key changes nothing.

The external collaborators are parameters of the model:

- The protobuf codec is the `Wire` value held by the app. Its marshaller may fail. The one thing the registry needs of it is `PeerRecordsRoundTrip`: a marshalled record decodes to its id.
- The backend opener `app.openStorage` is a function argument of `OpenKVForPeer` that may fail.
- `kvmulti.New` is the opaque constructor `MultiKV` over the opened handles.

A Bolt read-only transaction sees the committed buckets, so it is modelled as a function of the `App` fields. A concurrent writer between the optimistic and the locked phase of `MakePeer` is modelled by running the locked phase on whatever state it finds: `UpdateGetOrMake` is specified for every state. `ConcurrentMakePeer` runs two callers' optimistic reads before both of their transactions.

`OpenKVForPeer` never looks at the peer bucket: a key with a storage binding but no identity record still has its storage opened, and a key with no binding gets `NoStorageForPeer` whether or not it is registered.

## Model

| member | source | states |
|---|---|---|
| `BigEndian.PutUint32` | server/peer.go:96-97 | the id key is 4 bytes long and `Uint32` decodes it back to the id |
| `BigEndian.Uint32` | server/peer.go:90 | the big-endian value of the first four bytes, bytes after the fourth ignored; `PutUint32` and `PutUint32OfUint32` prove it inverts the encoding |
| `BigEndian.PutUint32OfUint32` | server/peer.go:90 | every 4-byte key is the encoding of the value `Uint32` reads from it, so the encoding is a bijection on 4-byte keys |
| `BigEndian.PutUint32Injective` | server/peer.go:96-97 | distinct ids get distinct id keys |
| `KeyOrder.Less` | server/peer.go:88-89 | `bytes.Compare(a, b) < 0`, the order of Bolt's keys: a proper prefix comes before the longer key, and the empty key before every other |
| `KeyOrder.LessIrreflexive` | server/peer.go:88-89 | no key comes before itself |
| `KeyOrder.LessTransitive` | server/peer.go:88-89 | the key order is transitive |
| `KeyOrder.LessAt` | server/peer.go:88-89 | keys that agree up to a position and differ there are ordered by the byte at that position |
| `KeyOrder.Uint32Order` | server/peer.go:88-90 | a key whose first four bytes hold a smaller big-endian value comes earlier in Bolt's byte order, whatever follows the fourth byte |
| `KeyOrder.EncodingPreservesOrder` | server/peer.go:96-97 | byte order of two encoded ids holds exactly when the ids are in numeric order |
| `KeyOrder.LastExists` | server/peer.go:88-89 | a non-empty bucket has a last key, one that no other key follows in byte order |
| `KeyOrder.Last` | server/peer.go:88-89 | the cursor's `Last()` returns no key exactly for an empty bucket, and otherwise a key of the bucket that no other key follows |
| `KeyOrder.MaxID` | server/peer.go:86-91 | the largest id in the id bucket: no key holds a larger id, some key holds it unless the bucket is empty, and it is 0 for an empty bucket |
| `KeyOrder.LastIsMaxID` | server/peer.go:88-91 | the id read from the bucket's last key is the largest id in the bucket |
| `Server.FindPeer` | server/peer.go:32-48 | `PeerNotFound` exactly when the key has no record; a record that does not decode gives the decoder's error, never not-found; a record that decodes gives `Ok` with the decoded id and the queried key |
| `Server.App.GetPeer` | server/peer.go:50-62 | on the committed peer bucket: `PeerNotFound` exactly when the key is not registered; a registered key whose record decodes gives the peer with that id and the queried key; a record that does not decode gives the decoder's error |
| `Server.MakePeerSpec` | server/peer.go:67-121 | an error never changes the buckets, the outcome is never `PeerNotFound`, a created peer carries the requested key, and every id key stays readable |
| `Server.PickID` | server/peer.go:86-92 | the id read from the last key of the id bucket (0 when it is empty), plus one with uint32 wrap-around, is exactly one more than the largest id, or 0 past 0xFFFF_FFFF |
| `Server.App.GetOrMake` | server/peer.go:75-116 | a known key returns its `findPeer` result with no writes; an unknown key gets the next id: with the ids exhausted, `OutOfPeerIDs` and no writes; otherwise the id entry is written, and then either the marshal error is returned or the peer record is written and the new peer returned |
| `Server.App.UpdateGetOrMake` | server/peer.go:117-120 | the transaction's result and the new buckets are exactly `MakePeerSpec` of the old buckets, so a failed callback's partial write is undone |
| `Server.App.MakePeer` | server/peer.go:67-121 | the optimistic lookup followed by the locked re-check gives exactly `MakePeerSpec`, and a consistent registry stays consistent |
| `Server.ConsistentInverse` | server/peer.go:96-115 | in a consistent registry the peer record of `pub` has id `i` exactly when the id bucket maps the key of `i` to `pub`, and id 0 is never indexed |
| `Server.ConsistentIDsUnique` | server/peer.go:96-115 | in a consistent registry two different keys never have the same id |
| `Server.NextIDIsFresh` | server/peer.go:86-97 | when it does not wrap, the next id is above every id in the bucket, is 1 for an empty bucket and one more than some id otherwise, and its key is not in the bucket |
| `Server.MakePeerAllocation` | server/peer.go:84-115 | creating a peer gives it a non-zero id one above the largest id (1 in an empty bucket), under a fresh key, and adds exactly the two entries `peerID[PutUint32(id)] = pub` and `peer[pub] = record(id)`, leaving all other entries as they were |
| `Server.MakePeerOutOfIDs` | server/peer.go:92-95 | `OutOfPeerIDs` is returned exactly when an unknown key meets an id bucket holding 0xFFFF_FFFF, and then neither bucket changes |
| `Server.AddPeerPreservesConsistency` | server/peer.go:96-115 | adding a key under a fresh non-zero id whose record decodes to that id keeps the two buckets mutual inverses |
| `Server.MakePeerPreservesConsistency` | server/peer.go:96-115 | every `MakePeer` outcome keeps the two buckets mutual inverses |
| `Server.DenseMax` | server/peer.go:86-92 | in a dense id bucket, one holding exactly the keys of ids 1 to n, the largest id is n |
| `Server.AddNextKeepsDense` | server/peer.go:92-99 | adding the key of id n + 1 to a dense id bucket of n entries keeps it dense |
| `Server.MakePeerKeepsDense` | server/peer.go:84-115 | `MakePeer` keeps the id bucket dense, so ids are allocated without gaps, and a new peer gets id n + 1 in a bucket of n entries |
| `Server.MakePeerIdempotent` | server/peer.go:69-82 | calling `MakePeer` again for the same key returns the same outcome and leaves both buckets unchanged |
| `Server.FirstRegistrations` | server/peer.go:84-115 | from an empty store, registering A, then B, then A again gives ids 1, 2 and 1, and the third call writes nothing |
| `Server.ConcurrentMakePeer` | server/peer.go:67-120 | two callers that both miss in the optimistic phase see the same peer, and the store ends as after a single registration |
| `Server.App.FindStorage` | server/peer.go:125-135 | `NoStorageForPeer` exactly when the key has no storage binding; a binding that does not decode gives the decoder's error; otherwise the decoded set of backends |
| `Server.App.OpenKVForPeer` | server/peer.go:123-150 | `NoStorageForPeer` exactly when the key has no storage binding; a lookup error is returned as is; the call succeeds exactly when every backend opens; a failure returns, wrapped as `Backend`, the error of a backend that failed to open, with no handle; a success holds one opened handle per backend, each backend visited once |
| `Server.App.Lookup` | server/peer.go:169-183 | an error exactly when no address is bound to the key, and then `NoAddressKnown`; otherwise the caller's network, the stored address in place of the nominal one, and the same public key the closure was built for |

## Left out

- The gRPC dial, the `grpcedtls.Authenticator` TLS handshake that enforces the pinned key, the 30-second timeout and the `peerClient` wrapper with its `Close` (server/peer.go:152-166, 185-204). These are network I/O and foreign libraries. Only the lookup closure that `DialPeer` hands to the authenticator is modelled.
- Protobuf `Marshal`/`Unmarshal` of `wire.Peer` and `wire.PeerStorage`. These are a foreign library, so they are the abstract `Wire` codec. Only the keys of the `Backends` map are seen.
- Errors from Bolt's `Put` (server/peer.go:98-100, 108-110). `Put` refuses an empty key, an oversized key or value, a key that holds a nested bucket, and a closed or read-only transaction; an empty value is accepted. None of these arises here: the writes run inside an open `Update`, the keys are a 4-byte id key and a 32-byte public key, the values are small, and neither bucket holds nested buckets.
- `Server.App.MakePeer`: it requires every id-bucket key to be at least four bytes long. This is stronger than what Go needs: Go reads only the last key (server/peer.go:89-90) and panics only when that key is shorter than four bytes, so a bucket such as `{[0], [0,0,0,5]}` is handled by Go (id 6) but excluded here. The panic itself is not modelled. The same requirement is on `GetOrMake`, `UpdateGetOrMake`, `PickID` and `MakePeerSpec`. Every consistent registry meets it, and `MakePeer` keeps it.
- The errors of beginning and committing a Bolt transaction in `DB.View` and `DB.Update` (server/peer.go:59-61, 117-119, 136-138, 179): a closed database, a failed page write or sync at commit. When the commit of `MakePeer`'s update fails, Go returns that error and the store is unchanged; the model has no such outcome. `UpdateGetOrMake` always commits a successful callback's writes, and the read-only transactions always see the committed buckets.
- Bolt internals: pages, durability, cursors beyond "the last key in byte order", and real concurrency. Concurrency between the two phases of `MakePeer` appears only as a phase run on a later state, and Bolt's single writer appears as transactions run one after another.
- `app.openStorage` and the storage merging of `kvmulti.New`. These are external collaborators: an argument function and an opaque constructor. Go passes the opener's error through unchanged; the model wraps it as `Backend`, so an opener failure is never mistaken for `NoStorageForPeer`.
- The order in which Go's map iteration visits the backends (server/peer.go:141). The loop picks an arbitrary remaining backend. The ghost `order` records the visit order, and no property depends on it.
- The writers of the address and storage buckets. They are outside this file, so the app is opened over given buckets.
