/**
 * The peer registry of a bazil server (server/peer.go): public keys are
 * given small integer ids inside a transactional key-value store (Bolt),
 * with one bucket per index, and the registry is used to open the
 * storage offered to a peer and to resolve a peer's address for dialing.
 */
module Server {
  import opened Outcomes
  import opened BigEndian
  import opened KeyOrder

  /** `ed25519.PublicKeySize`. */
  const PublicKeySize := 32

  /** An ed25519 public key, `[ed25519.PublicKeySize]byte`. */
  type PublicKey = k: bytes | |k| == PublicKeySize witness seq(32, _ => 0)

  /**
   * The errors this core returns; the protobuf codec's own errors are
   * wrapped in `Proto`, and the backend opener's in `Backend`.
   */
  datatype Error =
    | PeerNotFound             // ErrPeerNotFound
    | NoStorageForPeer         // ErrNoStorageForPeer
    | OutOfPeerIDs             // the id counter would wrap to zero
    | NoAddressKnown           // no address bound to the peer
    | Proto(reason: string)    // proto.Marshal or proto.Unmarshal failed
    | Backend(reason: string)  // app.openStorage failed

  /** `peer.Peer`: a registered public key and its id. */
  datatype Peer = Peer(id: uint32, pub: PublicKey)

  /**
   * The protobuf codec for the records this core stores (`wire.Peer`,
   * which carries one uint32 id, and `wire.PeerStorage`, whose
   * `Backends` map is seen here through its set of keys). It is a
   * foreign library, so it is a parameter of the model.
   */
  datatype Wire = Wire(
    marshalPeer: uint32 -> Result<bytes, string>,
    unmarshalPeer: bytes -> Result<uint32, string>,
    unmarshalPeerStorage: bytes -> Result<set<bytes>, string>)

  /** What the registry needs of the codec: a marshalled peer record decodes to its id. */
  ghost predicate PeerRecordsRoundTrip(wire: Wire)
  {
    forall id: uint32 :: wire.marshalPeer(id).Ok? ==>
      wire.unmarshalPeer(wire.marshalPeer(id).value) == Ok(id)
  }

  /** The two buckets the id registry keeps: `pub -> record` and `PutUint32(id) -> pub`. */
  datatype Registry = Registry(peer: Bucket, peerID: Bucket)

  /**
   * `findPeer`: look `pub` up in the peer bucket of a transaction and
   * decode the record. A missing key is `PeerNotFound`; a present key
   * whose record does not decode gives the decoder's error instead.
   */
  function FindPeer(wire: Wire, peer: Bucket, pub: PublicKey): (r: Result<Peer, Error>)
    ensures r == Err(PeerNotFound) <==> pub !in peer
    ensures r.Ok? ==> r.value.pub == pub && pub in peer && wire.unmarshalPeer(peer[pub]) == Ok(r.value.id)
    ensures pub in peer && wire.unmarshalPeer(peer[pub]).Err? ==>
      r == Err(Proto(wire.unmarshalPeer(peer[pub]).error))
    ensures pub in peer && wire.unmarshalPeer(peer[pub]).Ok? ==>
      r == Ok(Peer(wire.unmarshalPeer(peer[pub]).value, pub))
  {
    if pub !in peer then Err(PeerNotFound)
    else match wire.unmarshalPeer(peer[pub])
      case Err(e) => Err(Proto(e))
      case Ok(id) => Ok(Peer(id, pub))
  }

  /** The id the next registration takes: one more than the largest id, wrapping to 0 past 0xFFFF_FFFF. */
  ghost function NextID(peerID: Bucket): uint32
    requires IDKeysReadable(peerID.Keys)
  {
    var m := MaxID(peerID.Keys);
    if m == 0xFFFF_FFFF then 0 else m + 1
  }

  /**
   * What `MakePeer` does to the two buckets, as one atomic step: a known
   * key gets its stored record back and nothing changes; an unknown key
   * gets the next id and two new entries, unless the ids are exhausted or
   * the record cannot be marshalled, in which case nothing changes.
   */
  ghost function MakePeerSpec(wire: Wire, reg: Registry, pub: PublicKey): (out: (Result<Peer, Error>, Registry))
    requires IDKeysReadable(reg.peerID.Keys)
    ensures IDKeysReadable(out.1.peerID.Keys)
    ensures out.0.Err? ==> out.1 == reg
    ensures out.0 != Err(PeerNotFound)
    ensures out.0.Ok? ==> out.0.value.pub == pub
  {
    if pub in reg.peer then (FindPeer(wire, reg.peer, pub), reg)
    else
      var id := NextID(reg.peerID);
      if id == 0 then (Err(OutOfPeerIDs), reg)
      else match wire.marshalPeer(id)
        case Err(e) => (Err(Proto(e)), reg)
        case Ok(buf) => (Ok(Peer(id, pub)), Registry(reg.peer[pub := buf], reg.peerID[PutUint32(id) := pub]))
  }

  /** Every id-bucket entry names a peer whose record carries that (non-zero) id. */
  ghost predicate IDsResolve(wire: Wire, reg: Registry)
  {
    forall k :: k in reg.peerID ==>
      && |k| == 4
      && Uint32(k) != 0
      && reg.peerID[k] in reg.peer
      && wire.unmarshalPeer(reg.peer[reg.peerID[k]]) == Ok(Uint32(k))
  }

  /** Every peer record decodes, and its id is indexed back to its key. */
  ghost predicate RecordsIndexed(wire: Wire, reg: Registry)
  {
    forall pub :: pub in reg.peer ==>
      && wire.unmarshalPeer(reg.peer[pub]).Ok?
      && PutUint32(wire.unmarshalPeer(reg.peer[pub]).value) in reg.peerID
      && reg.peerID[PutUint32(wire.unmarshalPeer(reg.peer[pub]).value)] == pub
  }

  /** The registry invariant: the two buckets are mutual inverses. */
  ghost predicate Consistent(wire: Wire, reg: Registry)
  {
    IDsResolve(wire, reg) && RecordsIndexed(wire, reg)
  }

  /** In a consistent registry, `peer[pub]` has id `i` exactly when `peerID[PutUint32(i)] == pub`. */
  lemma ConsistentInverse(wire: Wire, reg: Registry, pub: bytes, i: uint32)
    requires Consistent(wire, reg)
    ensures (pub in reg.peer && wire.unmarshalPeer(reg.peer[pub]) == Ok(i))
        <==> (PutUint32(i) in reg.peerID && reg.peerID[PutUint32(i)] == pub)
    ensures PutUint32(i) in reg.peerID ==> i != 0
  {
    if PutUint32(i) in reg.peerID {
      assert Uint32(PutUint32(i)) == i;
    }
  }

  /** Two registered keys never share an id. */
  lemma ConsistentIDsUnique(wire: Wire, reg: Registry, p: bytes, q: bytes)
    requires Consistent(wire, reg)
    requires p in reg.peer && q in reg.peer && p != q
    ensures wire.unmarshalPeer(reg.peer[p]) != wire.unmarshalPeer(reg.peer[q])
  {
    var ip := wire.unmarshalPeer(reg.peer[p]).value;
    var iq := wire.unmarshalPeer(reg.peer[q]).value;
    assert reg.peerID[PutUint32(ip)] == p;
    assert reg.peerID[PutUint32(iq)] == q;
  }

  /** The next id is above every id in the bucket, one above the largest, and its key is free. */
  lemma NextIDIsFresh(peerID: Bucket)
    requires IDKeysReadable(peerID.Keys)
    requires NextID(peerID) != 0
    ensures forall k :: k in peerID ==> Uint32(k) < NextID(peerID)
    ensures peerID == map[] ==> NextID(peerID) == 1
    ensures peerID != map[] ==> exists k :: k in peerID && Uint32(k) + 1 == NextID(peerID)
    ensures PutUint32(NextID(peerID)) !in peerID
  {
    if peerID == map[] {
      assert peerID.Keys == {};
    } else {
      var x :| x in peerID;
      assert x in peerID.Keys;
    }
    assert Uint32(PutUint32(NextID(peerID))) == NextID(peerID);
  }

  /** Adding a fresh key grows a bucket by one entry. */
  lemma AddFreshKey(b: Bucket, k: bytes, v: bytes)
    requires k !in b
    ensures |b[k := v]| == |b| + 1
  {
    assert b[k := v].Keys == b.Keys + {k};
  }

  /**
   * A new key gets one more than the largest id (1 in an empty bucket),
   * a key no id-bucket entry has, and exactly two new entries.
   */
  lemma MakePeerAllocation(wire: Wire, reg: Registry, pub: PublicKey)
    requires IDKeysReadable(reg.peerID.Keys)
    requires pub !in reg.peer
    requires MakePeerSpec(wire, reg, pub).0.Ok?
    ensures var out := MakePeerSpec(wire, reg, pub);
      var id := out.0.value.id;
      && id != 0
      && (forall k :: k in reg.peerID ==> Uint32(k) < id)
      && (reg.peerID == map[] ==> id == 1)
      && (reg.peerID != map[] ==> exists k :: k in reg.peerID && Uint32(k) + 1 == id)
      && PutUint32(id) !in reg.peerID
      && wire.marshalPeer(id).Ok?
      && out.1.peerID == reg.peerID[PutUint32(id) := pub]
      && out.1.peer == reg.peer[pub := wire.marshalPeer(id).value]
      && |out.1.peerID| == |reg.peerID| + 1
      && |out.1.peer| == |reg.peer| + 1
  {
    var id := NextID(reg.peerID);
    var buf := wire.marshalPeer(id).value;
    assert MakePeerSpec(wire, reg, pub)
        == (Ok(Peer(id, pub)), Registry(reg.peer[pub := buf], reg.peerID[PutUint32(id) := pub]));
    NextIDIsFresh(reg.peerID);
    AddFreshKey(reg.peerID, PutUint32(id), pub);
    AddFreshKey(reg.peer, pub, buf);
  }

  /** The ids run out exactly when an unknown key meets an id bucket holding 0xFFFF_FFFF; nothing is written then. */
  lemma MakePeerOutOfIDs(wire: Wire, reg: Registry, pub: PublicKey)
    requires IDKeysReadable(reg.peerID.Keys)
    ensures MakePeerSpec(wire, reg, pub).0 == Err(OutOfPeerIDs)
        <==> pub !in reg.peer && exists k :: k in reg.peerID && Uint32(k) == 0xFFFF_FFFF
    ensures MakePeerSpec(wire, reg, pub).0 == Err(OutOfPeerIDs) ==> MakePeerSpec(wire, reg, pub).1 == reg
  {
    if pub !in reg.peer && MaxID(reg.peerID.Keys) == 0xFFFF_FFFF {
      assert reg.peerID.Keys != {};
    }
  }

  /** Adding a key under a fresh non-zero id whose record decodes to it keeps the buckets inverse. */
  lemma AddPeerPreservesConsistency(wire: Wire, reg: Registry, pub: bytes, id: uint32, buf: bytes)
    requires Consistent(wire, reg)
    requires pub !in reg.peer && PutUint32(id) !in reg.peerID && id != 0
    requires wire.unmarshalPeer(buf) == Ok(id)
    ensures Consistent(wire, Registry(reg.peer[pub := buf], reg.peerID[PutUint32(id) := pub]))
  {
    var reg' := Registry(reg.peer[pub := buf], reg.peerID[PutUint32(id) := pub]);
    forall k | k in reg'.peerID
      ensures |k| == 4 && Uint32(k) != 0 && reg'.peerID[k] in reg'.peer
      ensures wire.unmarshalPeer(reg'.peer[reg'.peerID[k]]) == Ok(Uint32(k))
    {
      if k != PutUint32(id) {
        assert k in reg.peerID && reg.peerID[k] in reg.peer;
      }
    }
    forall p | p in reg'.peer
      ensures wire.unmarshalPeer(reg'.peer[p]).Ok?
      ensures PutUint32(wire.unmarshalPeer(reg'.peer[p]).value) in reg'.peerID
      ensures reg'.peerID[PutUint32(wire.unmarshalPeer(reg'.peer[p]).value)] == p
    {
      if p != pub {
        assert p in reg.peer;
      }
    }
    assert IDsResolve(wire, reg');
    assert RecordsIndexed(wire, reg');
  }

  /** `MakePeer` keeps the two buckets mutual inverses. */
  lemma MakePeerPreservesConsistency(wire: Wire, reg: Registry, pub: PublicKey)
    requires PeerRecordsRoundTrip(wire)
    requires Consistent(wire, reg)
    ensures Consistent(wire, MakePeerSpec(wire, reg, pub).1)
  {
    var out := MakePeerSpec(wire, reg, pub);
    if pub !in reg.peer && out.0.Ok? {
      var id := out.0.value.id;
      MakePeerAllocation(wire, reg, pub);
      AddPeerPreservesConsistency(wire, reg, pub, id, wire.marshalPeer(id).value);
    }
  }

  /**
   * The id bucket is dense: it holds exactly the keys of ids 1 to n,
   * where n is the number of entries.
   */
  ghost predicate Dense(peerID: Bucket)
  {
    && |peerID| <= 0xFFFF_FFFF
    && (forall k :: k in peerID ==> |k| == 4 && 1 <= Uint32(k) <= |peerID|)
    && (forall i: uint32 :: 1 <= i <= |peerID| ==> PutUint32(i) in peerID)
  }

  /** In a dense id bucket the largest id is the number of entries. */
  lemma DenseMax(peerID: Bucket)
    requires Dense(peerID)
    ensures IDKeysReadable(peerID.Keys)
    ensures MaxID(peerID.Keys) == |peerID|
  {
    if |peerID| == 0 {
      assert peerID.Keys == {};
    } else {
      assert PutUint32(|peerID|) in peerID.Keys;
      assert Uint32(PutUint32(|peerID|)) == |peerID|;
    }
  }

  /** Adding the key of id n + 1 to a dense bucket of n entries keeps it dense. */
  lemma AddNextKeepsDense(b: Bucket, pub: bytes)
    requires Dense(b) && |b| < 0xFFFF_FFFF
    ensures Dense(b[PutUint32(|b| + 1) := pub])
  {
    var id: uint32 := |b| + 1;
    assert Uint32(PutUint32(id)) == id;
    assert PutUint32(id) !in b;
    AddFreshKey(b, PutUint32(id), pub);
    var b' := b[PutUint32(id) := pub];
    forall k | k in b'
      ensures |k| == 4 && 1 <= Uint32(k) <= |b'|
    {
      if k != PutUint32(id) {
        assert k in b;
      }
    }
    forall i: uint32 | 1 <= i <= |b'|
      ensures PutUint32(i) in b'
    {
      if i < id {
        assert PutUint32(i) in b;
      }
    }
  }

  /**
   * `MakePeer` keeps the id bucket dense: ids are handed out without gaps,
   * and a new peer gets the id one more than the number of peers.
   */
  lemma MakePeerKeepsDense(wire: Wire, reg: Registry, pub: PublicKey)
    requires Dense(reg.peerID)
    ensures IDKeysReadable(reg.peerID.Keys)
    ensures Dense(MakePeerSpec(wire, reg, pub).1.peerID)
    ensures pub !in reg.peer && MakePeerSpec(wire, reg, pub).0.Ok? ==>
      MakePeerSpec(wire, reg, pub).0.value.id == |reg.peerID| + 1
  {
    DenseMax(reg.peerID);
    var out := MakePeerSpec(wire, reg, pub);
    if pub !in reg.peer && out.0.Ok? {
      assert out.0.value.id == |reg.peerID| + 1;
      assert out.1.peerID == reg.peerID[PutUint32(|reg.peerID| + 1) := pub];
      AddNextKeepsDense(reg.peerID, pub);
    }
  }

  /** Calling `MakePeer` again for the same key returns the same outcome and changes nothing. */
  lemma MakePeerIdempotent(wire: Wire, reg: Registry, pub: PublicKey)
    requires PeerRecordsRoundTrip(wire)
    requires IDKeysReadable(reg.peerID.Keys)
    ensures MakePeerSpec(wire, MakePeerSpec(wire, reg, pub).1, pub) == MakePeerSpec(wire, reg, pub)
  {
    var out := MakePeerSpec(wire, reg, pub);
    if pub !in reg.peer && out.0.Ok? {
      var id := out.0.value.id;
      assert wire.unmarshalPeer(wire.marshalPeer(id).value) == Ok(id);
    }
  }

  /** Registering A, then B, then A again from an empty store gives ids 1, 2 and 1. */
  lemma FirstRegistrations(wire: Wire, a: PublicKey, b: PublicKey)
    requires PeerRecordsRoundTrip(wire)
    requires a != b
    requires wire.marshalPeer(1).Ok? && wire.marshalPeer(2).Ok?
    ensures var s1 := MakePeerSpec(wire, Registry(map[], map[]), a);
      var s2 := MakePeerSpec(wire, s1.1, b);
      var s3 := MakePeerSpec(wire, s2.1, a);
      && s1.0 == Ok(Peer(1, a))
      && s2.0 == Ok(Peer(2, b))
      && s3.0 == Ok(Peer(1, a))
      && s3.1 == s2.1
  {
    var empty := Registry(map[], map[]);
    assert empty.peerID.Keys == {};
    var s1 := MakePeerSpec(wire, empty, a);
    assert s1.1.peerID == map[PutUint32(1) := a];
    assert s1.1.peerID.Keys == {PutUint32(1)};
    assert MaxID(s1.1.peerID.Keys) == 1;
    var s2 := MakePeerSpec(wire, s1.1, b);
    assert s2.0 == Ok(Peer(2, b));
    assert a in s2.1.peer && s2.1.peer[a] == wire.marshalPeer(1).value;
  }

  /**
   * The id `MakePeer` would allocate: the id in the last key of the id
   * bucket (0 when it is empty), plus one with uint32 wrap-around.
   */
  method PickID(peerID: Bucket) returns (id: uint32)
    requires IDKeysReadable(peerID.Keys)
    ensures id == NextID(peerID)
  {
    id := 0;
    var last := Last(peerID);
    if last.Some? {
      LastIsMaxID(last.value, peerID.Keys);
      id := Uint32(last.value);
    } else {
      assert peerID.Keys == {};
    }
    assert id == MaxID(peerID.Keys);
    // peer.ID is a uint32: the increment wraps
    id := (id + 1) % 0x1_0000_0000;
    assert id == NextID(peerID) by {
      if MaxID(peerID.Keys) < 0xFFFF_FFFF {
        assert id == MaxID(peerID.Keys) + 1;
      }
    }
  }

  /** `kvmulti.New(kvstores...)`: an opaque merged store over the opened backend handles. */
  datatype MultiKV<H> = MultiKV(stores: seq<H>)

  /** What the `DialPeer` lookup hands to the authenticator: where to connect and which key must answer. */
  datatype Target = Target(network: bytes, addr: bytes, pub: PublicKey)

  /**
   * The server's view of its Bolt database: the four peer buckets.
   * Bolt's read-only transactions are functions of the fields; the one
   * read-write transaction is `UpdateGetOrMake`.
   */
  class App {
    const wire: Wire
    var peer: Bucket         // tokens.BucketPeer: pub -> wire.Peer
    var peerID: Bucket       // tokens.BucketPeerID: PutUint32(id) -> pub
    var peerAddr: Bucket     // tokens.BucketPeerAddr: pub -> address
    var peerStorage: Bucket  // tokens.BucketPeerStorage: pub -> wire.PeerStorage

    /** An app over a database already holding these buckets. */
    constructor Open(wire: Wire, peer: Bucket, peerID: Bucket, peerAddr: Bucket, peerStorage: Bucket)
      ensures this.wire == wire && this.peer == peer && this.peerID == peerID
      ensures this.peerAddr == peerAddr && this.peerStorage == peerStorage
    {
      this.wire := wire;
      this.peer := peer;
      this.peerID := peerID;
      this.peerAddr := peerAddr;
      this.peerStorage := peerStorage;
    }

    /** The two buckets of the id registry. */
    ghost function Snapshot(): Registry
      reads this
    {
      Registry(peer, peerID)
    }

    /**
     * `GetPeer`: `findPeer` in a read-only transaction, which sees the
     * committed peer bucket. A registered key gives its peer, an
     * unregistered one `PeerNotFound`.
     */
    function GetPeer(pub: PublicKey): (r: Result<Peer, Error>)
      reads this
      ensures r == Err(PeerNotFound) <==> pub !in peer
      ensures pub in peer && wire.unmarshalPeer(peer[pub]).Ok? ==>
        r == Ok(Peer(wire.unmarshalPeer(peer[pub]).value, pub))
      ensures pub in peer && wire.unmarshalPeer(peer[pub]).Err? ==>
        r == Err(Proto(wire.unmarshalPeer(peer[pub]).error))
    {
      FindPeer(wire, peer, pub)
    }

    /**
     * The `getOrMake` callback of `MakePeer`, run inside a read-write
     * transaction. It may leave the id-bucket write behind when
     * marshalling fails; `UpdateGetOrMake` rolls that back.
     */
    method GetOrMake(pub: PublicKey) returns (r: Result<Peer, Error>)
      requires IDKeysReadable(peerID.Keys)
      modifies this`peer, this`peerID
      ensures old(pub in peer) ==>
        r == old(FindPeer(wire, peer, pub)) && peer == old(peer) && peerID == old(peerID)
      ensures old(pub !in peer) && NextID(old(peerID)) == 0 ==>
        r == Err(OutOfPeerIDs) && peer == old(peer) && peerID == old(peerID)
      ensures old(pub !in peer) && NextID(old(peerID)) != 0 ==>
        var id := NextID(old(peerID));
        && peerID == old(peerID)[PutUint32(id) := pub]
        && match wire.marshalPeer(id)
           case Err(e) => r == Err(Proto(e)) && peer == old(peer)
           case Ok(buf) => r == Ok(Peer(id, pub)) && peer == old(peer)[pub := buf]
    {
      // try again, in case another writer registered the key meanwhile
      r := FindPeer(wire, peer, pub);
      if r != Err(PeerNotFound) {
        return;
      }
      var id := PickID(peerID);
      if id == 0 {
        return Err(OutOfPeerIDs);
      }
      var idKey := PutUint32(id);
      peerID := peerID[idKey := pub];
      var buf := wire.marshalPeer(id);
      if buf.Err? {
        return Err(Proto(buf.error));
      }
      peer := peer[pub := buf.value];
      r := Ok(Peer(id, pub));
    }

    /** `DB.Update(getOrMake)`: commits the callback's writes, or none of them when it fails. */
    method UpdateGetOrMake(pub: PublicKey) returns (r: Result<Peer, Error>)
      requires IDKeysReadable(peerID.Keys)
      modifies this`peer, this`peerID
      ensures (r, Snapshot()) == MakePeerSpec(wire, old(Snapshot()), pub)
    {
      var peer0, peerID0 := peer, peerID;
      r := GetOrMake(pub);
      if r.Err? {
        peer, peerID := peer0, peerID0;
      }
    }

    /**
     * `MakePeer`: an optimistic read-only lookup, then the
     * re-check-and-create transaction when the key was not found.
     */
    method MakePeer(pub: PublicKey) returns (r: Result<Peer, Error>)
      requires IDKeysReadable(peerID.Keys)
      modifies this`peer, this`peerID
      ensures (r, Snapshot()) == MakePeerSpec(wire, old(Snapshot()), pub)
      ensures old(Consistent(wire, Snapshot())) && PeerRecordsRoundTrip(wire) ==>
        Consistent(wire, Snapshot())
    {
      ghost var before := Snapshot();
      r := GetPeer(pub);
      if r == Err(PeerNotFound) {
        r := UpdateGetOrMake(pub);
      }
      if Consistent(wire, before) && PeerRecordsRoundTrip(wire) {
        MakePeerPreservesConsistency(wire, before, pub);
      }
    }

    /**
     * The `find` callback of `OpenKVForPeer`: the storage binding of
     * `pub`, decoded to its set of backend names.
     */
    function FindStorage(pub: PublicKey): (r: Result<set<bytes>, Error>)
      reads this
      ensures r == Err(NoStorageForPeer) <==> pub !in peerStorage
      ensures r.Ok? ==> pub in peerStorage && wire.unmarshalPeerStorage(peerStorage[pub]) == Ok(r.value)
      ensures pub in peerStorage && wire.unmarshalPeerStorage(peerStorage[pub]).Err? ==>
        r == Err(Proto(wire.unmarshalPeerStorage(peerStorage[pub]).error))
      ensures pub in peerStorage && wire.unmarshalPeerStorage(peerStorage[pub]).Ok? ==>
        r == Ok(wire.unmarshalPeerStorage(peerStorage[pub]).value)
    {
      if pub !in peerStorage then Err(NoStorageForPeer)
      else match wire.unmarshalPeerStorage(peerStorage[pub])
        case Err(e) => Err(Proto(e))
        case Ok(backends) => Ok(backends)
    }

    /**
     * `OpenKVForPeer`: open every backend of the binding with
     * `openStorage` (the app's backend opener) and merge the handles.
     * The first failure aborts the whole call. `order` is the order in
     * which the backends happened to be visited; it is not specified.
     */
    method OpenKVForPeer<H>(pub: PublicKey, openStorage: bytes -> Result<H, string>)
      returns (r: Result<MultiKV<H>, Error>, ghost order: seq<bytes>)
      ensures r == Err(NoStorageForPeer) <==> pub !in peerStorage
      ensures FindStorage(pub).Err? ==> r.Err? && r.error == FindStorage(pub).error
      ensures FindStorage(pub).Ok? ==>
        var backends := FindStorage(pub).value;
        && (r.Ok? <==> forall b :: b in backends ==> openStorage(b).Ok?)
        && (r.Err? ==> exists b :: b in backends && openStorage(b).Err? && r.error == Backend(openStorage(b).error))
        && (r.Ok? ==>
              && (forall b :: b in backends <==> b in order)
              && (forall i, j :: 0 <= i < j < |order| ==> order[i] != order[j])
              && |r.value.stores| == |order|
              && forall i :: 0 <= i < |order| ==> openStorage(order[i]) == Ok(r.value.stores[i]))
    {
      order := [];
      var found := FindStorage(pub);
      if found.Err? {
        return Err(found.error), order;
      }
      var backends := found.value;
      var todo := backends;
      var kvstores: seq<H> := [];
      while todo != {}
        invariant todo <= backends
        invariant forall b :: b in backends <==> b in todo || b in order
        invariant forall b :: b in order ==> b !in todo
        invariant forall i, j :: 0 <= i < j < |order| ==> order[i] != order[j]
        invariant |kvstores| == |order|
        invariant forall i :: 0 <= i < |order| ==> openStorage(order[i]) == Ok(kvstores[i])
        decreases todo
      {
        var backend :| backend in todo;
        var s := openStorage(backend);
        if s.Err? {
          return Err(Backend(s.error)), order;
        }
        kvstores := kvstores + [s.value];
        order := order + [backend];
        todo := todo - {backend};
      }
      forall b | b in backends
        ensures openStorage(b).Ok?
      {
        var i :| 0 <= i < |order| && order[i] == b;
      }
      r := Ok(MultiKV(kvstores));
    }

    /**
     * The `lookup` closure of `DialPeer`, closed over `pub`: the nominal
     * address from the transport is ignored and replaced by the address
     * bound to `pub`; the key the far end must present is `pub` itself.
     */
    function Lookup(pub: PublicKey, network: bytes, addr: bytes): (r: Result<Target, Error>)
      reads this
      ensures r.Err? <==> pub !in peerAddr
      ensures r.Err? ==> r.error == NoAddressKnown
      ensures r.Ok? ==> r.value.network == network && r.value.addr == peerAddr[pub] && r.value.pub == pub
    {
      if pub !in peerAddr then Err(NoAddressKnown)
      else Ok(Target(network, peerAddr[pub], pub))
    }
  }

  /**
   * Two callers register the same new key at once: both optimistic reads
   * run before either transaction, and Bolt runs the two transactions one
   * after the other. Both callers see the same peer and one registration
   * is made.
   */
  method ConcurrentMakePeer(app: App, pub: PublicKey) returns (r1: Result<Peer, Error>, r2: Result<Peer, Error>)
    requires IDKeysReadable(app.peerID.Keys)
    requires PeerRecordsRoundTrip(app.wire)
    modifies app`peer, app`peerID
    ensures r1 == r2 == MakePeerSpec(app.wire, old(app.Snapshot()), pub).0
    ensures app.Snapshot() == MakePeerSpec(app.wire, old(app.Snapshot()), pub).1
  {
    ghost var before := app.Snapshot();
    r1 := app.GetPeer(pub);
    r2 := app.GetPeer(pub);
    if r1 == Err(PeerNotFound) {
      r1 := app.UpdateGetOrMake(pub);
    }
    if r2 == Err(PeerNotFound) {
      MakePeerIdempotent(app.wire, before, pub);
      r2 := app.UpdateGetOrMake(pub);
    }
  }
}
