/** The key operations of ncr-key.c built on the registry: export to a data
    item, import from a data item, generation, information, and the three
    asymmetric entry points that are not implemented.

    Every operation is one transition returning the code the ioctl returns
    and the stores after the call. A request structure copied in from user
    space is a parameter; the random source is an arbitrary byte stream and
    the algorithm-to-key-type table an arbitrary function.
 */
module Lifecycle {
  import opened KeyTypes
  import opened Registry
  import opened DataItems

  /** `struct ncr_key_data_st`: `keyId` stands for `key_id` with its `key_id_size`. */
  datatype KeyDataRequest = KeyDataRequest(
    key: int,
    data: int,
    keyId: seq<byte>,
    ktype: KeyType,
    flags: Flags,
    algorithm: Algorithm)

  /** `struct ncr_key_generate_st`, restricted to the fields the secret-key path reads. */
  datatype GenerateRequest = GenerateRequest(desc: int, algorithm: Algorithm, keyflags: Flags, bits: nat)

  datatype Outcome = Outcome(code: int, keys: KeyStore, data: DataStore)

  /** The item a lookup of `desc` finds. */
  function KeyAt(ks: KeyStore, desc: int): KeyItem
    requires ListInHeap(ks) && Live(ks, desc)
  {
    ks.heap[Resolve(ks, desc).value]
  }

  /** `after` is `before` with only the fields an operation may write changed. */
  predicate SameIdentity(before: KeyItem, after: KeyItem) {
    after.desc == before.desc && after.owner == before.owner && after.refcnt == before.refcnt
  }

  /** Releases the key handle (after storing `item` through it) and the data handle. */
  function Finish(code: int, held: KeyStore, r: Ref, item: KeyItem, dheld: DataStore, d: int): (res: Outcome)
    requires r in held.handles && r in held.heap && item.refcnt >= 1
    requires d in dheld.items && dheld.items[d].refcnt >= 1
  {
    Outcome(code, PutHandle(Update(held, r, item), r), DataPut(dheld, d))
  }

  // ---------------------------------------------------------------------
  // Export (`ncr_key_export`)

  /** What export demands before it writes anything. */
  predicate ExportAllowed(ks: KeyStore, ds: DataStore, req: KeyDataRequest)
    requires ListInHeap(ks)
  {
    && Live(ks, req.key)
    && req.data in ds.items
    && KeyAt(ks, req.key).ktype == TypeSecret
    && |KeyAt(ks, req.key).secret| <= ds.items[req.data].maxSize
  }

  /** Copies a secret key into a data item. The data item ends up exportable
      exactly when the key is, with every other data flag cleared; nothing
      is written unless every check passes, and the key store is untouched. */
  function Export(ks: KeyStore, ds: DataStore, req: KeyDataRequest): (res: Outcome)
    requires Valid(ks)
    ensures res.keys == ks
    ensures res.code == 0 || res.code == -EINVAL
    ensures res.code == 0 <==> ExportAllowed(ks, ds, req)
    ensures res.code != 0 ==> res.data == ds
    ensures res.code == 0 ==>
      var key := KeyAt(ks, req.key);
      && res.data.items.Keys == ds.items.Keys
      && req.data in res.data.items
      && var out := res.data.items[req.data];
      && out.bytes == key.secret
      && (DataExportable(out.flags) <==> KeyExportable(key.flags))
      && (out.flags & OTHER_DATA_FLAGS) == 0
      && out.maxSize == ds.items[req.data].maxSize && out.refcnt == ds.items[req.data].refcnt
      && (forall d :: d in ds.items && d != req.data ==> res.data.items[d] == ds.items[d])
  {
    var (h, held) := Get(ks, req.key);
    if h.None? then
      Outcome(-EINVAL, held, ds)
    else
      var r := h.value;
      GetPutRestores(ks, req.key);
      var (dh, dheld) := DataGet(ds, req.data);
      if dh.None? then
        Outcome(-EINVAL, PutHandle(held, r), dheld)
      else
        DataGetPutRestores(ds, req.data);
        var item := held.heap[r];
        var ditem := dheld.items[req.data];
        match item.ktype
        case TypeSecret =>
          if |item.secret| > ditem.maxSize then
            Outcome(-EINVAL, PutHandle(held, r), DataPut(dheld, req.data))
          else
            var flags: Flags := if KeyExportable(item.flags) then 0 | DATA_FLAG_EXPORTABLE else 0;
            Outcome(0, PutHandle(held, r), DataPut(DataWrite(dheld, req.data, item.secret, flags), req.data))
        case _ =>
          Outcome(-EINVAL, PutHandle(held, r), DataPut(dheld, req.data))
  }

  // ---------------------------------------------------------------------
  // Import (`ncr_key_import`)

  /** What import demands of its request and data item. */
  predicate ImportAllowed(req: KeyDataRequest, data: DataItem) {
    req.ktype == TypeSecret && |req.keyId| <= MAX_KEY_ID_SIZE && |data.bytes| <= MAX_KEY_SIZE
  }

  /** The result code of a key operation together with the key item it leaves behind. */
  datatype ItemStep = ItemStep(code: int, item: KeyItem)

  /** The flags import gives a key: those requested, with the exportable bit
      forced on when the data item is exportable. Exportability can thus be
      added by the data item but never taken away; every other bit is as
      requested. */
  function ImportedFlags(requested: Flags, dataFlags: Flags): (f: Flags)
    ensures KeyExportable(f) <==> KeyExportable(requested) || DataExportable(dataFlags)
    ensures (f & OTHER_KEY_FLAGS) == (requested & OTHER_KEY_FLAGS)
  {
    if DataExportable(dataFlags) then requested | KEY_FLAG_EXPORTABLE else requested
  }

  /** What import does to the key item it holds, given the data item it reads.
      Type, algorithm and flags are written before any check, the key-id
      before the data-size check, so a failed import can leave them changed.
      The key becomes exportable when the request or the data item says so
      and keeps the other requested flag bits exactly. */
  function ImportFields(before: KeyItem, req: KeyDataRequest, data: DataItem): (step: ItemStep)
    ensures SameIdentity(before, step.item)
    ensures step.code == 0 || step.code == -EINVAL
    ensures step.item.ktype == req.ktype && step.item.algorithm == req.algorithm
    ensures step.item.flags == ImportedFlags(req.flags, data.flags)
    ensures step.code == 0 <==> ImportAllowed(req, data)
    ensures step.code == 0 ==> step.item.keyId == req.keyId && step.item.secret == data.bytes
    ensures step.code != 0 ==> step.item.secret == before.secret
    ensures req.ktype == TypeSecret && |req.keyId| <= MAX_KEY_ID_SIZE ==> step.item.keyId == req.keyId
    ensures req.ktype != TypeSecret || |req.keyId| > MAX_KEY_ID_SIZE ==> step.item.keyId == before.keyId
  {
    var requested := before.(ktype := req.ktype, algorithm := req.algorithm, flags := req.flags);
    var typed := requested.(flags := ImportedFlags(requested.flags, data.flags));
    match typed.ktype
    case TypeSecret =>
      if |req.keyId| > MAX_KEY_ID_SIZE then
        ItemStep(-EINVAL, typed)
      else
        var withId := typed.(keyId := req.keyId);
        if |data.bytes| > MAX_KEY_SIZE then
          ItemStep(-EINVAL, withId)
        else
          ItemStep(0, withId.(secret := data.bytes))
    case _ =>
      ItemStep(-EINVAL, typed)
  }

  /** Loads a key from a data item: both are looked up, the key item is
      rewritten as `ImportFields` says, and both references are given back.
      A missing key or data item changes nothing; otherwise only the key
      item changes, and the data store never does. */
  function Import(ks: KeyStore, ds: DataStore, req: KeyDataRequest): (res: Outcome)
    requires Valid(ks)
    ensures res.data == ds
    ensures !(Live(ks, req.key) && req.data in ds.items) ==> res == Outcome(-EINVAL, ks, ds)
    ensures Live(ks, req.key) && req.data in ds.items ==>
      var r := Resolve(ks, req.key).value;
      var step := ImportFields(ks.heap[r], req, ds.items[req.data]);
      res.code == step.code && res.keys == Update(ks, r, step.item)
  {
    var (h, held) := Get(ks, req.key);
    if h.None? then
      Outcome(-EINVAL, held, ds)
    else
      var r := h.value;
      GetPutRestores(ks, req.key);
      var (dh, dheld) := DataGet(ds, req.data);
      if dh.None? then
        Outcome(-EINVAL, PutHandle(held, r), dheld)
      else
        DataGetPutRestores(ds, req.data);
        var step := ImportFields(ks.heap[r], req, ds.items[req.data]);
        var written := step.item.(refcnt := held.heap[r].refcnt);
        HandleRoundTrip(ks, req.key, written);
        Finish(step.code, held, r, written, dheld, req.data)
  }

  // ---------------------------------------------------------------------
  // Generation (`ncr_key_generate`)

  /** `n` bytes of the random stream, starting at position `from`. */
  function RandomBytes(rng: nat -> byte, from: nat, n: nat): (b: seq<byte>)
    ensures |b| == n
    ensures forall i :: 0 <= i < n ==> b[i] == rng(from + i)
  {
    seq(n, i requires 0 <= i => rng(from + i))
  }

  /** What generation demands of its request. */
  predicate GenerateAllowed(req: GenerateRequest, algType: Algorithm -> KeyType) {
    algType(req.algorithm) == TypeSecret && req.bits % 8 == 0 && req.bits / 8 <= MAX_KEY_SIZE
  }

  /** Fills a key with `bits / 8` random bytes and a 5-byte random key-id.
      The type is written before it is checked, and flags and algorithm
      before the size check; the algorithm recorded is AES-CBC whatever was
      asked for. `algType` is the algorithm-to-key-type table and `rng` the
      random byte stream. */
  function Generate(ks: KeyStore, req: GenerateRequest, algType: Algorithm -> KeyType, rng: nat -> byte)
    : (res: (int, KeyStore))
    requires Valid(ks)
    ensures res.0 == 0 || res.0 == -EINVAL
    ensures !Live(ks, req.desc) ==> res == (-EINVAL, ks)
    ensures Live(ks, req.desc) ==>
      var r := Resolve(ks, req.desc).value;
      var before := ks.heap[r];
      && r in res.1.heap
      && var after := res.1.heap[r];
      && res.1 == Update(ks, r, after)
      && SameIdentity(before, after)
      && after.ktype == algType(req.algorithm)
      && (res.0 == 0 <==> GenerateAllowed(req, algType))
      && (algType(req.algorithm) != TypeSecret ==>
            after.flags == before.flags && after.algorithm == before.algorithm)
      && (algType(req.algorithm) == TypeSecret ==>
            after.flags == req.keyflags && after.algorithm == AlgAesCbc)
      && (res.0 != 0 ==> after.secret == before.secret && after.keyId == before.keyId)
      && (res.0 == 0 ==>
            && |after.secret| == req.bits / 8
            && (forall i :: 0 <= i < |after.secret| ==> after.secret[i] == rng(i))
            && |after.keyId| == GENERATED_KEY_ID_SIZE
            && (forall i :: 0 <= i < GENERATED_KEY_ID_SIZE ==> after.keyId[i] == rng(req.bits / 8 + i)))
  {
    var (h, held) := Get(ks, req.desc);
    if h.None? then
      (-EINVAL, held)
    else
      var r := h.value;
      var typed := held.heap[r].(ktype := algType(req.algorithm));
      if typed.ktype != TypeSecret then
        HandleRoundTrip(ks, req.desc, typed);
        (-EINVAL, PutHandle(Update(held, r, typed), r))
      else
        var tagged := typed.(flags := req.keyflags, algorithm := AlgAesCbc);
        var size := req.bits / 8;
        if req.bits % 8 != 0 || size > MAX_KEY_SIZE then
          HandleRoundTrip(ks, req.desc, tagged);
          (-EINVAL, PutHandle(Update(held, r, tagged), r))
        else
          var keyed := tagged.(secret := RandomBytes(rng, 0, size),
                               keyId := RandomBytes(rng, size, GENERATED_KEY_ID_SIZE));
          HandleRoundTrip(ks, req.desc, keyed);
          (0, PutHandle(Update(held, r, keyed), r))
  }

  // ---------------------------------------------------------------------
  // Information (`ncr_key_info`)

  /** The fields `struct ncr_key_info_st` reports. */
  datatype InfoReply = InfoReply(flags: Flags, ktype: KeyType, algorithm: Algorithm)

  /** `reply` is what reaches the caller's buffer (`None`: nothing is copied back). */
  datatype InfoResult = InfoResult(code: int, keys: KeyStore, reply: Option<InfoReply>)

  /** Information about a key, as written: the fields are read under a
      handle that is then released, the call reports success for a live
      descriptor, and the filled structure never reaches the caller. */
  function Info(ks: KeyStore, desc: int): (res: InfoResult)
    requires Valid(ks)
    ensures res.keys == ks
    ensures res.code == 0 <==> Live(ks, desc)
    ensures res.code != 0 ==> res.code == -EINVAL
    ensures res.reply == None
  {
    var (h, held) := Get(ks, desc);
    if h.None? then
      InfoResult(-EINVAL, held, None)
    else
      GetPutRestores(ks, desc);
      InfoResult(0, PutHandle(held, h.value), None)
  }

  /** Information about a key with the filled structure copied back on
      success: the reply carries the key's flags, type and algorithm. */
  function InfoReported(ks: KeyStore, desc: int): (res: InfoResult)
    requires Valid(ks)
    ensures res.keys == ks
    ensures res.code == 0 <==> Live(ks, desc)
    ensures res.code != 0 ==> res.code == -EINVAL && res.reply == None
    ensures res.code == 0 ==>
      var key := KeyAt(ks, desc);
      res.reply == Some(InfoReply(key.flags, key.ktype, key.algorithm))
  {
    var (h, held) := Get(ks, desc);
    if h.None? then
      InfoResult(-EINVAL, held, None)
    else
      var item := held.heap[h.value];
      GetPutRestores(ks, desc);
      InfoResult(0, PutHandle(held, h.value), Some(InfoReply(item.flags, item.ktype, item.algorithm)))
  }

  // ---------------------------------------------------------------------
  // Asymmetric operations: not implemented, every call is refused

  /** `ncr_key_generate_pair`. */
  function GeneratePair(ks: KeyStore, arg: seq<byte>): (res: (int, KeyStore))
    ensures res.0 == -EINVAL && res.1 == ks
  {
    (-EINVAL, ks)
  }

  /** `ncr_key_derive`. */
  function Derive(ks: KeyStore, arg: seq<byte>): (res: (int, KeyStore))
    ensures res.0 == -EINVAL && res.1 == ks
  {
    (-EINVAL, ks)
  }

  /** `ncr_key_get_public`. */
  function GetPublic(ks: KeyStore, arg: seq<byte>): (res: (int, KeyStore))
    ensures res.0 == -EINVAL && res.1 == ks
  {
    (-EINVAL, ks)
  }

  // ---------------------------------------------------------------------
  // Reference balance and the registry invariant

  /** `b` holds exactly the references `a` held: the same live items with
      the same counts, the same list, handles, frees and charged slots. */
  ghost predicate Balanced(a: KeyStore, b: KeyStore) {
    && b.heap.Keys == a.heap.Keys
    && (forall r :: r in a.heap ==> b.heap[r].refcnt == a.heap[r].refcnt)
    && b.list == a.list && b.handles == a.handles && b.freed == a.freed
    && b.nextRef == a.nextRef && b.keyLimit == a.keyLimit
  }

  /** Every handle import takes is given back on every path, and only the
      key item's own fields change. Export and information need no such
      lemma: their contracts already say the key store is left as it was. */
  lemma ImportBalanced(ks: KeyStore, ds: DataStore, req: KeyDataRequest)
    requires Valid(ks)
    ensures Balanced(ks, Import(ks, ds, req).keys)
  {
    if Live(ks, req.key) && req.data in ds.items {
      var r := Resolve(ks, req.key).value;
      var after := Import(ks, ds, req).keys;
      assert after == Update(ks, r, after.heap[r]);
      assert after.heap[r].refcnt == ks.heap[r].refcnt;
    }
  }

  /** Every handle generation takes is given back on every path. */
  lemma GenerateBalanced(ks: KeyStore, req: GenerateRequest, algType: Algorithm -> KeyType, rng: nat -> byte)
    requires Valid(ks)
    ensures Balanced(ks, Generate(ks, req, algType, rng).1)
  {
    if Live(ks, req.desc) {
      var r := Resolve(ks, req.desc).value;
      var after := Generate(ks, req, algType, rng).1;
      assert after == Update(ks, r, after.heap[r]);
      assert after.heap[r].refcnt == ks.heap[r].refcnt;
    }
  }

  lemma ImportPreservesValid(ks: KeyStore, ds: DataStore, req: KeyDataRequest)
    requires Valid(ks)
    ensures Valid(Import(ks, ds, req).keys)
  {
    if Live(ks, req.key) && req.data in ds.items {
      var r := Resolve(ks, req.key).value;
      UpdatePreservesValid(ks, r, ImportFields(ks.heap[r], req, ds.items[req.data]).item);
    }
  }

  lemma GeneratePreservesValid(ks: KeyStore, req: GenerateRequest, algType: Algorithm -> KeyType, rng: nat -> byte)
    requires Valid(ks)
    ensures Valid(Generate(ks, req, algType, rng).1)
  {
    if Live(ks, req.desc) {
      var r := Resolve(ks, req.desc).value;
      UpdatePreservesValid(ks, r, Generate(ks, req, algType, rng).1.heap[r]);
    }
  }

  // ---------------------------------------------------------------------
  // Key material always fits the item's buffers. Init, Import and Generate
  // write material; lookup, put, destruction and teardown only change
  // refcounts or drop items; Export and Info leave the key store as it was.

  /** Every live key's secret fits `key.secret.data` and its key-id fits `key_id`. */
  ghost predicate MaterialBounded(ks: KeyStore) {
    forall r :: r in ks.heap ==> |ks.heap[r].secret| <= MAX_KEY_SIZE && |ks.heap[r].keyId| <= MAX_KEY_ID_SIZE
  }

  lemma InitKeepsMaterialBounded(ks: KeyStore, owner: Owner, limitRet: int, allocOk: bool)
    requires Valid(ks) && MaterialBounded(ks)
    ensures MaterialBounded(Init(ks, owner, limitRet, allocOk).keys)
  {
    var res := Init(ks, owner, limitRet, allocOk);
    forall r | r in res.keys.heap
      ensures |res.keys.heap[r].secret| <= MAX_KEY_SIZE && |res.keys.heap[r].keyId| <= MAX_KEY_ID_SIZE
    {
      if r != ks.nextRef || !(limitRet >= 0 && allocOk) {
        assert r in ks.heap;
      }
    }
  }

  lemma ImportKeepsMaterialBounded(ks: KeyStore, ds: DataStore, req: KeyDataRequest)
    requires Valid(ks) && MaterialBounded(ks)
    ensures MaterialBounded(Import(ks, ds, req).keys)
  {
    if Live(ks, req.key) && req.data in ds.items {
      var r := Resolve(ks, req.key).value;
      var after := Import(ks, ds, req).keys;
      assert after == Update(ks, r, after.heap[r]);
      assert |after.heap[r].secret| <= MAX_KEY_SIZE && |after.heap[r].keyId| <= MAX_KEY_ID_SIZE;
    }
  }

  lemma GenerateKeepsMaterialBounded(ks: KeyStore, req: GenerateRequest, algType: Algorithm -> KeyType, rng: nat -> byte)
    requires Valid(ks) && MaterialBounded(ks)
    ensures MaterialBounded(Generate(ks, req, algType, rng).1)
  {
    if Live(ks, req.desc) {
      var r := Resolve(ks, req.desc).value;
      var after := Generate(ks, req, algType, rng).1;
      assert after == Update(ks, r, after.heap[r]);
      assert |after.heap[r].secret| <= MAX_KEY_SIZE && |after.heap[r].keyId| <= MAX_KEY_ID_SIZE;
    }
  }

  lemma GetKeepsMaterialBounded(ks: KeyStore, desc: int)
    requires Valid(ks) && MaterialBounded(ks)
    ensures MaterialBounded(Get(ks, desc).1)
  {
    var after := Get(ks, desc).1;
    forall r | r in after.heap
      ensures |after.heap[r].secret| <= MAX_KEY_SIZE && |after.heap[r].keyId| <= MAX_KEY_ID_SIZE
    {
      assert r in ks.heap;
    }
  }

  lemma PutHandleKeepsMaterialBounded(ks: KeyStore, r: Ref)
    requires Valid(ks) && MaterialBounded(ks) && r in ks.handles
    ensures MaterialBounded(PutHandle(ks, r))
  {
    var after := PutHandle(ks, r);
    forall q | q in after.heap
      ensures |after.heap[q].secret| <= MAX_KEY_SIZE && |after.heap[q].keyId| <= MAX_KEY_ID_SIZE
    {
      assert q in ks.heap;
    }
  }

  lemma DeinitKeepsMaterialBounded(ks: KeyStore, desc: int)
    requires Valid(ks) && MaterialBounded(ks)
    ensures MaterialBounded(Deinit(ks, desc).1)
  {
    var after := Deinit(ks, desc).1;
    forall q | q in after.heap
      ensures |after.heap[q].secret| <= MAX_KEY_SIZE && |after.heap[q].keyId| <= MAX_KEY_ID_SIZE
    {
      assert q in ks.heap;
    }
  }

  lemma ListDeinitKeepsMaterialBounded(ks: KeyStore)
    requires Valid(ks) && MaterialBounded(ks)
    ensures MaterialBounded(ListDeinit(ks))
  {
    ListDeinitReleasesEach(ks);
  }
}
