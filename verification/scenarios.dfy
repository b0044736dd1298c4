/** Properties that relate several calls: a key's bytes survive export
    followed by import, a handle keeps a destroyed key alive, and the
    create / generate / info / export / destroy sequence of a secret key.
 */
module Scenarios {
  import opened KeyTypes
  import opened Registry
  import opened DataItems
  import opened Lifecycle

  /** Exporting key `a` into data item `d` and importing `d` into key `b`
      gives `b` exactly `a`'s secret, and `b` is exportable when `a` was or
      when the import asked for it. */
  lemma ExportImportRoundTrip(ks: KeyStore, ds: DataStore, a: int, b: int, d: int, req: KeyDataRequest)
    requires Valid(ks) && Live(ks, a) && Live(ks, b)
    requires |KeyAt(ks, a).secret| <= MAX_KEY_SIZE
    requires req.key == b && req.data == d && req.ktype == TypeSecret && |req.keyId| <= MAX_KEY_ID_SIZE
    requires Export(ks, ds, KeyDataRequest(a, d, [], TypeInvalid, 0, AlgNone)).code == 0
    ensures var exported := Export(ks, ds, KeyDataRequest(a, d, [], TypeInvalid, 0, AlgNone));
      var imported := Import(exported.keys, exported.data, req);
      && imported.code == 0
      && Live(imported.keys, b)
      && KeyAt(imported.keys, b).secret == KeyAt(ks, a).secret
      && (KeyExportable(KeyAt(imported.keys, b).flags) <==> KeyExportable(req.flags) || KeyExportable(KeyAt(ks, a).flags))
  {
    var exported := Export(ks, ds, KeyDataRequest(a, d, [], TypeInvalid, 0, AlgNone));
    var data := exported.data.items[d];
    var rb := Resolve(ks, b).value;
    var step := ImportFields(ks.heap[rb], req, data);
    var imported := Import(exported.keys, exported.data, req);
    assert imported.keys == Update(ks, rb, step.item);
    assert rb in imported.keys.list && imported.keys.heap[rb].desc == b;
    ImportPreservesValid(ks, exported.data, req);
    ResolveUnique(imported.keys, b, rb);
  }

  /** A caller holding a handle on a key keeps it alive across its
      destruction: the descriptor stops resolving at once, and the item is
      freed, giving its KEY slot back, only when the handle is put and no
      other handle remains. */
  lemma HandleOutlivesDeinit(ks: KeyStore, desc: int)
    requires Valid(ks) && Live(ks, desc)
    ensures var (h, held) := Get(ks, desc);
      && h.Some? && Valid(held)
      && var r := h.value;
      && var destroyed := Deinit(held, desc).1;
      && Valid(destroyed) && r in destroyed.handles && r in destroyed.heap
      && var done := PutHandle(destroyed, r);
      && Get(destroyed, desc).0 == None
      && destroyed.heap[r].refcnt == ks.handles[r] + 1
      && (r !in done.heap <==> ks.handles[r] == 0)
      && (r !in done.heap ==> Count(done.keyLimit, ks.heap[r].owner) == Count(ks.keyLimit, ks.heap[r].owner) - 1)
  {
    var (h, held) := Get(ks, desc);
    var r := h.value;
    GetPreservesValid(ks, desc);
    ResolveUnique(held, desc, r);
    var destroyed := Deinit(held, desc).1;
    DeinitThenGetMisses(held, desc);
    DeinitPreservesValid(held, desc);
    assert r !in destroyed.list;
    PutHandlePreservesValid(destroyed, r);
  }

  /** An algorithm table in which AES-CBC names a secret-key algorithm. */
  function SecretTable(alg: Algorithm): KeyType {
    if alg == AlgAesCbc then TypeSecret else TypePublic
  }

  /** A session creates a key, generates a 128-bit exportable AES-CBC key in
      it, queries its information, exports it into a 32-byte data item and
      destroys it: every step succeeds and the data item holds the 16 key
      bytes and is exportable. The query as written reports success but
      delivers nothing; the corrected query delivers the key's flags, type
      and algorithm. Afterwards the descriptor no longer resolves. */
  lemma SecretKeyLifecycle(owner: Owner, rng: nat -> byte)
    ensures
      var created := Init(EmptyStore, owner, 0, true);
      && Valid(created.keys)
      && var gen := Generate(created.keys, GenerateRequest(1, AlgAesCbc, KEY_FLAG_EXPORTABLE, 128), SecretTable, rng);
      && Valid(gen.1) && Live(gen.1, 1)
      && var info := InfoReported(gen.1, 1);
      && var ds := DataStore(map[7 := DataItem([], 32, 0, 1)]);
      && var exported := Export(gen.1, ds, KeyDataRequest(1, 7, [], TypeInvalid, 0, AlgNone));
      && 7 in exported.data.items
      && var destroyed := Deinit(exported.keys, 1);
      && created.code == 0 && created.desc == Some(1)
      && gen.0 == 0
      && Info(gen.1, 1).code == 0 && Info(gen.1, 1).reply == None
      && info.code == 0 && info.reply == Some(InfoReply(KEY_FLAG_EXPORTABLE, TypeSecret, AlgAesCbc))
      && exported.code == 0
      && |exported.data.items[7].bytes| == 16
      && exported.data.items[7].bytes == KeyAt(gen.1, 1).secret
      && DataExportable(exported.data.items[7].flags)
      && destroyed.0 == 0
      && Get(destroyed.1, 1).0 == None
  {
    EmptyStoreValid();
    var created := Init(EmptyStore, owner, 0, true);
    InitPreservesValid(EmptyStore, owner, 0, true);
    var ks := created.keys;
    assert ks.list == [0] && ks.heap[0].desc == 1;
    ResolveUnique(ks, 1, 0);
    var gen := Generate(ks, GenerateRequest(1, AlgAesCbc, KEY_FLAG_EXPORTABLE, 128), SecretTable, rng);
    GeneratePreservesValid(ks, GenerateRequest(1, AlgAesCbc, KEY_FLAG_EXPORTABLE, 128), SecretTable, rng);
    var ks2 := gen.1;
    assert ks2 == Update(ks, 0, ks2.heap[0]);
    ResolveUnique(ks2, 1, 0);
    var ds := DataStore(map[7 := DataItem([], 32, 0, 1)]);
    assert KeyExportable(KEY_FLAG_EXPORTABLE);
    var exported := Export(ks2, ds, KeyDataRequest(1, 7, [], TypeInvalid, 0, AlgNone));
    assert ExportAllowed(ks2, ds, KeyDataRequest(1, 7, [], TypeInvalid, 0, AlgNone));
    DeinitThenGetMisses(exported.keys, 1);
  }
}
