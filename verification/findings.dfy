/** Three places where ncr-key.c does something other than it evidently
    means to. Each is shown twice: as written, with the input that exposes
    it, and corrected, with the intended property proved.
 */
module Findings {
  import opened KeyTypes
  import opened Registry
  import opened DataItems
  import opened Lifecycle

  // ---------------------------------------------------------------------
  // 1. Descriptor allocation wraps around in a 32-bit `ncr_key_t`.

  const INT32_MIN: int := -0x8000_0000
  const INT32_MAX: int := 0x7fff_ffff

  /** Two's-complement 32-bit wrap-around of `x`. */
  function Wrap32(x: int): (w: int)
    ensures INT32_MIN <= w <= INT32_MAX
    ensures INT32_MIN <= x <= INT32_MAX ==> w == x
  {
    (x - INT32_MIN) % 0x1_0000_0000 + INT32_MIN
  }

  /** `_ncr_key_get_new_desc` computed in 32-bit `int`: the increment after
      the scan wraps. */
  function NewDescAsWritten(ks: KeyStore): (d: int)
    requires ListInHeap(ks)
    ensures INT32_MIN <= d <= INT32_MAX
    ensures MaxFrom(ks, 0, 0) < INT32_MAX ==> d == NewDesc(ks)
  {
    Wrap32(MaxFrom(ks, 0, 0) + 1)
  }

  /** A registry holding one key with the largest descriptor. */
  const AtLimit: KeyStore := KeyStore(map[0 := FreshItem(INT32_MAX, 0)], [0], multiset{}, 1, {}, map[0 := 1])

  /** Once a live key holds descriptor 2147483647 the next key gets
      -2147483648, and the one after it gets -2147483648 again: two live keys
      share a descriptor, and a lookup of it reaches only one of them. */
  lemma NewDescWrapsToDuplicate()
    ensures NewDescAsWritten(AtLimit) == INT32_MIN
    ensures var grown := AtLimit.(heap := AtLimit.heap[1 := FreshItem(INT32_MIN, 0)], list := [1, 0]);
      && ListInHeap(grown)
      && NewDescAsWritten(grown) == INT32_MIN
      && grown.heap[1].desc == NewDescAsWritten(grown)
  {
    assert MaxFrom(AtLimit, 0, 0) == INT32_MAX by {
      assert MaxFrom(AtLimit, 1, INT32_MAX) == INT32_MAX;
    }
    var grown := AtLimit.(heap := AtLimit.heap[1 := FreshItem(INT32_MIN, 0)], list := [1, 0]);
    assert MaxFrom(grown, 0, 0) == INT32_MAX by {
      assert MaxFrom(grown, 2, INT32_MAX) == INT32_MAX;
      assert MaxFrom(grown, 1, 0) == MaxFrom(grown, 2, INT32_MAX);
    }
  }

  // ---------------------------------------------------------------------
  // 2. Information is gathered and never copied back.

  /** As written, a successful information call delivers nothing, while the
      corrected call delivers the key's flags, type and algorithm. */
  lemma InfoReplyLost(ks: KeyStore, desc: int)
    requires Valid(ks) && Live(ks, desc)
    ensures Info(ks, desc).code == 0 && Info(ks, desc).reply == None
    ensures var key := KeyAt(ks, desc);
      InfoReported(ks, desc).reply == Some(InfoReply(key.flags, key.ktype, key.algorithm))
  {
    assert InfoReported(ks, desc).code == 0;
  }

  // ---------------------------------------------------------------------
  // 3. Import propagates exportability in the wrong direction.

  /** The flags import evidently means to give a key: those requested, with
      the exportable bit cleared when the data item may not be exported. A
      key is then exportable only when both the request and the data item
      allow it. */
  function IntendedImportedFlags(requested: Flags, dataFlags: Flags): (f: Flags)
    ensures KeyExportable(f) <==> KeyExportable(requested) && DataExportable(dataFlags)
    ensures (f & OTHER_KEY_FLAGS) == (requested & OTHER_KEY_FLAGS)
  {
    if DataExportable(dataFlags) then requested else requested & OTHER_KEY_FLAGS
  }

  /** As written: a caller that imports a non-exportable data item and asks
      for an exportable key gets one, and exporting that key yields an
      exportable data item holding the same bytes. */
  lemma ImportLaundersExportability(ks: KeyStore, ds: DataStore, req: KeyDataRequest, out: int)
    requires Valid(ks) && Live(ks, req.key) && req.data in ds.items
    requires !DataExportable(ds.items[req.data].flags)
    requires KeyExportable(req.flags)
    requires ImportAllowed(req, ds.items[req.data])
    requires out in ds.items && |ds.items[req.data].bytes| <= ds.items[out].maxSize
    ensures var imported := Import(ks, ds, req);
      && imported.code == 0
      && Valid(imported.keys) && Live(imported.keys, req.key)
      && KeyExportable(KeyAt(imported.keys, req.key).flags)
      && var exported := Export(imported.keys, imported.data, KeyDataRequest(req.key, out, [], TypeInvalid, 0, AlgNone));
      && exported.code == 0
      && out in exported.data.items
      && DataExportable(exported.data.items[out].flags)
      && exported.data.items[out].bytes == ds.items[req.data].bytes
  {
    var r := Resolve(ks, req.key).value;
    var imported := Import(ks, ds, req);
    ImportPreservesValid(ks, ds, req);
    assert imported.keys == Update(ks, r, imported.keys.heap[r]);
    assert r in imported.keys.list && imported.keys.heap[r].desc == req.key;
    ResolveUnique(imported.keys, req.key, r);
    assert ExportAllowed(imported.keys, imported.data, KeyDataRequest(req.key, out, [], TypeInvalid, 0, AlgNone));
  }

  /** Import with the intended flags: the same checks, codes and partial
      writes as `Import`, except that the key receives `IntendedImportedFlags`. */
  function ImportIntended(ks: KeyStore, ds: DataStore, req: KeyDataRequest): (res: Outcome)
    requires Valid(ks)
    ensures Valid(res.keys) && res.data == ds
    ensures res.code == Import(ks, ds, req).code
    ensures !(Live(ks, req.key) && req.data in ds.items) ==> res == Outcome(-EINVAL, ks, ds)
    ensures Live(ks, req.key) && req.data in ds.items ==>
      var r := Resolve(ks, req.key).value;
      var data := ds.items[req.data];
      && Live(res.keys, req.key)
      && KeyAt(res.keys, req.key) == ImportFields(ks.heap[r], req, data).item.(flags := IntendedImportedFlags(req.flags, data.flags))
      && res.keys == Update(ks, r, KeyAt(res.keys, req.key))
  {
    if Live(ks, req.key) && req.data in ds.items then
      var r := Resolve(ks, req.key).value;
      var data := ds.items[req.data];
      var step := ImportFields(ks.heap[r], req, data);
      var item := step.item.(flags := IntendedImportedFlags(req.flags, data.flags));
      UpdatePreservesValid(ks, r, item);
      ResolveUnique(Update(ks, r, item), req.key, r);
      Outcome(step.code, Update(ks, r, item), ds)
    else
      Outcome(-EINVAL, ks, ds)
  }

  /** With the intended flags, a key loaded from a non-exportable data item
      is not exportable, whatever the request says, so exporting it can only
      produce a non-exportable data item. As written, the same request
      yields an exportable key. */
  lemma IntendedImportKeepsSecretsInside(ks: KeyStore, ds: DataStore, req: KeyDataRequest, out: int)
    requires Valid(ks) && Live(ks, req.key) && req.data in ds.items
    requires !DataExportable(ds.items[req.data].flags)
    ensures var imported := ImportIntended(ks, ds, req);
      && !KeyExportable(KeyAt(imported.keys, req.key).flags)
      && var exported := Export(imported.keys, imported.data, KeyDataRequest(req.key, out, [], TypeInvalid, 0, AlgNone));
      && (exported.code == 0 ==> out in exported.data.items && !DataExportable(exported.data.items[out].flags))
    ensures KeyExportable(req.flags) ==> KeyExportable(ImportedFlags(req.flags, ds.items[req.data].flags))
  {
  }
}
