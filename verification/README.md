# Key objects of the NCR crypto device (ncr-key.c)

A Dafny model of the key half of the NCR interface in `ncr-key.c` from
cryptodev-linux. It covers the per-session key registry and the key ioctls
built on it:

- the registry: descriptor allocation, lookup with a reference, reference
  release, creation (`ncr_key_init`), destruction (`ncr_key_deinit`) and
  session teardown (`ncr_key_list_deinit`);
- export of a secret key into a data item, import of a key from a data item,
  secret-key generation and key information;
- the three asymmetric entry points, which refuse every call.

Each ioctl is a pure function from the stores before the call to its result
code and the stores after it. The registry is a `KeyStore`, which holds:

- a heap of live key items, keyed by identity;
- the registry list, head first, because `list_add` inserts at the head;
- the lookup references still outstanding;
- the identities already freed;
- the KEY slots the limits subsystem has charged to each owner.

`Registry.Valid` is the registry invariant:

- every listed item is live, and none is listed twice;
- every refcount equals the list's creation reference plus one per
  outstanding lookup, and is never zero;
- identities are never reused;
- linked descriptors are positive and pairwise distinct;
- every live item of an owner sits in a charged slot.

Every operation is proved to keep it.

Modules:

- `KeyTypes` (types.dfy): the key item, its flags, types and algorithms, and
  the constants.
- `Registry` (registry.dfy): the registry and its invariant.
- `DataItems` (data_items.dfy): the data-item collaborator as the key code
  sees it.
- `Lifecycle` (lifecycle.dfy): export, import, generation, information and
  the stubs.
- `Scenarios` (scenarios.dfy): properties that span several calls.
- `Findings` (findings.dfy): three defects, each with an as-written and a
  corrected half.

Environment inputs are parameters:

- The limits subsystem's answer is `limitRet`.
- The success of `kmalloc` is `allocOk`.
- `get_random_bytes` is an arbitrary byte stream `rng`.
- `ncr_algorithm_to_key_type` is an arbitrary table `algType`.

## Model

| member | source | states |
|---|---|---|
| Registry.MaxFrom | ncr-key.c:59-61 | the scan's running maximum is at least its start, bounds every descriptor it visits, and is the start or one of those descriptors |
| Registry.NewDesc | ncr-key.c:54-65 | a new descriptor is at least 1, exceeds every linked descriptor, and is 1 or one more than some linked descriptor |
| Registry.FindFrom | ncr-key.c:73-79 | the lookup scan stops at the first linked item with the descriptor, in list order, and reports none only when no later item has it |
| Registry.Resolve | ncr-key.c:68-84 | a lookup finds a linked item carrying the descriptor, and finds nothing exactly when no linked item carries it |
| Registry.ResolveUnique | ncr-key.c:73-77 | in a valid registry, a lookup finds the one linked item with that descriptor |
| Registry.Get | ncr-key.c:68-84 | a miss changes nothing; a hit adds exactly one reference and one outstanding handle to the found item and changes nothing else |
| Registry.Put | ncr-key.c:86-92 | dropping the last reference frees the item and gives one KEY slot back to its owner only; otherwise only that refcount falls by one |
| Registry.PutHandle | ncr-key.c:86-92 | giving back a lookup's reference removes one handle and then behaves as the put above |
| Registry.Init | ncr-key.c:94-131 | a refused limit returns its code with nothing changed; a failed allocation returns -ENOMEM with the slot still charged and no key; success returns exactly the allocator's descriptor (one more than the largest linked one, or 1), links a zeroed item with refcount 1 at the head under it and charges one slot |
| Registry.Deinit | ncr-key.c:134-154 | always returns 0; a missing descriptor changes nothing; otherwise exactly the first match is unlinked, the other items keeping their order, and its creation reference dropped, freeing it only if that was the last reference |
| Registry.ListDeinit | ncr-key.c:37-50 | teardown empties the list, keeps the invariant and leaves outstanding handles alone |
| Registry.ListDeinitReleasesEach | ncr-key.c:37-50 | after teardown an item survives exactly when a handle on it is outstanding, and then with only those handles' references and unchanged contents |
| Registry.ListDeinitFreed | ncr-key.c:37-50 | teardown frees exactly the linked items nobody holds a handle on |
| Registry.UnlinkHeadEffect | ncr-key.c:44-47 | one teardown step unlinks the head and drops its creation reference, giving its owner's KEY slot back exactly when that frees it, and leaves every other item and slot as it was |
| Registry.ListDeinitReturnsSlots | ncr-key.c:37-50 | teardown gives each owner back exactly one KEY slot per linked item of theirs that nobody holds a handle on |
| Registry.EmptyStoreValid | ncr-key.c:118-123 | the base case of the invariant: the empty list a session holds before its first `ncr_key_init` links a key satisfies it (ncr-key.c does not initialise the list itself) |
| Registry.GetPreservesValid | ncr-key.c:68-84 | a lookup keeps the registry invariant |
| Registry.PutHandlePreservesValid | ncr-key.c:86-92 | giving back a handle keeps the invariant and frees the item exactly when it is unlinked and that was the last handle |
| Registry.InitPreservesValid | ncr-key.c:94-131 | creation keeps the invariant on all three paths, including the leaked slot |
| Registry.InitThenGetHits | ncr-key.c:120-123 | after a successful creation a lookup of the returned descriptor finds the new item |
| Registry.DeinitPreservesValid | ncr-key.c:134-154 | destruction keeps the invariant |
| Registry.DeinitThenGetMisses | ncr-key.c:143-149 | after destruction no lookup finds the descriptor, even while handles on the item are outstanding |
| Registry.DeinitFreesIffNoHandles | ncr-key.c:143-149 | destruction frees the item exactly when no lookup handle on it is outstanding |
| Registry.HandleRoundTrip | ncr-key.c:68-92 | a lookup, a change of the item's fields and the matching put equal changing the fields directly, with every reference given back |
| Registry.GetPutRestores | ncr-key.c:68-92 | a lookup followed by its put leaves the registry exactly as it was |
| DataItems.DataGet | ncr-key.c:175-180 | a data lookup of a missing descriptor changes nothing; a hit adds one reference to that item only |
| DataItems.DataPut | ncr-key.c:209-210 | a data put removes one reference from that item only |
| DataItems.DataWrite | ncr-key.c:191-199 | writing a data item sets its bytes and flags and leaves its capacity, refcount and every other item alone |
| DataItems.DataGetPutRestores | ncr-key.c:175-218 | a data lookup followed by its put changes nothing |
| Lifecycle.Export | ncr-key.c:159-221 | succeeds exactly for a live secret key, an existing data item and a secret that fits its capacity, and otherwise returns -EINVAL with nothing written; on success the item holds the key's bytes, is exportable exactly when the key is, has every other data flag cleared, and the key registry is unchanged |
| Lifecycle.ImportedFlags | ncr-key.c:249-256 | the imported key is exportable when requested or when the data item is exportable; every other bit is exactly as requested |
| Lifecycle.ImportFields | ncr-key.c:249-286 | type, algorithm and flags are written whatever happens next; success requires a secret type, a short enough key-id and a short enough secret, and then copies both; an oversized secret leaves the new key-id but the old secret |
| Lifecycle.Import | ncr-key.c:226-299 | a missing key or data item returns -EINVAL with nothing changed; otherwise only the found key item changes, as the previous row says, and the data store never changes |
| Lifecycle.Generate | ncr-key.c:303-352 | a missing key returns -EINVAL; otherwise the type is always overwritten; flags and the fixed AES-CBC algorithm are written once the type is secret; success requires a whole number of bytes within the maximum and then stores that many random bytes and a 5-byte random key-id; a failure keeps the old material |
| Lifecycle.Info | ncr-key.c:354-374 | succeeds exactly for a live descriptor, leaves the registry unchanged, and delivers no reply |
| Lifecycle.InfoReported | ncr-key.c:367-369 | on success the reply carries the key's flags, type and algorithm |
| Lifecycle.GeneratePair | ncr-key.c:377-380 | always refused with -EINVAL, nothing changed |
| Lifecycle.Derive | ncr-key.c:382-385 | always refused with -EINVAL, nothing changed |
| Lifecycle.GetPublic | ncr-key.c:387-390 | always refused with -EINVAL, nothing changed |
| Lifecycle.ImportBalanced | ncr-key.c:288-298 | on every path import gives back each reference it took: same live items, refcounts, list, handles and charged slots |
| Lifecycle.GenerateBalanced | ncr-key.c:344-351 | on every path generation gives back each reference it took |
| Lifecycle.ImportPreservesValid | ncr-key.c:226-299 | import keeps the registry invariant |
| Lifecycle.GeneratePreservesValid | ncr-key.c:303-352 | generation keeps the registry invariant |
| Lifecycle.InitKeepsMaterialBounded | ncr-key.c:114-116 | a created key's material fits the item's secret and key-id buffers |
| Lifecycle.ImportKeepsMaterialBounded | ncr-key.c:261-278 | import never stores a key-id or secret longer than its buffer |
| Lifecycle.GenerateKeepsMaterialBounded | ncr-key.c:329-342 | generation never stores a key-id or secret longer than its buffer |
| Lifecycle.GetKeepsMaterialBounded | ncr-key.c:68-84 | a lookup changes only a refcount, so every key's material still fits its buffers |
| Lifecycle.PutHandleKeepsMaterialBounded | ncr-key.c:86-92 | a put changes a refcount or frees an item, so every remaining key's material still fits |
| Lifecycle.DeinitKeepsMaterialBounded | ncr-key.c:134-154 | destruction leaves every remaining key's material within its buffers |
| Lifecycle.ListDeinitKeepsMaterialBounded | ncr-key.c:37-50 | teardown leaves every surviving key's material within its buffers |
| Scenarios.ExportImportRoundTrip | ncr-key.c:159-299 | exporting a key and importing the data item into another key gives it exactly the same secret, exportable when the first key was or the import asked for it |
| Scenarios.HandleOutlivesDeinit | ncr-key.c:68-154 | a handle keeps a destroyed key alive: the descriptor stops resolving at once, and the item and its slot go away only when the last handle is put |
| Scenarios.SecretKeyLifecycle | ncr-key.c:94-374 | create, generate 128 bits, query, export into a 32-byte item and destroy all succeed; the query as written delivers nothing while the corrected query reports exportable, secret, AES-CBC; the item holds the 16 generated bytes and is exportable; the descriptor then no longer resolves |
| Findings.NewDescAsWritten | ncr-key.c:54-65 | in 32-bit arithmetic the new descriptor stays in range and agrees with the unbounded one while no descriptor is at the maximum |
| Findings.NewDescWrapsToDuplicate | ncr-key.c:62-64 | a live descriptor 2147483647 makes the next one -2147483648, and again the next, so two live keys share a descriptor |
| Findings.InfoReplyLost | ncr-key.c:367-373 | a successful information call delivers nothing, where the corrected one delivers the key's fields |
| Findings.IntendedImportedFlags | ncr-key.c:252-256 | the intended imported key is exportable only when both the request and the data item allow it; other bits as requested |
| Findings.ImportIntended | ncr-key.c:226-299 | import with the intended flags keeps the invariant, returns the same codes and makes the same partial writes |
| Findings.ImportLaundersExportability | ncr-key.c:249-256 | as written, a non-exportable data item imported with EXPORTABLE requested yields an exportable key whose export yields an exportable item with the same bytes |
| Findings.IntendedImportKeepsSecretsInside | ncr-key.c:252-256 | with the intended flags, such a key is not exportable, so its export can only produce a non-exportable data item |

## Left out

- Semaphores and atomics. Every entry point is one atomic transition. The field writes of import and generation under an outstanding handle are not modelled as racing with other calls.
- `copy_from_user` / `copy_to_user`. Requests are parameters and results are return values. Their return values, which the source ignores, are not modelled.
- The `lst == NULL` guard in `ncr_key_list_deinit` (line 39). The registry always exists in this model.
- Data-item allocation and freeing, and the data list's semaphore. `ncr-data.c` is not part of this model. A data item is looked up in a map by descriptor, and only the calls the key code makes are modelled.
- The limits subsystem's internals. It is modelled as an answer `limitRet`. A refusal leaves the counter unchanged, and a removal decrements the owner's KEY count.
- `kmalloc` / `kfree` / `memset`. `kmalloc` is the `allocOk` flag, `kfree` adds to `freed`, and the zeroed item is `FreshItem`.
- `printk` / `err()`. These are diagnostics only.
- `get_random_bytes` is a byte stream `rng`. The key bytes are read from position 0, and the key-id from just after them.
- `ncr_algorithm_to_key_type` is an arbitrary table `algType`.
- Header constants. `ncr.h` and `ncr_int.h` are not part of this model. These values are assumed:
  - `MAX_KEY_SIZE` = 32
  - `MAX_KEY_ID_SIZE` = 20
  - `EINVAL` = 22
  - `ENOMEM` = 12
  - both EXPORTABLE flags are bit 0
  - the zeroed type and algorithm are an "invalid" type and "no algorithm"
  - descriptors are unbounded integers, except where Findings models them in 32 bits
- Raw type and algorithm numbers. `TypeOther` and `AlgOther` stand only for values other than the named constants, so a caller's raw secret type is always `TypeSecret`.
- Public/private key payloads. The asymmetric paths all fail, so a key carries only a secret and a key-id.
- Lifecycle.Generate: `bits` is a natural number. The source's field width and any overflow of `bits/8` are not modelled.
- The `python-bindings-fix.py` helper script under `crypto/`. It does not belong to the key code.

## Findings

| source | as written | input that shows it | evidently intended | confidence | as-written member | corrected member |
|---|---|---|---|---|---|---|
| ncr-key.c:54-65 | the new descriptor is `max + 1` computed in a 32-bit `ncr_key_t` with no bound | a live key with descriptor 2147483647: the next key gets -2147483648, and so does the one after it, so two live keys share a descriptor | a fresh positive descriptor different from every live one | medium, not executed (assumes `ncr_key_t` is a 32-bit `int`) | Findings.NewDescWrapsToDuplicate | Registry.NewDesc |
| ncr-key.c:354-374 | the key's flags, type and algorithm are written into a local copy that is never copied back | any live descriptor: the call returns 0 and the caller's structure is unchanged | copy the filled structure back to the caller on success | high, not executed | Findings.InfoReplyLost | Lifecycle.InfoReported |
| ncr-key.c:249-256 | EXPORTABLE is forced on when the data item is exportable, and nothing clears it when the data item is not | importing a non-exportable data item with EXPORTABLE requested gives an exportable key, and exporting that key gives an exportable data item with the same bytes | clear the key's EXPORTABLE bit when the data item is not exportable, as the comments at lines 223-224 and 252-253 say | medium, not executed | Findings.ImportLaundersExportability | Findings.ImportIntended |

Notes on the corrected members:

- `Registry.NewDesc` is the unbounded allocator that `Registry.Init` uses.
  Its contract proves each descriptor positive and above every linked one,
  so it is fresh, and `Registry.InitPreservesValid` keeps linked
  descriptors distinct.
- `Lifecycle.InfoReported` is the information call that
  `Scenarios.SecretKeyLifecycle` uses.
- `Lifecycle.Import` keeps the as-written flag rule, so the rest of the model
  describes what the code does. `Findings.ImportIntended` is the corrected
  import. `Findings.IntendedImportKeepsSecretsInside` proves that it keeps
  non-exportable material inside the device.
