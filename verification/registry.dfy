/** The per-session key registry of ncr-key.c: descriptor allocation, lookup
    with a reference, reference release, creation, destruction and teardown.

    Each entry point is one atomic step (the registry semaphore serialises
    membership and refcount changes), so it is a pure transition from one
    `KeyStore` to the next.
 */
module Registry {
  import opened KeyTypes

  /** The registry together with everything its operations touch.
      - `heap`: every allocated and not yet freed key item, by identity;
      - `list`: the registry list, head first (`list_add` inserts at the head);
      - `handles`: the references taken by successful lookups and not yet put;
      - `nextRef`: the identity the next allocation receives;
      - `freed`: the identities already returned by `kfree`;
      - `keyLimit`: the KEY slots the limits subsystem has charged per owner. */
  datatype KeyStore = KeyStore(
    heap: map<Ref, KeyItem>,
    list: seq<Ref>,
    handles: multiset<Ref>,
    nextRef: Ref,
    freed: set<Ref>,
    keyLimit: map<Owner, int>)

  /** A session that has not created any key yet. */
  const EmptyStore: KeyStore := KeyStore(map[], [], multiset{}, 0, {}, map[])

  /** The KEY slots `limits` charges to `o`. */
  function Count(limits: map<Owner, int>, o: Owner): int {
    if o in limits then limits[o] else 0
  }

  /** The live (allocated, not freed) items created by `o`. */
  function Owned(heap: map<Ref, KeyItem>, o: Owner): set<Ref> {
    set r | r in heap && heap[r].owner == o
  }

  /** The reference the registry list itself holds on `r` (the creation reference). */
  function Links(ks: KeyStore, r: Ref): nat {
    if r in ks.list then 1 else 0
  }

  // ---------------------------------------------------------------------
  // The registry invariant

  predicate ListInHeap(ks: KeyStore) {
    forall r :: r in ks.list ==> r in ks.heap
  }

  predicate ListDistinct(ks: KeyStore) {
    forall i, j :: 0 <= i < j < |ks.list| ==> ks.list[i] != ks.list[j]
  }

  predicate HandlesLive(ks: KeyStore) {
    forall r :: r in ks.handles ==> r in ks.heap
  }

  /** Every live item's refcount is its creation reference (while linked)
      plus one per outstanding lookup, and is never zero. */
  predicate RefcountsAccounted(ks: KeyStore) {
    forall r :: r in ks.heap ==> ks.heap[r].refcnt == Links(ks, r) + ks.handles[r] >= 1
  }

  /** Identities are never reused: live and freed identities lie below `nextRef`
      and no live item has been freed. */
  predicate AllocationFresh(ks: KeyStore) {
    && (forall r :: r in ks.heap ==> r < ks.nextRef && r !in ks.freed)
    && (forall r :: r in ks.freed ==> r < ks.nextRef)
  }

  /** Linked items carry descriptors that are positive and pairwise distinct. */
  predicate DescriptorsUnique(ks: KeyStore)
    requires ListInHeap(ks)
  {
    && (forall r :: r in ks.list ==> ks.heap[r].desc >= 1)
    && (forall p, q :: p in ks.list && q in ks.list && p != q ==> ks.heap[p].desc != ks.heap[q].desc)
  }

  /** Every live item of an owner occupies a charged KEY slot. */
  ghost predicate LimitsCover(ks: KeyStore) {
    Covered(ks.heap, ks.keyLimit)
  }

  ghost predicate Covered(heap: map<Ref, KeyItem>, limits: map<Owner, int>) {
    forall o :: Count(limits, o) >= |Owned(heap, o)|
  }

  ghost predicate Valid(ks: KeyStore) {
    && ListInHeap(ks)
    && ListDistinct(ks)
    && HandlesLive(ks)
    && RefcountsAccounted(ks)
    && AllocationFresh(ks)
    && DescriptorsUnique(ks)
    && LimitsCover(ks)
  }

  lemma EmptyStoreValid()
    ensures Valid(EmptyStore)
  {
    forall o ensures Count(EmptyStore.keyLimit, o) >= |Owned(EmptyStore.heap, o)| {
      assert Owned(EmptyStore.heap, o) == {};
    }
  }

  // ---------------------------------------------------------------------
  // Relations between the store before and after one reference changes

  /** `b` is `a` with one more reference on `r`, taken by a lookup. */
  predicate Acquired(a: KeyStore, b: KeyStore, r: Ref) {
    && r in a.heap
    && b.heap.Keys == a.heap.Keys
    && b.heap[r] == a.heap[r].(refcnt := a.heap[r].refcnt + 1)
    && (forall q :: q in a.heap && q != r ==> b.heap[q] == a.heap[q])
    && b.handles == a.handles + multiset{r}
    && b.list == a.list && b.nextRef == a.nextRef && b.freed == a.freed && b.keyLimit == a.keyLimit
  }

  /** `b` is `a` after the last reference on `r` went away: `r` is freed and
      its owner's KEY slot is given back; no other item changes. */
  ghost predicate Released(a: KeyStore, b: KeyStore, r: Ref) {
    && r in a.heap
    && b.heap.Keys == a.heap.Keys - {r}
    && (forall q :: q in b.heap ==> b.heap[q] == a.heap[q])
    && b.freed == a.freed + {r}
    && Count(b.keyLimit, a.heap[r].owner) == Count(a.keyLimit, a.heap[r].owner) - 1
    && (forall o :: o != a.heap[r].owner ==> Count(b.keyLimit, o) == Count(a.keyLimit, o))
  }

  /** `b` is `a` with one reference on `r` dropped and `r` still alive. */
  predicate Dropped(a: KeyStore, b: KeyStore, r: Ref) {
    && r in a.heap && a.heap[r].refcnt >= 1
    && b.heap.Keys == a.heap.Keys
    && b.heap[r] == a.heap[r].(refcnt := a.heap[r].refcnt - 1)
    && (forall q :: q in a.heap && q != r ==> b.heap[q] == a.heap[q])
    && b.freed == a.freed && b.keyLimit == a.keyLimit
  }

  // ---------------------------------------------------------------------
  // Descriptor allocation (`_ncr_key_get_new_desc`)

  function Max(a: int, b: int): int {
    if a < b then b else a
  }

  /** The running maximum of the scan: `mx` folded with the descriptors of
      `list[i..]`, in list order. */
  function MaxFrom(ks: KeyStore, i: nat, mx: int): (m: int)
    requires ListInHeap(ks) && i <= |ks.list|
    ensures m >= mx
    ensures forall j :: i <= j < |ks.list| ==> ks.heap[ks.list[j]].desc <= m
    ensures m == mx || exists j :: i <= j < |ks.list| && ks.heap[ks.list[j]].desc == m
    decreases |ks.list| - i
  {
    if i == |ks.list| then mx
    else MaxFrom(ks, i + 1, Max(mx, ks.heap[ks.list[i]].desc))
  }

  /** The descriptor `ncr_key_init` gives a new key: one more than the largest
      linked descriptor, or 1 when no linked descriptor is positive. */
  function NewDesc(ks: KeyStore): (d: int)
    requires ListInHeap(ks)
    ensures d >= 1
    ensures forall r :: r in ks.list ==> ks.heap[r].desc < d
    ensures d == 1 || exists r :: r in ks.list && ks.heap[r].desc == d - 1
  {
    var m := MaxFrom(ks, 0, 0);
    assert forall r :: r in ks.list ==> ks.heap[r].desc <= m by {
      forall r | r in ks.list ensures ks.heap[r].desc <= m {
        var j :| 0 <= j < |ks.list| && ks.list[j] == r;
      }
    }
    m + 1
  }

  // ---------------------------------------------------------------------
  // Lookup (`ncr_key_item_get`)

  /** The first position of the scan at or after `i` whose item has descriptor `desc`. */
  function FindFrom(ks: KeyStore, desc: int, i: nat): (k: Option<nat>)
    requires ListInHeap(ks) && i <= |ks.list|
    ensures k.Some? ==> i <= k.value < |ks.list| && ks.heap[ks.list[k.value]].desc == desc
    ensures k.Some? ==> forall j :: i <= j < k.value ==> ks.heap[ks.list[j]].desc != desc
    ensures k.None? ==> forall j :: i <= j < |ks.list| ==> ks.heap[ks.list[j]].desc != desc
    decreases |ks.list| - i
  {
    if i == |ks.list| then None
    else if ks.heap[ks.list[i]].desc == desc then Some(i)
    else FindFrom(ks, desc, i + 1)
  }

  /** Whether some linked item carries descriptor `desc`. */
  predicate Live(ks: KeyStore, desc: int)
    requires ListInHeap(ks)
  {
    exists r :: r in ks.list && ks.heap[r].desc == desc
  }

  /** The item a lookup of `desc` finds, if any. */
  function Resolve(ks: KeyStore, desc: int): (res: Option<Ref>)
    requires ListInHeap(ks)
    ensures res.Some? ==> res.value in ks.list && ks.heap[res.value].desc == desc
    ensures res.None? <==> !Live(ks, desc)
  {
    match FindFrom(ks, desc, 0)
    case None =>
      assert !Live(ks, desc) by {
        forall r | r in ks.list ensures ks.heap[r].desc != desc {
          var j :| 0 <= j < |ks.list| && ks.list[j] == r;
        }
      }
      None
    case Some(k) => Some(ks.list[k])
  }

  lemma ResolveUnique(ks: KeyStore, desc: int, r: Ref)
    requires Valid(ks)
    requires r in ks.list && ks.heap[r].desc == desc
    ensures Resolve(ks, desc) == Some(r)
  {
  }

  /** A lookup of `desc`: on a hit the item gains one reference, recorded as
      an outstanding handle; on a miss nothing changes. */
  function Get(ks: KeyStore, desc: int): (res: (Option<Ref>, KeyStore))
    requires ListInHeap(ks)
    ensures res.0 == Resolve(ks, desc)
    ensures res.0.None? ==> res.1 == ks
    ensures res.0.Some? ==> Acquired(ks, res.1, res.0.value)
  {
    match Resolve(ks, desc)
    case None => (None, ks)
    case Some(r) =>
      var item := ks.heap[r];
      (Some(r), ks.(heap := ks.heap[r := item.(refcnt := item.refcnt + 1)],
                    handles := ks.handles + multiset{r}))
  }

  // ---------------------------------------------------------------------
  // Reference release (`_ncr_key_item_put`)

  /** Drops one reference on `r`; when it was the last one the item is freed
      and one KEY slot of its owner is released. */
  function Put(ks: KeyStore, r: Ref): (res: KeyStore)
    requires r in ks.heap && ks.heap[r].refcnt >= 1
    ensures res.list == ks.list && res.handles == ks.handles && res.nextRef == ks.nextRef
    ensures ks.heap[r].refcnt == 1 ==> Released(ks, res, r)
    ensures ks.heap[r].refcnt != 1 ==> Dropped(ks, res, r)
  {
    var item := ks.heap[r];
    if item.refcnt - 1 == 0 then
      ks.(heap := ks.heap - {r},
          freed := ks.freed + {r},
          keyLimit := ks.keyLimit[item.owner := Count(ks.keyLimit, item.owner) - 1])
    else
      ks.(heap := ks.heap[r := item.(refcnt := item.refcnt - 1)])
  }

  /** A caller giving back the reference one of its lookups took. */
  function PutHandle(ks: KeyStore, r: Ref): (res: KeyStore)
    requires r in ks.handles && r in ks.heap && ks.heap[r].refcnt >= 1
    ensures res.handles == ks.handles - multiset{r}
    ensures res.list == ks.list && res.nextRef == ks.nextRef
    ensures ks.heap[r].refcnt == 1 ==> Released(ks, res, r)
    ensures ks.heap[r].refcnt != 1 ==> Dropped(ks, res, r)
  {
    Put(ks.(handles := ks.handles - multiset{r}), r)
  }

  // ---------------------------------------------------------------------
  // Creation (`ncr_key_init`)

  datatype InitResult = InitResult(code: int, desc: Option<int>, keys: KeyStore)

  /** `b` charges one more KEY slot to `o` than `a` and no other slot changes. */
  ghost predicate Charged(a: KeyStore, b: KeyStore, o: Owner) {
    && Count(b.keyLimit, o) == Count(a.keyLimit, o) + 1
    && (forall p :: p != o ==> Count(b.keyLimit, p) == Count(a.keyLimit, p))
  }

  /** Creates a key for `owner`. `limitRet` is what the limits subsystem
      answers when charged one KEY slot (negative: refused); `allocOk` is
      whether the allocation succeeds. */
  function Init(ks: KeyStore, owner: Owner, limitRet: int, allocOk: bool): (res: InitResult)
    requires ListInHeap(ks)
    ensures limitRet < 0 ==> res == InitResult(limitRet, None, ks)
    ensures limitRet >= 0 && !allocOk ==>
      && res.code == -ENOMEM && res.desc == None
      && Charged(ks, res.keys, owner)
      && res.keys.heap == ks.heap && res.keys.list == ks.list && res.keys.handles == ks.handles
      && res.keys.nextRef == ks.nextRef && res.keys.freed == ks.freed
    ensures limitRet >= 0 && allocOk ==>
      && res.code == 0 && res.desc == Some(NewDesc(ks))
      && res.desc.value >= 1
      && (forall q :: q in ks.list ==> ks.heap[q].desc < res.desc.value)
      && res.keys.list == [ks.nextRef] + ks.list
      && res.keys.heap == ks.heap[ks.nextRef := FreshItem(res.desc.value, owner)]
      && res.keys.nextRef == ks.nextRef + 1
      && res.keys.handles == ks.handles && res.keys.freed == ks.freed
      && Charged(ks, res.keys, owner)
  {
    if limitRet < 0 then InitResult(limitRet, None, ks)
    else
      var charged := ks.(keyLimit := ks.keyLimit[owner := Count(ks.keyLimit, owner) + 1]);
      if !allocOk then InitResult(-ENOMEM, None, charged)
      else
        var d := NewDesc(ks);
        var r := ks.nextRef;
        InitResult(0, Some(d), charged.(heap := ks.heap[r := FreshItem(d, owner)],
                                        list := [r] + ks.list,
                                        nextRef := r + 1))
  }

  // ---------------------------------------------------------------------
  // Destruction (`ncr_key_deinit`) and teardown (`ncr_key_list_deinit`)

  function RemoveAt(s: seq<Ref>, i: nat): (t: seq<Ref>)
    requires i < |s|
    ensures |t| == |s| - 1
    ensures forall j :: 0 <= j < i ==> t[j] == s[j]
    ensures forall j :: i <= j < |t| ==> t[j] == s[j + 1]
  {
    s[..i] + s[i + 1..]
  }

  /** Unlinks the item with descriptor `desc`, if any, and drops the
      creation reference; the answer is 0 either way. */
  function Deinit(ks: KeyStore, desc: int): (res: (int, KeyStore))
    requires Valid(ks)
    ensures res.0 == 0
    ensures Resolve(ks, desc).None? ==> res.1 == ks
    ensures Resolve(ks, desc).Some? ==>
      var r := Resolve(ks, desc).value;
      && |res.1.list| == |ks.list| - 1
      && (forall q :: q in res.1.list <==> q in ks.list && q != r)
      && (exists i :: 0 <= i < |ks.list| && ks.list[i] == r && res.1.list == ks.list[..i] + ks.list[i + 1..])
      && res.1.handles == ks.handles && res.1.nextRef == ks.nextRef
      && (ks.heap[r].refcnt == 1 ==> Released(ks, res.1, r))
      && (ks.heap[r].refcnt != 1 ==> Dropped(ks, res.1, r))
  {
    match FindFrom(ks, desc, 0)
    case None => (0, ks)
    case Some(i) =>
      var r := ks.list[i];
      var unlinked := ks.(list := RemoveAt(ks.list, i));
      assert forall q :: q in unlinked.list <==> q in ks.list && q != r by {
        forall q ensures q in unlinked.list <==> q in ks.list && q != r {
          if q in ks.list && q != r {
            var j :| 0 <= j < |ks.list| && ks.list[j] == q;
            if j < i { assert unlinked.list[j] == q; } else { assert unlinked.list[j - 1] == q; }
          }
        }
      }
      (0, Put(unlinked, r))
  }

  /** Unlinks every item and drops each creation reference, in list order. */
  function ListDeinit(ks: KeyStore): (res: KeyStore)
    requires Valid(ks)
    ensures Valid(res) && res.list == []
    ensures res.handles == ks.handles && res.nextRef == ks.nextRef
    decreases |ks.list|
  {
    if ks.list == [] then
      ks
    else
      UnlinkHeadValid(ks);
      ListDeinit(Put(ks.(list := ks.list[1..]), ks.list[0]))
  }

  // ---------------------------------------------------------------------
  // The invariant is kept by every registry operation

  lemma LimitsWhenOwnersSame(a: KeyStore, b: KeyStore)
    requires LimitsCover(a) && b.keyLimit == a.keyLimit
    requires b.heap.Keys == a.heap.Keys
    requires forall q :: q in a.heap ==> b.heap[q].owner == a.heap[q].owner
    ensures LimitsCover(b)
  {
    forall o ensures Count(b.keyLimit, o) >= |Owned(b.heap, o)| {
      assert Owned(b.heap, o) == Owned(a.heap, o);
      assert Count(a.keyLimit, o) >= |Owned(a.heap, o)|;
    }
  }

  lemma LimitsAfterRelease(a: KeyStore, b: KeyStore, r: Ref)
    requires LimitsCover(a) && Released(a, b, r)
    ensures LimitsCover(b)
  {
    var w := a.heap[r].owner;
    forall o ensures Count(b.keyLimit, o) >= |Owned(b.heap, o)| {
      assert Count(a.keyLimit, o) >= |Owned(a.heap, o)|;
      if o == w {
        assert Owned(b.heap, o) == Owned(a.heap, o) - {r};
        assert r in Owned(a.heap, o);
      } else {
        assert Owned(b.heap, o) == Owned(a.heap, o);
      }
    }
  }

  lemma LimitsAfterCharge(a: KeyStore, b: KeyStore, w: Owner)
    requires LimitsCover(a) && Charged(a, b, w) && b.heap == a.heap
    ensures LimitsCover(b)
  {
    forall o ensures Count(b.keyLimit, o) >= |Owned(b.heap, o)| {
      assert Owned(b.heap, o) == Owned(a.heap, o);
      assert Count(a.keyLimit, o) >= |Owned(a.heap, o)|;
    }
  }

  lemma OwnedAfterCreate(a: KeyStore, b: KeyStore, w: Owner, r: Ref, o: Owner)
    requires r !in a.heap && b.heap.Keys == a.heap.Keys + {r} && b.heap[r].owner == w
    requires forall q :: q in a.heap ==> b.heap[q] == a.heap[q]
    ensures Owned(b.heap, o) == if o == w then Owned(a.heap, o) + {r} else Owned(a.heap, o)
    ensures r !in Owned(a.heap, o)
  {
    forall q ensures q in Owned(b.heap, o) <==> q in (if o == w then Owned(a.heap, o) + {r} else Owned(a.heap, o)) {
      if q != r && q in b.heap { assert q in a.heap; }
    }
  }

  lemma LimitsAfterCreate(a: KeyStore, b: KeyStore, w: Owner, r: Ref)
    requires LimitsCover(a) && Charged(a, b, w)
    requires r !in a.heap && b.heap.Keys == a.heap.Keys + {r} && b.heap[r].owner == w
    requires forall q :: q in a.heap ==> b.heap[q] == a.heap[q]
    ensures LimitsCover(b)
  {
    forall o ensures Count(b.keyLimit, o) >= |Owned(b.heap, o)| {
      assert Count(a.keyLimit, o) >= |Owned(a.heap, o)|;
      OwnedAfterCreate(a, b, w, r, o);
    }
  }

  lemma GetPreservesValid(ks: KeyStore, desc: int)
    requires Valid(ks)
    ensures Valid(Get(ks, desc).1)
  {
    var (h, ks') := Get(ks, desc);
    if h.Some? {
      LimitsWhenOwnersSame(ks, ks');
    }
  }

  /** Dropping one reference on a live item whose count stays consistent keeps the invariant. */
  lemma PutKeepsValid(before: KeyStore, r: Ref)
    requires r in before.heap && before.heap[r].refcnt >= 1
    requires ListInHeap(before) && ListDistinct(before) && AllocationFresh(before)
    requires DescriptorsUnique(before) && LimitsCover(before)
    requires forall q :: q in before.handles ==> q in before.heap
    requires forall q :: q in before.heap && q != r ==> before.heap[q].refcnt == Links(before, q) + before.handles[q] >= 1
    requires before.heap[r].refcnt == Links(before, r) + before.handles[r] + 1
    requires before.heap[r].refcnt == 1 ==> r !in before.list && r !in before.handles
    ensures Valid(Put(before, r))
  {
    var after := Put(before, r);
    if before.heap[r].refcnt == 1 {
      LimitsAfterRelease(before, after, r);
    } else {
      LimitsWhenOwnersSame(before, after);
    }
  }

  /** Giving back a handle keeps the invariant, and frees the item exactly
      when no other handle is outstanding and it is no longer linked. */
  lemma PutHandlePreservesValid(ks: KeyStore, r: Ref)
    requires Valid(ks) && r in ks.handles
    ensures Valid(PutHandle(ks, r))
    ensures r !in PutHandle(ks, r).heap <==> r !in ks.list && ks.handles[r] == 1
  {
    var before := ks.(handles := ks.handles - multiset{r});
    assert forall q :: q in before.heap && q != r ==> before.handles[q] == ks.handles[q];
    assert before.handles[r] == ks.handles[r] - 1;
    assert Links(before, r) == Links(ks, r);
    assert forall q :: q in before.handles ==> q in before.heap;
    assert forall q :: q in before.heap && q != r ==> before.heap[q].refcnt == Links(before, q) + before.handles[q] >= 1;
    assert before.heap[r].refcnt == Links(before, r) + before.handles[r] + 1;
    PutKeepsValid(before, r);
  }

  lemma InitPreservesValid(ks: KeyStore, owner: Owner, limitRet: int, allocOk: bool)
    requires Valid(ks)
    ensures Valid(Init(ks, owner, limitRet, allocOk).keys)
  {
    var res := Init(ks, owner, limitRet, allocOk);
    if limitRet >= 0 {
      if !allocOk {
        LimitsAfterCharge(ks, res.keys, owner);
      } else {
        CreateValid(ks, res.keys, owner, res.desc.value);
      }
    }
  }

  /** Linking a fresh item with a descriptor above every linked one keeps the invariant. */
  lemma CreateValid(ks: KeyStore, ks': KeyStore, owner: Owner, d: int)
    requires Valid(ks) && d >= 1
    requires forall q :: q in ks.list ==> ks.heap[q].desc < d
    requires ks'.list == [ks.nextRef] + ks.list
    requires ks'.heap == ks.heap[ks.nextRef := FreshItem(d, owner)]
    requires ks'.nextRef == ks.nextRef + 1 && ks'.handles == ks.handles && ks'.freed == ks.freed
    requires Charged(ks, ks', owner)
    ensures Valid(ks')
  {
    var r := ks.nextRef;
    assert r !in ks.heap && r !in ks.handles;
    assert forall q :: q in ks'.list <==> q == r || q in ks.list;
    assert ListInHeap(ks');
    assert ListDistinct(ks') by {
      forall i, j | 0 <= i < j < |ks'.list| ensures ks'.list[i] != ks'.list[j] {
        assert ks'.list[j] == ks.list[j - 1];
        if i > 0 { assert ks'.list[i] == ks.list[i - 1]; }
      }
    }
    assert HandlesLive(ks');
    assert RefcountsAccounted(ks') by {
      forall q | q in ks'.heap ensures ks'.heap[q].refcnt == Links(ks', q) + ks'.handles[q] >= 1 {
        if q != r { assert Links(ks', q) == Links(ks, q); }
      }
    }
    assert AllocationFresh(ks');
    assert DescriptorsUnique(ks');
    LimitsAfterCreate(ks, ks', owner, r);
  }

  /** After a successful creation, a lookup of the new descriptor finds the new item. */
  lemma InitThenGetHits(ks: KeyStore, owner: Owner, limitRet: int)
    requires Valid(ks) && limitRet >= 0
    ensures var res := Init(ks, owner, limitRet, true);
      res.desc.Some? && Get(res.keys, res.desc.value).0 == Some(ks.nextRef)
  {
    var res := Init(ks, owner, limitRet, true);
    InitPreservesValid(ks, owner, limitRet, true);
    ResolveUnique(res.keys, res.desc.value, ks.nextRef);
  }

  /** Dropping the creation reference of an item just taken out of the list keeps the invariant. */
  lemma UnlinkValid(ks: KeyStore, unlinked: KeyStore, r: Ref)
    requires Valid(ks) && r in ks.list
    requires unlinked == ks.(list := unlinked.list)
    requires forall q :: q in unlinked.list <==> q in ks.list && q != r
    requires ListDistinct(unlinked)
    ensures Valid(Put(unlinked, r))
  {
    assert forall q :: q in unlinked.heap && q != r ==> Links(unlinked, q) == Links(ks, q);
    assert Links(unlinked, r) == 0 && Links(ks, r) == 1;
    assert ListInHeap(unlinked);
    assert DescriptorsUnique(unlinked);
    assert forall q :: q in unlinked.heap && q != r ==> unlinked.heap[q].refcnt == Links(unlinked, q) + unlinked.handles[q] >= 1;
    assert unlinked.heap[r].refcnt == Links(unlinked, r) + unlinked.handles[r] + 1;
    PutKeepsValid(unlinked, r);
  }

  /** Removing the head of the list and dropping its creation reference keeps the invariant. */
  lemma UnlinkHeadValid(ks: KeyStore)
    requires Valid(ks) && ks.list != []
    ensures var r := ks.list[0]; r in ks.heap && ks.heap[r].refcnt >= 1
    ensures Valid(Put(ks.(list := ks.list[1..]), ks.list[0]))
  {
    var r := ks.list[0];
    var unlinked := ks.(list := ks.list[1..]);
    assert forall q :: q in unlinked.list <==> q in ks.list && q != r by {
      forall q ensures q in unlinked.list <==> q in ks.list && q != r {
        if q in ks.list && q != r {
          var j :| 0 <= j < |ks.list| && ks.list[j] == q;
          assert unlinked.list[j - 1] == q;
        }
        if q in unlinked.list {
          var j :| 0 <= j < |unlinked.list| && unlinked.list[j] == q;
          assert ks.list[j + 1] == q;
        }
      }
    }
    assert ListDistinct(unlinked) by {
      forall a, b | 0 <= a < b < |unlinked.list| ensures unlinked.list[a] != unlinked.list[b] {
        assert unlinked.list[a] == ks.list[a + 1] && unlinked.list[b] == ks.list[b + 1];
      }
    }
    UnlinkValid(ks, unlinked, r);
  }

  lemma DeinitPreservesValid(ks: KeyStore, desc: int)
    requires Valid(ks)
    ensures Valid(Deinit(ks, desc).1)
  {
    match FindFrom(ks, desc, 0)
    case None =>
    case Some(i) =>
      var r := ks.list[i];
      var unlinked := ks.(list := RemoveAt(ks.list, i));
      assert forall q :: q in unlinked.list <==> q in ks.list && q != r by {
        forall q ensures q in unlinked.list <==> q in ks.list && q != r {
          if q in ks.list && q != r {
            var j :| 0 <= j < |ks.list| && ks.list[j] == q;
            if j < i { assert unlinked.list[j] == q; } else { assert unlinked.list[j - 1] == q; }
          }
          if q in unlinked.list {
            var j :| 0 <= j < |unlinked.list| && unlinked.list[j] == q;
            if j < i { assert ks.list[j] == q; } else { assert ks.list[j + 1] == q; }
          }
        }
      }
      assert ListDistinct(unlinked) by {
        forall a, b | 0 <= a < b < |unlinked.list| ensures unlinked.list[a] != unlinked.list[b] {
          var a' := if a < i then a else a + 1;
          var b' := if b < i then b else b + 1;
          assert unlinked.list[a] == ks.list[a'] && unlinked.list[b] == ks.list[b'];
        }
      }
      UnlinkValid(ks, unlinked, r);
  }

  /** Once `desc` is destroyed, no lookup finds it, even while handles on the
      unlinked item are still outstanding. */
  lemma DeinitThenGetMisses(ks: KeyStore, desc: int)
    requires Valid(ks)
    ensures Get(Deinit(ks, desc).1, desc).0 == None
  {
    var ks' := Deinit(ks, desc).1;
    DeinitPreservesValid(ks, desc);
    match Resolve(ks, desc)
    case None =>
    case Some(r) =>
      forall q | q in ks'.list ensures ks'.heap[q].desc != desc {
        assert q in ks.list && q != r;
      }
  }

  /** Destruction frees the item exactly when no lookup handle is outstanding on it. */
  lemma DeinitFreesIffNoHandles(ks: KeyStore, desc: int)
    requires Valid(ks) && Live(ks, desc)
    ensures var r := Resolve(ks, desc).value;
      r !in Deinit(ks, desc).1.heap <==> ks.handles[r] == 0
  {
  }

  /** One step of teardown: the head item loses its creation reference. */
  lemma UnlinkHeadEffect(ks: KeyStore)
    requires Valid(ks) && ks.list != []
    ensures var r := ks.list[0]; var next := Put(ks.(list := ks.list[1..]), r);
      && Valid(next)
      && next.handles == ks.handles
      && (forall q :: q in ks.list <==> q == r || q in next.list)
      && r !in next.list
      && (r in next.heap <==> ks.handles[r] > 0)
      && (r in next.heap ==> next.heap[r] == ks.heap[r].(refcnt := ks.handles[r]))
      && (forall q :: q != r ==> (q in next.heap <==> q in ks.heap))
      && (forall q :: q in next.heap && q != r ==> next.heap[q] == ks.heap[q])
      && next.freed == ks.freed + (if ks.handles[r] == 0 then {r} else {})
      && (forall o :: Count(next.keyLimit, o) == Count(ks.keyLimit, o) - (if ks.handles[r] == 0 && o == ks.heap[r].owner then 1 else 0))
  {
    var r := ks.list[0];
    UnlinkHeadValid(ks);
    assert r !in ks.list[1..] by {
      forall j | 0 <= j < |ks.list| - 1 ensures ks.list[1..][j] != r {
        assert ks.list[1..][j] == ks.list[j + 1];
      }
    }
    assert forall q :: q in ks.list <==> q == r || q in ks.list[1..] by {
      forall q | q in ks.list ensures q == r || q in ks.list[1..] {
        var j :| 0 <= j < |ks.list| && ks.list[j] == q;
        if j > 0 { assert ks.list[1..][j - 1] == q; }
      }
    }
  }

  lemma GoneSplit(l: seq<Ref>, tail: seq<Ref>, r: Ref, h: multiset<Ref>)
    requires forall q :: q in l <==> q == r || q in tail
    ensures (set q | q in l && h[q] == 0)
         == (if h[r] == 0 then {r} else {}) + (set q | q in tail && h[q] == 0)
  {
  }

  /** Teardown frees every linked item nobody holds a handle on, and leaves
      each other item alive with only its handles' references. */
  lemma {:induction false} ListDeinitReleasesEach(ks: KeyStore)
    requires Valid(ks)
    ensures var res := ListDeinit(ks);
      && (forall r :: r in res.heap ==> r in ks.heap && res.heap[r] == ks.heap[r].(refcnt := ks.handles[r]))
      && (forall r :: r in ks.heap ==> (r in res.heap <==> ks.handles[r] > 0))
    decreases |ks.list|
  {
    if ks.list == [] {
      assert ListDeinit(ks) == ks;
      forall r | r in ks.heap ensures ks.heap[r].refcnt == ks.handles[r] {
        assert Links(ks, r) == 0;
      }
    } else {
      var r := ks.list[0];
      var next := Put(ks.(list := ks.list[1..]), r);
      UnlinkHeadEffect(ks);
      ListDeinitReleasesEach(next);
      var res := ListDeinit(next);
      assert ListDeinit(ks) == res;
      forall q | q in res.heap ensures q in ks.heap && res.heap[q] == ks.heap[q].(refcnt := ks.handles[q]) {
        assert q in next.heap;
      }
      forall q | q in ks.heap ensures q in res.heap <==> ks.handles[q] > 0 {
        if q != r {
          assert q in next.heap;
          if q !in ks.list {
            assert ks.heap[q].refcnt == ks.handles[q];
          }
        }
      }
    }
  }

  /** Teardown records as freed exactly the linked items nobody holds a handle on. */
  lemma {:induction false} ListDeinitFreed(ks: KeyStore)
    requires Valid(ks)
    ensures ListDeinit(ks).freed == ks.freed + (set r | r in ks.list && ks.handles[r] == 0)
    decreases |ks.list|
  {
    if ks.list == [] {
      assert ListDeinit(ks) == ks;
      assert (set r | r in ks.list && ks.handles[r] == 0) == {};
    } else {
      var r := ks.list[0];
      var next := Put(ks.(list := ks.list[1..]), r);
      UnlinkHeadEffect(ks);
      ListDeinitFreed(next);
      assert ListDeinit(ks) == ListDeinit(next);
      GoneSplit(ks.list, next.list, r, ks.handles);
    }
  }

  /** The linked items of `o` nobody holds a handle on: those teardown frees. */
  function Unheld(ks: KeyStore, o: Owner): set<Ref>
    requires ListInHeap(ks)
  {
    set r | r in ks.list && ks.handles[r] == 0 && ks.heap[r].owner == o
  }

  lemma UnheldSplit(ks: KeyStore, next: KeyStore, r: Ref, o: Owner)
    requires ListInHeap(ks) && ListInHeap(next) && r in ks.list && r !in next.list
    requires forall q :: q in ks.list <==> q == r || q in next.list
    requires next.handles == ks.handles
    requires forall q :: q in next.list ==> next.heap[q] == ks.heap[q]
    ensures Unheld(ks, o) == (if ks.handles[r] == 0 && ks.heap[r].owner == o then {r} else {}) + Unheld(next, o)
    ensures r !in Unheld(next, o)
  {
  }

  /** Teardown gives every owner back one KEY slot per linked item of theirs
      that nobody holds a handle on, and no other slot. */
  lemma {:induction false} ListDeinitReturnsSlots(ks: KeyStore)
    requires Valid(ks)
    ensures forall o :: Count(ListDeinit(ks).keyLimit, o) == Count(ks.keyLimit, o) - |Unheld(ks, o)|
    decreases |ks.list|
  {
    if ks.list == [] {
      assert ListDeinit(ks) == ks;
      forall o ensures Unheld(ks, o) == {} { }
    } else {
      var r := ks.list[0];
      var next := Put(ks.(list := ks.list[1..]), r);
      UnlinkHeadEffect(ks);
      ListDeinitReturnsSlots(next);
      assert ListDeinit(ks) == ListDeinit(next);
      forall o ensures Count(ListDeinit(ks).keyLimit, o) == Count(ks.keyLimit, o) - |Unheld(ks, o)| {
        assert forall q :: q in next.list ==> q in next.heap && q != r;
        UnheldSplit(ks, next, r, o);
      }
    }
  }

  // ---------------------------------------------------------------------
  // Field changes made through a handle

  /** The store with the item `r` replaced; the caller holds a reference on `r`. */
  function Update(ks: KeyStore, r: Ref, item: KeyItem): KeyStore
    requires r in ks.heap
  {
    ks.(heap := ks.heap[r := item])
  }

  /** Changing the fields of a live item other than its descriptor, owner and
      refcount keeps the invariant. */
  lemma UpdatePreservesValid(ks: KeyStore, r: Ref, item: KeyItem)
    requires Valid(ks) && r in ks.heap
    requires item.desc == ks.heap[r].desc && item.owner == ks.heap[r].owner
    requires item.refcnt == ks.heap[r].refcnt
    ensures Valid(Update(ks, r, item))
  {
    LimitsWhenOwnersSame(ks, Update(ks, r, item));
  }

  /** A lookup, a change of the found item's fields, and the matching put
      leave the store as if the fields had been changed directly: every
      reference taken is given back. */
  lemma HandleRoundTrip(ks: KeyStore, desc: int, item: KeyItem)
    requires Valid(ks) && Live(ks, desc)
    requires item.refcnt == ks.heap[Resolve(ks, desc).value].refcnt + 1
    ensures var r := Resolve(ks, desc).value; var held := Get(ks, desc).1;
      && r in held.handles && r in held.heap
      && PutHandle(Update(held, r, item), r) == Update(ks, r, item.(refcnt := ks.heap[r].refcnt))
  {
    var r := Resolve(ks, desc).value;
    var held := Get(ks, desc).1;
    var after := PutHandle(Update(held, r, item), r);
    var want := Update(ks, r, item.(refcnt := ks.heap[r].refcnt));
    assert after.heap == want.heap;
    assert after.handles == want.handles;
  }

  /** A lookup followed by the matching put changes nothing. */
  lemma GetPutRestores(ks: KeyStore, desc: int)
    requires Valid(ks) && Live(ks, desc)
    ensures var r := Resolve(ks, desc).value; var held := Get(ks, desc).1;
      && r in held.handles && r in held.heap && held.heap[r].refcnt >= 1
      && PutHandle(held, r) == ks
  {
    var r := Resolve(ks, desc).value;
    var held := Get(ks, desc).1;
    HandleRoundTrip(ks, desc, held.heap[r]);
    assert Update(held, r, held.heap[r]) == held;
    assert ks.heap[r := ks.heap[r]] == ks.heap;
  }
}
