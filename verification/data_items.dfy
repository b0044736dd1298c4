/** The data-item collaborator as the key operations see it: refcounted,
    capacity-bounded plaintext buffers found by descriptor. Its own
    allocation and freeing are not part of this model.
 */
module DataItems {
  import opened KeyTypes

  /** `bytes` stands for the buffer together with its `data_size`;
      `maxSize` is `max_data_size`. */
  datatype DataItem = DataItem(bytes: seq<byte>, maxSize: nat, flags: Flags, refcnt: nat)

  datatype DataStore = DataStore(items: map<int, DataItem>)

  /** `ncr_data_item_get`: a hit takes one reference on the item. */
  function DataGet(ds: DataStore, desc: int): (res: (Option<int>, DataStore))
    ensures desc !in ds.items ==> res == (None, ds)
    ensures desc in ds.items ==>
      && res.0 == Some(desc)
      && res.1.items.Keys == ds.items.Keys
      && res.1.items[desc] == ds.items[desc].(refcnt := ds.items[desc].refcnt + 1)
      && (forall d :: d in ds.items && d != desc ==> res.1.items[d] == ds.items[d])
  {
    if desc in ds.items then
      var item := ds.items[desc];
      (Some(desc), DataStore(ds.items[desc := item.(refcnt := item.refcnt + 1)]))
    else (None, ds)
  }

  /** `_ncr_data_item_put`: gives back one reference. */
  function DataPut(ds: DataStore, desc: int): (res: DataStore)
    requires desc in ds.items && ds.items[desc].refcnt >= 1
    ensures res.items.Keys == ds.items.Keys
    ensures res.items[desc] == ds.items[desc].(refcnt := ds.items[desc].refcnt - 1)
    ensures forall d :: d in ds.items && d != desc ==> res.items[d] == ds.items[d]
  {
    var item := ds.items[desc];
    DataStore(ds.items[desc := item.(refcnt := item.refcnt - 1)])
  }

  /** Writes new contents into a data item the caller holds, keeping its reference count. */
  function DataWrite(ds: DataStore, desc: int, bytes: seq<byte>, flags: Flags): (res: DataStore)
    requires desc in ds.items
    ensures res.items.Keys == ds.items.Keys
    ensures res.items[desc] == ds.items[desc].(bytes := bytes, flags := flags)
    ensures forall d :: d in ds.items && d != desc ==> res.items[d] == ds.items[d]
  {
    DataStore(ds.items[desc := ds.items[desc].(bytes := bytes, flags := flags)])
  }

  /** A lookup followed by the matching put changes nothing. */
  lemma DataGetPutRestores(ds: DataStore, desc: int)
    requires desc in ds.items
    ensures DataPut(DataGet(ds, desc).1, desc) == ds
  {
    assert DataPut(DataGet(ds, desc).1, desc).items == ds.items;
  }
}
