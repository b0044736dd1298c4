/** Data model of the key objects of the ncr key subsystem: the fields of a
    `struct key_item`, the identifiers it is tagged with, and the constants
    its operations compare against.
 */
module KeyTypes {

  /** One byte of key material or of a key-id. */
  newtype byte = b: int | 0 <= b < 0x100

  /** The `unsigned int` flag words of key items and data items. */
  type Flags = bv32

  /** The session (`struct file *`) that created a key; used for quota accounting only. */
  type Owner = nat

  /** The identity of one allocation of a `struct key_item` (its address). */
  type Ref = nat

  datatype Option<+T> = None | Some(value: T)

  /** Kernel error numbers; operations return their negation. */
  const EINVAL: int := 22
  const ENOMEM: int := 12

  /** Capacity of the secret-key buffer of a key item, in bytes. */
  const MAX_KEY_SIZE: nat := 32
  /** Capacity of the key-id buffer of a key item, in bytes. */
  const MAX_KEY_ID_SIZE: nat := 20
  /** Length of the random key-id that key generation produces. */
  const GENERATED_KEY_ID_SIZE: nat := 5

  const KEY_FLAG_EXPORTABLE: Flags := 1
  const DATA_FLAG_EXPORTABLE: Flags := 1

  /** Every key flag bit except EXPORTABLE. */
  const OTHER_KEY_FLAGS: Flags := !KEY_FLAG_EXPORTABLE

  /** Every data flag bit except EXPORTABLE. */
  const OTHER_DATA_FLAGS: Flags := !DATA_FLAG_EXPORTABLE

  /** `ncr_key_type_t`; a zeroed item holds `TypeInvalid`. `TypeOther(raw)`
      stands for a raw value that is none of the named constants: a request
      naming the secret type is `TypeSecret`, never `TypeOther` of its number
      (the numbers are not part of this model), so each raw type has exactly
      one representation. */
  datatype KeyType = TypeInvalid | TypeSecret | TypePublic | TypePrivate | TypeOther(raw: int)

  /** `ncr_algorithm_t`; a zeroed item holds `AlgNone`. As for key types,
      `AlgOther(id)` stands only for an algorithm other than the named ones. */
  datatype Algorithm = AlgNone | AlgAesCbc | AlgOther(id: int)

  /** A key object. `keyId` and `secret` stand for the buffers together with
      their `key_id_size` and `key.secret.size` lengths. */
  datatype KeyItem = KeyItem(
    desc: int,
    owner: Owner,
    ktype: KeyType,
    flags: Flags,
    algorithm: Algorithm,
    keyId: seq<byte>,
    secret: seq<byte>,
    refcnt: nat)

  predicate KeyExportable(flags: Flags) {
    flags & KEY_FLAG_EXPORTABLE != 0
  }

  predicate DataExportable(flags: Flags) {
    flags & DATA_FLAG_EXPORTABLE != 0
  }

  /** The item `ncr_key_init` links: all fields zero except its descriptor,
      its owner and the creation reference. */
  function FreshItem(desc: int, owner: Owner): KeyItem {
    KeyItem(desc, owner, TypeInvalid, 0, AlgNone, [], [], 1)
  }
}
