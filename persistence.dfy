/**
 * The persistent data API the core is written against: namespaced keys, the
 * primitive values a container stores, data types that convert a complex
 * value to a primitive one, and the per-holder container itself.
 */
module Persistence {
  import opened Wrappers

  /** A NamespacedKey: a (namespace, key) pair that names one slot of a container. */
  datatype Key = NamespacedKey(namespace: string, key: string)

  /** One byte of a byte array, as an unsigned value. */
  newtype byte = b: int | 0 <= b < 256

  /** The primitive type a stored value was written with. */
  datatype Kind = ByteArrayKind | StringKind | IntegerKind

  /** A primitive value as a container stores it, tagged with its primitive type. */
  datatype Value = ByteArray(bytes: seq<byte>) | Str(text: string) | Integer(number: int)
  {
    function Kind(): Kind {
      match this
      case ByteArray(_) => ByteArrayKind
      case Str(_) => StringKind
      case Integer(_) => IntegerKind
    }
  }

  /**
   * A PersistentDataType<T, Z>: the primitive type T (as a Kind) and the
   * conversions between the complex type Z and the stored primitive value.
   */
  datatype DataType<!Z(!new)> = DataType(primitive: Kind, toPrimitive: Z -> Value, fromPrimitive: Value -> Option<Z>)
  {
    /** Every complex value is stored with the declared primitive type and reads back unchanged. */
    ghost predicate Valid() {
      forall z :: toPrimitive(z).Kind() == primitive && fromPrimitive(toPrimitive(z)) == Some(z)
    }
  }

  function ByteArrayFromPrimitive(v: Value): Option<seq<byte>> {
    if v.ByteArray? then Some(v.bytes) else None
  }

  /** PersistentDataType.BYTE_ARRAY: byte arrays stored as they are. */
  const BYTE_ARRAY: DataType<seq<byte>> := DataType(ByteArrayKind, b => ByteArray(b), ByteArrayFromPrimitive)

  /** BYTE_ARRAY stores a byte array as itself and reads a stored byte array back as itself. */
  lemma ByteArrayType(b: seq<byte>)
    ensures BYTE_ARRAY.primitive == ByteArrayKind
    ensures BYTE_ARRAY.toPrimitive(b) == ByteArray(b)
    ensures BYTE_ARRAY.fromPrimitive(ByteArray(b)) == Some(b)
  {
  }

  /** The contents of a PersistentDataContainer: at most one value per key, no order. */
  type Container = map<Key, Value>

  /** `c` and `d` have the same entries at every key other than `key`. */
  ghost predicate AgreeExcept(c: Container, d: Container, key: Key) {
    forall k :: k != key ==> (k in c <==> k in d) && (k in c ==> c[k] == d[k])
  }

  /** `has(key, type)`: the slot is present and holds a value of the given primitive type. */
  predicate Holds(c: Container, key: Key, kind: Kind) {
    key in c && c[key].Kind() == kind
  }

  /** `set(key, type, value)` on the container's contents. */
  function Update(c: Container, key: Key, v: Value): Container {
    c[key := v]
  }

  /** `remove(key)` on the container's contents. */
  function Delete(c: Container, key: Key): Container {
    c - {key}
  }

  /** After `set`, the key holds the new value and every other entry is as it was. */
  lemma UpdateEffect(c: Container, key: Key, v: Value)
    ensures var r := Update(c, key, v);
      key in r && r[key] == v && AgreeExcept(c, r, key) && r.Keys == c.Keys + {key}
  {
  }

  /** After `remove`, the key is absent and every other entry is as it was; removing an absent key changes nothing. */
  lemma DeleteEffect(c: Container, key: Key)
    ensures var r := Delete(c, key);
      key !in r && AgreeExcept(c, r, key) && r.Keys == c.Keys - {key} && (key !in c ==> r == c)
  {
  }

  /** The effect stated by UpdateEffect determines the result: nothing else has it. */
  lemma UpdateDetermined(c: Container, key: Key, v: Value, r: Container)
    requires key in r && r[key] == v
    requires AgreeExcept(c, r, key)
    ensures r == Update(c, key, v)
  {
    forall k | k in r || k in Update(c, key, v)
      ensures k in r && k in Update(c, key, v) && r[k] == Update(c, key, v)[k]
    {
      if k != key {
        assert k in c <==> k in r;
      }
    }
  }

  /** The effect stated by DeleteEffect determines the result. */
  lemma DeleteDetermined(c: Container, key: Key, r: Container)
    requires key !in r
    requires AgreeExcept(c, r, key)
    ensures r == Delete(c, key)
  {
    forall k | k in r || k in Delete(c, key)
      ensures k in r && k in Delete(c, key) && r[k] == Delete(c, key)[k]
    {
      assert k != key;
    }
  }

  /** Writing the same value to the same key twice leaves what writing it once leaves. */
  lemma UpdateIdempotent(c: Container, key: Key, v: Value)
    ensures Update(Update(c, key, v), key, v) == Update(c, key, v)
  {
  }

  /** A later write to a key replaces the earlier one. */
  lemma UpdateOverwrites(c: Container, key: Key, v: Value, w: Value)
    ensures Update(Update(c, key, v), key, w) == Update(c, key, w)
  {
  }

  /** A PersistentDataContainer: the mutable key-to-value store of one holder. */
  class PersistentDataContainer {
    var entries: Container

    constructor (initial: Container)
      ensures entries == initial
    {
      entries := initial;
    }

    /** `has(key, type)`: a value of the type's primitive type is stored at the key. */
    predicate Has<Z(!new)>(key: Key, dataType: DataType<Z>)
      reads this
    {
      Holds(entries, key, dataType.primitive)
    }

    /** `get(key, type)`: the stored value converted back to Z, or None (Java's null). */
    function Get<Z(!new)>(key: Key, dataType: DataType<Z>): (r: Option<Z>)
      reads this
      ensures r.Some? ==> Has(key, dataType) && dataType.fromPrimitive(entries[key]) == r
    {
      if key in entries && entries[key].Kind() == dataType.primitive
      then dataType.fromPrimitive(entries[key])
      else None
    }

    method Set<Z(!new)>(key: Key, dataType: DataType<Z>, value: Z)
      modifies this
      ensures entries == Update(old(entries), key, dataType.toPrimitive(value))
    {
      entries := entries[key := dataType.toPrimitive(value)];
    }

    method Remove(key: Key)
      modifies this
      ensures entries == Delete(old(entries), key)
    {
      entries := entries - {key};
    }
  }

  /**
   * The Purger's has-then-get on BYTE_ARRAY: `get` finds a byte array exactly
   * when `has` says one is there, and it is the array stored at the key.
   */
  lemma GetByteArray(p: PersistentDataContainer, key: Key)
    ensures p.Get(key, BYTE_ARRAY).Some? <==> p.Has(key, BYTE_ARRAY)
    ensures p.Has(key, BYTE_ARRAY) ==> p.entries[key] == ByteArray(p.Get(key, BYTE_ARRAY).value)
  {
  }

  /** What `set` followed by `get` with a well-behaved data type reads back. */
  lemma GetAfterUpdate<Z(!new)>(c: Container, key: Key, dataType: DataType<Z>, z: Z)
    requires dataType.Valid()
    ensures var d := Update(c, key, dataType.toPrimitive(z));
      Holds(d, key, dataType.primitive) && dataType.fromPrimitive(d[key]) == Some(z)
  {
  }
}
