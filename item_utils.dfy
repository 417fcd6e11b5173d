/**
 * ItemUtils: whole-item serialization to a byte array and back. The byte
 * format is this model's own (the host's binary item format is not part of
 * it); what the rest of the model relies on is the round trip
 * Deserialize(Serialize(item)) == Some(item), proved below.
 *
 * Layout: every number is a base-128 varint (low seven bits first, high bit
 * set on every byte but the last); a byte array or string is its length
 * followed by its elements (a character as the varint of its code point);
 * an integer is zig-zag mapped to a natural first; a stored value is a kind
 * tag byte followed by its payload; a container is its size followed by its
 * entries in ascending key order; an item is material, display name,
 * container.
 *
 * The readers are lenient: each returns a value and the bytes after it even
 * on malformed input (missing bytes read as zero, an unknown tag or an
 * invalid code point as a default). Deserialize rejects a byte array that
 * is not exactly one item, that is, one with bytes left over.
 */
module ItemUtils {
  import opened Wrappers
  import opened Persistence
  import opened Inventory

  type Bytes = seq<byte>

  /** A reader's result: the value read and the bytes left after it. */
  type Read<T> = (T, Bytes)

  // ---------------------------------------------------------------- numbers

  function EncodeNat(n: nat): (bs: Bytes)
    ensures |bs| > 0
  {
    if n < 128 then [n as byte] else [(128 + n % 128) as byte] + EncodeNat(n / 128)
  }

  function ReadNat(bs: Bytes): Read<nat> {
    if |bs| == 0 then (0, [])
    else
      var b := bs[0] as int;
      if b < 128 then (b, bs[1..])
      else
        var (high, rest) := ReadNat(bs[1..]);
        (b - 128 + 128 * high, rest)
  }

  lemma {:induction false} ReadNatEncodeNat(n: nat, rest: Bytes)
    ensures ReadNat(EncodeNat(n) + rest) == (n, rest)
  {
    var bs := EncodeNat(n) + rest;
    if n < 128 {
      assert bs[1..] == rest;
    } else {
      assert bs[1..] == EncodeNat(n / 128) + rest;
      ReadNatEncodeNat(n / 128, rest);
      assert bs[0] as int == 128 + n % 128;
    }
  }

  /** Zig-zag: 0, -1, 1, -2, 2, ... map to 0, 1, 2, 3, 4, ... */
  function EncodeInt(i: int): Bytes {
    EncodeNat(if i >= 0 then 2 * i else -2 * i - 1)
  }

  function ReadInt(bs: Bytes): Read<int> {
    var (n, rest) := ReadNat(bs);
    (if n % 2 == 0 then n / 2 else -(n + 1) / 2, rest)
  }

  lemma ReadIntEncodeInt(i: int, rest: Bytes)
    ensures ReadInt(EncodeInt(i) + rest) == (i, rest)
  {
    ReadNatEncodeNat(if i >= 0 then 2 * i else -2 * i - 1, rest);
  }

  // ------------------------------------------------------ bytes and strings

  function EncodeBytes(b: Bytes): Bytes {
    EncodeNat(|b|) + b
  }

  /** A byte array; a length past the end reads what is there. */
  function ReadBytes(bs: Bytes): Read<Bytes> {
    var (n, rest) := ReadNat(bs);
    if n <= |rest| then (rest[..n], rest[n..]) else (rest, [])
  }

  lemma ReadBytesEncodeBytes(b: Bytes, rest: Bytes)
    ensures ReadBytes(EncodeBytes(b) + rest) == (b, rest)
  {
    assert EncodeBytes(b) + rest == EncodeNat(|b|) + (b + rest);
    ReadNatEncodeNat(|b|, b + rest);
    assert (b + rest)[..|b|] == b && (b + rest)[|b|..] == rest;
  }

  predicate IsScalarValue(n: nat) {
    n < 0xD800 || 0xE000 <= n < 0x11_0000
  }

  /** The character with code point `n`, or U+FFFD when `n` is not one. */
  function ToChar(n: nat): char {
    if IsScalarValue(n) then n as char else '\U{FFFD}'
  }

  function EncodeChars(s: string): Bytes {
    if s == [] then [] else EncodeNat(s[0] as int) + EncodeChars(s[1..])
  }

  function ReadChars(bs: Bytes, count: nat): Read<string>
    decreases count
  {
    if count == 0 then ([], bs)
    else
      var (n, rest) := ReadNat(bs);
      var (cs, rest') := ReadChars(rest, count - 1);
      ([ToChar(n)] + cs, rest')
  }

  lemma {:induction false} ReadCharsEncodeChars(s: string, rest: Bytes)
    ensures ReadChars(EncodeChars(s) + rest, |s|) == (s, rest)
  {
    if s == [] {
      assert EncodeChars(s) + rest == rest;
    } else {
      var n := s[0] as int;
      assert ToChar(n) == s[0];
      assert EncodeChars(s) + rest == EncodeNat(n) + (EncodeChars(s[1..]) + rest);
      ReadNatEncodeNat(n, EncodeChars(s[1..]) + rest);
      ReadCharsEncodeChars(s[1..], rest);
      assert [s[0]] + s[1..] == s;
    }
  }

  function EncodeString(s: string): Bytes {
    EncodeNat(|s|) + EncodeChars(s)
  }

  function ReadString(bs: Bytes): Read<string> {
    var (n, rest) := ReadNat(bs);
    ReadChars(rest, n)
  }

  lemma ReadStringEncodeString(s: string, rest: Bytes)
    ensures ReadString(EncodeString(s) + rest) == (s, rest)
  {
    assert EncodeString(s) + rest == EncodeNat(|s|) + (EncodeChars(s) + rest);
    ReadNatEncodeNat(|s|, EncodeChars(s) + rest);
    ReadCharsEncodeChars(s, rest);
  }

  // ---------------------------------------------------------- keys, values

  function EncodeKey(k: Key): Bytes {
    EncodeString(k.namespace) + EncodeString(k.key)
  }

  function ReadKey(bs: Bytes): Read<Key> {
    var (ns, rest) := ReadString(bs);
    var (name, rest') := ReadString(rest);
    (NamespacedKey(ns, name), rest')
  }

  lemma ReadKeyEncodeKey(k: Key, rest: Bytes)
    ensures ReadKey(EncodeKey(k) + rest) == (k, rest)
  {
    assert EncodeKey(k) + rest == EncodeString(k.namespace) + (EncodeString(k.key) + rest);
    ReadStringEncodeString(k.namespace, EncodeString(k.key) + rest);
    ReadStringEncodeString(k.key, rest);
  }

  function EncodeValue(v: Value): Bytes {
    match v
    case ByteArray(b) => [0] + EncodeBytes(b)
    case Str(s) => [1] + EncodeString(s)
    case Integer(i) => [2] + EncodeInt(i)
  }

  /** A stored value; a missing or unknown tag reads as an empty byte array. */
  function ReadValue(bs: Bytes): Read<Value> {
    if |bs| == 0 then (ByteArray([]), [])
    else if bs[0] == 0 then var (b, rest) := ReadBytes(bs[1..]); (ByteArray(b), rest)
    else if bs[0] == 1 then var (s, rest) := ReadString(bs[1..]); (Str(s), rest)
    else if bs[0] == 2 then var (i, rest) := ReadInt(bs[1..]); (Integer(i), rest)
    else (ByteArray([]), bs[1..])
  }

  lemma ReadValueEncodeValue(v: Value, rest: Bytes)
    ensures ReadValue(EncodeValue(v) + rest) == (v, rest)
  {
    match v
    case ByteArray(b) =>
      assert EncodeValue(v) + rest == [0] + (EncodeBytes(b) + rest);
      ReadBytesEncodeBytes(b, rest);
      ReadTagged(0, EncodeBytes(b) + rest);
    case Str(s) =>
      assert EncodeValue(v) + rest == [1] + (EncodeString(s) + rest);
      ReadStringEncodeString(s, rest);
      ReadTagged(1, EncodeString(s) + rest);
    case Integer(i) =>
      assert EncodeValue(v) + rest == [2] + (EncodeInt(i) + rest);
      ReadIntEncodeInt(i, rest);
      ReadTagged(2, EncodeInt(i) + rest);
  }

  /** ReadValue dispatches on the tag byte and reads the payload after it. */
  lemma ReadTagged(tag: byte, payload: Bytes)
    ensures tag == 0 ==> ReadValue([tag] + payload) == (ByteArray(ReadBytes(payload).0), ReadBytes(payload).1)
    ensures tag == 1 ==> ReadValue([tag] + payload) == (Str(ReadString(payload).0), ReadString(payload).1)
    ensures tag == 2 ==> ReadValue([tag] + payload) == (Integer(ReadInt(payload).0), ReadInt(payload).1)
  {
    assert ([tag] + payload)[0] == tag && ([tag] + payload)[1..] == payload;
  }

  // ------------------------------------------------------------- key order

  /** Lexicographic order on strings, by code point; the empty string comes first. */
  predicate StringBelow(a: string, b: string) {
    a == [] || (b != [] && (a[0] < b[0] || (a[0] == b[0] && StringBelow(a[1..], b[1..]))))
  }

  lemma {:induction false} StringBelowTotal(a: string, b: string)
    ensures StringBelow(a, b) || StringBelow(b, a)
  {
    if a != [] && b != [] && a[0] == b[0] {
      StringBelowTotal(a[1..], b[1..]);
    }
  }

  lemma {:induction false} StringBelowAntisymmetric(a: string, b: string)
    requires StringBelow(a, b) && StringBelow(b, a)
    ensures a == b
  {
    if a != [] && b != [] {
      StringBelowAntisymmetric(a[1..], b[1..]);
      assert a == [a[0]] + a[1..] && b == [b[0]] + b[1..];
    }
  }

  lemma {:induction false} StringBelowTransitive(a: string, b: string, c: string)
    requires StringBelow(a, b) && StringBelow(b, c)
    ensures StringBelow(a, c)
  {
    if a != [] && b[0] == c[0] && a[0] == b[0] {
      StringBelowTransitive(a[1..], b[1..], c[1..]);
    }
  }

  /** Keys are ordered by namespace first, then by key. */
  predicate KeyBelow(x: Key, y: Key) {
    if x.namespace == y.namespace then StringBelow(x.key, y.key) else StringBelow(x.namespace, y.namespace)
  }

  lemma KeyBelowTotal(x: Key, y: Key)
    ensures KeyBelow(x, y) || KeyBelow(y, x)
  {
    StringBelowTotal(x.key, y.key);
    StringBelowTotal(x.namespace, y.namespace);
  }

  lemma KeyBelowAntisymmetric()
    ensures forall x, y :: KeyBelow(x, y) && KeyBelow(y, x) ==> x == y
  {
    forall x, y | KeyBelow(x, y) && KeyBelow(y, x) ensures x == y {
      if x.namespace == y.namespace {
        StringBelowAntisymmetric(x.key, y.key);
      } else {
        StringBelowAntisymmetric(x.namespace, y.namespace);
      }
    }
  }

  lemma KeyBelowTransitive(x: Key, y: Key, z: Key)
    requires KeyBelow(x, y) && KeyBelow(y, z)
    ensures KeyBelow(x, z)
  {
    KeyBelowAntisymmetric();
    if x.namespace == y.namespace == z.namespace {
      StringBelowTransitive(x.key, y.key, z.key);
    } else if x.namespace != y.namespace && y.namespace != z.namespace {
      StringBelowTransitive(x.namespace, y.namespace, z.namespace);
      if x.namespace == z.namespace {
        StringBelowAntisymmetric(x.namespace, y.namespace);
      }
    }
  }

  lemma {:induction false} MinimumExists(s: set<Key>)
    requires s != {}
    ensures exists k :: k in s && forall j :: j in s ==> KeyBelow(k, j)
  {
    var x :| x in s;
    KeyBelowTotal(x, x);
    if s == {x} {
      assert forall j :: j in s ==> j == x;
    } else {
      MinimumExists(s - {x});
      var m :| m in s - {x} && forall j :: j in s - {x} ==> KeyBelow(m, j);
      KeyBelowTotal(x, m);
      if KeyBelow(x, m) {
        forall j | j in s ensures KeyBelow(x, j) {
          if j != x {
            KeyBelowTransitive(x, m, j);
          }
        }
      } else {
        assert forall j :: j in s ==> KeyBelow(m, j);
      }
    }
  }

  /** The least key of a non-empty set of keys. */
  function MinKey(s: set<Key>): (k: Key)
    requires s != {}
    ensures k in s && forall j :: j in s ==> KeyBelow(k, j)
  {
    MinimumExists(s);
    KeyBelowAntisymmetric();
    var k :| k in s && forall j :: j in s ==> KeyBelow(k, j);
    k
  }

  // ------------------------------------------------------------- containers

  /** The entries of a container, least key first. */
  function EncodeEntries(c: Container): Bytes
    decreases |c|
  {
    if c == map[] then []
    else
      var k := MinKey(c.Keys);
      assert |c - {k}| < |c| by { assert (c - {k}).Keys == c.Keys - {k}; }
      EncodeKey(k) + EncodeValue(c[k]) + EncodeEntries(c - {k})
  }

  /** Reads `count` entries; a later entry for a key replaces an earlier one. */
  function ReadEntries(bs: Bytes, count: nat): Read<Container>
    decreases count
  {
    if count == 0 then (map[], bs)
    else
      var (k, afterKey) := ReadKey(bs);
      var (v, afterValue) := ReadValue(afterKey);
      var (c, rest) := ReadEntries(afterValue, count - 1);
      (c[k := v], rest)
  }

  lemma {:induction false} ReadEntriesEncodeEntries(c: Container, rest: Bytes)
    ensures ReadEntries(EncodeEntries(c) + rest, |c|) == (c, rest)
    decreases |c|
  {
    if c == map[] {
      assert EncodeEntries(c) + rest == rest;
    } else {
      var k := MinKey(c.Keys);
      var c' := c - {k};
      var tail := EncodeEntries(c') + rest;
      EncodeEntriesFirst(c, k, rest);
      ReadKeyEncodeKey(k, EncodeValue(c[k]) + tail);
      ReadValueEncodeValue(c[k], tail);
      ReadEntriesEncodeEntries(c', rest);
      ReadEntriesStep(EncodeEntries(c) + rest, |c|, k, c[k], EncodeValue(c[k]) + tail, tail, c', rest);
      RestoreEntry(c, k);
    }
  }

  /** The encoding of a non-empty container starts with its least entry. */
  lemma EncodeEntriesFirst(c: Container, k: Key, rest: Bytes)
    requires c != map[] && k == MinKey(c.Keys)
    ensures |c - {k}| == |c| - 1
    ensures EncodeEntries(c) + rest == EncodeKey(k) + (EncodeValue(c[k]) + (EncodeEntries(c - {k}) + rest))
  {
    assert (c - {k}).Keys == c.Keys - {k};
    var a, b, t := EncodeKey(k), EncodeValue(c[k]), EncodeEntries(c - {k});
    assert EncodeEntries(c) == a + b + t;
    SeqAssoc(a, b, t, rest);
  }

  lemma SeqAssoc(a: Bytes, b: Bytes, t: Bytes, rest: Bytes)
    ensures a + b + t + rest == a + (b + (t + rest))
  {
  }

  lemma RestoreEntry(c: Container, k: Key)
    requires k in c
    ensures (c - {k})[k := c[k]] == c
  {
  }

  /** One step of ReadEntries: an entry, then the remaining ones. */
  lemma ReadEntriesStep(bs: Bytes, count: nat, k: Key, v: Value, afterKey: Bytes, afterValue: Bytes, c: Container, rest: Bytes)
    requires count > 0
    requires ReadKey(bs) == (k, afterKey) && ReadValue(afterKey) == (v, afterValue)
    requires ReadEntries(afterValue, count - 1) == (c, rest)
    ensures ReadEntries(bs, count) == (c[k := v], rest)
  {
  }

  function EncodeContainer(c: Container): Bytes {
    EncodeNat(|c|) + EncodeEntries(c)
  }

  function ReadContainer(bs: Bytes): Read<Container> {
    var (n, rest) := ReadNat(bs);
    ReadEntries(rest, n)
  }

  lemma ReadContainerEncodeContainer(c: Container, rest: Bytes)
    ensures ReadContainer(EncodeContainer(c) + rest) == (c, rest)
  {
    assert EncodeContainer(c) + rest == EncodeNat(|c|) + (EncodeEntries(c) + rest);
    ReadNatEncodeNat(|c|, EncodeEntries(c) + rest);
    ReadEntriesEncodeEntries(c, rest);
  }

  // ------------------------------------------------------------------ items

  function EncodeItem(item: Item): Bytes {
    EncodeString(item.material) + EncodeString(item.meta.displayName) + EncodeContainer(item.meta.pdc)
  }

  function ReadItem(bs: Bytes): Read<Item> {
    var (material, afterMaterial) := ReadString(bs);
    var (name, afterName) := ReadString(afterMaterial);
    var (pdc, rest) := ReadContainer(afterName);
    (Item(material, Meta(name, pdc)), rest)
  }

  /** serializeItemStack: the whole item, material, display data and container, as one byte array. */
  function Serialize(item: Item): Bytes {
    EncodeItem(item)
  }

  /** deserializeItemStack: the item a byte array holds, or None when the bytes are not exactly one item. */
  function Deserialize(bs: Bytes): Option<Item> {
    var (item, rest) := ReadItem(bs);
    if rest == [] then Some(item) else None
  }

  lemma ReadItemEncodeItem(item: Item, rest: Bytes)
    ensures ReadItem(EncodeItem(item) + rest) == (item, rest)
  {
    var afterName := EncodeContainer(item.meta.pdc) + rest;
    var afterMaterial := EncodeString(item.meta.displayName) + afterName;
    EncodeItemSplit(item, rest);
    ReadStringEncodeString(item.material, afterMaterial);
    ReadStringEncodeString(item.meta.displayName, afterName);
    ReadContainerEncodeContainer(item.meta.pdc, rest);
  }

  lemma EncodeItemSplit(item: Item, rest: Bytes)
    ensures EncodeItem(item) + rest ==
      EncodeString(item.material) + (EncodeString(item.meta.displayName) + (EncodeContainer(item.meta.pdc) + rest))
  {
    SeqAssoc(EncodeString(item.material), EncodeString(item.meta.displayName), EncodeContainer(item.meta.pdc), rest);
  }

  /** Round trip: deserializing a serialized item gives back that very item. */
  lemma DeserializeSerialize(item: Item)
    ensures Deserialize(Serialize(item)) == Some(item)
  {
    ReadItemEncodeItem(item, []);
    assert EncodeItem(item) + [] == EncodeItem(item);
  }

  /**
   * An item serializer and its deserializer, as the values a caller uses.
   * RoundTrips is the law callers rely on.
   */
  datatype Codec = Codec(serialize: Item -> Bytes, deserialize: Bytes -> Option<Item>)
  {
    ghost predicate RoundTrips() {
      forall item :: deserialize(serialize(item)) == Some(item)
    }
  }

  /** The ItemUtils pair: serializeItemStack and deserializeItemStack. */
  const ITEM_UTILS: Codec := Codec(Serialize, Deserialize)

  lemma ItemUtilsRoundTrips()
    ensures ITEM_UTILS.RoundTrips()
  {
    forall item: Item ensures ITEM_UTILS.deserialize(ITEM_UTILS.serialize(item)) == Some(item) {
      DeserializeSerialize(item);
    }
  }

  /** Serialization loses nothing: different items never share a byte array. */
  lemma SerializeInjective(a: Item, b: Item)
    requires Serialize(a) == Serialize(b)
    ensures a == b
  {
    DeserializeSerialize(a);
    DeserializeSerialize(b);
  }
}
