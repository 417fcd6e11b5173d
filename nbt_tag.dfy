/**
 * NBTTag: a typed attribute slot. A tag pairs a namespaced key with a data
 * type and an optional default value, and writes into a holder's container,
 * either directly or through an ItemStack by reading its metadata, changing
 * the copy and committing it back.
 */
module NBT {
  import opened Wrappers
  import opened Persistence
  import opened Inventory

  /** How an applyTag call ends: normally, or with the IllegalStateException it throws when there is no default. */
  datatype ApplyOutcome = Applied | IllegalState

  /** An immutable tag; `defaultData == None` stands for Java's null default. */
  datatype NBTTag<!Z(!new)> = NBTTag(namespacedKey: Key, persistentDataType: DataType<Z>, defaultData: Option<Z>)
  {
    function GetNamespacedKey(): Key {
      namespacedKey
    }

    function GetPersistentDataType(): DataType<Z> {
      persistentDataType
    }

    /** The default data, or None where Java returns null. */
    function GetDefaultData(): Option<Z> {
      defaultData
    }

    /** A container after this tag is applied to it with `data`. */
    function WithData(c: Container, data: Z): (r: Container)
      ensures namespacedKey in r && r[namespacedKey] == persistentDataType.toPrimitive(data)
      ensures AgreeExcept(c, r, namespacedKey)
    {
      Update(c, namespacedKey, persistentDataType.toPrimitive(data))
    }

    /** A container after this tag's default is applied to it; None when there is no default to apply. */
    function WithDefault(c: Container): (r: Option<Container>)
      ensures r.None? <==> defaultData.None?
      ensures r.Some? ==> namespacedKey in r.value && r.value[namespacedKey] == persistentDataType.toPrimitive(defaultData.value)
      ensures r.Some? ==> AgreeExcept(c, r.value, namespacedKey)
    {
      if defaultData.None? then None else Some(WithData(c, defaultData.value))
    }

    /** An item after this tag is applied to it with `data`: only its container's entry for the key changes. */
    function ItemWithData(item: Item, data: Z): (r: Item)
      ensures r.material == item.material && r.meta.displayName == item.meta.displayName
      ensures namespacedKey in r.meta.pdc && r.meta.pdc[namespacedKey] == persistentDataType.toPrimitive(data)
      ensures AgreeExcept(item.meta.pdc, r.meta.pdc, namespacedKey)
    {
      Item(item.material, Meta(item.meta.displayName, WithData(item.meta.pdc, data)))
    }

    /** applyTag(ItemStack): the default through a read-change-commit of the item's metadata. */
    method ApplyTagToItem(item: ItemStack) returns (outcome: ApplyOutcome)
      modifies item
      ensures outcome == IllegalState <==> defaultData.None?
      ensures defaultData.None? ==> item.Value() == old(item.Value())
      ensures defaultData.Some? ==> item.Value() == ItemWithData(old(item.Value()), defaultData.value)
    {
      if defaultData.None? {
        return IllegalState;
      }
      var itemMeta := item.GetItemMeta();
      var inner := ApplyTag(itemMeta);
      item.SetItemMeta(itemMeta);
      return Applied;
    }

    /** applyTag(PersistentDataHolder): the default, written into the holder's container. */
    method ApplyTag(holder: ItemMeta) returns (outcome: ApplyOutcome)
      modifies holder.container
      ensures outcome == IllegalState <==> defaultData.None?
      ensures defaultData.None? ==> holder.container.entries == old(holder.container.entries)
      ensures defaultData.Some? ==> holder.container.entries == WithData(old(holder.container.entries), defaultData.value)
    {
      if defaultData.None? {
        return IllegalState;
      }
      var dataContainer := holder.container;
      dataContainer.Set(namespacedKey, persistentDataType, defaultData.value);
      return Applied;
    }

    /** applyTag(ItemStack, data): `data` through a read-change-commit of the item's metadata. */
    method ApplyTagDataToItem(item: ItemStack, data: Z)
      modifies item
      ensures item.Value() == ItemWithData(old(item.Value()), data)
    {
      var itemMeta := item.GetItemMeta();
      ApplyTagData(itemMeta, data);
      item.SetItemMeta(itemMeta);
    }

    /** applyTag(PersistentDataHolder, data): `data` written into the holder's container, default or not. */
    method ApplyTagData(holder: ItemMeta, data: Z)
      modifies holder.container
      ensures holder.container.entries == WithData(old(holder.container.entries), data)
    {
      var dataContainer := holder.container;
      dataContainer.Set(namespacedKey, persistentDataType, data);
    }
  }

  /** NBTTag(namespacedKey, persistentDataType): a tag without default data. */
  function NewTag<Z(!new)>(namespacedKey: Key, persistentDataType: DataType<Z>): (t: NBTTag<Z>)
    ensures t.GetNamespacedKey() == namespacedKey
    ensures t.GetPersistentDataType() == persistentDataType
    ensures t.GetDefaultData() == None
  {
    NBTTag(namespacedKey, persistentDataType, None)
  }

  /**
   * NBTTag(namespacedKey, persistentDataType, defaultData): a tag with the
   * given default data, which Java lets be null (None here).
   */
  function NewTagWithDefault<Z(!new)>(namespacedKey: Key, persistentDataType: DataType<Z>, defaultData: Option<Z>): (t: NBTTag<Z>)
    ensures t.GetNamespacedKey() == namespacedKey
    ensures t.GetPersistentDataType() == persistentDataType
    ensures t.GetDefaultData() == defaultData
  {
    NBTTag(namespacedKey, persistentDataType, defaultData)
  }

  /** A null default given to the three-argument constructor makes the same tag as the two-argument one. */
  lemma NullDefaultIsTwoArgumentTag<Z(!new)>(namespacedKey: Key, persistentDataType: DataType<Z>)
    ensures NewTagWithDefault(namespacedKey, persistentDataType, None) == NewTag(namespacedKey, persistentDataType)
  {
  }

  /** A tag built without a default refuses to apply one, whatever the container holds. */
  lemma NoDefaultAlwaysRefused<Z(!new)>(namespacedKey: Key, persistentDataType: DataType<Z>, c: Container)
    ensures NewTag(namespacedKey, persistentDataType).WithDefault(c) == None
  {
  }

  /** Applying a tag's default and then reading the key back with the tag's data type gives the default. */
  lemma DefaultReadsBack<Z(!new)>(tag: NBTTag<Z>, c: Container)
    requires tag.persistentDataType.Valid() && tag.defaultData.Some?
    ensures var r := tag.WithDefault(c);
      r.Some? && Holds(r.value, tag.namespacedKey, tag.persistentDataType.primitive) &&
      tag.persistentDataType.fromPrimitive(r.value[tag.namespacedKey]) == tag.defaultData
  {
    GetAfterUpdate(c, tag.namespacedKey, tag.persistentDataType, tag.defaultData.value);
  }

  /** Applying a tag with explicit data ignores the default: the result is the same with or without one. */
  lemma DataIgnoresDefault<Z(!new)>(tag: NBTTag<Z>, c: Container, data: Z)
    ensures tag.WithData(c, data) == tag.(defaultData := None).WithData(c, data)
  {
  }

  /** Applying the same tag with the same data twice leaves what applying it once leaves. */
  lemma WithDataIdempotent<Z(!new)>(tag: NBTTag<Z>, c: Container, data: Z)
    ensures tag.WithData(tag.WithData(c, data), data) == tag.WithData(c, data)
  {
    UpdateIdempotent(c, tag.namespacedKey, tag.persistentDataType.toPrimitive(data));
  }

  /** A second application with other data overwrites the first. */
  lemma WithDataOverwrites<Z(!new)>(tag: NBTTag<Z>, c: Container, first: Z, second: Z)
    ensures tag.WithData(tag.WithData(c, first), second) == tag.WithData(c, second)
  {
    UpdateOverwrites(c, tag.namespacedKey, tag.persistentDataType.toPrimitive(first), tag.persistentDataType.toPrimitive(second));
  }
}
