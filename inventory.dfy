/**
 * Items as the core sees them: an item's metadata is an immutable value held
 * by the ItemStack; getItemMeta hands out a fresh, mutable copy, and nothing
 * changes on the item until setItemMeta commits that copy back.
 */
module Inventory {
  import opened Persistence

  /** The part of an item's metadata the core reads: its display data and its container. */
  datatype Meta = Meta(displayName: string, pdc: Container)

  /** An item as a value: its material (identity) and its metadata. */
  datatype Item = Item(material: string, meta: Meta)

  /** ItemMeta: the PersistentDataHolder of an item, a detached, mutable copy of its metadata. */
  class ItemMeta {
    var displayName: string
    const container: PersistentDataContainer

    constructor (m: Meta)
      ensures Value() == m
      ensures fresh(container)
    {
      displayName := m.displayName;
      container := new PersistentDataContainer(m.pdc);
    }

    function Value(): Meta
      reads this, container
    {
      Meta(displayName, container.entries)
    }
  }

  class ItemStack {
    var material: string
    var meta: Meta

    constructor (item: Item)
      ensures Value() == item
    {
      material := item.material;
      meta := item.meta;
    }

    function Value(): Item
      reads this
    {
      Item(material, meta)
    }

    /** A copy of the item's metadata; changing it does not change the item. */
    method GetItemMeta() returns (m: ItemMeta)
      ensures fresh(m) && fresh(m.container)
      ensures m.Value() == meta
    {
      m := new ItemMeta(meta);
    }

    /** Commits a metadata copy back onto the item; the material stays. */
    method SetItemMeta(m: ItemMeta)
      modifies this
      ensures Value() == Item(old(material), m.Value())
    {
      meta := m.Value();
    }
  }

  /** A player, reduced to the slot the core reads and replaces: the main hand. */
  class Player {
    var mainHand: ItemStack

    constructor (held: ItemStack)
      ensures mainHand == held
    {
      mainHand := held;
    }

    method SetItemInMainHand(item: ItemStack)
      modifies this
      ensures mainHand == item
    {
      mainHand := item;
    }
  }
}
