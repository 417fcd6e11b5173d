/**
 * The Purger relic: the held item carries, under a reserved key, the
 * serialized form of the item it replaced. Switching puts that stored item
 * in the main hand and stores the (stripped) current item inside it.
 */
module Relics {
  import opened Wrappers
  import opened Persistence
  import opened Inventory
  import ItemUtils
  type Codec = ItemUtils.Codec

  /** The key name the Purger registers under its plugin's namespace. */
  const STORED_ITEM_KEY_NAME: string := "storedPurgerItem"

  /** `item` with nothing stored at `key`; everything else as it was. */
  function WithoutKey(item: Item, key: Key): (r: Item)
    ensures r.material == item.material && r.meta.displayName == item.meta.displayName
    ensures key !in r.meta.pdc && AgreeExcept(item.meta.pdc, r.meta.pdc, key)
  {
    Item(item.material, Meta(item.meta.displayName, Delete(item.meta.pdc, key)))
  }

  /** `item` with the byte array `link` stored at `key`; everything else as it was. */
  function WithLink(item: Item, key: Key, link: seq<byte>): (r: Item)
    ensures r.material == item.material && r.meta.displayName == item.meta.displayName
    ensures key in r.meta.pdc && r.meta.pdc[key] == ByteArray(link)
    ensures AgreeExcept(item.meta.pdc, r.meta.pdc, key)
  {
    Item(item.material, Meta(item.meta.displayName, Update(item.meta.pdc, key, ByteArray(link))))
  }

  /**
   * What switching does to item values: `committed` is what the current item
   * becomes, `next` is what goes into the main hand. The two failures leave
   * everything as it was.
   */
  datatype SwitchResult = Switched(committed: Item, next: Item) | MissingStoredItem | UnreadableStoredItem

  /** The bytes stored at the key, when a byte array is stored there. */
  function StoredBytes(item: Item, key: Key): (r: Option<seq<byte>>)
    ensures r.Some? <==> Holds(item.meta.pdc, key, ByteArrayKind)
    ensures r.Some? ==> item.meta.pdc[key] == ByteArray(r.value)
  {
    if Holds(item.meta.pdc, key, ByteArrayKind) then Some(item.meta.pdc[key].bytes) else None
  }

  /** The switch of the item `current`, whose stored item sits at `key`. */
  function Switch(codec: Codec, key: Key, current: Item): (r: SwitchResult)
    ensures r.MissingStoredItem? <==> StoredBytes(current, key).None?
    ensures r.UnreadableStoredItem? <==>
      StoredBytes(current, key).Some? && codec.deserialize(StoredBytes(current, key).value).None?
    // the current item loses the key and nothing else
    ensures r.Switched? ==>
      r.committed.material == current.material && r.committed.meta.displayName == current.meta.displayName &&
      key !in r.committed.meta.pdc && AgreeExcept(current.meta.pdc, r.committed.meta.pdc, key)
    // the new held item is the decoded stored item, apart from its entry at the key
    ensures r.Switched? ==>
      StoredBytes(current, key).Some? &&
      var stored := codec.deserialize(StoredBytes(current, key).value);
      stored.Some? &&
      r.next.material == stored.value.material && r.next.meta.displayName == stored.value.meta.displayName &&
      AgreeExcept(stored.value.meta.pdc, r.next.meta.pdc, key)
    // ... whose entry at the key is the serialized committed item, whatever it held before
    ensures r.Switched? ==> StoredBytes(r.next, key) == Some(codec.serialize(r.committed))
  {
    match StoredBytes(current, key)
    case None => MissingStoredItem
    case Some(bytes) =>
      match codec.deserialize(bytes)
      case None => UnreadableStoredItem
      case Some(stored) =>
        var committed := WithoutKey(current, key);
        Switched(committed, WithLink(stored, key, codec.serialize(committed)))
  }

  /**
   * Push and pop are inverse: the item a switch puts in the main hand links
   * back to the committed current item, which decodes from it exactly.
   */
  lemma SwitchedLinkReadsBack(codec: Codec, key: Key, current: Item)
    requires codec.RoundTrips()
    requires Switch(codec, key, current).Switched?
    ensures codec.deserialize(StoredBytes(Switch(codec, key, current).next, key).value) == Some(Switch(codec, key, current).committed)
  {
    var committed := Switch(codec, key, current).committed;
    assert codec.deserialize(codec.serialize(committed)) == Some(committed);
  }

  /** The switch of an item whose stored bytes decode to `stored`. */
  lemma SwitchUnfolds(codec: Codec, key: Key, current: Item, stored: Item)
    requires StoredBytes(current, key).Some?
    requires codec.deserialize(StoredBytes(current, key).value) == Some(stored)
    ensures Switch(codec, key, current) ==
      Switched(WithoutKey(current, key), WithLink(stored, key, codec.serialize(WithoutKey(current, key))))
  {
  }

  /** How the switch method ends: switched, logged and returned, or failed while decoding. */
  datatype SwitchOutcome = SwitchedPurger | LoggedMissingKey | DecodeFailed

  function OutcomeOf(r: SwitchResult): SwitchOutcome {
    match r
    case Switched(_, _) => SwitchedPurger
    case MissingStoredItem => LoggedMissingKey
    case UnreadableStoredItem => DecodeFailed
  }

  class Purger {
    const purgerStoredItemKey: Key
    /** The item serializer the Purger uses: ItemUtils. */
    const itemUtils: Codec

    /** The reserved key: "storedPurgerItem" in the plugin's namespace. */
    constructor (pluginNamespace: string)
      ensures purgerStoredItemKey == NamespacedKey(pluginNamespace, STORED_ITEM_KEY_NAME)
      ensures itemUtils == ItemUtils.ITEM_UTILS
    {
      purgerStoredItemKey := NamespacedKey(pluginNamespace, STORED_ITEM_KEY_NAME);
      itemUtils := ItemUtils.ITEM_UTILS;
    }

    /** switchCurrentPurger: rotates the held Purger with the one stored inside it. */
    method SwitchCurrentPurger(player: Player, currentPurger: ItemStack) returns (outcome: SwitchOutcome)
      modifies player, currentPurger
      ensures outcome == OutcomeOf(Switch(itemUtils, purgerStoredItemKey, old(currentPurger.Value())))
      ensures !Switch(itemUtils, purgerStoredItemKey, old(currentPurger.Value())).Switched? ==>
        currentPurger.Value() == old(currentPurger.Value()) && player.mainHand == old(player.mainHand)
      ensures Switch(itemUtils, purgerStoredItemKey, old(currentPurger.Value())).Switched? ==>
        currentPurger.Value() == Switch(itemUtils, purgerStoredItemKey, old(currentPurger.Value())).committed &&
        fresh(player.mainHand) &&
        player.mainHand.Value() == Switch(itemUtils, purgerStoredItemKey, old(currentPurger.Value())).next
    {
      ghost var before := currentPurger.Value();
      ghost var result := Switch(itemUtils, purgerStoredItemKey, before);
      var currentPurgerMeta := currentPurger.GetItemMeta();
      var currentPurgerPDC := currentPurgerMeta.container;

      if !currentPurgerPDC.Has(purgerStoredItemKey, BYTE_ARRAY) {
        // switchCurrentPurger logs a severe message here and returns
        assert result.MissingStoredItem?;
        return LoggedMissingKey;
      }

      // Create the stored Purger
      ByteArrayType(currentPurgerPDC.entries[purgerStoredItemKey].bytes);
      var bytes := currentPurgerPDC.Get(purgerStoredItemKey, BYTE_ARRAY);
      assert StoredBytes(before, purgerStoredItemKey) == bytes;
      var decoded := itemUtils.deserialize(bytes.value);
      if decoded.None? {
        assert result.UnreadableStoredItem?;
        return DecodeFailed;
      }
      SwitchUnfolds(itemUtils, purgerStoredItemKey, before, decoded.value);
      var nextPurger := new ItemStack(decoded.value);

      var nextPurgerMeta := nextPurger.GetItemMeta();
      var nextPurgerPDC := nextPurgerMeta.container;

      // Remove the next Purger's data from the current Purger and commit
      currentPurgerPDC.Remove(purgerStoredItemKey);
      currentPurger.SetItemMeta(currentPurgerMeta);
      assert currentPurger.Value() == result.committed;

      // Serialize the current Purger and store it inside the next Purger
      ByteArrayType(itemUtils.serialize(currentPurger.Value()));
      nextPurgerPDC.Set(purgerStoredItemKey, BYTE_ARRAY, itemUtils.serialize(currentPurger.Value()));
      nextPurger.SetItemMeta(nextPurgerMeta);
      assert nextPurger.Value() == result.next;

      // Replace the current Purger with the next Purger
      player.SetItemInMainHand(nextPurger);
      return SwitchedPurger;
    }
  }

  /**
   * Switching back: after a switch, the new held item can always be switched
   * again, and that puts the original item back, except that its entry at the
   * key now holds the stored item with the stored item's own link removed.
   */
  lemma SwitchBack(codec: Codec, key: Key, current: Item)
    requires codec.RoundTrips()
    requires Switch(codec, key, current).Switched?
    ensures var first := Switch(codec, key, current);
      var stored := codec.deserialize(StoredBytes(current, key).value).value;
      var second := Switch(codec, key, first.next);
      second.Switched? &&
      second.committed == WithoutKey(stored, key) &&
      second.next == WithLink(current, key, codec.serialize(WithoutKey(stored, key)))
  {
    var first := Switch(codec, key, current);
    var stored := codec.deserialize(StoredBytes(current, key).value).value;
    var second := Switch(codec, key, first.next);
    SwitchedLinkReadsBack(codec, key, current);
    assert second.Switched?;
    DeleteDetermined(stored.meta.pdc, key, second.committed.meta.pdc);
    assert second.committed == WithoutKey(stored, key);
    DeleteDetermined(current.meta.pdc, key, first.committed.meta.pdc);
    UpdateDetermined(first.committed.meta.pdc, key, ByteArray(codec.serialize(second.committed)), second.next.meta.pdc);
    DeleteThenUpdate(current.meta.pdc, key, ByteArray(codec.serialize(second.committed)));
  }

  lemma DeleteThenUpdate(c: Container, key: Key, v: Value)
    ensures Update(Delete(c, key), key, v) == Update(c, key, v)
  {
  }

  /**
   * Two switches from an item `a` whose stored item `b` has nothing stored
   * under the key put exactly `a` back in the main hand, and leave `b` as the
   * item the second switch committed.
   */
  lemma SwitchTwiceRestores(codec: Codec, key: Key, a: Item, b: Item)
    requires codec.RoundTrips()
    requires key in a.meta.pdc && a.meta.pdc[key] == ByteArray(codec.serialize(b))
    requires key !in b.meta.pdc
    ensures var first := Switch(codec, key, a);
      first.Switched? && Switch(codec, key, first.next).Switched? &&
      Switch(codec, key, first.next).next == a && Switch(codec, key, first.next).committed == b
  {
    assert codec.deserialize(codec.serialize(b)) == Some(b);
    assert Switch(codec, key, a).Switched?;
    SwitchBack(codec, key, a);
    assert WithoutKey(b, key) == b by {
      assert Delete(b.meta.pdc, key) == b.meta.pdc;
    }
    UpdateDetermined(a.meta.pdc, key, ByteArray(codec.serialize(b)), a.meta.pdc);
  }

  /**
   * The chain is not a deep stack: when the stored item `b` itself carries a
   * stored item, two switches bring back `a` with a link to `b` stripped of
   * its own link, so whatever `b` stored is no longer reachable.
   */
  lemma SwitchTwiceDropsDeeperLink(codec: Codec, key: Key, a: Item, b: Item)
    requires codec.RoundTrips()
    requires key in a.meta.pdc && a.meta.pdc[key] == ByteArray(codec.serialize(b))
    requires key in b.meta.pdc
    ensures var first := Switch(codec, key, a);
      first.Switched? && Switch(codec, key, first.next).Switched? &&
      var back := Switch(codec, key, first.next).next;
      StoredBytes(back, key).Some? &&
      var inner := codec.deserialize(StoredBytes(back, key).value);
      inner.Some? && inner.value != b && key !in inner.value.meta.pdc &&
      AgreeExcept(b.meta.pdc, inner.value.meta.pdc, key)
  {
    assert codec.deserialize(codec.serialize(b)) == Some(b);
    assert Switch(codec, key, a).Switched?;
    SwitchBack(codec, key, a);
    assert codec.deserialize(codec.serialize(WithoutKey(b, key))) == Some(WithoutKey(b, key));
  }
}
