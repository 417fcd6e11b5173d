# ShadowcraftRelics: NBT tags and the Purger switch

This project models two parts of the ShadowcraftRelics Minecraft plugin and proves properties about them.

- **NBTTag** is a typed attribute slot. It pairs a namespaced key with a persistent data type and an optional default value. The tag writes into the persistent data container of a holder (an item's metadata). For an ItemStack, it reads the metadata, changes that copy and commits it back. Without a default, the two overloads that apply the default throw `IllegalStateException`.
- **Purger** is a relic that switches between two items. The held item stores, under the reserved key `storedPurgerItem`, the serialized bytes of another item. Switching first decodes the stored item. It then removes the key from the held item and commits that change. Next it stores the serialized held item inside the decoded one, and finally puts the decoded item in the player's main hand. Nothing changes when the key is missing or the bytes do not decode.

Module layout:

- `persistence.dfy` (`Persistence`) holds namespaced keys, the stored primitive values, persistent data types as a (primitive kind, to-primitive, from-primitive) triple, and the container. The container is a map from keys to values, and `PersistentDataContainer` is a class whose `set` and `remove` update it in place.
- `inventory.dfy` (`Inventory`) holds item values plus the `ItemMeta`, `ItemStack` and `Player` objects. `getItemMeta` hands out a fresh copy, `setItemMeta` commits a copy, and the main-hand slot can be replaced.
- `item_utils.dfy` (`ItemUtils`) is a stand-in item serializer. Its byte layout is this model's own; its round trip `Deserialize(Serialize(item)) == Some(item)` is proved. `Codec` packs a serializer with its deserializer, and `RoundTrips` is the law the Purger proofs assume.
- `nbt_tag.dfy` (`NBT`) is the tag, its two constructors, getters and the four `applyTag` overloads.
- `purger.dfy` (`Relics`) is the reserved key, the switch as a function on item values (`Switch`), the imperative `switchCurrentPurger`, and lemmas about switching twice.

## Model

| member | source | states |
|---|---|---|
| NBT.NewTag | src/main/java/world/sc2/shadowcraftrelics/nbt/NBTTag.java:26-30 | The getters return the given key and data type, and the default is absent (Java's null). |
| NBT.NewTagWithDefault | src/main/java/world/sc2/shadowcraftrelics/nbt/NBTTag.java:38-42 | The getters return the given key, data type and default, where the default may be null (None). |
| NBT.NullDefaultIsTwoArgumentTag | src/main/java/world/sc2/shadowcraftrelics/nbt/NBTTag.java:38-42 | A null default given to the three-argument constructor makes exactly the tag the two-argument constructor makes; with NoDefaultAlwaysRefused, such a tag refuses to apply a default. |
| NBT.NBTTag.GetNamespacedKey | src/main/java/world/sc2/shadowcraftrelics/nbt/NBTTag.java:47-49 | Returns the tag's key; the constructors' contracts state it is the key they were given. |
| NBT.NBTTag.GetPersistentDataType | src/main/java/world/sc2/shadowcraftrelics/nbt/NBTTag.java:54-56 | Returns the tag's data type; the constructors' contracts state it is the type they were given. |
| NBT.NBTTag.GetDefaultData | src/main/java/world/sc2/shadowcraftrelics/nbt/NBTTag.java:61-63 | Returns the default, None for Java's null; the constructors' contracts state it is the default they were given. |
| NBT.NBTTag.WithData | src/main/java/world/sc2/shadowcraftrelics/nbt/NBTTag.java:108-111 | After the tag is applied with `data`, the tag's key maps to the data type's primitive form of `data`, and every other entry is unchanged. |
| NBT.NBTTag.WithDefault | src/main/java/world/sc2/shadowcraftrelics/nbt/NBTTag.java:85-92 | Applying the default fails exactly when there is no default; otherwise the key maps to the default's primitive form and nothing else changes. |
| NBT.NBTTag.ItemWithData | src/main/java/world/sc2/shadowcraftrelics/nbt/NBTTag.java:98-102 | Applying to an item keeps its material and display name, sets the key in its container and leaves other entries alone. |
| NBT.NBTTag.ApplyTagToItem | src/main/java/world/sc2/shadowcraftrelics/nbt/NBTTag.java:70-78 | Throws IllegalState iff there is no default, and then the item is unchanged; otherwise the item afterwards is the old item with the default applied to its metadata's container. |
| NBT.NBTTag.ApplyTag | src/main/java/world/sc2/shadowcraftrelics/nbt/NBTTag.java:85-92 | Throws IllegalState iff there is no default, leaving the holder's container unchanged; otherwise the container becomes the old one with the default set at the key. |
| NBT.NBTTag.ApplyTagDataToItem | src/main/java/world/sc2/shadowcraftrelics/nbt/NBTTag.java:98-102 | The item afterwards is the old item with `data` set at the key in its metadata's container. |
| NBT.NBTTag.ApplyTagData | src/main/java/world/sc2/shadowcraftrelics/nbt/NBTTag.java:108-111 | The holder's container becomes the old one with `data` set at the key, whether or not a default exists. |
| NBT.NoDefaultAlwaysRefused | src/main/java/world/sc2/shadowcraftrelics/nbt/NBTTag.java:26-30 | A tag built with the two-argument constructor refuses to apply a default to any container. |
| NBT.DefaultReadsBack | src/main/java/world/sc2/shadowcraftrelics/nbt/NBTTag.java:90-91 | For a lawful data type, reading the key back after the default is applied finds a value of the type's primitive kind that converts back to the default. |
| NBT.DataIgnoresDefault | src/main/java/world/sc2/shadowcraftrelics/nbt/NBTTag.java:108-111 | Applying explicit data gives the same container whether or not the tag has a default. |
| NBT.WithDataIdempotent | src/main/java/world/sc2/shadowcraftrelics/nbt/NBTTag.java:108-111 | Applying the same tag with the same data twice gives the same container as applying it once. |
| NBT.WithDataOverwrites | src/main/java/world/sc2/shadowcraftrelics/nbt/NBTTag.java:108-111 | A second application with other data replaces the first one. |
| Persistence.PersistentDataContainer.Set | src/main/java/world/sc2/shadowcraftrelics/nbt/NBTTag.java:91 | The container's entries become the old entries with the key mapped to the value's primitive form. |
| Persistence.PersistentDataContainer.Has | src/main/java/world/sc2/shadowcraftrelics/relics/on_interact/Purger.java:43 | True exactly when the key holds a value of the data type's primitive kind (its meaning is fixed by GetByteArray below). |
| Persistence.PersistentDataContainer.Get | src/main/java/world/sc2/shadowcraftrelics/relics/on_interact/Purger.java:50 | A value is found only where `has` holds, and it is the data type's conversion of the stored primitive. |
| Persistence.GetByteArray | src/main/java/world/sc2/shadowcraftrelics/relics/on_interact/Purger.java:43-50 | For BYTE_ARRAY, `get` finds a value exactly when `has` holds, and the value is the byte array stored at the key. |
| Persistence.PersistentDataContainer.Remove | src/main/java/world/sc2/shadowcraftrelics/relics/on_interact/Purger.java:56 | The container's entries become the old entries without the key. |
| Persistence.GetAfterUpdate | src/main/java/world/sc2/shadowcraftrelics/nbt/NBTTag.java:91 | For a lawful data type, a value set at a key is found there with the type's kind and converts back to the value. |
| Persistence.UpdateEffect | src/main/java/world/sc2/shadowcraftrelics/nbt/NBTTag.java:110 | Setting a key makes it map to the new value and keeps every other entry. |
| Persistence.DeleteEffect | src/main/java/world/sc2/shadowcraftrelics/relics/on_interact/Purger.java:56 | Removing a key makes it absent and keeps every other entry. |
| Persistence.UpdateDetermined | src/main/java/world/sc2/shadowcraftrelics/nbt/NBTTag.java:110 | A container with the key mapped to `v` that agrees with `c` everywhere else is exactly `c` with the key set to `v`. |
| Persistence.DeleteDetermined | src/main/java/world/sc2/shadowcraftrelics/relics/on_interact/Purger.java:56 | A container without the key that agrees with `c` everywhere else is exactly `c` with the key removed. |
| Inventory.ItemStack.GetItemMeta | src/main/java/world/sc2/shadowcraftrelics/nbt/NBTTag.java:75 | Returns a freshly allocated metadata object with a fresh container whose value is the item's current metadata: a detached copy, so changing it leaves the item alone until it is committed. The same call is made at NBTTag.java:99 and Purger.java:40 and 52. |
| Inventory.ItemStack.SetItemMeta | src/main/java/world/sc2/shadowcraftrelics/nbt/NBTTag.java:77 | Commits a metadata copy: the item afterwards keeps its material and takes the copy's display name and container. The same call is made at NBTTag.java:101 and Purger.java:57 and 62. |
| Inventory.Player.SetItemInMainHand | src/main/java/world/sc2/shadowcraftrelics/relics/on_interact/Purger.java:65 | The main-hand slot afterwards holds exactly the given item object. |
| Relics.Purger.constructor | src/main/java/world/sc2/shadowcraftrelics/relics/on_interact/Purger.java:21-25 | The reserved key is `storedPurgerItem` in the plugin's namespace, and the Purger serializes with ItemUtils. |
| Relics.WithoutKey | src/main/java/world/sc2/shadowcraftrelics/relics/on_interact/Purger.java:56-57 | The committed current item keeps material and display name, loses the reserved key and keeps every other entry. |
| Relics.WithLink | src/main/java/world/sc2/shadowcraftrelics/relics/on_interact/Purger.java:60-62 | The next item keeps material and display name, holds the link bytes at the reserved key and keeps every other entry. |
| Relics.StoredBytes | src/main/java/world/sc2/shadowcraftrelics/relics/on_interact/Purger.java:43-50 | Some bytes exactly when the container holds a byte array at the key, and they are that array. |
| Relics.Switch | src/main/java/world/sc2/shadowcraftrelics/relics/on_interact/Purger.java:39-69 | Missing iff there is no byte array at the key, and unreadable iff the bytes do not decode. On success, the current item loses only the key. The next item is the decoded stored item apart from the key, which holds the serialized committed item. |
| Relics.Purger.SwitchCurrentPurger | src/main/java/world/sc2/shadowcraftrelics/relics/on_interact/Purger.java:39-69 | The outcome is the switch's. If the switch failed, the current item and the main-hand slot are unchanged. If it succeeded, the current item is the committed item and the main hand holds a new item whose value is the next item. |
| Relics.SwitchedLinkReadsBack | src/main/java/world/sc2/shadowcraftrelics/relics/on_interact/Purger.java:56-60 | With a lawful codec, the link written into the next item decodes to the committed current item exactly. |
| Relics.SwitchBack | src/main/java/world/sc2/shadowcraftrelics/relics/on_interact/Purger.java:49-65 | With a lawful codec, a switched item can always be switched again. That second switch commits the stored item without its link and brings back the original item, now linking to it. |
| Relics.SwitchTwiceRestores | src/main/java/world/sc2/shadowcraftrelics/relics/on_interact/Purger.java:49-65 | With a lawful codec, two switches from A, whose stored item B has no link, put exactly A back in the main hand and commit exactly B. |
| Relics.SwitchTwiceDropsDeeperLink | src/main/java/world/sc2/shadowcraftrelics/relics/on_interact/Purger.java:60 | With a lawful codec, when B carries its own link, two switches bring back A linking to B without that link: the deeper item is lost. |
| ItemUtils.DeserializeSerialize | src/main/java/world/sc2/shadowcraftrelics/relics/on_interact/Purger.java:49-60 | Deserializing a serialized item gives back that very item. |
| ItemUtils.ItemUtilsRoundTrips | src/main/java/world/sc2/shadowcraftrelics/relics/on_interact/Purger.java:49-60 | The ItemUtils codec the Purger uses satisfies the round-trip law the Purger lemmas assume. |
| ItemUtils.SerializeInjective | src/main/java/world/sc2/shadowcraftrelics/relics/on_interact/Purger.java:60 | Different items never serialize to the same bytes. |

## Left out

- ItemUtils is not part of this model. `serializeItemStack` and `deserializeItemStack` are replaced by a stand-in codec with its own byte layout, proved to round-trip. The Purger lemmas need only that law, so they hold for any codec satisfying it.
- A stored byte array that does not decode ends in `DecodeFailed` with nothing changed. In Java there are two cases. If `deserializeItemStack` throws, the method stops at Purger.java:49-50. If it returns null, the method fails at Purger.java:52 on `nextPurger.getItemMeta()`. Either way nothing has been changed yet.
- `onInteract` and `onAttack` (Purger.java:26-37) only fetch the main-hand item from the event and call `switchCurrentPurger`. Events, the cast of the damager and inventories other than the main hand are left out.
- The severe log message on a missing key is represented by the `LoggedMissingKey` outcome. Text and logger are left out.
- The `Relic` superclass, its `Config` and the plugin object are left out. The plugin is represented by its namespace string. `NamespacedKey`'s lower-casing and validation of names are not modelled.
- Persistent data holders other than item metadata (entities, blocks, chunks) are left out. `ItemMeta` is the one holder modelled.
- Persistent data types are modelled by their primitive kind and two conversions. Only byte-array, string and integer primitives are present.
- An item is only its material, its display name and its persistent data container. The stack amount and the rest of the metadata (lore, enchantments, damage) are not represented. Every modelled operation passes them through unchanged, so no stated property depends on them.
- `getItemMeta` returning null (an empty slot) and a null `data` argument to `applyTag` are not modelled. Every item has metadata, and data is never null.
- The sound that `switchCurrentPurger` leaves as a to-do (Purger.java:67) does nothing, so nothing is modelled for it.
- Relics.Purger.SwitchCurrentPurger: the main-hand item after a failed switch is stated as the same object, not its contents. When that object is not the current item, it is outside the method's frame and so is unchanged.
- Switching keeps a single link and is not a stack of stored items. The code overwrites any link the decoded item already carried (`SwitchTwiceDropsDeeperLink`). The model follows the code here.
