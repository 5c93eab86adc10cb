# HEIF item locations and derived-image writing, in Dafny

This project models two parts of a HEIF (ISO/IEC 23008-12) reader/writer library:

- **The Item Location box ('iloc', section 8.11.3 of ISO/IEC 14496-12)** (`Srcs/common/itemlocationbox.hpp`).
  - An item location has an ID, a construction method, a data reference index, a base offset and an ordered list of extents.
  - The box holds four field widths and the item locations. Each width is one of 0, 4 or 8 bytes, and 0 means the field is omitted.
  - Modelled operations:
    - the accessors and the 16-bit counts
    - `addLocation`, the two `addExtent`s, `hasItemIdEntry`, `findItem`, `setItemDataReferenceIndex` and `getItemLocationForID`
    - the byte codec `writeBox` / `parseBox` / `ItemLocation::write` for versions 0, 1 and 2.
- **The MetaBox writer for derived images** (`Srcs/writer/metaderivedimagewriter.hpp`).
  - It turns a configuration of identity transformations ('irot', 'rloc', 'clap'), image grids and image overlays into new items.
  - Each grid or overlay gets an item ID, its descriptor bytes in the media data, and an 'iloc' entry pointing at those bytes.
  - It builds the `DerivationMap` (keyed by `uniq_bsid`) and the `ReferenceToItemIdMap`.
  - It resolves every 1-based image index to an item ID.
  - It then writes:
    - item information ('iinf')
    - 'dimg' and 'base' item references ('iref')
    - 'ispe' and transformative properties ('iprp'), and links each transformed image's 'ispe' to the item that transforms it.

Modules:

| file | module | contents |
|---|---|---|
| `wrappers.dfy` | `Wrappers` | `Option`, `Result` and the error kinds |
| `bytes.dfy` | `Bytes` | fixed-width integers, big-endian encoding and its inverse |
| `iloc.dfy` | `Iloc` | extents, item locations, the 'iloc' table and its operations |
| `iloccodec.dfy` | `IlocCodec` | `writeBox` / `parseBox` and the round trip |
| `metabox.dfy` | `MetaBoxModel` | the MetaBox collaborators, kept abstract (see below) |
| `derivation.dfy` | `Derivation` | `DerivationInfo`, reference resolution, the derivation map |
| `allocation.dfy` | `Allocation` | the configuration, item-ID allocation, `processIdenDerivations` / `processOtherDerivations` |
| `derivedimagewriter.dfy` | `DerivedImageWriter` | `linkIspeProperties`, `insert*References`, `iinfWrite`, `ilocWrite`, `irefWrite`, `iprpWrite`, `write` |

Modelling choices:

- **The MetaBox collaborators are values.** The Item Information and Item Reference boxes are logs of the `addItemInfo` / `addReference` calls made on them. The Item Properties box is a property list plus a list of associations. The media data is its bytes.
- **Failure is a `Result`.** Where the source throws or reports "not found", the model returns a `Failure` carrying the error kind: `DuplicateItem`, `ItemNotFound`, `UnresolvedReference`, `ArityMismatch`, `InvalidFieldWidth` and so on.
- **Outside inputs are parameters.** The item IDs of the source images come in as a map from `uniq_bsid` to item IDs. The next free item ID is a counter that is passed in and returned. The grid and overlay descriptor bytes are part of the configuration.
- **Integer widths are explicit.**
  - The writer's item IDs are 32-bit, but an 'iloc' entry holds a 16-bit ID, so `LocationEntry` keeps the ID modulo 2^16.
  - `getExtentCount` and `getItemCount` return the count modulo 2^16.
  - Version 2 reads a 32-bit item_ID into the 16-bit field modulo 2^16.
  - The writer's `ItemLocation` offset and length are `unsigned int`, so they are kept modulo 2^32.
- **extent_index follows the standard.**
  - Section 8.11.3 of ISO/IEC 14496-12 puts extent_index in every extent of versions 1 and 2 whenever index_size is non-zero, whatever the construction method.
  - itemlocationbox.hpp does not specify the codec's body. Its comment on `mIndexSize` (itemlocationbox.hpp:205) says index_size is used "only if version == 1, otherwise reserved".
  - The model departs from that comment and follows the standard: index_size is read and written in version 2 as well as version 1.
  - In version 0 the index nibble is reserved: it is written as 0 and ignored on reading.
- **The derivation map is a list.** `std::map<UniqBsid, DerivationInfo>` is a list sorted by ascending key. metaderivedimagewriter.hpp does not say whether entries go in with `insert` (the first entry for a key stays) or `operator[]` (the last one stays). The model chooses the latter: inserting a key that is already present replaces its entry.
- **`IndexList` is a list of lists.** For each context `uniq_bsid` in `refsList` there is a list of 1-based image indexes (metaderivedimagewriter.hpp:112). Resolution flattens these pairs in order.
- **Derivation shapes.**
  - An identity derivation gets one new item per image it references.
  - A grid or overlay gets exactly one item.
  - An identity item has a 'dimg' reference to the one image it transforms.
  - A grid or overlay has a single 'dimg' reference to all its images, in order.

## Model

| member | source | states |
|---|---|---|
| Iloc.MethodFromCode | Srcs/common/itemlocationbox.hpp:41-47 | codes 0, 1 and 2 denote FILE_OFFSET, IDAT_OFFSET and ITEM_OFFSET, and encoding gives the code back; codes above 2 denote no method |
| Iloc.ExtentCount | Srcs/common/itemlocationbox.hpp:81-83 | getExtentCount is the number of extents while it fits in 16 bits, and never more than that number |
| Iloc.AppendExtent | Srcs/common/itemlocationbox.hpp:85-96 | addExtent appends: the list grows by one, the new extent is at the end, getExtent of every earlier index is unchanged, the 16-bit count goes up by one, and the other fields stay |
| Iloc.SetOffsetSize | Srcs/common/itemlocationbox.hpp:123-129 | accepts only widths in {0,4,8}, changes only offset_size, and keeps the width invariant |
| Iloc.SetLengthSize | Srcs/common/itemlocationbox.hpp:131-137 | accepts only widths in {0,4,8}, changes only length_size, and keeps the width invariant |
| Iloc.SetBaseOffsetSize | Srcs/common/itemlocationbox.hpp:139-145 | accepts only widths in {0,4,8}, changes only base_offset_size, and keeps the width invariant |
| Iloc.SetIndexSize | Srcs/common/itemlocationbox.hpp:147-153 | accepts only widths in {0,4,8}, changes only index_size, and keeps the width invariant |
| Iloc.GetItemCount | Srcs/common/itemlocationbox.hpp:159-161 | the item count is the number of entries while that fits in 16 bits |
| Iloc.AddLocation | Srcs/common/itemlocationbox.hpp:163-165 | appends the location; the model also rejects an ID that is already present (a modelling choice, see Left out): fails with DuplicateItem if and only if the ID is already present; on success the new entry is appended after the unchanged earlier entries, the widths and version stay, and unique IDs stay unique |
| Iloc.AddExtent | Srcs/common/itemlocationbox.hpp:167-170 | fails with ItemNotFound if and only if no entry has the ID; otherwise it appends the extent to the first entry with that ID and leaves every other entry and field as it was |
| Iloc.HasItemIdEntry | Srcs/common/itemlocationbox.hpp:172-175 | true if and only if some entry carries the ID |
| Iloc.SetItemDataReferenceIndex | Srcs/common/itemlocationbox.hpp:177-181 | returns true if and only if the ID is present; on false the box is unchanged; on true the first entry with that ID gets the new index and every other entry, including a later one with the same ID, is unchanged; no entry is created and no ID changes |
| Iloc.FindItem | Srcs/common/itemlocationbox.hpp:208-209 | gives the position of the first entry with the ID, or none exactly when no entry has it |
| Iloc.GetItemLocationForID | Srcs/common/itemlocationbox.hpp:195-199 | fails with ItemNotFound if and only if no entry has the ID; otherwise it returns the first entry with that ID |
| Iloc.LookupIsUnique | Srcs/common/itemlocationbox.hpp:195-199 | when IDs are unique, the entry returned is the only one with that ID |
| Iloc.MutationsKeepUniqueIds | Srcs/common/itemlocationbox.hpp:167-181 | addExtent and setItemDataReferenceIndex keep item IDs unique |
| IlocCodec.DecodeMethod | Srcs/common/itemlocationbox.hpp:41-47 | a construction_method code above 2 is rejected with InvalidConstructionMethod; otherwise it decodes to the method with that code |
| IlocCodec.ParseWidths | Srcs/common/itemlocationbox.hpp:202-205 | a decoded layout always satisfies the width invariant; a width code outside {0,4,8} is rejected with InvalidFieldWidth |
| IlocCodec.WidthsRoundTrip | Srcs/common/itemlocationbox.hpp:202-205 | the two width bytes written for a box decode to its offset, length, base-offset and index sizes (the index nibble only in versions 1 and 2), and the following bytes are left unread |
| IlocCodec.ParseBox | Srcs/common/itemlocationbox.hpp:191-193 | a version above 2 fails with UnsupportedVersion; a reserved width code fails with InvalidFieldWidth; every box it returns satisfies the width invariant, and each value fits its field |
| IlocCodec.ExtentsRoundTrip | Srcs/common/itemlocationbox.hpp:22-30 | the extents written under a layout are parsed back, in order, and the following bytes are left unread |
| IlocCodec.EntryRoundTrip | Srcs/common/itemlocationbox.hpp:98-101 | one entry as writeBox emits it, at the box's own widths (the `Layout` the model passes to the entry writer; `ItemLocation::write` itself receives only the version), is parsed back under the same widths to the same entry, and the following bytes are left unread |
| IlocCodec.EntriesRoundTrip | Srcs/common/itemlocationbox.hpp:187-193 | the entries written under a valid layout are parsed back as the same entries in the same order, and the following bytes are left unread |
| IlocCodec.BoxRoundTrip | Srcs/common/itemlocationbox.hpp:187-193 | parseBox(writeBox(box)) reproduces every box that satisfies the width invariant and whose values fit their fields, whatever bytes follow |
| IlocCodec.ZeroWidthFieldsDecodeAsZero | Srcs/common/itemlocationbox.hpp:202-205 | in a decoded box, every field whose width is 0 (and every extent_index in version 0) holds 0 |
| IlocCodec.ExtentsLength | Srcs/common/itemlocationbox.hpp:22-30 | each extent takes exactly index_size + offset_size + length_size bytes, so a zero-width field takes no space |
| IlocCodec.EntryLength | Srcs/common/itemlocationbox.hpp:98-101 | one entry as writeBox emits it at the box's widths (the model's `Layout`) takes item_ID (2 or 4 bytes by version), construction_method (2 bytes, versions 1 and 2 only), data_reference_index (2), base_offset_size and extent_count (2) bytes, then index_size (versions 1 and 2 only) + offset_size + length_size bytes per extent |
| Derivation.TypeCode | Srcs/writer/metaderivedimagewriter.hpp:65 | the item type of a derivation is one of 'grid', 'iovl' or 'iden', and each kind has its own type |
| Derivation.ResolveHandles | Srcs/writer/metaderivedimagewriter.hpp:62 | succeeds if and only if every (context, 1-based index) is mapped; the result has one item ID per handle, in order, namely item index-1 of the context's list |
| Derivation.Resolve | Srcs/writer/metaderivedimagewriter.hpp:60-62 | refsList and indexList must have the same length, otherwise ArityMismatch; succeeds exactly when every index resolves, giving one item per index in order; otherwise UnresolvedReference names a handle that does not resolve |
| Derivation.ResolveOneBased | Srcs/writer/metaderivedimagewriter.hpp:62 | with one index per context, item i is item idxs[i]-1 of context refs[i], which lies in range |
| Derivation.ResolveAppend | Srcs/writer/metaderivedimagewriter.hpp:60-62 | resolving two concatenated pairs of parallel lists gives the concatenation of the two results |
| Derivation.ResolveHandlesAppend | Srcs/writer/metaderivedimagewriter.hpp:62 | resolving two handle lists one after the other gives the concatenation of their item IDs |
| Derivation.Lookup | Srcs/writer/metaderivedimagewriter.hpp:67 | finds the entry with the key, or none exactly when the key is absent |
| Derivation.Put | Srcs/writer/metaderivedimagewriter.hpp:67 | inserting keeps the keys strictly ascending |
| Derivation.PutLookup | Srcs/writer/metaderivedimagewriter.hpp:67 | after an insert, the new key finds the new entry and every other key finds what it found before |
| Derivation.PutKeys | Srcs/writer/metaderivedimagewriter.hpp:67 | an insert adds exactly its key |
| Derivation.CreateReferenceToItemIdMap | Srcs/writer/metaderivedimagewriter.hpp:143-147 | the map covers the source contexts and every derivation key; each derivation's uniq_bsid maps to its generated items; other contexts keep their supplied items |
| Derivation.AddItemIdReferences | Srcs/writer/metaderivedimagewriter.hpp:159-163 | succeeds if and only if every derivation's references resolve; it then changes only referenceItemIds, which become the resolution; a failure is the error of some derivation |
| Allocation.AllocatedJoin | Srcs/writer/metaderivedimagewriter.hpp:63 | two allocations from adjacent ID ranges together form one allocation with increasing IDs |
| Allocation.ProcessIdenDerivations | Srcs/writer/metaderivedimagewriter.hpp:127-132 | one 'iden' entry per irot/rloc/clap entry, copying uniq_bsid, refs and indexes; one new item per referenced image; all new IDs are fresh, strictly increasing and in [nextId, returned nextId) |
| Allocation.AllocateComposites | Srcs/writer/metaderivedimagewriter.hpp:134-141 | entry k gets item nextId+k and a location with that ID; earlier media data stays; each descriptor lies at its location's offset and length, one after another |
| Allocation.ProcessOtherDerivations | Srcs/writer/metaderivedimagewriter.hpp:134-141 | grids then overlays: one 'grid'/'iovl' entry and one location per configured composite, carrying that composite's uniq_bsid, refsList and indexList, no resolved references yet, and as its single item the location's item; IDs are fresh and increasing in [nextId, nextId + count); the media data is kept as a prefix and the descriptors are laid out after it at the locations |
| Allocation.ToMap | Srcs/writer/metaderivedimagewriter.hpp:67 | building the map from a list of derivations gives strictly ascending keys |
| Allocation.LastWithKey | Srcs/writer/metaderivedimagewriter.hpp:67 | finds nothing exactly when no derivation in the list has the uniq_bsid; otherwise the derivation found has it and no later one does |
| Allocation.ToMapLookup | Srcs/writer/metaderivedimagewriter.hpp:67 | a key finds the last derivation in the list with that uniq_bsid |
| Allocation.LookupEntry | Srcs/writer/metaderivedimagewriter.hpp:67 | in an ascending map, each entry is what its own key finds |
| Allocation.ToMapEntries | Srcs/writer/metaderivedimagewriter.hpp:67 | every map entry is a derivation of the list, and the last one with its key |
| Allocation.ToMapAllocated | Srcs/writer/metaderivedimagewriter.hpp:63-67 | every entry of the map built from an allocation is one of the allocated derivations; its item IDs lie in the allocated range and no two items of the map share an ID |
| MetaBoxModel.AddProperty | Srcs/writer/metaderivedimagewriter.hpp:82-87 | a property is appended and its index returned; earlier properties and all associations stay |
| MetaBoxModel.IspeIndexOf | Srcs/writer/metaderivedimagewriter.hpp:149-157 | a found index is an 'ispe' associated with the item; none exactly when no association links the item to an 'ispe' |
| MetaBoxModel.AppendData | Srcs/writer/metaderivedimagewriter.hpp:137-141 | the data is appended after the unchanged media data, and its offset and length are reported |
| DerivedImageWriter.ExtendsKeeps | Srcs/writer/metaderivedimagewriter.hpp:82-87 | adding properties and associations never takes a property or an 'ispe' away from an item |
| DerivedImageWriter.IspeIndexFound | Srcs/writer/metaderivedimagewriter.hpp:149-157 | the 'ispe' lookup finds an index exactly when the item has an 'ispe' association |
| DerivedImageWriter.IspeIndexes | Srcs/writer/metaderivedimagewriter.hpp:149-157 | succeeds if and only if every from-item has an 'ispe'; entry k is the 'ispe' index of from-item k; otherwise PropertyNotFound names an item without one |
| DerivedImageWriter.LinkIspeProperties | Srcs/writer/metaderivedimagewriter.hpp:149-157 | unequal lengths give ArityMismatch; succeeds if and only if the lengths match and every from-item has an 'ispe'; then toItems[k] is associated with the 'ispe' of fromItems[k], in order, after the unchanged associations, with no new property |
| DerivedImageWriter.LinkIspeGivesIspe | Srcs/writer/metaderivedimagewriter.hpp:149-157 | after linking, every to-item has an 'ispe' and nothing earlier is lost |
| DerivedImageWriter.IdentityReferences | Srcs/writer/metaderivedimagewriter.hpp:120-125 | reference k is a 'dimg' reference from item k to the one image it transforms; the targets are the referenced items in order |
| DerivedImageWriter.InsertDimgReferences | Srcs/writer/metaderivedimagewriter.hpp:120-125 | an 'iden' needs as many items as references, and a 'grid'/'iovl' exactly one item, otherwise ArityMismatch; every reference is 'dimg' from one of the derivation's items, and the targets are exactly referenceItemIds in order |
| DerivedImageWriter.InsertBaseReferences | Srcs/writer/metaderivedimagewriter.hpp:108-118 | succeeds if and only if both the pre-derived and the base references resolve, otherwise with the first error; one 'base' reference per pre-derived image, from that image to all base images in order |
| DerivedImageWriter.ConcatAll | Srcs/writer/metaderivedimagewriter.hpp:95-99 | succeeds if and only if every call does; it contains every reference of every call and nothing else; a failure is the error of some call |
| DerivedImageWriter.BaseReferences | Srcs/writer/metaderivedimagewriter.hpp:108-118 | succeeds if and only if every pre-derived entry's references resolve; contains every 'base' reference those insertions produce, and every reference it contains was produced by one of them (so each is a 'base' reference) |
| DerivedImageWriter.DimgReferences | Srcs/writer/metaderivedimagewriter.hpp:120-125 | succeeds if and only if every derivation has the right arity; contains every 'dimg' reference those insertions produce, and every reference it contains was produced by one of them (so each is a 'dimg' reference) |
| DerivedImageWriter.IrefWrite | Srcs/writer/metaderivedimagewriter.hpp:95-99 | succeeds if and only if every base and dimg insertion succeeds; keeps the earlier references as a prefix; every reference the base and dimg insertions produce follows them, and every reference after them was produced by one of those insertions |
| DerivedImageWriter.InfosOf | Srcs/writer/metaderivedimagewriter.hpp:89-93 | one item-information entry per generated item, typed by the derivation's kind |
| DerivedImageWriter.IinfWrite | Srcs/writer/metaderivedimagewriter.hpp:89-93 | keeps the earlier entries and adds exactly one entry per generated item: item k of derivation i sits right after the items of derivations 0..i-1 |
| DerivedImageWriter.LocationEntry | Srcs/writer/metaderivedimagewriter.hpp:69-75 | a pending location becomes a file-offset 'iloc' entry with the 16-bit item ID and a single extent at its offset and length |
| DerivedImageWriter.IlocWrite | Srcs/writer/metaderivedimagewriter.hpp:101-106 | succeeds if and only if no location's ID is already in the table or repeated, otherwise DuplicateItem; then one entry per location is appended, in order, after the unchanged entries |
| DerivedImageWriter.FreshAllocationIsAccepted | Srcs/writer/metaderivedimagewriter.hpp:101-106 | locations of freshly allocated grids and overlays pass ilocWrite when their IDs exceed every existing 'iloc' ID and fit in 16 bits |
| DerivedImageWriter.DerivationAt | Srcs/writer/metaderivedimagewriter.hpp:77 | a key finds its derivation; a missing key is DerivationNotFound |
| DerivedImageWriter.AssociateAll | Srcs/writer/metaderivedimagewriter.hpp:82-87 | every listed item gets the property; exactly one association per listed item is appended, in order, after the unchanged associations, and the properties are unchanged |
| DerivedImageWriter.CompositeOne | Srcs/writer/metaderivedimagewriter.hpp:82-87 | a grid or overlay missing from the map is DerivationNotFound; otherwise exactly one property, the 'ispe' with the configured output size, is appended and exactly one association per item of the composite's derivation, pointing at it, follows the unchanged associations; so its items carry that 'ispe' |
| DerivedImageWriter.CompositeProperties | Srcs/writer/metaderivedimagewriter.hpp:82-87 | succeeds if and only if every grid and overlay is in the derivation map, otherwise DerivationNotFound; then each one's item has an 'ispe' with its output size, the properties are the earlier ones followed by one 'ispe' per composite in order, and every association added is for an item of the map |
| DerivedImageWriter.CompositesConfined | Srcs/writer/metaderivedimagewriter.hpp:82-87 | one more grid or overlay extends the property list by its own 'ispe' and adds associations only for items of the map |
| DerivedImageWriter.CompositeAddsOnlyFor | Srcs/writer/metaderivedimagewriter.hpp:82-87 | the associations one grid or overlay adds are all for items of the derivation map |
| DerivedImageWriter.TransformOne | Srcs/writer/metaderivedimagewriter.hpp:82-87 | a missing derivation is DerivationNotFound, and every failure is DerivationNotFound, ArityMismatch or PropertyNotFound; on success exactly one property, the transformative one, is appended; after the unchanged associations come one association per item to it, then one per item linking it to an 'ispe' the transformed image already had, and nothing else |
| DerivedImageWriter.LinkedIspeWasThere | Srcs/writer/metaderivedimagewriter.hpp:149-157 | each 'ispe' link added for an irot, rloc or clap item points at an 'ispe' association the transformed image had before the step, never at the step's own transformative property |
| DerivedImageWriter.TransformProperties | Srcs/writer/metaderivedimagewriter.hpp:82-87 | failures are DerivationNotFound, ArityMismatch or PropertyNotFound; on success every transform's items have their transformative property and an 'ispe', the properties are the earlier ones followed by one transformative property per entry in order, and every association added is for an item of the map |
| DerivedImageWriter.TransformsConfined | Srcs/writer/metaderivedimagewriter.hpp:82-87 | one more irot, rloc or clap entry extends the property list by its own transformative property and adds associations only for items of the map |
| DerivedImageWriter.TransformAddsOnlyFor | Srcs/writer/metaderivedimagewriter.hpp:82-87 | the associations one irot, rloc or clap entry adds, both its property's and its 'ispe' links, are all for items of the derivation map |
| DerivedImageWriter.IprpWrite | Srcs/writer/metaderivedimagewriter.hpp:82-87 | the store only grows: the properties become the earlier ones, then one 'ispe' per grid and overlay, then one transformative property per irot/rloc/clap entry, in configuration order; every association added is for an item of the map; every grid and overlay item has its 'ispe' and every identity item its transformative property and an 'ispe'; a grid, overlay or transform missing from the map makes it fail (a missing grid or overlay with DerivationNotFound), and every failure is DerivationNotFound, ArityMismatch or PropertyNotFound |
| DerivedImageWriter.MapCoversConfig | Srcs/writer/metaderivedimagewriter.hpp:127-141 | every configured irot/rloc/clap, grid and overlay uniq_bsid is a key of the derivation map |
| DerivedImageWriter.IdenCoversConfig | Srcs/writer/metaderivedimagewriter.hpp:127-141 | the map built from the identity, grid and overlay derivations the two allocation passes produce has a key for every configured entry |
| DerivedImageWriter.Allocate | Srcs/writer/metaderivedimagewriter.hpp:127-141 | the derivation map has ascending keys and holds every configured irot/rloc/clap, grid and overlay; each key finds the last derivation with that key among the identity derivations followed by the grid and overlay derivations, so every entry is one of them; its item IDs lie in [nextId, next free ID) and are pairwise distinct; one location per grid and overlay, with an item ID in that range; the existing media data is kept as a prefix and each descriptor is laid out after it |
| DerivedImageWriter.ResolveAll | Srcs/writer/metaderivedimagewriter.hpp:143-163 | succeeds if and only if every derivation's references resolve against the map built from the sources and the derivation map, and otherwise fails with the error of a derivation that does not resolve (UnresolvedReference or ArityMismatch); it returns that map, keeps the keys, changes nothing in each derivation but its referenceItemIds, and those are its resolution |
| DerivedImageWriter.ResolvedMap | Srcs/writer/metaderivedimagewriter.hpp:143-147 | after resolution the keys and their order are unchanged; every derivation's key maps to its own items and its references resolve to its referenceItemIds; source contexts the map does not shadow keep their items |
| DerivedImageWriter.ResolvedKeepsItems | Srcs/writer/metaderivedimagewriter.hpp:159-163 | filling in the resolved references keeps every item ID, so fresh and distinct item IDs stay fresh and distinct |
| DerivedImageWriter.Prepare | Srcs/writer/metaderivedimagewriter.hpp:127-147 | succeeds if and only if every derivation Allocate produced resolves against the map built from the sources and that derivation map, so an unresolvable reference is a fatal configuration error; every failure is UnresolvedReference or ArityMismatch; on success the resolved map has ascending keys and covers the configuration; it is Allocate's map with only the referenceItemIds filled in, so its item IDs are fresh (in [nextId, next free ID)) and pairwise distinct; each key maps to its items and each derivation's references resolve to its referenceItemIds; source contexts keep their items; the grids and overlays are those Allocate placed |
| DerivedImageWriter.Emit | Srcs/writer/metaderivedimagewriter.hpp:82-106 | succeeds if and only if the locations are fresh and iref and iprp succeed; then iinf, iloc, iref and iprp each keep what they held and add the derived items' entries, as stated for the four writers (iref: every 'base' reference of the pre-derived images and every 'dimg' reference of the derivations, and nothing else; iprp: one property per configured entry, associations for derived items only) |
| DerivedImageWriter.CompositesLocated | Srcs/writer/metaderivedimagewriter.hpp:101-106 | combining the layout Allocate promises with the entries Emit appends: with media data below 4 GiB there is one new 'iloc' entry per grid and overlay, a file-offset item whose single extent covers exactly that composite's descriptor bytes |
| DerivedImageWriter.PlacedLocated | Srcs/writer/metaderivedimagewriter.hpp:101-106 | grids and overlays placed after the existing media data and entered into 'iloc' after its earlier entries are found by those entries at their descriptors, while the media data is below 4 GiB |
| DerivedImageWriter.Write | Srcs/writer/metaderivedimagewriter.hpp:46-50 | succeeds if and only if preparing and emitting do; a reference of an allocated derivation that does not resolve makes it fail with UnresolvedReference or ArityMismatch; on success 'iinf' gains one entry per generated item, 'iloc' one file-offset entry per grid and overlay, 'iref' every 'base' reference of the pre-derived images (resolved through the returned map) and every 'dimg' reference of the derivations, and nothing any of those insertions did not produce, 'iprp' one property per configured entry and associations for derived items only, each after what the box held; the returned map covers the configuration, its item IDs are fresh and distinct, and it is resolved against the source images; the media data keeps its prefix, and below 4 GiB each new 'iloc' entry's extent covers exactly its composite's descriptor |

## Left out

- The FullBox header (box type, size, version, flags) is not part of this model. `fullbox.hpp` is not part of this model; the codec takes the version as a parameter.
- `BitStream` is not part of this model; byte streams are `seq<Byte>`.
- The ItemLocation setters and getters (itemlocationbox.hpp:49-79, 91) and `getItemLocations` (183-185) are not modelled separately: they are datatype fields and record updates.
- `setItemCount` (itemlocationbox.hpp:155-157) is left out: the modelled box derives its item count from its entries.
- Iloc.ExtentCount: extent_count is a 16-bit field (section 8.11.3 of ISO/IEC 14496-12), so an item can hold at most 65535 extents. An item with more is not rejected when an extent is added. Only the codec excludes it: `Encodable` requires fewer than 2^16 extents.
- IlocCodec.ParseBox: a short stream is rejected with `Truncated`, but no contract pins down which truncation was hit.
- The writer's collaborators are outside this model: `DerivedItemMediaWriter` (which produces grid and overlay descriptors), the global item-ID allocator, and the context holding the source images' item IDs. They become the configuration's descriptor bytes, the `nextId` parameter and the `sources` map.
- The payloads of the transformative properties (rotation angle, clean-aperture fields, location offsets) and the layout of grid and overlay descriptors are not modelled. Only the property kind and the 'ispe' size are kept.
- The 'iloc' entries of grids and overlays carry offsets relative to the start of the media data. The later relocation to absolute file offsets happens outside the writer and is not modelled.
- Allocation.ProcessOtherDerivations: the byte layout of the descriptors is stated only while the media data is below 2^32 bytes. The source stores offset and length in `unsigned int`, so larger offsets wrap, and the model keeps them modulo 2^32 without stating a layout.
- DerivedImageWriter.LinkIspeProperties: all 'ispe' indexes are looked up before any association is added. metaderivedimagewriter.hpp does not specify whether lookups and insertions are interleaved. The two orders differ only when a to-item is also a later from-item.
- DerivedImageWriter.TransformProperties: success is not characterised as an if-and-only-if. Whether linking succeeds depends on the 'ispe' associations present at that step. As for `CompositeProperties`, the added associations are only confined to items of the derivation map; `TransformOne` states them exactly, one transform at a time.
- DerivedImageWriter.IrefWrite: the contract states membership in both directions and the reference kinds, not the exact position of each inserted reference or how many times it occurs.
- DerivedImageWriter.Write: metaderivedimagewriter.hpp does not specify the order of the four box writers. The model runs them as iinf, iloc, iref, iprp, which matters only for which error is reported first.
- DerivedImageWriter.CompositeProperties: the contract fixes the added properties exactly, but for the added associations it states only that each is for an item of the derivation map; `CompositeOne` states them exactly, one composite at a time.
- DerivedImageWriter.IprpWrite: success is not characterised as an if-and-only-if, for the reason given for `TransformProperties`. The contract fixes the added properties exactly, but for the added associations it states only that each is for an item of the derivation map (`CompositeOne` and `TransformOne` state them exactly, one step at a time).
- Iloc.AddLocation: the rejection of an item ID that is already present (DuplicateItem) is a modelling choice. itemlocationbox.hpp:163-165 declares `addLocation` as `void` and documents no error. `DerivedImageWriter.IlocWrite` inherits the rejection, although `ilocWrite` is `void` too. The rejection keeps item IDs unique, so that `getItemLocationForID` has exactly one entry to return (`Iloc.LookupIsUnique`).
- IlocCodec.EntryRoundTrip: the model's entry writer is given the box's four widths (a `Layout`). `ItemLocation::write(BitStream&, unsigned int version)` (itemlocationbox.hpp:98-101) receives only the version, and ItemLocation stores no widths (itemlocationbox.hpp:104-108): the widths are private to ItemLocationBox (itemlocationbox.hpp:202-205). The lemma states the entry bytes that writeBox must produce for the box, not what that signature alone could produce.
- IlocCodec.EntryLength: for the same reason, the length is that of an entry written at the box's widths, which the model passes to the entry writer and the source's `ItemLocation::write` signature does not.
- DerivedImageWriter.LocationEntry: the writer's 32-bit item ID is kept modulo 2^16 in the 16-bit 'iloc' field. `FreshAllocationIsAccepted` states when no clash results.
