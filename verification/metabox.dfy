/** The MetaBox collaborators a derived-image writer talks to, kept abstract: the
    Item Information, Item Reference and Item Properties boxes are logs of the calls
    made on them, the Media Data box is its byte content, and the Item Location box
    is the model of module Iloc. */
module MetaBoxModel {
  import opened Wrappers
  import opened Bytes
  import Iloc

  /** One addReference call on the Item Reference box: a reference of type
      `refType` from one item to an ordered list of items. */
  datatype Reference = Reference(refType: string, fromId: nat, toIds: seq<nat>)

  /** One addItemInfo call on the Item Information box. */
  datatype ItemInfo = ItemInfo(itemId: nat, itemType: string)

  /** The transformative properties an identity derivation can carry. Their
      contents are not modelled. */
  datatype TransformKind = Irot | Rloc | Clap

  /** An item property: an image spatial extent or a transformative property. */
  datatype Property = Ispe(width: nat, height: nat) | Transform(kind: TransformKind)

  /** The association of item `itemId` with property number `propertyIndex`. */
  datatype Association = Association(itemId: nat, propertyIndex: nat)

  /** The Item Properties box: its property container and its associations. */
  datatype PropertyStore = PropertyStore(properties: seq<Property>, associations: seq<Association>)

  datatype MetaBox = MetaBox(
    iloc: Iloc.IlocBox,
    infos: seq<ItemInfo>,
    references: seq<Reference>,
    iprp: PropertyStore)

  /** Adds a property to the container and returns its index. */
  function AddProperty(s: PropertyStore, p: Property): (r: (PropertyStore, nat))
    ensures r.1 == |s.properties| && r.1 < |r.0.properties| && r.0.properties[r.1] == p
    ensures r.0.properties[..r.1] == s.properties
    ensures r.0.associations == s.associations
  {
    (s.(properties := s.properties + [p]), |s.properties|)
  }

  /** Association `a` links item `itemId` to an 'ispe' property of the store. */
  predicate IsIspeOf(s: PropertyStore, a: Association, itemId: nat) {
    a.itemId == itemId && a.propertyIndex < |s.properties| && s.properties[a.propertyIndex].Ispe?
  }

  /** Scans the associations from position `from` for the first 'ispe' of an item. */
  function IspeFrom(s: PropertyStore, itemId: nat, from: nat): (r: Option<nat>)
    requires from <= |s.associations|
    ensures r.None? <==> forall j :: from <= j < |s.associations| ==> !IsIspeOf(s, s.associations[j], itemId)
    ensures r.Some? ==> exists j :: from <= j < |s.associations| && IsIspeOf(s, s.associations[j], itemId)
                          && s.associations[j].propertyIndex == r.value
                          && forall i :: from <= i < j ==> !IsIspeOf(s, s.associations[i], itemId)
    decreases |s.associations| - from
  {
    if from == |s.associations| then None
    else if IsIspeOf(s, s.associations[from], itemId) then Some(s.associations[from].propertyIndex)
    else IspeFrom(s, itemId, from + 1)
  }

  /** findPropertyIndex(ISPE, item): the index of the first 'ispe' property
      associated with the item, if there is one. */
  function IspeIndexOf(s: PropertyStore, itemId: nat): (r: Option<nat>)
    ensures r.Some? ==> r.value < |s.properties| && s.properties[r.value].Ispe?
                        && Association(itemId, r.value) in s.associations
    ensures r.None? <==> forall a :: a in s.associations ==> !IsIspeOf(s, a, itemId)
  {
    IspeFrom(s, itemId, 0)
  }

  /** MediaDataBox::addData: appends bytes and reports where they went. */
  function AppendData(mdat: seq<Byte>, data: seq<Byte>): (r: (seq<Byte>, nat, nat))
    ensures r.1 == |mdat| && r.2 == |data|
    ensures |r.0| == r.1 + r.2
    ensures r.0[..r.1] == mdat && r.0[r.1..] == data
  {
    (mdat + data, |mdat|, |data|)
  }
}
