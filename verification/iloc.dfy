/** The item location table ('iloc'): extents, per-item location entries and the
    table of entries with its four variable field widths (Srcs/common/itemlocationbox.hpp). */
module Iloc {
  import opened Wrappers
  import opened Bytes

  /** One contiguous byte run of an item: the index selects the referenced item
      when the construction method is ItemOffset. */
  datatype Extent = Extent(index: uint64, offset: uint64, length: uint64)

  /** Where the offsets of an item are measured from: the file, the 'idat' box or
      the data of another item. */
  datatype ConstructionMethod = FileOffset | IdatOffset | ItemOffset

  /** The 4-bit code of a construction method on the wire. */
  function MethodCode(m: ConstructionMethod): (c: nat)
    ensures c <= 2
  {
    match m
    case FileOffset => 0
    case IdatOffset => 1
    case ItemOffset => 2
  }

  /** The construction method a code denotes; codes 3..15 denote none. */
  function MethodFromCode(c: nat): (r: Option<ConstructionMethod>)
    ensures r.Some? <==> c <= 2
    ensures r.Some? ==> MethodCode(r.value) == c
  {
    if c == 0 then Some(FileOffset)
    else if c == 1 then Some(IdatOffset)
    else if c == 2 then Some(ItemOffset)
    else None
  }

  /** One item's location: identity, addressing mode, data reference, base offset
      and the ordered extents whose bytes make up the item. */
  datatype ItemLocation = ItemLocation(
    itemId: uint16,
    construction: ConstructionMethod,
    dataReferenceIndex: uint16,
    baseOffset: uint64,
    extents: seq<Extent>)

  /** getExtentCount: the number of extents as the 16-bit count the accessor returns. */
  function ExtentCount(loc: ItemLocation): (r: uint16)
    ensures |loc.extents| < 0x1_0000 ==> r == |loc.extents|
    ensures r < |loc.extents| + 1
  {
    |loc.extents| % 0x1_0000
  }

  /** getExtent: the i-th (0-based) extent of the list. */
  function GetExtent(loc: ItemLocation, i: nat): Extent
    requires i < |loc.extents|
  {
    loc.extents[i]
  }

  /** ItemLocation::addExtent: appends one extent after the existing ones. */
  function AppendExtent(loc: ItemLocation, e: Extent): (r: ItemLocation)
    ensures |r.extents| == |loc.extents| + 1
    ensures GetExtent(r, |loc.extents|) == e
    ensures forall i :: 0 <= i < |loc.extents| ==> GetExtent(r, i) == GetExtent(loc, i)
    ensures |loc.extents| < 0x1_0000 - 1 ==> ExtentCount(r) == ExtentCount(loc) + 1
    ensures r.itemId == loc.itemId && r.construction == loc.construction
    ensures r.dataReferenceIndex == loc.dataReferenceIndex && r.baseOffset == loc.baseOffset
  {
    loc.(extents := loc.extents + [e])
  }

  /** A field width in bytes: 0 (field omitted), 4 or 8. */
  predicate ValidWidth(w: nat) {
    w == 0 || w == 4 || w == 8
  }

  /** The 'iloc' box: FullBox version, the four field widths and the entries in
      write order. */
  datatype IlocBox = IlocBox(
    version: nat,
    offsetSize: nat,
    lengthSize: nat,
    baseOffsetSize: nat,
    indexSize: nat,
    entries: seq<ItemLocation>)

  predicate WidthsValid(b: IlocBox) {
    ValidWidth(b.offsetSize) && ValidWidth(b.lengthSize)
    && ValidWidth(b.baseOffsetSize) && ValidWidth(b.indexSize)
  }

  /** Entry i is the first entry carrying the given item ID. */
  ghost predicate IsFirstWithId(entries: seq<ItemLocation>, i: int, id: nat) {
    0 <= i < |entries| && entries[i].itemId == id
    && forall j :: 0 <= j < i ==> entries[j].itemId != id
  }

  /** No two entries share an item ID. */
  ghost predicate UniqueIds(entries: seq<ItemLocation>) {
    forall i, j :: 0 <= i < j < |entries| ==> entries[i].itemId != entries[j].itemId
  }

  function FindFrom(entries: seq<ItemLocation>, id: nat, from: nat): (r: Option<nat>)
    requires from <= |entries|
    ensures r.Some? ==> from <= r.value < |entries| && entries[r.value].itemId == id
    ensures r.Some? ==> forall j :: from <= j < r.value ==> entries[j].itemId != id
    ensures r.None? ==> forall j :: from <= j < |entries| ==> entries[j].itemId != id
    decreases |entries| - from
  {
    if from == |entries| then None
    else if entries[from].itemId == id then Some(from)
    else FindFrom(entries, id, from + 1)
  }

  /** findItem: the position of the first entry with the given ID, or None for end(). */
  function FindItem(b: IlocBox, id: nat): (r: Option<nat>)
    ensures r.Some? ==> IsFirstWithId(b.entries, r.value, id)
    ensures r.None? <==> forall j :: 0 <= j < |b.entries| ==> b.entries[j].itemId != id
  {
    FindFrom(b.entries, id, 0)
  }

  /** hasItemIdEntry. */
  function HasItemIdEntry(b: IlocBox, id: uint16): (r: bool)
    ensures r <==> exists i :: 0 <= i < |b.entries| && b.entries[i].itemId == id
  {
    FindItem(b, id).Some?
  }

  /** getItemCount: the number of entries as a 16-bit count. */
  function GetItemCount(b: IlocBox): (r: uint16)
    ensures |b.entries| < 0x1_0000 ==> r == |b.entries|
  {
    |b.entries| % 0x1_0000
  }

  function SetOffsetSize(b: IlocBox, w: nat): (r: IlocBox)
    requires ValidWidth(w)
    ensures r.offsetSize == w && r.entries == b.entries && r.version == b.version
    ensures r.lengthSize == b.lengthSize && r.baseOffsetSize == b.baseOffsetSize && r.indexSize == b.indexSize
    ensures WidthsValid(b) ==> WidthsValid(r)
  {
    b.(offsetSize := w)
  }

  function SetLengthSize(b: IlocBox, w: nat): (r: IlocBox)
    requires ValidWidth(w)
    ensures r.lengthSize == w && r.entries == b.entries && r.version == b.version
    ensures r.offsetSize == b.offsetSize && r.baseOffsetSize == b.baseOffsetSize && r.indexSize == b.indexSize
    ensures WidthsValid(b) ==> WidthsValid(r)
  {
    b.(lengthSize := w)
  }

  function SetBaseOffsetSize(b: IlocBox, w: nat): (r: IlocBox)
    requires ValidWidth(w)
    ensures r.baseOffsetSize == w && r.entries == b.entries && r.version == b.version
    ensures r.offsetSize == b.offsetSize && r.lengthSize == b.lengthSize && r.indexSize == b.indexSize
    ensures WidthsValid(b) ==> WidthsValid(r)
  {
    b.(baseOffsetSize := w)
  }

  function SetIndexSize(b: IlocBox, w: nat): (r: IlocBox)
    requires ValidWidth(w)
    ensures r.indexSize == w && r.entries == b.entries && r.version == b.version
    ensures r.offsetSize == b.offsetSize && r.lengthSize == b.lengthSize && r.baseOffsetSize == b.baseOffsetSize
    ensures WidthsValid(b) ==> WidthsValid(r)
  {
    b.(indexSize := w)
  }

  /** addLocation: appends a new entry; an item ID already in the table is
      rejected and the table is left as it was. */
  function AddLocation(b: IlocBox, loc: ItemLocation): (r: Result<IlocBox>)
    ensures r.Failure? <==> exists i :: 0 <= i < |b.entries| && b.entries[i].itemId == loc.itemId
    ensures r.Failure? ==> r.error == DuplicateItem(loc.itemId)
    ensures r.Success? ==> |r.value.entries| == |b.entries| + 1
    ensures r.Success? ==> r.value.entries[..|b.entries|] == b.entries
    ensures r.Success? ==> r.value.entries[|b.entries|] == loc
    ensures r.Success? ==> r.value.(entries := b.entries) == b
    ensures r.Success? && UniqueIds(b.entries) ==> UniqueIds(r.value.entries)
  {
    if HasItemIdEntry(b, loc.itemId) then Failure(DuplicateItem(loc.itemId))
    else
      var entries := b.entries + [loc];
      assert entries[..|b.entries|] == b.entries;
      Success(b.(entries := entries))
  }

  /** ItemLocationBox::addExtent: appends the extent to the entry with the given ID;
      every other entry, the entry order and the widths are left as they were. */
  function AddExtent(b: IlocBox, id: uint16, e: Extent): (r: Result<IlocBox>)
    ensures r.Failure? <==> forall j :: 0 <= j < |b.entries| ==> b.entries[j].itemId != id
    ensures r.Failure? ==> r.error == ItemNotFound(id)
    ensures r.Success? ==> r.value.(entries := b.entries) == b && |r.value.entries| == |b.entries|
    ensures r.Success? ==> exists i :: IsFirstWithId(b.entries, i, id)
                                      && r.value.entries[i] == AppendExtent(b.entries[i], e)
                                      && forall j :: 0 <= j < |b.entries| && j != i ==>
                                           r.value.entries[j] == b.entries[j]
  {
    match FindItem(b, id)
    case None => Failure(ItemNotFound(id))
    case Some(i) =>
      Success(b.(entries := b.entries[i := AppendExtent(b.entries[i], e)]))
  }

  /** setItemDataReferenceIndex: reports whether an entry with the ID exists and,
      if so, sets that entry's data reference index and nothing else; it never
      creates an entry. */
  function SetItemDataReferenceIndex(b: IlocBox, id: uint16, dri: uint16): (r: (bool, IlocBox))
    ensures r.0 <==> exists i :: 0 <= i < |b.entries| && b.entries[i].itemId == id
    ensures !r.0 ==> r.1 == b
    ensures r.1.(entries := b.entries) == b && |r.1.entries| == |b.entries|
    ensures r.0 ==> exists i :: IsFirstWithId(b.entries, i, id)
                               && r.1.entries[i] == b.entries[i].(dataReferenceIndex := dri)
                               && forall j :: 0 <= j < |b.entries| && j != i ==> r.1.entries[j] == b.entries[j]
    ensures forall j :: 0 <= j < |b.entries| && b.entries[j].itemId != id ==> r.1.entries[j] == b.entries[j]
    ensures forall j :: 0 <= j < |b.entries| ==> r.1.entries[j].itemId == b.entries[j].itemId
  {
    match FindItem(b, id)
    case None => (false, b)
    case Some(i) =>
      (true, b.(entries := b.entries[i := b.entries[i].(dataReferenceIndex := dri)]))
  }

  /** getItemLocationForID: the entry with the given ID (the ID is an unsigned int,
      so one outside the 16-bit range is never found); a missing ID is an error. */
  function GetItemLocationForID(b: IlocBox, id: nat): (r: Result<ItemLocation>)
    ensures r.Failure? <==> forall j :: 0 <= j < |b.entries| ==> b.entries[j].itemId != id
    ensures r.Failure? ==> r.error == ItemNotFound(id)
    ensures r.Success? ==> r.value.itemId == id
    ensures r.Success? ==> exists i :: IsFirstWithId(b.entries, i, id) && b.entries[i] == r.value
  {
    match FindItem(b, id)
    case None => Failure(ItemNotFound(id))
    case Some(i) => Success(b.entries[i])
  }

  /** With unique IDs the entry found is the only one with that ID. */
  lemma LookupIsUnique(b: IlocBox, id: nat)
    requires UniqueIds(b.entries)
    requires GetItemLocationForID(b, id).Success?
    ensures forall j :: 0 <= j < |b.entries| && b.entries[j].itemId == id ==>
              b.entries[j] == GetItemLocationForID(b, id).value
  {
    var i :| IsFirstWithId(b.entries, i, id) && b.entries[i] == GetItemLocationForID(b, id).value;
    forall j | 0 <= j < |b.entries| && b.entries[j].itemId == id
      ensures b.entries[j] == GetItemLocationForID(b, id).value
    {
      assert !(j < i);
      assert !(i < j);
    }
  }

  /** Adding an extent or setting a data reference index keeps item IDs unique. */
  lemma MutationsKeepUniqueIds(b: IlocBox, id: uint16, e: Extent, dri: uint16)
    requires UniqueIds(b.entries)
    ensures AddExtent(b, id, e).Success? ==> UniqueIds(AddExtent(b, id, e).value.entries)
    ensures UniqueIds(SetItemDataReferenceIndex(b, id, dri).1.entries)
  {
    var s := SetItemDataReferenceIndex(b, id, dri).1;
    assert forall j :: 0 <= j < |b.entries| ==> s.entries[j].itemId == b.entries[j].itemId;
    var r := AddExtent(b, id, e);
    if r.Success? {
      var i :| IsFirstWithId(b.entries, i, id) && r.value.entries[i] == AppendExtent(b.entries[i], e)
               && forall j :: 0 <= j < |b.entries| && j != i ==> r.value.entries[j] == b.entries[j];
      assert forall j :: 0 <= j < |b.entries| ==> r.value.entries[j].itemId == b.entries[j].itemId;
    }
  }
}
