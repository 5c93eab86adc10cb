/** The 'iloc' box payload codec (ItemLocationBox::writeBox / parseBox and
    ItemLocation::write), laid out as in section 8.11.3 of ISO/IEC 14496-12. The
    FullBox header (type, size, version, flags) is read and written elsewhere; the
    codec receives the version from it. */
module IlocCodec {
  import opened Wrappers
  import opened Bytes
  import opened Iloc

  /** The per-box parameters every entry is written with. */
  datatype Layout = Layout(version: nat, offsetSize: nat, lengthSize: nat, baseOffsetSize: nat, indexSize: nat)

  function LayoutOf(b: IlocBox): Layout {
    Layout(b.version, b.offsetSize, b.lengthSize, b.baseOffsetSize, b.indexSize)
  }

  /** Versions 1 and 2 carry construction_method and index_size; version 0 has neither. */
  predicate HasMethodField(version: nat) {
    version == 1 || version == 2
  }

  /** Bytes of each extent_index: index_size in versions 1 and 2, absent otherwise. */
  function IndexBytes(l: Layout): nat {
    if HasMethodField(l.version) then l.indexSize else 0
  }

  /** Bytes of item_count and item_ID: 16 bits before version 2, 32 bits in version 2. */
  function IdBytes(version: nat): nat {
    if version < 2 then 2 else 4
  }

  /** Field widths in {0,4,8}, a version the box syntax defines, and the reserved
      index nibble of version 0 left at zero. */
  predicate LayoutValid(l: Layout) {
    && l.version <= 2
    && ValidWidth(l.offsetSize) && ValidWidth(l.lengthSize)
    && ValidWidth(l.baseOffsetSize) && ValidWidth(l.indexSize)
    && (l.version == 0 ==> l.indexSize == 0)
  }

  /** Every extent field fits its width; a width of 0 admits only the value 0. */
  predicate ExtentFits(l: Layout, e: Extent) {
    e.index < Pow256(IndexBytes(l)) && e.offset < Pow256(l.offsetSize) && e.length < Pow256(l.lengthSize)
  }

  /** An entry the layout can carry: its base offset fits, version 0 (which has no
      construction_method field) holds only file-offset items, and the extent count
      fits in 16 bits. */
  predicate EntryFits(l: Layout, loc: ItemLocation) {
    && loc.baseOffset < Pow256(l.baseOffsetSize)
    && (!HasMethodField(l.version) ==> loc.construction == FileOffset)
    && |loc.extents| < 0x1_0000
    && forall i :: 0 <= i < |loc.extents| ==> ExtentFits(l, loc.extents[i])
  }

  /** The boxes whose every field survives writeBox: the width invariant plus values
      that fit their fields. */
  predicate Encodable(b: IlocBox) {
    && LayoutValid(LayoutOf(b))
    && |b.entries| < Pow256(IdBytes(b.version))
    && forall i :: 0 <= i < |b.entries| ==> EntryFits(LayoutOf(b), b.entries[i])
  }

  // ---------------------------------------------------------------- writing

  function WriteExtent(l: Layout, e: Extent): seq<Byte> {
    ToBE(e.index, IndexBytes(l)) + ToBE(e.offset, l.offsetSize) + ToBE(e.length, l.lengthSize)
  }

  function WriteExtents(l: Layout, es: seq<Extent>): seq<Byte> {
    if |es| == 0 then [] else WriteExtent(l, es[0]) + WriteExtents(l, es[1..])
  }

  /** construction_method as 12 reserved zero bits and a 4-bit code (versions 1, 2). */
  function MethodField(l: Layout, loc: ItemLocation): seq<Byte> {
    if HasMethodField(l.version) then ToBE(MethodCode(loc.construction), 2) else []
  }

  /** item_ID, construction_method, data_reference_index and base_offset. */
  function WriteHead(l: Layout, loc: ItemLocation): seq<Byte> {
    ToBE(loc.itemId, IdBytes(l.version)) + MethodField(l, loc) + ToBE(loc.dataReferenceIndex, 2)
    + ToBE(loc.baseOffset, l.baseOffsetSize)
  }

  /** One entry of writeBox, as ItemLocation::write lays it out: the fixed fields,
      extent_count, then each extent. The widths come from the box (`l`); the entry
      itself carries none. */
  function WriteEntry(l: Layout, loc: ItemLocation): seq<Byte> {
    WriteHead(l, loc) + ToBE(ExtentCount(loc), 2) + WriteExtents(l, loc.extents)
  }

  function WriteEntries(l: Layout, es: seq<ItemLocation>): seq<Byte> {
    if |es| == 0 then [] else WriteEntry(l, es[0]) + WriteEntries(l, es[1..])
  }

  /** The two bytes of 4-bit width codes: offset_size, length_size, base_offset_size
      and index_size (reserved, written as 0, in version 0). */
  function WidthNibbles(b: IlocBox): seq<Byte> {
    ToBE((b.offsetSize % 16) * 16 + b.lengthSize % 16, 1)
    + ToBE((b.baseOffsetSize % 16) * 16 + IndexBytes(LayoutOf(b)) % 16, 1)
  }

  /** ItemLocationBox::writeBox, after the FullBox header. */
  function WriteBox(b: IlocBox): seq<Byte>
    requires b.version <= 2
  {
    WidthNibbles(b) + ToBE(|b.entries|, IdBytes(b.version)) + WriteEntries(LayoutOf(b), b.entries)
  }

  // ---------------------------------------------------------------- parsing

  function ParseExtent(l: Layout, s: seq<Byte>): (r: Result<(Extent, seq<Byte>)>)
    requires LayoutValid(l)
    ensures r.Success? ==> ExtentFits(l, r.value.0)
  {
    Pow256Widths();
    var idx :- ReadBE(s, IndexBytes(l));
    var off :- ReadBE(idx.1, l.offsetSize);
    var len :- ReadBE(off.1, l.lengthSize);
    Success((Extent(idx.0, off.0, len.0), len.1))
  }

  function ParseExtents(l: Layout, n: nat, s: seq<Byte>): (r: Result<(seq<Extent>, seq<Byte>)>)
    requires LayoutValid(l)
    ensures r.Success? ==> |r.value.0| == n
    ensures r.Success? ==> forall i :: 0 <= i < n ==> ExtentFits(l, r.value.0[i])
  {
    if n == 0 then Success(([], s))
    else
      var first :- ParseExtent(l, s);
      var rest :- ParseExtents(l, n - 1, first.1);
      assert forall i :: 0 < i < n ==> ([first.0] + rest.0)[i] == rest.0[i - 1];
      Success(([first.0] + rest.0, rest.1))
  }

  function DecodeMethod(code: nat): (r: Result<ConstructionMethod>)
    ensures r.Success? <==> code <= 2
    ensures r.Success? ==> MethodCode(r.value) == code
    ensures r.Failure? ==> r.error == InvalidConstructionMethod(code)
  {
    match MethodFromCode(code)
    case Some(m) => Success(m)
    case None => Failure(InvalidConstructionMethod(code))
  }

  /** item_ID, read at its version's width and kept in the 16-bit field ItemLocation holds. */
  function ParseItemId(l: Layout, s: seq<Byte>): (r: Result<(uint16, seq<Byte>)>)
  {
    var id :- ReadBE(s, IdBytes(l.version));
    Success((id.0 % 0x1_0000, id.1))
  }

  /** construction_method in versions 1 and 2 (the 12 reserved bits are ignored);
      version 0 has no such field and its items are file-offset items. */
  function ParseMethod(l: Layout, s: seq<Byte>): (r: Result<(ConstructionMethod, seq<Byte>)>)
  {
    if HasMethodField(l.version) then
      var cm :- ReadBE(s, 2);
      var m :- DecodeMethod(cm.0 % 16);
      Success((m, cm.1))
    else Success((FileOffset, s))
  }

  /** The fixed fields of an entry that precede extent_count. */
  datatype EntryHead = EntryHead(itemId: uint16, construction: ConstructionMethod, dataReferenceIndex: uint16, baseOffset: uint64)

  function ParseHead(l: Layout, s: seq<Byte>): (r: Result<(EntryHead, seq<Byte>)>)
    requires LayoutValid(l)
    ensures r.Success? ==> r.value.0.baseOffset < Pow256(l.baseOffsetSize)
    ensures r.Success? && !HasMethodField(l.version) ==> r.value.0.construction == FileOffset
  {
    Pow256Widths();
    var id :- ParseItemId(l, s);
    var cm :- ParseMethod(l, id.1);
    var dri :- ReadBE(cm.1, 2);
    var base :- ReadBE(dri.1, l.baseOffsetSize);
    Success((EntryHead(id.0, cm.0, dri.0, base.0), base.1))
  }

  function ParseEntry(l: Layout, s: seq<Byte>): (r: Result<(ItemLocation, seq<Byte>)>)
    requires LayoutValid(l)
    ensures r.Success? ==> EntryFits(l, r.value.0)
  {
    Pow256Widths();
    var h :- ParseHead(l, s);
    var count :- ReadBE(h.1, 2);
    var extents :- ParseExtents(l, count.0, count.1);
    var head := h.0;
    Success((ItemLocation(head.itemId, head.construction, head.dataReferenceIndex, head.baseOffset, extents.0), extents.1))
  }

  function ParseEntries(l: Layout, n: nat, s: seq<Byte>): (r: Result<(seq<ItemLocation>, seq<Byte>)>)
    requires LayoutValid(l)
    ensures r.Success? ==> |r.value.0| == n
    ensures r.Success? ==> forall i :: 0 <= i < n ==> EntryFits(l, r.value.0[i])
  {
    if n == 0 then Success(([], s))
    else
      var first :- ParseEntry(l, s);
      var rest :- ParseEntries(l, n - 1, first.1);
      Success(([first.0] + rest.0, rest.1))
  }

  /** The four width codes of a payload's first two bytes are all in {0,4,8}
      (the fourth only where it is not reserved). */
  predicate WidthCodesValid(version: nat, h0: nat, h1: nat) {
    ValidWidth(h0 / 16) && ValidWidth(h0 % 16) && ValidWidth(h1 / 16)
    && (HasMethodField(version) ==> ValidWidth(h1 % 16))
  }

  lemma FromBEOne(s: seq<Byte>)
    requires |s| >= 1
    ensures FromBE(s[..1]) == s[0]
  {
    assert s[..1][..0] == [];
  }

  /** The two bytes of width codes; a code outside {0,4,8} is rejected. In version 0
      the fourth nibble is reserved: it is not checked and index_size is 0. */
  function ParseWidths(version: nat, s: seq<Byte>): (r: Result<(Layout, seq<Byte>)>)
    requires version <= 2
    ensures r.Success? ==> LayoutValid(r.value.0) && r.value.0.version == version
    ensures |s| >= 2 && !WidthCodesValid(version, s[0], s[1]) ==> r.Failure? && r.error.InvalidFieldWidth?
  {
    var h0 :- ReadBE(s, 1);
    var h1 :- ReadBE(h0.1, 1);
    FromBEOne(s);
    FromBEOne(h0.1);
    var offsetSize := h0.0 / 16;
    var lengthSize := h0.0 % 16;
    var baseOffsetSize := h1.0 / 16;
    var indexSize := if HasMethodField(version) then h1.0 % 16 else 0;
    if !ValidWidth(offsetSize) then Failure(InvalidFieldWidth(offsetSize))
    else if !ValidWidth(lengthSize) then Failure(InvalidFieldWidth(lengthSize))
    else if !ValidWidth(baseOffsetSize) then Failure(InvalidFieldWidth(baseOffsetSize))
    else if !ValidWidth(indexSize) then Failure(InvalidFieldWidth(indexSize))
    else Success((Layout(version, offsetSize, lengthSize, baseOffsetSize, indexSize), h1.1))
  }

  /** ItemLocationBox::parseBox, after the FullBox header: rejects versions the box
      syntax does not define, reserved width codes and short streams; bytes after
      the last entry are not read. */
  function ParseBox(version: nat, s: seq<Byte>): (r: Result<IlocBox>)
    ensures r.Success? ==> Encodable(r.value) && r.value.version == version
    ensures version > 2 ==> r == Failure(UnsupportedVersion(version))
    ensures version <= 2 && |s| >= 2 && !WidthCodesValid(version, s[0], s[1]) ==>
              r.Failure? && r.error.InvalidFieldWidth?
  {
    if version > 2 then Failure(UnsupportedVersion(version))
    else
      var w :- ParseWidths(version, s);
      var l := w.0;
      var count :- ReadBE(w.1, IdBytes(version));
      var entries :- ParseEntries(l, count.0, count.1);
      var b := IlocBox(version, l.offsetSize, l.lengthSize, l.baseOffsetSize, l.indexSize, entries.0);
      assert LayoutOf(b) == l;
      Success(b)
  }

  // ---------------------------------------------------------------- round trip

  lemma FitsUnchanged(v: nat, n: nat)
    requires v < Pow256(n)
    ensures v % Pow256(n) == v
  {
    ModUnique(v, Pow256(n), 0, v);
  }

  lemma FieldRoundTrip(v: nat, n: nat, rest: seq<Byte>)
    requires v < Pow256(n)
    ensures ReadBE(ToBE(v, n) + rest, n) == Success((v, rest))
  {
    ReadToBE(v, n, rest);
    FitsUnchanged(v, n);
  }

  lemma ExtentRoundTrip(l: Layout, e: Extent, rest: seq<Byte>)
    requires LayoutValid(l) && ExtentFits(l, e)
    ensures ParseExtent(l, WriteExtent(l, e) + rest) == Success((e, rest))
  {
    var a := ToBE(e.index, IndexBytes(l));
    var b := ToBE(e.offset, l.offsetSize);
    var c := ToBE(e.length, l.lengthSize);
    assert WriteExtent(l, e) + rest == a + (b + (c + rest));
    FieldRoundTrip(e.index, IndexBytes(l), b + (c + rest));
    FieldRoundTrip(e.offset, l.offsetSize, c + rest);
    FieldRoundTrip(e.length, l.lengthSize, rest);
  }

  lemma {:induction false} ExtentsRoundTrip(l: Layout, es: seq<Extent>, rest: seq<Byte>)
    requires LayoutValid(l)
    requires forall i :: 0 <= i < |es| ==> ExtentFits(l, es[i])
    ensures ParseExtents(l, |es|, WriteExtents(l, es) + rest) == Success((es, rest))
  {
    if |es| > 0 {
      var tail := WriteExtents(l, es[1..]) + rest;
      assert WriteExtents(l, es) + rest == WriteExtent(l, es[0]) + tail;
      ExtentRoundTrip(l, es[0], tail);
      ExtentsRoundTrip(l, es[1..], rest);
      assert [es[0]] + es[1..] == es;
    } else {
      assert WriteExtents(l, es) + rest == rest;
    }
  }

  lemma ItemIdRoundTrip(l: Layout, id: uint16, rest: seq<Byte>)
    ensures ParseItemId(l, ToBE(id, IdBytes(l.version)) + rest) == Success((id, rest))
  {
    var n := IdBytes(l.version);
    Pow256Widths();
    assert Pow256(n) >= 0x1_0000;
    FieldRoundTrip(id, n, rest);
    ModUnique(id, 0x1_0000, 0, id);
  }

  lemma MethodRoundTrip(l: Layout, loc: ItemLocation, rest: seq<Byte>)
    requires !HasMethodField(l.version) ==> loc.construction == FileOffset
    ensures ParseMethod(l, MethodField(l, loc) + rest) == Success((loc.construction, rest))
  {
    if HasMethodField(l.version) {
      Pow256Widths();
      FieldRoundTrip(MethodCode(loc.construction), 2, rest);
    } else {
      assert MethodField(l, loc) + rest == rest;
    }
  }

  lemma HeadRoundTrip(l: Layout, loc: ItemLocation, rest: seq<Byte>)
    requires LayoutValid(l) && EntryFits(l, loc)
    ensures ParseHead(l, WriteHead(l, loc) + rest)
            == Success((EntryHead(loc.itemId, loc.construction, loc.dataReferenceIndex, loc.baseOffset), rest))
  {
    var idF := ToBE(loc.itemId, IdBytes(l.version));
    var mF := MethodField(l, loc);
    var dF := ToBE(loc.dataReferenceIndex, 2);
    var bF := ToBE(loc.baseOffset, l.baseOffsetSize);
    var s2 := bF + rest;
    var s1 := dF + s2;
    var s0 := mF + s1;
    assert WriteHead(l, loc) + rest == idF + s0;
    Pow256Widths();
    ItemIdRoundTrip(l, loc.itemId, s0);
    MethodRoundTrip(l, loc, s1);
    FieldRoundTrip(loc.dataReferenceIndex, 2, s2);
    FieldRoundTrip(loc.baseOffset, l.baseOffsetSize, rest);
  }

  /** An entry written at the box's widths parses back at the same widths. */
  lemma EntryRoundTrip(l: Layout, loc: ItemLocation, rest: seq<Byte>)
    requires LayoutValid(l) && EntryFits(l, loc)
    ensures ParseEntry(l, WriteEntry(l, loc) + rest) == Success((loc, rest))
  {
    var cF := ToBE(ExtentCount(loc), 2);
    var s1 := WriteExtents(l, loc.extents) + rest;
    assert WriteEntry(l, loc) + rest == WriteHead(l, loc) + (cF + s1);
    HeadRoundTrip(l, loc, cF + s1);
    Pow256Widths();
    FieldRoundTrip(ExtentCount(loc), 2, s1);
    assert ExtentCount(loc) == |loc.extents|;
    ExtentsRoundTrip(l, loc.extents, rest);
  }

  /** The bytes of a list of entries are those of the first, then those of the rest. */
  lemma WriteEntriesCons(l: Layout, es: seq<ItemLocation>, rest: seq<Byte>)
    requires |es| > 0
    ensures WriteEntries(l, es) + rest == WriteEntry(l, es[0]) + (WriteEntries(l, es[1..]) + rest)
    ensures [es[0]] + es[1..] == es
  {
    ConcatAssoc(WriteEntry(l, es[0]), WriteEntries(l, es[1..]), rest);
    HeadTail(es);
  }

  /** Sequence concatenation is associative; stated apart from the codec's definitions,
      where proving it directly is costly. */
  lemma ConcatAssoc<T>(a: seq<T>, b: seq<T>, c: seq<T>)
    ensures (a + b) + c == a + (b + c)
  {
  }

  /** A non-empty sequence is its head followed by its tail. */
  lemma HeadTail<T>(s: seq<T>)
    requires |s| > 0
    ensures [s[0]] + s[1..] == s
  {
  }

  /** Parsing n entries is parsing one, then n - 1 from where it stopped. */
  lemma ParseEntriesCons(l: Layout, n: nat, s: seq<Byte>, e: ItemLocation, tail: seq<Byte>,
                         es: seq<ItemLocation>, rest: seq<Byte>)
    requires LayoutValid(l) && n > 0
    requires ParseEntry(l, s) == Success((e, tail))
    requires ParseEntries(l, n - 1, tail) == Success((es, rest))
    ensures ParseEntries(l, n, s) == Success(([e] + es, rest))
  {
  }

  lemma {:induction false} EntriesRoundTrip(l: Layout, es: seq<ItemLocation>, rest: seq<Byte>)
    requires LayoutValid(l)
    requires forall i :: 0 <= i < |es| ==> EntryFits(l, es[i])
    ensures ParseEntries(l, |es|, WriteEntries(l, es) + rest) == Success((es, rest))
  {
    if |es| > 0 {
      var tail := WriteEntries(l, es[1..]) + rest;
      WriteEntriesCons(l, es, rest);
      EntryRoundTrip(l, es[0], tail);
      EntriesRoundTrip(l, es[1..], rest);
      ParseEntriesCons(l, |es|, WriteEntry(l, es[0]) + tail, es[0], tail, es[1..], rest);
    } else {
      assert WriteEntries(l, es) + rest == rest;
    }
  }

  lemma Nibbles(hi: nat, lo: nat)
    requires hi < 16 && lo < 16
    ensures (hi * 16 + lo) / 16 == hi && (hi * 16 + lo) % 16 == lo
  {
  }

  lemma WidthsRoundTrip(b: IlocBox, rest: seq<Byte>)
    requires LayoutValid(LayoutOf(b))
    ensures ParseWidths(b.version, WidthNibbles(b) + rest) == Success((LayoutOf(b), rest))
  {
    var l := LayoutOf(b);
    var h0 := (b.offsetSize % 16) * 16 + b.lengthSize % 16;
    var h1 := (b.baseOffsetSize % 16) * 16 + IndexBytes(l) % 16;
    assert b.offsetSize % 16 == b.offsetSize && b.lengthSize % 16 == b.lengthSize;
    assert b.baseOffsetSize % 16 == b.baseOffsetSize && IndexBytes(l) % 16 == IndexBytes(l);
    Nibbles(b.offsetSize, b.lengthSize);
    Nibbles(b.baseOffsetSize, IndexBytes(l));
    assert WidthNibbles(b) + rest == ToBE(h0, 1) + (ToBE(h1, 1) + rest);
    Pow256Widths();
    FieldRoundTrip(h0, 1, ToBE(h1, 1) + rest);
    FieldRoundTrip(h1, 1, rest);
    ParseWidthsOf(b.version, WidthNibbles(b) + rest, h0, ToBE(h1, 1) + rest, h1, rest);
    assert h0 / 16 == b.offsetSize && h0 % 16 == b.lengthSize && h1 / 16 == b.baseOffsetSize;
    assert (if HasMethodField(b.version) then h1 % 16 else 0) == b.indexSize;
  }

  /** What parseWidths makes of two width bytes whose codes are all valid. */
  lemma ParseWidthsOf(version: nat, s: seq<Byte>, h0: nat, t: seq<Byte>, h1: nat, rest: seq<Byte>)
    requires version <= 2
    requires ReadBE(s, 1) == Success((h0, t)) && ReadBE(t, 1) == Success((h1, rest))
    requires ValidWidth(h0 / 16) && ValidWidth(h0 % 16) && ValidWidth(h1 / 16)
    requires ValidWidth(if HasMethodField(version) then h1 % 16 else 0)
    ensures ParseWidths(version, s)
            == Success((Layout(version, h0 / 16, h0 % 16, h1 / 16, if HasMethodField(version) then h1 % 16 else 0), rest))
  {
  }

  /** parseBox(writeBox(box)) reproduces the box: version, the four widths, and every
      entry in order with its ID, construction method, data reference index, base
      offset and extents, whatever bytes follow. */
  lemma BoxRoundTrip(b: IlocBox, rest: seq<Byte>)
    requires Encodable(b)
    ensures ParseBox(b.version, WriteBox(b) + rest) == Success(b)
  {
    var l := LayoutOf(b);
    var cF := ToBE(|b.entries|, IdBytes(b.version));
    var es := WriteEntries(l, b.entries) + rest;
    ConcatAssoc(WidthNibbles(b) + cF, WriteEntries(l, b.entries), rest);
    ConcatAssoc(WidthNibbles(b), cF, es);
    WidthsRoundTrip(b, cF + es);
    FieldRoundTrip(|b.entries|, IdBytes(b.version), es);
    EntriesRoundTrip(l, b.entries, rest);
  }

  /** A field of width 0 is absent from the stream: whatever the bytes, a decoded
      box with a zero width holds 0 in every field of that width. */
  lemma ZeroWidthFieldsDecodeAsZero(version: nat, s: seq<Byte>)
    requires ParseBox(version, s).Success?
    ensures var b := ParseBox(version, s).value;
      && (b.baseOffsetSize == 0 ==> forall i :: 0 <= i < |b.entries| ==> b.entries[i].baseOffset == 0)
      && (b.offsetSize == 0 ==> forall i, j :: 0 <= i < |b.entries| && 0 <= j < |b.entries[i].extents| ==>
            b.entries[i].extents[j].offset == 0)
      && (b.lengthSize == 0 ==> forall i, j :: 0 <= i < |b.entries| && 0 <= j < |b.entries[i].extents| ==>
            b.entries[i].extents[j].length == 0)
      && (version == 0 || b.indexSize == 0 ==> forall i, j :: 0 <= i < |b.entries| && 0 <= j < |b.entries[i].extents| ==>
            b.entries[i].extents[j].index == 0)
  {
    var b := ParseBox(version, s).value;
    assert Encodable(b);
    assert Pow256(0) == 1;
  }

  /** Width 0 means omitted, not padded: extents take exactly index, offset and
      length bytes each. */
  lemma {:induction false} ExtentsLength(l: Layout, es: seq<Extent>)
    ensures |WriteExtents(l, es)| == |es| * (IndexBytes(l) + l.offsetSize + l.lengthSize)
  {
    if |es| > 0 {
      ExtentsLength(l, es[1..]);
      var k := IndexBytes(l) + l.offsetSize + l.lengthSize;
      assert |es| * k == k + (|es| - 1) * k;
    }
  }

  /** An entry takes its fixed fields (item_ID and construction_method at the
      version's widths) plus its extents, and nothing for a zero-width base offset. */
  lemma EntryLength(l: Layout, loc: ItemLocation)
    ensures |WriteEntry(l, loc)| ==
      IdBytes(l.version) + (if HasMethodField(l.version) then 2 else 0) + 2 + l.baseOffsetSize + 2
      + |loc.extents| * (IndexBytes(l) + l.offsetSize + l.lengthSize)
  {
    ExtentsLength(l, loc.extents);
  }
}
