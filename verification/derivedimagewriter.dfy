/** MetaDerivedImageWriter: after allocation, the writer fills the Item Information,
    Item Location, Item Reference and Item Properties boxes of a MetaBox from the
    resolved derivations. */
module DerivedImageWriter {
  import opened Wrappers
  import opened Bytes
  import Iloc
  import opened MetaBoxModel
  import opened Derivation
  import opened Allocation

  // ---------------------------------------------------------------- property store growth

  /** `s2` is `s` with properties and associations only appended. */
  predicate Extends(s: PropertyStore, s2: PropertyStore) {
    && |s.properties| <= |s2.properties| && s2.properties[..|s.properties|] == s.properties
    && |s.associations| <= |s2.associations| && s2.associations[..|s.associations|] == s.associations
  }

  /** The item is associated with a property equal to `p`. */
  predicate HasProperty(s: PropertyStore, itemId: nat, p: Property) {
    exists j :: 0 <= j < |s.associations| && s.associations[j].itemId == itemId
                && s.associations[j].propertyIndex < |s.properties|
                && s.properties[s.associations[j].propertyIndex] == p
  }

  /** Some association links the item to an 'ispe' property of the store. */
  predicate HasIspe(s: PropertyStore, itemId: nat) {
    exists j :: 0 <= j < |s.associations| && IsIspeOf(s, s.associations[j], itemId)
  }

  /** findPropertyIndex(ISPE, item) finds an 'ispe' exactly when the item has one. */
  lemma IspeIndexFound(s: PropertyStore, itemId: nat)
    ensures IspeIndexOf(s, itemId).Some? <==> HasIspe(s, itemId)
  {
    if HasIspe(s, itemId) {
      var j :| 0 <= j < |s.associations| && IsIspeOf(s, s.associations[j], itemId);
      assert s.associations[j] in s.associations;
    }
  }

  lemma ExtendsTrans(s1: PropertyStore, s2: PropertyStore, s3: PropertyStore)
    requires Extends(s1, s2) && Extends(s2, s3)
    ensures Extends(s1, s3)
  {
    assert s3.properties[..|s1.properties|] == s3.properties[..|s2.properties|][..|s1.properties|];
    assert s3.associations[..|s1.associations|] == s3.associations[..|s2.associations|][..|s1.associations|];
  }

  /** Appending to the store never takes a property or an 'ispe' away from an item. */
  lemma ExtendsKeeps(s: PropertyStore, s2: PropertyStore)
    requires Extends(s, s2)
    ensures forall itemId, p :: HasProperty(s, itemId, p) ==> HasProperty(s2, itemId, p)
    ensures forall itemId :: HasIspe(s, itemId) ==> HasIspe(s2, itemId)
  {
    forall itemId, p | HasProperty(s, itemId, p)
      ensures HasProperty(s2, itemId, p)
    {
      var j :| 0 <= j < |s.associations| && s.associations[j].itemId == itemId
               && s.associations[j].propertyIndex < |s.properties|
               && s.properties[s.associations[j].propertyIndex] == p;
      assert s2.associations[j] == s2.associations[..|s.associations|][j];
      var q := s.associations[j].propertyIndex;
      assert s2.properties[q] == s2.properties[..|s.properties|][q];
    }
    forall itemId | HasIspe(s, itemId)
      ensures HasIspe(s2, itemId)
    {
      var j :| 0 <= j < |s.associations| && IsIspeOf(s, s.associations[j], itemId);
      var q := s.associations[j].propertyIndex;
      assert s2.associations[j] == s2.associations[..|s.associations|][j];
      assert s2.properties[q] == s2.properties[..|s.properties|][q];
      assert IsIspeOf(s2, s2.associations[j], itemId);
    }
  }

  /** The associations that pair to[k] with property index ps[k]. */
  function Pairs(to: seq<nat>, ps: seq<nat>): (r: seq<Association>)
    requires |to| == |ps|
    ensures |r| == |to|
    ensures forall k :: 0 <= k < |to| ==> r[k] == Association(to[k], ps[k])
  {
    seq(|to|, k requires 0 <= k < |to| => Association(to[k], ps[k]))
  }

  /** The 'ispe' property index of every item, in order; the first item without one
      is a PropertyNotFound. */
  function IspeIndexes(s: PropertyStore, items: seq<nat>): (r: Result<seq<nat>>)
    ensures r.Success? <==> forall k :: 0 <= k < |items| ==> IspeIndexOf(s, items[k]).Some?
    ensures r.Success? ==> |r.value| == |items|
                           && forall k :: 0 <= k < |items| ==> IspeIndexOf(s, items[k]) == Some(r.value[k])
    ensures r.Failure? ==> exists k :: 0 <= k < |items| && IspeIndexOf(s, items[k]).None?
                                       && r.error == PropertyNotFound(items[k])
  {
    if |items| == 0 then Success([])
    else
      match IspeIndexOf(s, items[0])
      case None => Failure(PropertyNotFound(items[0]))
      case Some(p) =>
        var rest := IspeIndexes(s, items[1..]);
        var r := if rest.Failure? then Failure(rest.error) else Success([p] + rest.value);
        IspeIndexesStep(s, items, items[1..], p, rest, r);
        r
  }

  /** The first item's index in front of the indexes of the rest. */
  lemma IspeIndexesStep(s: PropertyStore, items: seq<nat>, tail: seq<nat>, p: nat, rest: Result<seq<nat>>,
                        r: Result<seq<nat>>)
    requires |items| > 0 && tail == items[1..] && IspeIndexOf(s, items[0]) == Some(p)
    requires rest.Success? <==> forall k :: 0 <= k < |tail| ==> IspeIndexOf(s, tail[k]).Some?
    requires rest.Success? ==> |rest.value| == |tail|
                               && forall k :: 0 <= k < |tail| ==> IspeIndexOf(s, tail[k]) == Some(rest.value[k])
    requires rest.Failure? ==> exists k :: 0 <= k < |tail| && IspeIndexOf(s, tail[k]).None?
                                           && rest.error == PropertyNotFound(tail[k])
    requires r == if rest.Failure? then Failure(rest.error) else Success([p] + rest.value)
    ensures r.Success? <==> forall k :: 0 <= k < |items| ==> IspeIndexOf(s, items[k]).Some?
    ensures r.Success? ==> |r.value| == |items|
                           && forall k :: 0 <= k < |items| ==> IspeIndexOf(s, items[k]) == Some(r.value[k])
    ensures r.Failure? ==> exists k :: 0 <= k < |items| && IspeIndexOf(s, items[k]).None?
                                       && r.error == PropertyNotFound(items[k])
  {
    assert forall k :: 0 <= k < |tail| ==> tail[k] == items[k + 1];
    if rest.Failure? {
      var k :| 0 <= k < |tail| && IspeIndexOf(s, tail[k]).None? && rest.error == PropertyNotFound(tail[k]);
      assert items[k + 1] == tail[k];
    } else {
      forall k | 0 <= k < |items|
        ensures IspeIndexOf(s, items[k]) == Some(r.value[k])
      {
        if k > 0 {
          assert items[k] == tail[k - 1] && r.value[k] == rest.value[k - 1];
        }
      }
    }
  }

  /** linkIspeProperties: toItems[k] is associated with the 'ispe' property of
      fromItems[k] for every k, and nothing else is added. Lists of unequal length
      are an ArityMismatch and a source item without an 'ispe' is a
      PropertyNotFound; either way no association is made. */
  function LinkIspeProperties(s: PropertyStore, from: seq<nat>, to: seq<nat>): (r: Result<PropertyStore>)
    ensures |from| != |to| ==> r == Failure(ArityMismatch(|from|, |to|))
    ensures r.Success? <==> |from| == |to| && forall k :: 0 <= k < |from| ==> IspeIndexOf(s, from[k]).Some?
    ensures r.Success? ==>
              && r.value.properties == s.properties
              && |r.value.associations| == |s.associations| + |from|
              && r.value.associations[..|s.associations|] == s.associations
              && forall k :: 0 <= k < |from| ==>
                   r.value.associations[|s.associations| + k] == Association(to[k], IspeIndexOf(s, from[k]).value)
    ensures r.Failure? && |from| == |to| ==>
              exists k :: 0 <= k < |from| && IspeIndexOf(s, from[k]).None? && r.error == PropertyNotFound(from[k])
  {
    if |from| != |to| then Failure(ArityMismatch(|from|, |to|))
    else
      var ps :- IspeIndexes(s, from);
      var added := Pairs(to, ps);
      var r := s.(associations := s.associations + added);
      assert r.associations[..|s.associations|] == s.associations;
      assert forall k :: 0 <= k < |from| ==> r.associations[|s.associations| + k] == added[k];
      Success(r)
  }

  /** Linking gives every target item an 'ispe' and keeps everything already there. */
  lemma LinkIspeGivesIspe(s: PropertyStore, from: seq<nat>, to: seq<nat>)
    requires LinkIspeProperties(s, from, to).Success?
    ensures Extends(s, LinkIspeProperties(s, from, to).value)
    ensures forall k :: 0 <= k < |to| ==> HasIspe(LinkIspeProperties(s, from, to).value, to[k])
  {
    var r := LinkIspeProperties(s, from, to).value;
    assert r.properties[..|s.properties|] == s.properties;
    forall k | 0 <= k < |to|
      ensures HasIspe(r, to[k])
    {
      assert IsIspeOf(r, r.associations[|s.associations| + k], to[k]);
    }
  }

  // ---------------------------------------------------------------- references

  /** The targets of a list of references, concatenated in order. */
  function Targets(refs: seq<Reference>): seq<nat> {
    if |refs| == 0 then [] else Targets(refs[..|refs| - 1]) + refs[|refs| - 1].toIds
  }

  /** One 'dimg' reference from each identity item to the image it transforms. */
  function IdentityReferences(from: seq<nat>, to: seq<nat>): (r: seq<Reference>)
    requires |from| == |to|
    ensures |r| == |from|
    ensures forall k :: 0 <= k < |from| ==> r[k] == Reference("dimg", from[k], [to[k]])
    ensures Targets(r) == to
  {
    if |from| == 0 then []
    else
      var prev := IdentityReferences(from[..|from| - 1], to[..|to| - 1]);
      var r := prev + [Reference("dimg", from[|from| - 1], [to[|to| - 1]])];
      assert r[..|r| - 1] == prev;
      assert to[..|to| - 1] + [to[|to| - 1]] == to;
      r
  }

  /** insertDimgReferences: an 'iden' derivation references, from each of its items,
      the one image that item transforms; a 'grid' or 'iovl' references, from its
      single item, all its member images in configuration order. */
  function InsertDimgReferences(d: DerivationInfo): (r: Result<seq<Reference>>)
    ensures d.kind == Identity ==> (r.Success? <==> |d.itemIds| == |d.referenceItemIds|)
    ensures d.kind != Identity ==> (r.Success? <==> |d.itemIds| == 1)
    ensures r.Failure? ==> r.error == ArityMismatch(|d.itemIds|, if d.kind == Identity then |d.referenceItemIds| else 1)
    ensures r.Success? ==> forall k :: 0 <= k < |r.value| ==>
              r.value[k].refType == "dimg" && r.value[k].fromId in d.itemIds
    ensures r.Success? ==> Targets(r.value) == d.referenceItemIds
    ensures r.Success? && d.kind == Identity ==>
              |r.value| == |d.itemIds| && forall k :: 0 <= k < |r.value| ==> r.value[k].fromId == d.itemIds[k]
    ensures r.Success? && d.kind != Identity ==> |r.value| == 1
  {
    if d.kind == Identity then
      if |d.itemIds| != |d.referenceItemIds| then Failure(ArityMismatch(|d.itemIds|, |d.referenceItemIds|))
      else Success(IdentityReferences(d.itemIds, d.referenceItemIds))
    else
      if |d.itemIds| != 1 then Failure(ArityMismatch(|d.itemIds|, 1))
      else
        var r := [Reference("dimg", d.itemIds[0], d.referenceItemIds)];
        assert r[..0] == [];
        Success(r)
  }

  /** insertBaseReferences: resolves the pre-derived images and their base images;
      every pre-derived item gets one 'base' reference to all the base items, in
      order. A reference that does not resolve fails the call. */
  function InsertBaseReferences(m: ReferenceToItemIdMap, p: PreDerivedConfig): (r: Result<seq<Reference>>)
    ensures r.Success? <==> Resolve(m, p.preRefsList, p.preIdxsList).Success?
                            && Resolve(m, p.baseRefsList, p.baseIdxsList).Success?
    ensures r.Failure? ==> r.error == if Resolve(m, p.preRefsList, p.preIdxsList).Failure?
                                      then Resolve(m, p.preRefsList, p.preIdxsList).error
                                      else Resolve(m, p.baseRefsList, p.baseIdxsList).error
    ensures r.Success? ==>
              && |r.value| == IndexCount(p.preIdxsList)
              && forall k :: 0 <= k < |r.value| ==>
                   && r.value[k].refType == "base"
                   && r.value[k].fromId == Resolve(m, p.preRefsList, p.preIdxsList).value[k]
                   && r.value[k].toIds == Resolve(m, p.baseRefsList, p.baseIdxsList).value
  {
    var pre :- Resolve(m, p.preRefsList, p.preIdxsList);
    var base :- Resolve(m, p.baseRefsList, p.baseIdxsList);
    Success(seq(|pre|, k requires 0 <= k < |pre| => Reference("base", pre[k], base)))
  }

  // ---------------------------------------------------------------- item information

  /** The item-information entries of one derivation. */
  function InfosOf(d: DerivationInfo): (r: seq<ItemInfo>)
    ensures |r| == |d.itemIds|
    ensures forall k :: 0 <= k < |d.itemIds| ==> r[k] == ItemInfo(d.itemIds[k], TypeCode(d.kind))
  {
    seq(|d.itemIds|, k requires 0 <= k < |d.itemIds| => ItemInfo(d.itemIds[k], TypeCode(d.kind)))
  }

  /** Item k of derivation i is entry TotalIds(dm[..i]) + k after the first |infos|
      entries of `r`, typed after the derivation's kind. */
  predicate PlacedAt(infos: seq<ItemInfo>, dm: seq<DerivationInfo>, r: seq<ItemInfo>, i: nat, k: nat)
    requires i < |dm| && k < |dm[i].itemIds|
  {
    |infos| + TotalIds(dm[..i]) + k < |r|
    && r[|infos| + TotalIds(dm[..i]) + k] == ItemInfo(dm[i].itemIds[k], TypeCode(dm[i].kind))
  }

  /** Every item of every derivation is placed as PlacedAt describes. */
  predicate InfosPlaced(infos: seq<ItemInfo>, dm: seq<DerivationInfo>, r: seq<ItemInfo>) {
    forall i: nat, k: nat :: i < |dm| && k < |dm[i].itemIds| ==> PlacedAt(infos, dm, r, i, k)
  }

  /** iinfWrite: one item-information entry per item ID of every derivation, in map
      order, typed 'grid', 'iovl' or 'iden'. */
  function IinfWrite(infos: seq<ItemInfo>, dm: seq<DerivationInfo>): (r: seq<ItemInfo>)
    ensures |r| == |infos| + TotalIds(dm)
    ensures r[..|infos|] == infos
    ensures InfosPlaced(infos, dm, r)
  {
    if |dm| == 0 then
      assert infos[..|infos|] == infos;
      infos
    else
      var init := dm[..|dm| - 1];
      var d := dm[|dm| - 1];
      var prev := IinfWrite(infos, init);
      var r := prev + InfosOf(d);
      assert r[..|infos|] == prev[..|infos|];
      assert dm == init + [d];
      IinfStep(infos, init, d, prev, r);
      r
  }

  /** The entries of an earlier derivation end before the later ones start. */
  lemma {:induction false} TotalIdsPrefix(dm: seq<DerivationInfo>, i: nat)
    requires i < |dm|
    ensures TotalIds(dm[..i]) + |dm[i].itemIds| <= TotalIds(dm)
  {
    var n := |dm|;
    assert dm[..n][..i] == dm[..i];
    if i < n - 1 {
      var init := dm[..n - 1];
      assert init[..i] == dm[..i] && init[i] == dm[i];
      TotalIdsPrefix(init, i);
    }
  }

  lemma IinfStep(infos: seq<ItemInfo>, init: seq<DerivationInfo>, d: DerivationInfo, prev: seq<ItemInfo>, r: seq<ItemInfo>)
    requires |prev| == |infos| + TotalIds(init)
    requires InfosPlaced(infos, init, prev)
    requires r == prev + InfosOf(d)
    ensures InfosPlaced(infos, init + [d], r)
  {
    var dm := init + [d];
    forall i: nat, k: nat | i < |dm| && k < |dm[i].itemIds|
      ensures PlacedAt(infos, dm, r, i, k)
    {
      if i < |init| {
        assert dm[..i] == init[..i] && dm[i] == init[i];
        IinfKeepsEarlier(infos, init, d, prev, r, i, k);
      } else {
        assert dm[..i] == init && dm[i] == d;
        IinfPlacesLast(infos, init, d, prev, r, k);
      }
    }
  }

  lemma IinfKeepsEarlier(infos: seq<ItemInfo>, init: seq<DerivationInfo>, d: DerivationInfo, prev: seq<ItemInfo>,
                         r: seq<ItemInfo>, i: nat, k: nat)
    requires |prev| == |infos| + TotalIds(init)
    requires InfosPlaced(infos, init, prev)
    requires r == prev + InfosOf(d)
    requires i < |init| && k < |init[i].itemIds|
    ensures |infos| + TotalIds(init[..i]) + k < |r|
    ensures r[|infos| + TotalIds(init[..i]) + k] == ItemInfo(init[i].itemIds[k], TypeCode(init[i].kind))
  {
    assert PlacedAt(infos, init, prev, i, k);
    var j := |infos| + TotalIds(init[..i]) + k;
    assert r[j] == prev[j];
  }

  lemma IinfPlacesLast(infos: seq<ItemInfo>, init: seq<DerivationInfo>, d: DerivationInfo, prev: seq<ItemInfo>,
                       r: seq<ItemInfo>, k: nat)
    requires |prev| == |infos| + TotalIds(init)
    requires r == prev + InfosOf(d)
    requires k < |d.itemIds|
    ensures |infos| + TotalIds(init) + k < |r|
    ensures r[|infos| + TotalIds(init) + k] == ItemInfo(d.itemIds[k], TypeCode(d.kind))
  {
    assert r[|prev| + k] == InfosOf(d)[k];
  }

  // ---------------------------------------------------------------- item locations

  /** The 'iloc' entry ilocWrite adds for a composite: a file-offset item with one
      extent covering its descriptor (the ID is stored in 16 bits). */
  function LocationEntry(l: PendingLocation): (e: Iloc.ItemLocation)
    ensures e.itemId == l.itemId % 0x1_0000
    ensures e.construction == Iloc.FileOffset && e.dataReferenceIndex == 0 && e.baseOffset == 0
    ensures |e.extents| == 1 && e.extents[0].offset == l.offset && e.extents[0].length == l.length
  {
    Iloc.ItemLocation(l.itemId % 0x1_0000, Iloc.FileOffset, 0, 0, [Iloc.Extent(0, l.offset, l.length)])
  }

  /** No location's (16-bit) item ID is in the table already, and no two share one. */
  predicate FreshLocations(b: Iloc.IlocBox, locs: seq<PendingLocation>) {
    && (forall k, i :: 0 <= k < |locs| && 0 <= i < |b.entries| ==> b.entries[i].itemId != locs[k].itemId % 0x1_0000)
    && (forall j, k :: 0 <= j < k < |locs| ==> locs[j].itemId % 0x1_0000 != locs[k].itemId % 0x1_0000)
  }

  /** What ilocWrite adds: one entry per pending location, in order, after the
      unchanged earlier entries; the rest of the box is untouched. */
  predicate IlocAdded(b: Iloc.IlocBox, locs: seq<PendingLocation>, r: Iloc.IlocBox) {
    && r.(entries := b.entries) == b
    && |r.entries| == |b.entries| + |locs|
    && r.entries[..|b.entries|] == b.entries
    && forall k :: 0 <= k < |locs| ==> r.entries[|b.entries| + k] == LocationEntry(locs[k])
  }

  /** ilocWrite: one 'iloc' entry per pending location, appended in order. */
  function IlocWrite(b: Iloc.IlocBox, locs: seq<PendingLocation>): (r: Result<Iloc.IlocBox>)
    ensures r.Success? <==> FreshLocations(b, locs)
    ensures r.Failure? ==> r.error.DuplicateItem?
    ensures r.Success? ==> IlocAdded(b, locs, r.value)
  {
    if |locs| == 0 then
      assert b.entries[..|b.entries|] == b.entries;
      Success(b)
    else
      var init := locs[..|locs| - 1];
      var l := locs[|locs| - 1];
      var prev := IlocWrite(b, init);
      if prev.Failure? then
        FreshPrefix(b, locs, init);
        prev
      else
        var r := Iloc.AddLocation(prev.value, LocationEntry(l));
        IlocWriteStep(b, locs, init, l, prev.value);
        if r.Success? then
          IlocWriteAppend(b, locs, init, l, prev.value, r.value);
          r
        else
          r
  }

  /** A list whose prefix repeats an item ID repeats one itself. */
  lemma FreshPrefix(b: Iloc.IlocBox, locs: seq<PendingLocation>, init: seq<PendingLocation>)
    requires |locs| > 0 && init == locs[..|locs| - 1]
    requires !FreshLocations(b, init)
    ensures !FreshLocations(b, locs)
  {
    assert forall k :: 0 <= k < |init| ==> init[k] == locs[k];
  }

  /** One more accepted location extends what ilocWrite has added by its entry. */
  lemma IlocWriteAppend(b: Iloc.IlocBox, locs: seq<PendingLocation>, init: seq<PendingLocation>, l: PendingLocation,
                        prev: Iloc.IlocBox, next: Iloc.IlocBox)
    requires |locs| > 0 && init == locs[..|locs| - 1] && l == locs[|locs| - 1]
    requires IlocAdded(b, init, prev)
    requires |next.entries| == |prev.entries| + 1
    requires next.entries[..|prev.entries|] == prev.entries
    requires next.entries[|prev.entries|] == LocationEntry(l)
    requires next.(entries := prev.entries) == prev
    ensures IlocAdded(b, locs, next)
  {
    assert next.entries[..|b.entries|] == next.entries[..|prev.entries|][..|b.entries|];
    forall k | 0 <= k < |locs|
      ensures next.entries[|b.entries| + k] == LocationEntry(locs[k])
    {
      if k < |init| {
        assert locs[k] == init[k];
        assert next.entries[|b.entries| + k] == next.entries[..|prev.entries|][|b.entries| + k];
      }
    }
  }

  /** The next location is accepted exactly when the whole list is fresh. */
  lemma IlocWriteStep(b: Iloc.IlocBox, locs: seq<PendingLocation>, init: seq<PendingLocation>, l: PendingLocation,
                      prev: Iloc.IlocBox)
    requires |locs| > 0 && init == locs[..|locs| - 1] && l == locs[|locs| - 1]
    requires FreshLocations(b, init)
    requires IlocAdded(b, init, prev)
    ensures (exists i :: 0 <= i < |prev.entries| && prev.entries[i].itemId == l.itemId % 0x1_0000)
            <==> !FreshLocations(b, locs)
  {
    var id := l.itemId % 0x1_0000;
    if exists i :: 0 <= i < |prev.entries| && prev.entries[i].itemId == id {
      var i :| 0 <= i < |prev.entries| && prev.entries[i].itemId == id;
      if i < |b.entries| {
        assert prev.entries[i] == prev.entries[..|b.entries|][i];
        assert b.entries[i].itemId == locs[|init|].itemId % 0x1_0000;
      } else {
        var k := i - |b.entries|;
        assert locs[k] == init[k] && locs[|init|] == l;
        assert locs[k].itemId % 0x1_0000 == locs[|init|].itemId % 0x1_0000;
      }
    } else {
      forall k, i | 0 <= k < |locs| && 0 <= i < |b.entries|
        ensures b.entries[i].itemId != locs[k].itemId % 0x1_0000
      {
        assert prev.entries[i] == prev.entries[..|b.entries|][i];
        if k < |init| { assert locs[k] == init[k]; }
      }
      forall j, k | 0 <= j < k < |locs|
        ensures locs[j].itemId % 0x1_0000 != locs[k].itemId % 0x1_0000
      {
        assert locs[j] == init[j];
        if k < |init| {
          assert locs[k] == init[k];
        } else {
          assert prev.entries[|b.entries| + j].itemId == init[j].itemId % 0x1_0000;
        }
      }
    }
  }

  // ---------------------------------------------------------------- item references

  /** Concatenates the reference lists of a sequence of calls in order; the first
      failing call fails the whole. */
  function ConcatAll(rs: seq<Result<seq<Reference>>>): (r: Result<seq<Reference>>)
    ensures r.Success? <==> forall j :: 0 <= j < |rs| ==> rs[j].Success?
    ensures r.Failure? ==> exists j :: 0 <= j < |rs| && rs[j] == Failure(r.error)
    ensures r.Success? ==> forall j, k :: 0 <= j < |rs| && 0 <= k < |rs[j].value| ==> rs[j].value[k] in r.value
    ensures r.Success? ==> forall x :: x in r.value ==> exists j :: 0 <= j < |rs| && x in rs[j].value
  {
    if |rs| == 0 then Success([])
    else
      var init := rs[..|rs| - 1];
      assert forall j :: 0 <= j < |init| ==> init[j] == rs[j];
      var prev :- ConcatAll(init);
      var cur :- rs[|rs| - 1];
      forall j, k | 0 <= j < |rs| && 0 <= k < |rs[j].value|
        ensures rs[j].value[k] in prev + cur
      {
        if j < |init| {
          assert init[j].value[k] in prev;
        } else {
          assert (prev + cur)[|prev| + k] == cur[k];
        }
      }
      Success(prev + cur)
  }

  /** The 'base' references of every pre-derived entry, in configuration order. */
  function BaseReferences(m: ReferenceToItemIdMap, pre: seq<PreDerivedConfig>): (r: Result<seq<Reference>>)
    ensures r.Success? <==> forall j :: 0 <= j < |pre| ==> InsertBaseReferences(m, pre[j]).Success?
    ensures r.Success? ==> forall j, k :: 0 <= j < |pre| && 0 <= k < |InsertBaseReferences(m, pre[j]).value| ==>
              InsertBaseReferences(m, pre[j]).value[k] in r.value
    ensures r.Success? ==> forall x :: x in r.value ==>
              exists j :: 0 <= j < |pre| && x in InsertBaseReferences(m, pre[j]).value
    ensures r.Success? ==> forall x :: x in r.value ==> x.refType == "base"
  {
    var rs := seq(|pre|, j requires 0 <= j < |pre| => InsertBaseReferences(m, pre[j]));
    var r := ConcatAll(rs);
    if r.Success? then
      forall j | 0 <= j < |pre| ensures InsertBaseReferences(m, pre[j]).Success? {
        assert rs[j] == InsertBaseReferences(m, pre[j]);
      }
      forall j, k | 0 <= j < |pre| && 0 <= k < |InsertBaseReferences(m, pre[j]).value|
        ensures InsertBaseReferences(m, pre[j]).value[k] in r.value
      {
        assert rs[j] == InsertBaseReferences(m, pre[j]);
      }
      forall x | x in r.value
        ensures exists j :: 0 <= j < |pre| && x in InsertBaseReferences(m, pre[j]).value
        ensures x.refType == "base"
      {
        var j :| 0 <= j < |rs| && x in rs[j].value;
        assert rs[j] == InsertBaseReferences(m, pre[j]);
      }
      r
    else
      var j :| 0 <= j < |rs| && rs[j] == Failure(r.error);
      assert rs[j] == InsertBaseReferences(m, pre[j]);
      r
  }

  /** The 'dimg' references of every derivation, in map order. */
  function DimgReferences(dm: seq<DerivationInfo>): (r: Result<seq<Reference>>)
    ensures r.Success? <==> forall i :: 0 <= i < |dm| ==> InsertDimgReferences(dm[i]).Success?
    ensures r.Success? ==> forall i, k :: 0 <= i < |dm| && 0 <= k < |InsertDimgReferences(dm[i]).value| ==>
              InsertDimgReferences(dm[i]).value[k] in r.value
    ensures r.Success? ==> forall x :: x in r.value ==>
              exists i :: 0 <= i < |dm| && x in InsertDimgReferences(dm[i]).value
    ensures r.Success? ==> forall x :: x in r.value ==> x.refType == "dimg"
  {
    var rs := seq(|dm|, i requires 0 <= i < |dm| => InsertDimgReferences(dm[i]));
    var r := ConcatAll(rs);
    if r.Success? then
      forall i | 0 <= i < |dm| ensures InsertDimgReferences(dm[i]).Success? {
        assert rs[i] == InsertDimgReferences(dm[i]);
      }
      forall i, k | 0 <= i < |dm| && 0 <= k < |InsertDimgReferences(dm[i]).value|
        ensures InsertDimgReferences(dm[i]).value[k] in r.value
      {
        assert rs[i] == InsertDimgReferences(dm[i]);
      }
      forall x | x in r.value
        ensures exists i :: 0 <= i < |dm| && x in InsertDimgReferences(dm[i]).value
        ensures x.refType == "dimg"
      {
        var i :| 0 <= i < |rs| && x in rs[i].value;
        assert rs[i] == InsertDimgReferences(dm[i]);
      }
      r
    else
      var i :| 0 <= i < |rs| && rs[i] == Failure(r.error);
      assert rs[i] == InsertDimgReferences(dm[i]);
      r
  }

  /** irefWrite: the 'base' references of the pre-derived images, then the 'dimg'
      references of every derivation, after the references already in the box. */
  function IrefWrite(refs: seq<Reference>, dm: seq<DerivationInfo>, pre: seq<PreDerivedConfig>, m: ReferenceToItemIdMap)
    : (r: Result<seq<Reference>>)
    ensures r.Success? <==> && (forall j :: 0 <= j < |pre| ==> InsertBaseReferences(m, pre[j]).Success?)
                            && (forall i :: 0 <= i < |dm| ==> InsertDimgReferences(dm[i]).Success?)
    ensures r.Success? ==> |refs| <= |r.value| && r.value[..|refs|] == refs
    ensures r.Success? ==> forall j, k :: 0 <= j < |pre| && 0 <= k < |InsertBaseReferences(m, pre[j]).value| ==>
              InsertBaseReferences(m, pre[j]).value[k] in r.value[|refs|..]
    ensures r.Success? ==> forall i, k :: 0 <= i < |dm| && 0 <= k < |InsertDimgReferences(dm[i]).value| ==>
              InsertDimgReferences(dm[i]).value[k] in r.value[|refs|..]
    ensures r.Success? ==> forall x :: x in r.value[|refs|..] ==>
              || (exists j :: 0 <= j < |pre| && x in InsertBaseReferences(m, pre[j]).value)
              || (exists i :: 0 <= i < |dm| && x in InsertDimgReferences(dm[i]).value)
    ensures r.Success? ==> forall x :: x in r.value[|refs|..] ==> x.refType == "base" || x.refType == "dimg"
    ensures r.Success? ==> IrefAdded(refs, dm, pre, m, r.value)
  {
    var base :- BaseReferences(m, pre);
    var dimg :- DimgReferences(dm);
    AppendedAfter(refs, base, dimg);
    Success(refs + base + dimg)
  }

  lemma AppendedAfter(refs: seq<Reference>, base: seq<Reference>, dimg: seq<Reference>)
    ensures |refs| <= |refs + base + dimg| && (refs + base + dimg)[..|refs|] == refs
    ensures (refs + base + dimg)[|refs|..] == base + dimg
    ensures forall x :: x in base + dimg <==> x in base || x in dimg
  {
    assert (refs + base + dimg)[|refs|..] == base + dimg;
  }

  // ---------------------------------------------------------------- item properties

  /** mDerivations.at(key): a missing uniq_bsid is an error. */
  function DerivationAt(dm: seq<DerivationInfo>, key: nat): (r: Result<DerivationInfo>)
    ensures r.Success? <==> Lookup(dm, key).Some?
    ensures r.Success? ==> r.value == Lookup(dm, key).value
    ensures r.Failure? ==> r.error == DerivationNotFound(key)
  {
    match Lookup(dm, key)
    case None => Failure(DerivationNotFound(key))
    case Some(d) => Success(d)
  }

  /** Associates every item of the list with property index p. */
  function AssociateAll(s: PropertyStore, ids: seq<nat>, p: nat): (r: PropertyStore)
    requires p < |s.properties|
    ensures Extends(s, r)
    ensures r.properties == s.properties
    ensures forall k :: 0 <= k < |ids| ==> HasProperty(r, ids[k], s.properties[p])
    ensures |r.associations| == |s.associations| + |ids| && r.associations[..|s.associations|] == s.associations
    ensures forall k :: 0 <= k < |ids| ==> r.associations[|s.associations| + k] == Association(ids[k], p)
  {
    var added := seq(|ids|, k requires 0 <= k < |ids| => Association(ids[k], p));
    var r := s.(associations := s.associations + added);
    assert r.associations[..|s.associations|] == s.associations;
    assert r.properties[..|s.properties|] == s.properties;
    assert forall k :: 0 <= k < |ids| ==> r.associations[|s.associations| + k] == Association(ids[k], p);
    r
  }

  /** The item IDs of every derivation in the map. */
  function ItemsOf(dm: seq<DerivationInfo>): set<nat> {
    set i, a | 0 <= i < |dm| && 0 <= a < |dm[i].itemIds| :: dm[i].itemIds[a]
  }

  /** Every association `r` adds after those of `s` is for one of the items `ids`. */
  predicate AddsOnlyFor(s: PropertyStore, r: PropertyStore, ids: set<nat>) {
    && |s.associations| <= |r.associations|
    && forall j :: |s.associations| <= j < |r.associations| ==> r.associations[j].itemId in ids
  }

  /** What one grid or overlay adds: its 'ispe' as one new property, associated with
      each item of its derivation `d`, and nothing else. */
  predicate CompositeAdded(s: PropertyStore, d: DerivationInfo, c: CompositeConfig, r: PropertyStore) {
    && r.properties == s.properties + [Ispe(c.outputWidth, c.outputHeight)]
    && |r.associations| == |s.associations| + |d.itemIds|
    && r.associations[..|s.associations|] == s.associations
    && forall k :: 0 <= k < |d.itemIds| ==> r.associations[|s.associations| + k] == Association(d.itemIds[k], |s.properties|)
  }

  /** What one irot, rloc or clap entry adds: its transformative property as one new
      property, associated with each item of its derivation `d`; then, for each item,
      a link to an 'ispe' the image it transforms already had; and nothing else. */
  predicate TransformAdded(s: PropertyStore, d: DerivationInfo, t: TransformConfig, r: PropertyStore) {
    && r.properties == s.properties + [Transform(t.property)]
    && |d.referenceItemIds| == |d.itemIds|
    && |r.associations| == |s.associations| + 2 * |d.itemIds|
    && r.associations[..|s.associations|] == s.associations
    && (forall k :: 0 <= k < |d.itemIds| ==> r.associations[|s.associations| + k] == Association(d.itemIds[k], |s.properties|))
    && IspeLinks(s, d, r)
  }

  /** After the associations of `s` and one more per item of `d`, the associations
      of `r` link each item of `d` to an 'ispe' that the image it transforms has
      in `s`. */
  predicate IspeLinks(s: PropertyStore, d: DerivationInfo, r: PropertyStore) {
    && |d.referenceItemIds| == |d.itemIds|
    && |r.associations| == |s.associations| + 2 * |d.itemIds|
    && forall k :: 0 <= k < |d.itemIds| ==>
         && IsIspeOf(r, r.associations[|s.associations| + |d.itemIds| + k], d.itemIds[k])
         && Association(d.referenceItemIds[k], r.associations[|s.associations| + |d.itemIds| + k].propertyIndex)
              in s.associations
  }

  /** The 'ispe' properties the grids and overlays add, in order. */
  function IspeList(cs: seq<CompositeConfig>): seq<Property> {
    if |cs| == 0 then [] else IspeList(cs[..|cs| - 1]) + [Ispe(cs[|cs| - 1].outputWidth, cs[|cs| - 1].outputHeight)]
  }

  /** The transformative properties the irot, rloc and clap entries add, in order. */
  function TransformList(ts: seq<TransformConfig>): seq<Property> {
    if |ts| == 0 then [] else TransformList(ts[..|ts| - 1]) + [Transform(ts[|ts| - 1].property)]
  }

  /** Additions confined to `ids` in two steps are confined to `ids` overall. */
  lemma AddsOnlyForTrans(s1: PropertyStore, s2: PropertyStore, s3: PropertyStore, ids: set<nat>)
    requires Extends(s2, s3)
    requires AddsOnlyFor(s1, s2, ids) && AddsOnlyFor(s2, s3, ids)
    ensures AddsOnlyFor(s1, s3, ids)
  {
    forall j | |s1.associations| <= j < |s3.associations|
      ensures s3.associations[j].itemId in ids
    {
      if j < |s2.associations| {
        assert s3.associations[j] == s3.associations[..|s2.associations|][j];
      }
    }
  }

  /** An entry of the map contributes its items to ItemsOf. */
  lemma ItemsOfEntry(dm: seq<DerivationInfo>, d: DerivationInfo)
    requires exists i :: 0 <= i < |dm| && dm[i] == d
    ensures forall a :: 0 <= a < |d.itemIds| ==> d.itemIds[a] in ItemsOf(dm)
  {
    var i :| 0 <= i < |dm| && dm[i] == d;
    forall a | 0 <= a < |d.itemIds|
      ensures d.itemIds[a] in ItemsOf(dm)
    {
      assert dm[i].itemIds[a] == d.itemIds[a];
    }
  }

  /** Every item of the composite's derivation carries its output size as 'ispe'. */
  predicate CompositeHasIspe(s: PropertyStore, dm: seq<DerivationInfo>, c: CompositeConfig) {
    Lookup(dm, c.uniqBsid).Some?
    && forall k :: 0 <= k < |Lookup(dm, c.uniqBsid).value.itemIds| ==>
         HasProperty(s, Lookup(dm, c.uniqBsid).value.itemIds[k], Ispe(c.outputWidth, c.outputHeight))
  }

  /** Every item of the transform's derivation carries the transformative property
      and an 'ispe'. */
  predicate TransformHasProperties(s: PropertyStore, dm: seq<DerivationInfo>, t: TransformConfig) {
    Lookup(dm, t.uniqBsid).Some?
    && forall k :: 0 <= k < |Lookup(dm, t.uniqBsid).value.itemIds| ==>
         && HasProperty(s, Lookup(dm, t.uniqBsid).value.itemIds[k], Transform(t.property))
         && HasIspe(s, Lookup(dm, t.uniqBsid).value.itemIds[k])
  }

  lemma ExtendsKeepsComposite(s: PropertyStore, s2: PropertyStore, dm: seq<DerivationInfo>, c: CompositeConfig)
    requires Extends(s, s2) && CompositeHasIspe(s, dm, c)
    ensures CompositeHasIspe(s2, dm, c)
  {
    ExtendsKeeps(s, s2);
  }

  lemma ExtendsKeepsTransform(s: PropertyStore, s2: PropertyStore, dm: seq<DerivationInfo>, t: TransformConfig)
    requires Extends(s, s2) && TransformHasProperties(s, dm, t)
    ensures TransformHasProperties(s2, dm, t)
  {
    ExtendsKeeps(s, s2);
  }

  /** Adding a property only grows the store. */
  lemma AddPropertyExtends(s: PropertyStore, p: Property)
    ensures Extends(s, AddProperty(s, p).0)
  {
    var r := AddProperty(s, p).0;
    assert r.associations[..|s.associations|] == s.associations;
  }

  /** The 'ispe' of one grid or overlay: a new property with the output size,
      associated with the composite's item. */
  function CompositeOne(prev: PropertyStore, c: CompositeConfig, dm: seq<DerivationInfo>): (r: Result<PropertyStore>)
    ensures r.Success? <==> Lookup(dm, c.uniqBsid).Some?
    ensures r.Failure? ==> r == Failure(DerivationNotFound(c.uniqBsid))
    ensures r.Success? ==> Extends(prev, r.value) && CompositeHasIspe(r.value, dm, c)
    ensures r.Success? ==> CompositeAdded(prev, Lookup(dm, c.uniqBsid).value, c, r.value)
  {
    var d :- DerivationAt(dm, c.uniqBsid);
    var added := AddProperty(prev, Ispe(c.outputWidth, c.outputHeight));
    var r := AssociateAll(added.0, d.itemIds, added.1);
    AddPropertyExtends(prev, Ispe(c.outputWidth, c.outputHeight));
    ExtendsTrans(prev, added.0, r);
    Success(r)
  }

  /** The 'ispe' of every grid and overlay, in configuration order. */
  function CompositeProperties(s: PropertyStore, cs: seq<CompositeConfig>, dm: seq<DerivationInfo>): (r: Result<PropertyStore>)
    ensures r.Success? <==> forall j :: 0 <= j < |cs| ==> Lookup(dm, cs[j].uniqBsid).Some?
    ensures r.Failure? ==> r.error.DerivationNotFound?
    ensures r.Success? ==> Extends(s, r.value)
    ensures r.Success? ==> forall j :: 0 <= j < |cs| ==> CompositeHasIspe(r.value, dm, cs[j])
    ensures r.Success? ==> r.value.properties == s.properties + IspeList(cs) && AddsOnlyFor(s, r.value, ItemsOf(dm))
  {
    if |cs| == 0 then
      assert Extends(s, s);
      Success(s)
    else
      var init := cs[..|cs| - 1];
      var prev :- CompositeProperties(s, init, dm);
      var r :- CompositeOne(prev, cs[|cs| - 1], dm);
      ExtendsTrans(s, prev, r);
      CompositesGrow(prev, r, dm, init, cs);
      CompositesConfined(s, prev, r, dm, init, cs);
      Success(r)
  }

  /** A grid's or overlay's additions are all for items of the map. */
  lemma CompositeAddsOnlyFor(prev: PropertyStore, r: PropertyStore, dm: seq<DerivationInfo>, c: CompositeConfig)
    requires Lookup(dm, c.uniqBsid).Some?
    requires CompositeAdded(prev, Lookup(dm, c.uniqBsid).value, c, r)
    ensures AddsOnlyFor(prev, r, ItemsOf(dm))
  {
    var d := Lookup(dm, c.uniqBsid).value;
    ItemsOfEntry(dm, d);
    forall j | |prev.associations| <= j < |r.associations|
      ensures r.associations[j].itemId in ItemsOf(dm)
    {
      var k := j - |prev.associations|;
      assert r.associations[|prev.associations| + k] == Association(d.itemIds[k], |prev.properties|);
    }
  }

  /** One more composite adds its 'ispe' to the property list and associations only
      for items of the map. */
  lemma CompositesConfined(s: PropertyStore, prev: PropertyStore, r: PropertyStore, dm: seq<DerivationInfo>,
                           init: seq<CompositeConfig>, cs: seq<CompositeConfig>)
    requires |cs| > 0 && init == cs[..|cs| - 1]
    requires prev.properties == s.properties + IspeList(init) && AddsOnlyFor(s, prev, ItemsOf(dm))
    requires Extends(prev, r)
    requires Lookup(dm, cs[|cs| - 1].uniqBsid).Some?
    requires CompositeAdded(prev, Lookup(dm, cs[|cs| - 1].uniqBsid).value, cs[|cs| - 1], r)
    ensures r.properties == s.properties + IspeList(cs) && AddsOnlyFor(s, r, ItemsOf(dm))
  {
    var c := cs[|cs| - 1];
    assert IspeList(cs) == IspeList(init) + [Ispe(c.outputWidth, c.outputHeight)];
    CompositeAddsOnlyFor(prev, r, dm, c);
    AddsOnlyForTrans(s, prev, r, ItemsOf(dm));
  }

  /** Adding one more composite's 'ispe' keeps those of the earlier ones. */
  lemma CompositesGrow(prev: PropertyStore, r: PropertyStore, dm: seq<DerivationInfo>, init: seq<CompositeConfig>,
                       cs: seq<CompositeConfig>)
    requires |cs| > 0 && init == cs[..|cs| - 1]
    requires Extends(prev, r)
    requires forall j :: 0 <= j < |init| ==> CompositeHasIspe(prev, dm, init[j])
    requires CompositeHasIspe(r, dm, cs[|cs| - 1])
    ensures forall j :: 0 <= j < |cs| ==> CompositeHasIspe(r, dm, cs[j])
  {
    forall j | 0 <= j < |cs|
      ensures CompositeHasIspe(r, dm, cs[j])
    {
      if j < |init| {
        assert cs[j] == init[j];
        ExtendsKeepsComposite(prev, r, dm, init[j]);
      }
    }
  }

  /** One transform's step: the store only grows and the transform's items end up
      with its property and an 'ispe'. */
  lemma TransformStep(prev: PropertyStore, dm: seq<DerivationInfo>, t: TransformConfig, d: DerivationInfo,
                      s2: PropertyStore, r: PropertyStore)
    requires Lookup(dm, t.uniqBsid) == Some(d)
    requires s2 == AssociateAll(AddProperty(prev, Transform(t.property)).0, d.itemIds, |prev.properties|)
    requires LinkIspeProperties(s2, d.referenceItemIds, d.itemIds) == Success(r)
    ensures Extends(prev, r)
    ensures TransformHasProperties(r, dm, t)
    ensures TransformAdded(prev, d, t, r)
  {
    var added := AddProperty(prev, Transform(t.property));
    AddPropertyExtends(prev, Transform(t.property));
    ExtendsTrans(prev, added.0, s2);
    LinkIspeGivesIspe(s2, d.referenceItemIds, d.itemIds);
    ExtendsTrans(prev, s2, r);
    ExtendsKeeps(s2, r);
    forall k | 0 <= k < |d.itemIds|
      ensures HasProperty(r, d.itemIds[k], Transform(t.property))
    {
      assert HasProperty(s2, d.itemIds[k], added.0.properties[added.1]);
    }
    LinkedIspeWasThere(prev, s2, r, d);
    TransformStepAdded(prev, t, d, s2, r);
  }

  /** One transform's step adds exactly what TransformAdded says. */
  lemma TransformStepAdded(prev: PropertyStore, t: TransformConfig, d: DerivationInfo, s2: PropertyStore, r: PropertyStore)
    requires s2.properties == prev.properties + [Transform(t.property)]
    requires |s2.associations| == |prev.associations| + |d.itemIds|
    requires s2.associations[..|prev.associations|] == prev.associations
    requires forall k :: 0 <= k < |d.itemIds| ==>
               s2.associations[|prev.associations| + k] == Association(d.itemIds[k], |prev.properties|)
    requires r.properties == s2.properties
    requires |r.associations| == |s2.associations| + |d.itemIds|
    requires r.associations[..|s2.associations|] == s2.associations
    requires IspeLinks(prev, d, r)
    ensures TransformAdded(prev, d, t, r)
  {
    var b := |prev.associations|;
    assert r.associations[..b] == r.associations[..|s2.associations|][..b];
    forall k | 0 <= k < |d.itemIds|
      ensures r.associations[b + k] == Association(d.itemIds[k], |prev.properties|)
    {
      assert r.associations[b + k] == r.associations[..|s2.associations|][b + k];
    }
  }

  /** Each link TransformOne adds points at an 'ispe' that the transformed image had
      before the step: the step's own new associations point at its transformative
      property, which is no 'ispe'. */
  lemma LinkedIspeWasThere(prev: PropertyStore, s2: PropertyStore, r: PropertyStore, d: DerivationInfo)
    requires |s2.properties| == |prev.properties| + 1 && s2.properties[..|prev.properties|] == prev.properties
    requires s2.properties[|prev.properties|].Transform?
    requires |s2.associations| == |prev.associations| + |d.itemIds|
    requires s2.associations[..|prev.associations|] == prev.associations
    requires forall k :: 0 <= k < |d.itemIds| ==>
               s2.associations[|prev.associations| + k] == Association(d.itemIds[k], |prev.properties|)
    requires LinkIspeProperties(s2, d.referenceItemIds, d.itemIds) == Success(r)
    ensures r.properties == s2.properties
    ensures |d.referenceItemIds| == |d.itemIds| && |r.associations| == |s2.associations| + |d.itemIds|
    ensures r.associations[..|s2.associations|] == s2.associations
    ensures IspeLinks(prev, d, r)
  {
    NewAssociationsPointAt(prev.associations, s2.associations, d.itemIds, |prev.properties|);
    forall k | 0 <= k < |d.itemIds|
      ensures && IsIspeOf(r, r.associations[|prev.associations| + |d.itemIds| + k], d.itemIds[k])
              && Association(d.referenceItemIds[k], r.associations[|prev.associations| + |d.itemIds| + k].propertyIndex)
                   in prev.associations
    {
      assert |prev.associations| + |d.itemIds| + k == |s2.associations| + k;
      var p := IspeIndexOf(s2, d.referenceItemIds[k]).value;
      var x := Association(d.referenceItemIds[k], p);
      var j :| 0 <= j < |s2.associations| && s2.associations[j] == x;
      assert j < |prev.associations|;
      assert prev.associations[j] == x;
    }
  }

  /** Past the associations `before`, each association points at property `p`. */
  lemma NewAssociationsPointAt(before: seq<Association>, all: seq<Association>, ids: seq<nat>, p: nat)
    requires |all| == |before| + |ids|
    requires forall k :: 0 <= k < |ids| ==> all[|before| + k] == Association(ids[k], p)
    ensures forall j :: |before| <= j < |all| ==> all[j].propertyIndex == p
  {
    forall j | |before| <= j < |all|
      ensures all[j].propertyIndex == p
    {
      var m := j - |before|;
      assert all[|before| + m] == Association(ids[m], p);
    }
  }

  /** The properties of one irot, rloc or clap entry: a new transformative property
      associated with each of its items, and the 'ispe' of each transformed image
      linked to the item that transforms it. */
  function TransformOne(prev: PropertyStore, t: TransformConfig, dm: seq<DerivationInfo>): (r: Result<PropertyStore>)
    ensures r.Failure? ==> r.error.DerivationNotFound? || r.error.ArityMismatch? || r.error.PropertyNotFound?
    ensures Lookup(dm, t.uniqBsid).None? ==> r == Failure(DerivationNotFound(t.uniqBsid))
    ensures r.Success? ==> Extends(prev, r.value) && TransformHasProperties(r.value, dm, t)
    ensures r.Success? ==> TransformAdded(prev, Lookup(dm, t.uniqBsid).value, t, r.value)
  {
    var d :- DerivationAt(dm, t.uniqBsid);
    var added := AddProperty(prev, Transform(t.property));
    var s2 := AssociateAll(added.0, d.itemIds, added.1);
    var r :- LinkIspeProperties(s2, d.referenceItemIds, d.itemIds);
    TransformStep(prev, dm, t, d, s2, r);
    Success(r)
  }

  /** The properties of every irot, rloc and clap entry, in configuration order. */
  function TransformProperties(s: PropertyStore, ts: seq<TransformConfig>, dm: seq<DerivationInfo>): (r: Result<PropertyStore>)
    ensures r.Failure? ==> r.error.DerivationNotFound? || r.error.ArityMismatch? || r.error.PropertyNotFound?
    ensures r.Success? ==> Extends(s, r.value)
    ensures r.Success? ==> forall j :: 0 <= j < |ts| ==> TransformHasProperties(r.value, dm, ts[j])
    ensures r.Success? ==> r.value.properties == s.properties + TransformList(ts) && AddsOnlyFor(s, r.value, ItemsOf(dm))
  {
    if |ts| == 0 then
      assert Extends(s, s);
      Success(s)
    else
      var init := ts[..|ts| - 1];
      var prev :- TransformProperties(s, init, dm);
      var t := ts[|ts| - 1];
      var r :- TransformOne(prev, t, dm);
      ExtendsTrans(s, prev, r);
      TransformsGrow(prev, r, dm, init, ts);
      TransformsConfined(s, prev, r, dm, init, ts);
      Success(r)
  }

  /** Two runs of associations, each for the listed items in order, are confined to
      any set that holds those items. */
  lemma TwiceAppendedFor(s: PropertyStore, r: PropertyStore, items: seq<nat>, ids: set<nat>)
    requires |r.associations| == |s.associations| + 2 * |items|
    requires forall k :: 0 <= k < |items| ==> r.associations[|s.associations| + k].itemId == items[k]
    requires forall k :: 0 <= k < |items| ==> r.associations[|s.associations| + |items| + k].itemId == items[k]
    requires forall k :: 0 <= k < |items| ==> items[k] in ids
    ensures AddsOnlyFor(s, r, ids)
  {
    var b := |s.associations|;
    var n := |items|;
    forall j | b <= j < |r.associations|
      ensures r.associations[j].itemId in ids
    {
      if j < b + n {
        assert r.associations[b + (j - b)].itemId == items[j - b];
      } else {
        assert r.associations[b + n + (j - b - n)].itemId == items[j - b - n];
      }
    }
  }

  /** A transform's additions are all for items of its derivation `d`, so for any
      set `ids` that holds them. */
  lemma TransformAddsOnlyFor(prev: PropertyStore, r: PropertyStore, d: DerivationInfo, t: TransformConfig, ids: set<nat>)
    requires TransformAdded(prev, d, t, r)
    requires forall a :: 0 <= a < |d.itemIds| ==> d.itemIds[a] in ids
    ensures AddsOnlyFor(prev, r, ids)
  {
    var n := |d.itemIds|;
    var b := |prev.associations|;
    assert forall k :: 0 <= k < n ==> r.associations[b + k].itemId == d.itemIds[k];
    forall k | 0 <= k < n
      ensures r.associations[b + n + k].itemId == d.itemIds[k]
    {
      assert IsIspeOf(r, r.associations[b + n + k], d.itemIds[k]);
    }
    TwiceAppendedFor(prev, r, d.itemIds, ids);
  }

  /** One more transform adds its property to the property list and associations
      only for items of the map. */
  lemma TransformsConfined(s: PropertyStore, prev: PropertyStore, r: PropertyStore, dm: seq<DerivationInfo>,
                           init: seq<TransformConfig>, ts: seq<TransformConfig>)
    requires |ts| > 0 && init == ts[..|ts| - 1]
    requires prev.properties == s.properties + TransformList(init) && AddsOnlyFor(s, prev, ItemsOf(dm))
    requires Extends(prev, r)
    requires Lookup(dm, ts[|ts| - 1].uniqBsid).Some?
    requires TransformAdded(prev, Lookup(dm, ts[|ts| - 1].uniqBsid).value, ts[|ts| - 1], r)
    ensures r.properties == s.properties + TransformList(ts) && AddsOnlyFor(s, r, ItemsOf(dm))
  {
    var t := ts[|ts| - 1];
    assert TransformList(ts) == TransformList(init) + [Transform(t.property)];
    var d := Lookup(dm, t.uniqBsid).value;
    ItemsOfEntry(dm, d);
    TransformAddsOnlyFor(prev, r, d, t, ItemsOf(dm));
    AddsOnlyForTrans(s, prev, r, ItemsOf(dm));
  }

  /** Appending one more transform's properties keeps those of the earlier ones. */
  lemma TransformsGrow(prev: PropertyStore, r: PropertyStore, dm: seq<DerivationInfo>, init: seq<TransformConfig>,
                       ts: seq<TransformConfig>)
    requires |ts| > 0 && init == ts[..|ts| - 1]
    requires Extends(prev, r)
    requires forall j :: 0 <= j < |init| ==> TransformHasProperties(prev, dm, init[j])
    requires TransformHasProperties(r, dm, ts[|ts| - 1])
    ensures forall j :: 0 <= j < |ts| ==> TransformHasProperties(r, dm, ts[j])
  {
    var t := ts[|ts| - 1];
    forall j | 0 <= j < |ts|
      ensures TransformHasProperties(r, dm, ts[j])
    {
      if j < |init| {
        assert ts[j] == init[j];
        ExtendsKeepsTransform(prev, r, dm, init[j]);
      } else {
        assert ts[j] == t;
      }
    }
  }

  /** iprpWrite: the 'ispe' of every grid and overlay, then the properties of every
      identity derivation; the properties and associations already present stay,
      exactly one property is added per configured entry, and every association
      added is for an item of the map. */
  function IprpWrite(s: PropertyStore, c: DerivedConfig, dm: seq<DerivationInfo>): (r: Result<PropertyStore>)
    ensures r.Success? ==> Extends(s, r.value)
    ensures r.Success? ==> forall j :: 0 <= j < |c.grids + c.overlays| ==> CompositeHasIspe(r.value, dm, (c.grids + c.overlays)[j])
    ensures r.Success? ==> forall j :: 0 <= j < |c.transforms| ==> TransformHasProperties(r.value, dm, c.transforms[j])
    ensures r.Success? ==> r.value.properties == s.properties + IspeList(c.grids + c.overlays) + TransformList(c.transforms)
    ensures r.Success? ==> AddsOnlyFor(s, r.value, ItemsOf(dm))
    ensures (exists j :: 0 <= j < |c.grids + c.overlays| && Lookup(dm, (c.grids + c.overlays)[j].uniqBsid).None?) ==>
              r.Failure? && r.error.DerivationNotFound?
    ensures (exists j :: 0 <= j < |c.transforms| && Lookup(dm, c.transforms[j].uniqBsid).None?) ==> r.Failure?
    ensures r.Failure? ==> r.error.DerivationNotFound? || r.error.ArityMismatch? || r.error.PropertyNotFound?
  {
    var s1 :- CompositeProperties(s, c.grids + c.overlays, dm);
    var r :- TransformProperties(s1, c.transforms, dm);
    ExtendsTrans(s, s1, r);
    AddsOnlyForTrans(s, s1, r, ItemsOf(dm));
    forall j | 0 <= j < |c.grids + c.overlays|
      ensures CompositeHasIspe(r, dm, (c.grids + c.overlays)[j])
    {
      ExtendsKeepsComposite(s1, r, dm, (c.grids + c.overlays)[j]);
    }
    Success(r)
  }

  // ---------------------------------------------------------------- write

  /** What write(metaBox) leaves behind: the MetaBox, the media data, the next free
      item ID, the derivation map, the reference-to-item-ID map and the locations
      of the 'grid' and 'iovl' items. */
  datatype Written = Written(
    meta: MetaBox,
    mdat: seq<Byte>,
    nextId: nat,
    derivations: seq<DerivationInfo>,
    referenceMap: ReferenceToItemIdMap,
    locations: seq<PendingLocation>)

  /** `dm` is `dm0` with only the referenceItemIds of each entry filled in. */
  predicate ResolvedFrom(dm0: seq<DerivationInfo>, dm: seq<DerivationInfo>) {
    |dm| == |dm0| && forall i :: 0 <= i < |dm| ==> dm[i].(referenceItemIds := dm0[i].referenceItemIds) == dm0[i]
  }

  /** addItemIdReferences only fills in referenceItemIds, so the map keeps its keys
      and their order. */
  lemma ResolvedKeepsKeys(dm0: seq<DerivationInfo>, dm: seq<DerivationInfo>)
    requires KeysAscending(dm0)
    requires ResolvedFrom(dm0, dm)
    ensures KeysAscending(dm)
    ensures Keys(dm) == Keys(dm0)
    ensures forall i :: 0 <= i < |dm| ==> dm[i].uniqBsid == dm0[i].uniqBsid && dm[i].itemIds == dm0[i].itemIds
  {
    assert forall i :: 0 <= i < |dm| ==> dm[i].uniqBsid == dm0[i].uniqBsid && dm[i].itemIds == dm0[i].itemIds;
  }

  /** Filling in referenceItemIds keeps the item IDs, so they stay distinct. */
  lemma ResolvedKeepsItems(dm0: seq<DerivationInfo>, dm: seq<DerivationInfo>, lo: nat, hi: nat)
    requires ResolvedFrom(dm0, dm) && ItemsDistinctIn(dm0, lo, hi)
    ensures ItemsDistinctIn(dm, lo, hi)
  {
    assert forall i :: 0 <= i < |dm| ==> dm[i].itemIds == dm0[i].itemIds;
  }

  /** The derivation map of a configuration and the reference-to-item-ID map it is
      resolved against, before anything is written to the MetaBox. */
  datatype Prepared = Prepared(
    derivations: seq<DerivationInfo>,
    referenceMap: ReferenceToItemIdMap,
    other: CompositeResult)

  /** The grids and overlays of `o` were allocated after `nextId`: one location
      each, with an item ID in [nextId, o.nextId), and their descriptors laid out
      after the existing media data, which is kept as a prefix. */
  predicate CompositesPlaced(c: DerivedConfig, mdat: seq<Byte>, nextId: nat, o: CompositeResult) {
    && nextId + |c.grids| + |c.overlays| <= o.nextId
    && |o.locations| == |c.grids| + |c.overlays|
    && (forall k :: 0 <= k < |o.locations| ==> nextId <= o.locations[k].itemId < o.nextId)
    && |mdat| <= |o.mdat| && o.mdat[..|mdat|] == mdat
    && LaidOut(c.grids + c.overlays, o.locations, o.mdat, |mdat|)
  }

  /** Grids and overlays allocated from any `start` at or after `nextId` are placed
      as CompositesPlaced says. */
  lemma LocationsAllocated(c: DerivedConfig, start: nat, mdat: seq<Byte>, nextId: nat)
    requires nextId <= start
    ensures CompositesPlaced(c, mdat, nextId, ProcessOtherDerivations(c, start, mdat))
  {
    var other := ProcessOtherDerivations(c, start, mdat);
    forall k | 0 <= k < |other.locations|
      ensures nextId <= other.locations[k].itemId < other.nextId
    {
      assert other.derivations[k].itemIds[0] == other.locations[k].itemId;
    }
  }

  /** Every configured identity derivation, grid and overlay has an entry in the map
      built from the allocated derivations. */
  lemma MapCoversConfig(c: DerivedConfig, iden: seq<DerivationInfo>, other: seq<DerivationInfo>)
    requires |iden| == |c.transforms| && forall j :: 0 <= j < |c.transforms| ==> IdenOf(c.transforms[j], iden[j])
    requires |other| == |c.grids + c.overlays| && forall j :: 0 <= j < |other| ==> other[j].uniqBsid == (c.grids + c.overlays)[j].uniqBsid
    ensures CoversConfig(c, Keys(ToMap(iden + other)))
  {
    var ds := iden + other;
    var keys := Keys(ToMap(ds));
    forall j | 0 <= j < |c.transforms|
      ensures c.transforms[j].uniqBsid in keys
    {
      assert ds[j].uniqBsid == c.transforms[j].uniqBsid;
      ToMapLookup(ds, c.transforms[j].uniqBsid);
    }
    forall j | 0 <= j < |c.grids + c.overlays|
      ensures (c.grids + c.overlays)[j].uniqBsid in keys
    {
      assert ds[|iden| + j].uniqBsid == (c.grids + c.overlays)[j].uniqBsid;
      ToMapLookup(ds, (c.grids + c.overlays)[j].uniqBsid);
    }
  }

  /** The resolved derivation map `dm` and the reference-to-item-ID map `m`: keys
      ascend, each key maps to its derivation's items, each derivation's references
      resolve to its referenceItemIds, and source contexts the map does not shadow
      keep their items. */
  predicate ResolvedAgainst(sources: ReferenceToItemIdMap, dm: seq<DerivationInfo>, m: ReferenceToItemIdMap) {
    && KeysAscending(dm)
    && (forall i :: 0 <= i < |dm| ==>
          && dm[i].uniqBsid in m
          && m[dm[i].uniqBsid] == dm[i].itemIds
          && Resolve(m, dm[i].refsList, dm[i].indexList) == Success(dm[i].referenceItemIds))
    && (forall ctx :: ctx in sources && ctx !in Keys(dm) ==> ctx in m && m[ctx] == sources[ctx])
  }

  /** Every configured identity derivation, grid and overlay has its uniq_bsid among `keys`. */
  predicate CoversConfig(c: DerivedConfig, keys: set<nat>) {
    && (forall j :: 0 <= j < |c.transforms| ==> c.transforms[j].uniqBsid in keys)
    && (forall j :: 0 <= j < |c.grids + c.overlays| ==> (c.grids + c.overlays)[j].uniqBsid in keys)
  }

  /** Resolves the references of every derivation against the map built from the
      source images and the derivation map itself. */
  function ResolveAll(sources: ReferenceToItemIdMap, dm0: seq<DerivationInfo>)
    : (r: Result<(seq<DerivationInfo>, ReferenceToItemIdMap)>)
    requires KeysAscending(dm0)
    ensures r.Success? <==> forall i :: 0 <= i < |dm0| ==>
              Resolve(CreateReferenceToItemIdMap(sources, dm0), dm0[i].refsList, dm0[i].indexList).Success?
    ensures r.Success? ==> r.value.1 == CreateReferenceToItemIdMap(sources, dm0)
    ensures r.Success? ==> Keys(r.value.0) == Keys(dm0) && ResolvedAgainst(sources, r.value.0, r.value.1)
    ensures r.Success? ==> ResolvedFrom(dm0, r.value.0)
    ensures r.Failure? ==> exists i ::
              && 0 <= i < |dm0|
              && Resolve(CreateReferenceToItemIdMap(sources, dm0), dm0[i].refsList, dm0[i].indexList) == Failure(r.error)
    ensures r.Failure? ==> r.error.UnresolvedReference? || r.error.ArityMismatch?
  {
    var m := CreateReferenceToItemIdMap(sources, dm0);
    var dm :- AddItemIdReferences(dm0, m);
    ResolvedMap(sources, dm0, m, dm);
    Success((dm, m))
  }

  /** After resolution, each derivation's key maps to its own items and its
      references resolve to its referenceItemIds; source contexts the map does not
      shadow keep their items. */
  lemma ResolvedMap(sources: ReferenceToItemIdMap, dm0: seq<DerivationInfo>, m: ReferenceToItemIdMap,
                    dm: seq<DerivationInfo>)
    requires KeysAscending(dm0)
    requires m == CreateReferenceToItemIdMap(sources, dm0)
    requires AddItemIdReferences(dm0, m) == Success(dm)
    ensures Keys(dm) == Keys(dm0)
    ensures ResolvedAgainst(sources, dm, m)
  {
    ResolvedKeepsKeys(dm0, dm);
    forall i | 0 <= i < |dm|
      ensures && dm[i].uniqBsid in m
              && m[dm[i].uniqBsid] == dm[i].itemIds
              && Resolve(m, dm[i].refsList, dm[i].indexList) == Success(dm[i].referenceItemIds)
    {
      assert dm[i].(referenceItemIds := dm0[i].referenceItemIds) == dm0[i];
      assert dm[i].refsList == dm0[i].refsList && dm[i].indexList == dm0[i].indexList;
      assert dm0[i].uniqBsid in Keys(dm0);
    }
  }

  /** The map built from the identity derivations and the composites holds every
      configured entry. */
  lemma IdenCoversConfig(c: DerivedConfig, nextId: nat, mdat: seq<Byte>)
    ensures var iden := ProcessIdenDerivations(c.transforms, nextId);
            CoversConfig(c, Keys(ToMap(iden.0 + ProcessOtherDerivations(c, iden.1, mdat).derivations)))
  {
    var iden := ProcessIdenDerivations(c.transforms, nextId);
    var other := ProcessOtherDerivations(c, iden.1, mdat);
    MapCoversConfig(c, iden.0, other.derivations);
  }

  /** The derivation map before resolution and the grid and overlay allocation. */
  datatype Allocated = Allocated(derivations: seq<DerivationInfo>, other: CompositeResult)

  /** Allocates the identity derivations, then the grids and overlays (their
      descriptors go to the media data), and builds the derivation map. */
  function Allocate(c: DerivedConfig, mdat: seq<Byte>, nextId: nat): (r: Allocated)
    ensures KeysAscending(r.derivations)
    ensures CoversConfig(c, Keys(r.derivations))
    ensures r.other == ProcessOtherDerivations(c, ProcessIdenDerivations(c.transforms, nextId).1, mdat)
    ensures forall key :: Lookup(r.derivations, key) ==
              LastWithKey(ProcessIdenDerivations(c.transforms, nextId).0 + r.other.derivations, key)
    ensures forall i :: 0 <= i < |r.derivations| ==>
              r.derivations[i] in ProcessIdenDerivations(c.transforms, nextId).0 + r.other.derivations
    ensures ItemsDistinctIn(r.derivations, nextId, r.other.nextId)
    ensures CompositesPlaced(c, mdat, nextId, r.other)
  {
    var iden := ProcessIdenDerivations(c.transforms, nextId);
    var other := ProcessOtherDerivations(c, iden.1, mdat);
    var ds := iden.0 + other.derivations;
    var dm0 := ToMap(ds);
    LocationsAllocated(c, iden.1, mdat, nextId);
    IdenCoversConfig(c, nextId, mdat);
    AllocatedJoin(iden.0, other.derivations, nextId, iden.1, other.nextId);
    ToMapAllocated(ds, nextId, other.nextId);
    forall key
      ensures Lookup(dm0, key) == LastWithKey(ds, key)
    {
      ToMapLookup(ds, key);
    }
    Allocated(dm0, other)
  }

  /** Some derivation Allocate produces has a reference that does not resolve
      against the map built from the sources and the derivation map. */
  predicate ResolutionMiss(c: DerivedConfig, sources: ReferenceToItemIdMap, mdat: seq<Byte>, nextId: nat) {
    var a := Allocate(c, mdat, nextId);
    exists i :: 0 <= i < |a.derivations| &&
      !Resolve(CreateReferenceToItemIdMap(sources, a.derivations), a.derivations[i].refsList, a.derivations[i].indexList).Success?
  }

  /** The first half of write(metaBox): allocates, then builds the
      reference-to-item-ID map over the supplied source images and the derivation
      map, and resolves every derivation's references. */
  function Prepare(c: DerivedConfig, sources: ReferenceToItemIdMap, mdat: seq<Byte>, nextId: nat): (r: Result<Prepared>)
    ensures r.Success? ==> ResolvedAgainst(sources, r.value.derivations, r.value.referenceMap)
    ensures r.Success? ==> CoversConfig(c, Keys(r.value.derivations))
    ensures r.Success? ==> r.value.other == Allocate(c, mdat, nextId).other
    ensures r.Success? ==> ResolvedFrom(Allocate(c, mdat, nextId).derivations, r.value.derivations)
    ensures r.Success? ==> ItemsDistinctIn(r.value.derivations, nextId, r.value.other.nextId)
    ensures var a := Allocate(c, mdat, nextId);
            r.Success? <==> forall i :: 0 <= i < |a.derivations| ==>
              Resolve(CreateReferenceToItemIdMap(sources, a.derivations), a.derivations[i].refsList, a.derivations[i].indexList).Success?
    ensures r.Failure? ==> r.error.UnresolvedReference? || r.error.ArityMismatch?
    ensures r.Failure? <==> ResolutionMiss(c, sources, mdat, nextId)
  {
    var a := Allocate(c, mdat, nextId);
    var resolved :- ResolveAll(sources, a.derivations);
    ResolvedKeepsItems(a.derivations, resolved.0, nextId, a.other.nextId);
    Success(Prepared(resolved.0, resolved.1, a.other))
  }

  /** What iinfWrite adds: one entry per generated item, placed as InfosPlaced says,
      after the unchanged earlier entries. */
  predicate IinfAdded(infos: seq<ItemInfo>, dm: seq<DerivationInfo>, r: seq<ItemInfo>) {
    && |r| == |infos| + TotalIds(dm)
    && r[..|infos|] == infos
    && InfosPlaced(infos, dm, r)
  }

  /** What irefWrite adds: after the unchanged earlier references, every 'base'
      reference of the pre-derived images and every derivation's 'dimg' references,
      and nothing that none of those insertions produced. */
  predicate IrefAdded(refs: seq<Reference>, dm: seq<DerivationInfo>, pre: seq<PreDerivedConfig>,
                      m: ReferenceToItemIdMap, r: seq<Reference>) {
    && |refs| <= |r|
    && r[..|refs|] == refs
    && (forall j :: 0 <= j < |pre| ==> InsertBaseReferences(m, pre[j]).Success?)
    && (forall i :: 0 <= i < |dm| ==> InsertDimgReferences(dm[i]).Success?)
    && (forall j, k :: 0 <= j < |pre| && InsertBaseReferences(m, pre[j]).Success?
                       && 0 <= k < |InsertBaseReferences(m, pre[j]).value| ==>
          InsertBaseReferences(m, pre[j]).value[k] in r[|refs|..])
    && (forall i, k :: 0 <= i < |dm| && InsertDimgReferences(dm[i]).Success?
                       && 0 <= k < |InsertDimgReferences(dm[i]).value| ==>
          InsertDimgReferences(dm[i]).value[k] in r[|refs|..])
    && (forall x :: x in r[|refs|..] ==>
          || (exists j :: 0 <= j < |pre| && InsertBaseReferences(m, pre[j]).Success?
                          && x in InsertBaseReferences(m, pre[j]).value)
          || (exists i :: 0 <= i < |dm| && InsertDimgReferences(dm[i]).Success?
                          && x in InsertDimgReferences(dm[i]).value))
  }

  /** What iprpWrite adds: the store only grows, by one property per configured
      entry and by associations for items of the map only; every grid and overlay
      item has its 'ispe', every identity item its transformative property and an
      'ispe'. */
  predicate IprpAdded(s: PropertyStore, c: DerivedConfig, dm: seq<DerivationInfo>, r: PropertyStore) {
    && Extends(s, r)
    && r.properties == s.properties + IspeList(c.grids + c.overlays) + TransformList(c.transforms)
    && AddsOnlyFor(s, r, ItemsOf(dm))
    && (forall j :: 0 <= j < |c.grids + c.overlays| ==> CompositeHasIspe(r, dm, (c.grids + c.overlays)[j]))
    && (forall j :: 0 <= j < |c.transforms| ==> TransformHasProperties(r, dm, c.transforms[j]))
  }

  /** The second half of write(metaBox): 'iinf', 'iloc', 'iref' and 'iprp', each
      keeping what the box held and adding the derived items' entries. */
  function Emit(mb: MetaBox, c: DerivedConfig, p: Prepared): (r: Result<MetaBox>)
    ensures r.Success? <==> && FreshLocations(mb.iloc, p.other.locations)
                            && IrefWrite(mb.references, p.derivations, c.preDerived, p.referenceMap).Success?
                            && IprpWrite(mb.iprp, c, p.derivations).Success?
    ensures r.Success? ==> IinfAdded(mb.infos, p.derivations, r.value.infos)
    ensures r.Success? ==> IlocAdded(mb.iloc, p.other.locations, r.value.iloc)
    ensures r.Success? ==> IrefAdded(mb.references, p.derivations, c.preDerived, p.referenceMap, r.value.references)
    ensures r.Success? ==> IprpAdded(mb.iprp, c, p.derivations, r.value.iprp)
  {
    var infos := IinfWrite(mb.infos, p.derivations);
    var iloc :- IlocWrite(mb.iloc, p.other.locations);
    var refs :- IrefWrite(mb.references, p.derivations, c.preDerived, p.referenceMap);
    var iprp :- IprpWrite(mb.iprp, c, p.derivations);
    Success(MetaBox(iloc, infos, refs, iprp))
  }

  /** The 'iloc' entries after `before` are one per composite, each a file-offset
      item with a single extent that covers the composite's descriptor in `mdat`. */
  predicate EntriesLocate(before: seq<Iloc.ItemLocation>, entries: seq<Iloc.ItemLocation>, cs: seq<CompositeConfig>,
                          locs: seq<PendingLocation>, mdat: seq<Byte>)
  {
    && |locs| == |cs| && |entries| == |before| + |cs|
    && forall k :: 0 <= k < |cs| ==>
         var e := entries[|before| + k];
         && e.itemId == locs[k].itemId % 0x1_0000
         && e.construction == Iloc.FileOffset && |e.extents| == 1
         && e.extents[0].offset + e.extents[0].length <= |mdat|
         && mdat[e.extents[0].offset .. e.extents[0].offset + e.extents[0].length] == cs[k].descriptor
  }

  /** The 'iloc' entries added for the composites point at their descriptors in the
      media data, as long as every offset fits the 32-bit fields. */
  lemma CompositesLocated(before: seq<Iloc.ItemLocation>, entries: seq<Iloc.ItemLocation>, cs: seq<CompositeConfig>,
                          locs: seq<PendingLocation>, mdat: seq<Byte>, from: nat)
    requires |locs| == |cs| && |entries| == |before| + |locs|
    requires forall k :: 0 <= k < |locs| ==> entries[|before| + k] == LocationEntry(locs[k])
    requires LaidOut(cs, locs, mdat, from)
    ensures |mdat| < U32 ==> EntriesLocate(before, entries, cs, locs, mdat)
  {
    if |mdat| < U32 {
      forall k | 0 <= k < |cs|
        ensures var e := entries[|before| + k];
                && e.itemId == locs[k].itemId % 0x1_0000
                && e.construction == Iloc.FileOffset && |e.extents| == 1
                && e.extents[0].offset + e.extents[0].length <= |mdat|
                && mdat[e.extents[0].offset .. e.extents[0].offset + e.extents[0].length] == cs[k].descriptor
      {
        var e := LocationEntry(locs[k]);
        assert entries[|before| + k] == e && DescriptorAt(cs[k], locs[k], mdat, from);
        assert e.extents[0].offset == locs[k].offset && e.extents[0].length == locs[k].length;
      }
    }
  }

  /** write(metaBox): prepares the derivations, then writes them to the MetaBox.
      On success 'iinf', 'iloc', 'iref' and 'iprp' keep what they held and gain the
      derived items' entries; the derivation map covers the configuration, holds
      fresh and distinct item IDs and is resolved against the source images; and
      the new 'iloc' entries point at the grid and overlay descriptors appended to
      the media data. */
  function Write(mb: MetaBox, c: DerivedConfig, sources: ReferenceToItemIdMap, mdat: seq<Byte>, nextId: nat)
    : (r: Result<Written>)
    ensures r.Success? <==> Prepare(c, sources, mdat, nextId).Success?
                            && Emit(mb, c, Prepare(c, sources, mdat, nextId).value).Success?
    ensures ResolutionMiss(c, sources, mdat, nextId) ==> r.Failure? && (r.error.UnresolvedReference? || r.error.ArityMismatch?)
    ensures r.Success? ==>
              var p := Prepare(c, sources, mdat, nextId).value;
              && r.value.meta == Emit(mb, c, p).value
              && r.value.derivations == p.derivations && r.value.referenceMap == p.referenceMap
              && r.value.mdat == p.other.mdat && r.value.nextId == p.other.nextId && r.value.locations == p.other.locations
    ensures r.Success? ==>
              var w := r.value;
              && IinfAdded(mb.infos, w.derivations, w.meta.infos)
              && IlocAdded(mb.iloc, w.locations, w.meta.iloc)
              && IrefAdded(mb.references, w.derivations, c.preDerived, w.referenceMap, w.meta.references)
              && IprpAdded(mb.iprp, c, w.derivations, w.meta.iprp)
    ensures r.Success? ==>
              var w := r.value;
              && ResolvedAgainst(sources, w.derivations, w.referenceMap)
              && CoversConfig(c, Keys(w.derivations))
              && ItemsDistinctIn(w.derivations, nextId, w.nextId)
    ensures r.Success? ==>
              var w := r.value;
              && CompositesPlaced(c, mdat, nextId, CompositeResult([], w.locations, w.mdat, w.nextId))
              && (|w.mdat| < U32 ==> EntriesLocate(mb.iloc.entries, w.meta.iloc.entries, c.grids + c.overlays, w.locations, w.mdat))
  {
    var p :- Prepare(c, sources, mdat, nextId);
    var meta :- Emit(mb, c, p);
    var w := Written(meta, p.other.mdat, p.other.nextId, p.derivations, p.referenceMap, p.other.locations);
    assert p.other == Allocate(c, mdat, nextId).other;
    PlacedLocated(c, mdat, nextId, p.other, mb.iloc, meta.iloc);
    Success(w)
  }

  /** Composites placed after the existing media data and entered into 'iloc' after
      its earlier entries are located by those new entries. */
  lemma PlacedLocated(c: DerivedConfig, mdat: seq<Byte>, nextId: nat, o: CompositeResult, b: Iloc.IlocBox,
                      r: Iloc.IlocBox)
    requires CompositesPlaced(c, mdat, nextId, o)
    requires IlocAdded(b, o.locations, r)
    ensures |o.mdat| < U32 ==> EntriesLocate(b.entries, r.entries, c.grids + c.overlays, o.locations, o.mdat)
  {
    CompositesLocated(b.entries, r.entries, c.grids + c.overlays, o.locations, o.mdat, |mdat|);
  }

  /** ilocWrite accepts the locations of freshly allocated grids and overlays when
      their item IDs start above every ID already in 'iloc' and stay within 16 bits. */
  lemma FreshAllocationIsAccepted(b: Iloc.IlocBox, c: DerivedConfig, start: nat, mdat: seq<Byte>)
    requires forall i :: 0 <= i < |b.entries| ==> b.entries[i].itemId < start
    requires start + |c.grids| + |c.overlays| <= 0x1_0000
    ensures FreshLocations(b, ProcessOtherDerivations(c, start, mdat).locations)
  {
    var o := ProcessOtherDerivations(c, start, mdat);
    var locs := o.locations;
    forall k | 0 <= k < |locs|
      ensures start <= locs[k].itemId < 0x1_0000 && locs[k].itemId % 0x1_0000 == locs[k].itemId
    {
      assert o.derivations[k].itemIds[0] == locs[k].itemId;
    }
    forall j, k | 0 <= j < k < |locs|
      ensures locs[j].itemId % 0x1_0000 != locs[k].itemId % 0x1_0000
    {
      assert o.derivations[j].itemIds[0] < o.derivations[k].itemIds[0];
    }
  }
}
