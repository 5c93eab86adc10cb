/** The allocation passes of MetaDerivedImageWriter: identity derivations and
    grid/overlay derivations get their item IDs from a running counter, composite
    descriptors are appended to the media data, and the derivations are entered
    into the uniq_bsid-keyed derivation map. */
module Allocation {
  import opened Wrappers
  import opened Bytes
  import opened Derivation
  import MetaBoxModel

  /** An irot, rloc or clap entry of the configuration: the derived image's
      uniq_bsid, the images it transforms, and which property it carries. */
  datatype TransformConfig = TransformConfig(
    uniqBsid: nat,
    refsList: seq<nat>,
    idxsList: seq<seq<nat>>,
    property: MetaBoxModel.TransformKind)

  /** A grid or iovl entry: its uniq_bsid, its member images in order, its output
      size and its already serialised descriptor. */
  datatype CompositeConfig = CompositeConfig(
    uniqBsid: nat,
    refsList: seq<nat>,
    idxsList: seq<seq<nat>>,
    outputWidth: nat,
    outputHeight: nat,
    descriptor: seq<Byte>)

  /** A pre-derived image entry: the pre-derived images and their base images. */
  datatype PreDerivedConfig = PreDerivedConfig(
    preRefsList: seq<nat>,
    preIdxsList: seq<seq<nat>>,
    baseRefsList: seq<nat>,
    baseIdxsList: seq<seq<nat>>)

  /** IsoMediaFile::Derived: `transforms` holds the irot, rloc and clap entries in
      that order. */
  datatype DerivedConfig = DerivedConfig(
    transforms: seq<TransformConfig>,
    grids: seq<CompositeConfig>,
    overlays: seq<CompositeConfig>,
    preDerived: seq<PreDerivedConfig>)

  /** ItemLocation of the writer: where a composite's descriptor went in the media
      data and which item it belongs to. Offset and length are `unsigned int`. */
  datatype PendingLocation = PendingLocation(offset: uint32, length: uint32, itemId: nat)

  const U32: nat := 0x1_0000_0000

  /** `n` consecutive item IDs starting at `start`. */
  function IdRange(start: nat, n: nat): (r: seq<nat>)
    ensures |r| == n
    ensures forall k :: 0 <= k < n ==> r[k] == start + k
  {
    seq(n, k requires 0 <= k < n => start + k)
  }

  /** The number of item IDs carried by a list of derivations. */
  function TotalIds(ds: seq<DerivationInfo>): nat {
    if |ds| == 0 then 0 else TotalIds(ds[..|ds| - 1]) + |ds[|ds| - 1].itemIds|
  }

  /** Every item ID the derivations carry lies in [lo, hi), and the IDs strictly
      increase in allocation order (hence no ID is handed out twice). */
  predicate AllocatedIn(ds: seq<DerivationInfo>, lo: nat, hi: nat) {
    (forall i, a :: 0 <= i < |ds| && 0 <= a < |ds[i].itemIds| ==> lo <= ds[i].itemIds[a] < hi)
    && (forall i, a, b :: 0 <= i < |ds| && 0 <= a < b < |ds[i].itemIds| ==> ds[i].itemIds[a] < ds[i].itemIds[b])
    && (forall i, j, a, b :: 0 <= i < j < |ds| && 0 <= a < |ds[i].itemIds| && 0 <= b < |ds[j].itemIds| ==>
          ds[i].itemIds[a] < ds[j].itemIds[b])
  }

  /** Two allocations from adjacent ranges form one allocation over the joint range. */
  lemma AllocatedJoin(d1: seq<DerivationInfo>, d2: seq<DerivationInfo>, lo: nat, mid: nat, hi: nat)
    requires AllocatedIn(d1, lo, mid) && AllocatedIn(d2, mid, hi)
    requires lo <= mid <= hi
    ensures AllocatedIn(d1 + d2, lo, hi)
  {
    var ds := d1 + d2;
    forall i, a | 0 <= i < |ds| && 0 <= a < |ds[i].itemIds|
      ensures lo <= ds[i].itemIds[a] < hi
    {
      if i < |d1| { assert ds[i] == d1[i]; } else { assert ds[i] == d2[i - |d1|]; }
    }
    forall i, a, b | 0 <= i < |ds| && 0 <= a < b < |ds[i].itemIds|
      ensures ds[i].itemIds[a] < ds[i].itemIds[b]
    {
      if i < |d1| { assert ds[i] == d1[i]; } else { assert ds[i] == d2[i - |d1|]; }
    }
    forall i, j, a, b | 0 <= i < j < |ds| && 0 <= a < |ds[i].itemIds| && 0 <= b < |ds[j].itemIds|
      ensures ds[i].itemIds[a] < ds[j].itemIds[b]
    {
      if j < |d1| {
        assert ds[i] == d1[i] && ds[j] == d1[j];
      } else if i < |d1| {
        assert ds[i] == d1[i] && ds[j] == d2[j - |d1|];
      } else {
        assert ds[i] == d2[i - |d1|] && ds[j] == d2[j - |d1|];
      }
    }
  }

  /** A derivation carrying the `n` consecutive IDs from `lo` is an allocation over
      [lo, lo + n). */
  lemma RangeAllocated(d: DerivationInfo, lo: nat, n: nat)
    requires d.itemIds == IdRange(lo, n)
    ensures AllocatedIn([d], lo, lo + n)
  {
    assert [d][0] == d;
  }

  /** `d` is the 'iden' derivation of entry `t`: same key and references, one item
      per referenced image, nothing resolved yet. */
  predicate IdenOf(t: TransformConfig, d: DerivationInfo) {
    && d.uniqBsid == t.uniqBsid
    && d.refsList == t.refsList
    && d.indexList == t.idxsList
    && d.referenceItemIds == []
    && d.kind == Identity
    && |d.itemIds| == IndexCount(t.idxsList)
  }

  /** processIdenDerivations: each irot/rloc/clap entry becomes an 'iden'
      derivation with one new item per image it references, numbered on from
      `nextId`; returns the derivations in configuration order and the next free ID. */
  function ProcessIdenDerivations(ts: seq<TransformConfig>, nextId: nat): (r: (seq<DerivationInfo>, nat))
    ensures |r.0| == |ts|
    ensures forall k :: 0 <= k < |ts| ==> IdenOf(ts[k], r.0[k])
    ensures AllocatedIn(r.0, nextId, r.1)
    ensures r.1 == nextId + TotalIds(r.0)
  {
    if |ts| == 0 then ([], nextId)
    else
      var init := ts[..|ts| - 1];
      var prev := ProcessIdenDerivations(init, nextId);
      var t := ts[|ts| - 1];
      var n := IndexCount(t.idxsList);
      var d := DerivationInfo(t.uniqBsid, t.refsList, t.idxsList, IdRange(prev.1, n), [], Identity);
      var ds := prev.0 + [d];
      IdenStep(ts, init, nextId, prev.0, prev.1, d);
      (ds, prev.1 + n)
  }

  /** Appending the 'iden' derivation of the last entry to those of the others. */
  lemma IdenStep(ts: seq<TransformConfig>, init: seq<TransformConfig>, nextId: nat, prev: seq<DerivationInfo>,
                 id: nat, d: DerivationInfo)
    requires |ts| > 0 && init == ts[..|ts| - 1]
    requires |prev| == |init|
    requires forall k :: 0 <= k < |init| ==> IdenOf(init[k], prev[k])
    requires AllocatedIn(prev, nextId, id)
    requires id == nextId + TotalIds(prev)
    requires d == DerivationInfo(ts[|ts| - 1].uniqBsid, ts[|ts| - 1].refsList, ts[|ts| - 1].idxsList,
                                 IdRange(id, IndexCount(ts[|ts| - 1].idxsList)), [], Identity)
    ensures |prev + [d]| == |ts|
    ensures forall k :: 0 <= k < |ts| ==> IdenOf(ts[k], (prev + [d])[k])
    ensures AllocatedIn(prev + [d], nextId, id + IndexCount(ts[|ts| - 1].idxsList))
    ensures id + IndexCount(ts[|ts| - 1].idxsList) == nextId + TotalIds(prev + [d])
  {
    var n := IndexCount(ts[|ts| - 1].idxsList);
    var ds := prev + [d];
    assert ds[..|ds| - 1] == prev;
    forall k | 0 <= k < |ts|
      ensures IdenOf(ts[k], ds[k])
    {
      if k < |init| {
        assert ts[k] == init[k] && ds[k] == prev[k];
      }
    }
    RangeAllocated(d, id, n);
    AllocatedJoin(prev, [d], nextId, id, id + n);
  }

  /** The result of allocating composites: derivations, their pending locations,
      the media data and the next free item ID. */
  datatype CompositeResult = CompositeResult(
    derivations: seq<DerivationInfo>,
    locations: seq<PendingLocation>,
    mdat: seq<Byte>,
    nextId: nat)

  /** Descriptor `c` sits in `mdat` at the byte range `loc` gives, after the first
      `from` bytes. */
  predicate DescriptorAt(c: CompositeConfig, loc: PendingLocation, mdat: seq<Byte>, from: nat) {
    && from <= loc.offset
    && loc.offset + loc.length <= |mdat|
    && loc.length == |c.descriptor|
    && mdat[loc.offset .. loc.offset + loc.length] == c.descriptor
  }

  /** The descriptors of composites `cs` are laid out in `mdat` at the positions the
      locations give, one after another, after the first `from` bytes. */
  predicate LaidOut(cs: seq<CompositeConfig>, locs: seq<PendingLocation>, mdat: seq<Byte>, from: nat)
    requires |cs| == |locs|
  {
    |mdat| < U32 ==>
      && (forall k :: 0 <= k < |cs| ==> DescriptorAt(cs[k], locs[k], mdat, from))
      && (forall j, k :: 0 <= j < k < |cs| ==> locs[j].offset + locs[j].length <= locs[k].offset)
  }

  /** Appending to the media data leaves a placed descriptor where it was. */
  lemma DescriptorKept(c: CompositeConfig, loc: PendingLocation, m1: seq<Byte>, m2: seq<Byte>, from: nat)
    requires DescriptorAt(c, loc, m1, from)
    requires |m1| <= |m2| && m2[..|m1|] == m1
    ensures DescriptorAt(c, loc, m2, from)
  {
    assert m2[loc.offset .. loc.offset + loc.length] == m2[..|m1|][loc.offset .. loc.offset + loc.length];
  }

  /** A descriptor appended to the media data sits at the old end, as long as the
      offsets fit their 32 bits. */
  lemma DescriptorAppended(c: CompositeConfig, loc: PendingLocation, mdat: seq<Byte>, mdat2: seq<Byte>, from: nat)
    requires from <= |mdat| && mdat2 == mdat + c.descriptor && |mdat2| < U32
    requires loc.offset == |mdat| % U32 && loc.length == |c.descriptor| % U32
    ensures DescriptorAt(c, loc, mdat2, from) && loc.offset == |mdat|
  {
    assert loc.offset == |mdat| && loc.length == |c.descriptor|;
    assert mdat2[|mdat| ..] == c.descriptor;
  }

  /** `d` and `loc` are the derivation and pending location of composite `c`,
      allocated item `id`. */
  predicate AllocatedAs(c: CompositeConfig, kind: DerivedType, id: nat, d: DerivationInfo, loc: PendingLocation) {
    d == DerivationInfo(c.uniqBsid, c.refsList, c.idxsList, [id], [], kind) && loc.itemId == id
  }

  /** Allocation of one kind of composite (all grids, or all overlays): one new item
      per entry, its descriptor appended to the media data and its location recorded. */
  function AllocateComposites(cs: seq<CompositeConfig>, kind: DerivedType, nextId: nat, mdat: seq<Byte>): (r: CompositeResult)
    ensures |r.derivations| == |cs| && |r.locations| == |cs|
    ensures r.nextId == nextId + |cs|
    ensures forall k :: 0 <= k < |cs| ==> AllocatedAs(cs[k], kind, nextId + k, r.derivations[k], r.locations[k])
    ensures |mdat| <= |r.mdat| && r.mdat[..|mdat|] == mdat
    ensures LaidOut(cs, r.locations, r.mdat, |mdat|)
  {
    if |cs| == 0 then CompositeResult([], [], mdat, nextId)
    else
      var init := cs[..|cs| - 1];
      var prev := AllocateComposites(init, kind, nextId, mdat);
      var c := cs[|cs| - 1];
      var appended := MetaBoxModel.AppendData(prev.mdat, c.descriptor);
      var loc := PendingLocation(appended.1 % U32, appended.2 % U32, prev.nextId);
      var d := DerivationInfo(c.uniqBsid, c.refsList, c.idxsList, [prev.nextId], [], kind);
      var r := CompositeResult(prev.derivations + [d], prev.locations + [loc], appended.0, prev.nextId + 1);
      forall k | 0 <= k < |cs|
        ensures AllocatedAs(cs[k], kind, nextId + k, r.derivations[k], r.locations[k])
      {
        if k < |init| {
          assert cs[k] == init[k] && r.derivations[k] == prev.derivations[k] && r.locations[k] == prev.locations[k];
        } else {
          assert cs[k] == c && r.derivations[k] == d && r.locations[k] == loc;
        }
      }
      assert appended.0[..|mdat|] == prev.mdat[..|mdat|];
      LaidOutExtend(init, prev.locations, prev.mdat, |mdat|, c, loc, appended.0);
      assert init + [c] == cs;
      r
  }

  lemma LaidOutExtend(cs: seq<CompositeConfig>, locs: seq<PendingLocation>, mdat: seq<Byte>, from: nat,
                      c: CompositeConfig, loc: PendingLocation, mdat2: seq<Byte>)
    requires |cs| == |locs|
    requires LaidOut(cs, locs, mdat, from)
    requires from <= |mdat|
    requires mdat2 == mdat + c.descriptor
    requires loc.offset == |mdat| % U32 && loc.length == |c.descriptor| % U32
    ensures LaidOut(cs + [c], locs + [loc], mdat2, from)
  {
    if |mdat2| < U32 {
      var cs2 := cs + [c];
      var locs2 := locs + [loc];
      assert mdat2[..|mdat|] == mdat;
      DescriptorAppended(c, loc, mdat, mdat2, from);
      forall k | 0 <= k < |cs2|
        ensures DescriptorAt(cs2[k], locs2[k], mdat2, from)
      {
        if k < |cs| {
          assert cs2[k] == cs[k] && locs2[k] == locs[k];
          DescriptorKept(cs[k], locs[k], mdat, mdat2, from);
        } else {
          assert cs2[k] == c && locs2[k] == loc;
        }
      }
      forall j, k | 0 <= j < k < |cs2|
        ensures locs2[j].offset + locs2[j].length <= locs2[k].offset
      {
        assert locs2[j] == locs[j] && DescriptorAt(cs[j], locs[j], mdat, from);
        if k < |cs| {
          assert locs2[k] == locs[k];
        }
      }
    }
  }

  /** processOtherDerivations: all grids, then all overlays, each with one new item
      and one pending location whose byte range holds its descriptor. */
  function ProcessOtherDerivations(c: DerivedConfig, nextId: nat, mdat: seq<Byte>): (r: CompositeResult)
    ensures |r.derivations| == |c.grids| + |c.overlays| == |r.locations|
    ensures r.nextId == nextId + |c.grids| + |c.overlays|
    ensures forall k :: 0 <= k < |r.derivations| ==>
              && r.derivations[k].kind == (if k < |c.grids| then Grid else Overlay)
              && r.derivations[k].uniqBsid == (c.grids + c.overlays)[k].uniqBsid
              && r.derivations[k].refsList == (c.grids + c.overlays)[k].refsList
              && r.derivations[k].indexList == (c.grids + c.overlays)[k].idxsList
              && r.derivations[k].itemIds == [r.locations[k].itemId]
              && r.derivations[k].referenceItemIds == []
    ensures AllocatedIn(r.derivations, nextId, r.nextId)
    ensures |mdat| <= |r.mdat| && r.mdat[..|mdat|] == mdat
    ensures LaidOut(c.grids + c.overlays, r.locations, r.mdat, |mdat|)
  {
    var g := AllocateComposites(c.grids, Grid, nextId, mdat);
    var o := AllocateComposites(c.overlays, Overlay, g.nextId, g.mdat);
    OtherJoin(c, nextId, mdat, g, o);
    CompositeResult(g.derivations + o.derivations, g.locations + o.locations, o.mdat, o.nextId)
  }

  /** The grids' allocation followed by the overlays' is an allocation of both. */
  lemma OtherJoin(c: DerivedConfig, nextId: nat, mdat: seq<Byte>, g: CompositeResult, o: CompositeResult)
    requires |g.derivations| == |c.grids| && |g.locations| == |c.grids|
    requires g.nextId == nextId + |c.grids|
    requires forall k :: 0 <= k < |c.grids| ==>
               AllocatedAs(c.grids[k], Grid, nextId + k, g.derivations[k], g.locations[k])
    requires |mdat| <= |g.mdat| && g.mdat[..|mdat|] == mdat
    requires LaidOut(c.grids, g.locations, g.mdat, |mdat|)
    requires |o.derivations| == |c.overlays| && |o.locations| == |c.overlays|
    requires o.nextId == g.nextId + |c.overlays|
    requires forall k :: 0 <= k < |c.overlays| ==>
               AllocatedAs(c.overlays[k], Overlay, g.nextId + k, o.derivations[k], o.locations[k])
    requires |g.mdat| <= |o.mdat| && o.mdat[..|g.mdat|] == g.mdat
    requires LaidOut(c.overlays, o.locations, o.mdat, |g.mdat|)
    ensures var r := CompositeResult(g.derivations + o.derivations, g.locations + o.locations, o.mdat, o.nextId);
      && |r.derivations| == |c.grids| + |c.overlays| == |r.locations|
      && r.nextId == nextId + |c.grids| + |c.overlays|
      && (forall k :: 0 <= k < |r.derivations| ==>
            && r.derivations[k].kind == (if k < |c.grids| then Grid else Overlay)
            && r.derivations[k].uniqBsid == (c.grids + c.overlays)[k].uniqBsid
            && r.derivations[k].refsList == (c.grids + c.overlays)[k].refsList
            && r.derivations[k].indexList == (c.grids + c.overlays)[k].idxsList
            && r.derivations[k].itemIds == [r.locations[k].itemId]
            && r.derivations[k].referenceItemIds == [])
      && AllocatedIn(r.derivations, nextId, r.nextId)
      && |mdat| <= |r.mdat| && r.mdat[..|mdat|] == mdat
      && LaidOut(c.grids + c.overlays, r.locations, r.mdat, |mdat|)
  {
    assert o.mdat[..|mdat|] == o.mdat[..|g.mdat|][..|mdat|];
    CompositeJoin(c, nextId, g, o);
    CompositeAllocated(c.grids, Grid, nextId, g.derivations, g.locations);
    CompositeAllocated(c.overlays, Overlay, g.nextId, o.derivations, o.locations);
    AllocatedJoin(g.derivations, o.derivations, nextId, g.nextId, o.nextId);
    LaidOutJoin(c.grids, g.locations, g.mdat, c.overlays, o.locations, o.mdat, |mdat|);
  }

  /** The grids' derivations followed by the overlays' have the kind, key, references
      and single item of the composite at the same position. */
  lemma CompositeJoin(c: DerivedConfig, nextId: nat, g: CompositeResult, o: CompositeResult)
    requires |g.derivations| == |c.grids| == |g.locations|
    requires |o.derivations| == |c.overlays| == |o.locations|
    requires forall k :: 0 <= k < |c.grids| ==>
               AllocatedAs(c.grids[k], Grid, nextId + k, g.derivations[k], g.locations[k])
    requires forall k :: 0 <= k < |c.overlays| ==>
               AllocatedAs(c.overlays[k], Overlay, nextId + |c.grids| + k, o.derivations[k], o.locations[k])
    ensures forall k :: 0 <= k < |c.grids| + |c.overlays| ==>
              && (g.derivations + o.derivations)[k].kind == (if k < |c.grids| then Grid else Overlay)
              && (g.derivations + o.derivations)[k].uniqBsid == (c.grids + c.overlays)[k].uniqBsid
              && (g.derivations + o.derivations)[k].refsList == (c.grids + c.overlays)[k].refsList
              && (g.derivations + o.derivations)[k].indexList == (c.grids + c.overlays)[k].idxsList
              && (g.derivations + o.derivations)[k].itemIds == [(g.locations + o.locations)[k].itemId]
              && (g.derivations + o.derivations)[k].referenceItemIds == []
  {
    var ds := g.derivations + o.derivations;
    var ls := g.locations + o.locations;
    var cs := c.grids + c.overlays;
    forall k | 0 <= k < |cs|
      ensures && ds[k].kind == (if k < |c.grids| then Grid else Overlay)
              && ds[k].uniqBsid == cs[k].uniqBsid
              && ds[k].refsList == cs[k].refsList && ds[k].indexList == cs[k].idxsList
              && ds[k].itemIds == [ls[k].itemId]
              && ds[k].referenceItemIds == []
    {
      if k < |c.grids| {
        assert ds[k] == g.derivations[k] && ls[k] == g.locations[k] && cs[k] == c.grids[k];
      } else {
        var j := k - |c.grids|;
        assert ds[k] == o.derivations[j] && ls[k] == o.locations[j] && cs[k] == c.overlays[j];
      }
    }
  }

  /** Composites allocated one item each from `nextId` on form an allocation. */
  lemma CompositeAllocated(cs: seq<CompositeConfig>, kind: DerivedType, nextId: nat, ds: seq<DerivationInfo>,
                           locs: seq<PendingLocation>)
    requires |ds| == |cs| == |locs|
    requires forall k :: 0 <= k < |cs| ==> AllocatedAs(cs[k], kind, nextId + k, ds[k], locs[k])
    ensures AllocatedIn(ds, nextId, nextId + |cs|)
  {
    assert forall i :: 0 <= i < |cs| ==> ds[i].itemIds == [nextId + i];
  }

  lemma LaidOutJoin(c1: seq<CompositeConfig>, l1: seq<PendingLocation>, m1: seq<Byte>,
                    c2: seq<CompositeConfig>, l2: seq<PendingLocation>, m2: seq<Byte>, from: nat)
    requires |c1| == |l1| && |c2| == |l2|
    requires LaidOut(c1, l1, m1, from) && LaidOut(c2, l2, m2, |m1|)
    requires from <= |m1|
    requires |m1| <= |m2| && m2[..|m1|] == m1
    ensures LaidOut(c1 + c2, l1 + l2, m2, from)
  {
    if |m2| < U32 {
      var cs := c1 + c2;
      var ls := l1 + l2;
      forall k | 0 <= k < |cs|
        ensures DescriptorAt(cs[k], ls[k], m2, from)
      {
        if k < |c1| {
          assert cs[k] == c1[k] && ls[k] == l1[k];
          DescriptorKept(c1[k], l1[k], m1, m2, from);
        } else {
          assert cs[k] == c2[k - |c1|] && ls[k] == l2[k - |c1|];
        }
      }
      forall j, k | 0 <= j < k < |cs|
        ensures ls[j].offset + ls[j].length <= ls[k].offset
      {
        if k < |c1| {
          assert ls[j] == l1[j] && ls[k] == l1[k];
        } else if j < |c1| {
          assert ls[j] == l1[j] && ls[k] == l2[k - |c1|];
          assert DescriptorAt(c1[j], l1[j], m1, from) && DescriptorAt(c2[k - |c1|], l2[k - |c1|], m2, |m1|);
        } else {
          assert ls[j] == l2[j - |c1|] && ls[k] == l2[k - |c1|];
        }
      }
    }
  }

  // ---------------------------------------------------------------- the derivation map

  /** Enters derivations into the map in order; a later entry with the same
      uniq_bsid replaces an earlier one. */
  function ToMap(ds: seq<DerivationInfo>): (r: seq<DerivationInfo>)
    ensures KeysAscending(r)
  {
    if |ds| == 0 then [] else Put(ToMap(ds[..|ds| - 1]), ds[|ds| - 1])
  }

  /** The last derivation in the list with the given uniq_bsid. */
  function LastWithKey(ds: seq<DerivationInfo>, key: nat): (r: Option<DerivationInfo>)
    ensures r.None? <==> forall k :: 0 <= k < |ds| ==> ds[k].uniqBsid != key
    ensures r.Some? ==> exists k :: 0 <= k < |ds| && ds[k] == r.value && r.value.uniqBsid == key
                          && forall j :: k < j < |ds| ==> ds[j].uniqBsid != key
  {
    if |ds| == 0 then None
    else if ds[|ds| - 1].uniqBsid == key then Some(ds[|ds| - 1])
    else
      var r := LastWithKey(ds[..|ds| - 1], key);
      LastWithKeyStep(ds, ds[..|ds| - 1], key, r);
      r
  }

  /** A last derivation without the key leaves the search result of the rest. */
  lemma LastWithKeyStep(ds: seq<DerivationInfo>, init: seq<DerivationInfo>, key: nat, r: Option<DerivationInfo>)
    requires |ds| > 0 && init == ds[..|ds| - 1] && ds[|ds| - 1].uniqBsid != key
    requires r.None? <==> forall k :: 0 <= k < |init| ==> init[k].uniqBsid != key
    requires r.Some? ==> exists k :: 0 <= k < |init| && init[k] == r.value && r.value.uniqBsid == key
                           && forall j :: k < j < |init| ==> init[j].uniqBsid != key
    ensures r.None? <==> forall k :: 0 <= k < |ds| ==> ds[k].uniqBsid != key
    ensures r.Some? ==> exists k :: 0 <= k < |ds| && ds[k] == r.value && r.value.uniqBsid == key
                          && forall j :: k < j < |ds| ==> ds[j].uniqBsid != key
  {
    assert forall k :: 0 <= k < |init| ==> init[k] == ds[k];
    if r.Some? {
      var k :| 0 <= k < |init| && init[k] == r.value && r.value.uniqBsid == key
               && forall j :: k < j < |init| ==> init[j].uniqBsid != key;
      assert ds[k] == r.value;
    }
  }

  /** Looking a uniq_bsid up in the map built from a list finds the list's last
      derivation with that uniq_bsid. */
  lemma {:induction false} ToMapLookup(ds: seq<DerivationInfo>, key: nat)
    ensures Lookup(ToMap(ds), key) == LastWithKey(ds, key)
  {
    if |ds| > 0 {
      ToMapLookup(ds[..|ds| - 1], key);
      PutLookup(ToMap(ds[..|ds| - 1]), ds[|ds| - 1], key);
    }
  }

  /** In a map with ascending keys, each entry is what its own key looks up. */
  lemma {:induction false} LookupEntry(dm: seq<DerivationInfo>, i: nat)
    requires KeysAscending(dm)
    requires i < |dm|
    ensures Lookup(dm, dm[i].uniqBsid) == Some(dm[i])
  {
    if i > 0 {
      assert dm[1..][i - 1] == dm[i];
      LookupEntry(dm[1..], i - 1);
    }
  }

  /** Every item ID of the map lies in [lo, hi) and belongs to one item only. */
  predicate ItemsDistinctIn(dm: seq<DerivationInfo>, lo: nat, hi: nat) {
    && (forall i, a :: 0 <= i < |dm| && 0 <= a < |dm[i].itemIds| ==> lo <= dm[i].itemIds[a] < hi)
    && (forall i, j, a, b ::
          0 <= i < |dm| && 0 <= j < |dm| && 0 <= a < |dm[i].itemIds| && 0 <= b < |dm[j].itemIds| && (i != j || a != b) ==>
            dm[i].itemIds[a] != dm[j].itemIds[b])
  }

  /** The map built from an allocation takes its entries from the list, so its item
      IDs stay in the allocated range and no two of its items share one. */
  lemma ToMapAllocated(ds: seq<DerivationInfo>, lo: nat, hi: nat)
    requires AllocatedIn(ds, lo, hi)
    ensures forall i :: 0 <= i < |ToMap(ds)| ==> ToMap(ds)[i] in ds
    ensures ItemsDistinctIn(ToMap(ds), lo, hi)
  {
    var dm := ToMap(ds);
    ToMapEntries(ds);
    forall i, a | 0 <= i < |dm| && 0 <= a < |dm[i].itemIds|
      ensures lo <= dm[i].itemIds[a] < hi
    {
      var k :| 0 <= k < |ds| && ds[k] == dm[i];
    }
    forall i, j, a, b | 0 <= i < |dm| && 0 <= j < |dm| && 0 <= a < |dm[i].itemIds| && 0 <= b < |dm[j].itemIds|
                        && (i != j || a != b)
      ensures dm[i].itemIds[a] != dm[j].itemIds[b]
    {
      var ki :| 0 <= ki < |ds| && ds[ki] == dm[i];
      var kj :| 0 <= kj < |ds| && ds[kj] == dm[j];
      if i == j {
        assert ds[ki].itemIds[a] != ds[ki].itemIds[b];
      } else {
        assert dm[i].uniqBsid != dm[j].uniqBsid;
        if ki < kj {
          assert ds[ki].itemIds[a] < ds[kj].itemIds[b];
        } else {
          assert ds[kj].itemIds[b] < ds[ki].itemIds[a];
        }
      }
    }
  }

  /** Every entry of the map built from a list is a derivation of that list, and
      the last one with its uniq_bsid. */
  lemma ToMapEntries(ds: seq<DerivationInfo>)
    ensures forall i :: 0 <= i < |ToMap(ds)| ==>
              exists k :: 0 <= k < |ds| && ds[k] == ToMap(ds)[i]
                          && forall j :: k < j < |ds| ==> ds[j].uniqBsid != ds[k].uniqBsid
  {
    var dm := ToMap(ds);
    forall i | 0 <= i < |dm|
      ensures exists k :: 0 <= k < |ds| && ds[k] == dm[i]
                          && forall j :: k < j < |ds| ==> ds[j].uniqBsid != ds[k].uniqBsid
    {
      LookupEntry(dm, i);
      ToMapLookup(ds, dm[i].uniqBsid);
    }
  }
}
