/** Derived-image bookkeeping of MetaDerivedImageWriter
    (Srcs/writer/metaderivedimagewriter.hpp): DerivationInfo records, the
    uniq_bsid-keyed derivation map, and the resolution of symbolic
    (context, 1-based index) references into item IDs. */
module Derivation {
  import opened Wrappers

  /** The item type of a derived image. */
  datatype DerivedType = Grid | Overlay | Identity

  /** The four-character item type written for a derived image. */
  function TypeCode(t: DerivedType): (c: string)
    ensures c == "grid" || c == "iovl" || c == "iden"
    ensures c == "iden" <==> t == Identity
    ensures c == "grid" <==> t == Grid
  {
    match t
    case Grid => "grid"
    case Overlay => "iovl"
    case Identity => "iden"
  }

  /** One derived image from the input configuration: its uniq_bsid, the contexts it
      references with, for each, a list of 1-based image indexes, the item IDs the
      writer generated for it and the item IDs its references resolved to. */
  datatype DerivationInfo = DerivationInfo(
    uniqBsid: nat,
    refsList: seq<nat>,
    indexList: seq<seq<nat>>,
    itemIds: seq<nat>,
    referenceItemIds: seq<nat>,
    kind: DerivedType)

  /** A symbolic reference: image number `index` (1-based) of context `context`. */
  datatype Handle = Handle(context: nat, index: nat)

  /** ReferenceToItemIdMap: the item IDs of each context, in image order. */
  type ReferenceToItemIdMap = map<nat, seq<nat>>

  // ---------------------------------------------------------------- symbolic references

  function HandlesOf(context: nat, idxs: seq<nat>): (h: seq<Handle>)
    ensures |h| == |idxs|
    ensures forall k :: 0 <= k < |idxs| ==> h[k] == Handle(context, idxs[k])
  {
    seq(|idxs|, k requires 0 <= k < |idxs| => Handle(context, idxs[k]))
  }

  /** The parallel refsList / indexList flattened, in order, into handles. */
  function Handles(refs: seq<nat>, idxs: seq<seq<nat>>): seq<Handle>
    requires |refs| == |idxs|
  {
    if |refs| == 0 then [] else HandlesOf(refs[0], idxs[0]) + Handles(refs[1..], idxs[1..])
  }

  /** The number of image indexes in an index list. */
  function IndexCount(idxs: seq<seq<nat>>): nat {
    if |idxs| == 0 then 0 else |idxs[0]| + IndexCount(idxs[1..])
  }

  lemma {:induction false} HandlesLength(refs: seq<nat>, idxs: seq<seq<nat>>)
    requires |refs| == |idxs|
    ensures |Handles(refs, idxs)| == IndexCount(idxs)
  {
    if |refs| > 0 {
      HandlesLength(refs[1..], idxs[1..]);
    }
  }

  /** Flattening keeps order: the handles of two concatenated reference lists are
      the handles of the first followed by those of the second. */
  lemma {:induction false} HandlesAppend(r1: seq<nat>, i1: seq<seq<nat>>, r2: seq<nat>, i2: seq<seq<nat>>)
    requires |r1| == |i1| && |r2| == |i2|
    ensures Handles(r1 + r2, i1 + i2) == Handles(r1, i1) + Handles(r2, i2)
  {
    if |r1| == 0 {
      assert r1 + r2 == r2 && i1 + i2 == i2;
    } else {
      assert (r1 + r2)[1..] == r1[1..] + r2;
      assert (i1 + i2)[1..] == i1[1..] + i2;
      HandlesAppend(r1[1..], i1[1..], r2, i2);
    }
  }

  /** With one index per context, handle i is exactly (refsList[i], indexList[i][0]). */
  lemma {:induction false} HandlesSingleIndex(refs: seq<nat>, idxs: seq<seq<nat>>)
    requires |refs| == |idxs|
    requires forall i :: 0 <= i < |idxs| ==> |idxs[i]| == 1
    ensures |Handles(refs, idxs)| == |refs|
    ensures forall i :: 0 <= i < |refs| ==> Handles(refs, idxs)[i] == Handle(refs[i], idxs[i][0])
  {
    if |refs| > 0 {
      HandlesSingleIndex(refs[1..], idxs[1..]);
      var h := Handles(refs, idxs);
      assert h == [Handle(refs[0], idxs[0][0])] + Handles(refs[1..], idxs[1..]);
      forall i | 0 <= i < |refs|
        ensures h[i] == Handle(refs[i], idxs[i][0])
      {
        if i > 0 {
          assert h[i] == Handles(refs[1..], idxs[1..])[i - 1];
        }
      }
    }
  }

  // ---------------------------------------------------------------- resolution

  /** The context is mapped and the 1-based index names one of its images. */
  predicate Resolvable(m: ReferenceToItemIdMap, h: Handle) {
    h.context in m && 1 <= h.index <= |m[h.context]|
  }

  /** Resolves handles in order; the first one that names no image is reported. */
  function ResolveHandles(m: ReferenceToItemIdMap, hs: seq<Handle>): (r: Result<seq<nat>>)
    ensures r.Success? <==> forall k :: 0 <= k < |hs| ==> Resolvable(m, hs[k])
    ensures r.Success? ==> |r.value| == |hs|
    ensures r.Success? ==> forall k :: 0 <= k < |hs| ==> r.value[k] == m[hs[k].context][hs[k].index - 1]
    ensures r.Failure? ==> exists k :: 0 <= k < |hs| && !Resolvable(m, hs[k])
                                      && r.error == UnresolvedReference(hs[k].context, hs[k].index)
  {
    if |hs| == 0 then Success([])
    else
      var h := hs[0];
      if !Resolvable(m, h) then Failure(UnresolvedReference(h.context, h.index))
      else
        var rest := ResolveHandles(m, hs[1..]);
        if rest.Failure? then
          assert forall k :: 0 <= k < |hs| - 1 ==> hs[1..][k] == hs[k + 1];
          Failure(rest.error)
        else Success([m[h.context][h.index - 1]] + rest.value)
  }

  /** The item IDs a pair of parallel reference/index lists denotes: for every
      context refs[i] and every 1-based index x of idxs[i], in order, element x - 1
      of that context's item IDs. Lists of unequal length and unresolvable
      references are errors. */
  function Resolve(m: ReferenceToItemIdMap, refs: seq<nat>, idxs: seq<seq<nat>>): (r: Result<seq<nat>>)
    ensures |refs| != |idxs| ==> r == Failure(ArityMismatch(|refs|, |idxs|))
    ensures r.Success? <==> |refs| == |idxs| && forall k :: 0 <= k < |Handles(refs, idxs)| ==> Resolvable(m, Handles(refs, idxs)[k])
    ensures r.Success? ==> |r.value| == IndexCount(idxs) == |Handles(refs, idxs)|
    ensures r.Success? ==> forall k :: 0 <= k < |r.value| ==>
              r.value[k] == m[Handles(refs, idxs)[k].context][Handles(refs, idxs)[k].index - 1]
    ensures |refs| == |idxs| && r.Failure? ==>
              (r.error.UnresolvedReference?
               && Handle(r.error.context, r.error.index) in Handles(refs, idxs)
               && !Resolvable(m, Handle(r.error.context, r.error.index)))
  {
    if |refs| != |idxs| then Failure(ArityMismatch(|refs|, |idxs|))
    else
      HandlesLength(refs, idxs);
      ResolveHandles(m, Handles(refs, idxs))
  }

  /** The 1-based rule: with one index per context, referenceItemIds[i] is element
      indexList[i] - 1 of the item IDs of context refsList[i], and the resolved list
      is as long as the reference list. */
  lemma ResolveOneBased(m: ReferenceToItemIdMap, refs: seq<nat>, idxs: seq<seq<nat>>)
    requires |refs| == |idxs|
    requires forall i :: 0 <= i < |idxs| ==> |idxs[i]| == 1
    requires Resolve(m, refs, idxs).Success?
    ensures |Resolve(m, refs, idxs).value| == |refs|
    ensures forall i :: 0 <= i < |refs| ==>
              refs[i] in m && 1 <= idxs[i][0] <= |m[refs[i]]|
              && Resolve(m, refs, idxs).value[i] == m[refs[i]][idxs[i][0] - 1]
  {
    HandlesSingleIndex(refs, idxs);
    var h := Handles(refs, idxs);
    forall i | 0 <= i < |refs|
      ensures refs[i] in m && 1 <= idxs[i][0] <= |m[refs[i]]|
    {
      assert Resolvable(m, h[i]);
    }
  }

  /** `v` lists, in order, the item IDs the resolvable handles `hs` name. */
  predicate Denotes(m: ReferenceToItemIdMap, hs: seq<Handle>, v: seq<nat>) {
    |v| == |hs| && forall k :: 0 <= k < |hs| ==> Resolvable(m, hs[k]) && v[k] == m[hs[k].context][hs[k].index - 1]
  }

  lemma DenotesAppend(m: ReferenceToItemIdMap, h1: seq<Handle>, h2: seq<Handle>, a: seq<nat>, b: seq<nat>)
    requires Denotes(m, h1, a) && Denotes(m, h2, b)
    ensures Denotes(m, h1 + h2, a + b)
  {
    var h := h1 + h2;
    forall k | 0 <= k < |h|
      ensures Resolvable(m, h[k]) && (a + b)[k] == m[h[k].context][h[k].index - 1]
    {
      if k < |h1| {
        assert h[k] == h1[k] && (a + b)[k] == a[k];
      } else {
        assert h[k] == h2[k - |h1|] && (a + b)[k] == b[k - |h1|];
      }
    }
  }

  lemma DenotesUnique(m: ReferenceToItemIdMap, hs: seq<Handle>, v: seq<nat>, w: seq<nat>)
    requires Denotes(m, hs, v) && Denotes(m, hs, w)
    ensures v == w
  {
  }

  /** Resolving two handle lists one after the other resolves their concatenation. */
  lemma ResolveHandlesAppend(m: ReferenceToItemIdMap, h1: seq<Handle>, h2: seq<Handle>)
    requires ResolveHandles(m, h1).Success? && ResolveHandles(m, h2).Success?
    ensures ResolveHandles(m, h1 + h2) == Success(ResolveHandles(m, h1).value + ResolveHandles(m, h2).value)
  {
    var a := ResolveHandles(m, h1).value;
    var b := ResolveHandles(m, h2).value;
    DenotesAppend(m, h1, h2, a, b);
    var r := ResolveHandles(m, h1 + h2);
    assert r.Success?;
    DenotesUnique(m, h1 + h2, r.value, a + b);
  }

  /** Resolution keeps order across concatenated reference lists. */
  lemma ResolveAppend(m: ReferenceToItemIdMap, r1: seq<nat>, i1: seq<seq<nat>>, r2: seq<nat>, i2: seq<seq<nat>>)
    requires |r1| == |i1| && |r2| == |i2|
    requires Resolve(m, r1, i1).Success? && Resolve(m, r2, i2).Success?
    ensures Resolve(m, r1 + r2, i1 + i2) == Success(Resolve(m, r1, i1).value + Resolve(m, r2, i2).value)
  {
    HandlesAppend(r1, i1, r2, i2);
    HandlesLength(r1, i1);
    HandlesLength(r2, i2);
    HandlesLength(r1 + r2, i1 + i2);
    ResolveHandlesAppend(m, Handles(r1, i1), Handles(r2, i2));
  }

  // ---------------------------------------------------------------- the derivation map

  /** DerivationMap (a std::map keyed by uniq_bsid), kept as a sequence in ascending
      key order, the order in which the map is iterated. */
  predicate KeysAscending(dm: seq<DerivationInfo>) {
    forall i, j :: 0 <= i < j < |dm| ==> dm[i].uniqBsid < dm[j].uniqBsid
  }

  /** The uniq_bsid keys present in the map. */
  function Keys(dm: seq<DerivationInfo>): (r: set<nat>)
    ensures forall i :: 0 <= i < |dm| ==> dm[i].uniqBsid in r
    ensures forall k :: k in r ==> exists i :: 0 <= i < |dm| && dm[i].uniqBsid == k
  {
    if |dm| == 0 then {}
    else
      var rest := Keys(dm[1..]);
      assert forall i :: 1 <= i < |dm| ==> dm[i] == dm[1..][i - 1];
      {dm[0].uniqBsid} + rest
  }

  /** mDerivations.at(key): the derivation stored under a uniq_bsid. */
  function Lookup(dm: seq<DerivationInfo>, key: nat): (r: Option<DerivationInfo>)
    ensures r.Some? ==> r.value.uniqBsid == key && exists i :: 0 <= i < |dm| && dm[i] == r.value
    ensures r.None? <==> key !in Keys(dm)
  {
    if |dm| == 0 then None
    else if dm[0].uniqBsid == key then Some(dm[0])
    else
      var r := Lookup(dm[1..], key);
      assert forall i :: 1 <= i < |dm| ==> dm[i] == dm[1..][i - 1];
      r
  }

  /** derivations[info.uniqBsid] = info: inserts, or replaces the entry with the same
      key, keeping the keys in ascending order. */
  function Put(dm: seq<DerivationInfo>, d: DerivationInfo): (r: seq<DerivationInfo>)
    requires KeysAscending(dm)
    ensures KeysAscending(r)
    ensures |r| > 0
    ensures r[0].uniqBsid == if |dm| == 0 || d.uniqBsid < dm[0].uniqBsid then d.uniqBsid else dm[0].uniqBsid
  {
    if |dm| == 0 then [d]
    else if d.uniqBsid < dm[0].uniqBsid then
      [d] + dm
    else if d.uniqBsid == dm[0].uniqBsid then
      [d] + dm[1..]
    else
      var rest := Put(dm[1..], d);
      [dm[0]] + rest
  }

  /** Put behaves as a map assignment: the new key now yields `d`, every other key
      yields what it yielded before. */
  lemma {:induction false} PutLookup(dm: seq<DerivationInfo>, d: DerivationInfo, k: nat)
    requires KeysAscending(dm)
    ensures Lookup(Put(dm, d), k) == if k == d.uniqBsid then Some(d) else Lookup(dm, k)
  {
    var r := Put(dm, d);
    if |dm| == 0 {
    } else if d.uniqBsid < dm[0].uniqBsid {
      assert r[1..] == dm;
    } else if d.uniqBsid == dm[0].uniqBsid {
      assert r[1..] == dm[1..];
    } else {
      var rest := Put(dm[1..], d);
      assert r[1..] == rest;
      PutLookup(dm[1..], d, k);
    }
  }

  /** Put adds exactly its key to the key set. */
  lemma PutKeys(dm: seq<DerivationInfo>, d: DerivationInfo)
    requires KeysAscending(dm)
    ensures Keys(Put(dm, d)) == Keys(dm) + {d.uniqBsid}
  {
    forall k | true
      ensures k in Keys(Put(dm, d)) <==> k in Keys(dm) + {d.uniqBsid}
    {
      PutLookup(dm, d, k);
    }
  }

  /** createReferenceToItemIdMap: every derivation's context maps to the item IDs
      generated for it; the contexts of other images keep the item IDs supplied for
      them. */
  function CreateReferenceToItemIdMap(sources: ReferenceToItemIdMap, dm: seq<DerivationInfo>): (m: ReferenceToItemIdMap)
    requires KeysAscending(dm)
    ensures m.Keys == sources.Keys + Keys(dm)
    ensures forall i :: 0 <= i < |dm| ==> m[dm[i].uniqBsid] == dm[i].itemIds
    ensures forall c :: c in sources && c !in Keys(dm) ==> m[c] == sources[c]
  {
    if |dm| == 0 then sources
    else
      var m0 := CreateReferenceToItemIdMap(sources, dm[1..]);
      ReferenceMapStep(sources, dm, m0);
      m0[dm[0].uniqBsid := dm[0].itemIds]
  }

  /** Entering the first derivation of an ascending map on top of the map built
      from the rest gives the map built from the whole. */
  lemma ReferenceMapStep(sources: ReferenceToItemIdMap, dm: seq<DerivationInfo>, m0: ReferenceToItemIdMap)
    requires KeysAscending(dm) && |dm| > 0
    requires m0.Keys == sources.Keys + Keys(dm[1..])
    requires forall i :: 0 <= i < |dm| - 1 ==> m0[dm[1..][i].uniqBsid] == dm[1..][i].itemIds
    requires forall c :: c in sources && c !in Keys(dm[1..]) ==> m0[c] == sources[c]
    ensures m0[dm[0].uniqBsid := dm[0].itemIds].Keys == sources.Keys + Keys(dm)
    ensures forall i :: 0 <= i < |dm| ==> m0[dm[0].uniqBsid := dm[0].itemIds][dm[i].uniqBsid] == dm[i].itemIds
    ensures forall c :: c in sources && c !in Keys(dm) ==> m0[dm[0].uniqBsid := dm[0].itemIds][c] == sources[c]
  {
    assert Keys(dm) == {dm[0].uniqBsid} + Keys(dm[1..]);
    ReferenceMapEntries(dm, m0);
  }

  /** Every key of an ascending map finds its own items once the first entry is added. */
  lemma ReferenceMapEntries(dm: seq<DerivationInfo>, m0: ReferenceToItemIdMap)
    requires KeysAscending(dm) && |dm| > 0
    requires forall i :: 0 <= i < |dm| - 1 ==> dm[1..][i].uniqBsid in m0 && m0[dm[1..][i].uniqBsid] == dm[1..][i].itemIds
    ensures forall i :: 0 <= i < |dm| ==>
              dm[i].uniqBsid in m0[dm[0].uniqBsid := dm[0].itemIds]
              && m0[dm[0].uniqBsid := dm[0].itemIds][dm[i].uniqBsid] == dm[i].itemIds
  {
    var m := m0[dm[0].uniqBsid := dm[0].itemIds];
    forall i | 0 <= i < |dm|
      ensures dm[i].uniqBsid in m && m[dm[i].uniqBsid] == dm[i].itemIds
    {
      if i > 0 {
        assert dm[i] == dm[1..][i - 1] && dm[i].uniqBsid != dm[0].uniqBsid;
      }
    }
  }

  /** addItemIdReferences: fills referenceItemIds of every derivation by resolving
      its references; nothing else in any derivation changes, and one unresolvable
      reference fails the whole pass. */
  function AddItemIdReferences(dm: seq<DerivationInfo>, m: ReferenceToItemIdMap): (r: Result<seq<DerivationInfo>>)
    ensures r.Success? <==> forall i :: 0 <= i < |dm| ==> Resolve(m, dm[i].refsList, dm[i].indexList).Success?
    ensures r.Success? ==> |r.value| == |dm|
    ensures r.Success? ==> forall i :: 0 <= i < |dm| ==>
              r.value[i].(referenceItemIds := dm[i].referenceItemIds) == dm[i]
              && Resolve(m, dm[i].refsList, dm[i].indexList) == Success(r.value[i].referenceItemIds)
    ensures r.Failure? ==> exists i :: 0 <= i < |dm| && Resolve(m, dm[i].refsList, dm[i].indexList) == Failure(r.error)
  {
    if |dm| == 0 then Success([])
    else
      var ids := Resolve(m, dm[0].refsList, dm[0].indexList);
      if ids.Failure? then Failure(ids.error)
      else
        var rest := AddItemIdReferences(dm[1..], m);
        if rest.Failure? then
          assert forall i :: 0 <= i < |dm| - 1 ==> dm[1..][i] == dm[i + 1];
          Failure(rest.error)
        else Success([dm[0].(referenceItemIds := ids.value)] + rest.value)
  }
}
