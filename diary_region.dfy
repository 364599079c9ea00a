/**
  The tier cascade of one diary region. Ticking a tier asks to complete it
  and every easier tier of the region; unticking a ticked tier asks to clear
  it and every harder tier. The request is handed to the checklist as one
  batch of ids to add and ids to remove.
*/
module DiaryRegion {
  import opened Common
  import opened IdSet
  import opened Types
  import opened Tiers
  import opened Completion

  /** The two id lists passed to `onDiaryTiersUpdate`. */
  datatype TierUpdate = TierUpdate(idsToAdd: seq<string>, idsToRemove: seq<string>)

  /** `tiers.find(t => t.id === id)`: the first tier with that id. */
  function FindTier(tiers: seq<Item>, id: string): (r: Option<Item>)
    ensures r.Some? ==> r.value in tiers && r.value.id == id
    ensures r.None? <==> forall t :: t in tiers ==> t.id != id
    decreases |tiers|
  {
    if |tiers| == 0 then None
    else if tiers[0].id == id then Some(tiers[0])
    else FindTier(tiers[1..], id)
  }

  /** The tier found is the first one with the id: `find` scans from the front. */
  lemma {:induction false} FindTierFirst(tiers: seq<Item>, id: string, k: nat)
    requires k < |tiers| && tiers[k].id == id
    requires forall j :: 0 <= j < k ==> tiers[j].id != id
    ensures FindTier(tiers, id) == Some(tiers[k])
    decreases k
  {
    if k > 0 {
      var rest := tiers[1..];
      assert forall j :: 0 <= j < k - 1 ==> rest[j] == tiers[j + 1];
      FindTierFirst(rest, id, k - 1);
    }
  }

  /**
    `tiers.filter(t => tNameMatch && names.includes(tNameMatch[1])).map(t => t.id)`:
    the ids of the tiers whose tier name is one of `names`, in order.
  */
  function IdsNamed(tiers: seq<Item>, names: seq<string>): (r: seq<string>)
    ensures forall id :: id in r <==>
              exists t :: t in tiers && t.id == id && TierName(t).Some? && TierName(t).value in names
    decreases |tiers|
  {
    if |tiers| == 0 then []
    else
      var init, last := tiers[..|tiers| - 1], tiers[|tiers| - 1];
      assert tiers == init + [last];
      var rest := IdsNamed(init, names);
      rest + (if TierName(last).Some? && TierName(last).value in names then [last.id] else [])
  }

  /**
    `handleToggle(toggledTierId)`: no update when the id is no tier of the
    region, the label has no parenthesised group, or the group is no tier
    name; otherwise add the tiers up to the toggled one (when it was not
    complete) or remove the tiers from it up (when it was).
  */
  function HandleToggle(tiers: seq<Item>, completed: set<string>, toggledId: string): (r: Option<TierUpdate>)
    ensures r.None? <==>
              FindTier(tiers, toggledId).None? || TierRank(FindTier(tiers, toggledId).value) == -1
    ensures r.Some? && toggledId !in completed ==> r.value.idsToRemove == []
    ensures r.Some? && toggledId in completed ==> r.value.idsToAdd == []
  {
    match FindTier(tiers, toggledId)
    case None => None
    case Some(tier) =>
      match TierName(tier)
      case None => None
      case Some(name) =>
        var k := TierIndex(name);
        if k == -1 then None
        else if toggledId !in completed then Some(TierUpdate(IdsNamed(tiers, TierOrder[..k + 1]), []))
        else Some(TierUpdate([], IdsNamed(tiers, TierOrder[k..])))
  }

  /** A tier name lies in `tierOrder.slice(lo, hi)` exactly when its rank lies in `[lo, hi)`. */
  lemma InTierSlice(t: Item, lo: nat, hi: nat)
    requires lo <= hi <= |TierOrder|
    ensures (TierName(t).Some? && TierName(t).value in TierOrder[lo..hi]) <==> lo <= TierRank(t) < hi
  {
    if TierName(t).Some? && TierName(t).value in TierOrder[lo..hi] {
      var name := TierName(t).value;
      var j :| lo <= j < hi && TierOrder[j] == name;
      assert TierIndex(name) == j;
    }
    if lo <= TierRank(t) < hi {
      assert TierOrder[lo..hi][TierRank(t) - lo] == TierName(t).value;
    }
  }

  /**
    Ticking an unticked tier of rank k asks to add exactly the ids of the
    region's tiers of rank 0..k, the toggled one among them, and removes nothing.
  */
  lemma ToggleOnRequest(tiers: seq<Item>, completed: set<string>, toggledId: string)
    requires HandleToggle(tiers, completed, toggledId).Some?
    requires toggledId !in completed
    ensures var k := TierRank(FindTier(tiers, toggledId).value);
            var u := HandleToggle(tiers, completed, toggledId).value;
            && u.idsToRemove == []
            && toggledId in u.idsToAdd
            && forall id :: id in u.idsToAdd <==> exists t :: t in tiers && t.id == id && 0 <= TierRank(t) <= k
  {
    var tier := FindTier(tiers, toggledId).value;
    var k := TierRank(tier);
    assert TierOrder[..k + 1] == TierOrder[0..k + 1];
    forall t | t in tiers
      ensures (TierName(t).Some? && TierName(t).value in TierOrder[..k + 1]) <==> 0 <= TierRank(t) <= k
    {
      InTierSlice(t, 0, k + 1);
    }
    InTierSlice(tier, 0, k + 1);
  }

  /**
    Unticking a ticked tier of rank k asks to remove exactly the ids of the
    region's tiers of rank k and above, the toggled one among them, and adds nothing.
  */
  lemma ToggleOffRequest(tiers: seq<Item>, completed: set<string>, toggledId: string)
    requires HandleToggle(tiers, completed, toggledId).Some?
    requires toggledId in completed
    ensures var k := TierRank(FindTier(tiers, toggledId).value);
            var u := HandleToggle(tiers, completed, toggledId).value;
            && u.idsToAdd == []
            && toggledId in u.idsToRemove
            && forall id :: id in u.idsToRemove <==> exists t :: t in tiers && t.id == id && TierRank(t) >= k
  {
    var tier := FindTier(tiers, toggledId).value;
    var k := TierRank(tier);
    assert TierOrder[k..] == TierOrder[k..|TierOrder|];
    forall t | t in tiers
      ensures (TierName(t).Some? && TierName(t).value in TierOrder[k..]) <==> TierRank(t) >= k
    {
      InTierSlice(t, k, |TierOrder|);
    }
    InTierSlice(tier, k, |TierOrder|);
  }

  /**
    Ticking applied to the completion list (`handleDiaryTiersUpdate`): the
    toggled tier and every easier tier of the region become complete, and an
    id outside the request keeps its state.
  */
  lemma CascadeOnEffect(tiers: seq<Item>, prev: seq<string>, toggledId: string)
    requires HandleToggle(tiers, Elems(prev), toggledId).Some?
    requires toggledId !in prev
    ensures var k := TierRank(FindTier(tiers, toggledId).value);
            var u := HandleToggle(tiers, Elems(prev), toggledId).value;
            var next := ApplyTierUpdate(prev, u.idsToAdd, u.idsToRemove);
            && toggledId in next
            && (forall t :: t in tiers && 0 <= TierRank(t) <= k ==> t.id in next)
            && (forall id :: id !in u.idsToAdd ==> (id in next <==> id in prev))
  {
    var k := TierRank(FindTier(tiers, toggledId).value);
    var u := HandleToggle(tiers, Elems(prev), toggledId).value;
    ToggleOnRequest(tiers, Elems(prev), toggledId);
    AddedTiersComplete(tiers, prev, u.idsToAdd, u.idsToRemove, toggledId, k);
  }

  /** A batch that only adds the ids of the tiers of rank 0..k completes each of them. */
  lemma AddedTiersComplete(tiers: seq<Item>, prev: seq<string>, idsToAdd: seq<string>, idsToRemove: seq<string>,
                           toggledId: string, k: int)
    requires idsToRemove == [] && toggledId in idsToAdd
    requires forall id :: id in idsToAdd <==> exists t :: t in tiers && t.id == id && 0 <= TierRank(t) <= k
    ensures var next := ApplyTierUpdate(prev, idsToAdd, idsToRemove);
            && toggledId in next
            && (forall t :: t in tiers && 0 <= TierRank(t) <= k ==> t.id in next)
            && (forall id :: id !in idsToAdd ==> (id in next <==> id in prev))
  {
    var next := ApplyTierUpdate(prev, idsToAdd, idsToRemove);
    ApplyTierUpdateMembers(prev, idsToAdd, idsToRemove);
    forall t | t in tiers && 0 <= TierRank(t) <= k
      ensures t.id in next
    {
      assert t.id in idsToAdd;
    }
  }

  /**
    Unticking applied to the completion list: the toggled tier and every
    harder tier of the region become incomplete, and an id outside the
    request keeps its state.
  */
  lemma CascadeOffEffect(tiers: seq<Item>, prev: seq<string>, toggledId: string)
    requires HandleToggle(tiers, Elems(prev), toggledId).Some?
    requires toggledId in prev
    ensures var k := TierRank(FindTier(tiers, toggledId).value);
            var u := HandleToggle(tiers, Elems(prev), toggledId).value;
            var next := ApplyTierUpdate(prev, u.idsToAdd, u.idsToRemove);
            && toggledId !in next
            && (forall t :: t in tiers && TierRank(t) >= k ==> t.id !in next)
            && (forall id :: id !in u.idsToRemove ==> (id in next <==> id in prev))
  {
    var k := TierRank(FindTier(tiers, toggledId).value);
    var u := HandleToggle(tiers, Elems(prev), toggledId).value;
    ToggleOffRequest(tiers, Elems(prev), toggledId);
    RemovedTiersCleared(tiers, prev, u.idsToAdd, u.idsToRemove, toggledId, k);
  }

  /** A batch that only removes the ids of the tiers of rank k and above clears each of them. */
  lemma RemovedTiersCleared(tiers: seq<Item>, prev: seq<string>, idsToAdd: seq<string>, idsToRemove: seq<string>,
                            toggledId: string, k: int)
    requires idsToAdd == [] && toggledId in idsToRemove
    requires forall id :: id in idsToRemove <==> exists t :: t in tiers && t.id == id && TierRank(t) >= k
    ensures var next := ApplyTierUpdate(prev, idsToAdd, idsToRemove);
            && toggledId !in next
            && (forall t :: t in tiers && TierRank(t) >= k ==> t.id !in next)
            && (forall id :: id !in idsToRemove ==> (id in next <==> id in prev))
  {
    var next := ApplyTierUpdate(prev, idsToAdd, idsToRemove);
    ApplyTierUpdateMembers(prev, idsToAdd, idsToRemove);
    forall t | t in tiers && TierRank(t) >= k
      ensures t.id !in next
    {
      assert t.id in idsToRemove;
    }
  }

  /** A toggle that issues no update leaves the completion list as it is. */
  lemma NoUpdateForUnknownTier(tiers: seq<Item>, completed: set<string>, toggledId: string)
    requires forall t :: t in tiers ==> t.id != toggledId || TierName(t).None?
    ensures HandleToggle(tiers, completed, toggledId).None?
  {
  }
}
