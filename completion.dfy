/**
  The updates of the completion list (the persisted array of completed item
  ids) and of the set of expanded sections. Every update copies the old array
  into a `Set`, adds or deletes ids in place and turns the set back into an
  array, so the list never holds an id twice.
*/
module Completion {
  import opened IdSet
  import opened Types

  /** `handleToggleItem`: a completed id is deleted, any other id is added. */
  function ToggleId(prev: seq<string>, id: string): (r: seq<string>)
    ensures Distinct(r)
  {
    var ids := FromSeq(prev);
    if id in ids then Delete(ids, id) else Add(ids, id)
  }

  /** Toggling an item flips whether its id is complete and leaves every other id as it was. */
  lemma ToggleIdFlipsOnlyThatId(prev: seq<string>, id: string)
    ensures id in ToggleId(prev, id) <==> id !in prev
    ensures forall x :: x != id ==> (x in ToggleId(prev, id) <==> x in prev)
  {
    assert Elems(ToggleId(prev, id)) == if id in prev then Elems(prev) - {id} else Elems(prev) + {id};
  }

  /**
    Toggling an item twice restores the completed set; when the id was not
    complete, it restores the very same array.
  */
  lemma ToggleIdTwice(prev: seq<string>, id: string)
    ensures Elems(ToggleId(ToggleId(prev, id), id)) == Elems(prev)
    ensures Distinct(prev) && id !in prev ==> ToggleId(ToggleId(prev, id), id) == prev
  {
    var once := ToggleId(prev, id);
    FromDistinctSeq(once);
    if Distinct(prev) && id !in prev {
      FromDistinctSeq(prev);
      assert once == prev + [id];
      DeleteAppended(prev, id);
    }
  }

  /** Deleting the id just appended to a list that did not hold it gives the list back. */
  lemma {:induction false} DeleteAppended(s: seq<string>, x: string)
    requires x !in s
    ensures Delete(s + [x], x) == s
  {
    assert (s + [x])[..|s + [x]| - 1] == s;
  }

  /** `toggleSection`: an expanded section collapses, a collapsed one expands. */
  function ToggleSection(expanded: set<string>, sectionId: string): (r: set<string>)
    ensures sectionId in r <==> sectionId !in expanded
    ensures forall x :: x != sectionId ==> (x in r <==> x in expanded)
  {
    if sectionId in expanded then expanded - {sectionId} else expanded + {sectionId}
  }

  /** Toggling a section twice restores the set of expanded sections. */
  lemma ToggleSectionTwice(expanded: set<string>, sectionId: string)
    ensures ToggleSection(ToggleSection(expanded, sectionId), sectionId) == expanded
  {
  }

  /** `new Set(items.filter(item => !item.isHeader).map(item => item.id))`. */
  function CategoryIds(items: seq<Item>): (r: seq<string>)
    ensures Distinct(r)
    ensures Elems(r) == CategoryIdSet(items)
  {
    FromSeq(NonHeaderIds(items))
  }

  /** The ids of the non-header items of a category, as a set. */
  function CategoryIdSet(items: seq<Item>): set<string>
  {
    Elems(NonHeaderIds(items))
  }

  /** `prev.filter(id => members.has(id))`: the entries of `prev` that are members. */
  function KeepMembers(prev: seq<string>, members: set<string>): (r: seq<string>)
    ensures Elems(r) == Elems(prev) * members
    ensures Distinct(prev) ==> Distinct(r)
    decreases |prev|
  {
    if |prev| == 0 then []
    else
      var init, last := prev[..|prev| - 1], prev[|prev| - 1];
      assert prev == init + [last];
      var rest := KeepMembers(init, members);
      assert last in rest ==> last in init;
      assert Distinct(prev) ==> Distinct(init) && last !in init;
      rest + (if last in members then [last] else [])
  }

  /**
    `areAllCompleted`: the number of entries of the old array that belong to
    the category equals the number of distinct non-header ids of the category.
  */
  predicate AreAllCompleted(prev: seq<string>, items: seq<Item>)
  {
    var catIds := CategoryIds(items);
    |KeepMembers(prev, Elems(catIds))| == |catIds|
  }

  /** `handleToggleCategory`: clear every id of the category if all are complete, else add them all. */
  function ToggleCategory(prev: seq<string>, items: seq<Item>): (r: seq<string>)
    ensures Distinct(r)
  {
    var current := FromSeq(prev);
    if AreAllCompleted(prev, items) then DeleteAll(current, CategoryIds(items))
    else AddAll(current, CategoryIds(items))
  }

  /**
    The length comparison means "every non-header id of the category is
    complete", provided the array holds no id twice, which it never does
    because it always comes out of a `Set`.
  */
  lemma {:induction false} AreAllCompletedMeansSubset(prev: seq<string>, items: seq<Item>)
    requires Distinct(prev)
    ensures AreAllCompleted(prev, items) <==> CategoryIdSet(items) <= Elems(prev)
  {
    var catIds := CategoryIds(items);
    var s := Elems(catIds);
    var kept := KeepMembers(prev, s);
    assert AreAllCompleted(prev, items) <==> |kept| == |catIds|;
    DistinctSize(kept);
    DistinctSize(catIds);
    assert |kept| == |Elems(prev) * s| && |catIds| == |s|;
    if |kept| == |catIds| {
      SubsetOfSameSize(Elems(prev) * s, s);
    } else {
      assert Elems(prev) * s != s;
    }
  }

  /** With duplicates in the array the comparison is wrong: ["a", "a"] counts as both "a" and "b" done. */
  lemma AreAllCompletedMisreadsDuplicates()
    ensures var items := [PlainItem("a", "A"), PlainItem("b", "B")];
            AreAllCompleted(["a", "a"], items) && !(CategoryIdSet(items) <= Elems(["a", "a"]))
  {
    var items := [PlainItem("a", "A"), PlainItem("b", "B")];
    TwoItemIds(items);
    DuplicateKept(["a", "a"], {"a", "b"});
    assert "b" in CategoryIdSet(items) && "b" !in Elems(["a", "a"]);
  }

  /** The ids of two plain items "a" and "b". */
  lemma TwoItemIds(items: seq<Item>)
    requires items == [PlainItem("a", "A"), PlainItem("b", "B")]
    ensures CategoryIds(items) == ["a", "b"] && Elems(["a", "b"]) == {"a", "b"}
  {
    TwoItemNonHeaderIds(items);
    FromDistinctSeq(["a", "b"]);
  }

  /** Neither of the two plain items is a header. */
  lemma TwoItemNonHeaderIds(items: seq<Item>)
    requires items == [PlainItem("a", "A"), PlainItem("b", "B")]
    ensures NonHeaderIds(items) == ["a", "b"]
  {
    assert items[..1] == [items[0]];
    assert NonHeaderIds(items[..1]) == ["a"];
  }

  /** Both copies of "a" are members. */
  lemma DuplicateKept(prev: seq<string>, members: set<string>)
    requires prev == ["a", "a"] && members == {"a", "b"}
    ensures KeepMembers(prev, members) == ["a", "a"]
  {
    assert prev[..1] == ["a"];
    assert KeepMembers(prev[..1], members) == ["a"];
  }

  /**
    Bulk toggle of a category: when every non-header id is complete, all of
    them are removed, otherwise all are added; ids outside the category, and
    header ids that no tracked item shares, never change.
  */
  lemma BulkToggleEffect(prev: seq<string>, items: seq<Item>)
    requires Distinct(prev)
    ensures CategoryIdSet(items) <= Elems(prev) ==>
              Elems(ToggleCategory(prev, items)) == Elems(prev) - CategoryIdSet(items)
    ensures !(CategoryIdSet(items) <= Elems(prev)) ==>
              Elems(ToggleCategory(prev, items)) == Elems(prev) + CategoryIdSet(items)
    ensures forall x :: x !in CategoryIdSet(items) ==> (x in ToggleCategory(prev, items) <==> x in prev)
  {
    AreAllCompletedMeansSubset(prev, items);
    assert Elems(CategoryIds(items)) == CategoryIdSet(items);
  }

  /** `handleDiaryTiersUpdate`: add every id of `idsToAdd`, then delete every id of `idsToRemove`. */
  function ApplyTierUpdate(prev: seq<string>, idsToAdd: seq<string>, idsToRemove: seq<string>): (r: seq<string>)
    ensures Distinct(r)
  {
    DeleteAll(AddAll(FromSeq(prev), idsToAdd), idsToRemove)
  }

  /** The batch update yields `(prev ∪ idsToAdd) \ idsToRemove`: removal wins, other ids stay. */
  lemma ApplyTierUpdateEffect(prev: seq<string>, idsToAdd: seq<string>, idsToRemove: seq<string>)
    ensures Elems(ApplyTierUpdate(prev, idsToAdd, idsToRemove)) ==
              (Elems(prev) + Elems(idsToAdd)) - Elems(idsToRemove)
    ensures forall x :: x !in idsToAdd && x !in idsToRemove ==>
              (x in ApplyTierUpdate(prev, idsToAdd, idsToRemove) <==> x in prev)
  {
    assert Elems(ApplyTierUpdate(prev, idsToAdd, idsToRemove)) ==
           (Elems(prev) + Elems(idsToAdd)) - Elems(idsToRemove);
  }

  /** The batch update id by id: an id ends up complete iff it was complete or added, and is not removed. */
  lemma ApplyTierUpdateMembers(prev: seq<string>, idsToAdd: seq<string>, idsToRemove: seq<string>)
    ensures forall x :: x in ApplyTierUpdate(prev, idsToAdd, idsToRemove) <==>
              (x in prev || x in idsToAdd) && x !in idsToRemove
  {
    ApplyTierUpdateEffect(prev, idsToAdd, idsToRemove);
    forall x
      ensures x in ApplyTierUpdate(prev, idsToAdd, idsToRemove) <==> (x in prev || x in idsToAdd) && x !in idsToRemove
    {
      assert x in ApplyTierUpdate(prev, idsToAdd, idsToRemove) <==>
             x in Elems(ApplyTierUpdate(prev, idsToAdd, idsToRemove));
    }
  }

  /** The bulk toggle as the source runs it: a copy of the set, then one add or delete per category id. */
  method RunToggleCategory(prev: seq<string>, items: seq<Item>) returns (next: seq<string>)
    ensures next == ToggleCategory(prev, items)
  {
    var categoryItemIds := CategoryIds(items);
    var allCompleted := |KeepMembers(prev, Elems(categoryItemIds))| == |categoryItemIds|;
    next := FromSeq(prev);
    ghost var start := next;
    for i := 0 to |categoryItemIds|
      invariant next == (if allCompleted then DeleteAll(start, categoryItemIds[..i])
                         else AddAll(start, categoryItemIds[..i]))
    {
      if allCompleted {
        DeleteAllStep(start, categoryItemIds, i);
        next := Delete(next, categoryItemIds[i]);
      } else {
        AddAllStep(start, categoryItemIds, i);
        next := Add(next, categoryItemIds[i]);
      }
    }
    assert categoryItemIds[..|categoryItemIds|] == categoryItemIds;
  }

  /** The diary batch update as the source runs it: every add, then every delete. */
  method RunTierUpdate(prev: seq<string>, idsToAdd: seq<string>, idsToRemove: seq<string>)
    returns (next: seq<string>)
    ensures next == ApplyTierUpdate(prev, idsToAdd, idsToRemove)
  {
    next := FromSeq(prev);
    ghost var start := next;
    for i := 0 to |idsToAdd|
      invariant next == AddAll(start, idsToAdd[..i])
    {
      AddAllStep(start, idsToAdd, i);
      next := Add(next, idsToAdd[i]);
    }
    assert idsToAdd[..|idsToAdd|] == idsToAdd;
    ghost var added := next;
    for i := 0 to |idsToRemove|
      invariant next == DeleteAll(added, idsToRemove[..i])
    {
      DeleteAllStep(added, idsToRemove, i);
      next := Delete(next, idsToRemove[i]);
    }
    assert idsToRemove[..|idsToRemove|] == idsToRemove;
  }
}
