/**
  The checklist component's own state and its event handlers. The completion
  list is the persisted array of completed ids; every handler that changes it
  rebuilds it through a set, so after any handler it holds each id once.
*/
module Checklist {
  import opened Common
  import opened IdSet
  import opened Types
  import opened Completion

  /** `checklistData.find(c => c.id === id)`: the first category with that id. */
  function FindCategory(data: seq<Category>, id: string): (r: Option<Category>)
    ensures r.Some? ==> r.value in data && r.value.id == id
    ensures r.None? <==> forall c :: c in data ==> c.id != id
    decreases |data|
  {
    if |data| == 0 then None
    else if data[0].id == id then Some(data[0])
    else FindCategory(data[1..], id)
  }

  /** The category found is the first one with the id: `find` scans from the front. */
  lemma {:induction false} FindCategoryFirst(data: seq<Category>, id: string, k: nat)
    requires k < |data| && data[k].id == id
    requires forall j :: 0 <= j < k ==> data[j].id != id
    ensures FindCategory(data, id) == Some(data[k])
    decreases k
  {
    if k > 0 {
      var rest := data[1..];
      assert forall j :: 0 <= j < k - 1 ==> rest[j] == data[j + 1];
      FindCategoryFirst(rest, id, k - 1);
    }
  }

  /** The tab selected on first render: the first category's id, or "" when there is none. */
  function InitialCategoryId(data: seq<Category>): (r: string)
    ensures |data| > 0 ==> FindCategory(data, r) == Some(data[0])
  {
    if |data| > 0 then data[0].id else ""
  }

  /** The sections expanded after opening a tab: the first clue section on the collection log, none elsewhere. */
  function ExpandedOnOpen(categoryId: string): (r: set<string>)
    ensures categoryId == CollectionLogId <==> r == {DefaultExpandedSection}
    ensures categoryId != CollectionLogId <==> r == {}
  {
    if categoryId == CollectionLogId then {DefaultExpandedSection} else {}
  }

  class ChecklistState {
    /** The catalog of the selected account's dataset. */
    const data: seq<Category>
    /** The persisted array of completed ids. */
    var completedIds: seq<string>
    var activeCategoryId: string
    var searchQuery: string
    var sortBy: SortBy
    var hideCompleted: bool
    var expandedSections: set<string>

    /** The tab being shown, if its id names a category. */
    function ActiveCategory(): (r: Option<Category>)
      reads this
      ensures r.Some? ==> r.value in data && r.value.id == activeCategoryId
    {
      FindCategory(data, activeCategoryId)
    }

    /**
      First render: `stored` is what the storage hook returns for this
      account's key; the first tab is open with its default expanded section.
    */
    constructor (data: seq<Category>, stored: seq<string>)
      ensures this.data == data && completedIds == stored
      ensures activeCategoryId == InitialCategoryId(data)
      ensures searchQuery == "" && sortBy == Default && !hideCompleted
      ensures expandedSections == {DefaultExpandedSection}
    {
      this.data := data;
      completedIds := stored;
      activeCategoryId := InitialCategoryId(data);
      searchQuery := "";
      sortBy := Default;
      hideCompleted := false;
      expandedSections := {DefaultExpandedSection};
    }

    /** `handleTabClick`: open a tab, clear the search, reset the sort and the expanded sections. */
    method TabClick(categoryId: string)
      modifies this
      ensures activeCategoryId == categoryId
      ensures searchQuery == "" && sortBy == Default
      ensures expandedSections == ExpandedOnOpen(categoryId)
      ensures completedIds == old(completedIds) && hideCompleted == old(hideCompleted)
    {
      activeCategoryId := categoryId;
      searchQuery := "";
      sortBy := Default;
      expandedSections := ExpandedOnOpen(categoryId);
    }

    /** `handleToggleItem`: flip one id; every other id keeps its state. */
    method ToggleItem(itemId: string)
      modifies this
      ensures completedIds == ToggleId(old(completedIds), itemId)
      ensures Distinct(completedIds)
      ensures itemId in completedIds <==> itemId !in old(completedIds)
      ensures forall x :: x != itemId ==> (x in completedIds <==> x in old(completedIds))
      ensures activeCategoryId == old(activeCategoryId) && searchQuery == old(searchQuery)
      ensures sortBy == old(sortBy) && hideCompleted == old(hideCompleted)
      ensures expandedSections == old(expandedSections)
    {
      ToggleIdFlipsOnlyThatId(completedIds, itemId);
      completedIds := ToggleId(completedIds, itemId);
    }

    /** `toggleSection`: expand or collapse one section header. */
    method ToggleSectionExpanded(sectionId: string)
      modifies this
      ensures expandedSections == ToggleSection(old(expandedSections), sectionId)
      ensures sectionId in expandedSections <==> sectionId !in old(expandedSections)
      ensures completedIds == old(completedIds) && activeCategoryId == old(activeCategoryId)
      ensures searchQuery == old(searchQuery) && sortBy == old(sortBy) && hideCompleted == old(hideCompleted)
    {
      expandedSections := ToggleSection(expandedSections, sectionId);
    }

    /**
      `handleToggleCategory`: complete every item of the list, or clear them
      all when all were complete; ids of other items keep their state.
    */
    method ToggleCategoryItems(items: seq<Item>)
      modifies this
      ensures completedIds == ToggleCategory(old(completedIds), items)
      ensures Distinct(completedIds)
      ensures Distinct(old(completedIds)) && CategoryIdSet(items) <= Elems(old(completedIds)) ==>
                Elems(completedIds) == Elems(old(completedIds)) - CategoryIdSet(items)
      ensures Distinct(old(completedIds)) && !(CategoryIdSet(items) <= Elems(old(completedIds))) ==>
                Elems(completedIds) == Elems(old(completedIds)) + CategoryIdSet(items)
      ensures activeCategoryId == old(activeCategoryId) && searchQuery == old(searchQuery)
      ensures sortBy == old(sortBy) && hideCompleted == old(hideCompleted)
      ensures expandedSections == old(expandedSections)
    {
      if Distinct(completedIds) {
        BulkToggleEffect(completedIds, items);
      }
      completedIds := RunToggleCategory(completedIds, items);
    }

    /** `handleDiaryTiersUpdate`: add one batch of ids, then remove another. */
    method UpdateDiaryTiers(idsToAdd: seq<string>, idsToRemove: seq<string>)
      modifies this
      ensures completedIds == ApplyTierUpdate(old(completedIds), idsToAdd, idsToRemove)
      ensures Distinct(completedIds)
      ensures Elems(completedIds) == (Elems(old(completedIds)) + Elems(idsToAdd)) - Elems(idsToRemove)
      ensures activeCategoryId == old(activeCategoryId) && searchQuery == old(searchQuery)
      ensures sortBy == old(sortBy) && hideCompleted == old(hideCompleted)
      ensures expandedSections == old(expandedSections)
    {
      ApplyTierUpdateEffect(completedIds, idsToAdd, idsToRemove);
      completedIds := RunTierUpdate(completedIds, idsToAdd, idsToRemove);
    }

    /** The search box's `onChange`. */
    method SetSearchQuery(query: string)
      modifies this
      ensures searchQuery == query
      ensures completedIds == old(completedIds) && activeCategoryId == old(activeCategoryId)
      ensures sortBy == old(sortBy) && hideCompleted == old(hideCompleted)
      ensures expandedSections == old(expandedSections)
    {
      searchQuery := query;
    }

    /** The sort selector's `onChange`. */
    method SetSortBy(order: SortBy)
      modifies this
      ensures sortBy == order
      ensures completedIds == old(completedIds) && activeCategoryId == old(activeCategoryId)
      ensures searchQuery == old(searchQuery) && hideCompleted == old(hideCompleted)
      ensures expandedSections == old(expandedSections)
    {
      sortBy := order;
    }

    /** The "hide completed" checkbox's `onChange`. */
    method SetHideCompleted(checked: bool)
      modifies this
      ensures hideCompleted == checked
      ensures completedIds == old(completedIds) && activeCategoryId == old(activeCategoryId)
      ensures searchQuery == old(searchQuery) && sortBy == old(sortBy)
      ensures expandedSections == old(expandedSections)
    {
      hideCompleted := checked;
    }
  }
}
