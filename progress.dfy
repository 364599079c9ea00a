/**
  Progress counting: the per-category badge counts and the overall counts of
  the progress bar, with the rule that items labelled "3rd age" may be left
  out of the counts.
*/
module Progress {
  import opened Common
  import opened Text
  import opened IdSet
  import opened Types
  import opened Completion
  import opened Order

  /** `isThirdAge`: the lower-cased label contains "3rd age", so a search for "3rd age" finds exactly these items. */
  function IsThirdAge(item: Item): (b: bool)
    ensures b <==> MatchesQuery(item.labelText, "3rd age")
  {
    assert ToLower("3rd age") == "3rd age";
    Contains(ToLower(item.labelText), "3rd age")
  }

  /** `items.filter(item => !isThirdAge(item))`. */
  function WithoutThirdAge(items: seq<Item>): (r: seq<Item>)
    ensures |r| <= |items|
    ensures forall x :: x in r <==> x in items && !IsThirdAge(x)
    ensures SubseqOf(r, items)
    decreases |items|
  {
    if |items| == 0 then []
    else
      var last := items[|items| - 1];
      var rest := WithoutThirdAge(items[..|items| - 1]);
      SubseqStep(rest, items, !IsThirdAge(last));
      rest + (if IsThirdAge(last) then [] else [last])
  }

  /** The number of non-header "3rd age" items. */
  function ThirdAgeCount(items: seq<Item>): nat
    decreases |items|
  {
    if |items| == 0 then 0
    else
      var last := items[|items| - 1];
      ThirdAgeCount(items[..|items| - 1]) + (if !last.isHeader && IsThirdAge(last) then 1 else 0)
  }

  /** The items a count covers: the non-header items, without the "3rd age" ones when `dropThirdAge`. */
  function CountedItems(items: seq<Item>, dropThirdAge: bool): (r: seq<Item>)
    ensures forall x :: x in r <==> x in items && !x.isHeader && !(dropThirdAge && IsThirdAge(x))
  {
    if dropThirdAge then WithoutThirdAge(NonHeaders(items)) else NonHeaders(items)
  }

  /** Leaving out the "3rd age" items shortens the non-header list by exactly their number. */
  lemma {:induction false} DropThirdAgeCount(items: seq<Item>)
    ensures |CountedItems(items, true)| + ThirdAgeCount(items) == |CountedItems(items, false)|
    decreases |items|
  {
    if |items| > 0 {
      var init, last := items[..|items| - 1], items[|items| - 1];
      DropThirdAgeCount(init);
      var before := NonHeaders(init);
      if !last.isHeader {
        assert NonHeaders(items) == before + [last];
        assert (before + [last])[..|before|] == before;
        assert WithoutThirdAge(before + [last]) ==
               WithoutThirdAge(before) + (if IsThirdAge(last) then [] else [last]);
      } else {
        assert NonHeaders(items) == before;
      }
    }
  }

  // ----- the overall progress bar -----

  /** The contribution of one category to `totalItems`. */
  function CategoryTotal(category: Category, settings: AppSettings): nat
  {
    |CountedItems(category.items, category.id == CollectionLogId && !settings.countThirdAge)|
  }

  /**
    `totalItems`: the sum of the category totals. It never exceeds the number
    of non-header items, and equals it when "3rd age" items count.
  */
  function TotalItems(data: seq<Category>, settings: AppSettings): (r: nat)
    ensures r <= |AllTracked(data)|
    ensures settings.countThirdAge ==> r == |AllTracked(data)|
    decreases |data|
  {
    if |data| == 0 then 0
    else TotalItems(data[..|data| - 1], settings) + CategoryTotal(data[|data| - 1], settings)
  }

  /** The number of non-header "3rd age" items in the collection-log categories. */
  function CollectionLogThirdAge(data: seq<Category>): nat
    decreases |data|
  {
    if |data| == 0 then 0
    else
      var last := data[|data| - 1];
      CollectionLogThirdAge(data[..|data| - 1]) + (if last.id == CollectionLogId then ThirdAgeCount(last.items) else 0)
  }

  /**
    The flag changes the overall total only through the collection log: with
    the flag off, the total is the flag-on total less the collection log's
    "3rd age" items; "3rd age" items of any other category still count.
  */
  lemma {:induction false} TotalDropsOnlyCollectionLogThirdAge(data: seq<Category>)
    ensures TotalItems(data, AppSettings(false)) + CollectionLogThirdAge(data) == TotalItems(data, AppSettings(true))
    decreases |data|
  {
    if |data| > 0 {
      TotalDropsOnlyCollectionLogThirdAge(data[..|data| - 1]);
      DropThirdAgeCount(data[|data| - 1].items);
    }
  }

  /** Every non-header item of every category, in catalog order. */
  function AllTracked(data: seq<Category>): (r: seq<Item>)
    ensures forall x :: x in r ==> !x.isHeader
    ensures forall c, x :: c in data && x in c.items && !x.isHeader ==> x in r
    decreases |data|
  {
    if |data| == 0 then []
    else
      var init := data[..|data| - 1];
      assert forall c :: c in data ==> c in init || c == data[|data| - 1];
      AllTracked(init) + NonHeaders(data[|data| - 1].items)
  }

  /** `allItemsMap.get(id)`: every later item overwrites an earlier one with the same id, so the last wins. */
  function LastWithId(items: seq<Item>, id: string): (r: Option<Item>)
    ensures r.Some? ==> r.value in items && r.value.id == id
    ensures r.None? <==> forall x :: x in items ==> x.id != id
    decreases |items|
  {
    if |items| == 0 then None
    else if items[|items| - 1].id == id then Some(items[|items| - 1])
    else LastWithId(items[..|items| - 1], id)
  }

  /** The item found is the last one with the id: a later entry overwrites an earlier one in the id map. */
  lemma {:induction false} LastWithIdLast(items: seq<Item>, id: string, k: nat)
    requires k < |items| && items[k].id == id
    requires forall j :: k < j < |items| ==> items[j].id != id
    ensures LastWithId(items, id) == Some(items[k])
    decreases |items|
  {
    if k < |items| - 1 {
      var init := items[..|items| - 1];
      assert forall j :: k < j < |init| ==> init[j] == items[j];
      LastWithIdLast(init, id, k);
    }
  }

  /** Whether a completed id counts when the flag is off: it names a known, non-"3rd age" item. */
  predicate CountsAsDone(data: seq<Category>, id: string)
  {
    var found := LastWithId(AllTracked(data), id);
    found.Some? && !IsThirdAge(found.value)
  }

  /** `filteredCompletedIds`: the ids that name a known, non-"3rd age" item. */
  function KnownCompleted(ids: seq<string>, data: seq<Category>): (r: seq<string>)
    ensures Elems(r) == set id | id in ids && CountsAsDone(data, id)
    ensures Distinct(ids) ==> Distinct(r)
    ensures |r| <= |ids|
    decreases |ids|
  {
    if |ids| == 0 then []
    else
      var init, last := ids[..|ids| - 1], ids[|ids| - 1];
      assert ids == init + [last];
      var rest := KnownCompleted(init, data);
      assert last in rest ==> last in init;
      rest + (if CountsAsDone(data, last) then [last] else [])
  }

  /**
    `completedItemsCount`: the set size with the flag on, else the number of
    known, non-"3rd age" ids; never more than the stored array's length.
  */
  function CompletedItemsCount(data: seq<Category>, completedIds: seq<string>, settings: AppSettings): (r: nat)
    ensures r <= |completedIds|
  {
    var ids := FromSeq(completedIds);
    DistinctSize(ids);
    ElemsSize(completedIds);
    if settings.countThirdAge then |ids| else |KnownCompleted(ids, data)|
  }

  /**
    The completed count: with the flag on it is the number of distinct stored
    ids, stale ones included; with it off, the number of distinct ids naming a
    known non-header, non-"3rd age" item.
  */
  lemma CompletedItemsCountMeaning(data: seq<Category>, completedIds: seq<string>, settings: AppSettings)
    ensures settings.countThirdAge ==> CompletedItemsCount(data, completedIds, settings) == |Elems(completedIds)|
    ensures !settings.countThirdAge ==>
              CompletedItemsCount(data, completedIds, settings) ==
              |set id | id in completedIds && CountsAsDone(data, id)|
  {
    var ids := FromSeq(completedIds);
    if settings.countThirdAge {
      DistinctSize(ids);
    } else {
      DistinctSize(KnownCompleted(ids, data));
      KnownCompletedOfCopy(data, completedIds);
    }
  }

  /** The set copy of the array names the same known ids as the array. */
  lemma KnownCompletedOfCopy(data: seq<Category>, completedIds: seq<string>)
    ensures Elems(KnownCompleted(FromSeq(completedIds), data)) == set id | id in completedIds && CountsAsDone(data, id)
  {
    var ids := FromSeq(completedIds);
    assert forall id :: id in ids <==> id in completedIds by {
      assert Elems(ids) == Elems(completedIds);
    }
  }

  /** With the flag off, the total still covers every non-"3rd age" tracked item. */
  lemma {:induction false} TotalCoversNonThirdAge(data: seq<Category>)
    ensures |WithoutThirdAge(AllTracked(data))| <= TotalItems(data, AppSettings(false))
    decreases |data|
  {
    if |data| > 0 {
      var init, last := data[..|data| - 1], data[|data| - 1];
      TotalCoversNonThirdAge(init);
      WithoutThirdAgeAppend(AllTracked(init), NonHeaders(last.items));
    }
  }

  /** Filtering a concatenation filters each part. */
  lemma {:induction false} WithoutThirdAgeAppend(a: seq<Item>, b: seq<Item>)
    ensures WithoutThirdAge(a + b) == WithoutThirdAge(a) + WithoutThirdAge(b)
    decreases |b|
  {
    if |b| > 0 {
      var binit, blast := b[..|b| - 1], b[|b| - 1];
      assert (a + b)[..|a + b| - 1] == a + binit;
      assert (a + b)[|a + b| - 1] == blast;
      WithoutThirdAgeAppend(a, binit);
      assert WithoutThirdAge(b) == WithoutThirdAge(binit) + (if IsThirdAge(blast) then [] else [blast]);
    } else {
      assert a + b == a;
    }
  }

  /**
    The overall completed count never exceeds the overall total when the flag
    is off, or when every stored id names a tracked item. With the flag on and
    a stale id stored, it can (see `StaleIdOverCounts`).
  */
  lemma GlobalCompletedAtMostTotal(data: seq<Category>, completedIds: seq<string>, settings: AppSettings)
    requires !settings.countThirdAge || Elems(completedIds) <= Elems(Ids(AllTracked(data)))
    ensures CompletedItemsCount(data, completedIds, settings) <= TotalItems(data, settings)
  {
    var ids := FromSeq(completedIds);
    DistinctSize(ids);
    if settings.countThirdAge {
      assert settings == AppSettings(true);
      SubsetSize(Elems(completedIds), Elems(Ids(AllTracked(data))));
      ElemsSize(Ids(AllTracked(data)));
    } else {
      assert settings == AppSettings(false);
      var known := KnownCompleted(ids, data);
      var good := WithoutThirdAge(AllTracked(data));
      DistinctSize(known);
      assert Elems(known) <= Elems(Ids(good)) by {
        forall id | id in known
          ensures id in Ids(good)
        {
          var found := LastWithId(AllTracked(data), id).value;
          assert found in good;
        }
      }
      SubsetSize(Elems(known), Elems(Ids(good)));
      ElemsSize(Ids(good));
      TotalCoversNonThirdAge(data);
    }
  }

  /** With the flag on, one stale id and no catalog gives completed 1 against total 0. */
  lemma StaleIdOverCounts()
    ensures CompletedItemsCount([], ["removed_item"], AppSettings(true)) == 1
    ensures TotalItems([], AppSettings(true)) == 0
  {
    FromDistinctSeq(["removed_item"]);
  }

  // ----- the per-category badge -----

  /** The completed and total counts of one category. */
  datatype CategoryCounts = CategoryCounts(completed: nat, total: nat)

  /** The items of `items` whose id is in `done`. */
  function DoneItems(items: seq<Item>, done: set<string>): (r: seq<Item>)
    ensures |r| <= |items|
    ensures forall x :: x in r <==> x in items && x.id in done
    decreases |items|
  {
    if |items| == 0 then []
    else
      var last := items[|items| - 1];
      DoneItems(items[..|items| - 1], done) + (if last.id in done then [last] else [])
  }

  /** Every item passes the filter exactly when the filter keeps the whole list. */
  lemma {:induction false} DoneItemsAll(items: seq<Item>, done: set<string>)
    ensures |DoneItems(items, done)| == |items| <==> forall x :: x in items ==> x.id in done
    ensures (forall x :: x in items ==> x.id !in done) ==> |DoneItems(items, done)| == 0
    decreases |items|
  {
    if |items| > 0 {
      var init, last := items[..|items| - 1], items[|items| - 1];
      assert items == init + [last];
      DoneItemsAll(init, done);
    }
  }

  /** Whether the active tab drops "3rd age" items from badge counts: only the collection-log tab does. */
  predicate DropsThirdAge(active: Option<Category>, settings: AppSettings)
  {
    active.Some? && active.value.id == CollectionLogId && !settings.countThirdAge
  }

  /**
    `getCategoryProgress(items)`: counts the non-header items and the completed
    ones among them; the "3rd age" rule follows the active tab, not the
    category counted.
  */
  function CategoryProgress(items: seq<Item>, active: Option<Category>, settings: AppSettings, completedIds: seq<string>)
    : (p: CategoryCounts)
    ensures p.completed <= p.total <= |items|
  {
    var actual := CountedItems(items, DropsThirdAge(active, settings));
    assert |actual| <= |items| by {
      assert |NonHeaders(items)| <= |items|;
    }
    CategoryCounts(|DoneItems(actual, Elems(completedIds))|, |actual|)
  }

  /**
    The badge counts: the total is the number of non-header items, less the
    "3rd age" ones when the active tab drops them; the completed count is the
    number of those same items whose id is stored, so a dropped item leaves
    both counts.
  */
  lemma CategoryProgressMeaning(items: seq<Item>, active: Option<Category>, settings: AppSettings,
                                completedIds: seq<string>)
    ensures var p := CategoryProgress(items, active, settings, completedIds);
            var drop := DropsThirdAge(active, settings);
            var done := DoneItems(CountedItems(items, drop), Elems(completedIds));
            && p.total == |NonHeaders(items)| - (if drop then ThirdAgeCount(items) else 0)
            && p.completed == |done|
            && forall x :: x in done <==>
                 x in items && !x.isHeader && !(drop && IsThirdAge(x)) && x.id in completedIds
  {
    DropThirdAgeCount(items);
  }

  /** `areAllInCategoryCompleted` and the badge's check mark: a non-zero total, all done. */
  function AllComplete(p: CategoryCounts): (b: bool)
    ensures b ==> 0 < p.completed == p.total
  {
    p.total > 0 && p.completed == p.total
  }

  /** A category shows as complete exactly when it has a counted item and every counted item is done. */
  lemma AllCompleteMeaning(items: seq<Item>, active: Option<Category>, settings: AppSettings, completedIds: seq<string>)
    ensures AllComplete(CategoryProgress(items, active, settings, completedIds)) <==>
              var counted := CountedItems(items, DropsThirdAge(active, settings));
              |counted| > 0 && forall x :: x in counted ==> x.id in completedIds
  {
    DoneItemsAll(CountedItems(items, DropsThirdAge(active, settings)), Elems(completedIds));
  }

  /**
    After "mark all", the badge of the category reads total/total when not all
    items were done before, and 0/total when they were.
  */
  lemma BulkToggleProgress(items: seq<Item>, active: Option<Category>, settings: AppSettings, prev: seq<string>)
    requires Distinct(prev)
    ensures var after := CategoryProgress(items, active, settings, ToggleCategory(prev, items));
            if CategoryIdSet(items) <= Elems(prev) then after.completed == 0 else after.completed == after.total
  {
    var next := ToggleCategory(prev, items);
    var counted := CountedItems(items, DropsThirdAge(active, settings));
    BulkToggleEffect(prev, items);
    DoneItemsAll(counted, Elems(next));
    assert forall x :: x in counted ==> x.id in CategoryIdSet(items) by {
      forall x | x in counted
        ensures x.id in CategoryIdSet(items)
      {
        var k :| 0 <= k < |items| && items[k] == x;
      }
    }
  }
}
