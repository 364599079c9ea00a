/**
  What the checklist derives from the shown items: the sections of a tab
  with headers, the number of search results, and whether the whole tab is
  hidden because every item is complete.
*/
module ChecklistView {
  import opened Common
  import opened Text
  import opened Types
  import opened Progress
  import opened Filtering
  import opened Diaries
  import opened Order

  /** One rendered section: a header and the shown items under it. */
  datatype Section = Section(header: Item, items: seq<Item>)

  /**
    The `forEach` that builds `sectionList`: a header opens a section, any
    other item joins the last section, and items before the first header are
    dropped.
  */
  function RawSections(processed: seq<Item>): (r: seq<Section>)
    ensures |r| > 0 <==> HasHeaders(processed)
    decreases |processed|
  {
    if |processed| == 0 then []
    else
      var init, x := processed[..|processed| - 1], processed[|processed| - 1];
      var secs := RawSections(init);
      assert HasHeaders(processed) <==> HasHeaders(init) || x.isHeader by {
        assert forall i :: 0 <= i < |init| ==> init[i] == processed[i];
      }
      if x.isHeader then secs + [Section(x, [])]
      else if |secs| > 0 then secs[..|secs| - 1] + [Section(secs[|secs| - 1].header, secs[|secs| - 1].items + [x])]
      else secs
  }

  /** The section filter: a section stays when it has items, or a search runs and its header matches. */
  predicate SectionKept(s: Section, query: string)
  {
    |s.items| > 0 || (query != "" && Includes(s.header.labelText, query))
  }

  /** `sectionList.filter(…)`. */
  function KeepSections(secs: seq<Section>, query: string): (r: seq<Section>)
    ensures |r| <= |secs|
    ensures forall s :: s in r <==> s in secs && SectionKept(s, query)
    ensures SubseqOf(r, secs)
    decreases |secs|
  {
    if |secs| == 0 then []
    else
      var last := secs[|secs| - 1];
      var rest := KeepSections(secs[..|secs| - 1], query);
      SubseqStep(rest, secs, SectionKept(last, query));
      rest + (if SectionKept(last, query) then [last] else [])
  }

  /**
    `sections`: none when the active tab's own items hold no header (or no
    tab is active); otherwise the kept sections built from the shown items.
  */
  function Sections(active: Option<Category>, processed: seq<Item>, query: string): (r: Option<seq<Section>>)
    ensures r.Some? <==> active.Some? && HasHeaders(active.value.items)
    ensures r.Some? ==> forall s :: s in r.value ==> s in RawSections(processed) && SectionKept(s, query)
    ensures r.Some? && |r.value| > 0 ==> HasHeaders(processed)
  {
    if active.None? || !HasHeaders(active.value.items) then None
    else Some(KeepSections(RawSections(processed), query))
  }

  /** The section builder as the source runs it: one pass over the shown items, then the filter. */
  method BuildSections(processed: seq<Item>, query: string) returns (sections: seq<Section>)
    ensures sections == KeepSections(RawSections(processed), query)
  {
    var sectionList: seq<Section> := [];
    for i := 0 to |processed|
      invariant sectionList == RawSections(processed[..i])
    {
      var item := processed[i];
      assert processed[..i + 1][..i] == processed[..i];
      assert processed[..i + 1][i] == item;
      if item.isHeader {
        sectionList := sectionList + [Section(item, [])];
      } else if |sectionList| > 0 {
        var last := sectionList[|sectionList| - 1];
        sectionList := sectionList[..|sectionList| - 1] + [Section(last.header, last.items + [item])];
      }
    }
    assert processed[..|processed|] == processed;
    sections := KeepSections(sectionList, query);
  }

  /** The sections' items in order: each header followed by its items. */
  function SectionItems(secs: seq<Section>): seq<Item>
    decreases |secs|
  {
    if |secs| == 0 then []
    else SectionItems(secs[..|secs| - 1]) + ([secs[|secs| - 1].header] + secs[|secs| - 1].items)
  }

  /** The list from its first header on. */
  function FromFirstHeader(processed: seq<Item>): (r: seq<Item>)
    decreases |processed|
  {
    if |processed| == 0 then []
    else
      var init, x := processed[..|processed| - 1], processed[|processed| - 1];
      if x.isHeader || HasHeaders(init) then FromFirstHeader(init) + [x] else []
  }

  /** A section's header is a header and none of its items is. */
  predicate SectionShaped(s: Section)
  {
    s.header.isHeader && forall x :: x in s.items ==> !x.isHeader
  }

  /** Every section of the list passes the section filter. */
  predicate AllKept(secs: seq<Section>, query: string)
  {
    forall s :: s in secs ==> SectionKept(s, query)
  }

  /** One more section appends its header and items. */
  lemma SectionItemsSnoc(front: seq<Section>, s: Section)
    ensures SectionItems(front + [s]) == SectionItems(front) + ([s.header] + s.items)
  {
    assert (front + [s])[..|front|] == front;
  }

  /** Growing the last section by one item appends that item to the sections' items. */
  lemma SectionItemsGrowLast(secs: seq<Section>, next: seq<Section>, x: Item)
    requires |secs| > 0 && |next| == |secs| && next[..|next| - 1] == secs[..|secs| - 1]
    requires next[|next| - 1] == Section(secs[|secs| - 1].header, secs[|secs| - 1].items + [x])
    ensures SectionItems(next) == SectionItems(secs) + [x]
  {
    var front, last := secs[..|secs| - 1], secs[|secs| - 1];
    calc {
      SectionItems(next);
      SectionItems(front) + ([last.header] + (last.items + [x]));
      { assert [last.header] + (last.items + [x]) == ([last.header] + last.items) + [x]; }
      SectionItems(front) + (([last.header] + last.items) + [x]);
      (SectionItems(front) + ([last.header] + last.items)) + [x];
    }
  }

  /** Building the sections of a non-empty list adds its last item once a header has been seen. */
  lemma RawSectionsItemsStep(processed: seq<Item>)
    requires |processed| > 0
    ensures var init, x := processed[..|processed| - 1], processed[|processed| - 1];
            SectionItems(RawSections(processed)) ==
              if x.isHeader || HasHeaders(init) then SectionItems(RawSections(init)) + [x] else []
  {
    var init, x := processed[..|processed| - 1], processed[|processed| - 1];
    var secs := RawSections(init);
    if x.isHeader {
      SectionItemsSnoc(secs, Section(x, []));
      assert [x] + [] == [x];
    } else if |secs| > 0 {
      SectionItemsGrowLast(secs, RawSections(processed), x);
    }
  }

  /** The sections hold the shown items from the first header on, in order. */
  lemma {:induction false} RawSectionsItems(processed: seq<Item>)
    ensures SectionItems(RawSections(processed)) == FromFirstHeader(processed)
    decreases |processed|
  {
    if |processed| > 0 {
      RawSectionsItems(processed[..|processed| - 1]);
      RawSectionsItemsStep(processed);
    }
  }

  /** Every section of the list is well shaped. */
  predicate AllShaped(secs: seq<Section>)
  {
    forall k :: 0 <= k < |secs| ==> SectionShaped(secs[k])
  }

  /** A well-shaped section after well-shaped ones. */
  lemma AllShapedSnoc(secs: seq<Section>, s: Section)
    requires AllShaped(secs) && SectionShaped(s)
    ensures AllShaped(secs + [s])
  {
    var r := secs + [s];
    forall k | 0 <= k < |r|
      ensures SectionShaped(r[k])
    {
      if k < |secs| {
        assert r[k] == secs[k];
      }
    }
  }

  /** Growing the last section by a non-header item keeps every section well shaped. */
  lemma AllShapedGrowLast(secs: seq<Section>, next: seq<Section>, x: Item)
    requires AllShaped(secs) && !x.isHeader
    requires |secs| > 0 && |next| == |secs| && next[..|next| - 1] == secs[..|secs| - 1]
    requires next[|next| - 1] == Section(secs[|secs| - 1].header, secs[|secs| - 1].items + [x])
    ensures AllShaped(next)
  {
    forall k | 0 <= k < |next|
      ensures SectionShaped(next[k])
    {
      if k < |next| - 1 {
        assert next[k] == next[..|next| - 1][k];
      }
    }
  }

  /** Building the sections of a non-empty list keeps every section well shaped. */
  lemma RawSectionsShapeStep(processed: seq<Item>)
    requires |processed| > 0
    requires AllShaped(RawSections(processed[..|processed| - 1]))
    ensures AllShaped(RawSections(processed))
  {
    var init, x := processed[..|processed| - 1], processed[|processed| - 1];
    var secs := RawSections(init);
    if x.isHeader {
      AllShapedSnoc(secs, Section(x, []));
    } else if |secs| > 0 {
      AllShapedGrowLast(secs, RawSections(processed), x);
    }
  }

  /** Every section starts with a header and holds no other header. */
  lemma {:induction false} RawSectionsShape(processed: seq<Item>)
    ensures AllShaped(RawSections(processed))
    decreases |processed|
  {
    if |processed| > 0 {
      RawSectionsShape(processed[..|processed| - 1]);
      RawSectionsShapeStep(processed);
    }
  }

  /**
    The sections hold the shown items from the first header on, in order,
    each once: only the items before the first header are lost.
  */
  lemma RawSectionsCover(processed: seq<Item>)
    ensures SectionItems(RawSections(processed)) == FromFirstHeader(processed)
    ensures forall s :: s in RawSections(processed) ==> s.header.isHeader && forall x :: x in s.items ==> !x.isHeader
  {
    RawSectionsItems(processed);
    RawSectionsShape(processed);
    var secs := RawSections(processed);
    forall s | s in secs
      ensures SectionShaped(s)
    {
      var k :| 0 <= k < |secs| && secs[k] == s;
    }
  }

  /** Shown items with no header before them open no section. */
  lemma {:induction false} RawSectionsOfItems(processed: seq<Item>)
    requires forall x :: x in processed ==> !x.isHeader
    ensures RawSections(processed) == []
    decreases |processed|
  {
    if |processed| > 0 {
      var init := processed[..|processed| - 1];
      assert forall x :: x in init ==> x in processed;
      RawSectionsOfItems(init);
    }
  }

  /** Dropping the last item leaves the part before `j` alone and shortens the part after it by that item. */
  lemma SlicesAroundInit(processed: seq<Item>, j: nat)
    requires j + 1 < |processed|
    ensures var init := processed[..|processed| - 1];
            && init[..j] == processed[..j]
            && init[j + 1..] + [processed[|processed| - 1]] == processed[j + 1..]
  {
  }

  /** A list of sections without its last one. */
  lemma SectionsInit(before: seq<Section>, s: Section)
    ensures (before + [s])[..|before|] == before
  {
  }

  /** One more non-header item joins the last section. */
  lemma RawSectionsLastHeaderStep(processed: seq<Item>, j: nat)
    requires j + 1 < |processed| && !processed[|processed| - 1].isHeader
    requires var init := processed[..|processed| - 1];
             RawSections(init) == RawSections(init[..j]) + [Section(processed[j], init[j + 1..])]
    ensures RawSections(processed) == RawSections(processed[..j]) + [Section(processed[j], processed[j + 1..])]
  {
    var init := processed[..|processed| - 1];
    SlicesAroundInit(processed, j);
    SectionsInit(RawSections(init[..j]), Section(processed[j], init[j + 1..]));
  }

  /** The items after the last header form the last section, started by that header. */
  lemma {:induction false} RawSectionsLastHeader(processed: seq<Item>, j: nat)
    requires j < |processed| && processed[j].isHeader
    requires forall i :: j < i < |processed| ==> !processed[i].isHeader
    ensures RawSections(processed) == RawSections(processed[..j]) + [Section(processed[j], processed[j + 1..])]
    decreases |processed|
  {
    if |processed| == j + 1 {
      assert processed[j + 1..] == [];
    } else {
      var init := processed[..|processed| - 1];
      RawSectionsLastHeader(init, j);
      RawSectionsLastHeaderStep(processed, j);
    }
  }

  /** Segments that are well formed stay so without the last one, when more than one remains. */
  lemma WellFormedInit(segs: seq<Segment>)
    requires WellFormed(segs) && |segs| > 1
    ensures WellFormed(segs[..|segs| - 1])
  {
    var init := segs[..|segs| - 1];
    assert forall k :: 0 <= k < |init| ==> init[k] == segs[k];
  }

  /** Appending the output of one more well-formed segment keeps every built section kept. */
  lemma AllKeptStep(before: seq<Item>, seg: Segment, query: string, hideCompleted: bool, completed: set<string>)
    requires seg.header.Some? && seg.header.value.isHeader && forall x :: x in seg.body ==> !x.isHeader
    requires AllKept(RawSections(before), query)
    ensures AllKept(RawSections(before + SectionOutput(seg, query, hideCompleted, completed)), query)
  {
    var kept := Kept(seg.body, seg.header, query, hideCompleted, completed);
    var out := before + SectionOutput(seg, query, hideCompleted, completed);
    if |kept| > 0 || HeaderMatches(seg.header, query) {
      var j := |before|;
      assert out[..j] == before && out[j] == seg.header.value && out[j + 1..] == kept;
      assert forall i :: j < i < |out| ==> out[i] in kept;
      RawSectionsLastHeader(out, j);
    } else {
      assert out == before;
    }
  }

  /**
    For well-formed segments, the sections built from the sectioned pass's
    output all pass the section filter: each header it emits either has kept
    items right after it or matches the search.
  */
  lemma {:induction false} SectionsOutputAllKept(segs: seq<Segment>, query: string, hideCompleted: bool, completed: set<string>)
    requires WellFormed(segs)
    ensures AllKept(RawSections(SectionsOutput(segs, query, hideCompleted, completed)), query)
    decreases |segs|
  {
    var init, seg := segs[..|segs| - 1], segs[|segs| - 1];
    var kept := Kept(seg.body, seg.header, query, hideCompleted, completed);
    if |segs| == 1 {
      assert forall x :: x in kept ==> !x.isHeader by {
        assert seg == segs[|segs| - 1];
      }
      RawSectionsOfItems(kept);
      assert SectionsOutput(segs, query, hideCompleted, completed) == kept;
    } else {
      WellFormedInit(segs);
      SectionsOutputAllKept(init, query, hideCompleted, completed);
      AllKeptStep(SectionsOutput(init, query, hideCompleted, completed), seg, query, hideCompleted, completed);
    }
  }

  /**
    On a tab with headers the section filter never drops a section the
    sectioned pass produced: it would only matter for shown items built
    some other way.
  */
  lemma SectionFilterRedundant(items: seq<Item>, query: string, hideCompleted: bool, completed: set<string>)
    ensures var secs := RawSections(HeaderFiltered(items, query, hideCompleted, completed));
            KeepSections(secs, query) == secs
  {
    SegmentsWellFormed(items);
    SectionsOutputAllKept(Segments(items), query, hideCompleted, completed);
    KeepAllKept(RawSections(HeaderFiltered(items, query, hideCompleted, completed)), query);
  }

  /** A non-empty list of sections is its first sections and then its last. */
  lemma SectionsInitLast(secs: seq<Section>)
    requires |secs| > 0
    ensures secs[..|secs| - 1] + [secs[|secs| - 1]] == secs
  {
  }

  /** The filter keeps a list whose every section passes it. */
  lemma {:induction false} KeepAllKept(secs: seq<Section>, query: string)
    requires AllKept(secs, query)
    ensures KeepSections(secs, query) == secs
    decreases |secs|
  {
    if |secs| > 0 {
      var init, last := secs[..|secs| - 1], secs[|secs| - 1];
      assert AllKept(init, query) by {
        assert forall s :: s in init ==> s in secs;
      }
      KeepAllKept(init, query);
      assert SectionKept(last, query) by { assert last in secs; }
      SectionsInitLast(secs);
    }
  }

  // ----- counts and the hidden-tab notice -----

  /** `searchResultsCount`: the shown regions on the diary tab, otherwise the shown non-header items. */
  function SearchResultsCount(diaryRegions: Option<seq<RegionGroup>>, processed: seq<Item>): (n: nat)
    ensures diaryRegions.Some? ==> n == |diaryRegions.value|
    ensures diaryRegions.None? ==> n <= |processed|
    ensures diaryRegions.None? ==> (n == 0 <==> forall x :: x in processed ==> x.isHeader)
  {
    if diaryRegions.Some? then |diaryRegions.value|
    else
      var shown := NonHeaders(processed);
      assert |shown| == 0 || shown[0] in shown;
      |shown|
  }

  /** `isCategoryCompleteAndHidden`: hiding is on, every counted item is done, and no search runs. */
  function CompleteAndHidden(hideCompleted: bool, progress: CategoryCounts, query: string): (b: bool)
    ensures b ==> hideCompleted && query == "" && 0 < progress.completed == progress.total
  {
    hideCompleted && AllComplete(progress) && query == ""
  }

  /**
    When the tab counts as complete and hidden, the item list indeed shows
    no item: every item it could show is complete and so hidden.
  */
  lemma CompleteAndHiddenShowsNoItem(active: Option<Category>, settings: AppSettings, completedIds: seq<string>,
                                     sortBy: SortBy)
    requires active.Some?
    requires CompleteAndHidden(true, CategoryProgress(active.value.items, active, settings, completedIds), "")
    ensures forall x :: x in ProcessedItems(active, settings, "", true, completedIds, sortBy) ==> x.isHeader
  {
    var out := ProcessedItems(active, settings, "", true, completedIds, sortBy);
    ProcessedItemsMeaning(active, settings, "", true, completedIds, sortBy);
    AllCompleteMeaning(active.value.items, active, settings, completedIds);
  }
}
