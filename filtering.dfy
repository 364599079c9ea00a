/**
  The list of items shown in the active tab (`processedItems`). A tab whose
  items include section headers is filtered section by section: an item is
  kept when it passes the search (on its own label or its header's) and the
  "hide completed" toggle, and a header is kept when something under it is
  kept or, with a search running, when the header itself matches. A tab
  without headers is filtered item by item and may be sorted by label.
*/
module Filtering {
  import opened Common
  import opened Text
  import opened Types
  import opened Sorting
  import opened Progress
  import opened Order

  /** `itemsToProcess`: the active tab's items, without "3rd age" ones on the collection-log tab when they do not count. */
  function ItemsToProcess(active: Category, settings: AppSettings): (r: seq<Item>)
    ensures forall x :: x in r <==>
              x in active.items && !(active.id == CollectionLogId && !settings.countThirdAge && IsThirdAge(x))
    ensures SubseqOf(r, active.items)
  {
    if active.id == CollectionLogId && !settings.countThirdAge then WithoutThirdAge(active.items)
    else SubseqRefl(active.items); active.items
  }

  // ----- the sectioned pass -----

  /** An item passes the search when there is none, or its label or its section header's label matches. */
  predicate SearchMatch(item: Item, header: Option<Item>, query: string)
  {
    query == "" || Includes(item.labelText, query) || (header.Some? && Includes(header.value.labelText, query))
  }

  /** An item passes "hide completed" when hiding is off or the item is not complete. */
  predicate HideMatch(item: Item, hideCompleted: bool, completed: set<string>)
  {
    !hideCompleted || item.id !in completed
  }

  /** Both filters of the sectioned pass. */
  predicate ItemShown(item: Item, header: Option<Item>, query: string, hideCompleted: bool, completed: set<string>)
  {
    SearchMatch(item, header, query) && HideMatch(item, hideCompleted, completed)
  }

  /** A search is running and the section's header label matches it. */
  predicate HeaderMatches(header: Option<Item>, query: string)
  {
    query != "" && header.Some? && Includes(header.value.labelText, query)
  }

  /** A run of the list: a header (none for the items before the first header) and the items after it. */
  datatype Segment = Segment(header: Option<Item>, body: seq<Item>)

  /**
    The list cut at every header: the first segment has no header and holds
    the items before the first header; each header starts a new segment.
  */
  function Segments(items: seq<Item>): (r: seq<Segment>)
    ensures |r| > 0
    decreases |items|
  {
    if |items| == 0 then [Segment(None, [])]
    else
      var x := items[|items| - 1];
      var segs := Segments(items[..|items| - 1]);
      if x.isHeader then segs + [Segment(Some(x), [])]
      else
        var open := segs[|segs| - 1];
        segs[..|segs| - 1] + [Segment(open.header, open.body + [x])]
  }

  /** The items of a segment in list order: its header, then its body. */
  function SegmentItems(s: Segment): seq<Item>
  {
    (if s.header.Some? then [s.header.value] else []) + s.body
  }

  /** The segments glued back together. */
  function Flatten(segs: seq<Segment>): seq<Item>
    decreases |segs|
  {
    if |segs| == 0 then []
    else Flatten(segs[..|segs| - 1]) + SegmentItems(segs[|segs| - 1])
  }

  /** Segments are well formed: only the first lacks a header, headers are headers, bodies hold none. */
  predicate WellFormed(segs: seq<Segment>)
  {
    && |segs| > 0
    && segs[0].header.None?
    && (forall k :: 0 < k < |segs| ==> segs[k].header.Some? && segs[k].header.value.isHeader)
    && (forall k, x :: 0 <= k < |segs| && x in segs[k].body ==> !x.isHeader)
  }

  /** A list ending in a header cuts into the segments of the rest, then a new, empty segment. */
  lemma SegmentsLastHeader(items: seq<Item>)
    requires |items| > 0 && items[|items| - 1].isHeader
    ensures Segments(items) == Segments(items[..|items| - 1]) + [Segment(Some(items[|items| - 1]), [])]
  {
  }

  /** A list ending in any other item cuts like the rest, with that item added to the last body. */
  lemma SegmentsLastItem(items: seq<Item>)
    requires |items| > 0 && !items[|items| - 1].isHeader
    ensures var segs, next := Segments(items[..|items| - 1]), Segments(items);
            && |next| == |segs|
            && next[..|next| - 1] == segs[..|segs| - 1]
            && next[|next| - 1] == Segment(segs[|segs| - 1].header, segs[|segs| - 1].body + [items[|items| - 1]])
  {
  }

  /** Gluing one more segment appends its items. */
  lemma FlattenSnoc(front: seq<Segment>, s: Segment)
    ensures Flatten(front + [s]) == Flatten(front) + SegmentItems(s)
  {
    assert (front + [s])[..|front|] == front;
  }

  /** Growing the last segment's body by one item appends that item to the glued list. */
  lemma FlattenGrowLast(segs: seq<Segment>, next: seq<Segment>, x: Item)
    requires |segs| > 0 && |next| == |segs| && next[..|next| - 1] == segs[..|segs| - 1]
    requires next[|next| - 1] == Segment(segs[|segs| - 1].header, segs[|segs| - 1].body + [x])
    ensures Flatten(next) == Flatten(segs) + [x]
  {
    var front, open := segs[..|segs| - 1], segs[|segs| - 1];
    var head := if open.header.Some? then [open.header.value] else [];
    calc {
      Flatten(next);
      Flatten(front) + SegmentItems(next[|next| - 1]);
      Flatten(front) + (head + (open.body + [x]));
      { assert head + (open.body + [x]) == (head + open.body) + [x]; }
      Flatten(front) + (SegmentItems(open) + [x]);
      (Flatten(front) + SegmentItems(open)) + [x];
    }
  }

  /** Gluing the segments of a non-empty list adds its last item to what the rest glues to. */
  lemma FlattenLastStep(items: seq<Item>)
    requires |items| > 0
    ensures Flatten(Segments(items)) == Flatten(Segments(items[..|items| - 1])) + [items[|items| - 1]]
  {
    var init, x := items[..|items| - 1], items[|items| - 1];
    var segs := Segments(init);
    if x.isHeader {
      FlattenSnoc(segs, Segment(Some(x), []));
    } else {
      FlattenGrowLast(segs, Segments(items), x);
    }
  }

  /** Cutting at the headers loses and reorders nothing. */
  lemma {:induction false} SegmentsFlatten(items: seq<Item>)
    ensures Flatten(Segments(items)) == items
    decreases |items|
  {
    if |items| > 0 {
      var init := items[..|items| - 1];
      SegmentsFlatten(init);
      FlattenLastStep(items);
      assert items == init + [items[|items| - 1]];
    }
  }

  /** The cut yields well-formed segments. */
  lemma {:induction false} SegmentsWellFormed(items: seq<Item>)
    ensures WellFormed(Segments(items))
    decreases |items|
  {
    if |items| > 0 {
      var init, x := items[..|items| - 1], items[|items| - 1];
      SegmentsWellFormed(init);
      var segs := Segments(init);
      if !x.isHeader {
        var open := segs[|segs| - 1];
        var front := segs[..|segs| - 1];
        var r := front + [Segment(open.header, open.body + [x])];
        assert forall k :: 0 <= k < |front| ==> r[k] == segs[k];
        assert r[|r| - 1].header == segs[|segs| - 1].header;
      } else {
        var r := segs + [Segment(Some(x), [])];
        assert forall k :: 0 <= k < |segs| ==> r[k] == segs[k];
      }
    }
  }

  /** `processSection` for one section: what it pushes, given the header and the items kept under it. */
  function ProcessSection(header: Option<Item>, kept: seq<Item>, query: string): seq<Item>
  {
    if |kept| > 0 then (if header.Some? then [header.value] else []) + kept
    else if HeaderMatches(header, query) then [header.value]
    else []
  }

  /** The items of a segment body that pass both filters, in order. */
  function Kept(body: seq<Item>, header: Option<Item>, query: string, hideCompleted: bool, completed: set<string>)
    : (r: seq<Item>)
    ensures |r| <= |body|
    ensures forall x :: x in r <==> x in body && ItemShown(x, header, query, hideCompleted, completed)
    ensures SubseqOf(r, body)
    decreases |body|
  {
    if |body| == 0 then []
    else
      var last := body[|body| - 1];
      var rest := Kept(body[..|body| - 1], header, query, hideCompleted, completed);
      SubseqStep(rest, body, ItemShown(last, header, query, hideCompleted, completed));
      rest + (if ItemShown(last, header, query, hideCompleted, completed) then [last] else [])
  }

  /** Appending an item to a body keeps it exactly when it passes both filters. */
  lemma KeptSnoc(body: seq<Item>, x: Item, header: Option<Item>, query: string, hideCompleted: bool, completed: set<string>)
    ensures Kept(body + [x], header, query, hideCompleted, completed) ==
              Kept(body, header, query, hideCompleted, completed)
                + (if ItemShown(x, header, query, hideCompleted, completed) then [x] else [])
  {
    assert (body + [x])[..|body|] == body;
  }

  /** What the sectioned pass emits for one segment. */
  function SectionOutput(s: Segment, query: string, hideCompleted: bool, completed: set<string>): seq<Item>
  {
    ProcessSection(s.header, Kept(s.body, s.header, query, hideCompleted, completed), query)
  }

  /** What the sectioned pass emits for a run of segments. */
  function SectionsOutput(segs: seq<Segment>, query: string, hideCompleted: bool, completed: set<string>): seq<Item>
    decreases |segs|
  {
    if |segs| == 0 then []
    else
      SectionsOutput(segs[..|segs| - 1], query, hideCompleted, completed)
        + SectionOutput(segs[|segs| - 1], query, hideCompleted, completed)
  }

  /** Emitting one more segment appends its output. */
  lemma SectionsOutputSnoc(front: seq<Segment>, s: Segment, query: string, hideCompleted: bool, completed: set<string>)
    ensures SectionsOutput(front + [s], query, hideCompleted, completed) ==
              SectionsOutput(front, query, hideCompleted, completed) + SectionOutput(s, query, hideCompleted, completed)
  {
    assert (front + [s])[..|front|] == front;
  }

  /** A segment's output is its header and body with some items left out, the rest in order. */
  lemma SectionOutputSubseq(s: Segment, query: string, hideCompleted: bool, completed: set<string>)
    ensures SubseqOf(SectionOutput(s, query, hideCompleted, completed), SegmentItems(s))
  {
    var head := if s.header.Some? then [s.header.value] else [];
    var kept := Kept(s.body, s.header, query, hideCompleted, completed);
    SubseqRefl(head);
    if |kept| > 0 {
      SubseqAppend(head, head, kept, s.body);
    } else if HeaderMatches(s.header, query) {
      assert SubseqOf([], s.body);
      SubseqAppend(head, head, [], s.body);
      assert head + [] == head;
    }
  }

  /** The pass's output is the glued segments with some items left out, the rest in order. */
  lemma {:induction false} SectionsOutputSubseq(segs: seq<Segment>, query: string, hideCompleted: bool,
                                                completed: set<string>)
    ensures SubseqOf(SectionsOutput(segs, query, hideCompleted, completed), Flatten(segs))
    decreases |segs|
  {
    if |segs| > 0 {
      var init, last := segs[..|segs| - 1], segs[|segs| - 1];
      SectionsOutputSubseq(init, query, hideCompleted, completed);
      SectionOutputSubseq(last, query, hideCompleted, completed);
      SubseqAppend(SectionsOutput(init, query, hideCompleted, completed), Flatten(init),
                   SectionOutput(last, query, hideCompleted, completed), SegmentItems(last));
    }
  }

  /** The sectioned branch of `processedItems`; it keeps the list's order. */
  function HeaderFiltered(items: seq<Item>, query: string, hideCompleted: bool, completed: set<string>)
    : (r: seq<Item>)
    ensures SubseqOf(r, items)
  {
    SegmentsFlatten(items);
    SectionsOutputSubseq(Segments(items), query, hideCompleted, completed);
    SectionsOutput(Segments(items), query, hideCompleted, completed)
  }

  /** The last segment of the cut: the one still open at the end of the list. */
  function OpenSegment(items: seq<Item>): Segment
  {
    var segs := Segments(items); segs[|segs| - 1]
  }

  /** What the sectioned pass has emitted for the segments already closed at the end of the list. */
  function ClosedOutput(items: seq<Item>, query: string, hideCompleted: bool, completed: set<string>): seq<Item>
  {
    var segs := Segments(items); SectionsOutput(segs[..|segs| - 1], query, hideCompleted, completed)
  }

  /** A header closes the open segment, emitting it, and opens an empty one. */
  lemma ClosedOutputHeader(items: seq<Item>, query: string, hideCompleted: bool, completed: set<string>)
    requires |items| > 0 && items[|items| - 1].isHeader
    ensures var init := items[..|items| - 1];
            && OpenSegment(items) == Segment(Some(items[|items| - 1]), [])
            && ClosedOutput(items, query, hideCompleted, completed) ==
                 ClosedOutput(init, query, hideCompleted, completed)
                   + SectionOutput(OpenSegment(init), query, hideCompleted, completed)
  {
    var segs := Segments(items[..|items| - 1]);
    SegmentsLastHeader(items);
    var next := segs + [Segment(Some(items[|items| - 1]), [])];
    assert next[..|next| - 1] == segs;
    SectionsOutputSnoc(segs[..|segs| - 1], segs[|segs| - 1], query, hideCompleted, completed);
    assert segs[..|segs| - 1] + [segs[|segs| - 1]] == segs;
  }

  /** Any other item joins the open segment and closes nothing. */
  lemma ClosedOutputItem(items: seq<Item>, query: string, hideCompleted: bool, completed: set<string>)
    requires |items| > 0 && !items[|items| - 1].isHeader
    ensures var init := items[..|items| - 1];
            && OpenSegment(items) ==
                 Segment(OpenSegment(init).header, OpenSegment(init).body + [items[|items| - 1]])
            && ClosedOutput(items, query, hideCompleted, completed) == ClosedOutput(init, query, hideCompleted, completed)
  {
    SegmentsLastItem(items);
  }

  /** The pass's state after item `i`, when that item is a header. */
  lemma PassHeaderStep(items: seq<Item>, i: nat, out: seq<Item>, header: Option<Item>, kept: seq<Item>,
                       query: string, hideCompleted: bool, completed: set<string>)
    requires i < |items| && items[i].isHeader
    requires header == OpenSegment(items[..i]).header
    requires kept == Kept(OpenSegment(items[..i]).body, header, query, hideCompleted, completed)
    requires out == ClosedOutput(items[..i], query, hideCompleted, completed)
    ensures Some(items[i]) == OpenSegment(items[..i + 1]).header
    ensures [] == Kept(OpenSegment(items[..i + 1]).body, Some(items[i]), query, hideCompleted, completed)
    ensures out + ProcessSection(header, kept, query) == ClosedOutput(items[..i + 1], query, hideCompleted, completed)
  {
    var prefix := items[..i + 1];
    assert prefix[..i] == items[..i];
    ClosedOutputHeader(prefix, query, hideCompleted, completed);
  }

  /** The pass's state after item `i`, when that item is not a header. */
  lemma PassItemStep(items: seq<Item>, i: nat, out: seq<Item>, header: Option<Item>, kept: seq<Item>,
                     query: string, hideCompleted: bool, completed: set<string>)
    requires i < |items| && !items[i].isHeader
    requires header == OpenSegment(items[..i]).header
    requires kept == Kept(OpenSegment(items[..i]).body, header, query, hideCompleted, completed)
    requires out == ClosedOutput(items[..i], query, hideCompleted, completed)
    ensures header == OpenSegment(items[..i + 1]).header
    ensures kept + (if ItemShown(items[i], header, query, hideCompleted, completed) then [items[i]] else []) ==
              Kept(OpenSegment(items[..i + 1]).body, header, query, hideCompleted, completed)
    ensures out == ClosedOutput(items[..i + 1], query, hideCompleted, completed)
  {
    var prefix := items[..i + 1];
    assert prefix[..i] == items[..i];
    ClosedOutputItem(prefix, query, hideCompleted, completed);
    KeptSnoc(OpenSegment(items[..i]).body, items[i], header, query, hideCompleted, completed);
  }

  /** At the end, the open segment is emitted after the closed ones. */
  lemma ClosedOutputEnd(items: seq<Item>, query: string, hideCompleted: bool, completed: set<string>)
    ensures HeaderFiltered(items, query, hideCompleted, completed) ==
              ClosedOutput(items, query, hideCompleted, completed)
                + SectionOutput(OpenSegment(items), query, hideCompleted, completed)
  {
    var segs := Segments(items);
    SectionsOutputSnoc(segs[..|segs| - 1], segs[|segs| - 1], query, hideCompleted, completed);
    assert segs[..|segs| - 1] + [segs[|segs| - 1]] == segs;
  }

  /**
    The sectioned branch as the source runs it: one pass that collects the
    items kept under the current header and flushes them, header first, when
    the next header or the end comes.
  */
  method FilterWithHeaders(items: seq<Item>, query: string, hideCompleted: bool, completed: set<string>)
    returns (filteredList: seq<Item>)
    ensures filteredList == HeaderFiltered(items, query, hideCompleted, completed)
  {
    filteredList := [];
    var currentHeader: Option<Item> := None;
    var itemsUnderHeader: seq<Item> := [];
    for i := 0 to |items|
      invariant currentHeader == OpenSegment(items[..i]).header
      invariant itemsUnderHeader == Kept(OpenSegment(items[..i]).body, currentHeader, query, hideCompleted, completed)
      invariant filteredList == ClosedOutput(items[..i], query, hideCompleted, completed)
    {
      var item := items[i];
      if item.isHeader {
        PassHeaderStep(items, i, filteredList, currentHeader, itemsUnderHeader, query, hideCompleted, completed);
        filteredList := filteredList + ProcessSection(currentHeader, itemsUnderHeader, query);
        currentHeader := Some(item);
        itemsUnderHeader := [];
      } else {
        PassItemStep(items, i, filteredList, currentHeader, itemsUnderHeader, query, hideCompleted, completed);
        if ItemShown(item, currentHeader, query, hideCompleted, completed) {
          itemsUnderHeader := itemsUnderHeader + [item];
        }
      }
    }
    assert items[..|items|] == items;
    ClosedOutputEnd(items, query, hideCompleted, completed);
    filteredList := filteredList + ProcessSection(currentHeader, itemsUnderHeader, query);
  }

  /** Every item the sectioned pass emits comes from the segments' items. */
  lemma {:induction false} SectionsOutputFrom(segs: seq<Segment>, query: string, hideCompleted: bool, completed: set<string>)
    ensures forall x :: x in SectionsOutput(segs, query, hideCompleted, completed) ==> x in Flatten(segs)
    decreases |segs|
  {
    if |segs| > 0 {
      var init := segs[..|segs| - 1];
      SectionsOutputFrom(init, query, hideCompleted, completed);
    }
  }

  /** The bodies hold no header and every segment header is a header. */
  predicate HeadersInPlace(segs: seq<Segment>)
  {
    && (forall k, x :: 0 <= k < |segs| && x in segs[k].body ==> !x.isHeader)
    && (forall k :: 0 <= k < |segs| && segs[k].header.Some? ==> segs[k].header.value.isHeader)
  }

  /** Some segment holds `x` in its body and keeps it under its header. */
  predicate KeptSomewhere(segs: seq<Segment>, x: Item, query: string, hideCompleted: bool, completed: set<string>)
  {
    exists k :: 0 <= k < |segs| && x in segs[k].body && ItemShown(x, segs[k].header, query, hideCompleted, completed)
  }

  /** Some segment is started by `h` and keeps an item or matches the search. */
  predicate HeaderEmitted(segs: seq<Segment>, h: Item, query: string, hideCompleted: bool, completed: set<string>)
  {
    exists k :: 0 <= k < |segs| && SegmentEmitsHeader(segs[k], h, query, hideCompleted, completed)
  }

  /** The segment is started by `h` and keeps an item or matches the search. */
  predicate SegmentEmitsHeader(s: Segment, h: Item, query: string, hideCompleted: bool, completed: set<string>)
  {
    s.header == Some(h) && (|Kept(s.body, s.header, query, hideCompleted, completed)| > 0 || HeaderMatches(s.header, query))
  }

  /** Segments that keep their headers in place keep them in place without the last one. */
  lemma HeadersInPlaceInit(segs: seq<Segment>)
    requires |segs| > 0 && HeadersInPlace(segs)
    ensures HeadersInPlace(segs[..|segs| - 1])
  {
    var init := segs[..|segs| - 1];
    assert forall k :: 0 <= k < |init| ==> init[k] == segs[k];
  }

  /** `x` is kept somewhere in a non-empty run when it is kept before the last segment or by the last one. */
  lemma KeptSomewhereSnoc(segs: seq<Segment>, x: Item, query: string, hideCompleted: bool, completed: set<string>)
    requires |segs| > 0
    ensures var last := segs[|segs| - 1];
            KeptSomewhere(segs, x, query, hideCompleted, completed) <==>
              KeptSomewhere(segs[..|segs| - 1], x, query, hideCompleted, completed) ||
              (x in last.body && ItemShown(x, last.header, query, hideCompleted, completed))
  {
    var init := segs[..|segs| - 1];
    if KeptSomewhere(segs, x, query, hideCompleted, completed) {
      var k :| 0 <= k < |segs| && x in segs[k].body && ItemShown(x, segs[k].header, query, hideCompleted, completed);
      if k < |init| {
        assert init[k] == segs[k];
      }
    }
    if KeptSomewhere(init, x, query, hideCompleted, completed) {
      var k :| 0 <= k < |init| && x in init[k].body && ItemShown(x, init[k].header, query, hideCompleted, completed);
      assert init[k] == segs[k];
    }
  }

  /** `h` is emitted by a non-empty run when it is emitted before the last segment or by the last one. */
  lemma HeaderEmittedSnoc(segs: seq<Segment>, h: Item, query: string, hideCompleted: bool, completed: set<string>)
    requires |segs| > 0
    ensures var last := segs[|segs| - 1];
            HeaderEmitted(segs, h, query, hideCompleted, completed) <==>
              HeaderEmitted(segs[..|segs| - 1], h, query, hideCompleted, completed) ||
              SegmentEmitsHeader(last, h, query, hideCompleted, completed)
  {
    var init := segs[..|segs| - 1];
    if HeaderEmitted(segs, h, query, hideCompleted, completed) {
      var k :| 0 <= k < |segs| && SegmentEmitsHeader(segs[k], h, query, hideCompleted, completed);
      if k < |init| {
        assert init[k] == segs[k];
        assert HeaderEmitted(init, h, query, hideCompleted, completed);
      }
    }
    if HeaderEmitted(init, h, query, hideCompleted, completed) {
      var k :| 0 <= k < |init| && SegmentEmitsHeader(init[k], h, query, hideCompleted, completed);
      assert init[k] == segs[k];
      assert HeaderEmitted(segs, h, query, hideCompleted, completed);
    }
    if SegmentEmitsHeader(segs[|segs| - 1], h, query, hideCompleted, completed) {
      assert HeaderEmitted(segs, h, query, hideCompleted, completed);
    }
  }

  /** A non-header item is emitted for a segment with a header in place exactly when the segment keeps it. */
  lemma SectionOutputItemMember(s: Segment, x: Item, query: string, hideCompleted: bool, completed: set<string>)
    requires !x.isHeader && (s.header.Some? ==> s.header.value.isHeader)
    ensures x in SectionOutput(s, query, hideCompleted, completed) <==>
              x in s.body && ItemShown(x, s.header, query, hideCompleted, completed)
  {
  }

  /** A header is emitted for a segment with a header-free body exactly when it starts it and the segment keeps an item or matches. */
  lemma SectionOutputHeaderMember(s: Segment, h: Item, query: string, hideCompleted: bool, completed: set<string>)
    requires h.isHeader && forall x :: x in s.body ==> !x.isHeader
    ensures h in SectionOutput(s, query, hideCompleted, completed) <==> SegmentEmitsHeader(s, h, query, hideCompleted, completed)
  {
    assert h !in Kept(s.body, s.header, query, hideCompleted, completed);
  }

  /** A non-header item is emitted exactly when some segment keeps it. */
  lemma {:induction false} SectionsOutputItem(segs: seq<Segment>, x: Item, query: string, hideCompleted: bool,
                                              completed: set<string>)
    requires HeadersInPlace(segs) && !x.isHeader
    ensures x in SectionsOutput(segs, query, hideCompleted, completed) <==>
              KeptSomewhere(segs, x, query, hideCompleted, completed)
    decreases |segs|
  {
    if |segs| > 0 {
      HeadersInPlaceInit(segs);
      SectionsOutputItem(segs[..|segs| - 1], x, query, hideCompleted, completed);
      SectionOutputItemMember(segs[|segs| - 1], x, query, hideCompleted, completed);
      KeptSomewhereSnoc(segs, x, query, hideCompleted, completed);
    }
  }

  /** A header is emitted exactly when a segment it starts keeps an item or matches the search. */
  lemma {:induction false} SectionsOutputHeader(segs: seq<Segment>, h: Item, query: string, hideCompleted: bool,
                                                completed: set<string>)
    requires HeadersInPlace(segs) && h.isHeader
    ensures h in SectionsOutput(segs, query, hideCompleted, completed) <==>
              HeaderEmitted(segs, h, query, hideCompleted, completed)
    decreases |segs|
  {
    if |segs| > 0 {
      HeadersInPlaceInit(segs);
      SectionsOutputHeader(segs[..|segs| - 1], h, query, hideCompleted, completed);
      SectionOutputHeaderMember(segs[|segs| - 1], h, query, hideCompleted, completed);
      HeaderEmittedSnoc(segs, h, query, hideCompleted, completed);
    }
  }

  /**
    The sectioned pass shows exactly the non-header items that pass "hide
    completed" and match the search on their own label or on the label of
    the header they sit under, and exactly the headers that keep an item or
    match the search themselves; it shows nothing that is not in the list.
  */
  lemma HeaderFilteredMeaning(items: seq<Item>, query: string, hideCompleted: bool, completed: set<string>)
    ensures var out := HeaderFiltered(items, query, hideCompleted, completed);
            var segs := Segments(items);
            && (forall x :: x in out ==> x in items)
            && (forall x: Item :: !x.isHeader ==>
                  (x in out <==> KeptSomewhere(segs, x, query, hideCompleted, completed)))
            && (forall h: Item :: h.isHeader ==>
                  (h in out <==> HeaderEmitted(segs, h, query, hideCompleted, completed)))
  {
    SegmentsFlatten(items);
    SegmentsWellFormed(items);
    SectionsOutputFrom(Segments(items), query, hideCompleted, completed);
    forall x: Item | !x.isHeader
      ensures x in HeaderFiltered(items, query, hideCompleted, completed) <==>
                KeptSomewhere(Segments(items), x, query, hideCompleted, completed)
    {
      SectionsOutputItem(Segments(items), x, query, hideCompleted, completed);
    }
    forall h: Item | h.isHeader
      ensures h in HeaderFiltered(items, query, hideCompleted, completed) <==>
                HeaderEmitted(Segments(items), h, query, hideCompleted, completed)
    {
      SectionsOutputHeader(Segments(items), h, query, hideCompleted, completed);
    }
  }

  /** With hiding on, no completed item is shown in a sectioned tab, whatever the search. */
  lemma HiddenCompletedNotShown(items: seq<Item>, query: string, completed: set<string>, x: Item)
    requires !x.isHeader && x.id in completed
    ensures x !in HeaderFiltered(items, query, true, completed)
  {
    HeaderFilteredMeaning(items, query, true, completed);
  }

  /** Without search or hiding, every non-header item of a sectioned tab is shown. */
  lemma NoFilterShowsEveryItem(items: seq<Item>, completed: set<string>, x: Item)
    requires x in items && !x.isHeader
    ensures x in HeaderFiltered(items, "", false, completed)
  {
    SegmentsFlatten(items);
    SegmentsWellFormed(items);
    var segs := Segments(items);
    FlattenMember(segs, x);
    var k :| 0 <= k < |segs| && x in segs[k].body;
    assert ItemShown(x, segs[k].header, "", false, completed);
    SectionsOutputItem(segs, x, "", false, completed);
  }

  /** A non-header item of the glued segments lies in some segment's body. */
  lemma {:induction false} FlattenMember(segs: seq<Segment>, x: Item)
    requires x in Flatten(segs) && !x.isHeader
    requires forall k :: 0 <= k < |segs| && segs[k].header.Some? ==> segs[k].header.value.isHeader
    ensures exists k :: 0 <= k < |segs| && x in segs[k].body
    decreases |segs|
  {
    var init, s := segs[..|segs| - 1], segs[|segs| - 1];
    if x in SegmentItems(s) {
      assert x in s.body;
    } else {
      FlattenMember(init, x);
      var k :| 0 <= k < |init| && x in init[k].body;
      assert segs[k] == init[k];
    }
  }

  // ----- the flat pass -----

  /** `items.filter(item => !searchQuery || item.label.toLowerCase().includes(…))`. */
  function QueryFilter(items: seq<Item>, query: string): (r: seq<Item>)
    ensures forall x :: x in r <==> x in items && MatchesQuery(x.labelText, query)
    ensures SubseqOf(r, items)
    ensures CountsFiltered(r, items, (x: Item) => MatchesQuery(x.labelText, query))
    decreases |items|
  {
    if |items| == 0 then []
    else
      var last := items[|items| - 1];
      var rest := QueryFilter(items[..|items| - 1], query);
      var r := rest + (if MatchesQuery(last.labelText, query) then [last] else []);
      SubseqStep(rest, items, MatchesQuery(last.labelText, query));
      CountsFilteredStep(rest, items, (x: Item) => MatchesQuery(x.labelText, query));
      CountsFilteredMembers(r, items, (x: Item) => MatchesQuery(x.labelText, query));
      r
  }

  /** `items.filter(item => !hideCompleted || !completedItems.has(item.id))`. */
  function HideFilter(items: seq<Item>, hideCompleted: bool, completed: set<string>): (r: seq<Item>)
    ensures forall x :: x in r <==> x in items && HideMatch(x, hideCompleted, completed)
    ensures SubseqOf(r, items)
    ensures CountsFiltered(r, items, (x: Item) => HideMatch(x, hideCompleted, completed))
    decreases |items|
  {
    if |items| == 0 then []
    else
      var last := items[|items| - 1];
      var rest := HideFilter(items[..|items| - 1], hideCompleted, completed);
      var r := rest + (if HideMatch(last, hideCompleted, completed) then [last] else []);
      SubseqStep(rest, items, HideMatch(last, hideCompleted, completed));
      CountsFilteredStep(rest, items, (x: Item) => HideMatch(x, hideCompleted, completed));
      CountsFilteredMembers(r, items, (x: Item) => HideMatch(x, hideCompleted, completed));
      r
  }

  /** The label, the key of the A-Z and Z-A sorts. */
  function LabelOf(item: Item): string
  {
    item.labelText
  }

  /** The flat branch of `processedItems`: both filters, then the chosen sort by label; unsorted, it keeps the list's order. */
  function FlatProcessed(items: seq<Item>, query: string, hideCompleted: bool, completed: set<string>, sortBy: SortBy)
    : (r: seq<Item>)
    ensures sortBy == Default ==> SubseqOf(r, items)
  {
    var queried := QueryFilter(items, query);
    var filtered := HideFilter(queried, hideCompleted, completed);
    SubseqTransitive(filtered, queried, items);
    match sortBy
    case Default => filtered
    case Az => SortByKey(filtered, LabelOf, false)
    case Za => SortByKey(filtered, LabelOf, true)
  }

  /**
    The flat pass shows exactly the items whose label matches the search and
    that pass "hide completed", each as often as the filters keep it, in
    catalog order by default and ordered by label otherwise; items with the
    same label keep their catalog order either way.
  */
  lemma FlatProcessedMeaning(items: seq<Item>, query: string, hideCompleted: bool, completed: set<string>, sortBy: SortBy)
    ensures var out := FlatProcessed(items, query, hideCompleted, completed, sortBy);
            var filtered := HideFilter(QueryFilter(items, query), hideCompleted, completed);
            && multiset(out) == multiset(filtered)
            && (forall x :: x in out <==>
                  x in items && MatchesQuery(x.labelText, query) && HideMatch(x, hideCompleted, completed))
            && (sortBy == Default ==> out == filtered)
            && (sortBy == Az ==> SortedBy(out, LabelOf, false))
            && (sortBy == Za ==> SortedBy(out, LabelOf, true))
            && (forall k :: KeyedAs(out, LabelOf, k) == KeyedAs(filtered, LabelOf, k))
  {
    var out := FlatProcessed(items, query, hideCompleted, completed, sortBy);
    var filtered := HideFilter(QueryFilter(items, query), hideCompleted, completed);
    forall k
      ensures KeyedAs(out, LabelOf, k) == KeyedAs(filtered, LabelOf, k)
    {
      if sortBy != Default {
        SortByKeyStable(filtered, LabelOf, sortBy == Za, k);
      }
    }
    forall x
      ensures x in out <==> x in filtered
    {
      assert x in out <==> x in multiset(out);
      assert x in filtered <==> x in multiset(filtered);
    }
  }

  /** The flat pass shows each item that matches the search and passes "hide completed" as often as the list holds it, and no other. */
  lemma FlatProcessedCounts(items: seq<Item>, query: string, hideCompleted: bool, completed: set<string>, sortBy: SortBy)
    ensures var out := FlatProcessed(items, query, hideCompleted, completed, sortBy);
            forall x :: multiset(out)[x] ==
              if MatchesQuery(x.labelText, query) && HideMatch(x, hideCompleted, completed) then multiset(items)[x] else 0
  {
    var queried := QueryFilter(items, query);
    var filtered := HideFilter(queried, hideCompleted, completed);
    var out := FlatProcessed(items, query, hideCompleted, completed, sortBy);
    assert CountsFiltered(queried, items, (x: Item) => MatchesQuery(x.labelText, query));
    assert CountsFiltered(filtered, queried, (x: Item) => HideMatch(x, hideCompleted, completed));
    assert multiset(out) == multiset(filtered);
  }

  // ----- processedItems -----

  /**
    `processedItems`: nothing without an active tab; otherwise the sectioned
    pass when the items to process hold a header, the flat pass when not.
  */
  function ProcessedItems(active: Option<Category>, settings: AppSettings, query: string, hideCompleted: bool,
                          completedIds: seq<string>, sortBy: SortBy): (r: seq<Item>)
    ensures active.None? ==> r == []
  {
    if active.None? then []
    else
      var items := ItemsToProcess(active.value, settings);
      var completed := set id | id in completedIds;
      if HasHeaders(items) then HeaderFiltered(items, query, hideCompleted, completed)
      else FlatProcessed(items, query, hideCompleted, completed, sortBy)
  }

  /** Either pass shows only input items, keeps their order unless it sorts, and hides completed items. */
  lemma PassShowsInputItems(items: seq<Item>, query: string, hideCompleted: bool, completed: set<string>, sortBy: SortBy)
    ensures var out := if HasHeaders(items) then HeaderFiltered(items, query, hideCompleted, completed)
                       else FlatProcessed(items, query, hideCompleted, completed, sortBy);
            && (forall x :: x in out ==> x in items)
            && (sortBy == Default || HasHeaders(items) ==> SubseqOf(out, items))
            && (hideCompleted ==> forall x :: x in out && !x.isHeader ==> x.id !in completed)
  {
    if HasHeaders(items) {
      HeaderFilteredMeaning(items, query, hideCompleted, completed);
    } else {
      FlatProcessedMeaning(items, query, hideCompleted, completed, sortBy);
    }
  }

  /**
    Whatever the path, the shown items come from the active tab, "3rd age"
    items are gone from the collection-log tab when they do not count, and
    with hiding on no completed item is shown; a sectioned tab ignores the sort.
  */
  lemma ProcessedItemsMeaning(active: Option<Category>, settings: AppSettings, query: string, hideCompleted: bool,
                              completedIds: seq<string>, sortBy: SortBy)
    requires active.Some?
    ensures var out := ProcessedItems(active, settings, query, hideCompleted, completedIds, sortBy);
            && (forall x :: x in out ==> x in active.value.items)
            && (sortBy == Default || HasHeaders(ItemsToProcess(active.value, settings)) ==>
                  SubseqOf(out, active.value.items))
            && (active.value.id == CollectionLogId && !settings.countThirdAge ==> forall x :: x in out ==> !IsThirdAge(x))
            && (hideCompleted ==> forall x :: x in out && !x.isHeader ==> x.id !in completedIds)
            && (HasHeaders(ItemsToProcess(active.value, settings)) ==>
                  out == ProcessedItems(active, settings, query, hideCompleted, completedIds, Default))
  {
    var items := ItemsToProcess(active.value, settings);
    var completed := set id | id in completedIds;
    var out := ProcessedItems(active, settings, query, hideCompleted, completedIds, sortBy);
    PassShowsInputItems(items, query, hideCompleted, completed, sortBy);
    if sortBy == Default || HasHeaders(items) {
      SubseqTransitive(out, items, active.value.items);
    }
  }

  /** The worked search example: "ironman" finds an item whose label says "Ironman", in any case. */
  lemma SearchIgnoresCase()
    ensures MatchesQuery("Ironman helm", "ironman")
    ensures MatchesQuery("Ironman helm", "IRONMAN")
    ensures !MatchesQuery("Bronze helm", "ironman")
  {
    var text, query := ToLower("Bronze helm"), ToLower("ironman");
    assert text == "bronze helm" && query == "ironman";
    forall i | 0 <= i <= |text| - |query|
      ensures !OccursAt(text, query, i)
    {
      assert text[i..i + |query|][0] == text[i] != 'i';
    }
    assert OccursAt(ToLower("Ironman helm"), ToLower("ironman"), 0);
    assert OccursAt(ToLower("Ironman helm"), ToLower("IRONMAN"), 0);
    assert ToLower("Bronze helm") == "bronze helm";
    assert ToLower("ironman") == "ironman";
  }
}
