/**
  The achievement-diary tab. Diary labels read "<region> (<tier>)"; the items
  are grouped by region, in the order each region is first met, and every
  group is sorted from the easiest to the hardest tier. The groups are then
  filtered by the search query and the "hide completed" toggle, and sorted by
  region name when a sort is chosen.
*/
module Diaries {
  import opened Common
  import opened Text
  import opened IdSet
  import opened Types
  import opened Tiers
  import opened Sorting
  import opened Order

  // ----- reading a diary label -----

  /** What the diary pattern captures from a label: the region name and the tier. */
  datatype DiaryLabel = DiaryLabel(region: string, tier: string)

  /** The end of a diary label: a space, then the tier in parentheses. */
  function DiarySuffix(tier: string): string
  {
    " (" + tier + ")"
  }

  /** No character of `s` is a line terminator, so the pattern's `.*` can span it. */
  predicate NoLineTerminator(s: string)
  {
    forall i :: 0 <= i < |s| ==> !IsLineTerminator(s[i])
  }

  /** The pattern `^(.*) \((Easy|Medium|Hard|Elite)\)$`, trying the tiers from index `j` on. */
  function MatchDiaryFrom(labelText: string, j: nat): Option<DiaryLabel>
    requires j <= |TierOrder|
    decreases |TierOrder| - j
  {
    if j == |TierOrder| then None
    else
      var suffix := DiarySuffix(TierOrder[j]);
      var n := |labelText| - |suffix|;
      if 0 <= n && labelText[n..] == suffix && NoLineTerminator(labelText[..n]) then
        Some(DiaryLabel(labelText[..n], TierOrder[j]))
      else
        MatchDiaryFrom(labelText, j + 1)
  }

  /** `label.match(/^(.*) \((Easy|Medium|Hard|Elite)\)$/)`: the captured region and tier, if any. */
  function MatchDiary(labelText: string): Option<DiaryLabel>
  {
    MatchDiaryFrom(labelText, 0)
  }

  /** What the match captures, put back together, is the label: a region free of line terminators, then a tier suffix. */
  lemma {:induction false} MatchDiaryFromSound(labelText: string, j: nat)
    requires j <= |TierOrder|
    ensures var r := MatchDiaryFrom(labelText, j);
            r.Some? ==> && r.value.tier in TierOrder
                        && NoLineTerminator(r.value.region)
                        && labelText == r.value.region + DiarySuffix(r.value.tier)
    decreases |TierOrder| - j
  {
    if j < |TierOrder| {
      var suffix := DiarySuffix(TierOrder[j]);
      var n := |labelText| - |suffix|;
      if 0 <= n && labelText[n..] == suffix && NoLineTerminator(labelText[..n]) {
        assert labelText == labelText[..n] + labelText[n..];
      } else {
        MatchDiaryFromSound(labelText, j + 1);
      }
    }
  }

  /** A matched label is its region followed by " (<tier>)" for one of the four tiers. */
  lemma MatchDiarySound(labelText: string)
    ensures var r := MatchDiary(labelText);
            r.Some? ==> && r.value.tier in TierOrder
                        && NoLineTerminator(r.value.region)
                        && labelText == r.value.region + DiarySuffix(r.value.tier)
  {
    MatchDiaryFromSound(labelText, 0);
  }

  /** Tier names are non-empty and hold no parenthesis. */
  lemma TierNamePlain(tier: string)
    requires tier in TierOrder
    ensures |tier| > 0 && '(' !in tier && ')' !in tier
  {
    if tier == "Easy" {
    } else if tier == "Medium" {
    } else if tier == "Hard" {
    } else {
      assert tier == "Elite";
    }
  }

  /** A label cannot end in the suffixes of two different tiers. */
  lemma OtherTierNoMatch(region: string, tier: string, other: string)
    requires tier in TierOrder && other in TierOrder && other != tier
    ensures var s := region + DiarySuffix(tier);
            var suffix := DiarySuffix(other);
            |suffix| <= |s| ==> s[|s| - |suffix|..] != suffix
  {
    var s := region + DiarySuffix(tier);
    var suffix := DiarySuffix(other);
    TierNamePlain(tier);
    TierNamePlain(other);
    if |suffix| <= |s| {
      var tail := s[|s| - |suffix|..];
      if |other| == |tier| {
        assert tail == DiarySuffix(tier);
        assert DiarySuffix(tier)[2..|tier| + 2] == tier;
        assert suffix[2..|other| + 2] == other;
      } else if |other| < |tier| {
        assert tail[1] == tier[|tier| - |other| - 1];
        assert tier[|tier| - |other| - 1] in tier;
        assert suffix[1] == '(';
      } else {
        assert tail[|other| - |tier| + 1] == '(';
        assert suffix[|other| - |tier| + 1] == other[|other| - |tier| - 1];
        assert other[|other| - |tier| - 1] in other;
      }
    }
  }

  /** Tried at the tier's own index, the match takes the tier's suffix and leaves the region. */
  lemma MatchDiaryAtOwnTier(region: string, tier: string)
    requires tier in TierOrder && NoLineTerminator(region)
    ensures MatchDiaryFrom(region + DiarySuffix(tier), TierIndex(tier)) == Some(DiaryLabel(region, tier))
  {
    var s := region + DiarySuffix(tier);
    var n := |s| - |DiarySuffix(tier)|;
    assert s[n..] == DiarySuffix(tier);
    assert s[..n] == region;
  }

  /** From any index up to the tier's own, the match finds exactly that region and tier. */
  lemma {:induction false} MatchDiaryFromFinds(region: string, tier: string, j: nat)
    requires tier in TierOrder && NoLineTerminator(region)
    requires j <= TierIndex(tier)
    ensures MatchDiaryFrom(region + DiarySuffix(tier), j) == Some(DiaryLabel(region, tier))
    decreases TierIndex(tier) - j
  {
    if j == TierIndex(tier) {
      MatchDiaryAtOwnTier(region, tier);
    } else {
      OtherTierNoMatch(region, tier, TierOrder[j]);
      MatchDiaryFromFinds(region, tier, j + 1);
    }
  }

  /**
    Round trip: a label built from a region without line terminators and a
    tier name is read back as that region and that tier.
  */
  lemma MatchDiaryRoundTrip(region: string, tier: string)
    requires tier in TierOrder && NoLineTerminator(region)
    ensures MatchDiary(region + DiarySuffix(tier)) == Some(DiaryLabel(region, tier))
  {
    MatchDiaryFromFinds(region, tier, 0);
  }

  /** A diary label is its region and a space, then the tier in parentheses. */
  lemma SuffixAfterSpace(region: string, tier: string)
    ensures region + DiarySuffix(tier) == (region + " ") + "(" + tier + ")"
  {
    assert " (" == " " + "(";
  }

  /**
    The sort reads the tier again with the first-group pattern; it finds the
    diary tier whenever the region holds no `(`.
  */
  lemma DiaryTierIsTierName(item: Item)
    requires MatchDiary(item.labelText).Some?
    requires '(' !in MatchDiary(item.labelText).value.region
    ensures TierName(item) == Some(MatchDiary(item.labelText).value.tier)
    ensures TierRank(item) == TierIndex(MatchDiary(item.labelText).value.tier) >= 0
  {
    MatchDiarySound(item.labelText);
    var m := MatchDiary(item.labelText).value;
    var prefix := m.region + " ";
    SuffixAfterSpace(m.region, m.tier);
    assert '(' !in prefix by {
      assert forall i :: 0 <= i < |prefix| ==> prefix[i] == if i < |m.region| then m.region[i] else ' ';
    }
    TierNamePlain(m.tier);
    FirstParenGroupOfSuffix(prefix, m.tier);
  }

  // ----- sorting the tiers of a region -----

  /** The elements of `s` whose key is `k`, in order. */
  function WithKey<T>(s: seq<T>, key: T -> int, k: int): (r: seq<T>)
    ensures forall x :: x in r ==> x in s && key(x) == k
    decreases |s|
  {
    if |s| == 0 then []
    else
      var last := s[|s| - 1];
      WithKey(s[..|s| - 1], key, k) + (if key(last) == k then [last] else [])
  }

  /** Keys never decrease along the sequence. */
  predicate KeySorted<T>(s: seq<T>, key: T -> int)
  {
    forall i, j :: 0 <= i < j < |s| ==> key(s[i]) <= key(s[j])
  }

  /**
    `tiers.sort((a, b) => tierOrder.indexOf(tierA) - tierOrder.indexOf(tierB))`:
    the sort is stable, so the result lists the items of rank -1 (no known
    tier), then Easy, Medium, Hard and Elite, each in their original order.
  */
  function TierSorted(tiers: seq<Item>): (r: seq<Item>)
    ensures multiset(r) == multiset(tiers)
  {
    BucketsFromPermutation(tiers, TierRank, -1);
    Buckets(tiers, TierRank)
  }

  /** The elements with key -1, then 0, 1, 2 and 3, each group in its original order. */
  function Buckets<T>(s: seq<T>, key: T -> int): seq<T>
  {
    BucketsFrom(s, key, -1)
  }

  /** The elements with key `lo`, then those with key `lo + 1`, and so on up to key 3. */
  function BucketsFrom<T>(s: seq<T>, key: T -> int, lo: int): (r: seq<T>)
    ensures forall x :: x in r ==> x in s && lo <= key(x) <= 3
    decreases 4 - lo
  {
    if lo > 3 then [] else WithKey(s, key, lo) + BucketsFrom(s, key, lo + 1)
  }

  /** The elements of `s` whose key is at least `lo`, in order. */
  function KeyAtLeast<T>(s: seq<T>, key: T -> int, lo: int): (r: seq<T>)
    ensures forall x :: x in r ==> x in s && key(x) >= lo
    ensures (forall x :: x in s ==> key(x) >= lo) ==> r == s
    ensures (forall x :: x in s ==> key(x) < lo) ==> r == []
    decreases |s|
  {
    if |s| == 0 then []
    else
      var init, last := s[..|s| - 1], s[|s| - 1];
      assert forall x :: x in init ==> x in s;
      assert s == init + [last];
      KeyAtLeast(init, key, lo) + (if key(last) >= lo then [last] else [])
  }

  /** The elements of key at least `lo` are those of key `lo` and those of key at least `lo + 1`. */
  lemma {:induction false} KeyAtLeastSplit<T>(s: seq<T>, key: T -> int, lo: int)
    ensures multiset(KeyAtLeast(s, key, lo)) == multiset(WithKey(s, key, lo)) + multiset(KeyAtLeast(s, key, lo + 1))
    decreases |s|
  {
    if |s| > 0 {
      KeyAtLeastSplit(s[..|s| - 1], key, lo);
    }
  }

  /** The buckets from `lo` on hold exactly the elements of key `lo` to 3. */
  lemma {:induction false} BucketsFromPermutation<T>(s: seq<T>, key: T -> int, lo: int)
    requires forall x :: x in s ==> key(x) <= 3
    ensures multiset(BucketsFrom(s, key, lo)) == multiset(KeyAtLeast(s, key, lo))
    decreases 4 - lo
  {
    if lo <= 3 {
      BucketsFromPermutation(s, key, lo + 1);
      KeyAtLeastSplit(s, key, lo);
    }
  }

  /** The buckets from `lo` on are key-sorted. */
  lemma {:induction false} BucketsFromSorted<T>(s: seq<T>, key: T -> int, lo: int)
    ensures KeySorted(BucketsFrom(s, key, lo), key)
    decreases 4 - lo
  {
    if lo <= 3 {
      BucketsFromSorted(s, key, lo + 1);
      var w := WithKey(s, key, lo);
      assert KeySorted(w, key) by {
        forall i, j | 0 <= i < j < |w|
          ensures key(w[i]) <= key(w[j])
        {
          assert w[i] in w && w[j] in w;
        }
      }
      ConcatKeySorted(w, BucketsFrom(s, key, lo + 1), key);
    }
  }

  /** Filtering the buckets from `lo` on by a key `k` gives the elements of key `k` when `k` is in range, in order. */
  lemma {:induction false} BucketsFromStable<T>(s: seq<T>, key: T -> int, lo: int, k: int)
    ensures WithKey(BucketsFrom(s, key, lo), key, k) == if lo <= k <= 3 then WithKey(s, key, k) else []
    decreases 4 - lo
  {
    if lo <= 3 {
      var w, rest := WithKey(s, key, lo), BucketsFrom(s, key, lo + 1);
      BucketsFromStable(s, key, lo + 1, k);
      WithKeyAppend(w, rest, key, k);
      WithKeyUniform(w, key, lo, k);
      var empty: seq<T> := [];
      if k == lo {
        assert WithKey(rest, key, k) == empty;
        assert w + empty == w;
      } else {
        assert WithKey(w, key, k) == empty;
        assert empty + WithKey(rest, key, k) == WithKey(rest, key, k);
      }
    }
  }

  /** Gluing two key-sorted sequences, all keys of the first at most those of the second, keeps it key-sorted. */
  lemma ConcatKeySorted<T>(a: seq<T>, b: seq<T>, key: T -> int)
    requires KeySorted(a, key) && KeySorted(b, key)
    requires forall x, y :: x in a && y in b ==> key(x) <= key(y)
    ensures KeySorted(a + b, key)
  {
    forall i, j | 0 <= i < j < |a + b|
      ensures key((a + b)[i]) <= key((a + b)[j])
    {
      if i < |a| && j >= |a| {
        assert (a + b)[i] in a && (a + b)[j] in b;
      }
    }
  }

  /** The key filter distributes over concatenation. */
  lemma {:induction false} WithKeyAppend<T>(a: seq<T>, b: seq<T>, key: T -> int, k: int)
    ensures WithKey(a + b, key, k) == WithKey(a, key, k) + WithKey(b, key, k)
    decreases |b|
  {
    if |b| > 0 {
      var init, last := b[..|b| - 1], b[|b| - 1];
      var tail := if key(last) == k then [last] else [];
      assert (a + b)[..|a + b| - 1] == a + init;
      assert (a + b)[|a + b| - 1] == last;
      assert WithKey(a + b, key, k) == WithKey(a + init, key, k) + tail;
      WithKeyAppend(a, init, key, k);
      assert WithKey(b, key, k) == WithKey(init, key, k) + tail;
    } else {
      assert a + b == a;
    }
  }

  /** Filtering a sequence whose elements all have key `j` by key `k` keeps all or nothing. */
  lemma {:induction false} WithKeyUniform<T>(s: seq<T>, key: T -> int, j: int, k: int)
    requires forall x :: x in s ==> key(x) == j
    ensures WithKey(s, key, k) == if j == k then s else []
    decreases |s|
  {
    if |s| > 0 {
      var init, last := s[..|s| - 1], s[|s| - 1];
      assert s == init + [last];
      assert forall x :: x in init ==> x in s;
      assert key(last) == j by { assert last in s; }
      WithKeyUniform(init, key, j, k);
      if j == k {
        assert WithKey(s, key, k) == init + [last];
      } else {
        var empty: seq<T> := [];
        assert WithKey(s, key, k) == empty + empty;
      }
    }
  }

  /** With keys in -1..3, the buckets permute the sequence and put the keys in non-decreasing order. */
  lemma BucketsSortedPermutation<T>(s: seq<T>, key: T -> int)
    requires forall x :: x in s ==> -1 <= key(x) <= 3
    ensures multiset(Buckets(s, key)) == multiset(s)
    ensures KeySorted(Buckets(s, key), key)
  {
    BucketsFromPermutation(s, key, -1);
    BucketsFromSorted(s, key, -1);
  }

  /** The buckets keep the relative order of the elements of each key. */
  lemma BucketsStable<T>(s: seq<T>, key: T -> int, k: int)
    requires -1 <= k <= 3
    ensures WithKey(Buckets(s, key), key, k) == WithKey(s, key, k)
  {
    BucketsFromStable(s, key, -1, k);
  }

  /**
    The tier sort is a stable sort by rank: it permutes the tiers, the ranks
    never decrease, and the items of one rank keep their relative order.
  */
  lemma TierSortedIsStableSort(tiers: seq<Item>)
    ensures multiset(TierSorted(tiers)) == multiset(tiers)
    ensures KeySorted(TierSorted(tiers), TierRank)
    ensures forall rank :: -1 <= rank <= 3 ==> WithKey(TierSorted(tiers), TierRank, rank) == WithKey(tiers, TierRank, rank)
  {
    BucketsSortedPermutation(tiers, TierRank);
    forall rank | -1 <= rank <= 3
      ensures WithKey(TierSorted(tiers), TierRank, rank) == WithKey(tiers, TierRank, rank)
    {
      BucketsStable(tiers, TierRank, rank);
    }
  }

  // ----- grouping by region -----

  /** An item whose label matches the diary pattern. */
  predicate IsDiaryItem(item: Item)
  {
    MatchDiary(item.labelText).Some?
  }

  /** The region a diary item belongs to. */
  function RegionOf(item: Item): string
    requires IsDiaryItem(item)
  {
    MatchDiary(item.labelText).value.region
  }

  /** The item is a diary item of region `name`. */
  predicate InRegion(item: Item, name: string)
  {
    IsDiaryItem(item) && RegionOf(item) == name
  }

  /** The region names in the order they are first met: the keys of the `Map`, in insertion order. */
  function RegionNames(items: seq<Item>): (r: seq<string>)
    ensures Distinct(r)
    ensures forall n :: n in r <==> exists x :: x in items && InRegion(x, n)
    decreases |items|
  {
    if |items| == 0 then []
    else
      var init, last := items[..|items| - 1], items[|items| - 1];
      assert items == init + [last];
      var rest := RegionNames(init);
      var r := if IsDiaryItem(last) && RegionOf(last) !in rest then rest + [RegionOf(last)] else rest;
      assert forall n :: n in r <==> exists x :: x in items && InRegion(x, n) by {
        forall n
          ensures n in r <==> exists x :: x in items && InRegion(x, n)
        {
          if InRegion(last, n) {
            assert last in items;
          }
          if n in rest {
            var x :| x in init && InRegion(x, n);
            assert x in items;
          }
        }
      }
      r
  }

  /** The index of the first diary item of region `name`, or the length of the list when there is none. */
  function FirstInRegion(items: seq<Item>, name: string): (k: nat)
    ensures k <= |items|
    ensures k < |items| ==> InRegion(items[k], name)
    ensures forall j :: 0 <= j < k ==> !InRegion(items[j], name)
    decreases |items|
  {
    if |items| == 0 then 0
    else
      var init := items[..|items| - 1];
      var k := FirstInRegion(init, name);
      assert forall j :: 0 <= j < |init| ==> items[j] == init[j];
      if k < |init| || InRegion(items[|init|], name) then k else |items|
  }

  /** A region is among the names exactly when some item of the list belongs to it. */
  lemma RegionNamedIffFirst(items: seq<Item>, name: string)
    ensures name in RegionNames(items) <==> FirstInRegion(items, name) < |items|
  {
    var k := FirstInRegion(items, name);
    if name in RegionNames(items) {
      var x :| x in items && InRegion(x, name);
      var j :| 0 <= j < |items| && items[j] == x;
      assert k <= j;
    }
  }

  /** A region met before the last item keeps its first index when the last item is added. */
  lemma FirstInRegionKept(items: seq<Item>, name: string)
    requires |items| > 0 && FirstInRegion(items[..|items| - 1], name) < |items| - 1
    ensures FirstInRegion(items, name) == FirstInRegion(items[..|items| - 1], name)
  {
  }

  /** A region first met at the last item has the last index. */
  lemma FirstInRegionNew(items: seq<Item>, name: string)
    requires |items| > 0 && FirstInRegion(items[..|items| - 1], name) == |items| - 1
    requires InRegion(items[|items| - 1], name)
    ensures FirstInRegion(items, name) == |items| - 1
  {
  }

  /**
    The region names are the `Map`'s keys in insertion order: each names a
    region that has an item, and they are listed in the order in which each
    region's first item appears.
  */
  lemma {:induction false} RegionNamesFirstSeen(items: seq<Item>)
    ensures var names := RegionNames(items);
            && (forall n :: n in names ==> FirstInRegion(items, n) < |items|)
            && (forall i, j :: 0 <= i < j < |names| ==> FirstInRegion(items, names[i]) < FirstInRegion(items, names[j]))
    decreases |items|
  {
    var names := RegionNames(items);
    forall n | n in names
      ensures FirstInRegion(items, n) < |items|
    {
      RegionNamedIffFirst(items, n);
    }
    if |items| > 0 {
      var init, last := items[..|items| - 1], items[|items| - 1];
      RegionNamesFirstSeen(init);
      var rest := RegionNames(init);
      forall n | n in rest
        ensures FirstInRegion(items, n) == FirstInRegion(init, n) < |init|
      {
        FirstInRegionKept(items, n);
      }
      if names != rest {
        var name := RegionOf(last);
        assert names == rest + [name] && name !in rest;
        RegionNamedIffFirst(init, name);
        FirstInRegionNew(items, name);
        forall i, j | 0 <= i < j < |names|
          ensures FirstInRegion(items, names[i]) < FirstInRegion(items, names[j])
        {
          assert names[i] == rest[i];
          assert rest[i] in rest;
          if j < |rest| {
            assert names[j] == rest[j];
            assert rest[j] in rest;
          }
        }
      }
    }
  }

  /** The diary items of region `name`, in catalog order: what the `Map` holds under that key. */
  function RegionMembers(items: seq<Item>, name: string): (r: seq<Item>)
    ensures forall x :: x in r <==> x in items && InRegion(x, name)
    ensures name !in RegionNames(items) ==> r == []
    ensures SubseqOf(r, items)
    decreases |items|
  {
    if |items| == 0 then []
    else
      var init, last := items[..|items| - 1], items[|items| - 1];
      assert items == init + [last];
      var rest := RegionMembers(init, name);
      SubseqStep(rest, items, InRegion(last, name));
      rest + (if InRegion(last, name) then [last] else [])
  }

  /** One entry of the grouped diaries: a region name and its sorted tiers. */
  datatype RegionGroup = RegionGroup(name: string, tiers: seq<Item>)

  /**
    `groupDiariesByRegion(items)`: the `Map` entries, each group sorted by
    tier, in the order in which each region's first item appears.
  */
  function GroupedDiaries(items: seq<Item>): (r: seq<RegionGroup>)
    ensures forall i, j :: 0 <= i < j < |r| ==> FirstInRegion(items, r[i].name) < FirstInRegion(items, r[j].name)
  {
    RegionNamesFirstSeen(items);
    var names := RegionNames(items);
    seq(|names|, i requires 0 <= i < |names| => RegionGroup(names[i], TierSorted(RegionMembers(items, names[i]))))
  }

  /** One more item extends the region names and the members of its region, and nothing else. */
  lemma PrefixStep(items: seq<Item>, i: nat)
    requires i < |items|
    ensures RegionNames(items[..i + 1]) ==
              var rest := RegionNames(items[..i]);
              if IsDiaryItem(items[i]) && RegionOf(items[i]) !in rest then rest + [RegionOf(items[i])] else rest
    ensures forall n :: RegionMembers(items[..i + 1], n) ==
              RegionMembers(items[..i], n) + (if InRegion(items[i], n) then [items[i]] else [])
  {
    assert items[..i + 1][..i] == items[..i];
    assert items[..i + 1][i] == items[i];
  }

  /**
    The grouping keeps exactly the diary items: the region names are
    distinct, every group is non-empty, holds exactly the items of its region
    (each as often as in the catalog) sorted by tier, and every diary item
    lands in the group of its region.
  */
  lemma GroupedDiariesMeaning(items: seq<Item>)
    ensures var groups := GroupedDiaries(items);
            && (forall i, j :: 0 <= i < j < |groups| ==> groups[i].name != groups[j].name)
            && (forall i :: 0 <= i < |groups| ==>
                  && |groups[i].tiers| > 0
                  && multiset(groups[i].tiers) == multiset(RegionMembers(items, groups[i].name))
                  && KeySorted(groups[i].tiers, TierRank)
                  && forall x :: x in groups[i].tiers <==> x in items && InRegion(x, groups[i].name))
            && (forall x :: x in items && IsDiaryItem(x) ==>
                  exists i :: 0 <= i < |groups| && groups[i].name == RegionOf(x) && x in groups[i].tiers)
  {
    var groups := GroupedDiaries(items);
    var names := RegionNames(items);
    forall i | 0 <= i < |groups|
      ensures && |groups[i].tiers| > 0
              && multiset(groups[i].tiers) == multiset(RegionMembers(items, groups[i].name))
              && KeySorted(groups[i].tiers, TierRank)
              && forall x :: x in groups[i].tiers <==> x in items && InRegion(x, groups[i].name)
    {
      var members := RegionMembers(items, names[i]);
      TierSortedIsStableSort(members);
      assert names[i] in names;
      var x :| x in items && InRegion(x, names[i]);
      assert x in multiset(groups[i].tiers);
      forall y
        ensures y in groups[i].tiers <==> y in members
      {
        assert y in groups[i].tiers <==> y in multiset(groups[i].tiers);
      }
    }
    forall x | x in items && IsDiaryItem(x)
      ensures exists i :: 0 <= i < |groups| && groups[i].name == RegionOf(x) && x in groups[i].tiers
    {
      assert RegionOf(x) in names;
      var i :| 0 <= i < |names| && names[i] == RegionOf(x);
      assert x in RegionMembers(items, names[i]);
      assert x in groups[i].tiers;
    }
  }

  /** The `Map` after the first `i` items: a key per region met so far, holding that region's items. */
  ghost predicate Collected(items: seq<Item>, i: nat, names: seq<string>, regions: map<string, seq<Item>>)
    requires i <= |items|
  {
    && names == RegionNames(items[..i])
    && (forall n :: n in regions <==> n in names)
    && (forall n :: n in regions ==> regions[n] == RegionMembers(items[..i], n))
  }

  /** Pushing a diary item onto its region's list (created when missing) keeps the map collected. */
  lemma PushStep(items: seq<Item>, i: nat, names: seq<string>, regions: map<string, seq<Item>>)
    requires i < |items| && IsDiaryItem(items[i])
    requires Collected(items, i, names, regions)
    ensures var name := RegionOf(items[i]);
            var list := if name in regions then regions[name] else [];
            var after := regions[name := list + [items[i]]];
            var names' := if name in regions then names else names + [name];
            && names' == RegionNames(items[..i + 1])
            && (forall n :: n in after <==> n in names')
            && (forall n :: n in after ==> after[n] == RegionMembers(items[..i + 1], n))
  {
    PrefixStep(items, i);
    var name := RegionOf(items[i]);
    var list := if name in regions then regions[name] else [];
    var after := regions[name := list + [items[i]]];
    var names' := if name in regions then names else names + [name];
    assert forall n :: InRegion(items[i], n) <==> n == name;
    assert list == RegionMembers(items[..i], name);
    assert names' == RegionNames(items[..i + 1]);
    forall n | n in after
      ensures after[n] == RegionMembers(items[..i + 1], n)
    {
      if n != name {
        assert after[n] == regions[n];
      }
    }
    assert forall n :: n in after <==> n in names';
  }

  /** Skipping an item that is no diary item keeps the map collected. */
  lemma SkipStep(items: seq<Item>, i: nat, names: seq<string>, regions: map<string, seq<Item>>)
    requires i < |items| && !IsDiaryItem(items[i])
    requires Collected(items, i, names, regions)
    ensures names == RegionNames(items[..i + 1])
    ensures forall n :: n in regions ==> regions[n] == RegionMembers(items[..i + 1], n)
  {
    PrefixSkip(items, i);
  }

  /** An item that is no diary item adds no region and no member. */
  lemma PrefixSkip(items: seq<Item>, i: nat)
    requires i < |items| && !IsDiaryItem(items[i])
    ensures RegionNames(items[..i + 1]) == RegionNames(items[..i])
    ensures forall n :: RegionMembers(items[..i + 1], n) == RegionMembers(items[..i], n)
  {
    PrefixStep(items, i);
    forall n
      ensures RegionMembers(items[..i + 1], n) == RegionMembers(items[..i], n)
    {
      assert !InRegion(items[i], n);
    }
  }

  /**
    The first pass of `groupDiariesByRegion`: every diary item is pushed onto
    the list of its region, a region's list being created when first met.
    `names` records the key order of the `Map`.
  */
  method CollectRegions(items: seq<Item>) returns (names: seq<string>, regions: map<string, seq<Item>>)
    ensures names == RegionNames(items)
    ensures forall n :: n in regions <==> n in names
    ensures forall n :: n in regions ==> regions[n] == RegionMembers(items, n)
  {
    names := [];
    regions := map[];
    for i := 0 to |items|
      invariant Collected(items, i, names, regions)
    {
      var m := MatchDiary(items[i].labelText);
      if m.Some? {
        var regionName := m.value.region;
        PushStep(items, i, names, regions);
        if regionName !in regions {
          names := names + [regionName];
          regions := regions[regionName := []];
        }
        regions := regions[regionName := regions[regionName] + [items[i]]];
      } else {
        SkipStep(items, i, names, regions);
      }
    }
    assert items[..|items|] == items;
  }

  /**
    The second pass: every region's list sorted by tier, then the entries
    taken in key order (`Array.from(regions.entries())`).
  */
  method SortRegions(names: seq<string>, regions: map<string, seq<Item>>) returns (groups: seq<RegionGroup>)
    requires forall n :: n in names ==> n in regions
    ensures |groups| == |names|
    ensures forall k :: 0 <= k < |names| ==> groups[k] == RegionGroup(names[k], TierSorted(regions[names[k]]))
  {
    groups := [];
    for j := 0 to |names|
      invariant |groups| == j
      invariant forall k :: 0 <= k < j ==> groups[k] == RegionGroup(names[k], TierSorted(regions[names[k]]))
    {
      groups := groups + [RegionGroup(names[j], TierSorted(regions[names[j]]))];
    }
  }

  /** The grouping as the source runs it: one pass filling the `Map`, then the entries with sorted tiers. */
  method GroupDiariesByRegion(items: seq<Item>) returns (groups: seq<RegionGroup>)
    ensures groups == GroupedDiaries(items)
  {
    var names, regions := CollectRegions(items);
    groups := SortRegions(names, regions);
  }

  // ----- the regions shown -----

  /** `tiers.every(t => completedItems.has(t.id))`. */
  predicate AllTiersDone(tiers: seq<Item>, completed: set<string>)
  {
    forall t :: t in tiers ==> t.id in completed
  }

  /** A region passes the search (on its name) and, when hiding completed, still has an open tier. */
  predicate RegionShown(g: RegionGroup, query: string, hideCompleted: bool, completed: set<string>)
  {
    MatchesQuery(g.name, query) && (!hideCompleted || !AllTiersDone(g.tiers, completed))
  }

  /** The two `filter` calls on the grouped regions, in order. */
  function FilterRegions(groups: seq<RegionGroup>, query: string, hideCompleted: bool, completed: set<string>)
    : (r: seq<RegionGroup>)
    ensures |r| <= |groups|
    ensures forall g :: g in r <==> g in groups && RegionShown(g, query, hideCompleted, completed)
    ensures SubseqOf(r, groups)
    decreases |groups|
  {
    if |groups| == 0 then []
    else
      var last := groups[|groups| - 1];
      var rest := FilterRegions(groups[..|groups| - 1], query, hideCompleted, completed);
      SubseqStep(rest, groups, RegionShown(last, query, hideCompleted, completed));
      rest + (if RegionShown(last, query, hideCompleted, completed) then [last] else [])
  }

  /** The region name, the key of the A-Z and Z-A sorts. */
  function GroupName(g: RegionGroup): string
  {
    g.name
  }

  /**
    `processedDiaryRegions`: nothing unless the active tab is the diary tab;
    otherwise the shown regions, sorted by name when a sort is chosen, and
    in the grouping's order when not.
  */
  function ProcessedDiaryRegions(active: Option<Category>, query: string, hideCompleted: bool,
                                 completedIds: seq<string>, sortBy: SortBy): (r: Option<seq<RegionGroup>>)
    ensures r.Some? <==> active.Some? && active.value.id == DiariesId
    ensures r.Some? && sortBy == Default ==> SubseqOf(r.value, GroupedDiaries(active.value.items))
  {
    if active.None? || active.value.id != DiariesId then None
    else
      var regions := FilterRegions(GroupedDiaries(active.value.items), query, hideCompleted, Elems(completedIds));
      match sortBy
      case Default => Some(regions)
      case Az => Some(SortByKey(regions, GroupName, false))
      case Za => Some(SortByKey(regions, GroupName, true))
  }

  /**
    On the diary tab, the view shows exactly the grouped regions that pass
    both filters, each once, in the grouping's order for the default sort and
    ordered by name (ascending or descending) otherwise.
  */
  lemma ProcessedDiaryRegionsMeaning(active: Option<Category>, query: string, hideCompleted: bool,
                                     completedIds: seq<string>, sortBy: SortBy)
    ensures ProcessedDiaryRegions(active, query, hideCompleted, completedIds, sortBy).Some? ==>
              var shown := ProcessedDiaryRegions(active, query, hideCompleted, completedIds, sortBy).value;
              var filtered := FilterRegions(GroupedDiaries(active.value.items), query, hideCompleted, Elems(completedIds));
              && multiset(shown) == multiset(filtered)
              && (forall g :: g in shown <==>
                    g in GroupedDiaries(active.value.items) && RegionShown(g, query, hideCompleted, Elems(completedIds)))
              && (sortBy == Default ==> shown == filtered)
              && (sortBy == Az ==> SortedBy(shown, GroupName, false))
              && (sortBy == Za ==> SortedBy(shown, GroupName, true))
  {
    if active.Some? && active.value.id == DiariesId {
      var shown := ProcessedDiaryRegions(active, query, hideCompleted, completedIds, sortBy).value;
      var filtered := FilterRegions(GroupedDiaries(active.value.items), query, hideCompleted, Elems(completedIds));
      forall g
        ensures g in shown <==> g in filtered
      {
        assert g in shown <==> g in multiset(shown);
        assert g in filtered <==> g in multiset(filtered);
      }
    }
  }

  /** With hiding on, a region whose every tier is complete is not shown, whatever the query. */
  lemma CompletedRegionHidden(active: Option<Category>, query: string, completedIds: seq<string>,
                              sortBy: SortBy, g: RegionGroup)
    requires active.Some? && active.value.id == DiariesId
    requires AllTiersDone(g.tiers, Elems(completedIds))
    ensures g !in ProcessedDiaryRegions(active, query, true, completedIds, sortBy).value
  {
    ProcessedDiaryRegionsMeaning(active, query, true, completedIds, sortBy);
  }
}
