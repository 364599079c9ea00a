/**
  A JavaScript `Set<string>` as the checklist uses it. The set keeps its
  members in insertion order and `Array.from` hands them back in that order,
  so a set is modelled as a sequence of distinct strings: `add` appends a new
  member at the end, `delete` removes it and keeps the order of the rest.
*/
module IdSet {

  /** No string occurs twice: the shape of every array produced by `Array.from(set)`. */
  predicate Distinct(s: seq<string>)
  {
    forall i, j :: 0 <= i < j < |s| ==> s[i] != s[j]
  }

  /** The members of a sequence, as a mathematical set. */
  function Elems(s: seq<string>): (r: set<string>)
    ensures forall x :: x in r <==> x in s
  {
    set x | x in s
  }

  /** `set.add(x)`: a new member goes at the end, an old one stays where it is. */
  function Add(s: seq<string>, x: string): (r: seq<string>)
    ensures Elems(r) == Elems(s) + {x}
    ensures Distinct(s) ==> Distinct(r)
    ensures x in s ==> r == s
    ensures x !in s ==> r == s + [x]
  {
    if x in s then s else s + [x]
  }

  /** `set.delete(x)`: the other members keep their order. */
  function Delete(s: seq<string>, x: string): (r: seq<string>)
    ensures Elems(r) == Elems(s) - {x}
    ensures Distinct(s) ==> Distinct(r)
    ensures x !in s ==> r == s
    decreases |s|
  {
    if |s| == 0 then []
    else
      var init, last := s[..|s| - 1], s[|s| - 1];
      assert s == init + [last];
      var rest := Delete(init, x);
      assert Distinct(s) ==> Distinct(init) && last !in init;
      assert Elems(rest + [last]) == Elems(rest) + {last};
      if last == x then rest else rest + [last]
  }

  /** `xs.forEach(id => set.add(id))`. */
  function AddAll(s: seq<string>, xs: seq<string>): (r: seq<string>)
    ensures Elems(r) == Elems(s) + Elems(xs)
    ensures Distinct(s) ==> Distinct(r)
    ensures s <= r
    decreases |xs|
  {
    if |xs| == 0 then s
    else
      var init := xs[..|xs| - 1];
      assert xs == init + [xs[|xs| - 1]];
      Add(AddAll(s, init), xs[|xs| - 1])
  }

  /** `xs.forEach(id => set.delete(id))`. */
  function DeleteAll(s: seq<string>, xs: seq<string>): (r: seq<string>)
    ensures Elems(r) == Elems(s) - Elems(xs)
    ensures Distinct(s) ==> Distinct(r)
    decreases |xs|
  {
    if |xs| == 0 then s
    else
      var init := xs[..|xs| - 1];
      assert xs == init + [xs[|xs| - 1]];
      Delete(DeleteAll(s, init), xs[|xs| - 1])
  }

  /** Adding one more id of `xs` is one more `add`. */
  lemma AddAllStep(s: seq<string>, xs: seq<string>, i: nat)
    requires i < |xs|
    ensures AddAll(s, xs[..i + 1]) == Add(AddAll(s, xs[..i]), xs[i])
  {
    assert xs[..i + 1][..i] == xs[..i];
  }

  /** Deleting one more id of `xs` is one more `delete`. */
  lemma DeleteAllStep(s: seq<string>, xs: seq<string>, i: nat)
    requires i < |xs|
    ensures DeleteAll(s, xs[..i + 1]) == Delete(DeleteAll(s, xs[..i]), xs[i])
  {
    assert xs[..i + 1][..i] == xs[..i];
  }

  /** `Array.from(new Set(xs))`: the first occurrence of each string, in order. */
  function FromSeq(xs: seq<string>): (r: seq<string>)
    ensures Distinct(r)
    ensures Elems(r) == Elems(xs)
  {
    AddAll([], xs)
  }

  /** Copying a duplicate-free array through a `Set` gives the same array back. */
  lemma {:induction false} FromDistinctSeq(xs: seq<string>)
    requires Distinct(xs)
    ensures FromSeq(xs) == xs
    decreases |xs|
  {
    if |xs| > 0 {
      var init := xs[..|xs| - 1];
      assert xs == init + [xs[|xs| - 1]];
      FromDistinctSeq(init);
    }
  }

  /** `set.size` of a duplicate-free array is its length. */
  lemma {:induction false} DistinctSize(s: seq<string>)
    requires Distinct(s)
    ensures |Elems(s)| == |s|
    decreases |s|
  {
    if |s| > 0 {
      var init := s[..|s| - 1];
      assert s == init + [s[|s| - 1]];
      DistinctSize(init);
      assert Elems(s) == Elems(init) + {s[|s| - 1]};
    }
  }

  /** A subset of a finite set that is as large as the set is the set itself. */
  lemma SubsetOfSameSize(a: set<string>, b: set<string>)
    requires a <= b && |a| == |b|
    ensures a == b
  {
    if a != b {
      var x :| x in b && x !in a;
      SubsetSize(a, b - {x});
    }
  }

  /** A subset is no larger than the set. */
  lemma {:induction false} SubsetSize(a: set<string>, b: set<string>)
    requires a <= b
    ensures |a| <= |b|
    decreases |b|
  {
    if b != {} {
      var y :| y in b;
      SubsetSize(a - {y}, b - {y});
    }
  }

  /** A sequence has no more distinct members than entries. */
  lemma {:induction false} ElemsSize(s: seq<string>)
    ensures |Elems(s)| <= |s|
    decreases |s|
  {
    if |s| > 0 {
      var init := s[..|s| - 1];
      ElemsSize(init);
      assert Elems(s) == Elems(init) + {s[|s| - 1]};
    }
  }
}
