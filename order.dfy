/**
  Order of elements kept by a filter: one sequence is a subsequence of
  another when it can be obtained from it by deleting elements, the rest
  keeping their relative order.
*/
module Order {

  /**
    `r` is `s` with some elements deleted: either the last element of `s` is
    deleted, or it is kept as the last element of `r`.
  */
  predicate SubseqOf<T(==)>(r: seq<T>, s: seq<T>)
    decreases |s|
  {
    if |r| == 0 then true
    else if |s| == 0 then false
    else SubseqOf(r, s[..|s| - 1]) || (r[|r| - 1] == s[|s| - 1] && SubseqOf(r[..|r| - 1], s[..|s| - 1]))
  }

  /** One step of a filter that runs from the front: the last element of `s` is kept or dropped. */
  lemma SubseqStep<T>(r: seq<T>, s: seq<T>, keep: bool)
    requires |s| > 0 && SubseqOf(r, s[..|s| - 1])
    ensures SubseqOf(r + (if keep then [s[|s| - 1]] else []), s)
  {
    if keep {
      var r' := r + [s[|s| - 1]];
      assert r'[..|r'| - 1] == r;
    } else {
      assert r + [] == r;
    }
  }

  /** A subsequence is no longer than the sequence. */
  lemma {:induction false} SubseqLength<T>(r: seq<T>, s: seq<T>)
    requires SubseqOf(r, s)
    ensures |r| <= |s|
    decreases |s|
  {
    if |r| > 0 {
      if SubseqOf(r, s[..|s| - 1]) {
        SubseqLength(r, s[..|s| - 1]);
      } else {
        SubseqLength(r[..|r| - 1], s[..|s| - 1]);
      }
    }
  }

  /** Every element of a subsequence is an element of the sequence. */
  lemma {:induction false} SubseqMembers<T>(r: seq<T>, s: seq<T>)
    requires SubseqOf(r, s)
    ensures forall x :: x in r ==> x in s
    decreases |s|
  {
    if |r| > 0 {
      var init := s[..|s| - 1];
      assert forall x :: x in init ==> x in s;
      if SubseqOf(r, init) {
        SubseqMembers(r, init);
      } else {
        SubseqMembers(r[..|r| - 1], init);
        assert r == r[..|r| - 1] + [s[|s| - 1]];
      }
    }
  }

  /** A sequence is a subsequence of itself. */
  lemma {:induction false} SubseqRefl<T>(s: seq<T>)
    ensures SubseqOf(s, s)
    decreases |s|
  {
    if |s| > 0 {
      SubseqRefl(s[..|s| - 1]);
    }
  }

  /** Deleting elements twice is deleting elements once. */
  lemma {:induction false} SubseqTransitive<T>(a: seq<T>, b: seq<T>, c: seq<T>)
    requires SubseqOf(a, b) && SubseqOf(b, c)
    ensures SubseqOf(a, c)
    decreases |c|
  {
    if |a| > 0 {
      var c' := c[..|c| - 1];
      var b' := b[..|b| - 1];
      if SubseqOf(b, c') {
        SubseqTransitive(a, b, c');
      } else if SubseqOf(a, b') {
        SubseqTransitive(a, b', c');
      } else {
        SubseqTransitive(a[..|a| - 1], b', c');
      }
    }
  }

  /** Subsequences of two parts glue into a subsequence of the glued parts. */
  lemma {:induction false} SubseqAppend<T>(a1: seq<T>, b1: seq<T>, a2: seq<T>, b2: seq<T>)
    requires SubseqOf(a1, b1) && SubseqOf(a2, b2)
    ensures SubseqOf(a1 + a2, b1 + b2)
    decreases |b2|
  {
    if |b2| == 0 {
      assert |a2| == 0;
      assert a1 + a2 == a1 && b1 + b2 == b1;
    } else {
      var b2' := b2[..|b2| - 1];
      var b := b1 + b2;
      assert b[..|b| - 1] == b1 + b2';
      assert b[|b| - 1] == b2[|b2| - 1];
      if |a2| == 0 || SubseqOf(a2, b2') {
        if |a2| == 0 {
          assert SubseqOf(a2, b2');
        }
        SubseqAppend(a1, b1, a2, b2');
        if |a1 + a2| > 0 {
          assert SubseqOf(a1 + a2, b[..|b| - 1]);
        }
      } else {
        var a2' := a2[..|a2| - 1];
        SubseqAppend(a1, b1, a2', b2');
        var a := a1 + a2;
        assert a[..|a| - 1] == a1 + a2';
        assert a[|a| - 1] == a2[|a2| - 1];
      }
    }
  }

  /** The multiset of a non-empty sequence is that of all but its last element, plus the last. */
  lemma MultisetInit<T>(s: seq<T>)
    requires |s| > 0
    ensures multiset(s) == multiset(s[..|s| - 1]) + multiset{s[|s| - 1]}
  {
    assert s == s[..|s| - 1] + [s[|s| - 1]];
  }

  /** `r` holds exactly the elements of `s` that satisfy `p`, each as often as `s` does. */
  ghost predicate CountsFiltered<T(!new)>(r: seq<T>, s: seq<T>, p: T -> bool)
  {
    forall x :: multiset(r)[x] == if p(x) then multiset(s)[x] else 0
  }

  /** One step of a filter that runs from the front keeps the counts of a filter. */
  lemma CountsFilteredStep<T(!new)>(r: seq<T>, s: seq<T>, p: T -> bool)
    requires |s| > 0 && CountsFiltered(r, s[..|s| - 1], p)
    ensures CountsFiltered(r + (if p(s[|s| - 1]) then [s[|s| - 1]] else []), s, p)
  {
    MultisetInit(s);
  }

  /** An element is in a filtered sequence exactly when it is in the sequence and satisfies `p`. */
  lemma CountsFilteredMembers<T(!new)>(r: seq<T>, s: seq<T>, p: T -> bool)
    requires CountsFiltered(r, s, p)
    ensures forall x :: x in r <==> x in s && p(x)
  {
    forall x
      ensures x in r <==> x in s && p(x)
    {
      assert x in r <==> multiset(r)[x] > 0;
      assert x in s <==> multiset(s)[x] > 0;
    }
  }
}
