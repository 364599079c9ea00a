/**
  `[...xs].sort((a, b) => key(a).localeCompare(key(b)))` and its reverse.
  Strings are compared code unit by code unit (lexicographic order), and the
  sort is stable, as `Array.prototype.sort` is: elements with equal keys keep
  their relative order.
*/
module Sorting {

  /** Lexicographic "less than or equal" on strings. */
  predicate LexLe(a: string, b: string)
    decreases |a|
  {
    |a| == 0 || (|b| > 0 && (a[0] < b[0] || (a[0] == b[0] && LexLe(a[1..], b[1..]))))
  }

  /** Any two strings are comparable. */
  lemma {:induction false} LexLeTotal(a: string, b: string)
    ensures LexLe(a, b) || LexLe(b, a)
    decreases |a|
  {
    if |a| > 0 && |b| > 0 && a[0] == b[0] {
      LexLeTotal(a[1..], b[1..]);
    }
  }

  /** The order is transitive. */
  lemma {:induction false} LexLeTransitive(a: string, b: string, c: string)
    requires LexLe(a, b) && LexLe(b, c)
    ensures LexLe(a, c)
    decreases |a|
  {
    if |a| > 0 && a[0] == b[0] && b[0] == c[0] {
      LexLeTransitive(a[1..], b[1..], c[1..]);
    }
  }

  /** Two keys in the order the chosen direction wants them: A-Z, or Z-A when `descending`. */
  predicate InOrder(a: string, b: string, descending: bool)
  {
    if descending then LexLe(b, a) else LexLe(a, b)
  }

  /** Every element's key is in order with every later element's key. */
  ghost predicate SortedBy<T>(s: seq<T>, key: T -> string, descending: bool)
  {
    forall i, j :: 0 <= i < j < |s| ==> InOrder(key(s[i]), key(s[j]), descending)
  }

  /** The chosen direction is transitive. */
  lemma InOrderTransitive(a: string, b: string, c: string, descending: bool)
    requires InOrder(a, b, descending) && InOrder(b, c, descending)
    ensures InOrder(a, c, descending)
  {
    if descending {
      LexLeTransitive(c, b, a);
    } else {
      LexLeTransitive(a, b, c);
    }
  }

  /** An element in order after every element of a sorted sequence may go last. */
  lemma SortedSnoc<T>(t: seq<T>, x: T, key: T -> string, descending: bool)
    requires SortedBy(t, key, descending)
    requires forall y :: y in t ==> InOrder(key(y), key(x), descending)
    ensures SortedBy(t + [x], key, descending)
  {
    var r := t + [x];
    forall i, j | 0 <= i < j < |r|
      ensures InOrder(key(r[i]), key(r[j]), descending)
    {
      assert r[i] == t[i];
      if j < |t| {
        assert r[j] == t[j];
      } else {
        assert t[i] in t;
      }
    }
  }

  /** An element in order after the last element of a sorted sequence is in order after all of them. */
  lemma AfterLastAfterAll<T>(t: seq<T>, x: T, key: T -> string, descending: bool)
    requires SortedBy(t, key, descending) && |t| > 0
    requires InOrder(key(t[|t| - 1]), key(x), descending)
    ensures forall y :: y in t ==> InOrder(key(y), key(x), descending)
  {
    forall y | y in t
      ensures InOrder(key(y), key(x), descending)
    {
      var i :| 0 <= i < |t| && t[i] == y;
      if i < |t| - 1 {
        InOrderTransitive(key(y), key(t[|t| - 1]), key(x), descending);
      }
    }
  }

  /**
    When `x` may not follow the last element, that element may follow every
    element of `x` inserted into the others.
  */
  lemma BeforeLast<T>(t: seq<T>, x: T, front: seq<T>, key: T -> string, descending: bool)
    requires SortedBy(t, key, descending) && |t| > 0
    requires !InOrder(key(t[|t| - 1]), key(x), descending)
    requires multiset(front) == multiset(t[..|t| - 1]) + multiset{x}
    ensures forall y :: y in front ==> InOrder(key(y), key(t[|t| - 1]), descending)
  {
    var init, last := t[..|t| - 1], t[|t| - 1];
    LexLeTotal(key(last), key(x));
    forall y | y in front
      ensures InOrder(key(y), key(last), descending)
    {
      assert y in multiset(front);
      if y != x {
        assert y in multiset(init);
        var i :| 0 <= i < |init| && init[i] == y;
        assert t[i] == y;
      }
    }
  }

  /**
    Puts `x` into the sorted `t` after every element whose key may stay
    before it; since `x` comes last in the input, equal keys keep their order.
  */
  function Insert<T>(t: seq<T>, x: T, key: T -> string, descending: bool): (r: seq<T>)
    requires SortedBy(t, key, descending)
    ensures |r| == |t| + 1
    ensures multiset(r) == multiset(t) + multiset{x}
    ensures SortedBy(r, key, descending)
    decreases |t|
  {
    if |t| == 0 then [x]
    else
      var last := t[|t| - 1];
      if InOrder(key(last), key(x), descending) then
        AfterLastAfterAll(t, x, key, descending);
        SortedSnoc(t, x, key, descending);
        t + [x]
      else
        var init := t[..|t| - 1];
        assert t == init + [last];
        assert SortedBy(init, key, descending);
        var front := Insert(init, x, key, descending);
        BeforeLast(t, x, front, key, descending);
        SortedSnoc(front, last, key, descending);
        front + [last]
  }

  /** The stable sort of `s` by `key`, ascending or descending. */
  function SortByKey<T>(s: seq<T>, key: T -> string, descending: bool): (r: seq<T>)
    ensures |r| == |s|
    ensures multiset(r) == multiset(s)
    ensures SortedBy(r, key, descending)
    decreases |s|
  {
    if |s| == 0 then []
    else
      assert s == s[..|s| - 1] + [s[|s| - 1]];
      Insert(SortByKey(s[..|s| - 1], key, descending), s[|s| - 1], key, descending)
  }

  /** The elements of `s` whose key is `k`, in order. */
  function KeyedAs<T>(s: seq<T>, key: T -> string, k: string): seq<T>
    decreases |s|
  {
    if |s| == 0 then []
    else KeyedAs(s[..|s| - 1], key, k) + (if key(s[|s| - 1]) == k then [s[|s| - 1]] else [])
  }

  /** Appending an element appends it to the run of its own key only. */
  lemma KeyedAsSnoc<T>(s: seq<T>, x: T, key: T -> string, k: string)
    ensures KeyedAs(s + [x], key, k) == KeyedAs(s, key, k) + (if key(x) == k then [x] else [])
  {
    assert (s + [x])[..|s|] == s;
  }

  /** Every string is in order with itself. */
  lemma {:induction false} LexLeReflexive(a: string)
    ensures LexLe(a, a)
    decreases |a|
  {
    if |a| > 0 {
      LexLeReflexive(a[1..]);
    }
  }

  /** When `x` may not follow the last element, the insertion goes into the others and the last stays last. */
  lemma InsertBeforeLast<T>(t: seq<T>, x: T, key: T -> string, descending: bool)
    requires SortedBy(t, key, descending) && |t| > 0
    requires !InOrder(key(t[|t| - 1]), key(x), descending)
    ensures SortedBy(t[..|t| - 1], key, descending)
    ensures Insert(t, x, key, descending) == Insert(t[..|t| - 1], x, key, descending) + [t[|t| - 1]]
  {
  }

  /** When `x` may follow the last element, it is appended. */
  lemma InsertAfterLast<T>(t: seq<T>, x: T, key: T -> string, descending: bool)
    requires SortedBy(t, key, descending) && |t| > 0
    requires InOrder(key(t[|t| - 1]), key(x), descending)
    ensures Insert(t, x, key, descending) == t + [x]
  {
  }

  /** The run of one key of a sequence and an element is the run of the sequence, and the element when it has that key. */
  function Run<T>(s: seq<T>, x: T, key: T -> string, k: string): seq<T>
  {
    KeyedAs(s, key, k) + (if key(x) == k then [x] else [])
  }

  /** Two elements of different keys can swap places without changing any key's run. */
  lemma RunSwap<T>(s: seq<T>, x: T, y: T, key: T -> string, k: string)
    requires key(x) != key(y)
    ensures Run(s, x, key, k) + (if key(y) == k then [y] else []) == Run(s, y, key, k) + (if key(x) == k then [x] else [])
  {
  }

  /** Inserting `x` puts it after every element of its key already there. */
  lemma {:induction false} InsertStable<T>(t: seq<T>, x: T, key: T -> string, descending: bool, k: string)
    requires SortedBy(t, key, descending)
    ensures KeyedAs(Insert(t, x, key, descending), key, k) == Run(t, x, key, k)
    decreases |t|
  {
    if |t| == 0 {
      KeyedAsSnoc([], x, key, k);
    } else {
      var init, last := t[..|t| - 1], t[|t| - 1];
      if InOrder(key(last), key(x), descending) {
        InsertAfterLast(t, x, key, descending);
        KeyedAsSnoc(t, x, key, k);
      } else {
        LexLeReflexive(key(x));
        InsertBeforeLast(t, x, key, descending);
        var front := Insert(init, x, key, descending);
        InsertStable(init, x, key, descending, k);
        KeyedAsSnoc(front, last, key, k);
        RunSwap(init, x, last, key, k);
      }
    }
  }

  /**
    The sort is stable, as `Array.prototype.sort` is: the elements of each
    key keep their relative order.
  */
  lemma {:induction false} SortByKeyStable<T>(s: seq<T>, key: T -> string, descending: bool, k: string)
    ensures KeyedAs(SortByKey(s, key, descending), key, k) == KeyedAs(s, key, k)
    decreases |s|
  {
    if |s| > 0 {
      var init := s[..|s| - 1];
      SortByKeyStable(init, key, descending, k);
      InsertStable(SortByKey(init, key, descending), s[|s| - 1], key, descending, k);
    }
  }
}
