/**
  The string operations the checklist relies on: case-insensitive substring
  search (`toLowerCase().includes`) and the two regular expressions that read
  diary labels. Lower-casing is modelled for ASCII letters only.
*/
module Text {
  import opened Common

  /** Lower-cases an ASCII capital letter and leaves every other character alone. */
  function LowerChar(c: char): char
  {
    if 'A' <= c <= 'Z' then (c as int + 32) as char else c
  }

  /** `s.toLowerCase()`. */
  function ToLower(s: string): (r: string)
    ensures |r| == |s|
    ensures forall i :: 0 <= i < |s| ==> r[i] == LowerChar(s[i])
  {
    seq(|s|, i requires 0 <= i < |s| => LowerChar(s[i]))
  }

  /** Lower-casing twice is lower-casing once. */
  lemma ToLowerIdempotent(s: string)
    ensures ToLower(ToLower(s)) == ToLower(s)
  {
  }

  /** `sub` occurs in `s` starting at index `i`. */
  predicate OccursAt(s: string, sub: string, i: int)
  {
    0 <= i <= |s| - |sub| && s[i..i + |sub|] == sub
  }

  /** `s.includes(sub)`: `sub` occurs in `s` at some position. */
  predicate Contains(s: string, sub: string)
  {
    exists i :: 0 <= i <= |s| - |sub| && OccursAt(s, sub, i)
  }

  /** `text.toLowerCase().includes(query.toLowerCase())`. */
  predicate Includes(text: string, query: string)
  {
    Contains(ToLower(text), ToLower(query))
  }

  /** `!query || text.toLowerCase().includes(query.toLowerCase())`: the empty query matches everything. */
  predicate MatchesQuery(text: string, query: string)
  {
    query == "" || Includes(text, query)
  }

  /** Matching ignores the case of both the text and the query, and the empty query matches every text. */
  lemma MatchesQueryCaseInsensitive(text: string, query: string)
    ensures MatchesQuery(text, query) <==> (query == "" || MatchesQuery(ToLower(text), ToLower(query)))
    ensures MatchesQuery(text, "")
  {
    ToLowerIdempotent(text);
    ToLowerIdempotent(query);
  }

  /** A line terminator, which the regular-expression dot does not match. */
  predicate IsLineTerminator(c: char)
  {
    c == '\n' || c == '\r' || c == '\U{2028}' || c == '\U{2029}'
  }

  /** The first index at or after `j` holding `)`, or `|s|` when there is none. */
  function CloseIndex(s: string, j: nat): (k: nat)
    requires j <= |s|
    ensures j <= k <= |s|
    ensures k < |s| ==> s[k] == ')'
    ensures forall m :: j <= m < k ==> s[m] != ')'
    decreases |s| - j
  {
    if j == |s| || s[j] == ')' then j else CloseIndex(s, j + 1)
  }

  /** The match of `/\(([^)]+)\)/` that starts exactly at index `i`, if there is one. */
  function GroupAt(s: string, i: nat): (r: Option<string>)
    requires i < |s|
    ensures r.Some? <==> s[i] == '(' && CloseIndex(s, i + 1) < |s| && CloseIndex(s, i + 1) > i + 1
    ensures r.Some? ==> r.value == s[i + 1..CloseIndex(s, i + 1)]
  {
    if s[i] != '(' then None
    else
      var c := CloseIndex(s, i + 1);
      if c < |s| && c > i + 1 then Some(s[i + 1..c]) else None
  }

  /** The leftmost match of `/\(([^)]+)\)/` at or after index `i`: the captured group. */
  function FirstParenGroupFrom(s: string, i: nat): (r: Option<string>)
    requires i <= |s|
    ensures r.Some? ==> |r.value| > 0 && ')' !in r.value
    decreases |s| - i
  {
    if i == |s| then None
    else match GroupAt(s, i)
      case Some(g) => Some(g)
      case None => FirstParenGroupFrom(s, i + 1)
  }

  /** The search finds nothing exactly when no group starts at or after `i`, and otherwise the leftmost one. */
  lemma {:induction false} FirstParenGroupFromLeftmost(s: string, i: nat)
    requires i <= |s|
    ensures FirstParenGroupFrom(s, i).None? <==> forall m :: i <= m < |s| ==> GroupAt(s, m).None?
    ensures FirstParenGroupFrom(s, i).Some? ==>
              exists m :: i <= m < |s| && GroupAt(s, m) == FirstParenGroupFrom(s, i)
                          && forall p :: i <= p < m ==> GroupAt(s, p).None?
    decreases |s| - i
  {
    if i < |s| {
      if GroupAt(s, i).Some? {
        assert GroupAt(s, i) == FirstParenGroupFrom(s, i);
      } else {
        FirstParenGroupFromLeftmost(s, i + 1);
        if FirstParenGroupFrom(s, i).Some? {
          var m :| i + 1 <= m < |s| && GroupAt(s, m) == FirstParenGroupFrom(s, i + 1)
                   && forall p :: i + 1 <= p < m ==> GroupAt(s, p).None?;
          assert forall p :: i <= p < m ==> GroupAt(s, p).None?;
        }
      }
    }
  }

  /** `label.match(/\(([^)]+)\)/)?.[1]`: the first parenthesised group of the label. */
  function FirstParenGroup(labelText: string): (r: Option<string>)
    ensures r.Some? ==> |r.value| > 0 && ')' !in r.value
  {
    FirstParenGroupFrom(labelText, 0)
  }

  /**
    When the text before a parenthesised word holds no `(`, the first
    parenthesised group is that word: `FirstParenGroup("Varrock (Hard)") == Some("Hard")`.
  */
  lemma FirstParenGroupOfSuffix(prefix: string, word: string)
    requires '(' !in prefix
    requires |word| > 0 && ')' !in word
    ensures FirstParenGroup(prefix + "(" + word + ")") == Some(word)
  {
    var s := prefix + "(" + word + ")";
    var i := |prefix|;
    assert s[i] == '(';
    forall m | 0 <= m < i
      ensures GroupAt(s, m).None?
    {
      assert s[m] == prefix[m];
    }
    assert CloseIndex(s, i + 1) == i + 1 + |word| by {
      CloseIndexSkips(s, i + 1, i + 1 + |word|);
    }
    assert s[i + 1..i + 1 + |word|] == word;
    FirstGroupAfterMisses(s, 0, i);
  }

  /** `CloseIndex` runs over a stretch without `)` up to the `)` that ends it. */
  lemma {:induction false} CloseIndexSkips(s: string, j: nat, k: nat)
    requires j <= k < |s| && s[k] == ')'
    requires forall m :: j <= m < k ==> s[m] != ')'
    ensures CloseIndex(s, j) == k
    decreases k - j
  {
    if j < k {
      CloseIndexSkips(s, j + 1, k);
    }
  }

  /** The leftmost search passes over indices where no group starts. */
  lemma {:induction false} FirstGroupAfterMisses(s: string, i: nat, k: nat)
    requires i <= k < |s|
    requires forall m :: i <= m < k ==> GroupAt(s, m).None?
    requires GroupAt(s, k).Some?
    ensures FirstParenGroupFrom(s, i) == GroupAt(s, k)
    decreases k - i
  {
    if i < k {
      FirstGroupAfterMisses(s, i + 1, k);
    }
  }
}
