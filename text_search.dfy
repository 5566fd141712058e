/** The two pieces of Python string matching the crawler relies on: the substring test
    `sub in s`, and `re.search` of a pattern of the form `open(\w*)close`, whose first
    group is a (possibly empty) run of word characters between two delimiters. */
module TextSearch {
  import opened Wrappers

  /** `pre` is a prefix of `s`. */
  predicate StartsWith(s: string, pre: string) {
    |pre| <= |s| && s[..|pre|] == pre
  }

  /** Python's `sub in s`: `sub` occurs somewhere in `s`. */
  predicate Contains(s: string, sub: string)
    ensures sub == [] ==> Contains(s, sub)
    ensures Contains(s, sub) ==> |sub| <= |s|
    decreases |s|
  {
    StartsWith(s, sub) || (s != [] && Contains(s[1..], sub))
  }

  /** A copy of `sub` starts at position i of `s`. */
  ghost predicate OccursAt(s: string, sub: string, i: int) {
    0 <= i && i + |sub| <= |s| && s[i..i + |sub|] == sub
  }

  /** Contains means: a copy of `sub` starts at some position of `s`. */
  lemma {:induction false} ContainsIff(s: string, sub: string)
    ensures Contains(s, sub) <==> exists i :: OccursAt(s, sub, i)
  {
    assert StartsWith(s, sub) <==> OccursAt(s, sub, 0);
    if s != [] {
      ContainsIff(s[1..], sub);
      forall i | 0 <= i
        ensures OccursAt(s[1..], sub, i) <==> OccursAt(s, sub, i + 1)
      {
        if i + |sub| <= |s| - 1 {
          assert s[1..][i..i + |sub|] == s[i + 1..i + 1 + |sub|];
        }
      }
      if i :| OccursAt(s, sub, i) {
        if i > 0 {
          assert OccursAt(s[1..], sub, i - 1);
        }
      }
    }
  }

  /** A copy of `sub` at position i of `s` makes `s` contain it. */
  lemma ContainsAt(s: string, sub: string, i: nat)
    requires OccursAt(s, sub, i)
    ensures Contains(s, sub)
  {
    ContainsIff(s, sub);
  }

  /** A string lacking one character of `sub` does not contain `sub`. */
  lemma NotContainsChar(s: string, sub: string, c: char)
    requires c in sub && c !in s
    ensures !Contains(s, sub)
  {
    ContainsIff(s, sub);
  }

  /** Python's `\w`, approximated: ASCII letters, digits and the underscore, and every
      character outside ASCII. */
  predicate IsWordChar(c: char) {
    ('a' <= c <= 'z') || ('A' <= c <= 'Z') || ('0' <= c <= '9') || c == '_' || c as int >= 0x80
  }

  /** The pattern `open(\w*)close` matches `s` from position i to the closing
      delimiter at position j. */
  predicate TokenAt(s: string, open: char, close: char, i: int, j: int) {
    0 <= i < j < |s| && s[i] == open && s[j] == close
    && forall m :: i < m < j ==> IsWordChar(s[m])
  }

  /** The end of the run of word characters that starts at k. */
  function WordRunEnd(s: string, k: nat): (e: nat)
    requires k <= |s|
    ensures k <= e <= |s|
    ensures forall m :: k <= m < e ==> IsWordChar(s[m])
    ensures e < |s| ==> !IsWordChar(s[e])
    decreases |s| - k
  {
    if k == |s| || !IsWordChar(s[k]) then k else WordRunEnd(s, k + 1)
  }

  /** When the closing delimiter is not a word character, a match that starts at i
      can end only at one place. */
  lemma TokenEndUnique(s: string, open: char, close: char, i: int, j: int, j': int)
    requires !IsWordChar(close)
    requires TokenAt(s, open, close, i, j) && TokenAt(s, open, close, i, j')
    ensures j == j'
  {
  }

  /** `re.search` of `open(\w*)close` from position `from` on: the positions of the
      opening and closing delimiters of the leftmost match, if there is one. */
  function SearchToken(s: string, open: char, close: char, from: nat): (r: Option<(nat, nat)>)
    requires from <= |s|
    requires !IsWordChar(close)
    ensures r.Some? ==> from <= r.value.0 && TokenAt(s, open, close, r.value.0, r.value.1)
    ensures r.Some? ==> forall i, j :: from <= i < r.value.0 ==> !TokenAt(s, open, close, i, j)
    ensures r.None? ==> forall i, j :: from <= i ==> !TokenAt(s, open, close, i, j)
    decreases |s| - from
  {
    if from == |s| then None
    else if s[from] == open && WordRunEnd(s, from + 1) < |s| && s[WordRunEnd(s, from + 1)] == close then
      Some((from, WordRunEnd(s, from + 1)))
    else
      SearchToken(s, open, close, from + 1)
  }

  /** The first group of the leftmost match of `open(\w*)close` in `s`, if any. */
  function FirstToken(s: string, open: char, close: char): (r: Option<string>)
    requires !IsWordChar(close)
    ensures r.Some? ==> forall c :: c in r.value ==> IsWordChar(c)
    ensures r.Some? ==> Contains(s, [open] + r.value + [close])
    ensures r.None? <==> forall i, j :: !TokenAt(s, open, close, i, j)
  {
    match SearchToken(s, open, close, 0)
    case None => None
    case Some(span) =>
      var t := s[span.0 + 1..span.1];
      assert s[span.0..span.0 + |[open] + t + [close]|] == [open] + t + [close];
      ContainsAt(s, [open] + t + [close], span.0);
      Some(t)
  }

  /** FirstToken gives the text between the delimiters of the leftmost match. */
  lemma FirstTokenLeftmost(s: string, open: char, close: char, i: int, j: int)
    requires !IsWordChar(close)
    requires TokenAt(s, open, close, i, j)
    requires forall i', j' :: 0 <= i' < i ==> !TokenAt(s, open, close, i', j')
    ensures FirstToken(s, open, close) == Some(s[i + 1..j])
  {
    var r := SearchToken(s, open, close, 0);
    assert r.Some?;
    assert r.value.0 == i;
    TokenEndUnique(s, open, close, i, j, r.value.1);
  }
}
