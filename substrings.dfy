/** Ordinal substring search, as `string.IndexOf(value, startIndex)` is used
    by the splitter. */
module Substrings {

  /** `sub` occurs in `s` starting at index `i`. */
  predicate OccursAt(s: string, sub: string, i: int)
  {
    0 <= i && i + |sub| <= |s| && s[i..i + |sub|] == sub
  }

  /** The first index at or after `k` where `sub` occurs in `s`, or -1 when
      there is none. An empty `sub` occurs at `k` itself. */
  function IndexOf(s: string, sub: string, k: nat): (r: int)
    requires k <= |s|
    ensures r == -1 || (k <= r && OccursAt(s, sub, r))
    decreases |s| - k
  {
    if k + |sub| > |s| then -1
    else if OccursAt(s, sub, k) then k
    else IndexOf(s, sub, k + 1)
  }

  /** The search skips no occurrence: there is none from `k` up to the index
      it returns, nor anywhere from `k` on when it returns -1. */
  lemma {:induction false} IndexOfIsFirst(s: string, sub: string, k: nat, j: int)
    requires k <= |s| && k <= j
    requires var r := IndexOf(s, sub, k); r == -1 || j < r
    ensures !OccursAt(s, sub, j)
    decreases |s| - k
  {
    if k + |sub| <= |s| && !OccursAt(s, sub, k) && k < j {
      IndexOfIsFirst(s, sub, k + 1, j);
    }
  }

  /** An occurrence from `k` on is found, at its index or before. */
  lemma IndexOfNoLater(s: string, sub: string, k: nat, j: nat)
    requires k <= j && OccursAt(s, sub, j)
    ensures k <= IndexOf(s, sub, k) <= j
  {
    var r := IndexOf(s, sub, k);
    if r == -1 || j < r {
      IndexOfIsFirst(s, sub, k, j);
    }
  }

  /** An occurrence with none before it, from `k` on, is what the search finds. */
  lemma IndexOfFindsFirst(s: string, sub: string, k: nat, i: nat)
    requires k <= i && OccursAt(s, sub, i)
    requires forall j :: k <= j < i ==> !OccursAt(s, sub, j)
    ensures IndexOf(s, sub, k) == i
  {
    IndexOfNoLater(s, sub, k, i);
  }

  /** Skipping text none of whose characters can start `sub`, the search
      lands on the occurrence right after it. */
  lemma IndexOfSkipping(s: string, sub: string, k: nat, i: nat)
    requires k <= i && OccursAt(s, sub, i) && |sub| > 0
    requires forall j :: k <= j < i ==> s[j] != sub[0]
    ensures IndexOf(s, sub, k) == i
  {
    forall j | k <= j < i
      ensures !OccursAt(s, sub, j)
    {
      MismatchAt(s, sub, j, 0);
    }
    IndexOfFindsFirst(s, sub, k, i);
  }

  /** No occurrence ahead lets the search find nothing, and only then. */
  lemma IndexOfFindsNone(s: string, sub: string, k: nat)
    requires k <= |s|
    ensures IndexOf(s, sub, k) == -1 <==> forall j :: k <= j ==> !OccursAt(s, sub, j)
  {
    if IndexOf(s, sub, k) == -1 {
      forall j | k <= j
        ensures !OccursAt(s, sub, j)
      {
        IndexOfIsFirst(s, sub, k, j);
      }
    }
  }

  /** One differing character rules an occurrence out. */
  lemma MismatchAt(s: string, sub: string, j: nat, m: nat)
    requires m < |sub| && (j + |sub| <= |s| ==> s[j + m] != sub[m])
    ensures !OccursAt(s, sub, j)
  {
    if j + |sub| <= |s| {
      assert s[j..j + |sub|][m] == s[j + m];
    }
  }
}
