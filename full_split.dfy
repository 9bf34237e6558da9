/** The specification of the full-expression split: the meaningful pieces are
    placed, in order, at the first occurrence of each at or after the end of
    the previous one, and the text skipped over becomes filler. */
module FullSplit {
  import opened LicenseModels
  import opened Substrings

  /** The filler for the text skipped between `cursor` and a match at `i`. */
  function Gap(s: string, cursor: nat, i: nat): seq<Piece>
    requires cursor <= i <= |s|
  {
    if i > cursor then [Piece(s[cursor..i], Other)] else []
  }

  /** The filler for the text left after the last match. */
  function Tail(s: string, cursor: nat): seq<Piece>
    requires cursor <= |s|
  {
    if cursor < |s| then [Piece(s[cursor..], Other)] else []
  }

  /** The full split of `s[cursor..]` against the segments from the `n`-th on. */
  function Split(s: string, segs: seq<Piece>, n: nat, cursor: nat): Result<seq<Piece>>
    requires n <= |segs| && cursor <= |s|
    decreases |segs| - n
  {
    if n == |segs| then Success(Tail(s, cursor))
    else
      var v := segs[n].value;
      var i := IndexOf(s, v, cursor);
      if i < 0 then Failure(InvalidOperation(v, cursor, s))
      else Prefixed(Gap(s, cursor, i) + [segs[n]], Split(s, segs, n + 1, i + |v|))
  }

  /** The split from the `n`-th segment on, behind the pieces `done` already
      produced, fails when the `n`-th value is not found. */
  lemma SplitStopsAt(s: string, segs: seq<Piece>, n: nat, cursor: nat, done: seq<Piece>)
    requires n < |segs| && cursor <= |s| && IndexOf(s, segs[n].value, cursor) < 0
    ensures Prefixed(done, Split(s, segs, n, cursor)) == Failure(InvalidOperation(segs[n].value, cursor, s))
  {
  }

  /** ... and otherwise moves the gap and the `n`-th segment behind `done`,
      going on from the end of the match, which never lies before the
      cursor. */
  lemma SplitAdvances(s: string, segs: seq<Piece>, n: nat, cursor: nat, done: seq<Piece>,
                      done': seq<Piece>, cursor': nat)
    requires n < |segs| && cursor <= |s|
    requires var i := IndexOf(s, segs[n].value, cursor);
      i >= 0 && done' == done + Gap(s, cursor, i) + [segs[n]] && cursor' == i + |segs[n].value|
    ensures cursor <= cursor' <= |s|
    ensures Prefixed(done, Split(s, segs, n, cursor)) == Prefixed(done', Split(s, segs, n + 1, cursor'))
  {
    var i := IndexOf(s, segs[n].value, cursor);
    PrefixedTwice(done, Gap(s, cursor, i) + [segs[n]], Split(s, segs, n + 1, cursor'));
    assert done + (Gap(s, cursor, i) + [segs[n]]) == done';
  }

  /** Independent of any search strategy: the values of the segments from the
      `n`-th on can be laid over `s[cursor..]` in order and without
      overlapping. */
  ghost predicate Embeds(s: string, segs: seq<Piece>, n: nat, cursor: nat)
    requires n <= |segs| && cursor <= |s|
    decreases |segs| - n
  {
    n == |segs| ||
    exists i: nat :: cursor <= i && OccursAt(s, segs[n].value, i) &&
      Embeds(s, segs, n + 1, i + |segs[n].value|)
  }

  /** Starting earlier never hurts a placement. */
  lemma EmbedsEarlier(s: string, segs: seq<Piece>, n: nat, c: nat, c': nat)
    requires n <= |segs| && c <= c' <= |s| && Embeds(s, segs, n, c')
    ensures Embeds(s, segs, n, c)
  {
    if n < |segs| {
      var i: nat :| c' <= i && OccursAt(s, segs[n].value, i) &&
        Embeds(s, segs, n + 1, i + |segs[n].value|);
      assert c <= i;
    }
  }

  /** A split whose next value is found succeeds when the rest of it does. */
  lemma SplitGoesOn(s: string, segs: seq<Piece>, n: nat, cursor: nat, next: nat)
    requires n < |segs| && cursor <= |s| && next <= |s|
    requires IndexOf(s, segs[n].value, cursor) >= 0
    requires next == IndexOf(s, segs[n].value, cursor) + |segs[n].value|
    requires Split(s, segs, n + 1, next).Success?
    ensures Split(s, segs, n, cursor).Success?
  {
  }

  /** A successful split is a placement. */
  lemma {:induction false} EmbedsOfSplit(s: string, segs: seq<Piece>, n: nat, cursor: nat)
    requires n <= |segs| && cursor <= |s| && Split(s, segs, n, cursor).Success?
    ensures Embeds(s, segs, n, cursor)
    decreases |segs| - n
  {
    if n < |segs| {
      var v := segs[n].value;
      var i := IndexOf(s, v, cursor);
      EmbedsOfSplit(s, segs, n + 1, i + |v|);
      assert cursor <= i && OccursAt(s, v, i);
    }
  }

  /** A placement of the segments from the `n`-th on starts with a placement
      of the `n`-th. */
  lemma EmbedsFirst(s: string, segs: seq<Piece>, n: nat, cursor: nat) returns (j: nat)
    requires n < |segs| && cursor <= |s| && Embeds(s, segs, n, cursor)
    ensures cursor <= j && OccursAt(s, segs[n].value, j)
    ensures Embeds(s, segs, n + 1, j + |segs[n].value|)
  {
    j :| cursor <= j && OccursAt(s, segs[n].value, j) && Embeds(s, segs, n + 1, j + |segs[n].value|);
  }

  /** Where a placement exists the first occurrence of the next value is at
      or before the placed one, so the split never gets stuck. */
  lemma {:induction false} SplitOfEmbeds(s: string, segs: seq<Piece>, n: nat, cursor: nat)
    requires n <= |segs| && cursor <= |s| && Embeds(s, segs, n, cursor)
    ensures Split(s, segs, n, cursor).Success?
    decreases |segs| - n
  {
    if n < |segs| {
      var v := segs[n].value;
      var j := EmbedsFirst(s, segs, n, cursor);
      IndexOfNoLater(s, v, cursor, j);
      var next := IndexOf(s, v, cursor) + |v|;
      EmbedsEarlier(s, segs, n + 1, next, j + |v|);
      SplitOfEmbeds(s, segs, n + 1, next);
      SplitGoesOn(s, segs, n, cursor, next);
    }
  }

  /** The split succeeds exactly when some in-order placement exists: taking
      the first occurrence each time never loses one. */
  lemma SplitSucceedsIffEmbeds(s: string, segs: seq<Piece>, n: nat, cursor: nat)
    requires n <= |segs| && cursor <= |s|
    ensures Split(s, segs, n, cursor).Success? <==> Embeds(s, segs, n, cursor)
  {
    if Split(s, segs, n, cursor).Success? {
      EmbedsOfSplit(s, segs, n, cursor);
    }
    if Embeds(s, segs, n, cursor) {
      SplitOfEmbeds(s, segs, n, cursor);
    }
  }

  /** The text spelled by one step of the split. */
  lemma ConcatOfStep(s: string, cursor: nat, i: nat, p: Piece, rest: seq<Piece>)
    requires cursor <= i <= |s|
    ensures Concat(Gap(s, cursor, i) + [p] + rest) == s[cursor..i] + p.value + Concat(rest)
  {
    var g := Gap(s, cursor, i);
    ConcatAppend(g + [p], rest);
    ConcatAppend(g, [p]);
    assert Concat([p]) == p.value;
    if i == cursor {
      assert s[cursor..i] == [];
    }
  }

  lemma SliceInThree(s: string, a: nat, b: nat, c: nat)
    requires a <= b <= c <= |s|
    ensures s[a..] == s[a..b] + s[b..c] + s[c..]
  {
  }

  /** On success the pieces spell out the covered text exactly. */
  lemma {:induction false} SplitCoversText(s: string, segs: seq<Piece>, n: nat, cursor: nat)
    requires n <= |segs| && cursor <= |s| && Split(s, segs, n, cursor).Success?
    ensures Concat(Split(s, segs, n, cursor).value) == s[cursor..]
    decreases |segs| - n
  {
    if n == |segs| {
      if cursor == |s| {
        assert s[cursor..] == [];
      }
    } else {
      var v := segs[n].value;
      var i := IndexOf(s, v, cursor);
      var next := i + |v|;
      SplitCoversText(s, segs, n + 1, next);
      ConcatOfStep(s, cursor, i, segs[n], Split(s, segs, n + 1, next).value);
      assert s[i..next] == v;
      SliceInThree(s, cursor, i, next);
    }
  }

  /** On success removing the filler gives back the meaningful part of the
      input: nothing is dropped, changed or reordered. */
  lemma {:induction false} SplitKeepsSegments(s: string, segs: seq<Piece>, n: nat, cursor: nat)
    requires n <= |segs| && cursor <= |s| && Split(s, segs, n, cursor).Success?
    ensures Meaningful(Split(s, segs, n, cursor).value) == Meaningful(segs[n..])
    decreases |segs| - n
  {
    if n < |segs| {
      var v := segs[n].value;
      var i := IndexOf(s, v, cursor);
      var next := i + |v|;
      SplitKeepsSegments(s, segs, n + 1, next);
      var rest := Split(s, segs, n + 1, next).value;
      var g := Gap(s, cursor, i);
      MeaningfulAppend(g + [segs[n]], rest);
      MeaningfulAppend(g, [segs[n]]);
      assert segs[n..] == [segs[n]] + segs[n + 1..];
      MeaningfulAppend([segs[n]], segs[n + 1..]);
    }
  }

  /** The facts about a split of a whole expression, gathered: for runs
      without filler, as the walk gives them, removing the filler gives back
      exactly the runs. */
  lemma SplitOfExpression(s: string, segs: seq<Piece>)
    ensures Split(s, segs, 0, 0).Success? <==> Embeds(s, segs, 0, 0)
    ensures Split(s, segs, 0, 0).Success? ==>
      Concat(Split(s, segs, 0, 0).value) == s &&
      Meaningful(Split(s, segs, 0, 0).value) == Meaningful(segs)
    ensures Split(s, segs, 0, 0).Success? && NoFiller(segs) ==>
      Meaningful(Split(s, segs, 0, 0).value) == segs
  {
    SplitSucceedsIffEmbeds(s, segs, 0, 0);
    if Split(s, segs, 0, 0).Success? {
      SplitCoversText(s, segs, 0, 0);
      SplitKeepsSegments(s, segs, 0, 0);
      assert s[0..] == s;
      assert segs[0..] == segs;
      if NoFiller(segs) {
        MeaningfulOfNoFiller(segs);
      }
    }
  }

  /** With no segments the whole expression comes back as one filler piece,
      or as nothing when it is empty. */
  lemma SplitOfNoSegments(s: string, segs: seq<Piece>)
    requires segs == []
    ensures Split(s, segs, 0, 0) == Success(if s == [] then [] else [Piece(s, Other)])
  {
    assert s[0..] == s;
  }

  /** With meaningful input only, every filler piece the split inserts is
      non-empty and no two filler pieces are adjacent: the text between two
      matches, before the first and after the last becomes one piece, and
      only when there is such text. */
  lemma {:induction false} SplitFillerIsMaximal(s: string, segs: seq<Piece>, n: nat, cursor: nat)
    requires n <= |segs| && cursor <= |s| && NoFiller(segs) && Split(s, segs, n, cursor).Success?
    ensures var r := Split(s, segs, n, cursor).value;
      forall k :: 0 <= k < |r| && r[k].kind == Other ==>
        r[k].value != [] && (k + 1 < |r| ==> r[k + 1].kind != Other)
    decreases |segs| - n
  {
    if n < |segs| {
      var v := segs[n].value;
      var i := IndexOf(s, v, cursor);
      var next := i + |v|;
      SplitFillerIsMaximal(s, segs, n + 1, next);
      var rest := Split(s, segs, n + 1, next).value;
      var g := Gap(s, cursor, i);
      var r := g + [segs[n]] + rest;
      assert segs[n].kind != Other;
      forall k | 0 <= k < |r| && r[k].kind == Other
        ensures r[k].value != [] && (k + 1 < |r| ==> r[k + 1].kind != Other)
      {
        if k >= |g| + 1 {
          assert r[k] == rest[k - |g| - 1];
          if k + 1 < |r| {
            assert r[k + 1] == rest[k - |g|];
          }
        }
      }
    }
  }

  /** A failure names a token of the input at or after the `n`-th, the cursor
      it was searched from, and the expression; the token occurs nowhere at
      or after that cursor. */
  lemma {:induction false} SplitFailureNamesMissingToken(s: string, segs: seq<Piece>, n: nat, cursor: nat)
    requires n <= |segs| && cursor <= |s| && Split(s, segs, n, cursor).Failure?
    ensures var e := Split(s, segs, n, cursor).error;
      e.InvalidOperation? && e.expression == s && cursor <= e.startIndex <= |s| &&
      (exists k :: n <= k < |segs| && segs[k].value == e.value) &&
      forall j :: e.startIndex <= j ==> !OccursAt(s, e.value, j)
    decreases |segs| - n
  {
    var v := segs[n].value;
    var i := IndexOf(s, v, cursor);
    if i >= 0 {
      SplitFailureNamesMissingToken(s, segs, n + 1, i + |v|);
    } else {
      IndexOfFindsNone(s, v, cursor);
    }
  }
}
