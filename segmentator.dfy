/** The segmentator service: it walks a parsed expression tree into its
    meaningful pieces, then projects those pieces back onto the original
    expression string to recover the parentheses and whitespace as filler. */
module Segmentator {
  import opened LicenseModels
  import opened LicenseExpressions
  import opened ExpressionTokens
  import opened Substrings
  import opened FullSplit

  /** The growable list the traversal appends to. */
  class SegmentList {
    var items: seq<Piece>

    constructor ()
      ensures items == []
    {
      items := [];
    }

    method Add(p: Piece)
      modifies this
      ensures items == old(items) + [p]
    {
      items := items + [p];
    }
  }

  /** Appends the meaningful pieces of `root` to `list`, in textual order. */
  method InOrderTraversal(root: Expression, list: SegmentList)
    modifies list
    ensures list.items == old(list.items) + Tokens(root)
    decreases Size(root)
  {
    ghost var start := list.items;
    match root
    case LicenseNode(l) =>
      list.Add(Piece(l.identifier, LicenseIdentifier));
      if l.plus {
        list.Add(PlusPiece);
      }
      assert list.items == start + LicenseTokens(l);
    case LogicalOperator(t, left, right) =>
      InOrderTraversal(left, list);
      list.Add(Piece(LogicalOperatorString(t), Operator));
      InOrderTraversal(right, list);
      assert list.items == start + (Tokens(left) + [Piece(LogicalOperatorString(t), Operator)] + Tokens(right));
    case WithOperator(l, x) =>
      InOrderTraversal(LicenseNode(l), list);
      list.Add(WithPiece);
      list.Add(Piece(x, ExceptionIdentifier));
      assert list.items == start + (LicenseTokens(l) + [WithPiece, Piece(x, ExceptionIdentifier)]);
  }

  /** The meaningful pieces of an operator-rooted expression; an absent root
      is an argument error. */
  method GetLicenseExpressionSegments(licenseExpressionRoot: Option<Expression>)
    returns (r: Result<seq<Piece>>)
    requires licenseExpressionRoot.Some? ==> IsOperator(licenseExpressionRoot.value)
    ensures licenseExpressionRoot.None? ==> r == Failure(ArgumentNull("licenseExpressionRoot"))
    ensures licenseExpressionRoot.Some? ==>
      r == Success(Tokens(licenseExpressionRoot.value)) && NoFiller(r.value)
  {
    if licenseExpressionRoot.None? {
      return Failure(ArgumentNull("licenseExpressionRoot"));
    }
    var segmentList := new SegmentList();
    InOrderTraversal(licenseExpressionRoot.value, segmentList);
    assert segmentList.items == [] + Tokens(licenseExpressionRoot.value);
    TokensHaveNoFiller(licenseExpressionRoot.value);
    assert segmentList.items == Tokens(licenseExpressionRoot.value);
    r := Success(segmentList.items);
  }

  /** Splits the whole expression into pieces: each given segment at the first
      occurrence of its value at or after the end of the previous one, with
      the text skipped over as filler; fails on a segment not found. */
  method SplitExpression(licenseExpression: string, segments: seq<Piece>)
    returns (r: Result<seq<Piece>>)
    ensures r == Split(licenseExpression, segments, 0, 0)
    ensures r.Success? <==> Embeds(licenseExpression, segments, 0, 0)
    ensures r.Success? ==>
      Concat(r.value) == licenseExpression && Meaningful(r.value) == Meaningful(segments)
    ensures r.Success? && NoFiller(segments) ==> Meaningful(r.value) == segments
  {
    var s, segs := licenseExpression, segments;
    var fullSegmentList: seq<Piece> := [];
    var startIndex: nat := 0;
    var n := 0;
    ghost var whole := Split(s, segs, 0, 0);
    PrefixedNothing(whole);
    while n < |segs|
      invariant n <= |segs| && startIndex <= |s|
      invariant whole == Prefixed(fullSegmentList, Split(s, segs, n, startIndex))
    {
      var segment := segs[n];
      var currentSegmentStartIndex := IndexOf(s, segment.value, startIndex);
      if currentSegmentStartIndex < 0 {
        SplitStopsAt(s, segs, n, startIndex, fullSegmentList);
        r := Failure(InvalidOperation(segment.value, startIndex, s));
        SplitOfExpression(s, segs);
        return;
      }
      ghost var before, cursor := fullSegmentList, startIndex;
      if currentSegmentStartIndex > startIndex {
        fullSegmentList := fullSegmentList + [Piece(s[startIndex..currentSegmentStartIndex], Other)];
      }
      fullSegmentList := fullSegmentList + [segment];
      startIndex := currentSegmentStartIndex + |segment.value|;
      SplitAdvances(s, segs, n, cursor, before, fullSegmentList, startIndex);
      n := n + 1;
    }

    ghost var matched := fullSegmentList;
    if startIndex < |s| {
      fullSegmentList := fullSegmentList + [Piece(s[startIndex..], Other)];
    }
    assert fullSegmentList == matched + Tail(s, startIndex);
    r := Success(fullSegmentList);
    SplitOfExpression(s, segs);
  }

  /** The full split with its argument checks: an absent expression, then an
      absent segment list, is an argument error. */
  method SplitFullExpression(licenseExpression: Option<string>, segments: Option<seq<Piece>>)
    returns (r: Result<seq<Piece>>)
    ensures licenseExpression.None? ==> r == Failure(ArgumentNull("licenseExpression"))
    ensures licenseExpression.Some? && segments.None? ==> r == Failure(ArgumentNull("segments"))
    ensures licenseExpression.Some? && segments.Some? ==>
      r == Split(licenseExpression.value, segments.value, 0, 0)
  {
    if licenseExpression.None? {
      return Failure(ArgumentNull("licenseExpression"));
    }
    if segments.None? {
      return Failure(ArgumentNull("segments"));
    }
    r := SplitExpression(licenseExpression.value, segments.value);
  }
}
