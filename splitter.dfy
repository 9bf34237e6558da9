/** The earlier revision of the segmentator service, in its "runs"
    vocabulary: the same walk and the same split, with the list of runs
    reported under its own parameter name when it is absent. */
module Splitter {
  import opened LicenseModels
  import opened LicenseExpressions
  import opened ExpressionTokens
  import opened FullSplit
  import opened Segmentator

  /** The runs of an operator-rooted expression; an absent root is an
      argument error. */
  method GetLicenseExpressionRuns(licenseExpressionRoot: Option<Expression>)
    returns (r: Result<seq<Piece>>)
    requires licenseExpressionRoot.Some? ==> IsOperator(licenseExpressionRoot.value)
    ensures licenseExpressionRoot.None? ==> r == Failure(ArgumentNull("licenseExpressionRoot"))
    ensures licenseExpressionRoot.Some? ==>
      r == Success(Tokens(licenseExpressionRoot.value)) && NoFiller(r.value)
  {
    if licenseExpressionRoot.None? {
      return Failure(ArgumentNull("licenseExpressionRoot"));
    }
    var runList := new SegmentList();
    InOrderTraversal(licenseExpressionRoot.value, runList);
    assert runList.items == [] + Tokens(licenseExpressionRoot.value);
    TokensHaveNoFiller(licenseExpressionRoot.value);
    assert runList.items == Tokens(licenseExpressionRoot.value);
    r := Success(runList.items);
  }

  /** The full split with its argument checks; an absent run list is reported
      as `runs`. */
  method SplitFullExpression(licenseExpression: Option<string>, runs: Option<seq<Piece>>)
    returns (r: Result<seq<Piece>>)
    ensures licenseExpression.None? ==> r == Failure(ArgumentNull("licenseExpression"))
    ensures licenseExpression.Some? && runs.None? ==> r == Failure(ArgumentNull("runs"))
    ensures licenseExpression.Some? && runs.Some? ==>
      r == Split(licenseExpression.value, runs.value, 0, 0)
  {
    if licenseExpression.None? {
      return Failure(ArgumentNull("licenseExpression"));
    }
    if runs.None? {
      return Failure(ArgumentNull("runs"));
    }
    r := SplitExpression(licenseExpression.value, runs.value);
  }
}
