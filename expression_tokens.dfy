/** What the in-order traversal of an expression tree emits: the meaningful
    pieces of the expression, without parentheses and whitespace. */
module ExpressionTokens {
  import opened LicenseModels
  import opened LicenseExpressions

  const PlusPiece := Piece("+", Operator)
  const WithPiece := Piece("WITH", Operator)

  /** The keyword a logical operator is written with. */
  function LogicalOperatorString(t: LogicalOperatorType): (r: string)
    ensures r == "AND" || r == "OR"
    ensures r == "AND" <==> t == And
  {
    match t
    case And => "AND"
    case Or => "OR"
  }

  /** The pieces of a license leaf: its identifier, then `+` exactly when the
      leaf carries the plus suffix. */
  function LicenseTokens(l: License): (r: seq<Piece>)
    ensures 1 <= |r| <= 2 && r[0] == Piece(l.identifier, LicenseIdentifier)
    ensures |r| == 2 <==> l.plus
    ensures |r| == 2 ==> r[1] == PlusPiece
  {
    [Piece(l.identifier, LicenseIdentifier)] + if l.plus then [PlusPiece] else []
  }

  /** The meaningful pieces of `e` in the order of an in-order walk. */
  function Tokens(e: Expression): seq<Piece>
  {
    match e
    case LicenseNode(l) => LicenseTokens(l)
    case LogicalOperator(t, left, right) =>
      Tokens(left) + [Piece(LogicalOperatorString(t), Operator)] + Tokens(right)
    case WithOperator(l, x) =>
      LicenseTokens(l) + [WithPiece, Piece(x, ExceptionIdentifier)]
  }

  /** The walk emits license identifiers, exception identifiers and operators
      only, never filler. */
  lemma {:induction false} TokensHaveNoFiller(e: Expression)
    ensures NoFiller(Tokens(e))
  {
    match e
    case LicenseNode(_) =>
    case LogicalOperator(_, left, right) =>
      TokensHaveNoFiller(left);
      TokensHaveNoFiller(right);
    case WithOperator(_, _) =>
  }

  /** Wherever the walk emits `+`, it directly follows a license identifier. */
  lemma {:induction false} PlusFollowsLicense(e: Expression)
    ensures forall k :: 0 <= k < |Tokens(e)| && Tokens(e)[k] == PlusPiece ==>
              0 < k && Tokens(e)[k - 1].kind == LicenseIdentifier
  {
    if e.LogicalOperator? {
      PlusFollowsLicense(e.left);
      PlusFollowsLicense(e.right);
      var tl, tr := Tokens(e.left), Tokens(e.right);
      var ts := Tokens(e);
      assert ts == tl + [Piece(LogicalOperatorString(e.operatorType), Operator)] + tr;
      forall k | 0 <= k < |ts| && ts[k] == PlusPiece
        ensures 0 < k && ts[k - 1].kind == LicenseIdentifier
      {
        if k >= |tl| + 1 {
          assert tr[k - |tl| - 1] == PlusPiece;
        }
      }
    }
  }

  /** Wherever the walk emits `WITH`, an exception identifier directly
      follows. */
  lemma {:induction false} WithPrecedesException(e: Expression)
    ensures forall k :: 0 <= k < |Tokens(e)| && Tokens(e)[k] == WithPiece ==>
              k + 1 < |Tokens(e)| && Tokens(e)[k + 1].kind == ExceptionIdentifier
  {
    if e.LogicalOperator? {
      WithPrecedesException(e.left);
      WithPrecedesException(e.right);
      var tl, tr := Tokens(e.left), Tokens(e.right);
      var ts := Tokens(e);
      assert ts == tl + [Piece(LogicalOperatorString(e.operatorType), Operator)] + tr;
      forall k | 0 <= k < |ts| && ts[k] == WithPiece
        ensures k + 1 < |ts| && ts[k + 1].kind == ExceptionIdentifier
      {
        if k < |tl| {
          assert tl[k] == WithPiece;
        } else if k > |tl| {
          assert tr[k - |tl| - 1] == WithPiece;
        }
      }
    }
  }

  /** Wherever the walk emits an exception identifier, it directly follows
      `WITH`. */
  lemma {:induction false} ExceptionFollowsWith(e: Expression)
    ensures forall k :: 0 <= k < |Tokens(e)| && Tokens(e)[k].kind == ExceptionIdentifier ==>
              0 < k && Tokens(e)[k - 1] == WithPiece
  {
    if e.LogicalOperator? {
      ExceptionFollowsWith(e.left);
      ExceptionFollowsWith(e.right);
      var tl, tr := Tokens(e.left), Tokens(e.right);
      var ts := Tokens(e);
      assert ts == tl + [Piece(LogicalOperatorString(e.operatorType), Operator)] + tr;
      forall k | 0 <= k < |ts| && ts[k].kind == ExceptionIdentifier
        ensures 0 < k && ts[k - 1] == WithPiece
      {
        if k < |tl| {
          assert tl[k].kind == ExceptionIdentifier;
        } else if k > |tl| {
          assert tr[k - |tl| - 1].kind == ExceptionIdentifier;
        }
      }
    }
  }
}
