/** A reference reading of a meaningful-piece sequence back into a tree,
    following the operator grammar of Annex D of the SPDX Specification v2.3
    without parentheses:

      term       = license-id [ "+" ] [ "WITH" exception-id ]
      expression = term { ( "AND" | "OR" ) expression }

    The reader groups every AND/OR to the right. It is the partner of the
    in-order walk: every sequence it accepts is the walk of the tree it
    builds, and it accepts the walk of every tree. */
module TokenGrammar {
  import opened LicenseModels
  import opened LicenseExpressions
  import opened ExpressionTokens

  predicate IsLogicalPiece(p: Piece)
  {
    p == Piece("AND", Operator) || p == Piece("OR", Operator)
  }

  function LogicalTypeOf(p: Piece): LogicalOperatorType
  {
    if p.value == "AND" then And else Or
  }

  /** Reads one term off the front of `ps`: the tree it denotes and the number
      of pieces it spans. */
  function ReadTerm(ps: seq<Piece>): Option<(Expression, nat)>
  {
    if |ps| == 0 || ps[0].kind != LicenseIdentifier then None
    else
      var plus := 1 < |ps| && ps[1] == PlusPiece;
      var n := if plus then 2 else 1;
      var l := License(ps[0].value, plus);
      if n + 1 < |ps| && ps[n] == WithPiece && ps[n + 1].kind == ExceptionIdentifier then
        Some((WithOperator(l, ps[n + 1].value), n + 2))
      else
        Some((LicenseNode(l), n))
  }

  /** Reads a whole piece sequence as an expression, or fails. */
  function ReadExpression(ps: seq<Piece>): Option<Expression>
    decreases |ps|
  {
    match ReadTerm(ps)
    case None => None
    case Some((t, n)) =>
      if n >= |ps| then Some(t)
      else if !IsLogicalPiece(ps[n]) then None
      else
        match ReadExpression(ps[n + 1..])
        case None => None
        case Some(u) => Some(LogicalOperator(LogicalTypeOf(ps[n]), t, u))
  }

  lemma ReadTermSound(ps: seq<Piece>)
    requires ReadTerm(ps).Some?
    ensures ReadTerm(ps).value.1 <= |ps|
    ensures Tokens(ReadTerm(ps).value.0) == ps[..ReadTerm(ps).value.1]
  {
  }

  /** An AND/OR piece is written with the keyword of the type read from it. */
  lemma LogicalPieceReadBack(p: Piece)
    requires IsLogicalPiece(p)
    ensures Piece(LogicalOperatorString(LogicalTypeOf(p)), Operator) == p
  {
  }

  /** An accepted sequence of more than one term is a term, an AND/OR piece
      and an accepted rest. */
  lemma ReadExpressionSplits(ps: seq<Piece>, t: Expression, n: nat)
    requires ReadExpression(ps).Some? && ReadTerm(ps) == Some((t, n)) && n < |ps|
    ensures IsLogicalPiece(ps[n]) && ReadExpression(ps[n + 1..]).Some?
    ensures ReadExpression(ps).value ==
      LogicalOperator(LogicalTypeOf(ps[n]), t, ReadExpression(ps[n + 1..]).value)
  {
  }

  /** Whatever the reader accepts is exactly the walk of the tree it builds. */
  lemma {:induction false} ReadExpressionSound(ps: seq<Piece>)
    requires ReadExpression(ps).Some?
    ensures Tokens(ReadExpression(ps).value) == ps
    decreases |ps|
  {
    ReadTermSound(ps);
    var (t, n) := ReadTerm(ps).value;
    if n < |ps| {
      ReadExpressionSplits(ps, t, n);
      var rest := ps[n + 1..];
      ReadExpressionSound(rest);
      LogicalPieceReadBack(ps[n]);
      assert ps == ps[..n] + [ps[n]] + rest;
    }
  }

  /** The walk of a term reads back as that term when what follows it is
      empty or starts with AND/OR. */
  lemma ReadTermOfTokens(e: Expression, rest: seq<Piece>)
    requires !e.LogicalOperator?
    requires rest == [] || IsLogicalPiece(rest[0])
    ensures ReadTerm(Tokens(e) + rest) == Some((e, |Tokens(e)|))
  {
    var ps := Tokens(e) + rest;
    assert ps[0] == Tokens(e)[0];
    match e
    case LicenseNode(l) =>
      if l.plus {
        assert ps[1] == PlusPiece;
      } else if 1 < |ps| {
        assert ps[1] == rest[0];
      }
    case WithOperator(l, x) =>
      if l.plus {
        assert ps[1] == PlusPiece;
      } else {
        assert ps[1] == WithPiece;
      }
  }

  /** One step of the reader: a term followed by nothing, or by an AND/OR and
      an accepted sequence, is accepted. */
  lemma ReadExpressionStep(ps: seq<Piece>, t: Expression, n: nat)
    requires ReadTerm(ps) == Some((t, n)) && n <= |ps|
    requires n == |ps| || (IsLogicalPiece(ps[n]) && ReadExpression(ps[n + 1..]).Some?)
    ensures ReadExpression(ps).Some?
  {
  }

  lemma ReadExpressionOfTermThen(e: Expression, rest: seq<Piece>)
    requires !e.LogicalOperator?
    requires rest == [] || (IsLogicalPiece(rest[0]) && ReadExpression(rest[1..]).Some?)
    ensures ReadExpression(Tokens(e) + rest).Some?
  {
    ReadTermOfTokens(e, rest);
    var ps := Tokens(e) + rest;
    var n := |Tokens(e)|;
    if n < |ps| {
      assert ps[n] == rest[0];
      assert ps[n + 1..] == rest[1..];
    }
    ReadExpressionStep(ps, e, n);
  }

  /** The walk of an AND/OR node followed by `rest`, seen as the walk of its
      left side followed by the operator and the rest. */
  lemma LogicalTokensThen(e: Expression, rest: seq<Piece>)
    requires e.LogicalOperator?
    ensures var op := Piece(LogicalOperatorString(e.operatorType), Operator);
      var rest' := [op] + (Tokens(e.right) + rest);
      IsLogicalPiece(rest'[0]) && rest'[1..] == Tokens(e.right) + rest &&
      Tokens(e) + rest == Tokens(e.left) + rest'
  {
    var op := Piece(LogicalOperatorString(e.operatorType), Operator);
    assert ([op] + (Tokens(e.right) + rest))[1..] == Tokens(e.right) + rest;
  }

  /** The reader accepts the walk of any tree followed by nothing, or by an
      AND/OR and a sequence it accepts. */
  lemma {:induction false} ReadExpressionOfTokensThen(e: Expression, rest: seq<Piece>)
    requires rest == [] || (IsLogicalPiece(rest[0]) && ReadExpression(rest[1..]).Some?)
    ensures ReadExpression(Tokens(e) + rest).Some?
  {
    if e.LogicalOperator? {
      ReadExpressionOfTokensThen(e.right, rest);
      LogicalTokensThen(e, rest);
      var op := Piece(LogicalOperatorString(e.operatorType), Operator);
      ReadExpressionOfTokensThen(e.left, [op] + (Tokens(e.right) + rest));
    } else {
      ReadExpressionOfTermThen(e, rest);
    }
  }

  /** Round trip: the walk of every tree is accepted, and reads back as a tree
      (grouped to the right) whose walk is the same sequence. */
  lemma TokensReadBack(e: Expression)
    ensures ReadExpression(Tokens(e)).Some?
    ensures Tokens(ReadExpression(Tokens(e)).value) == Tokens(e)
  {
    ReadExpressionOfTokensThen(e, []);
    assert Tokens(e) + [] == Tokens(e);
    ReadExpressionSound(Tokens(e));
  }
}
