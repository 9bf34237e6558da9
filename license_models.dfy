/** The value types shared by the segmenter and the full-expression splitter:
    a typed piece of license-expression text, the errors the two operations
    raise, and the two views of a piece sequence the properties talk about
    (the text it spells and its meaningful pieces). */
module LicenseModels {

  /** The role of a piece of license-expression text. */
  datatype PieceType = Other | LicenseIdentifier | ExceptionIdentifier | Operator

  /** A portion of a license expression together with its role. */
  datatype Piece = Piece(value: string, kind: PieceType)

  /** The exceptions the two operations throw. */
  datatype Error =
    | ArgumentNull(paramName: string)
      // a token that does not occur in the expression at or after `startIndex`
    | InvalidOperation(value: string, startIndex: nat, expression: string)

  datatype Option<T> = None | Some(value: T)

  datatype Result<T> = Success(value: T) | Failure(error: Error)

  /** `rest` with `prefix` put in front of its pieces; a failure stays as it is. */
  function Prefixed(prefix: seq<Piece>, rest: Result<seq<Piece>>): Result<seq<Piece>>
  {
    match rest
    case Success(ps) => Success(prefix + ps)
    case Failure(e) => Failure(e)
  }

  lemma PrefixedNothing(rest: Result<seq<Piece>>)
    ensures Prefixed([], rest) == rest
  {
    if rest.Success? {
      assert [] + rest.value == rest.value;
    }
  }

  lemma PrefixedTwice(a: seq<Piece>, b: seq<Piece>, rest: Result<seq<Piece>>)
    ensures Prefixed(a, Prefixed(b, rest)) == Prefixed(a + b, rest)
  {
    if rest.Success? {
      assert a + (b + rest.value) == (a + b) + rest.value;
    }
  }

  /** The text a sequence of pieces spells out. */
  function Concat(ps: seq<Piece>): string
  {
    if ps == [] then [] else ps[0].value + Concat(ps[1..])
  }

  /** The pieces that are not `Other` filler, in order. */
  function Meaningful(ps: seq<Piece>): seq<Piece>
  {
    if ps == [] then []
    else (if ps[0].kind == Other then [] else [ps[0]]) + Meaningful(ps[1..])
  }

  predicate NoFiller(ps: seq<Piece>)
  {
    forall k :: 0 <= k < |ps| ==> ps[k].kind != Other
  }

  lemma {:induction false} ConcatAppend(a: seq<Piece>, b: seq<Piece>)
    ensures Concat(a + b) == Concat(a) + Concat(b)
    decreases |a|
  {
    if a != [] {
      assert (a + b)[1..] == a[1..] + b;
      ConcatAppend(a[1..], b);
    } else {
      assert a + b == b;
    }
  }

  lemma {:induction false} MeaningfulAppend(a: seq<Piece>, b: seq<Piece>)
    ensures Meaningful(a + b) == Meaningful(a) + Meaningful(b)
    decreases |a|
  {
    if a != [] {
      assert (a + b)[1..] == a[1..] + b;
      MeaningfulAppend(a[1..], b);
    } else {
      assert a + b == b;
    }
  }

  /** A sequence without filler is its own meaningful part. */
  lemma {:induction false} MeaningfulOfNoFiller(ps: seq<Piece>)
    requires NoFiller(ps)
    ensures Meaningful(ps) == ps
    decreases |ps|
  {
    if ps != [] {
      MeaningfulOfNoFiller(ps[1..]);
    }
  }
}
