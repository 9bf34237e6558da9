/** The expectations of the repository's unit tests, and of the order
    sensitivity the splitter is designed for, stated over the model. */
module SegmentatorExamples {
  import opened LicenseModels
  import opened LicenseExpressions
  import opened ExpressionTokens
  import opened Substrings
  import opened FullSplit

  function Lic(id: string): Piece { Piece(id, LicenseIdentifier) }
  function Op(o: string): Piece { Piece(o, Operator) }
  function Exc(id: string): Piece { Piece(id, ExceptionIdentifier) }
  function Fill(text: string): Piece { Piece(text, Other) }

  /** The tree the SPDX parser builds for `(MIT OR ISC)`, `(((MIT  OR ISC)))`
      and `(((MIT)) OR  ((ISC)))` alike. */
  const MitOrIsc := LogicalOperator(Or, LicenseNode(License("MIT", false)), LicenseNode(License("ISC", false)))

  /** The tree for `(MIT OR ISC  WITH Classpath-exception-2.0)`: WITH binds
      tighter than OR. */
  const MitOrIscWithClasspath :=
    LogicalOperator(Or, LicenseNode(License("MIT", false)),
                        WithOperator(License("ISC", false), "Classpath-exception-2.0"))

  lemma SegmentsOfMitOrIsc()
    ensures Tokens(MitOrIsc) == [Lic("MIT"), Op("OR"), Lic("ISC")]
  {
  }

  lemma SegmentsOfWithUnderOr()
    ensures Tokens(MitOrIscWithClasspath) ==
      [Lic("MIT"), Op("OR"), Lic("ISC"), Op("WITH"), Exc("Classpath-exception-2.0")]
  {
  }

  /** A license with the plus suffix is followed by a `+` operator piece. */
  lemma SegmentsOfPlus()
    ensures Tokens(LogicalOperator(And, LicenseNode(License("MIT", true)), LicenseNode(License("ISC", false))))
         == [Lic("MIT"), Op("+"), Op("AND"), Lic("ISC")]
  {
  }

  /** One segment of a concrete split, found at `i`. */
  lemma SplitStep(s: string, segs: seq<Piece>, n: nat, c: nat, i: nat, rest: seq<Piece>)
    requires n < |segs| && c <= |s| && IndexOf(s, segs[n].value, c) == i
    requires Split(s, segs, n + 1, i + |segs[n].value|) == Success(rest)
    ensures Split(s, segs, n, c) == Success(Gap(s, c, i) + [segs[n]] + rest)
  {
  }

  /** The stretches `MIT OR MIT` is made of. */
  lemma RepeatedTokenText(s: string)
    requires s == "MIT OR MIT"
    ensures s[0..3] == "MIT" && s[3..4] == " " && s[4..6] == "OR" && s[6..7] == " " && s[7..] == "MIT"
  {
    // the characters, from the last one back
    assert s[9] == 'T' && s[8] == 'I' && s[7] == 'M' && s[6] == ' ' && s[5] == 'R' &&
      s[4] == 'O' && s[3] == ' ' && s[2] == 'T' && s[1] == 'I' && s[0] == 'M';
    assert s[0..3] == "MIT";
    assert s[3..4] == " ";
    assert s[4..6] == "OR";
    assert s[6..7] == " ";
    assert s[7..] == "MIT";
  }

  /** Where the searches of `MIT OR MIT` land. */
  lemma RepeatedTokenSearches(s: string)
    requires s == "MIT OR MIT"
    ensures IndexOf(s, "MIT", 0) == 0 && IndexOf(s, "OR", 3) == 4 && IndexOf(s, "MIT", 6) == 7
  {
    RepeatedTokenText(s);
    IndexOfSkipping(s, "MIT", 0, 0);
    IndexOfSkipping(s, "OR", 3, 4);
    IndexOfSkipping(s, "MIT", 6, 7);
  }

  /** A repeated token is matched at its next occurrence, not at the first. */
  lemma SplitOfRepeatedToken(s: string, segs: seq<Piece>)
    requires s == "MIT OR MIT" && segs == [Lic("MIT"), Op("OR"), Lic("MIT")]
    ensures Split(s, segs, 0, 0) == Success([Lic("MIT"), Fill(" "), Op("OR"), Fill(" "), Lic("MIT")])
  {
    RepeatedTokenText(s);
    RepeatedTokenSearches(s);
    var r2 := [Fill(" "), Lic("MIT")];
    var r1 := [Fill(" "), Op("OR")] + r2;
    assert Split(s, segs, 3, 10) == Success([]);
    SplitStep(s, segs, 2, 6, 7, []);
    assert Gap(s, 6, 7) + [segs[2]] + [] == r2;
    SplitStep(s, segs, 1, 3, 4, r2);
    assert Gap(s, 3, 4) + [segs[1]] + r2 == r1;
    SplitStep(s, segs, 0, 0, 0, r1);
    assert Gap(s, 0, 0) + [segs[0]] + r1 == [Lic("MIT"), Fill(" "), Op("OR"), Fill(" "), Lic("MIT")];
  }

  /** The stretches `(MIT OR ISC)` is made of. */
  lemma ParenthesizedText(s: string)
    requires s == "(MIT OR ISC)"
    ensures s[0..1] == "(" && s[1..4] == "MIT" && s[4..5] == " " && s[5..7] == "OR"
    ensures s[7..8] == " " && s[8..11] == "ISC" && s[11..] == ")"
  {
    // the characters, from the last one back
    assert s[11] == ')' && s[10] == 'C' && s[9] == 'S' && s[8] == 'I' && s[7] == ' ' &&
      s[6] == 'R' && s[5] == 'O' && s[4] == ' ' && s[3] == 'T' && s[2] == 'I' && s[1] == 'M' &&
      s[0] == '(';
    assert s[0..1] == "(";
    assert s[1..4] == "MIT";
    assert s[4..5] == " ";
    assert s[5..7] == "OR";
    assert s[7..8] == " ";
    assert s[8..11] == "ISC";
    assert s[11..] == ")";
  }

  /** Where the searches of `(MIT OR ISC)` land. */
  lemma ParenthesizedSearches(s: string)
    requires s == "(MIT OR ISC)"
    ensures IndexOf(s, "MIT", 0) == 1 && IndexOf(s, "OR", 4) == 5 && IndexOf(s, "ISC", 7) == 8
  {
    ParenthesizedText(s);
    IndexOfSkipping(s, "MIT", 0, 1);
    IndexOfSkipping(s, "OR", 4, 5);
    IndexOfSkipping(s, "ISC", 7, 8);
  }

  /** The first expectation of the repository's split tests: the parentheses
      and the blanks come back as filler around the three tokens. */
  lemma SplitOfParenthesized(s: string, segs: seq<Piece>)
    requires s == "(MIT OR ISC)" && segs == [Lic("MIT"), Op("OR"), Lic("ISC")]
    ensures Split(s, segs, 0, 0) ==
      Success([Fill("("), Lic("MIT"), Fill(" "), Op("OR"), Fill(" "), Lic("ISC"), Fill(")")])
  {
    ParenthesizedText(s);
    ParenthesizedSearches(s);
    var r3 := [Fill(")")];
    var r2 := [Fill(" "), Lic("ISC")] + r3;
    var r1 := [Fill(" "), Op("OR")] + r2;
    assert Split(s, segs, 3, 11) == Success(r3);
    SplitStep(s, segs, 2, 7, 8, r3);
    assert Gap(s, 7, 8) + [segs[2]] + r3 == r2;
    SplitStep(s, segs, 1, 4, 5, r2);
    assert Gap(s, 4, 5) + [segs[1]] + r2 == r1;
    SplitStep(s, segs, 0, 0, 1, r1);
    assert Gap(s, 0, 1) + [segs[0]] + r1 ==
      [Fill("("), Lic("MIT"), Fill(" "), Op("OR"), Fill(" "), Lic("ISC"), Fill(")")];
  }

  /** The three piece lists of the redundant-parentheses tests differ. */
  lemma ThreeSplitsDiffer(r1: seq<Piece>, r2: seq<Piece>, r3: seq<Piece>)
    requires r1 == [Fill("("), Lic("MIT"), Fill(" "), Op("OR"), Fill(" "), Lic("ISC"), Fill(")")]
    requires r2 == [Fill("((("), Lic("MIT"), Fill("  "), Op("OR"), Fill(" "), Lic("ISC"), Fill(")))")]
    requires r3 == [Fill("((("), Lic("MIT"), Fill(")) "), Op("OR"), Fill("  (("), Lic("ISC"), Fill(")))")]
    ensures r1 != r2 && r1 != r3 && r2 != r3
  {
    assert r1[0] != r2[0] && r1[0] != r3[0] && r2[2] != r3[2];
  }

  /** One tree, three texts: the parser's tree for `(MIT OR ISC)`,
      `(((MIT  OR ISC)))` and `(((MIT)) OR  ((ISC)))` keeps no trace of the
      redundant parentheses and blanks, so its runs are the same for all
      three. Splitting them against each text gives three different piece
      lists, each spelling its own text and each giving back those runs once
      the filler is removed: the text cannot be restored from the tree, only
      from the original string. */
  lemma OneTreeThreeTexts(s1: string, s2: string, s3: string, segs: seq<Piece>)
    requires s1 == "(MIT OR ISC)" && s2 == "(((MIT  OR ISC)))" && s3 == "(((MIT)) OR  ((ISC)))"
    requires segs == Tokens(MitOrIsc)
    ensures var r1, r2, r3 := Split(s1, segs, 0, 0), Split(s2, segs, 0, 0), Split(s3, segs, 0, 0);
      r1.Success? && r2.Success? && r3.Success? &&
      r1.value != r2.value && r1.value != r3.value && r2.value != r3.value &&
      Concat(r1.value) == s1 && Concat(r2.value) == s2 && Concat(r3.value) == s3 &&
      Meaningful(r1.value) == segs && Meaningful(r2.value) == segs && Meaningful(r3.value) == segs
  {
    SegmentsOfMitOrIsc();
    TokensHaveNoFiller(MitOrIsc);
    SplitOfParenthesized(s1, segs);
    SplitOfExtraBlanks(s2, segs);
    SplitOfRedundantParentheses(s3, segs);
    ThreeSplitsDiffer(Split(s1, segs, 0, 0).value, Split(s2, segs, 0, 0).value, Split(s3, segs, 0, 0).value);
    SplitOfExpression(s1, segs);
    SplitOfExpression(s2, segs);
    SplitOfExpression(s3, segs);
  }

  /** Tokens given out of order: once `MIT` is matched at the end, `OR` is
      searched for from there and is not found, although it occurs earlier. */
  lemma SplitOfTokensOutOfOrder(s: string, segs: seq<Piece>)
    requires s == "ISC OR MIT" && segs == [Lic("MIT"), Op("OR"), Lic("ISC")]
    ensures Split(s, segs, 0, 0) == Failure(InvalidOperation("OR", 10, s))
    ensures OccursAt(s, "OR", 4)
  {
    assert s[7..10] == "MIT" && s[4..6] == "OR";
    IndexOfSkipping(s, "MIT", 0, 7);
    assert IndexOf(s, "OR", 10) == -1;
    assert Split(s, segs, 1, 10) == Failure(InvalidOperation("OR", 10, s));
  }

  /** The stretches `(((MIT)) OR  ((ISC)))` is made of. */
  lemma RedundantParenthesesText(s: string)
    requires s == "(((MIT)) OR  ((ISC)))"
    ensures s[0..3] == "(((" && s[3..6] == "MIT" && s[6..9] == ")) " && s[9..11] == "OR"
    ensures s[11..15] == "  ((" && s[15..18] == "ISC" && s[18..] == ")))"
  {
    // the characters, from the last one back
    assert s[20] == ')' && s[19] == ')' && s[18] == ')' && s[17] == 'C' && s[16] == 'S' &&
      s[15] == 'I' && s[14] == '(' && s[13] == '(' && s[12] == ' ' && s[11] == ' ' &&
      s[10] == 'R' && s[9] == 'O' && s[8] == ' ' && s[7] == ')' && s[6] == ')' && s[5] == 'T' &&
      s[4] == 'I' && s[3] == 'M' && s[2] == '(' && s[1] == '(' && s[0] == '(';
    assert s[0..3] == "(((";
    assert s[3..6] == "MIT";
    assert s[6..9] == ")) ";
    assert s[9..11] == "OR";
    assert s[11..15] == "  ((";
    assert s[15..18] == "ISC";
    assert s[18..] == ")))";
  }

  /** Where the searches of `(((MIT)) OR  ((ISC)))` land. */
  lemma RedundantParenthesesSearches(s: string)
    requires s == "(((MIT)) OR  ((ISC)))"
    ensures IndexOf(s, "MIT", 0) == 3 && IndexOf(s, "OR", 6) == 9 && IndexOf(s, "ISC", 11) == 15
  {
    RedundantParenthesesText(s);
    IndexOfSkipping(s, "MIT", 0, 3);
    IndexOfSkipping(s, "OR", 6, 9);
    IndexOfSkipping(s, "ISC", 11, 15);
  }

  /** The pieces of `(((MIT)) OR  ((ISC)))`, put together from its first two
      steps and the rest. */
  lemma RedundantParenthesesPieces(r2: seq<Piece>)
    requires r2 == [Fill("  (("), Lic("ISC"), Fill(")))")]
    ensures [Fill("((("), Lic("MIT")] + ([Fill(")) "), Op("OR")] + r2) ==
      [Fill("((("), Lic("MIT"), Fill(")) "), Op("OR"), Fill("  (("), Lic("ISC"), Fill(")))")]
  {
  }

  /** The repository's expectation for redundant parentheses and doubled
      blanks: each stretch between two tokens comes back as one filler piece. */
  lemma SplitOfRedundantParentheses(s: string, segs: seq<Piece>)
    requires s == "(((MIT)) OR  ((ISC)))" && segs == [Lic("MIT"), Op("OR"), Lic("ISC")]
    ensures Split(s, segs, 0, 0) ==
      Success([Fill("((("), Lic("MIT"), Fill(")) "), Op("OR"), Fill("  (("), Lic("ISC"), Fill(")))")])
  {
    RedundantParenthesesText(s);
    RedundantParenthesesSearches(s);
    var r3 := [Fill(")))")];
    var r2 := [Fill("  (("), Lic("ISC"), Fill(")))")];
    var r1 := [Fill(")) "), Op("OR")] + r2;
    assert Split(s, segs, 3, 18) == Success(r3);
    SplitStep(s, segs, 2, 11, 15, r3);
    assert Gap(s, 11, 15) + [segs[2]] + r3 == r2;
    SplitStep(s, segs, 1, 6, 9, r2);
    assert Gap(s, 6, 9) + [segs[1]] + r2 == r1;
    SplitStep(s, segs, 0, 0, 3, r1);
    assert Gap(s, 0, 3) + [segs[0]] + r1 == [Fill("((("), Lic("MIT")] + r1;
    RedundantParenthesesPieces(r2);
  }

  /** The stretches `(((MIT  OR ISC)))` is made of. */
  lemma ExtraBlanksText(s: string)
    requires s == "(((MIT  OR ISC)))"
    ensures s[0..3] == "(((" && s[3..6] == "MIT" && s[6..8] == "  " && s[8..10] == "OR"
    ensures s[10..11] == " " && s[11..14] == "ISC" && s[14..] == ")))"
  {
    // the characters, from the last one back
    assert s[16] == ')' && s[15] == ')' && s[14] == ')' && s[13] == 'C' && s[12] == 'S' &&
      s[11] == 'I' && s[10] == ' ' && s[9] == 'R' && s[8] == 'O' && s[7] == ' ' && s[6] == ' ' &&
      s[5] == 'T' && s[4] == 'I' && s[3] == 'M' && s[2] == '(' && s[1] == '(' && s[0] == '(';
    assert s[0..3] == "(((";
    assert s[3..6] == "MIT";
    assert s[6..8] == "  ";
    assert s[8..10] == "OR";
    assert s[10..11] == " ";
    assert s[11..14] == "ISC";
    assert s[14..] == ")))";
  }

  /** Where the searches of `(((MIT  OR ISC)))` land. */
  lemma ExtraBlanksSearches(s: string)
    requires s == "(((MIT  OR ISC)))"
    ensures IndexOf(s, "MIT", 0) == 3 && IndexOf(s, "OR", 6) == 8 && IndexOf(s, "ISC", 10) == 11
  {
    ExtraBlanksText(s);
    IndexOfSkipping(s, "MIT", 0, 3);
    IndexOfSkipping(s, "OR", 6, 8);
    IndexOfSkipping(s, "ISC", 10, 11);
  }

  /** The repository's expectation for redundant parentheses around the whole
      expression and a doubled blank inside it. */
  lemma SplitOfExtraBlanks(s: string, segs: seq<Piece>)
    requires s == "(((MIT  OR ISC)))" && segs == [Lic("MIT"), Op("OR"), Lic("ISC")]
    ensures Split(s, segs, 0, 0) ==
      Success([Fill("((("), Lic("MIT"), Fill("  "), Op("OR"), Fill(" "), Lic("ISC"), Fill(")))")])
  {
    ExtraBlanksText(s);
    ExtraBlanksSearches(s);
    var r3 := [Fill(")))")];
    var r2 := [Fill(" "), Lic("ISC")] + r3;
    var r1 := [Fill("  "), Op("OR")] + r2;
    assert Split(s, segs, 3, 14) == Success(r3);
    SplitStep(s, segs, 2, 10, 11, r3);
    assert Gap(s, 10, 11) + [segs[2]] + r3 == r2;
    SplitStep(s, segs, 1, 6, 8, r2);
    assert Gap(s, 6, 8) + [segs[1]] + r2 == r1;
    SplitStep(s, segs, 0, 0, 3, r1);
    assert Gap(s, 0, 3) + [segs[0]] + r1 ==
      [Fill("((("), Lic("MIT"), Fill("  "), Op("OR"), Fill(" "), Lic("ISC"), Fill(")))")];
  }

  /** `(MIT OR ISC  WITH Classpath-exception-2.0)`, written stretch by
      stretch. */
  predicate IsWithUnderOrText(s: string)
  {
    s == "(" + "MIT" + " " + "OR" + " " + "ISC" + "  " + "WITH" + " " + "Classpath-exception-2.0" + ")"
  }

  /** The stretches `(MIT OR ISC  WITH Classpath-exception-2.0)` starts with. */
  lemma WithUnderOrHeadText(s: string)
    requires IsWithUnderOrText(s)
    ensures s[0..1] == "(" && s[1..4] == "MIT" && s[4..5] == " " && s[5..7] == "OR"
    ensures s[7..8] == " " && s[8..11] == "ISC"
    ensures s[0] == '(' && s[4] == ' ' && s[7] == ' ' && |s| == 42
  {
  }

  /** The stretches `(MIT OR ISC  WITH Classpath-exception-2.0)` ends with. */
  lemma WithUnderOrTailText(s: string)
    requires IsWithUnderOrText(s)
    ensures s[11..13] == "  " && s[13..17] == "WITH"
    ensures s[17..18] == " " && s[18..41] == "Classpath-exception-2.0" && s[41..] == ")"
    ensures s[11] == ' ' && s[12] == ' ' && s[17] == ' ' && |s| == 42
  {
  }

  /** Where the searches of `(MIT OR ISC  WITH Classpath-exception-2.0)` land
      up to `ISC` ... */
  lemma WithUnderOrHeadSearches(s: string)
    requires IsWithUnderOrText(s)
    ensures IndexOf(s, "MIT", 0) == 1 && IndexOf(s, "OR", 4) == 5 && IndexOf(s, "ISC", 7) == 8
  {
    WithUnderOrHeadText(s);
    IndexOfSkipping(s, "MIT", 0, 1);
    IndexOfSkipping(s, "OR", 4, 5);
    IndexOfSkipping(s, "ISC", 7, 8);
  }

  /** ... and from there on. */
  lemma WithUnderOrTailSearches(s: string)
    requires IsWithUnderOrText(s)
    ensures IndexOf(s, "WITH", 11) == 13 && IndexOf(s, "Classpath-exception-2.0", 17) == 18
  {
    WithUnderOrTailText(s);
    IndexOfSkipping(s, "WITH", 11, 13);
    IndexOfSkipping(s, "Classpath-exception-2.0", 17, 18);
  }

  /** The split of `(MIT OR ISC  WITH Classpath-exception-2.0)` from `WITH` on ... */
  lemma SplitOfWithUnderOrFromWith(s: string, segs: seq<Piece>)
    requires IsWithUnderOrText(s)
    requires segs == [Lic("MIT"), Op("OR"), Lic("ISC"), Op("WITH"), Exc("Classpath-exception-2.0")]
    ensures Split(s, segs, 3, 11) ==
      Success([Fill("  "), Op("WITH"), Fill(" "), Exc("Classpath-exception-2.0"), Fill(")")])
  {
    WithUnderOrTailText(s);
    WithUnderOrTailSearches(s);
    var r5 := [Fill(")")];
    var r4 := [Fill(" "), Exc("Classpath-exception-2.0")] + r5;
    assert Split(s, segs, 5, 41) == Success(r5);
    SplitStep(s, segs, 4, 17, 18, r5);
    assert Gap(s, 17, 18) + [segs[4]] + r5 == r4;
    SplitStep(s, segs, 3, 11, 13, r4);
    assert Gap(s, 11, 13) + [segs[3]] + r4 ==
      [Fill("  "), Op("WITH"), Fill(" "), Exc("Classpath-exception-2.0"), Fill(")")];
  }

  /** The pieces of the WITH example from `ISC` on, put together. */
  lemma WithUnderOrPiecesFromIsc(r3: seq<Piece>)
    requires r3 == [Fill("  "), Op("WITH"), Fill(" "), Exc("Classpath-exception-2.0"), Fill(")")]
    ensures [Fill(" "), Lic("ISC")] + r3 ==
      [Fill(" "), Lic("ISC"), Fill("  "), Op("WITH"), Fill(" "),
       Exc("Classpath-exception-2.0"), Fill(")")]
  {
  }

  /** ... and from `ISC` on. */
  lemma SplitOfWithUnderOrFromIsc(s: string, segs: seq<Piece>)
    requires IsWithUnderOrText(s)
    requires segs == [Lic("MIT"), Op("OR"), Lic("ISC"), Op("WITH"), Exc("Classpath-exception-2.0")]
    ensures Split(s, segs, 2, 7) ==
      Success([Fill(" "), Lic("ISC"), Fill("  "), Op("WITH"), Fill(" "),
               Exc("Classpath-exception-2.0"), Fill(")")])
  {
    WithUnderOrHeadText(s);
    WithUnderOrHeadSearches(s);
    var r3 := [Fill("  "), Op("WITH"), Fill(" "), Exc("Classpath-exception-2.0"), Fill(")")];
    SplitOfWithUnderOrFromWith(s, segs);
    SplitStep(s, segs, 2, 7, 8, r3);
    assert Gap(s, 7, 8) + [segs[2]] + r3 == [Fill(" "), Lic("ISC")] + r3;
    WithUnderOrPiecesFromIsc(r3);
  }

  /** The pieces of the WITH example, put together from its first two steps
      and the rest. */
  lemma WithUnderOrPieces(g: seq<Piece>, r2: seq<Piece>)
    requires g == [Fill(" ")]
    requires r2 == [Fill(" "), Lic("ISC"), Fill("  "), Op("WITH"), Fill(" "),
                    Exc("Classpath-exception-2.0"), Fill(")")]
    ensures [Fill("("), Lic("MIT")] + (g + [Op("OR")] + r2) ==
      [Fill("("), Lic("MIT"), Fill(" "), Op("OR"), Fill(" "), Lic("ISC"), Fill("  "),
       Op("WITH"), Fill(" "), Exc("Classpath-exception-2.0"), Fill(")")]
  {
  }

  /** The repository's expectation for an exception under an OR: the blanks
      around `WITH` come back as filler of their own. */
  lemma SplitOfWithUnderOr(s: string, segs: seq<Piece>)
    requires IsWithUnderOrText(s)
    requires segs == [Lic("MIT"), Op("OR"), Lic("ISC"), Op("WITH"), Exc("Classpath-exception-2.0")]
    ensures Split(s, segs, 0, 0) ==
      Success([Fill("("), Lic("MIT"), Fill(" "), Op("OR"), Fill(" "), Lic("ISC"), Fill("  "),
               Op("WITH"), Fill(" "), Exc("Classpath-exception-2.0"), Fill(")")])
  {
    WithUnderOrHeadText(s);
    WithUnderOrHeadSearches(s);
    var r2 := [Fill(" "), Lic("ISC"), Fill("  "), Op("WITH"), Fill(" "),
               Exc("Classpath-exception-2.0"), Fill(")")];
    SplitOfWithUnderOrFromIsc(s, segs);
    SplitStep(s, segs, 1, 4, 5, r2);
    var r1 := Gap(s, 4, 5) + [segs[1]] + r2;
    SplitStep(s, segs, 0, 0, 1, r1);
    assert Gap(s, 0, 1) + [segs[0]] + r1 == [Fill("("), Lic("MIT")] + r1;
    WithUnderOrPieces(Gap(s, 4, 5), r2);
  }
}
