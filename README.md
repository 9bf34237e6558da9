# License-expression segmenter and full-expression splitter

This project models, in Dafny, the two services of the NuGet licenses site
that turn an SPDX license expression into typed pieces of text for display.
Each piece is a license identifier, an exception identifier, an operator
(`AND`, `OR`, `WITH`, `+`) or `Other` filler (parentheses and blanks), so
that a page can link every identifier separately.

- **Segmenting** walks the parsed expression tree in order. It appends the
  meaningful pieces to a shared list: no parentheses and no whitespace.
- **Full splitting** projects those pieces back onto the original expression
  string. A cursor moves through the text. Each piece is found at the first
  occurrence of its value at or after the cursor. The text skipped over
  becomes one `Other` piece, and the cursor moves to the end of the match.
  Text left after the last match becomes a final `Other` piece. A piece that
  cannot be found is an invalid-operation error.

The repository holds the algorithm twice, as `LicenseExpressionSegmentator`
(the "segments" vocabulary) and `LicenseExpressionSplitter` (the "runs"
vocabulary). Both are modelled.

- `Segmentator` holds the imperative core: a `SegmentList` class for the
  mutable list, the recursive `InOrderTraversal` method, and
  `SplitExpression`, the `while` loop of the full split.
- `Splitter` holds the "runs" entry points on top of the same traversal and
  loop.

The specifications these are proved against live in their own modules:

| module | contents |
|---|---|
| `LicenseModels` | pieces, errors, `Concat` (the text a piece list spells) and `Meaningful` (the list without filler) |
| `LicenseExpressions` | the closed expression tree |
| `ExpressionTokens` | `Tokens`, the pieces an in-order walk emits |
| `TokenGrammar` | a reader that parses a piece list back into a tree, as the walk's partner |
| `Substrings` | ordinal `IndexOf` |
| `FullSplit` | `Split`, the recursive definition of the full split, and `Embeds`, an independent "some in-order placement exists" |
| `SegmentatorExamples` | the repository's unit-test expectations |

The source only ever succeeds or throws, so here every operation returns a
`Result`: `Success` carries the piece list and `Failure` carries one of the
errors below.

- `ArgumentNull(paramName)` stands for an `ArgumentNullException` with that
  parameter name.
- `InvalidOperation(value, startIndex, expression)` carries the three things
  the exception message names.

A null argument is an `Option` that is `None`.

The failure condition follows the code, not the looser reading that only a
token absent from the whole expression fails. The search starts at the cursor, so
a token that occurs only before the cursor fails too, for example tokens given
out of order (`SplitOfTokensOutOfOrder`). `SplitSucceedsIffEmbeds` states the
exact condition: the split succeeds if and only if the values can be laid
over the text in order without overlapping.

## Model

| member | source | states |
|---|---|---|
| ExpressionTokens.LogicalOperatorString | src/NuGet.Licenses/Services/LicenseExpressionSegmentator.cs:122-131 | The operator keyword is `AND` or `OR`, and it is `AND` exactly for an And node. |
| ExpressionTokens.LicenseTokens | src/NuGet.Licenses/Services/LicenseExpressionSegmentator.cs:84-92 | A license leaf gives one `LicenseIdentifier` piece with its identifier. A second piece, the `+` operator, follows if and only if the leaf has the plus suffix. |
| Segmentator.SegmentList.constructor | src/NuGet.Licenses/Services/LicenseExpressionSegmentator.cs:26 | A new list is empty. |
| Segmentator.SegmentList.Add | src/NuGet.Licenses/Services/LicenseExpressionSegmentator.cs:87 | Appends one piece at the end and keeps the pieces already there. |
| Segmentator.InOrderTraversal | src/NuGet.Licenses/Services/LicenseExpressionSegmentator.cs:80-120 | Appends exactly the walk of the tree to the list's old contents. A leaf gives its license pieces. An AND/OR node gives its left side, the keyword, then its right side. A WITH node gives its license pieces, `WITH`, then the exception identifier. |
| Segmentator.GetLicenseExpressionSegments | src/NuGet.Licenses/Services/LicenseExpressionSegmentator.cs:19-29 | An absent root fails with an argument error for `licenseExpressionRoot`. Otherwise it returns the walk of the tree, which contains no filler. |
| Segmentator.SplitExpression | src/NuGet.Licenses/Services/LicenseExpressionSegmentator.cs:51-77 | The loop computes the recursive `Split` of the whole expression. It succeeds exactly when the segments can be placed in order in the text. On success the pieces spell the expression exactly, and dropping the filler gives back the meaningful segments in order. For segments without filler, as the walk gives them, that is exactly the segments. |
| Segmentator.SplitFullExpression | src/NuGet.Licenses/Services/LicenseExpressionSegmentator.cs:39-78 | An absent expression fails for `licenseExpression`. Otherwise an absent segment list fails for `segments`. Otherwise the result is the full split. |
| Splitter.GetLicenseExpressionRuns | src/NuGet.Licenses/Services/LicenseExpressionSplitter.cs:19-29 | An absent root fails with an argument error for `licenseExpressionRoot`. Otherwise it returns the walk of the tree, with no filler runs. |
| Splitter.SplitFullExpression | src/NuGet.Licenses/Services/LicenseExpressionSplitter.cs:39-78 | An absent expression fails for `licenseExpression`. Otherwise an absent run list fails for `runs`. Otherwise the result is the full split. |
| ExpressionTokens.TokensHaveNoFiller | src/NuGet.Licenses/Services/ILicenseExpressionSplitter.cs:38-45 | The walk emits only license identifiers, exception identifiers and operators, never `Other`. |
| ExpressionTokens.PlusFollowsLicense | src/NuGet.Licenses/Services/LicenseExpressionSegmentator.cs:86-91 | Every `+` in the walk directly follows a license identifier. |
| ExpressionTokens.WithPrecedesException | src/NuGet.Licenses/Services/LicenseExpressionSegmentator.cs:106-112 | Every `WITH` in the walk is directly followed by an exception identifier. |
| ExpressionTokens.ExceptionFollowsWith | src/NuGet.Licenses/Services/LicenseExpressionSegmentator.cs:106-112 | Every exception identifier in the walk directly follows `WITH`. |
| TokenGrammar.ReadExpressionSound | src/NuGet.Licenses/Services/LicenseExpressionSegmentator.cs:80-120 | Any piece list the reader accepts is exactly the walk of the tree it reads. |
| TokenGrammar.ReadExpressionOfTokensThen | src/NuGet.Licenses/Services/LicenseExpressionSegmentator.cs:80-120 | The reader accepts the walk of any tree when nothing follows it, or when an AND/OR and an accepted list follow it. |
| TokenGrammar.TokensReadBack | src/NuGet.Licenses/Services/LicenseExpressionSegmentator.cs:80-120 | Round trip: the walk of every tree reads back, and the tree it reads back walks to the same pieces. |
| Substrings.IndexOf | src/NuGet.Licenses/Services/LicenseExpressionSegmentator.cs:55 | The search gives -1, or an index at or after the start where the value occurs. |
| Substrings.IndexOfIsFirst | src/NuGet.Licenses/Services/LicenseExpressionSegmentator.cs:55 | There is no occurrence between the start and the index found, and none at all from the start on when -1 is returned. |
| Substrings.IndexOfNoLater | src/NuGet.Licenses/Services/LicenseExpressionSegmentator.cs:55 | Any occurrence from the start on is found, at its own index or at an earlier one. |
| Substrings.IndexOfFindsFirst | src/NuGet.Licenses/Services/LicenseExpressionSegmentator.cs:55 | An occurrence with no earlier one from the start is exactly what the search returns. |
| Substrings.IndexOfSkipping | src/NuGet.Licenses/Services/LicenseExpressionSegmentator.cs:55 | If no skipped character can begin the value, the search lands on the occurrence right after the skipped text. |
| Substrings.IndexOfFindsNone | src/NuGet.Licenses/Services/LicenseExpressionSegmentator.cs:55-56 | The search returns -1 if and only if the value occurs nowhere at or after the start. |
| FullSplit.SplitStopsAt | src/NuGet.Licenses/Services/LicenseExpressionSegmentator.cs:55-59 | When the next value is not found, the result is the invalid-operation error naming that value, the cursor and the expression. The pieces already built are discarded. |
| FullSplit.SplitAdvances | src/NuGet.Licenses/Services/LicenseExpressionSegmentator.cs:55-67 | One loop step: the gap filler (only when the match is past the cursor) and the segment join the pieces built so far. The cursor moves to the end of the match and never moves backwards. |
| FullSplit.EmbedsOfSplit | src/NuGet.Licenses/Services/LicenseExpressionSplitter.cs:53-68 | A successful split places every run at an occurrence of its value, in order and without overlap. |
| FullSplit.SplitOfEmbeds | src/NuGet.Licenses/Services/LicenseExpressionSplitter.cs:53-68 | If any in-order, non-overlapping placement of the runs exists, the split succeeds. Taking the first occurrence each time never gets stuck. |
| FullSplit.SplitSucceedsIffEmbeds | src/NuGet.Licenses/Services/LicenseExpressionSplitter.cs:53-59 | The split succeeds if and only if the runs can be placed in order in the text. |
| FullSplit.SplitCoversText | src/NuGet.Licenses/Services/LicenseExpressionSplitter.cs:51-77 | On success the values of the result, concatenated, give the text from the cursor on exactly. |
| FullSplit.SplitKeepsSegments | src/NuGet.Licenses/Services/LicenseExpressionSplitter.cs:53-68 | On success, removing the `Other` pieces from the result gives back the meaningful input runs, unchanged and in order. |
| FullSplit.SplitOfExpression | src/NuGet.Licenses/Services/LicenseExpressionSplitter.cs:51-77 | For a whole expression: the split succeeds exactly when a placement exists. On success it spells the expression and keeps the meaningful runs. For runs without filler, removing the inserted `Other` runs gives back exactly the input runs. |
| FullSplit.SplitOfNoSegments | src/NuGet.Licenses/Services/LicenseExpressionSegmentator.cs:70-75 | With no segments, a non-empty expression comes back as one `Other` piece and an empty one as nothing. |
| FullSplit.SplitFillerIsMaximal | src/NuGet.Licenses/Services/LicenseExpressionSplitter.cs:60-75 | For meaningful runs, every `Other` piece is non-empty and is never followed by another `Other`. All the text between two matches, before the first or after the last, becomes a single piece, and only when there is such text. |
| FullSplit.SplitFailureNamesMissingToken | src/NuGet.Licenses/Services/LicenseExpressionSegmentator.cs:56-59 | A failure is an invalid-operation error. It names the expression, a cursor at or past the starting one, and the value of one of the remaining segments. That value occurs nowhere from that cursor on. |
| SegmentatorExamples.SegmentsOfMitOrIsc | test/NuGet.Licenses.Tests/LicenseExpressionSplitterFacts.cs:23-25 | The tree the parser builds for all three parenthesizations of `MIT OR ISC` walks to `MIT`, `OR`, `ISC`. |
| SegmentatorExamples.SegmentsOfWithUnderOr | test/NuGet.Licenses.Tests/LicenseExpressionSplitterFacts.cs:26 | A WITH under an OR walks, in textual order, to `MIT`, `OR`, `ISC`, `WITH`, `Classpath-exception-2.0`. |
| SegmentatorExamples.SegmentsOfPlus | src/NuGet.Licenses/Services/LicenseExpressionSegmentator.cs:86-91 | A plus-suffixed license is followed by a `+` operator piece before the next operator. |
| SegmentatorExamples.SplitOfParenthesized | test/NuGet.Licenses.Tests/LicenseExpressionSplitterFacts.cs:60-64 | `(MIT OR ISC)` splits into `(`, `MIT`, ` `, `OR`, ` `, `ISC`, `)`. |
| SegmentatorExamples.SplitOfExtraBlanks | test/NuGet.Licenses.Tests/LicenseExpressionSplitterFacts.cs:65-69 | `(((MIT  OR ISC)))` splits into `(((`, `MIT`, two blanks, `OR`, a blank, `ISC`, `)))`. |
| SegmentatorExamples.SplitOfRedundantParentheses | test/NuGet.Licenses.Tests/LicenseExpressionSplitterFacts.cs:70-74 | `(((MIT)) OR  ((ISC)))` splits into `(((`, `MIT`, `)) `, `OR`, `  ((`, `ISC`, `)))`. |
| SegmentatorExamples.SplitOfWithUnderOr | test/NuGet.Licenses.Tests/LicenseExpressionSplitterFacts.cs:75-79 | `(MIT OR ISC  WITH Classpath-exception-2.0)` splits into eleven pieces, with the blanks around `WITH` as filler of their own. |
| SegmentatorExamples.OneTreeThreeTexts | src/NuGet.Licenses/Services/ILicenseExpressionSplitter.cs:23-28 | The parser's single tree for `(MIT OR ISC)`, `(((MIT  OR ISC)))` and `(((MIT)) OR  ((ISC)))` gives the same runs for all three. Split against each text, those runs give three different piece lists. Each list spells its own text and gives back the same runs once the filler is removed. So the text is restored from the original string, not from the tree. |
| SegmentatorExamples.SplitOfRepeatedToken | src/NuGet.Licenses/Services/LicenseExpressionSegmentator.cs:52-67 | In `MIT OR MIT` the second `MIT` is matched at its second occurrence, after the end of the previous match. |
| SegmentatorExamples.SplitOfTokensOutOfOrder | src/NuGet.Licenses/Services/LicenseExpressionSegmentator.cs:55-59 | Tokens given out of order fail. `OR` is searched for only after the matched `MIT`, although it occurs earlier in the text. |

## Left out

- The SPDX expression parser (`NuGetLicenseExpression.Parse`) belongs to another library. Trees are taken as given. The example lemmas name the tree the parser builds for each test string; that tree is assumed, not derived.
- `string.IndexOf(string, int)` is culture-sensitive in .NET. The model searches ordinally, character by character. Culture rules that ignore or combine characters are not modelled. An empty value is found at the cursor, as in .NET.
- The `InvalidOperationException` for an unknown operator kind (`LicenseExpressionSegmentator.cs:113-116`) and for an unknown logical operator (`:132-134`) cannot happen: the expression tree and the operator type are closed datatypes.
- A node that is neither a license nor an operator falls through the switch silently. That is not modelled, for the same reason.
- `ComplexLicenseExpressionRun` rejects a null value in its constructor (`src/NuGet.Licenses/Models/ComplexLicenseExpressionRun.cs:10-14`). Piece values are therefore always strings here.
- A null element inside the run list would raise a `NullReferenceException` at `:55`. That is not modelled.
- `CompositeLicenseExpressionSegment` and its type enum are not part of this model. They are taken to have the shape of `ComplexLicenseExpressionRun` and `ComplexLicenseExpressionRunType`, which is how both services use them.
- Indices are unbounded integers. The 32-bit `int` of `startIndex` cannot overflow for a string that fits in memory.
- The segment objects are values here. The source adds the very objects it was given to the output list (`:66`), so the sharing of objects between input and output is not captured. The local `fullSegmentList` is a local sequence variable.
- `GetLicenseExpressionSegments` and `GetLicenseExpressionRuns` require an operator root, as their `LicenseOperator` parameter type does. A bare license leaf is excluded by that type, not by a check.
- The `(MIT OR ISC  WITH Classpath-exception-2.0)` example states its text as a concatenation of its stretches. It is the same string.
- The rest of the site is not part of this model: the license controller and its 500-character cutoff, the URL decoding and fixup services, the identifier validation, the file services, routing and start-up. These are web plumbing, I/O and library calls outside the two services.
