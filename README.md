# Cyclomatic-complexity analyser for C: the lexical pipeline in Dafny

This project models the core of a heuristic McCabe-complexity estimator for C source, and proves properties of that model.

The estimator works in three stages:

- **Parser** (`internal/parser/parser.go`).
  - It deletes string literals, character literals and comments from the text using one alternation regex (`commentRegex`).
  - It then finds every function signature using a second regex (`funcRegex`).
  - For each signature it cuts out the body with a brace counter (`extractBraces`).
- **Analyzer** (`internal/analyzer/analyzer.go`). It applies eleven decision-point patterns to each body in table order. It collects all their matches, and scores the body as one more than the number of matches.
- **Report** (`internal/report/report.go`). It folds the per-file analyses into per-file complexities and three totals.

The worker of `cmd/analyzer/main.go:85-110` reads, parses and analyses one file (`Pipeline.AnalyzeFile`). The workers are modelled as one sequential loop over the files (`Pipeline.AnalyzeFiles`). The report is built once, from all the file analyses, after the workers finish (`Report.BuildReport`, reached from `cmd/analyzer/main.go:28` through `writeReport` at lines 114-115).

Both regexes are written out as hand-made recognisers that follow Go RE2's leftmost-first semantics:

- `commentRegex` has no `(?m)` or `(?s)` flag. So `.` stops at a newline and `$` is the end of the whole text.
- `funcRegex` has `(?m)`, so `^` is the start of the text or the position just after a newline.
- `\s` is `[\t\n\f\r ]`.
- `\b` is an ASCII word boundary.

In `funcRegex`, the type word, the stars, the name and `[^)]*` are each followed by something that cannot start with a character they consume, so each is taken whole. Without stars, `\s+\**\s*` can split one run of whitespace between `\s+` and `\s*` in several ways, but every split ends at the same place. So all the ways to match at one start position give the same indices. `SignatureAtSound` and `SignatureAtComplete` prove that the recogniser finds exactly that match.

The project has seven files:

- `wrappers.dfy`: `Option`.
- `seqs.dfy`: the fold that concatenates what each element of a sequence yields.
- `chars.dfy`: character classes and character runs.
- `analyzer.dfy`: module `Analyzer`, the record types and the scorer.
- `parser.dfy`: module `Parser`.
- `report.dfy`: module `Report`.
- `pipeline.dfy`: module `Pipeline`, the per-file step.

Each loop of the source is a method with loop invariants. Each method is proved against a specification function, and the lemmas are stated about those functions.

## Model

| member | source | states |
|---|---|---|
| Parser.QuotedEnd | internal/parser/parser.go:16 | The end found for a string or char literal is just after a closing quote, and everything before it is a run of escapes or non-quote, non-backslash characters (newlines included). |
| Parser.QuotedEndComplete | internal/parser/parser.go:16 | If the literal pattern can match up to a quote at j, QuotedEnd returns j+1. So the literal alternatives have one possible end, and None means no match. |
| Parser.BlockEnd | internal/parser/parser.go:16 | A block comment ends at the first `*/` with no newline before it. None means every `*/` has a newline before it. |
| Parser.QuotedAt | internal/parser/parser.go:16 | A string or char literal matches only where the text starts with its quote. It ends just after a closing quote, with escapes and other characters between. |
| Parser.LineCommentAt | internal/parser/parser.go:16 | `//.*?$` matches exactly when the text starts with `//` and no newline follows, and the match then runs to the end of the text. |
| Parser.BlockCommentAt | internal/parser/parser.go:16 | A block comment match starts with `/*` and ends at the first `*/` after it, with no newline between. When there is none, every `*/` has a newline before it. |
| Parser.SpanAt | internal/parser/parser.go:16 | The alternatives are tried in order (string, char, line comment, block comment), and a match is at least two characters long. |
| Parser.RemoveCommentsAndStrings | internal/parser/parser.go:55-57 | ReplaceAllString with "" deletes successive leftmost matches; the result is never longer than the input. |
| Parser.RemovedIsSubsequence | internal/parser/parser.go:55-57 | The sanitizer only deletes characters: its output is a subsequence of its input. |
| Parser.PlainTextUnchanged | internal/parser/parser.go:16-57 | Text with no `"`, `'` or `/` is returned unchanged. |
| Parser.LineCommentBeforeNewlineKept | internal/parser/parser.go:16 | `$` is the end of the text, so a `//` comment followed by a newline is kept. |
| Parser.LineCommentAtEndRemoved | internal/parser/parser.go:16 | A `//` comment that runs to the end of the text is removed. |
| Parser.MultiLineBlockCommentKept | internal/parser/parser.go:16 | `.` does not match a newline, so a block comment over two lines is kept. |
| Parser.MultiLineStringRemoved | internal/parser/parser.go:16 | `[^"\\]` crosses newlines, so a string over two lines is removed. |
| Parser.CloseParen | internal/parser/parser.go:15 | `[^)]*\)` stops at the first `)`; None means there is no `)` left. |
| Parser.NameStart | internal/parser/parser.go:15 | After the type word, whitespace and stars, the name starts at an identifier-start character. |
| Parser.ParamsEnd | internal/parser/parser.go:15 | After the name, the parameter list and the `{` end the match, and its last character is `{`. |
| Parser.SignatureAt | internal/parser/parser.go:15 | A match starts at a line start and ends in `{`, and its capture group lies strictly inside it and is an identifier. |
| Parser.SignatureAtSound | internal/parser/parser.go:15 | Every match the recogniser reports has the shape of funcRegex: a type word, whitespace, stars, whitespace, the name, `(`, non-`)` characters, `)`, whitespace and `{`. |
| Parser.SignatureAtComplete | internal/parser/parser.go:15 | If funcRegex can match at p with any split points, the recogniser finds that match, with the same capture group and end. |
| Parser.ScanMatches | internal/parser/parser.go:22 | The FindAll loop reports matches that start at or after the scan position and lie inside the text. |
| Parser.ScanGenuine | internal/parser/parser.go:22 | Every match the FindAll loop reports is the matcher's match at its own start. |
| Parser.ScanOrdered | internal/parser/parser.go:22 | The reported matches come in text order and do not overlap. |
| Parser.ScanLeftmostFirst | internal/parser/parser.go:22 | No match starts before the first reported match, and none starts at all when nothing is reported. |
| Parser.ScanLeftmostBetween | internal/parser/parser.go:22 | No match starts between the end of one reported match and the start of the next. |
| Parser.ScanLeftmostLast | internal/parser/parser.go:22 | No match starts after the end of the last reported match. |
| Parser.SignatureMatcher | internal/parser/parser.go:15-22 | The funcRegex recogniser is a well-formed matcher over the whole text. |
| Parser.FindSignatureMatches | internal/parser/parser.go:22 | Each reported match's indices lie inside the text. |
| Parser.SignatureMatchesLeftmost | internal/parser/parser.go:15-22 | The signature matches are exactly the leftmost-first, non-overlapping matches of funcRegex. They are real matches, in order, and none is skipped before, between or after them. |
| Parser.FirstClose | internal/parser/parser.go:60-70 | It returns the least closing position at or after k, or None when there is none. |
| Parser.BraceBody | internal/parser/parser.go:59-72 | On success the body is the shortest prefix that ends in a `}` bringing the running count to 0. None holds exactly when no prefix closes. |
| Parser.NoNestedBraceNoBody | internal/parser/parser.go:36-72 | Text after the signature's `{` that has no `{` of its own never closes, so it yields no body. |
| Parser.NestedBlockEndsBody | internal/parser/parser.go:59-69 | For `f() { a; { b; } c; }` the body is `" a; { b; }"`. |
| Parser.NegativeCountNoBody | internal/parser/parser.go:65-72 | `" x; }"` drives the count to -1 and never closes. |
| Parser.ExtractBraces | internal/parser/parser.go:59-72 | On success it returns a prefix of the input that ends in `}` and has as many `{` as `}`: the shortest closing prefix. It fails with UnmatchedBraces and "" exactly when no `}` brings the count to 0. |
| Parser.FunctionAt | internal/parser/parser.go:33-45 | A match yields no function exactly when no prefix of the text after it closes. Otherwise the function has the match's capture group as its name and a body taken right after the match. |
| Parser.ExtractedMembers | internal/parser/parser.go:29-50 | A function is in the result exactly when some match yields it. Failed brace scans are dropped, and the no-op check at lines 47-49 skips nothing. |
| Parser.Extracted | internal/parser/parser.go:29-50 | There is at most one function per match. |
| Parser.ExtractedAppend | internal/parser/parser.go:29-50 | The functions of consecutive runs of matches keep match order. |
| Parser.FunctionAtWellFormed | internal/parser/parser.go:33-45 | A kept function is named by `code[match[2]:match[3]]`, and its body is the balanced text starting at `match[1]`. |
| Parser.ExtractFunctions | internal/parser/parser.go:26-53 | The error is always nil, and the functions are those of Extracted, in match order. |
| Parser.ParseFunctions | internal/parser/parser.go:20-24 | It sanitizes, scans and extracts, the error is always nil, and the result is ParsedFunctions. |
| Parser.ParsedFunctions | internal/parser/parser.go:20-24 | There is at most one parsed function per signature match in the sanitized text. |
| Parser.ExtractedWellFormed | internal/parser/parser.go:33-45 | Functions extracted for signature matches have identifier names and balanced bodies taken right after their match. |
| Parser.ParsedFunctionsWellFormed | internal/parser/parser.go:20-53 | Each parsed function comes from a signature match in the sanitized text. Its name is an identifier, and its body starts after the signature's own `{`, ends in `}` and is balanced. There are at most as many functions as matches. |
| Parser.SignatureOnOneLine | internal/parser/parser.go:15 | `int f(){` matches, with name `f`. |
| Parser.SignatureAcrossLines | internal/parser/parser.go:15 | `\s` includes newline, so `int\nf(){` matches. |
| Parser.PointerTypeWithoutSpaceNotMatched | internal/parser/parser.go:15 | `int* f(){` does not match: `\s+` must come before the stars. |
| Parser.TwoWordTypeNotMatched | internal/parser/parser.go:15 | `static int f(){` does not match at its start. |
| Parser.FlatFunctionDropped | internal/parser/parser.go:20-40 | `int f(){}` yields no function, because the scan starts after the signature's `{`. |
| Parser.FlatFunctionRunsIntoNext | internal/parser/parser.go:36-69 | After `int f(){`, the text `}\nint g(){{}}` closes at its second-last `}`. So `f` is kept, with a body that runs into `g`. |
| Parser.NestedFunctionKept | internal/parser/parser.go:20-45 | `int f(){{}}` yields the function `f` with body `{}`. |
| Parser.SignatureInsideBodyKept | internal/parser/parser.go:29-50 | In `a f(){\na g(){{}}`, `g`'s signature starts inside `f`'s body, and both `f` and `g` are returned in match order: the check at lines 47-49 skips nothing. |
| Analyzer.DecisionPointTable | internal/analyzer/analyzer.go:30-42 | The table holds the eleven patterns `\bif\b`, `\belse\s+if\b`, `\bfor\b`, `\bwhile\b`, `\bswitch\b`, `\bcase\b`, `\bcatch\b`, `&&`, `\|\|`, `\bdo\b` and `\?`, in this order. |
| Analyzer.MatchEnd | internal/analyzer/analyzer.go:30-42 | A match of a pattern at p ends after p and inside the text. |
| Analyzer.FindAllFrom | internal/analyzer/analyzer.go:61 | The scan from p finds at most one match per remaining character, and every match is nonempty. |
| Analyzer.FindAll | internal/analyzer/analyzer.go:61 | `FindAllString` finds at most one match per character of the text, and finds nothing exactly when the pattern matches nowhere. |
| Analyzer.FindAllSkip | internal/analyzer/analyzer.go:61 | Positions where the pattern does not match are skipped: the scan from p finds the same as the scan from the next position that could match. |
| Analyzer.DecisionPoints | internal/analyzer/analyzer.go:58-63 | Every decision point is one of the keywords or operators of the table, or `else`, white space and `if`. |
| Analyzer.AnalysisOf | internal/analyzer/analyzer.go:45-65 | The analysis copies the function's name and takes the decision points of its body. Its score is their count plus one, so at least 1. |
| Analyzer.PatternMatchesAreTokens | internal/analyzer/analyzer.go:30-42 | Every match of a pattern of the table is a keyword or operator of the table, or an `else if` text. |
| Analyzer.CalculateCyclomaticComplexity | internal/analyzer/analyzer.go:58-65 | The decision points are the matches of the eleven patterns concatenated in table order, and the complexity is their count plus one. |
| Analyzer.AnalyzeFunctions | internal/analyzer/analyzer.go:45-55 | There is one analysis per function, in order. Each copies the name, and its decision points and score come from that function's body alone. |
| Analyzer.FindAllEmptyIff | internal/analyzer/analyzer.go:61 | A pattern finds nothing exactly when it matches at no position. |
| Analyzer.WordMatchesAreKeyword | internal/analyzer/analyzer.go:30-42 | Every match of a `\bkeyword\b` pattern is exactly the keyword. |
| Analyzer.LiteralMatchesAreText | internal/analyzer/analyzer.go:38-41 | Every match of `&&`, `\|\|` or `?` is the operator itself. |
| Analyzer.ElseIfMatchesKeepWhiteSpace | internal/analyzer/analyzer.go:32 | Every `else if` match is `else`, then the whole run of whitespace, then `if`. |
| Analyzer.ElseIfEndsInIf | internal/analyzer/analyzer.go:31-32 | Every `else if` match ends in a match of `\bif\b`, and no `i` occurs in it before that `if`. |
| Analyzer.IfScanReachesElseIfEnd | internal/analyzer/analyzer.go:31-32 | From the start of an `else if`, the `\bif\b` scan first finds the `if` it ends with. |
| Analyzer.IfScanMonotone | internal/analyzer/analyzer.go:31 | Starting the `\bif\b` scan one position later never finds more. |
| Analyzer.ElseIfAtMostIf | internal/analyzer/analyzer.go:31-32 | In every text, the `else if` pattern finds at most as many matches as the `if` pattern, because each `else if` is also counted as an `if`. |
| Analyzer.MatchesOfAppend | internal/analyzer/analyzer.go:60-63 | Concatenating pattern lists concatenates their matches. |
| Analyzer.DecisionPointsGrouped | internal/analyzer/analyzer.go:30-63 | The decision points are grouped by pattern in table order: pattern k's matches form one block, after every earlier pattern's matches and before every later one's. |
| Analyzer.MatchesOfEmptyIff | internal/analyzer/analyzer.go:60-63 | The concatenation is empty exactly when every pattern finds nothing. |
| Analyzer.NoDecisionPointsIff | internal/analyzer/analyzer.go:58-65 | A body has no decision points exactly when no pattern matches anywhere in it, which is exactly when it scores 1. |
| Analyzer.IfInsideIdentifiersNotCounted | internal/analyzer/analyzer.go:31 | `if` is not counted inside `ifdef` or `elif`. |
| Analyzer.IfNextToWordCharNotCounted | internal/analyzer/analyzer.go:31 | `if` is not counted in `_if` or `if1`. |
| Analyzer.IfBeforeParenthesisCounted | internal/analyzer/analyzer.go:31 | `if(x)` counts one `if`. |
| Analyzer.OperatorsDoNotOverlap | internal/analyzer/analyzer.go:38 | `&&&&` gives two matches and `&&&` gives one. |
| Analyzer.ElseIfMatched | internal/analyzer/analyzer.go:32 | `else if` matches the `else if` pattern once. |
| Analyzer.ElseIfCountsTwice | internal/analyzer/analyzer.go:31-63 | `else if` contributes `if` and then `else if` as its first two decision points. |
| Analyzer.MatchStartsWithFirstChar | internal/analyzer/analyzer.go:30-42 | Every match of a pattern starts with the pattern's first character. |
| Analyzer.AbsentFirstCharNoMatch | internal/analyzer/analyzer.go:61 | A pattern whose first character does not occur in the rest of the text finds nothing there. |
| Analyzer.MatchesOfAbsent | internal/analyzer/analyzer.go:60-63 | A run of patterns none of whose first characters occurs in the body contributes no decision points. |
| Analyzer.ConditionScoresThree | internal/analyzer/analyzer.go:45-65 | The condition `if(a&&b)` yields the decision points `if` then `&&`, and complexity 3. |
| Analyzer.ConditionPoints | internal/analyzer/analyzer.go:58-63 | The decision points of `if(a&&b)` are `if` then `&&`. |
| Report.FileReportOf | internal/report/report.go:38-47 | A file report copies the path and functions, and its complexity is the sum of their scores. It is 0 when there are no functions, and at least the function count when every score is at least 1. |
| Report.SumAtLeastLength | internal/report/report.go:40-45 | When every term is at least 1, the sum is at least the number of terms. |
| Report.SumAppend | internal/report/report.go:37-45 | The running sums split over concatenation. |
| Report.SumPermutation | internal/report/report.go:37-45 | A sum does not depend on the order of its terms. |
| Report.TotalIsSumOverAllFunctions | internal/report/report.go:37-45 | The total complexity summed file by file equals the sum over all functions, and the function total is the number of all functions. |
| Report.TotalsPermutationInvariant | internal/report/report.go:35-45 | The file count, function total and complexity total are the same for any order of the analyses. |
| Report.BuildReport | internal/report/report.go:33-51 | It produces one file report per analysis, in order, with the path, the functions copied in order and the file complexity as the sum of their scores (0 when there are none). `totalFiles` is the number of analyses. `totalFunctions` is the sum of the function counts. `totalComplexity` is the sum of all scores, and it equals the sum of the file complexities. |
| Pipeline.FunctionAnalysesOf | cmd/analyzer/main.go:92-104 | There is one analysis per parsed function. |
| Pipeline.FileAnalysesOf | cmd/analyzer/main.go:85-110 | There is at most one analysis per file, and exactly one per file when every file can be read. |
| Pipeline.FileAnalysesOfStep | cmd/analyzer/main.go:85-110 | One more file adds its analysis at the end when it can be read, and nothing otherwise. |
| Pipeline.AnalyzeFile | cmd/analyzer/main.go:86-110 | A file that cannot be read gives no result. Otherwise the result has the file's path and the analysis of each parsed function, in order. |
| Pipeline.AnalyzeFiles | cmd/analyzer/main.go:75-110 | Processing files one after another collects the analyses of the readable files in input order. |
| Pipeline.FunctionAnalysesWellFormed | cmd/analyzer/main.go:92-104 | Every reported function analysis names an identifier and scores its decision-point count plus one, so at least 1. |
| Pipeline.FileAnalysesOfReadable | cmd/analyzer/main.go:85-110 | There is at most one analysis per file, and each belongs to a readable file, with its path. |

## Left out

- The worker pool of `cmd/analyzer/main.go` is left out: goroutines, channels, `sync.WaitGroup`, flag parsing, `log` and `os.Exit`. Files are processed one after another. The order in which the workers deliver results is not modelled. `Report.TotalsPermutationInvariant` shows that the totals do not depend on it.
- File system access in `pkg/utils/utils.go` (the directory walk, reading and writing) is I/O. A read is a parameter: the file's content, or None when reading failed.
- The `json.MarshalIndent` call in `GenerateReport` and its `"{}"` fallback are a library serialiser; only `buildReport` is modelled.
- A general regular-expression engine is left out. Only the two parser regexes and the three shapes of decision-point pattern (`\bword\b`, `\belse\s+if\b`, a literal operator) are recognised.
- Go's UTF-8 decoding in `for i, char := range code` is left out: the text is a sequence of characters. `{` and `}` are ASCII, so the slice boundaries are the same.
- Go's 64-bit `int` is modelled as an unbounded integer, so counter overflow is not modelled.
- The `len(match) < 4` guard in `extractFunctions` cannot fire. A match is a record of four indices here.
- `nil` and empty slices are not distinguished.
- `parser.Function` and `analyzer.Function` are one datatype, `Analyzer.Function`. This makes the copy loop at `cmd/analyzer/main.go:99-102` the identity.
- `log.Printf` on a parse error is left out. `ParseFunctions` never returns an error, so that branch is unreachable.

Four behaviours of the code are easy to misread; the model keeps them as written:

- **Bodies start after the signature's `{`** (`internal/parser/parser.go:36-37`). The brace count therefore starts at 0 inside the body and excludes the signature's own `{`. The scan runs over all the text after the signature, not just the function. In a function with no nested block, the closing `}` takes the count to -1. The function is then dropped if no later `}` brings the count back to 0 (`Parser.FlatFunctionDropped`). Otherwise its body runs on into the code that follows (`Parser.FlatFunctionRunsIntoNext`).
- **`//` comments are stripped only at the very end of the text** (`internal/parser/parser.go:16`). Without `(?m)`, `$` is the end of the text, so elsewhere they stay in place.
- **Multi-line `/* */` comments are kept** (`internal/parser/parser.go:16`). Without `(?s)`, `.` does not match a newline.
- **Some return types are not recognised** (`internal/parser/parser.go:15`). A signature must begin with a single type word followed by whitespace, so `static int f(...)` and `int* f(...)` are not recognised at the line start.
