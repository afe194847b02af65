/** The complexity scorer of internal/analyzer/analyzer.go: the record types
    shared by the analyser, a fixed table of eleven decision-point patterns,
    and the score `len(decisionPoints) + 1` of a function body. */
module Analyzer {
  import opened Wrappers
  import opened Chars
  import opened Seqs

  /** A function found in a source file: its name and the text of its body. */
  datatype Function = Function(name: string, body: string)

  datatype FunctionAnalysis = FunctionAnalysis(name: string, cyclomatic: int, decisionPoints: seq<string>)

  datatype FileAnalysis = FileAnalysis(filePath: string, functions: seq<FunctionAnalysis>)

  /** `ErrUnmatchedBraces`, the one error a brace scan reports. */
  datatype ParseError = UnmatchedBraces

  /** The three shapes of decision-point pattern in the table:
      `\bkeyword\b`, `\belse\s+if\b` and a literal operator. */
  datatype Pattern = Word(keyword: string) | ElseIf | Literal(text: string)

  predicate ValidPattern(pat: Pattern) {
    match pat
    case Word(keyword) => |keyword| > 0
    case ElseIf => true
    case Literal(text) => |text| > 0
  }

  /** A pattern whose every match is non-empty. */
  type DecisionPattern = pat: Pattern | ValidPattern(pat) witness Literal("?")

  /** The decision-point patterns, in the order they are applied. */
  const DecisionPointPatterns: seq<DecisionPattern> := [
    Word("if"), ElseIf, Word("for"), Word("while"), Word("switch"), Word("case"),
    Word("catch"), Literal("&&"), Literal("||"), Word("do"), Literal("?")
  ]

  /** t occurs in s at position p. */
  predicate OccursAt(s: string, p: nat, t: string) {
    p + |t| <= |s| && s[p..p + |t|] == t
  }

  /** The end of the match of pat that starts at p, if there is one. In
      `\belse\s+if\b` the greedy `\s+` must stop at the `i` of `if`, so the run of
      white space is always taken whole. */
  function MatchEnd(pat: Pattern, s: string, p: nat): (r: Option<nat>)
    requires ValidPattern(pat) && p <= |s|
    ensures r.Some? ==> p < r.value <= |s|
  {
    match pat
    case Word(keyword) =>
      if OccursAt(s, p, keyword) && IsBoundary(s, p) && IsBoundary(s, p + |keyword|)
      then Some(p + |keyword|) else None
    case ElseIf =>
      if OccursAt(s, p, "else") && IsBoundary(s, p) then
        var w := RunEnd(s, p + 4, IsSpace);
        if w > p + 4 && OccursAt(s, w, "if") && IsBoundary(s, w + 2) then Some(w + 2) else None
      else None
    case Literal(text) =>
      if OccursAt(s, p, text) then Some(p + |text|) else None
  }

  /** Go's `FindAllString` from position p: the leftmost match, then the
      leftmost match after it, and so on, without overlap. */
  function FindAllFrom(pat: Pattern, s: string, p: nat): (r: seq<string>)
    requires ValidPattern(pat) && p <= |s|
    ensures |r| <= |s| - p
    ensures forall i :: 0 <= i < |r| ==> |r[i]| > 0
    decreases |s| - p
  {
    if p == |s| then []
    else match MatchEnd(pat, s, p)
      case Some(e) => [s[p..e]] + FindAllFrom(pat, s, e)
      case None => FindAllFrom(pat, s, p + 1)
  }

  /** Go's `FindAllString(s, -1)`: it finds nothing exactly when the pattern
      matches at no position of s. */
  function FindAll(pat: Pattern, s: string): (r: seq<string>)
    requires ValidPattern(pat)
    ensures |r| <= |s|
    ensures r == [] <==> forall q :: 0 <= q < |s| ==> MatchEnd(pat, s, q).None?
  {
    FindAllEmptyIff(pat, s, 0);
    FindAllFrom(pat, s, 0)
  }

  /** FindAll over code, as a function value on patterns. */
  function MatchesIn(code: string): DecisionPattern -> seq<string> {
    (pat: DecisionPattern) => FindAll(pat, code)
  }

  /** The matches of each pattern of pats in turn, concatenated pattern by pattern. */
  function MatchesOf(pats: seq<DecisionPattern>, code: string): seq<string> {
    Collect(pats, MatchesIn(code))
  }

  /** The decision points `calculateCyclomaticComplexity` collects from a body:
      each is one of the keywords or operators of the table, or an `else`, white
      space and `if`. */
  function DecisionPoints(code: string): (r: seq<string>)
    ensures forall x :: x in r ==> IsDecisionToken(x)
  {
    DecisionPointsAreTokens(code);
    MatchesOf(DecisionPointPatterns, code)
  }

  /** The analysis `AnalyzeFunctions` produces for one function: the name
      copied, the decision points of its body, and one more than their number,
      so at least 1. */
  function AnalysisOf(fn: Function): (r: FunctionAnalysis)
    ensures r.name == fn.name && r.decisionPoints == DecisionPoints(fn.body)
    ensures r.cyclomatic == |r.decisionPoints| + 1 && r.cyclomatic >= 1
  {
    var dp := DecisionPoints(fn.body);
    FunctionAnalysis(fn.name, |dp| + 1, dp)
  }

  /** calculateCyclomaticComplexity: apply every pattern in table order,
      appending all of its matches, and count one more than the matches. */
  method CalculateCyclomaticComplexity(code: string) returns (complexity: int, decisionPoints: seq<string>)
    ensures decisionPoints == DecisionPoints(code)
    ensures complexity == |decisionPoints| + 1
  {
    decisionPoints := [];
    for k := 0 to |DecisionPointPatterns|
      invariant decisionPoints == MatchesOf(DecisionPointPatterns[..k], code)
    {
      var matches := FindAll(DecisionPointPatterns[k], code);
      MatchesOfStep(DecisionPointPatterns, k, code);
      decisionPoints := decisionPoints + matches;
    }
    assert DecisionPointPatterns[..|DecisionPointPatterns|] == DecisionPointPatterns;
    complexity := |decisionPoints| + 1;
  }

  /** AnalyzeFunctions: one analysis per function, in order, each computed from
      that function's body alone. */
  method AnalyzeFunctions(functions: seq<Function>) returns (analyses: seq<FunctionAnalysis>)
    ensures |analyses| == |functions|
    ensures forall i :: 0 <= i < |functions| ==>
      && analyses[i].name == functions[i].name
      && analyses[i].decisionPoints == DecisionPoints(functions[i].body)
      && analyses[i].cyclomatic == |analyses[i].decisionPoints| + 1
  {
    analyses := [];
    for i := 0 to |functions|
      invariant |analyses| == i
      invariant forall k :: 0 <= k < i ==> analyses[k] == AnalysisOf(functions[k])
    {
      var fn := functions[i];
      var complexity, decisionPoints := CalculateCyclomaticComplexity(fn.body);
      analyses := analyses + [FunctionAnalysis(fn.name, complexity, decisionPoints)];
    }
  }

  // ---------------------------------------------------------------------
  // Properties of the pattern matcher

  /** A pattern finds nothing exactly when it matches at no position. */
  lemma {:induction false} FindAllEmptyIff(pat: Pattern, s: string, p: nat)
    requires ValidPattern(pat) && p <= |s|
    ensures FindAllFrom(pat, s, p) == [] <==> forall q :: p <= q < |s| ==> MatchEnd(pat, s, q).None?
    decreases |s| - p
  {
    if p < |s| && MatchEnd(pat, s, p).None? {
      FindAllEmptyIff(pat, s, p + 1);
    }
  }

  /** Every match of `\bkeyword\b` is the keyword itself. */
  lemma {:induction false} WordMatchesAreKeyword(keyword: string, s: string, p: nat)
    requires |keyword| > 0 && p <= |s|
    ensures forall x :: x in FindAllFrom(Word(keyword), s, p) ==> x == keyword
    decreases |s| - p
  {
    if p < |s| {
      match MatchEnd(Word(keyword), s, p)
      case Some(e) => WordMatchesAreKeyword(keyword, s, e);
      case None => WordMatchesAreKeyword(keyword, s, p + 1);
    }
  }

  /** Every match of a literal operator is the operator itself. */
  lemma {:induction false} LiteralMatchesAreText(text: string, s: string, p: nat)
    requires |text| > 0 && p <= |s|
    ensures forall x :: x in FindAllFrom(Literal(text), s, p) ==> x == text
    decreases |s| - p
  {
    if p < |s| {
      match MatchEnd(Literal(text), s, p)
      case Some(e) => LiteralMatchesAreText(text, s, e);
      case None => LiteralMatchesAreText(text, s, p + 1);
    }
  }

  /** x is `else`, a nonempty run of white space, and `if`. */
  predicate IsElseIfText(x: string) {
    |x| >= 7 && x[..4] == "else" && x[|x| - 2..] == "if" && AllIn(x, 4, |x| - 2, IsSpace)
  }

  lemma ElseIfMatchText(s: string, p: nat)
    requires p <= |s| && MatchEnd(ElseIf, s, p).Some?
    ensures IsElseIfText(s[p..MatchEnd(ElseIf, s, p).value])
  {
    var e := MatchEnd(ElseIf, s, p).value;
    var w := RunEnd(s, p + 4, IsSpace);
    var x := s[p..e];
    assert e == w + 2;
    assert x[..4] == s[p..p + 4];
    assert x[|x| - 2..] == s[w..w + 2];
    assert forall k :: 4 <= k < |x| - 2 ==> x[k] == s[p + k];
  }

  /** Every match of `\belse\s+if\b` is `else`, the white space after it, and `if`. */
  lemma {:induction false} ElseIfMatchesKeepWhiteSpace(s: string, p: nat)
    requires p <= |s|
    ensures forall x :: x in FindAllFrom(ElseIf, s, p) ==> IsElseIfText(x)
    decreases |s| - p
  {
    if p < |s| {
      match MatchEnd(ElseIf, s, p)
      case Some(e) =>
        ElseIfMatchText(s, p);
        ElseIfMatchesKeepWhiteSpace(s, e);
      case None => ElseIfMatchesKeepWhiteSpace(s, p + 1);
    }
  }

  /** No match starts in [p, q): the scan from p reaches q with nothing found. */
  lemma {:induction false} FindAllSkip(pat: Pattern, s: string, p: nat, q: nat)
    requires ValidPattern(pat) && p <= q <= |s|
    requires forall r :: p <= r < q ==> MatchEnd(pat, s, r).None?
    ensures FindAllFrom(pat, s, p) == FindAllFrom(pat, s, q)
    decreases q - p
  {
    if p < q {
      FindAllSkip(pat, s, p + 1, q);
    }
  }

  /** Every `else if` match ends in a match of `\bif\b`: the `if` it ends with. */
  lemma ElseIfEndsInIf(s: string, p: nat)
    requires p <= |s| && MatchEnd(ElseIf, s, p).Some?
    ensures var e := MatchEnd(ElseIf, s, p).value;
      p + 7 <= e && MatchEnd(Word("if"), s, e - 2) == Some(e)
    ensures var e := MatchEnd(ElseIf, s, p).value;
      forall r :: p <= r < e - 2 ==> s[r] != 'i'
  {
    var e := MatchEnd(ElseIf, s, p).value;
    var w := RunEnd(s, p + 4, IsSpace);
    assert e == w + 2 && s[w..w + 2] == "if";
    assert s[p..p + 4] == "else";
    forall r | p <= r < e - 2 ensures s[r] != 'i' {
      if r < p + 4 {
        assert s[r] == s[p..p + 4][r - p];
      }
    }
  }

  /** Scanning for `\bif\b` from one position further never finds more. */
  lemma IfScanMonotone(s: string, p: nat)
    requires p < |s|
    ensures |FindAllFrom(Word("if"), s, p + 1)| <= |FindAllFrom(Word("if"), s, p)|
  {
    match MatchEnd(Word("if"), s, p)
    case Some(e) =>
      assert s[p..p + 2] == "if" && s[p + 1] == 'f';
      MatchStartsWithFirstChar(Word("if"), s, p + 1);
      FindAllSkip(Word("if"), s, p + 1, p + 2);
    case None =>
  }

  /** From the start of an `else if`, the `\bif\b` scan finds its `if` first. */
  lemma IfScanReachesElseIfEnd(s: string, p: nat)
    requires p <= |s| && MatchEnd(ElseIf, s, p).Some?
    ensures var e := MatchEnd(ElseIf, s, p).value;
      FindAllFrom(Word("if"), s, p) == [s[e - 2..e]] + FindAllFrom(Word("if"), s, e)
  {
    var e := MatchEnd(ElseIf, s, p).value;
    ElseIfEndsInIf(s, p);
    forall r | p <= r < e - 2 ensures MatchEnd(Word("if"), s, r).None? {
      MatchStartsWithFirstChar(Word("if"), s, r);
    }
    FindAllSkip(Word("if"), s, p, e - 2);
  }

  /** Every `else if` is also counted as an `if`, so the `else if` pattern never
      finds more than the `if` pattern. */
  lemma {:induction false} ElseIfAtMostIf(s: string, p: nat)
    requires p <= |s|
    ensures |FindAllFrom(ElseIf, s, p)| <= |FindAllFrom(Word("if"), s, p)|
    decreases |s| - p
  {
    if p < |s| {
      match MatchEnd(ElseIf, s, p)
      case Some(e) =>
        ElseIfAtMostIf(s, e);
        IfScanReachesElseIfEnd(s, p);
      case None =>
        ElseIfAtMostIf(s, p + 1);
        IfScanMonotone(s, p);
    }
  }

  // ---------------------------------------------------------------------
  // Properties of the pattern table

  /** The table as `decisionPointPatterns` lists it: eleven patterns, in this
      order. */
  lemma DecisionPointTable()
    ensures |DecisionPointPatterns| == 11
    ensures DecisionPointPatterns[0] == Word("if") && DecisionPointPatterns[1] == ElseIf
    ensures DecisionPointPatterns[2] == Word("for") && DecisionPointPatterns[3] == Word("while")
    ensures DecisionPointPatterns[4] == Word("switch") && DecisionPointPatterns[5] == Word("case")
    ensures DecisionPointPatterns[6] == Word("catch") && DecisionPointPatterns[7] == Literal("&&")
    ensures DecisionPointPatterns[8] == Literal("||") && DecisionPointPatterns[9] == Word("do")
    ensures DecisionPointPatterns[10] == Literal("?")
  {
  }

  /** A string a decision-point pattern can match: a keyword or operator of
      the table, or `else`, white space and `if`. */
  predicate IsDecisionToken(x: string) {
    x in ["if", "for", "while", "switch", "case", "catch", "&&", "||", "do", "?"] || IsElseIfText(x)
  }

  /** Every match of a pattern of the table is a decision token. */
  lemma PatternMatchesAreTokens(pat: DecisionPattern, s: string)
    requires pat in DecisionPointPatterns
    ensures forall x :: x in FindAll(pat, s) ==> IsDecisionToken(x)
  {
    match pat
    case Word(keyword) => WordMatchesAreKeyword(keyword, s, 0);
    case ElseIf => ElseIfMatchesKeepWhiteSpace(s, 0);
    case Literal(text) => LiteralMatchesAreText(text, s, 0);
  }

  lemma DecisionPointsAreTokens(code: string)
    ensures forall x :: x in MatchesOf(DecisionPointPatterns, code) ==> IsDecisionToken(x)
  {
    var t := DecisionPointPatterns;
    forall k | 0 <= k < |t| ensures forall x :: x in MatchesIn(code)(t[k]) ==> IsDecisionToken(x) {
      PatternMatchesAreTokens(t[k], code);
    }
    CollectAll(t, MatchesIn(code), IsDecisionToken);
  }


  lemma MatchesOfStep(pats: seq<DecisionPattern>, k: nat, code: string)
    requires k < |pats|
    ensures MatchesOf(pats[..k + 1], code) == MatchesOf(pats[..k], code) + FindAll(pats[k], code)
  {
    CollectStep(pats, k, MatchesIn(code));
  }

  lemma MatchesOfAppend(a: seq<DecisionPattern>, b: seq<DecisionPattern>, code: string)
    ensures MatchesOf(a + b, code) == MatchesOf(a, code) + MatchesOf(b, code)
  {
    CollectAppend(a, b, MatchesIn(code));
  }

  /** The decision points are grouped by pattern, in table order: the matches
      of pattern k form one block, after those of every earlier pattern and
      before those of every later one. So every `if` comes before every
      `else if`, which comes before every `for`, and so on. */
  lemma DecisionPointsGrouped(code: string, k: nat)
    requires k < |DecisionPointPatterns|
    ensures DecisionPoints(code) ==
      MatchesOf(DecisionPointPatterns[..k], code) + FindAll(DecisionPointPatterns[k], code) +
      MatchesOf(DecisionPointPatterns[k + 1..], code)
  {
    var t := DecisionPointPatterns;
    assert t == t[..k + 1] + t[k + 1..];
    MatchesOfAppend(t[..k + 1], t[k + 1..], code);
    MatchesOfStep(t, k, code);
  }

  /** The concatenation is empty exactly when every pattern finds nothing. */
  lemma MatchesOfEmptyIff(pats: seq<DecisionPattern>, code: string)
    ensures MatchesOf(pats, code) == [] <==> forall k :: 0 <= k < |pats| ==> FindAll(pats[k], code) == []
  {
    CollectEmptyIff(pats, MatchesIn(code));
  }

  /** A body scores 1, with no decision points, exactly when none of the
      eleven patterns matches anywhere in it. */
  lemma NoDecisionPointsIff(code: string)
    ensures DecisionPoints(code) == [] <==>
      forall k, q :: 0 <= k < |DecisionPointPatterns| && 0 <= q < |code| ==>
        MatchEnd(DecisionPointPatterns[k], code, q).None?
    ensures DecisionPoints(code) == [] <==> AnalysisOf(Function("", code)).cyclomatic == 1
  {
    MatchesOfEmptyIff(DecisionPointPatterns, code);
    forall k | 0 <= k < |DecisionPointPatterns|
      ensures FindAll(DecisionPointPatterns[k], code) == [] <==>
        forall q :: 0 <= q < |code| ==> MatchEnd(DecisionPointPatterns[k], code, q).None?
    {
      FindAllEmptyIff(DecisionPointPatterns[k], code, 0);
    }
  }

  // ---------------------------------------------------------------------
  // Worked examples

  /** `\b` needs a non-word character on the other side: `if` inside a longer
      identifier is not a decision point. */
  lemma IfInsideIdentifiersNotCounted()
    ensures FindAll(Word("if"), "ifdef") == []
    ensures FindAll(Word("if"), "elif") == []
  {
  }

  lemma IfNextToWordCharNotCounted()
    ensures FindAll(Word("if"), "_if") == []
    ensures FindAll(Word("if"), "if1") == []
  {
  }

  lemma IfBeforeParenthesisCounted()
    ensures FindAll(Word("if"), "if(x)") == ["if"]
  {
  }

  /** Operators are found left to right without overlap. */
  lemma OperatorsDoNotOverlap()
    ensures FindAll(Literal("&&"), "&&&&") == ["&&", "&&"]
    ensures FindAll(Literal("&&"), "&&&") == ["&&"]
  {
  }

  lemma ElseIfMatched()
    ensures FindAll(ElseIf, "else if") == ["else if"]
  {
    RunEndAt("else if", 4, 5, IsSpace);
    assert MatchEnd(ElseIf, "else if", 0) == Some(7);
    assert FindAllFrom(ElseIf, "else if", 7) == [];
    assert "else if"[0..7] == "else if";
  }

  lemma IfInElseIf()
    ensures FindAll(Word("if"), "else if") == ["if"]
  {
    var s := "else if";
    assert MatchEnd(Word("if"), s, 5) == Some(7);
    assert FindAllFrom(Word("if"), s, 5) == ["if"];
  }

  lemma FirstGroup(code: string)
    ensures MatchesOf(DecisionPointPatterns[..1], code) == FindAll(Word("if"), code)
  {
    MatchesOfStep(DecisionPointPatterns, 0, code);
    assert DecisionPointPatterns[..0] == [];
  }

  /** A single `if` match and a single `else if` match are the first two
      decision points, in that order. */
  lemma FirstTwoDecisionPoints(code: string, a: string, b: string)
    requires FindAll(Word("if"), code) == [a] && FindAll(ElseIf, code) == [b]
    ensures |DecisionPoints(code)| >= 2 && DecisionPoints(code)[..2] == [a, b]
  {
    DecisionPointsGrouped(code, 1);
    FirstGroup(code);
  }

  /** An `else if` counts twice: once for `if` and once for `else if`, the
      first two entries of its decision points. In every text each `else if`
      match ends in an `if` match (ElseIfEndsInIf, ElseIfAtMostIf). */
  lemma ElseIfCountsTwice()
    ensures |DecisionPoints("else if")| >= 2 && DecisionPoints("else if")[..2] == ["if", "else if"]
  {
    IfInElseIf();
    ElseIfMatched();
    FirstTwoDecisionPoints("else if", "if", "else if");
  }

  /** The character every match of pat starts with. */
  function FirstChar(pat: DecisionPattern): char {
    match pat
    case Word(keyword) => keyword[0]
    case ElseIf => 'e'
    case Literal(text) => text[0]
  }

  /** Every match of pat starts with its first character. */
  lemma MatchStartsWithFirstChar(pat: DecisionPattern, s: string, q: nat)
    requires q <= |s|
    ensures MatchEnd(pat, s, q).Some? ==> q < |s| && s[q] == FirstChar(pat)
  {
    match pat
    case Word(keyword) =>
      if OccursAt(s, q, keyword) {
        assert s[q..q + |keyword|][0] == keyword[0];
      }
    case ElseIf =>
      if OccursAt(s, q, "else") {
        assert s[q..q + 4][0] == 'e';
      }
    case Literal(text) =>
      if OccursAt(s, q, text) {
        assert s[q..q + |text|][0] == text[0];
      }
  }

  /** A pattern whose first character does not occur in s from p on finds
      nothing there. */
  lemma AbsentFirstCharNoMatch(pat: DecisionPattern, s: string, p: nat)
    requires p <= |s| && forall q :: p <= q < |s| ==> s[q] != FirstChar(pat)
    ensures FindAllFrom(pat, s, p) == []
  {
    forall q | p <= q < |s| ensures MatchEnd(pat, s, q).None? {
      MatchStartsWithFirstChar(pat, s, q);
    }
    FindAllEmptyIff(pat, s, p);
  }

  /** A condition with one `if` and one `&&`. */
  const Condition: string := "if(a&&b)"

  /** The characters of Condition one by one, so that proofs about it need
      not unfold the literal. */
  lemma ConditionChars()
    ensures |Condition| == 8
    ensures Condition[0] == 'i' && Condition[1] == 'f' && Condition[2] == '(' && Condition[3] == 'a'
    ensures Condition[4] == '&' && Condition[5] == '&' && Condition[6] == 'b' && Condition[7] == ')'
  {
  }

  /** In `if(a&&b)` the only `f` is not the start of `for`. */
  lemma NoForInCondition()
    ensures FindAll(Word("for"), Condition) == []
  {
    var s := Condition;
    ConditionChars();
    AbsentFirstCharNoMatch(Word("for"), s, 2);
  }

  lemma ConditionIf()
    ensures FindAll(Word("if"), Condition) == ["if"]
  {
    ConditionChars();
    assert Condition[0..2] == "if";
    AbsentFirstCharNoMatch(Word("if"), Condition, 2);
  }

  lemma ConditionAnd()
    ensures FindAll(Literal("&&"), Condition) == ["&&"]
  {
    ConditionChars();
    assert Condition[4..6] == "&&";
    AbsentFirstCharNoMatch(Literal("&&"), Condition, 6);
  }

  /** The table cut around `&&`: the slices DecisionPointsGrouped and
      MatchesOfAbsent are applied to in ConditionPoints. */
  lemma TableParts()
    ensures DecisionPointPatterns[..1] == [Word("if")]
    ensures DecisionPointPatterns[1..7] == [ElseIf, Word("for"), Word("while"), Word("switch"), Word("case"), Word("catch")]
    ensures DecisionPointPatterns[7] == Literal("&&")
    ensures DecisionPointPatterns[8..] == [Literal("||"), Word("do"), Literal("?")]
  {
  }

  /** A list of patterns none of whose first characters occurs in code
      finds nothing in it. */
  lemma MatchesOfAbsent(pats: seq<DecisionPattern>, code: string)
    requires forall k, q :: 0 <= k < |pats| && 0 <= q < |code| ==> code[q] != FirstChar(pats[k])
    ensures MatchesOf(pats, code) == []
  {
    forall k | 0 <= k < |pats| ensures FindAll(pats[k], code) == [] {
      AbsentFirstCharNoMatch(pats[k], code, 0);
    }
    MatchesOfEmptyIff(pats, code);
  }

  lemma ConditionNoElseIf()
    ensures FindAll(ElseIf, Condition) == []
  {
    ConditionChars();
    AbsentFirstCharNoMatch(ElseIf, Condition, 0);
  }

  /** `else if` and `for` find nothing in `if(a&&b)`. */
  lemma ConditionElseIfForEmpty()
    ensures MatchesOf(DecisionPointPatterns[1..3], Condition) == []
  {
    var t := DecisionPointPatterns[1..3];
    TableParts();
    assert t == [ElseIf, Word("for")];
    ConditionNoElseIf();
    NoForInCondition();
    MatchesOfEmptyIff(t, Condition);
  }

  /** `while`, `switch`, `case` and `catch` find nothing in `if(a&&b)`. */
  lemma ConditionLoopWordsEmpty()
    ensures MatchesOf(DecisionPointPatterns[3..7], Condition) == []
  {
    TableParts();
    ConditionChars();
    MatchesOfAbsent(DecisionPointPatterns[3..7], Condition);
  }

  /** None of `else if`, `for`, `while`, `switch`, `case` and `catch` matches in
      `if(a&&b)`. */
  lemma ConditionMiddleEmpty()
    ensures MatchesOf(DecisionPointPatterns[1..7], Condition) == []
  {
    var t := DecisionPointPatterns;
    assert t[1..7] == t[1..3] + t[3..7];
    MatchesOfAppend(t[1..3], t[3..7], Condition);
    ConditionElseIfForEmpty();
    ConditionLoopWordsEmpty();
  }

  /** `||`, `do` and `?` find nothing in `if(a&&b)`. */
  lemma ConditionTailEmpty()
    ensures MatchesOf(DecisionPointPatterns[8..], Condition) == []
  {
    TableParts();
    ConditionChars();
    MatchesOfAbsent(DecisionPointPatterns[8..], Condition);
  }

  /** The patterns before `&&` find only the `if`. */
  lemma ConditionHead()
    ensures MatchesOf(DecisionPointPatterns[..7], Condition) == ["if"]
  {
    var t := DecisionPointPatterns;
    ConditionIf();
    ConditionMiddleEmpty();
    MatchesOfAppend(t[..1], t[1..7], Condition);
    assert t[..7] == t[..1] + t[1..7];
    FirstGroup(Condition);
  }

  /** A condition `if(a&&b)` has the decision points `if` and `&&`, and scores
      3: one for the base path, one per decision point. */
  lemma ConditionScoresThree()
    ensures AnalysisOf(Function("add", Condition)) == FunctionAnalysis("add", 3, ["if", "&&"])
  {
    ConditionPoints();
  }

  lemma ConditionPoints()
    ensures DecisionPoints(Condition) == ["if", "&&"]
  {
    ConditionHead();
    ConditionAnd();
    ConditionTailEmpty();
    TableParts();
    DecisionPointsGrouped(Condition, 7);
  }
}
