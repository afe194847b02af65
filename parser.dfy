/** The sanitizer and function extractor of internal/parser/parser.go.

    Both regular expressions of that file are written out here as hand-made
    recognisers with Go RE2's leftmost-first semantics: `commentRegex` (without
    the `(?m)` and `(?s)` flags, so `.` stops at a newline and `$` is the end of
    the whole text) and `funcRegex` (with `(?m)`, so `^` is the start of the text
    or the position after a newline). */
module Parser {
  import opened Wrappers
  import opened Chars
  import opened Analyzer
  import opened Seqs

  // ---------------------------------------------------------------------
  // commentRegex: `("(?:\\.|[^"\\])*")|('(?:\\.|[^'\\])*')|(//.*?$)|(/\*.*?\*/)`

  /** s[i..j] is a run of `(?:\\.|[^q\\])`: backslash escapes of any character
      but a newline, and characters that are neither q nor a backslash. */
  ghost predicate LiteralBody(s: string, q: char, i: nat, j: nat)
    requires i <= j <= |s|
    decreases j - i
  {
    i == j ||
    (s[i] == '\\' && i + 2 <= j && s[i + 1] != '\n' && LiteralBody(s, q, i + 2, j)) ||
    (s[i] != q && s[i] != '\\' && LiteralBody(s, q, i + 1, j))
  }

  /** From i, the rest of a literal opened by quote q: `(?:\\.|[^q\\])*q`.
      Returns the index just after the closing quote. */
  function QuotedEnd(s: string, q: char, i: nat): (r: Option<nat>)
    requires i <= |s|
    ensures r.Some? ==> i < r.value <= |s| && s[r.value - 1] == q && LiteralBody(s, q, i, r.value - 1)
    decreases |s| - i
  {
    if i == |s| then None
    else if s[i] == q then Some(i + 1)
    else if s[i] == '\\' then
      if i + 1 < |s| && s[i + 1] != '\n' then QuotedEnd(s, q, i + 2) else None
    else QuotedEnd(s, q, i + 1)
  }

  /** Every way the literal pattern can match from i gives the same end: the one
      QuotedEnd finds. So leftmost-first and longest-match semantics agree, and
      QuotedEnd is None only when the pattern cannot match at all. */
  lemma {:induction false} QuotedEndComplete(s: string, q: char, i: nat, j: nat)
    requires q != '\\' && i <= j < |s| && s[j] == q && LiteralBody(s, q, i, j)
    ensures QuotedEnd(s, q, i) == Some(j + 1)
    decreases j - i
  {
    if i < j {
      if s[i] == '\\' {
        QuotedEndComplete(s, q, i + 2, j);
      } else {
        QuotedEndComplete(s, q, i + 1, j);
      }
    }
  }

  /** A `*` `/` pair ends just before e. */
  predicate EndsComment(s: string, e: nat) {
    2 <= e <= |s| && s[e - 2] == '*' && s[e - 1] == '/'
  }

  /** From i, the rest of a block comment: `.*?\*\/`, the first `*` `/` reached
      without crossing a newline. Returns the index just after it. */
  function BlockEnd(s: string, i: nat): (r: Option<nat>)
    requires i <= |s|
    ensures r.Some? ==> i + 2 <= r.value <= |s| && EndsComment(s, r.value) && AllIn(s, i, r.value - 2, IsNotNewline)
    ensures r.Some? ==> forall e :: i + 2 <= e < r.value ==> !EndsComment(s, e)
    ensures r.None? ==> forall e :: i + 2 <= e <= |s| && EndsComment(s, e) ==> !AllIn(s, i, e - 2, IsNotNewline)
    decreases |s| - i
  {
    if i + 1 >= |s| then None
    else if s[i] == '*' && s[i + 1] == '/' then Some(i + 2)
    else if s[i] == '\n' then None
    else BlockEnd(s, i + 1)
  }

  /** A string or character literal opened by q at the start of s: it ends
      just after a closing q, with only escapes and other characters between. */
  function QuotedAt(s: string, q: char): (r: Option<nat>)
    ensures (|s| == 0 || s[0] != q) ==> r.None?
    ensures r.Some? ==> s[0] == q && 2 <= r.value <= |s| && s[r.value - 1] == q && LiteralBody(s, q, 1, r.value - 1)
  {
    if |s| > 0 && s[0] == q then QuotedEnd(s, q, 1) else None
  }

  /** `//.*?$`: a line comment, which matches only when no newline follows it,
      because `$` is the end of the whole text. */
  function LineCommentAt(s: string): (r: Option<nat>)
    ensures r.Some? <==> |s| >= 2 && s[0] == '/' && s[1] == '/' && forall k :: 2 <= k < |s| ==> s[k] != '\n'
    ensures r.Some? ==> r.value == |s|
  {
    if |s| >= 2 && s[0] == '/' && s[1] == '/' && '\n' !in s[2..] then Some(|s|) else None
  }

  /** `/\*.*?\*\/`: a block comment on one line. It ends at the first `*` `/`
      after the opening one; none is found when a newline comes before every
      `*` `/`. */
  function BlockCommentAt(s: string): (r: Option<nat>)
    ensures r.Some? ==> 4 <= r.value <= |s| && s[0] == '/' && s[1] == '*' && EndsComment(s, r.value)
    ensures r.Some? ==> AllIn(s, 2, r.value - 2, IsNotNewline) && forall e :: 4 <= e < r.value ==> !EndsComment(s, e)
    ensures r.None? && |s| >= 2 && s[0] == '/' && s[1] == '*' ==>
      forall e :: 4 <= e <= |s| && EndsComment(s, e) ==> !AllIn(s, 2, e - 2, IsNotNewline)
  {
    if |s| >= 2 && s[0] == '/' && s[1] == '*' then BlockEnd(s, 2) else None
  }

  /** The length of the match of commentRegex at the start of s, alternatives
      tried in order. */
  function SpanAt(s: string): (r: Option<nat>)
    ensures r.Some? ==> 2 <= r.value <= |s|
  {
    FirstOf(QuotedAt(s, '"'), FirstOf(QuotedAt(s, '\''), FirstOf(LineCommentAt(s), BlockCommentAt(s))))
  }

  /** removeCommentsAndStrings: `ReplaceAllString(code, "")`, which deletes the
      leftmost match, then the leftmost match after it, and so on. */
  function RemoveCommentsAndStrings(code: string): (r: string)
    ensures |r| <= |code|
    decreases |code|
  {
    if code == [] then []
    else match SpanAt(code)
      case Some(n) => RemoveCommentsAndStrings(code[n..])
      case None => [code[0]] + RemoveCommentsAndStrings(code[1..])
  }

  /** a is obtained from b by deleting characters. */
  ghost predicate IsSubsequence(a: string, b: string)
    decreases |b|
  {
    if a == [] then true
    else if b == [] then false
    else (a[0] == b[0] && IsSubsequence(a[1..], b[1..])) || IsSubsequence(a, b[1..])
  }

  lemma {:induction false} SubsequenceOfSuffix(a: string, b: string, k: nat)
    requires k <= |b| && IsSubsequence(a, b[k..])
    ensures IsSubsequence(a, b)
    decreases k
  {
    if k > 0 {
      assert b[k - 1..][1..] == b[k..];
      SubsequenceOfSuffix(a, b, k - 1);
    }
  }

  /** The sanitizer only deletes characters: what is left keeps its order. */
  lemma {:induction false} RemovedIsSubsequence(code: string)
    ensures IsSubsequence(RemoveCommentsAndStrings(code), code)
    decreases |code|
  {
    if code != [] {
      var r := RemoveCommentsAndStrings(code);
      match SpanAt(code)
      case Some(n) =>
        RemovedIsSubsequence(code[n..]);
        SubsequenceOfSuffix(r, code, n);
      case None =>
        RemovedIsSubsequence(code[1..]);
        assert r[0] == code[0] && r[1..] == RemoveCommentsAndStrings(code[1..]);
    }
  }

  /** No match of commentRegex can start without a quote or a slash. */
  predicate IsPlain(code: string) {
    forall k :: 0 <= k < |code| ==> code[k] != '"' && code[k] != '\'' && code[k] != '/'
  }

  /** Text with no quote and no slash comes through the sanitizer unchanged. */
  lemma {:induction false} PlainTextUnchanged(code: string)
    requires IsPlain(code)
    ensures RemoveCommentsAndStrings(code) == code
    decreases |code|
  {
    if code != [] {
      assert SpanAt(code) == None;
      assert IsPlain(code[1..]) by {
        forall k | 0 <= k < |code[1..]| ensures code[1..][k] == code[k + 1] { }
      }
      PlainTextUnchanged(code[1..]);
      assert [code[0]] + code[1..] == code;
    }
  }

  /** `$` is the end of the text: a line comment with a newline after it stays. */
  lemma LineCommentBeforeNewlineKept()
    ensures RemoveCommentsAndStrings("//c\nx") == "//c\nx"
  {
  }

  /** A line comment that runs to the end of the text is removed. */
  lemma LineCommentAtEndRemoved()
    ensures RemoveCommentsAndStrings("x//c") == "x"
  {
  }

  /** `.` stops at a newline: a block comment over two lines stays. */
  lemma MultiLineBlockCommentKept()
    ensures RemoveCommentsAndStrings("/*\n*/") == "/*\n*/"
  {
  }

  /** `[^"\\]` crosses newlines: a string over two lines is removed. */
  lemma MultiLineStringRemoved()
    ensures RemoveCommentsAndStrings("x\"\n\"") == "x"
  {
  }

  // ---------------------------------------------------------------------
  // funcRegex: `(?m)^[a-zA-Z_][a-zA-Z0-9_]*\s+\**\s*([a-zA-Z_][a-zA-Z0-9_]*)\s*\([^)]*\)\s*\{`

  /** The four indices `FindAllStringSubmatchIndex` reports for one match: the
      whole match and capture group 1, the function name. */
  datatype SigMatch = SigMatch(start: nat, end: nat, nameStart: nat, nameEnd: nat)

  /** `^` under `(?m)`. */
  predicate IsLineStart(s: string, p: nat)
    requires p <= |s|
  {
    p == 0 || s[p - 1] == '\n'
  }

  /** The first `)` at or after i: where `[^)]*` stops. */
  function CloseParen(s: string, i: nat): (r: Option<nat>)
    requires i <= |s|
    ensures r.Some? ==> i <= r.value < |s| && s[r.value] == ')' && AllIn(s, i, r.value, IsNotCloseParen)
    ensures r.None? ==> AllIn(s, i, |s|, IsNotCloseParen)
    decreases |s| - i
  {
    if i == |s| then None
    else if s[i] == ')' then Some(i)
    else CloseParen(s, i + 1)
  }

  /** After a return type starting at p, `[a-zA-Z0-9_]*\s+\**\s*` and the
      first character of the name: the index where the name starts. */
  function NameStart(code: string, p: nat): (r: Option<nat>)
    requires p < |code|
    ensures r.Some? ==> p < r.value < |code| && IsIdentStart(code[r.value])
  {
    var typeEnd := RunEnd(code, p + 1, IsWordChar);
    var gapEnd := RunEnd(code, typeEnd, IsSpace);
    var starsEnd := RunEnd(code, gapEnd, IsStar);
    var nameStart := RunEnd(code, starsEnd, IsSpace);
    if gapEnd > typeEnd && nameStart < |code| && IsIdentStart(code[nameStart]) then Some(nameStart) else None
  }

  /** After the name ending at nameEnd, `\s*\([^)]*\)\s*\{`: the index just
      after the `{`. */
  function ParamsEnd(code: string, nameEnd: nat): (r: Option<nat>)
    requires nameEnd <= |code|
    ensures r.Some? ==> nameEnd < r.value <= |code| && code[r.value - 1] == '{'
  {
    var open := RunEnd(code, nameEnd, IsSpace);
    if open == |code| || code[open] != '(' then None
    else match CloseParen(code, open + 1)
      case None => None
      case Some(close) =>
        var brace := RunEnd(code, close + 1, IsSpace);
        if brace < |code| && code[brace] == '{' then Some(brace + 1) else None
  }

  /** The match of funcRegex that starts at p, if there is one. The type word,
      the stars, the name and `[^)]*` are each followed by an element that cannot
      begin with a character they repeat, so each is taken whole. `\s+\**\s*`
      without stars splits one run of white space freely between `\s+` and
      `\s*`, but every split ends at the same place. So all ways to match at p
      give the same indices (see SignatureAtComplete). */
  function SignatureAt(code: string, p: nat): (r: Option<SigMatch>)
    requires p <= |code|
    ensures r.Some? ==> r.value.start == p < r.value.nameStart < r.value.nameEnd < r.value.end <= |code|
    ensures r.Some? ==> IsLineStart(code, p) && IsIdentifier(code[r.value.nameStart..r.value.nameEnd])
    ensures r.Some? ==> code[r.value.end - 1] == '{'
  {
    if p == |code| || !IsLineStart(code, p) || !IsIdentStart(code[p]) then None
    else match NameStart(code, p)
      case None => None
      case Some(nameStart) =>
        var nameEnd := RunEnd(code, nameStart + 1, IsWordChar);
        match ParamsEnd(code, nameEnd)
        case None => None
        case Some(end) => Some(SigMatch(p, end, nameStart, nameEnd))
  }

  /** `[a-zA-Z0-9_]*\s+\**\s*` after the type's first character at p, with the
      split points given, and the first character of the name at nameStart. */
  ghost predicate NameSplit(code: string, p: nat, typeEnd: nat, gapEnd: nat, starsEnd: nat, nameStart: nat)
  {
    && p < typeEnd < gapEnd <= starsEnd <= nameStart < |code|
    && AllIn(code, p + 1, typeEnd, IsWordChar) && AllIn(code, typeEnd, gapEnd, IsSpace)
    && AllIn(code, gapEnd, starsEnd, IsStar) && AllIn(code, starsEnd, nameStart, IsSpace)
    && IsIdentStart(code[nameStart])
  }

  /** `\s*\([^)]*\)\s*\{` from nameEnd, with the split points given: `(` at open,
      `)` at close and `{` just before end. */
  ghost predicate ParamsSplit(code: string, nameEnd: nat, open: nat, close: nat, end: nat)
  {
    && nameEnd <= open < close && close + 1 < end <= |code|
    && AllIn(code, nameEnd, open, IsSpace) && code[open] == '('
    && AllIn(code, open + 1, close, IsNotCloseParen) && code[close] == ')'
    && AllIn(code, close + 1, end - 1, IsSpace) && code[end - 1] == '{'
  }

  /** funcRegex matched at p with the split points given: the type name
      code[p..typeEnd], whitespace and stars up to the name at
      code[nameStart..nameEnd], then the parameter list and the `{` just before
      end. */
  ghost predicate SignatureShape(code: string, p: nat, typeEnd: nat, gapEnd: nat, starsEnd: nat,
                                 nameStart: nat, nameEnd: nat, open: nat, close: nat, end: nat)
  {
    && p < |code| && IsLineStart(code, p) && IsIdentStart(code[p])
    && NameSplit(code, p, typeEnd, gapEnd, starsEnd, nameStart)
    && nameStart < nameEnd <= |code| && AllIn(code, nameStart + 1, nameEnd, IsWordChar)
    && ParamsSplit(code, nameEnd, open, close, end)
  }

  lemma NameStartSound(code: string, p: nat)
    requires p < |code| && NameStart(code, p).Some?
    ensures exists typeEnd, gapEnd, starsEnd :: NameSplit(code, p, typeEnd, gapEnd, starsEnd, NameStart(code, p).value)
  {
    var typeEnd := RunEnd(code, p + 1, IsWordChar);
    var gapEnd := RunEnd(code, typeEnd, IsSpace);
    var starsEnd := RunEnd(code, gapEnd, IsStar);
    assert NameSplit(code, p, typeEnd, gapEnd, starsEnd, NameStart(code, p).value);
  }

  lemma ParamsEndSound(code: string, nameEnd: nat)
    requires nameEnd <= |code| && ParamsEnd(code, nameEnd).Some?
    ensures exists open, close :: ParamsSplit(code, nameEnd, open, close, ParamsEnd(code, nameEnd).value)
  {
    var open := RunEnd(code, nameEnd, IsSpace);
    var close := CloseParen(code, open + 1).value;
    assert ParamsSplit(code, nameEnd, open, close, ParamsEnd(code, nameEnd).value);
  }

  /** Every match SignatureAt reports is a match of funcRegex, and the indices
      it reports are its capture group and its end. */
  lemma SignatureAtSound(code: string, p: nat)
    requires p <= |code| && SignatureAt(code, p).Some?
    ensures var m := SignatureAt(code, p).value;
      exists typeEnd, gapEnd, starsEnd, open, close ::
        SignatureShape(code, p, typeEnd, gapEnd, starsEnd, m.nameStart, m.nameEnd, open, close, m.end)
  {
    var m := SignatureAt(code, p).value;
    NameStartSound(code, p);
    var typeEnd, gapEnd, starsEnd :| NameSplit(code, p, typeEnd, gapEnd, starsEnd, m.nameStart);
    ParamsEndSound(code, m.nameEnd);
    var open, close :| ParamsSplit(code, m.nameEnd, open, close, m.end);
    assert SignatureShape(code, p, typeEnd, gapEnd, starsEnd, m.nameStart, m.nameEnd, open, close, m.end);
  }

  lemma {:induction false} CloseParenAt(s: string, i: nat, j: nat)
    requires i <= j < |s| && s[j] == ')' && AllIn(s, i, j, IsNotCloseParen)
    ensures CloseParen(s, i) == Some(j)
    decreases j - i
  {
    if i < j {
      CloseParenAt(s, i + 1, j);
    }
  }

  /** The part of a match between the start and the name pins down NameStart. */
  lemma NameStartAt(code: string, p: nat, typeEnd: nat, gapEnd: nat, starsEnd: nat, nameStart: nat)
    requires NameSplit(code, p, typeEnd, gapEnd, starsEnd, nameStart)
    ensures NameStart(code, p) == Some(nameStart)
  {
    RunEndAt(code, p + 1, typeEnd, IsWordChar);
    if gapEnd == starsEnd {
      RunEndAt(code, typeEnd, nameStart, IsSpace);
      RunEndAt(code, nameStart, nameStart, IsStar);
      RunEndAt(code, nameStart, nameStart, IsSpace);
    } else {
      RunEndAt(code, typeEnd, gapEnd, IsSpace);
      RunEndAt(code, gapEnd, starsEnd, IsStar);
      RunEndAt(code, starsEnd, nameStart, IsSpace);
    }
  }

  /** The part of a match after the name pins down ParamsEnd. */
  lemma ParamsEndAt(code: string, nameEnd: nat, open: nat, close: nat, end: nat)
    requires ParamsSplit(code, nameEnd, open, close, end)
    ensures ParamsEnd(code, nameEnd) == Some(end)
  {
    RunEndAt(code, nameEnd, open, IsSpace);
    CloseParenAt(code, open + 1, close);
    RunEndAt(code, close + 1, end - 1, IsSpace);
  }

  /** Whatever split points a match of funcRegex at p uses, SignatureAt finds
      it, with the same capture group and end: the pattern has one way to
      match at p, so leftmost-first semantics leaves no choice. */
  lemma SignatureAtComplete(code: string, p: nat, typeEnd: nat, gapEnd: nat, starsEnd: nat,
                            nameStart: nat, nameEnd: nat, open: nat, close: nat, end: nat)
    requires SignatureShape(code, p, typeEnd, gapEnd, starsEnd, nameStart, nameEnd, open, close, end)
    ensures SignatureAt(code, p) == Some(SigMatch(p, end, nameStart, nameEnd))
  {
    NameStartAt(code, p, typeEnd, gapEnd, starsEnd, nameStart);
    RunEndAt(code, nameStart + 1, nameEnd, IsWordChar);
    ParamsEndAt(code, nameEnd, open, close, end);
    SignatureAtOf(code, p, nameStart, nameEnd, end);
  }

  /** SignatureAt from the results of its parts. */
  lemma SignatureAtOf(code: string, p: nat, nameStart: nat, nameEnd: nat, end: nat)
    requires p < |code| && IsLineStart(code, p) && IsIdentStart(code[p])
    requires NameStart(code, p) == Some(nameStart)
    requires RunEnd(code, nameStart + 1, IsWordChar) == nameEnd
    requires ParamsEnd(code, nameEnd) == Some(end)
    ensures SignatureAt(code, p) == Some(SigMatch(p, end, nameStart, nameEnd))
  {
  }

  /** The match indices lie inside the text. */
  predicate InBounds(code: string, m: SigMatch) {
    m.nameStart <= m.nameEnd <= |code| && m.end <= |code|
  }

  /** A matcher on a text of length n: a match found at q starts at q, ends
      after it, and lies inside the text. */
  ghost predicate IsMatcher(at: nat -> Option<SigMatch>, n: nat) {
    forall q: nat :: q < n && at(q).Some? ==>
      at(q).value.start == q < at(q).value.end <= n && at(q).value.nameStart <= at(q).value.nameEnd <= n
  }

  /** The loop of Go's `FindAll` family over a matcher: take the leftmost
      match at or after pos, resume at its end, and repeat. */
  function ScanMatches(at: nat -> Option<SigMatch>, n: nat, pos: nat): (r: seq<SigMatch>)
    requires pos <= n && IsMatcher(at, n)
    ensures forall i :: 0 <= i < |r| ==> pos <= r[i].start < r[i].end <= n
    ensures forall i :: 0 <= i < |r| ==> r[i].nameStart <= r[i].nameEnd <= n
    decreases n - pos
  {
    if pos == n then []
    else match at(pos)
      case Some(m) => [m] + ScanMatches(at, n, m.end)
      case None => ScanMatches(at, n, pos + 1)
  }

  /** No match starts in [a, b). */
  ghost predicate NoMatchIn(at: nat -> Option<SigMatch>, a: nat, b: nat) {
    forall q :: a <= q < b ==> at(q).None?
  }

  lemma ScanStep(at: nat -> Option<SigMatch>, n: nat, pos: nat)
    requires pos < n && IsMatcher(at, n)
    ensures at(pos).None? ==> ScanMatches(at, n, pos) == ScanMatches(at, n, pos + 1)
    ensures at(pos).Some? ==> ScanMatches(at, n, pos) == [at(pos).value] + ScanMatches(at, n, at(pos).value.end)
  {
  }

  /** Every match the scan reports is the matcher's match at its own start. */
  lemma {:induction false} ScanGenuine(at: nat -> Option<SigMatch>, n: nat, pos: nat)
    requires pos <= n && IsMatcher(at, n)
    ensures var r := ScanMatches(at, n, pos);
      forall i :: 0 <= i < |r| ==> at(r[i].start) == Some(r[i])
    decreases n - pos
  {
    if pos < n {
      ScanStep(at, n, pos);
      if at(pos).Some? {
        ScanGenuine(at, n, at(pos).value.end);
      } else {
        ScanGenuine(at, n, pos + 1);
      }
    }
  }

  /** The matches come in text order and do not overlap. */
  lemma {:induction false} ScanOrdered(at: nat -> Option<SigMatch>, n: nat, pos: nat)
    requires pos <= n && IsMatcher(at, n)
    ensures var r := ScanMatches(at, n, pos);
      forall i, j :: 0 <= i < j < |r| ==> r[i].end <= r[j].start
    decreases n - pos
  {
    if pos < n {
      ScanStep(at, n, pos);
      if at(pos).Some? {
        ScanOrdered(at, n, at(pos).value.end);
      } else {
        ScanOrdered(at, n, pos + 1);
      }
    }
  }

  /** No match starts before the first reported one, or at all when none
      is reported. */
  lemma {:induction false} ScanLeftmostFirst(at: nat -> Option<SigMatch>, n: nat, pos: nat)
    requires pos <= n && IsMatcher(at, n)
    ensures var r := ScanMatches(at, n, pos);
      NoMatchIn(at, pos, if r == [] then n else r[0].start)
    decreases n - pos
  {
    if pos < n {
      ScanStep(at, n, pos);
      if at(pos).None? {
        ScanLeftmostFirst(at, n, pos + 1);
      }
    }
  }

  /** No match starts between two consecutive reported ones. */
  lemma {:induction false} ScanLeftmostBetween(at: nat -> Option<SigMatch>, n: nat, pos: nat)
    requires pos <= n && IsMatcher(at, n)
    ensures var r := ScanMatches(at, n, pos);
      forall i, j :: 0 <= i && j == i + 1 && j < |r| ==> NoMatchIn(at, r[i].end, r[j].start)
    decreases n - pos
  {
    if pos < n {
      ScanStep(at, n, pos);
      if at(pos).Some? {
        var m := at(pos).value;
        ScanLeftmostBetween(at, n, m.end);
        ScanLeftmostFirst(at, n, m.end);
        var rest := ScanMatches(at, n, m.end);
        assert forall i :: 1 <= i < |[m] + rest| ==> ([m] + rest)[i] == rest[i - 1];
      } else {
        ScanLeftmostBetween(at, n, pos + 1);
      }
    }
  }

  /** Where a scan that started at pos and found r stopped searching: the end
      of its last match, or pos when it found none. */
  function LastEnd(r: seq<SigMatch>, pos: nat): nat {
    if r == [] then pos else r[|r| - 1].end
  }

  lemma {:induction false} ScanLeftmostLast(at: nat -> Option<SigMatch>, n: nat, pos: nat)
    requires pos <= n && IsMatcher(at, n)
    ensures NoMatchIn(at, LastEnd(ScanMatches(at, n, pos), pos), n)
    decreases n - pos
  {
    if pos < n {
      ScanStep(at, n, pos);
      if at(pos).Some? {
        var m := at(pos).value;
        ScanLeftmostLast(at, n, m.end);
        var rest := ScanMatches(at, n, m.end);
        assert LastEnd([m] + rest, pos) == LastEnd(rest, m.end);
      } else {
        ScanLeftmostLast(at, n, pos + 1);
      }
    }
  }

  /** funcRegex as a matcher over the whole text. */
  function SignatureMatcher(code: string): (at: nat -> Option<SigMatch>)
    ensures IsMatcher(at, |code|)
    ensures forall q: nat :: q <= |code| ==> at(q) == SignatureAt(code, q)
  {
    (q: nat) => if q <= |code| then SignatureAt(code, q) else None
  }

  /** `funcRegex.FindAllStringSubmatchIndex(code, -1)` from position pos. */
  function FindSignatureMatches(code: string, pos: nat): (r: seq<SigMatch>)
    requires pos <= |code|
    ensures forall m :: m in r ==> InBounds(code, m)
  {
    ScanMatches(SignatureMatcher(code), |code|, pos)
  }

  /** No match of funcRegex starts in [a, b). */
  predicate NoSignatureIn(code: string, a: nat, b: nat)
    requires b <= |code|
  {
    forall q :: a <= q < b ==> SignatureAt(code, q).None?
  }

  /** The signature matches are exactly the leftmost-first matches of
      funcRegex: each is a real match at its start, they come in text order
      without overlap, and no match starts in any stretch the scan skipped. */
  lemma SignatureMatchesLeftmost(code: string)
    ensures var r := FindSignatureMatches(code, 0);
      && (forall i :: 0 <= i < |r| ==> SignatureAt(code, r[i].start) == Some(r[i]))
      && (forall i, j :: 0 <= i < j < |r| ==> r[i].end <= r[j].start)
      && NoSignatureIn(code, 0, if r == [] then |code| else r[0].start)
      && (forall i, j :: 0 <= i && j == i + 1 && j < |r| ==> NoSignatureIn(code, r[i].end, r[j].start))
      && (r != [] ==> NoSignatureIn(code, r[|r| - 1].end, |code|))
  {
    var at := SignatureMatcher(code);
    ScanGenuine(at, |code|, 0);
    ScanOrdered(at, |code|, 0);
    ScanLeftmostFirst(at, |code|, 0);
    ScanLeftmostBetween(at, |code|, 0);
    ScanLeftmostLast(at, |code|, 0);
  }

  // ---------------------------------------------------------------------
  // extractBraces

  function Count(s: string, c: char): (n: nat)
    ensures n <= |s|
  {
    if s == [] then 0 else (if s[0] == c then 1 else 0) + Count(s[1..], c)
  }

  /** The running brace count after s: one up per `{`, one down per `}`. */
  function Depth(s: string): int {
    Count(s, '{') - Count(s, '}')
  }

  /** The prefix s[..k] ends in a `}` that brings the running count to zero. */
  predicate ClosesAt(s: string, k: nat) {
    0 < k <= |s| && s[k - 1] == '}' && Depth(s[..k]) == 0
  }

  /** The least k' >= k at which s closes, if any. */
  function FirstClose(s: string, k: nat): (r: Option<nat>)
    ensures r.Some? ==> k <= r.value && ClosesAt(s, r.value)
    ensures r.Some? ==> forall j :: k <= j < r.value ==> !ClosesAt(s, j)
    ensures r.None? ==> forall j :: k <= j ==> !ClosesAt(s, j)
    decreases |s| + 1 - k
  {
    if k > |s| then None
    else if ClosesAt(s, k) then Some(k)
    else FirstClose(s, k + 1)
  }

  /** What extractBraces returns on success: the shortest closing prefix. It
      exists exactly when some prefix closes. */
  function BraceBody(s: string): (r: Option<string>)
    ensures r.Some? ==> 0 < |r.value| <= |s| && r.value == s[..|r.value|] && ClosesAt(s, |r.value|)
    ensures r.Some? ==> forall j :: 0 < j < |r.value| ==> !ClosesAt(s, j)
    ensures r.None? <==> forall j :: 0 < j <= |s| ==> !ClosesAt(s, j)
  {
    match FirstClose(s, 1)
    case Some(k) => Some(s[..k])
    case None => None
  }

  lemma {:induction false} CountAppend(a: string, b: string, c: char)
    ensures Count(a + b, c) == Count(a, c) + Count(b, c)
  {
    if a != [] {
      assert (a + b)[0] == a[0];
      assert (a + b)[1..] == a[1..] + b;
      CountAppend(a[1..], b, c);
    } else {
      assert a + b == b;
    }
  }

  lemma DepthStep(s: string, i: nat)
    requires i < |s|
    ensures Depth(s[..i + 1]) == Depth(s[..i]) + (if s[i] == '{' then 1 else if s[i] == '}' then -1 else 0)
  {
    assert s[..i + 1] == s[..i] + [s[i]];
    CountAppend(s[..i], [s[i]], '{');
    CountAppend(s[..i], [s[i]], '}');
  }

  lemma {:induction false} CountAbsent(s: string, c: char)
    requires c !in s
    ensures Count(s, c) == 0
  {
    if s != [] {
      assert forall x :: x in s[1..] ==> x in s;
      CountAbsent(s[1..], c);
    }
  }

  /** The scan starts inside the body at count 0, so the first `}` takes the
      count below zero unless a `{` came before it: text after the signature
      with no `{` never closes. So `int f() { return 0; }` alone in a file
      yields no function. */
  lemma NoNestedBraceNoBody(s: string)
    requires '{' !in s
    ensures BraceBody(s) == None
  {
    forall j | 0 < j <= |s| && s[j - 1] == '}'
      ensures !ClosesAt(s, j)
    {
      assert s[..j] == s[..j - 1] + [s[j - 1]];
      CountAppend(s[..j - 1], [s[j - 1]], '}');
      assert forall x :: x in s[..j] ==> x in s;
      CountAbsent(s[..j], '{');
    }
  }

  /** extractBraces: scan with a signed brace counter and stop at the first `}`
      that brings it to zero. */
  method ExtractBraces(code: string) returns (body: string, err: Option<ParseError>)
    ensures err.None? ==> 0 < |body| <= |code| && body == code[..|body|]
    ensures err.None? ==> body[|body| - 1] == '}' && Count(body, '{') == Count(body, '}')
    ensures err.None? ==> ClosesAt(code, |body|) && forall j :: 0 < j < |body| ==> !ClosesAt(code, j)
    ensures err.Some? ==> err == Some(UnmatchedBraces) && body == []
    ensures err.Some? <==> forall j :: 0 < j <= |code| ==> !ClosesAt(code, j)
  {
    var braceCount := 0;
    for i := 0 to |code|
      invariant braceCount == Depth(code[..i])
      invariant forall j :: 0 < j <= i ==> !ClosesAt(code, j)
    {
      DepthStep(code, i);
      match code[i] {
        case '{' =>
          braceCount := braceCount + 1;
        case '}' =>
          braceCount := braceCount - 1;
          if braceCount == 0 {
            return code[..i + 1], None;
          }
        case _ =>
      }
    }
    return [], Some(UnmatchedBraces);
  }

  // ---------------------------------------------------------------------
  // extractFunctions and ParseFunctions

  /** The function extractFunctions keeps for match m: none when the brace scan
      after the signature's `{` fails. */
  function FunctionAt(code: string, m: SigMatch): (r: seq<Function>)
    requires InBounds(code, m)
    ensures |r| <= 1
    ensures r == [] <==> forall j :: 0 < j <= |code| - m.end ==> !ClosesAt(code[m.end..], j)
    ensures forall f :: f in r ==> f.name == code[m.nameStart..m.nameEnd] && TakenFrom(code, f, m)
  {
    match BraceBody(code[m.end..])
    case Some(body) => [Function(code[m.nameStart..m.nameEnd], body)]
    case None => []
  }

  /** FunctionAt as a function value over the matches of code; a match
      outside the text, which no scan reports, yields nothing. */
  function FunctionsFor(code: string): (g: SigMatch -> seq<Function>)
    ensures forall m :: |g(m)| <= 1
    ensures forall m :: InBounds(code, m) ==> g(m) == FunctionAt(code, m)
  {
    m => if InBounds(code, m) then FunctionAt(code, m) else []
  }

  /** The functions extractFunctions returns for the matches ms. */
  function Extracted(code: string, ms: seq<SigMatch>): (r: seq<Function>)
    requires forall m :: m in ms ==> InBounds(code, m)
    ensures |r| <= |ms|
  {
    CollectLength(ms, FunctionsFor(code));
    Collect(ms, FunctionsFor(code))
  }

  /** extractFunctions drops nothing but failed brace scans and invents
      nothing: a function is in the result exactly when some match yields it. */
  lemma ExtractedMembers(code: string, ms: seq<SigMatch>)
    requires forall m :: m in ms ==> InBounds(code, m)
    ensures forall f :: f in Extracted(code, ms) <==> exists i :: 0 <= i < |ms| && FunctionAt(code, ms[i]) == [f]
  {
    CollectMembers(ms, FunctionsFor(code));
    assert forall i :: 0 <= i < |ms| ==> ms[i] in ms;
  }

  /** The functions of consecutive runs of matches come in the same order. */
  lemma ExtractedAppend(code: string, a: seq<SigMatch>, b: seq<SigMatch>)
    requires forall m :: m in a + b ==> InBounds(code, m)
    ensures Extracted(code, a + b) == Extracted(code, a) + Extracted(code, b)
  {
    CollectAppend(a, b, FunctionsFor(code));
  }

  /** A match's functions follow those of the matches before it. */
  lemma ExtractedStep(code: string, ms: seq<SigMatch>, i: nat)
    requires i < |ms| && forall m :: m in ms ==> InBounds(code, m)
    ensures Extracted(code, ms[..i + 1]) == Extracted(code, ms[..i]) + FunctionAt(code, ms[i])
  {
    CollectStep(ms, i, FunctionsFor(code));
    assert ms[i] in ms;
  }

  /** f is the function for match m: named by its capture group, with a body
      that is the text right after the match. */
  predicate TakenFrom(code: string, f: Function, m: SigMatch) {
    && InBounds(code, m) && f.name == code[m.nameStart..m.nameEnd]
    && m.end + |f.body| <= |code| && f.body == code[m.end..m.end + |f.body|]
  }

  /** A body extractBraces accepts: nonempty, ending in `}`, with as many `{`
      as `}`. */
  predicate BalancedBody(body: string) {
    0 < |body| && body[|body| - 1] == '}' && Count(body, '{') == Count(body, '}')
  }

  lemma FunctionAtWellFormed(code: string, m: SigMatch)
    requires InBounds(code, m)
    ensures forall f :: f in FunctionAt(code, m) ==> TakenFrom(code, f, m) && BalancedBody(f.body)
  {
    var s := code[m.end..];
    if BraceBody(s).Some? {
      var body := BraceBody(s).value;
      assert s[..|body|] == code[m.end..m.end + |body|];
      assert Depth(body) == 0;
    }
  }

  /** The brace scan's least closing prefix is the body BraceBody names. */
  lemma BraceBodyOfScan(s: string, body: string)
    requires 0 < |body| <= |s| && body == s[..|body|] && ClosesAt(s, |body|)
    requires forall j :: 0 < j < |body| ==> !ClosesAt(s, j)
    ensures BraceBody(s) == Some(body)
  {
  }

  /** extractFunctions: for each match in order, take the name from capture
      group 1, run the brace scan from the end of the match and keep the
      function if it succeeds. It never reports an error. */
  method ExtractFunctions(code: string, matches: seq<SigMatch>) returns (functions: seq<Function>, err: Option<ParseError>)
    requires forall m :: m in matches ==> InBounds(code, m)
    ensures err == None
    ensures functions == Extracted(code, matches)
  {
    functions := [];
    for i := 0 to |matches|
      invariant functions == Extracted(code, matches[..i])
    {
      var sig := matches[i];
      assert sig in matches;
      ExtractedStep(code, matches, i);
      var funcName := code[sig.nameStart..sig.nameEnd];
      var bodyStart := sig.end;
      var body, e := ExtractBraces(code[bodyStart..]);
      if e.Some? {
        continue;
      }
      BraceBodyOfScan(code[bodyStart..], body);
      functions := functions + [Function(funcName, body)];
      if i + 1 < |matches| && matches[i + 1].start < bodyStart + |body| {
        continue;
      }
    }
    assert matches[..|matches|] == matches;
    return functions, None;
  }

  /** The functions ParseFunctions finds in code: at most one per signature
      match in the sanitized text. */
  function ParsedFunctions(code: string): (r: seq<Function>)
    ensures |r| <= |FindSignatureMatches(RemoveCommentsAndStrings(code), 0)|
  {
    var sanitized := RemoveCommentsAndStrings(code);
    Extracted(sanitized, FindSignatureMatches(sanitized, 0))
  }

  /** ParseFunctions: sanitize, find every signature, extract the bodies. */
  method ParseFunctions(code: string) returns (functions: seq<Function>, err: Option<ParseError>)
    ensures err == None
    ensures functions == ParsedFunctions(code)
  {
    var sanitized := RemoveCommentsAndStrings(code);
    var matches := FindSignatureMatches(sanitized, 0);
    functions, err := ExtractFunctions(sanitized, matches);
  }

  /** What a signature match guarantees about the text around it. */
  predicate SignatureFacts(code: string, m: SigMatch) {
    && m.nameStart <= m.nameEnd < m.end <= |code|
    && IsIdentifier(code[m.nameStart..m.nameEnd]) && code[m.end - 1] == '{'
  }

  lemma SignatureAtFacts(code: string, m: SigMatch)
    requires m.start <= |code| && SignatureAt(code, m.start) == Some(m)
    ensures SignatureFacts(code, m)
  {
  }

  /** The functions extracted for signature matches are named by identifiers,
      and each body starts right after its signature's own `{`, ends in `}` and
      holds as many `{` as `}`. */
  lemma ExtractedWellFormed(code: string, ms: seq<SigMatch>)
    requires forall m :: m in ms ==> InBounds(code, m) && SignatureFacts(code, m)
    ensures forall f :: f in Extracted(code, ms) ==>
      IsIdentifier(f.name) && BalancedBody(f.body) &&
      exists m :: m in ms && SignatureFacts(code, m) && TakenFrom(code, f, m)
  {
    ExtractedMembers(code, ms);
    forall f | f in Extracted(code, ms)
      ensures IsIdentifier(f.name) && BalancedBody(f.body)
      ensures exists m :: m in ms && SignatureFacts(code, m) && TakenFrom(code, f, m)
    {
      var i :| 0 <= i < |ms| && FunctionAt(code, ms[i]) == [f];
      var m := ms[i];
      assert f in FunctionAt(code, m);
      FunctionAtWellFormed(code, m);
    }
  }

  /** Every function ParseFunctions returns comes from a signature match in
      the sanitized text: its name is that match's capture group and an
      identifier, its body starts right after the signature's own `{`, ends in
      `}` and holds as many `{` as `}`. There is at most one per match. */
  lemma ParsedFunctionsWellFormed(code: string)
    ensures var sanitized := RemoveCommentsAndStrings(code);
      var ms := FindSignatureMatches(sanitized, 0);
      && |ParsedFunctions(code)| <= |ms|
      && forall f :: f in ParsedFunctions(code) ==>
        IsIdentifier(f.name) && BalancedBody(f.body) &&
        exists m :: m in ms && SignatureFacts(sanitized, m) && TakenFrom(sanitized, f, m)
  {
    var sanitized := RemoveCommentsAndStrings(code);
    var ms := FindSignatureMatches(sanitized, 0);
    SignatureMatchesLeftmost(sanitized);
    forall m | m in ms ensures InBounds(sanitized, m) && SignatureFacts(sanitized, m) {
      SignatureAtFacts(sanitized, m);
    }
    ExtractedWellFormed(sanitized, ms);
  }

  // ---------------------------------------------------------------------
  // Worked examples

  lemma SignatureOnOneLine()
    ensures SignatureAt("int f(){", 0) == Some(SigMatch(0, 8, 4, 5))
  {
    SignatureAtComplete("int f(){", 0, 3, 4, 4, 4, 5, 5, 6, 8);
  }

  /** `\s` includes the newline, so the type and the name may sit on
      different lines. */
  lemma SignatureAcrossLines()
    ensures SignatureAt("int\nf(){", 0) == Some(SigMatch(0, 8, 4, 5))
  {
    SignatureAtComplete("int\nf(){", 0, 3, 4, 4, 4, 5, 5, 6, 8);
  }

  /** The `*` must follow whitespace: `int* f` is not a return type. */
  lemma PointerTypeWithoutSpaceNotMatched()
    ensures SignatureAt("int* f(){", 0) == None
  {
    var s := "int* f(){";
    RunEndAt(s, 1, 3, IsWordChar);
    RunEndAt(s, 3, 3, IsSpace);
  }

  /** Only one word may precede the name: `static int f` does not match. */
  lemma TwoWordTypeNotMatched()
    ensures SignatureAt("static int f(){", 0) == None
  {
    var s := "static int f(){";
    TwoWordTypeNameStart();
    RunEndAt(s, 8, 10, IsWordChar);
    TwoWordTypeNoParams();
  }

  /** In `static int f(){` the name group would have to be `int`. */
  lemma TwoWordTypeNameStart()
    ensures NameStart("static int f(){", 0) == Some(7)
  {
    var s := "static int f(){";
    RunEndAt(s, 1, 6, IsWordChar);
    RunEndAt(s, 6, 7, IsSpace);
    RunEndAt(s, 7, 7, IsStar);
    RunEndAt(s, 7, 7, IsSpace);
  }

  /** After `int`, the next character is not `(`. */
  lemma TwoWordTypeNoParams()
    ensures ParamsEnd("static int f(){", 10) == None
  {
    RunEndAt("static int f(){", 10, 11, IsSpace);
  }

  /** The scan after `f() {` stops at the `}` of the nested block. */
  lemma NestedBlockEndsBody()
    ensures BraceBody(" a; { b; } c; }") == Some(" a; { b; }")
  {
    var s := " a; { b; } c; }";
    assert s[..10] == " a; { b; }";
    assert Count(" a; { b; }", '{') == 1;
    assert Count(" a; { b; }", '}') == 1;
    BraceBodyOfScan(s, " a; { b; }");
  }

  /** The count goes to -1 at the only `}` and never comes back to zero. */
  lemma NegativeCountNoBody()
    ensures BraceBody(" x; }") == None
  {
    assert Count(" x; }", '}') == 1;
  }

  lemma ParsedFunctionsOf(code: string, ms: seq<SigMatch>)
    requires RemoveCommentsAndStrings(code) == code && FindSignatureMatches(code, 0) == ms
    ensures ParsedFunctions(code) == Extracted(code, ms)
  {
  }

  lemma FlatFunctionSignature()
    ensures SignatureAt("int f(){}", 0) == Some(SigMatch(0, 8, 4, 5))
  {
    SignatureAtComplete("int f(){}", 0, 3, 4, 4, 4, 5, 5, 6, 8);
  }

  lemma FlatFunctionScan()
    ensures FindSignatureMatches("int f(){}", 0) == [SigMatch(0, 8, 4, 5)]
  {
    var s := "int f(){}";
    FlatFunctionSignature();
    ScanStep(SignatureMatcher(s), |s|, 0);
    ScanStep(SignatureMatcher(s), |s|, 8);
  }

  lemma FlatFunctionPlain()
    ensures RemoveCommentsAndStrings("int f(){}") == "int f(){}"
  {
    var s := "int f(){}";
    assert IsPlain(s) by {
      forall k | 0 <= k < |s| ensures s[k] != '"' && s[k] != '\'' && s[k] != '/' {
      }
    }
    PlainTextUnchanged(s);
  }

  lemma FlatFunctionBodyRejected()
    ensures FunctionAt("int f(){}", SigMatch(0, 8, 4, 5)) == []
  {
    assert "int f(){}"[8..] == "}";
    NoNestedBraceNoBody("}");
  }

  /** A function whose body has no nested block, and after which no `}`
      brings the count back to zero, yields nothing, because the scan starts
      after the signature's own `{`. */
  lemma FlatFunctionDropped()
    ensures ParsedFunctions("int f(){}") == []
  {
    FlatFunctionPlain();
    FlatFunctionScan();
    ParsedFunctionsOf("int f(){}", [SigMatch(0, 8, 4, 5)]);
    FlatFunctionBodyRejected();
    assert [SigMatch(0, 8, 4, 5)][..0] == [];
  }

  /** When a later `}` brings the count back to zero, a function with no
      nested block is kept, and its body runs on into the code after it: in
      `int f(){}\nint g(){{}}` the scan for `f` starts at `}\nint g(){{}}`, its
      count goes -1, 0, 1, 0, and `f`'s body ends inside `g`. */
  lemma FlatFunctionRunsIntoNext()
    ensures BraceBody("}\nint g(){{}}") == Some("}\nint g(){{}")
  {
    var s, body := "}\nint g(){{}}", "}\nint g(){{}";
    RunIntoNextCloses();
    assert s[..12] == body;
    BraceBodyOfScan(s, body);
  }

  /** Only the first `}` and the `}` of `g`'s inner block come before the end,
      and the first leaves the count at -1. */
  lemma RunIntoNextCloses()
    ensures ClosesAt("}\nint g(){{}}", 12)
    ensures forall j :: 0 < j < 12 ==> !ClosesAt("}\nint g(){{}}", j)
  {
    var s := "}\nint g(){{}}";
    RunIntoNextCounts();
    forall j | 0 < j < 12 ensures !ClosesAt(s, j) {
      if j != 1 {
        assert s[j - 1] != '}';
      }
    }
  }

  /** The running brace count of `}\nint g(){{}}` is -1 after its first
      character and 0 after its twelfth. */
  lemma RunIntoNextCounts()
    ensures Depth("}\nint g(){{}}"[..12]) == 0 && Depth("}\nint g(){{}}"[..1]) == -1
  {
    var mid := "\nint g()";
    RunIntoNextPieces();
    MidCounts();
    TailCounts();
    CountAppend(mid, "{{}", '{');
    CountAppend(mid, "{{}", '}');
    CountAppend("}", mid + "{{}", '{');
    CountAppend("}", mid + "{{}", '}');
  }

  /** The two prefixes of `}\nint g(){{}}` that RunIntoNextCounts counts,
      cut into pieces whose counts are known. */
  lemma RunIntoNextPieces()
    ensures "}\nint g(){{}}"[..12] == "}" + ("\nint g()" + "{{}")
    ensures "}\nint g(){{}}"[..1] == "}"
  {
  }

  /** The text between the first `}` and `g`'s `{` holds no brace. */
  lemma MidCounts()
    ensures Count("\nint g()", '{') == 0 && Count("\nint g()", '}') == 0
  {
    CountAbsent("\nint g()", '{');
    CountAbsent("\nint g()", '}');
  }

  lemma NestedFunctionSignature()
    ensures SignatureAt("int f(){{}}", 0) == Some(SigMatch(0, 8, 4, 5))
  {
    SignatureAtComplete("int f(){{}}", 0, 3, 4, 4, 4, 5, 5, 6, 8);
  }

  lemma NestedFunctionScan()
    ensures FindSignatureMatches("int f(){{}}", 0) == [SigMatch(0, 8, 4, 5)]
  {
    var s := "int f(){{}}";
    NestedFunctionSignature();
    ScanStep(SignatureMatcher(s), |s|, 0);
    ScanStep(SignatureMatcher(s), |s|, 8);
    ScanStep(SignatureMatcher(s), |s|, 9);
    ScanStep(SignatureMatcher(s), |s|, 10);
  }

  lemma NestedFunctionBody()
    ensures FunctionAt("int f(){{}}", SigMatch(0, 8, 4, 5)) == [Function("f", "{}")]
  {
    var s := "int f(){{}}";
    assert s[8..] == "{}}";
    assert "{}}"[..2] == "{}";
    assert Count("{}", '{') == 1 && Count("{}", '}') == 1;
    BraceBodyOfScan("{}}", "{}");
    assert s[4..5] == "f";
  }

  /** With a nested block the function is kept; its body runs from after the
      signature's `{` to the `}` closing the nested block. */
  lemma NestedFunctionKept()
    ensures ParsedFunctions("int f(){{}}") == [Function("f", "{}")]
  {
    PlainTextUnchanged("int f(){{}}");
    NestedFunctionScan();
    ParsedFunctionsOf("int f(){{}}", [SigMatch(0, 8, 4, 5)]);
    NestedFunctionBody();
    assert [SigMatch(0, 8, 4, 5)][..0] == [];
  }

  /** `g`'s signature lies inside `f`'s body, which runs from after `f`'s `{`
      to the `}` matching `g`'s own `{`. The check that compares the next match
      with the end of the body does not skip `g`: both functions are kept, in
      match order. */
  lemma SignatureInsideBodyKept()
    ensures ParsedFunctions("a f(){\na g(){{}}") == [Function("f", "\na g(){{}}"), Function("g", "{}")]
  {
    InsideBodyPlain();
    InsideBodyScan();
    InsideBodyOuter();
    InsideBodyInner();
    TwoFunctionsParsed("a f(){\na g(){{}}", SigMatch(0, 6, 2, 3), SigMatch(7, 13, 9, 10),
      Function("f", "\na g(){{}}"), Function("g", "{}"));
  }

  lemma TwoFunctionsParsed(s: string, mf: SigMatch, mg: SigMatch, f: Function, g: Function)
    requires RemoveCommentsAndStrings(s) == s && FindSignatureMatches(s, 0) == [mf, mg]
    requires InBounds(s, mf) && InBounds(s, mg)
    requires FunctionAt(s, mf) == [f] && FunctionAt(s, mg) == [g]
    ensures ParsedFunctions(s) == [f, g]
  {
    ParsedFunctionsOf(s, [mf, mg]);
    TwoExtracted(s, mf, mg, f, g);
  }

  lemma TwoExtracted(s: string, mf: SigMatch, mg: SigMatch, f: Function, g: Function)
    requires InBounds(s, mf) && InBounds(s, mg)
    requires FunctionAt(s, mf) == [f] && FunctionAt(s, mg) == [g]
    ensures Extracted(s, [mf, mg]) == [f, g]
  {
    var ms := [mf, mg];
    assert ms[..0] == [] && ms[..2] == ms;
    ExtractedStep(s, ms, 0);
    ExtractedStep(s, ms, 1);
  }

  lemma InsideBodyPlain()
    ensures RemoveCommentsAndStrings("a f(){\na g(){{}}") == "a f(){\na g(){{}}"
  {
    var s := "a f(){\na g(){{}}";
    assert IsPlain(s) by {
      forall k | 0 <= k < |s| ensures s[k] != '"' && s[k] != '\'' && s[k] != '/' {
      }
    }
    PlainTextUnchanged(s);
  }

  lemma InsideBodyFirstSignature()
    ensures SignatureAt("a f(){\na g(){{}}", 0) == Some(SigMatch(0, 6, 2, 3))
  {
    SignatureAtComplete("a f(){\na g(){{}}", 0, 1, 2, 2, 2, 3, 3, 4, 6);
  }

  lemma InsideBodySecondSignature()
    ensures SignatureAt("a f(){\na g(){{}}", 7) == Some(SigMatch(7, 13, 9, 10))
  {
    SignatureAtComplete("a f(){\na g(){{}}", 7, 8, 9, 9, 9, 10, 10, 11, 13);
  }

  lemma InsideBodyScan()
    ensures FindSignatureMatches("a f(){\na g(){{}}", 0) == [SigMatch(0, 6, 2, 3), SigMatch(7, 13, 9, 10)]
  {
    var s := "a f(){\na g(){{}}";
    var at := SignatureMatcher(s);
    InsideBodyFirstSignature();
    InsideBodyScanTail();
    ScanStep(at, |s|, 0);
  }

  /** From the end of `f`'s signature the scan finds `g` alone. */
  lemma InsideBodyScanTail()
    ensures ScanMatches(SignatureMatcher("a f(){\na g(){{}}"), 16, 6) == [SigMatch(7, 13, 9, 10)]
  {
    var s := "a f(){\na g(){{}}";
    var at := SignatureMatcher(s);
    InsideBodySecondSignature();
    InsideBodyScanEnd();
    ScanStep(at, |s|, 6);
    ScanStep(at, |s|, 7);
  }

  /** After `g`'s signature no line starts, so nothing more matches. */
  lemma InsideBodyScanEnd()
    ensures ScanMatches(SignatureMatcher("a f(){\na g(){{}}"), 16, 13) == []
  {
    var s := "a f(){\na g(){{}}";
    var at := SignatureMatcher(s);
    ScanStep(at, |s|, 13);
    ScanStep(at, |s|, 14);
    ScanStep(at, |s|, 15);
  }

  lemma InsideBodyOuter()
    ensures FunctionAt("a f(){\na g(){{}}", SigMatch(0, 6, 2, 3)) == [Function("f", "\na g(){{}}")]
  {
    var body := "\na g(){{}}";
    InsideBodySlices();
    OuterBodyCloses();
    BraceBodyOfScan(body, body);
  }

  /** The slices of `a f(){\na g(){{}}` that the extraction of `f` takes:
      the text after its signature and its name. */
  lemma InsideBodySlices()
    ensures "a f(){\na g(){{}}"[6..] == "\na g(){{}}"
    ensures "a f(){\na g(){{}}"[2..3] == "f"
    ensures "\na g(){{}}"[..10] == "\na g(){{}}"
  {
  }

  /** The only `}` before the last leaves the count at 1. */
  lemma OuterBodyCloses()
    ensures ClosesAt("\na g(){{}}", 10)
    ensures forall j :: 0 < j < 10 ==> !ClosesAt("\na g(){{}}", j)
  {
    var body := "\na g(){{}}";
    OuterBodyCounts();
    assert body[..10] == body;
    forall j | 0 < j < 10 ensures !ClosesAt(body, j) {
      if j != 9 {
        assert body[j - 1] != '}';
      }
    }
  }

  /** The running brace count of `f`'s body is 1 before its last `}` and 0
      after it. */
  lemma OuterBodyCounts()
    ensures Depth("\na g(){{}}") == 0 && Depth("\na g(){{}}"[..9]) == 1
  {
    var head := "\na g()";
    HeadCounts();
    TailCounts();
    assert "\na g(){{}}" == head + "{{}}";
    assert "\na g(){{}}"[..9] == head + "{{}";
    CountAppend(head, "{{}}", '{');
    CountAppend(head, "{{}}", '}');
    CountAppend(head, "{{}", '{');
    CountAppend(head, "{{}", '}');
  }

  /** The text between `f`'s `{` and `g`'s `{` holds no brace. */
  lemma HeadCounts()
    ensures Count("\na g()", '{') == 0 && Count("\na g()", '}') == 0
  {
    CountAbsent("\na g()", '{');
    CountAbsent("\na g()", '}');
  }

  /** The brace counts of the closing runs `{{}}` and `{{}`. */
  lemma TailCounts()
    ensures Count("{{}}", '{') == 2 && Count("{{}}", '}') == 2
    ensures Count("{{}", '{') == 2 && Count("{{}", '}') == 1
  {
  }

  lemma InsideBodyInner()
    ensures FunctionAt("a f(){\na g(){{}}", SigMatch(7, 13, 9, 10)) == [Function("g", "{}")]
  {
    var s := "a f(){\na g(){{}}";
    assert s[13..] == "{}}";
    assert "{}}"[..2] == "{}";
    assert Count("{}", '{') == 1 && Count("{}", '}') == 1;
    BraceBodyOfScan("{}}", "{}");
    assert s[9..10] == "g";
  }
}
