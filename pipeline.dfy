/** The per-file step of cmd/analyzer/main.go, done sequentially: read a
    file, parse its functions, score each one, and collect the file analyses.
    Reading is a parameter here: the content of a file, or None when reading
    it failed. */
module Pipeline {
  import opened Wrappers
  import opened Chars
  import opened Analyzer
  import opened Parser

  /** A file to analyse: its path and what reading it gave. */
  datatype SourceFile = SourceFile(path: string, content: Option<string>)

  /** The analysis of one function of every function parsed from code. */
  function FunctionAnalysesOf(code: string): (r: seq<FunctionAnalysis>)
    ensures |r| == |ParsedFunctions(code)|
  {
    var fs := ParsedFunctions(code);
    seq(|fs|, i requires 0 <= i < |fs| => AnalysisOf(fs[i]))
  }

  /** The analyses the workers produce for files, in input order: a file that
      cannot be read is skipped. */
  function FileAnalysesOf(files: seq<SourceFile>): (r: seq<FileAnalysis>)
    ensures |r| <= |files|
    ensures (forall i :: 0 <= i < |files| ==> files[i].content.Some?) ==> |r| == |files|
  {
    if files == [] then []
    else
      var last := files[|files| - 1];
      FileAnalysesOf(files[..|files| - 1]) +
        (match last.content
         case None => []
         case Some(code) => [FileAnalysis(last.path, FunctionAnalysesOf(code))])
  }

  /** The worker's step for one file: a read failure skips the file; otherwise
      ParseFunctions, then AnalyzeFunctions on the parsed functions. */
  method AnalyzeFile(file: SourceFile) returns (result: Option<FileAnalysis>)
    ensures result.None? <==> file.content.None?
    ensures result.Some? ==> result.value == FileAnalysis(file.path, FunctionAnalysesOf(file.content.value))
  {
    if file.content.None? {
      return None;
    }
    var parsed, err := ParseFunctions(file.content.value);
    if err.Some? {
      return None;
    }
    var analyses := AnalyzeFunctions(parsed);
    assert forall i :: 0 <= i < |analyses| ==> analyses[i] == AnalysisOf(parsed[i]);
    return Some(FileAnalysis(file.path, analyses));
  }

  /** The analyses of one more file extend those of the files before it. */
  lemma FileAnalysesOfStep(files: seq<SourceFile>, i: nat)
    requires i < |files|
    ensures FileAnalysesOf(files[..i + 1]) == FileAnalysesOf(files[..i]) +
      (if files[i].content.None? then [] else [FileAnalysis(files[i].path, FunctionAnalysesOf(files[i].content.value))])
  {
    assert files[..i + 1][..i] == files[..i];
  }

  /** Every file, one after another, collecting the analyses of the files
      that could be read. */
  method AnalyzeFiles(files: seq<SourceFile>) returns (analyses: seq<FileAnalysis>)
    ensures analyses == FileAnalysesOf(files)
  {
    analyses := [];
    for i := 0 to |files|
      invariant analyses == FileAnalysesOf(files[..i])
    {
      var result := AnalyzeFile(files[i]);
      FileAnalysesOfStep(files, i);
      if result.Some? {
        analyses := analyses + [result.value];
      }
    }
    assert files[..|files|] == files;
  }

  /** Every function analysis the pipeline reports names a C identifier and
      scores one more than its decision points, so at least 1. */
  lemma FunctionAnalysesWellFormed(code: string)
    ensures forall a :: a in FunctionAnalysesOf(code) ==>
      IsIdentifier(a.name) && a.cyclomatic == |a.decisionPoints| + 1 && a.cyclomatic >= 1
  {
    ParsedFunctionsWellFormed(code);
    var fs := ParsedFunctions(code);
    forall a | a in FunctionAnalysesOf(code)
      ensures IsIdentifier(a.name) && a.cyclomatic == |a.decisionPoints| + 1
    {
      var i :| 0 <= i < |fs| && FunctionAnalysesOf(code)[i] == a;
      assert fs[i] in fs;
    }
  }

  /** One analysis per readable file, in input order and with its path. */
  lemma {:induction false} FileAnalysesOfReadable(files: seq<SourceFile>)
    ensures |FileAnalysesOf(files)| <= |files|
    ensures forall a :: a in FileAnalysesOf(files) ==>
      exists f :: f in files && f.content.Some? && a == FileAnalysis(f.path, FunctionAnalysesOf(f.content.value))
  {
    if files != [] {
      var init := files[..|files| - 1];
      FileAnalysesOfReadable(init);
      assert forall f :: f in init ==> f in files;
      assert files[|files| - 1] in files;
    }
  }
}
