/** The report aggregation of internal/report/report.go: per-file complexity
    and the three totals over a list of file analyses. */
module Report {
  import opened Analyzer
  import opened Seqs

  datatype FileReport = FileReport(filePath: string, functions: seq<FunctionAnalysis>, fileComplexity: int)

  datatype Report = Report(totalFiles: int, totalFunctions: int, totalComplexity: int, files: seq<FileReport>)

  /** The sum of f over xs, added up from the front as the loops of
      buildReport do. */
  function Sum<T>(xs: seq<T>, f: T -> int): int {
    if xs == [] then 0 else Sum(xs[..|xs| - 1], f) + f(xs[|xs| - 1])
  }

  function CyclomaticOf(fn: FunctionAnalysis): int {
    fn.cyclomatic
  }

  function FunctionCountOf(fa: FileAnalysis): int {
    |fa.functions|
  }

  /** The complexity of a file: the sum over its functions. */
  function FileCyclomaticOf(fa: FileAnalysis): int {
    Sum(fa.functions, CyclomaticOf)
  }

  function FileComplexityOf(fr: FileReport): int {
    fr.fileComplexity
  }

  /** Every function of every file, file by file. */
  function AllFunctions(analyses: seq<FileAnalysis>): seq<FunctionAnalysis> {
    if analyses == [] then []
    else AllFunctions(analyses[..|analyses| - 1]) + analyses[|analyses| - 1].functions
  }

  lemma SumStep<T>(xs: seq<T>, j: nat, f: T -> int)
    requires j < |xs|
    ensures Sum(xs[..j + 1], f) == Sum(xs[..j], f) + f(xs[j])
  {
    assert xs[..j + 1][..j] == xs[..j];
  }

  lemma {:induction false} SumAppend<T>(xs: seq<T>, ys: seq<T>, f: T -> int)
    ensures Sum(xs + ys, f) == Sum(xs, f) + Sum(ys, f)
    decreases |ys|
  {
    if ys == [] {
      assert xs + ys == xs;
    } else {
      var init := ys[..|ys| - 1];
      InitOfAppend(xs, ys);
      SumAppend(xs, init, f);
    }
  }

  /** Taking the term at i out of the sum. */
  lemma SumRemove<T>(ys: seq<T>, i: nat, f: T -> int)
    requires i < |ys|
    ensures Sum(ys, f) == Sum(ys[..i] + ys[i + 1..], f) + f(ys[i])
  {
    var front, y, back := ys[..i], ys[i], ys[i + 1..];
    assert ys == front + ys[i..];
    assert ys[i..] == [y] + back;
    SumAppend(front, ys[i..], f);
    SumAppend([y], back, f);
    SumAppend(front, back, f);
    SumSingleton(y, f);
  }

  lemma SumSingleton<T>(y: T, f: T -> int)
    ensures Sum([y], f) == f(y)
  {
    assert [y][..0] == [];
  }

  /** Taking the element at i out of the multiset. */
  lemma MultisetRemove<T>(ys: seq<T>, i: nat)
    requires i < |ys|
    ensures multiset(ys[..i] + ys[i + 1..]) == multiset(ys) - multiset{ys[i]}
  {
    assert ys == ys[..i] + ([ys[i]] + ys[i + 1..]);
  }

  /** A sum does not depend on the order of its terms. */
  lemma {:induction false} SumPermutation<T>(xs: seq<T>, ys: seq<T>, f: T -> int)
    requires multiset(xs) == multiset(ys)
    ensures Sum(xs, f) == Sum(ys, f)
    decreases |xs|
  {
    if xs != [] {
      var x, init := xs[|xs| - 1], xs[..|xs| - 1];
      assert xs == init + [x];
      assert x in multiset(ys);
      var i :| 0 <= i < |ys| && ys[i] == x;
      var rest := ys[..i] + ys[i + 1..];
      MultisetRemove(ys, i);
      assert multiset(init) == multiset(rest);
      SumPermutation(init, rest, f);
      SumRemove(ys, i, f);
    } else {
      assert |ys| == |multiset(ys)| == 0;
    }
  }

  /** The total complexity is the sum of every function's complexity. */
  lemma {:induction false} TotalIsSumOverAllFunctions(analyses: seq<FileAnalysis>)
    ensures Sum(analyses, FileCyclomaticOf) == Sum(AllFunctions(analyses), CyclomaticOf)
    ensures Sum(analyses, FunctionCountOf) == |AllFunctions(analyses)|
  {
    if analyses != [] {
      var init := analyses[..|analyses| - 1];
      TotalIsSumOverAllFunctions(init);
      SumAppend(AllFunctions(init), analyses[|analyses| - 1].functions, CyclomaticOf);
    }
  }

  /** The totals do not depend on the order of the file analyses, which the
      caller collects in whatever order its workers finish. */
  lemma TotalsPermutationInvariant(a: seq<FileAnalysis>, b: seq<FileAnalysis>)
    requires multiset(a) == multiset(b)
    ensures |a| == |b|
    ensures Sum(a, FunctionCountOf) == Sum(b, FunctionCountOf)
    ensures Sum(a, FileCyclomaticOf) == Sum(b, FileCyclomaticOf)
  {
    assert |a| == |multiset(a)| == |multiset(b)| == |b|;
    SumPermutation(a, b, FunctionCountOf);
    SumPermutation(a, b, FileCyclomaticOf);
  }

  /** Every element scoring at least 1, the sum is at least the length. */
  lemma {:induction false} SumAtLeastLength<T>(xs: seq<T>, f: T -> int)
    ensures (forall i :: 0 <= i < |xs| ==> f(xs[i]) >= 1) ==> Sum(xs, f) >= |xs|
  {
    if xs != [] && forall i :: 0 <= i < |xs| ==> f(xs[i]) >= 1 {
      var init := xs[..|xs| - 1];
      assert forall i :: 0 <= i < |init| ==> init[i] == xs[i];
      SumAtLeastLength(init, f);
    }
  }

  /** The file report buildReport makes for one analysis: path and functions
      copied, complexity the sum of the function scores. A file without
      functions scores 0, and one whose functions all score at least 1 (as
      every analysed function does) scores at least its function count. */
  function FileReportOf(fa: FileAnalysis): (r: FileReport)
    ensures r.filePath == fa.filePath && r.functions == fa.functions
    ensures r.fileComplexity == Sum(fa.functions, CyclomaticOf)
    ensures fa.functions == [] ==> r.fileComplexity == 0
    ensures (forall i :: 0 <= i < |fa.functions| ==> fa.functions[i].cyclomatic >= 1) ==>
      r.fileComplexity >= |fa.functions|
  {
    SumAtLeastLength(fa.functions, CyclomaticOf);
    FileReport(fa.filePath, fa.functions, FileCyclomaticOf(fa))
  }

  /** buildReport: one file report per analysis, in order, with its functions
      copied one by one and its complexity summed; the totals count files,
      functions and complexity over all of them. */
  method BuildReport(analyses: seq<FileAnalysis>) returns (report: Report)
    ensures report.totalFiles == |analyses| == |report.files|
    ensures forall i :: 0 <= i < |analyses| ==>
      && report.files[i].filePath == analyses[i].filePath
      && report.files[i].functions == analyses[i].functions
      && report.files[i].fileComplexity == FileCyclomaticOf(analyses[i])
    ensures report.totalFunctions == Sum(analyses, FunctionCountOf)
    ensures report.totalComplexity == Sum(analyses, FileCyclomaticOf)
    ensures report.totalComplexity == Sum(report.files, FileComplexityOf)
  {
    report := Report(|analyses|, 0, 0, []);
    for i := 0 to |analyses|
      invariant report.totalFiles == |analyses| && |report.files| == i
      invariant forall k :: 0 <= k < i ==> report.files[k] == FileReportOf(analyses[k])
      invariant report.totalFunctions == Sum(analyses[..i], FunctionCountOf)
      invariant report.totalComplexity == Sum(analyses[..i], FileCyclomaticOf)
      invariant report.totalComplexity == Sum(report.files, FileComplexityOf)
    {
      var fa := analyses[i];
      var fileReport := FileReport(fa.filePath, [], 0);
      ghost var before := report;
      for j := 0 to |fa.functions|
        invariant fileReport.filePath == fa.filePath
        invariant fileReport.functions == fa.functions[..j]
        invariant fileReport.fileComplexity == Sum(fa.functions[..j], CyclomaticOf)
        invariant report.totalFiles == before.totalFiles && report.files == before.files
        invariant report.totalFunctions == before.totalFunctions + j
        invariant report.totalComplexity == before.totalComplexity + fileReport.fileComplexity
      {
        var fn := fa.functions[j];
        SumStep(fa.functions, j, CyclomaticOf);
        assert fa.functions[..j + 1] == fa.functions[..j] + [fn];
        fileReport := fileReport.(functions := fileReport.functions + [fn]);
        report := report.(totalFunctions := report.totalFunctions + 1);
        report := report.(totalComplexity := report.totalComplexity + fn.cyclomatic);
        fileReport := fileReport.(fileComplexity := fileReport.fileComplexity + fn.cyclomatic);
      }
      assert fa.functions[..|fa.functions|] == fa.functions;
      assert fileReport == FileReportOf(fa);
      SumStep(analyses, i, FunctionCountOf);
      SumStep(analyses, i, FileCyclomaticOf);
      var files := report.files + [fileReport];
      assert files[..i] == report.files && files[i] == FileReportOf(analyses[i]);
      assert forall k :: 0 <= k < i + 1 ==> files[k] == FileReportOf(analyses[k]);
      SumStep(files, i, FileComplexityOf);
      assert files[..i + 1] == files;
      report := report.(files := files);
    }
    assert analyses[..|analyses|] == analyses;
  }
}
