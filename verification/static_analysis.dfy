/** `run_static_analysis` as the source writes it, a loop over the lines and a
    loop that drains the frame stack, with the guarantees a caller relies on. */
module StaticAnalysis {
  import opened Registry
  import opened Diagnostics
  import opened Linter
  import opened AnalysisProperties

  /** `run_static_analysis` against the built-in registry: every diagnostic is
      well-formed, and the unclosed-scope errors are one per frame left open. */
  function Lint(lines: seq<string>): (r: seq<Diagnostic>)
    ensures DiagsOk(r, EndLine(lines))
    ensures UnclosedReport(WithCode(r, ScopeUnclosed), Run(Ck3Registry(), lines, |lines|).stack)
  {
    AnalyzeWellFormed(Ck3Registry(), lines);
    AnalyzeUnclosed(Ck3Registry(), lines);
    Analyze(Ck3Registry(), lines)
  }

  /** The two loops of `run_static_analysis`. The result is the analysis of the
      lines; every diagnostic lies within the script, has columns of at least 1,
      never runs backwards and has its code's severity; the unclosed-scope errors
      are exactly one per frame still open after the last line, innermost first;
      and there are none exactly when every scope was closed. */
  method RunStaticAnalysis(reg: Registry, lines: seq<string>) returns (diags: seq<Diagnostic>)
    ensures diags == Analyze(reg, lines)
    ensures DiagsOk(diags, EndLine(lines))
    ensures UnclosedReport(WithCode(diags, ScopeUnclosed), Run(reg, lines, |lines|).stack)
    ensures Count(diags, ScopeUnclosed) == 0 <==> |Run(reg, lines, |lines|).stack| == 0
  {
    var stack, found := ScanLines(reg, lines);
    diags := DrainFrames(reg, stack, found, EndLine(lines));
    AnalyzeWellFormed(reg, lines);
    AnalyzeUnclosed(reg, lines);
    UnclosedIffOpenAtEnd(reg, lines);
  }

  /** The per-line loop: the frames it leaves open were opened in order on lines
      of the script, and the diagnostics it emits are well-formed and never an
      unclosed-scope error. */
  method ScanLines(reg: Registry, lines: seq<string>) returns (stack: seq<Frame>, diags: seq<Diagnostic>)
    ensures State(stack, diags) == Run(reg, lines, |lines|)
    ensures Good(reg, State(stack, diags), |lines|)
    ensures Count(diags, ScopeUnclosed) == 0
  {
    var st := State([], []);
    for i := 0 to |lines|
      invariant st == Run(reg, lines, i)
      invariant Good(reg, st, i) && NoUnclosed(st)
    {
      StepKeepsGood(reg, st, i + 1, lines[i]);
      StepKeepsNoUnclosed(reg, st, i + 1, lines[i]);
      st := Step(reg, st, i + 1, lines[i]);
    }
    stack, diags := st.stack, st.diags;
  }

  /** The end-of-input loop: pops the remaining frames, innermost first,
      appending each one's unclosed-scope error and missing required fields. */
  method DrainFrames(reg: Registry, frames: seq<Frame>, prior: seq<Diagnostic>, endLine: int)
    returns (diags: seq<Diagnostic>)
    ensures diags == prior + Finish(reg, frames, endLine)
  {
    var stack := frames;
    diags := prior;
    while |stack| > 0
      invariant diags + Finish(reg, stack, endLine) == prior + Finish(reg, frames, endLine)
    {
      var frame := stack[|stack| - 1];
      var popped := [UnclosedDiag(frame)] + RequiredFieldDiags(reg, frame, endLine);
      assert Finish(reg, stack, endLine) == popped + Finish(reg, stack[..|stack| - 1], endLine);
      stack := stack[..|stack| - 1];
      diags := diags + popped;
    }
  }
}
