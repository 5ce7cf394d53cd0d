/** Properties of a whole analysis: invariants of the frame stack, the shape of
    every diagnostic, and what the end-of-input report contains. */
module AnalysisProperties {
  import opened Text
  import opened Registry
  import opened Diagnostics
  import opened LineSyntax
  import opened Linter
  import opened LinterProperties

  /** The open frames after `k` lines: each opened on a line in `1..k`, inner
      frames opened strictly later than outer ones, and each having seen only
      fields its scope declares. */
  predicate FramesOk(reg: Registry, stack: seq<Frame>, k: int) {
    && (forall i :: 0 <= i < |stack| ==> 1 <= stack[i].startLine <= k)
    && (forall i, j :: 0 <= i < j < |stack| ==> stack[i].startLine < stack[j].startLine)
    && (forall i :: 0 <= i < |stack| ==> stack[i].seen <= FieldNames(reg, stack[i].name))
  }

  /** A diagnostic whose range starts at line 1 or later, ends no later than
      line `last`, never runs backwards, has columns of at least 1, and carries
      the severity its code prescribes. */
  predicate DiagOk(d: Diagnostic, last: int) {
    && 1 <= d.startLine <= d.endLine <= last
    && d.startColumn >= 1 && d.endColumn >= 1
    && (d.startLine == d.endLine ==> d.startColumn <= d.endColumn)
    && d.severity == SeverityOf(d.code)
  }

  predicate DiagsOk(ds: seq<Diagnostic>, last: int) {
    forall i :: 0 <= i < |ds| ==> DiagOk(ds[i], last)
  }

  lemma DiagsOkAppend(a: seq<Diagnostic>, b: seq<Diagnostic>, last: int)
    requires DiagsOk(a, last) && DiagsOk(b, last)
    ensures DiagsOk(a + b, last)
  {
    forall i | 0 <= i < |a + b|
      ensures DiagOk((a + b)[i], last)
    {
      if i >= |a| {
        assert (a + b)[i] == b[i - |a|];
      }
    }
  }

  /** The reports for a closing frame are well-formed up to the closing line. */
  lemma RequiredDiagsOk(reg: Registry, frame: Frame, endLine: int)
    requires 1 <= frame.startLine <= endLine
    ensures DiagsOk(RequiredFieldDiags(reg, frame, endLine), endLine)
  {
    RequiredFieldDiagsSpec(reg, frame, endLine);
  }

  /** Line `n` keeps the frame invariant and adds only well-formed diagnostics
      ending on line `n`. */
  lemma ApplyKeepsInvariant(reg: Registry, st: State, n: int, raw: string, kind: LineKind)
    requires n >= 1
    requires FramesOk(reg, st.stack, n - 1) && DiagsOk(st.diags, n - 1)
    ensures var r := Apply(reg, st, n, raw, kind);
      FramesOk(reg, r.stack, n) && DiagsOk(r.diags, n)
  {
    var r := Apply(reg, st, n, raw, kind);
    var added := ApplyDiagsOk(reg, st, n, raw, kind);
    assert DiagsOk(st.diags, n);
    DiagsOkAppend(st.diags, added, n);
    ApplyFramesOk(reg, st, n, raw, kind);
  }

  /** The diagnostics line `n` appends are well-formed and end on line `n`. */
  lemma ApplyDiagsOk(reg: Registry, st: State, n: int, raw: string, kind: LineKind) returns (added: seq<Diagnostic>)
    requires n >= 1
    requires forall i :: 0 <= i < |st.stack| ==> 1 <= st.stack[i].startLine <= n
    ensures Apply(reg, st, n, raw, kind).diags == st.diags + added
    ensures DiagsOk(added, n)
  {
    added := ApplyAdded(reg, st, n, raw, kind);
    if |st.stack| > 0 {
      assert 1 <= st.stack[|st.stack| - 1].startLine <= n;
    }
  }

  /** Line `n` keeps the frame invariant. */
  lemma ApplyFramesOk(reg: Registry, st: State, n: int, raw: string, kind: LineKind)
    requires n >= 1
    requires FramesOk(reg, st.stack, n - 1)
    ensures FramesOk(reg, Apply(reg, st, n, raw, kind).stack, n)
  {
    var d := |st.stack|;
    FramesOkLater(reg, st.stack, n - 1);
    match kind {
      case Close =>
        if d > 0 {
          FramesOkPrefix(reg, st.stack, d - 1, n);
        }
      case OpenScope(key) =>
        if d > 0 {
          NoteFieldFramesOk(reg, st.stack, key, n, raw);
          PushFramesOk(reg, NoteField(reg, st.stack, key, n, raw).0, key, n);
        }
      case Assign(key, _) =>
        if d > 0 {
          NoteFieldFramesOk(reg, st.stack, key, n, raw);
          FramesOkLater(reg, NoteField(reg, st.stack, key, n, raw).0, n - 1);
        }
      case _ =>
    }
  }

  lemma FramesOkLater(reg: Registry, stack: seq<Frame>, k: int)
    requires FramesOk(reg, stack, k)
    ensures FramesOk(reg, stack, k + 1)
  {
  }

  lemma FramesOkPrefix(reg: Registry, stack: seq<Frame>, m: nat, k: int)
    requires m <= |stack| && FramesOk(reg, stack, k)
    ensures FramesOk(reg, stack[..m], k)
  {
  }

  /** Recording a declared field keeps the frames, each within its own scope's
      fields. */
  lemma NoteFieldFramesOk(reg: Registry, stack: seq<Frame>, key: string, n: int, raw: string)
    requires |stack| > 0 && FramesOk(reg, stack, n - 1)
    ensures FramesOk(reg, NoteField(reg, stack, key, n, raw).0, n - 1)
  {
    if FindField(reg, stack[|stack| - 1].name, key).Some? {
      MarkSeenFrames(stack, key);
    }
  }

  /** A frame opened on line `n` goes on top of frames opened before it. */
  lemma PushFramesOk(reg: Registry, stack: seq<Frame>, key: string, n: int)
    requires n >= 1 && FramesOk(reg, stack, n - 1)
    ensures FramesOk(reg, stack + [Frame(key, n, {})], n)
  {
  }

  /** The state after `k` lines: frames as `FramesOk` requires, diagnostics
      well-formed up to line `k`. */
  predicate Good(reg: Registry, st: State, k: int) {
    FramesOk(reg, st.stack, k) && DiagsOk(st.diags, k)
  }

  /** Each line keeps the state good. */
  lemma StepKeepsGood(reg: Registry, st: State, n: int, raw: string)
    requires n >= 1 && Good(reg, st, n - 1)
    ensures Good(reg, Step(reg, st, n, raw), n)
  {
    ApplyKeepsInvariant(reg, st, n, raw, Classify(raw));
  }

  /** After any number of lines the frame invariant holds and every diagnostic
      so far is well-formed and ends by the current line. */
  lemma RunInvariant(reg: Registry, lines: seq<string>, k: nat)
    requires k <= |lines|
    ensures Good(reg, Run(reg, lines, k), k)
  {
    forall st: State, n: int, raw: string | n >= 1 && Good(reg, st, n - 1)
      ensures Good(reg, Step(reg, st, n, raw), n)
    {
      StepKeepsGood(reg, st, n, raw);
    }
    RunPreserves(reg, lines, k, (st: State, n: int) => Good(reg, st, n));
  }

  /** A property of states that holds initially and that every line keeps
      holds after any number of lines. */
  lemma {:induction false} RunPreserves(reg: Registry, lines: seq<string>, k: nat, p: (State, int) -> bool)
    requires k <= |lines|
    requires p(State([], []), 0)
    requires forall st: State, n: int, raw: string :: n >= 1 && p(st, n - 1) ==> p(Step(reg, st, n, raw), n)
    ensures p(Run(reg, lines, k), k)
  {
    if k > 0 {
      RunPreserves(reg, lines, k - 1, p);
      var prev := Run(reg, lines, k - 1);
      assert p(prev, k - 1);
      assert Run(reg, lines, k) == Step(reg, prev, k, lines[k - 1]);
    }
  }

  /** Every open frame opened on line `s` has seen `key`. No two frames open on
      the same line, so this speaks about one frame for as long as it is open.
      Together, the lemmas below say that a required field assigned in a frame
      is never reported missing when that frame closes: the assigning line `a`
      establishes `SeenIn` (`DeclaredFieldSeenIn`, whose frame condition
      `RunFramesOk` supplies for `Run(reg, lines, a - 1)`), every later line
      keeps it (`SeenInKept`), and the `}` that closes the frame leaves the key
      out of its missing-field report (`CloseSeenQuiet`, applied to
      `Run(reg, lines, b - 1)`, since `Run(reg, lines, b)` is one `Step` on from it). */
  predicate SeenIn(stack: seq<Frame>, s: int, key: string) {
    forall j :: 0 <= j < |stack| && stack[j].startLine == s ==> key in stack[j].seen
  }

  /** A key a frame declares, assigned while that frame is innermost, is in the
      seen set of the frame opened on that frame's line afterwards. */
  lemma DeclaredFieldSeenIn(reg: Registry, st: State, n: int, raw: string)
    requires |st.stack| > 0 && FramesOk(reg, st.stack, n - 1)
    requires Classify(raw).OpenScope? || Classify(raw).Assign?
    requires FindField(reg, st.stack[|st.stack| - 1].name, Classify(raw).key).Some?
    ensures var s := st.stack[|st.stack| - 1].startLine;
      s < n && SeenIn(Step(reg, st, n, raw).stack, s, Classify(raw).key)
  {
    var r := Step(reg, st, n, raw);
    DeclaredFieldSeen(reg, st, n, raw);
    StepKeepsFrames(reg, st, n, raw);
    TopOnlyAtItsLine(reg, st.stack, r.stack, n, Classify(raw).key);
  }

  /** After a step on line `n` that keeps the frames of `a`, adds `key` to the
      innermost one and leaves the rest alone, only that frame was opened on
      its line, and it has seen `key`. */
  lemma TopOnlyAtItsLine(reg: Registry, a: seq<Frame>, b: seq<Frame>, n: int, key: string)
    requires |a| > 0 && FramesOk(reg, a, n - 1) && FramesKept(a, b, n)
    requires |b| >= |a| && b[..|a| - 1] == a[..|a| - 1] && key in b[|a| - 1].seen
    ensures var s := a[|a| - 1].startLine; s < n && SeenIn(b, s, key)
  {
    var d := |a|;
    forall j | 0 <= j < |b| && j != d - 1
      ensures b[j].startLine != a[d - 1].startLine
    {
      if j < d - 1 {
        assert b[j] == a[..d - 1][j];
      }
    }
  }

  /** No line forgets a key a frame opened on an earlier line has seen. */
  lemma StepKeepsSeenIn(reg: Registry, st: State, n: int, raw: string, s: int, key: string)
    requires s < n && SeenIn(st.stack, s, key)
    ensures SeenIn(Step(reg, st, n, raw).stack, s, key)
  {
    StepKeepsFrames(reg, st, n, raw);
  }

  /** A property of states that holds after line `a` and that each later line
      of the file keeps holds after any later line. */
  lemma {:induction false} RunPreservesFrom(reg: Registry, lines: seq<string>, a: nat, k: nat, p: (State, int) -> bool)
    requires a <= k <= |lines|
    requires p(Run(reg, lines, a), a)
    requires forall st: State, n: int, raw: string ::
      a < n <= |lines| && raw == lines[n - 1] && p(st, n - 1) ==> p(Step(reg, st, n, raw), n)
    ensures p(Run(reg, lines, k), k)
  {
    if k > a {
      RunPreservesFrom(reg, lines, a, k - 1, p);
      var prev := Run(reg, lines, k - 1);
      assert p(prev, k - 1);
      assert Run(reg, lines, k) == Step(reg, prev, k, lines[k - 1]);
    }
  }

  /** The frames open after `k` lines are as `FramesOk` requires. */
  lemma RunFramesOk(reg: Registry, lines: seq<string>, k: nat)
    requires k <= |lines|
    ensures FramesOk(reg, Run(reg, lines, k).stack, k)
  {
    RunInvariant(reg, lines, k);
  }

  /** Once the frame opened on line `s` has seen `key`, it has seen it after
      every later line as well. */
  lemma SeenInKept(reg: Registry, lines: seq<string>, a: nat, k: nat, s: int, key: string)
    requires s < a <= k <= |lines|
    requires SeenIn(Run(reg, lines, a).stack, s, key)
    ensures SeenIn(Run(reg, lines, k).stack, s, key)
  {
    forall st: State, n: int, raw: string | a < n <= |lines| && raw == lines[n - 1] && SeenIn(st.stack, s, key)
      ensures SeenIn(Step(reg, st, n, raw).stack, s, key)
    {
      StepKeepsSeenIn(reg, st, n, raw, s, key);
    }
    RunPreservesFrom(reg, lines, a, k, (st: State, n: int) => SeenIn(st.stack, s, key));
  }

  /** A `}` closing the frame opened on line `s`, which has seen `key`, does
      not report `key` missing. */
  lemma CloseSeenQuiet(reg: Registry, st: State, n: int, raw: string, s: int, key: string)
    requires |st.stack| > 0 && Classify(raw).Close?
    requires SeenIn(st.stack, s, key) && st.stack[|st.stack| - 1].startLine == s
    ensures var missing := RequiredFieldDiags(reg, st.stack[|st.stack| - 1], n);
      && Step(reg, st, n, raw).diags == st.diags + missing
      && forall d :: d in missing ==> d.subject != key
  {
    assert key in st.stack[|st.stack| - 1].seen;
    CloseInsideScopePops(reg, st, n, raw);
  }

  /** No unclosed-scope error among the diagnostics so far. */
  predicate NoUnclosed(st: State) {
    Count(st.diags, ScopeUnclosed) == 0
  }

  /** The line-by-line pass never reports an unclosed scope. */
  lemma RunHasNoUnclosed(reg: Registry, lines: seq<string>, k: nat)
    requires k <= |lines|
    ensures NoUnclosed(Run(reg, lines, k))
  {
    forall st: State, n: int, raw: string | n >= 1 && NoUnclosed(st)
      ensures NoUnclosed(Step(reg, st, n, raw))
    {
      StepKeepsNoUnclosed(reg, st, n, raw);
    }
    RunPreserves(reg, lines, k, (st: State, n: int) => NoUnclosed(st));
  }

  lemma StepKeepsNoUnclosed(reg: Registry, st: State, n: int, raw: string)
    requires NoUnclosed(st)
    ensures NoUnclosed(Step(reg, st, n, raw))
  {
    StepCounts(reg, st, n, raw);
  }

  /** `u` lists one unclosed-scope error per frame of `stack`, innermost first. */
  predicate UnclosedReport(u: seq<Diagnostic>, stack: seq<Frame>) {
    && |u| == |stack|
    && forall i :: 0 <= i < |stack| ==> u[i] == UnclosedDiag(stack[|stack| - 1 - i])
  }

  /** The end-of-input report, filtered to unclosed-scope errors, lists the open
      frames innermost first, one error each. */
  lemma {:induction false} FinishUnclosed(reg: Registry, stack: seq<Frame>, endLine: int)
    ensures UnclosedReport(WithCode(Finish(reg, stack, endLine), ScopeUnclosed), stack)
  {
    if |stack| > 0 {
      var init := stack[..|stack| - 1];
      FinishUnclosed(reg, init, endLine);
      FinishUnclosedHead(reg, stack, endLine);
      UnclosedReportPush(WithCode(Finish(reg, init, endLine), ScopeUnclosed), stack);
    }
  }

  /** A report for the frames below the innermost one, preceded by the
      innermost frame's error, is the report for the whole stack. */
  lemma UnclosedReportPush(v: seq<Diagnostic>, stack: seq<Frame>)
    requires |stack| > 0 && UnclosedReport(v, stack[..|stack| - 1])
    ensures UnclosedReport([UnclosedDiag(stack[|stack| - 1])] + v, stack)
  {
    var u := [UnclosedDiag(stack[|stack| - 1])] + v;
    var init := stack[..|stack| - 1];
    forall i | 1 <= i < |stack|
      ensures u[i] == UnclosedDiag(stack[|stack| - 1 - i])
    {
      assert u[i] == v[i - 1];
      assert init[|init| - 1 - (i - 1)] == stack[|stack| - 1 - i];
    }
  }

  /** Popping one frame contributes exactly its own unclosed-scope error. */
  lemma FinishUnclosedHead(reg: Registry, stack: seq<Frame>, endLine: int)
    requires |stack| > 0
    ensures WithCode(Finish(reg, stack, endLine), ScopeUnclosed)
      == [UnclosedDiag(stack[|stack| - 1])] + WithCode(Finish(reg, stack[..|stack| - 1], endLine), ScopeUnclosed)
  {
    var top := stack[|stack| - 1];
    var req := RequiredFieldDiags(reg, top, endLine);
    var rest := Finish(reg, stack[..|stack| - 1], endLine);
    FinishPop(reg, stack, endLine);
    assert WithCode(req + rest, ScopeUnclosed) == WithCode(rest, ScopeUnclosed) by {
      RequiredNotUnclosed(reg, top, endLine);
      WithCodeAppend(req, rest, ScopeUnclosed);
    }
    WithCodeSingle(UnclosedDiag(top), ScopeUnclosed);
    WithCodeAppend([UnclosedDiag(top)], req + rest, ScopeUnclosed);
  }

  /** One step of the end-of-input loop: the innermost frame's report, then the
      report for the frames below it. */
  lemma FinishPop(reg: Registry, stack: seq<Frame>, endLine: int)
    requires |stack| > 0
    ensures var top := stack[|stack| - 1];
      Finish(reg, stack, endLine)
        == [UnclosedDiag(top)] + (RequiredFieldDiags(reg, top, endLine) + Finish(reg, stack[..|stack| - 1], endLine))
  {
  }

  /** Closing reports never include an unclosed-scope error. */
  lemma RequiredNotUnclosed(reg: Registry, frame: Frame, endLine: int)
    ensures WithCode(RequiredFieldDiags(reg, frame, endLine), ScopeUnclosed) == []
  {
    RequiredFieldDiagsSpec(reg, frame, endLine);
    WithCodeAbsent(RequiredFieldDiags(reg, frame, endLine), ScopeUnclosed);
  }

  /** Every diagnostic of the end-of-input report is an unclosed-scope error on
      a frame's opening line, or a missing-field error that ends at `endLine`. */
  lemma {:induction false} FinishShape(reg: Registry, stack: seq<Frame>, endLine: int)
    ensures forall d :: d in Finish(reg, stack, endLine) ==>
      || (d.code == ScopeUnclosed && d.startLine == d.endLine)
      || (d.code == FieldRequired && d.endLine == endLine)
  {
    if |stack| > 0 {
      var top := stack[|stack| - 1];
      RequiredFieldDiagsSpec(reg, top, endLine);
      FinishShape(reg, stack[..|stack| - 1], endLine);
    }
  }

  /** The end-of-input report for frames opened by line `endLine` is well-formed. */
  lemma {:induction false} FinishDiagsOk(reg: Registry, stack: seq<Frame>, endLine: int)
    requires OpenedBy(stack, endLine)
    ensures DiagsOk(Finish(reg, stack, endLine), endLine)
  {
    if |stack| > 0 {
      var top := stack[|stack| - 1];
      var here := [UnclosedDiag(top)];
      var req := RequiredFieldDiags(reg, top, endLine);
      var rest := Finish(reg, stack[..|stack| - 1], endLine);
      FinishPop(reg, stack, endLine);
      assert DiagsOk(req + rest, endLine) by {
        RequiredDiagsOk(reg, top, endLine);
        FinishDiagsOk(reg, stack[..|stack| - 1], endLine);
        DiagsOkAppend(req, rest, endLine);
      }
      assert DiagsOk(here, endLine);
      DiagsOkAppend(here, req + rest, endLine);
    }
  }

  /** Every frame of `stack` was opened on a line in `1..endLine`. */
  predicate OpenedBy(stack: seq<Frame>, endLine: int) {
    forall i :: 0 <= i < |stack| ==> 1 <= stack[i].startLine <= endLine
  }

  /** Every diagnostic of an analysis starts on a line of the script (line 1
      for an empty script), ends no later than `max(len(lines), 1)`, has
      columns of at least 1, never runs backwards, and has the severity its code
      prescribes. */
  lemma AnalyzeWellFormed(reg: Registry, lines: seq<string>)
    ensures DiagsOk(Analyze(reg, lines), EndLine(lines))
  {
    var st := Run(reg, lines, |lines|);
    var e := EndLine(lines);
    RunInvariant(reg, lines, |lines|);
    assert Good(reg, st, |lines|);
    assert DiagsOk(st.diags, e);
    FinishDiagsOk(reg, st.stack, e);
    DiagsOkAppend(st.diags, Finish(reg, st.stack, e), e);
  }

  /** The unclosed-scope errors of an analysis are exactly one per frame left
      open at the end, innermost first, each on the line that opened it. */
  lemma AnalyzeUnclosed(reg: Registry, lines: seq<string>)
    ensures UnclosedReport(WithCode(Analyze(reg, lines), ScopeUnclosed), Run(reg, lines, |lines|).stack)
  {
    var st := Run(reg, lines, |lines|);
    var fin := Finish(reg, st.stack, EndLine(lines));
    assert Analyze(reg, lines) == st.diags + fin;
    assert WithCode(st.diags, ScopeUnclosed) == [] by {
      RunHasNoUnclosed(reg, lines, |lines|);
      assert NoUnclosed(st);
    }
    assert WithCode(Analyze(reg, lines), ScopeUnclosed) == WithCode(fin, ScopeUnclosed) by {
      WithCodeAppend(st.diags, fin, ScopeUnclosed);
    }
    FinishUnclosed(reg, st.stack, EndLine(lines));
  }

  /** A script reports an unclosed scope exactly when some frame is still open
      after its last line. */
  lemma UnclosedIffOpenAtEnd(reg: Registry, lines: seq<string>)
    ensures Count(Analyze(reg, lines), ScopeUnclosed) == 0 <==> |Run(reg, lines, |lines|).stack| == 0
  {
    AnalyzeUnclosed(reg, lines);
  }
}
