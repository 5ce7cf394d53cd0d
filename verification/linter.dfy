/** The line-oriented static analysis of a mod script (`run_static_analysis`):
    one pass over the lines with a stack of open scope frames, followed by a
    report on every frame still open at the end. */
module Linter {
  import opened Wrappers
  import opened Text
  import opened Registry
  import opened Diagnostics
  import opened LineSyntax

  /** An open scope: its name, the line that opened it, and the registered
      fields assigned in it so far. */
  datatype Frame = Frame(name: string, startLine: int, seen: set<string>)

  /** The analysis state between lines: open frames (innermost last) and the
      diagnostics emitted so far. */
  datatype State = State(stack: seq<Frame>, diags: seq<Diagnostic>)

  /** `_first_non_ws`: the 1-based column of the first non-whitespace character
      (one past the end on a blank line). */
  function FirstNonWs(raw: string): (c: int)
    ensures 1 <= c <= |raw| + 1
    ensures forall i :: 0 <= i < c - 1 ==> IsSpace(raw[i])
    ensures c <= |raw| ==> !IsSpace(raw[c - 1])
  {
    Leading(raw, Whitespace) + 1
  }

  /** `_column_for`: the 1-based column of the first occurrence of `fragment`
      in `raw`, or 1 when it does not occur at all. */
  function ColumnFor(raw: string, fragment: string): (c: int)
    ensures c >= 1
    ensures FirstOccurrence(raw, fragment, c - 1) || (Nowhere(raw, fragment) && c == 1)
  {
    FindSpec(raw, fragment);
    match Find(raw, fragment)
    case Some(i) => i + 1
    case None => 1
  }

  /** The `ck3.field.required` diagnostic for field `name` of `frame`, spanning
      from the frame's opening line to `endLine`. */
  function RequiredDiag(frame: Frame, endLine: int, name: string): Diagnostic {
    Diagnostic(SeverityOf(FieldRequired), frame.startLine, 1, endLine, 1, FieldRequired, name)
  }

  /** One diagnostic per field of `fields` that is required and not in the
      frame's seen set, in declaration order. */
  function MissingRequired(fields: seq<FieldDef>, frame: Frame, endLine: int): (r: seq<Diagnostic>)
    ensures forall d :: d in r ==>
      && d == RequiredDiag(frame, endLine, d.subject)
      && d.subject in RequiredNames(fields) && d.subject !in frame.seen
  {
    if |fields| == 0 then []
    else
      var head := fields[0];
      (if head.required && head.name !in frame.seen then [RequiredDiag(frame, endLine, head.name)] else [])
      + MissingRequired(fields[1..], frame, endLine)
  }

  /** `_validate_required_fields`: every report is the missing-field error of
      the frame, for a required field of its registered scope that the frame has
      not seen; an unregistered scope name reports nothing. */
  function RequiredFieldDiags(reg: Registry, frame: Frame, endLine: int): (r: seq<Diagnostic>)
    ensures forall d :: d in r ==>
      && frame.name in reg.scopes
      && d == RequiredDiag(frame, endLine, d.subject)
      && d.subject in RequiredNames(reg.scopes[frame.name].fields) && d.subject !in frame.seen
  {
    if frame.name !in reg.scopes then []
    else MissingRequired(reg.scopes[frame.name].fields, frame, endLine)
  }

  /** `_validate_value`: the type diagnostic for `value` assigned to field `fd`
      on line `n`, if any. An integer field needs `-?\d+`; an enum field with
      allowed values needs the value, stripped of surrounding double quotes, to
      be one of them; nothing else is checked. A finding is one error on line
      `n`, as wide as the value, at the first place the value occurs anywhere in
      the raw line (column 1 when it does not occur). */
  function ValidateValue(fd: FieldDef, value: string, n: int, raw: string): (r: Option<Diagnostic>)
    ensures r.None? <==>
      && (fd.kind == IntegerField ==> IsIntegerLiteral(value))
      && (fd.kind == EnumField && |fd.values| > 0 ==> StripBy(value, Quote) in fd.values)
    ensures r.Some? ==>
      && r.value.code == (if fd.kind == IntegerField then TypeInteger else TypeEnum)
      && r.value.severity == Error && r.value.subject == fd.name
      && r.value.startLine == n && r.value.endLine == n
      && r.value.startColumn >= 1 && r.value.endColumn == r.value.startColumn + |value|
    ensures r.Some? ==>
      || FirstOccurrence(raw, value, r.value.startColumn - 1)
      || (Nowhere(raw, value) && r.value.startColumn == 1)
  {
    var column := if |value| > 0 then ColumnFor(raw, value) else 1;
    if fd.kind == IntegerField && !IsIntegerLiteral(value) then
      Some(OnLine(TypeInteger, n, column, column + |value|, fd.name))
    else if fd.kind == EnumField && |fd.values| > 0 && StripBy(value, Quote) !in fd.values then
      Some(OnLine(TypeEnum, n, column, column + |value|, fd.name))
    else None
  }

  function OptionToSeq<T>(o: Option<T>): seq<T> {
    match o
    case Some(x) => [x]
    case None => []
  }

  /** The stack with `key` added to the innermost frame's seen set. */
  function MarkSeen(stack: seq<Frame>, key: string): seq<Frame>
    requires |stack| > 0
  {
    var top := stack[|stack| - 1];
    stack[|stack| - 1 := top.(seen := top.seen + {key})]
  }

  /** A key assigned inside the innermost frame: recorded as seen when the
      frame's scope declares it, reported as `ck3.field.unknown` otherwise. */
  function NoteField(reg: Registry, stack: seq<Frame>, key: string, n: int, raw: string): (seq<Frame>, seq<Diagnostic>)
    requires |stack| > 0
  {
    var col := ColumnFor(raw, key);
    match FindField(reg, stack[|stack| - 1].name, key)
    case None => (stack, [OnLine(FieldUnknown, n, col, col + |key|, key)])
    case Some(_) => (MarkSeen(stack, key), [])
  }

  /** One iteration of the source's loop body, for line number `n`. */
  function Step(reg: Registry, st: State, n: int, raw: string): State {
    Apply(reg, st, n, raw, Classify(raw))
  }

  /** The loop body for a line already classified as `kind`: diagnostics are
      only ever appended, and the stack grows or shrinks by at most one frame. */
  function Apply(reg: Registry, st: State, n: int, raw: string, kind: LineKind): (r: State)
    ensures st.diags <= r.diags
    ensures |st.stack| - 1 <= |r.stack| <= |st.stack| + 1
  {
    match kind
    case Blank => st
    case Comment => st
    case Close =>
      if |st.stack| == 0 then
        var col := FirstNonWs(raw);
        State([], st.diags + [OnLine(UnmatchedClose, n, col, col + 1, "")])
      else
        var top := st.stack[|st.stack| - 1];
        State(st.stack[..|st.stack| - 1], st.diags + RequiredFieldDiags(reg, top, n))
    case Unparsed =>
      State(st.stack, st.diags + [OnLine(Parse, n, FirstNonWs(raw), |raw| + 1, "")])
    case OpenScope(key) =>
      if |st.stack| == 0 then
        var col := ColumnFor(raw, key);
        var ds := if key in reg.topLevel then [] else [OnLine(ScopeUnknown, n, col, col + |key|, key)];
        State([Frame(key, n, {})], st.diags + ds)
      else
        var (stack, ds) := NoteField(reg, st.stack, key, n, raw);
        State(stack + [Frame(key, n, {})], st.diags + ds)
    case Assign(key, value) =>
      if |st.stack| == 0 then
        State(st.stack, st.diags + [OnLine(RootField, n, FirstNonWs(raw), |raw| + 1, "")])
      else
        var (stack, ds) := NoteField(reg, st.stack, key, n, raw);
        match FindField(reg, st.stack[|st.stack| - 1].name, key)
        case None => State(stack, st.diags + ds)
        case Some(fd) => State(stack, st.diags + OptionToSeq(ValidateValue(fd, value, n, raw)))
  }

  /** The state after the first `k` lines (numbered from 1). */
  function Run(reg: Registry, lines: seq<string>, k: nat): State
    requires k <= |lines|
  {
    if k == 0 then State([], [])
    else Step(reg, Run(reg, lines, k - 1), k, lines[k - 1])
  }

  /** The `ck3.scope.unclosed` diagnostic for a frame still open at the end. */
  function UnclosedDiag(frame: Frame): Diagnostic {
    OnLine(ScopeUnclosed, frame.startLine, 1, 1, frame.name)
  }

  /** The end-of-input loop: pops the frames innermost first, each contributing
      its unclosed-scope error followed by its missing required fields. */
  function Finish(reg: Registry, stack: seq<Frame>, endLine: int): (r: seq<Diagnostic>)
    ensures |r| >= |stack|
    ensures |r| == 0 <==> |stack| == 0
  {
    if |stack| == 0 then []
    else
      var top := stack[|stack| - 1];
      [UnclosedDiag(top)] + RequiredFieldDiags(reg, top, endLine)
      + Finish(reg, stack[..|stack| - 1], endLine)
  }

  /** `len(lines) or 1`. */
  function EndLine(lines: seq<string>): int {
    if |lines| == 0 then 1 else |lines|
  }

  /** All diagnostics for the script given as its lines, against `reg`: those of
      the line pass first, then the end-of-input report, which adds something
      exactly when a frame is still open. */
  function Analyze(reg: Registry, lines: seq<string>): (r: seq<Diagnostic>)
    ensures Run(reg, lines, |lines|).diags <= r
    ensures |r| == |Run(reg, lines, |lines|).diags| <==> |Run(reg, lines, |lines|).stack| == 0
  {
    var st := Run(reg, lines, |lines|);
    st.diags + Finish(reg, st.stack, EndLine(lines))
  }
}
