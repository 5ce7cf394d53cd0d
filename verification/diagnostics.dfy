/** The diagnostic records the linter emits. */
module Diagnostics {

  datatype Severity = Error | Warning | Info

  /** The fixed diagnostic codes of the linter. */
  datatype Code =
    | UnmatchedClose
    | Parse
    | ScopeUnknown
    | FieldUnknown
    | RootField
    | ScopeUnclosed
    | FieldRequired
    | TypeInteger
    | TypeEnum

  /** The wire spelling of each code. */
  function CodeText(c: Code): (r: string)
    ensures |r| > 4 && r[..4] == "ck3."
  {
    match c
    case UnmatchedClose => "ck3.unmatchedClose"
    case Parse => "ck3.parse"
    case ScopeUnknown => "ck3.scope.unknown"
    case FieldUnknown => "ck3.field.unknown"
    case RootField => "ck3.scope.rootField"
    case ScopeUnclosed => "ck3.scope.unclosed"
    case FieldRequired => "ck3.field.required"
    case TypeInteger => "ck3.type.integer"
    case TypeEnum => "ck3.type.enum"
  }

  /** Distinct codes are spelled distinctly, so a client can recover the code. */
  lemma CodeTextInjective(a: Code, b: Code)
    requires CodeText(a) == CodeText(b)
    ensures a == b
  {
  }

  /** The severity the linter always attaches to each code: the two "could be
      intentional" findings are warnings, everything else is an error. */
  function SeverityOf(c: Code): (s: Severity)
    ensures s == Warning <==> c == Parse || c == FieldUnknown
    ensures s != Info
  {
    match c
    case Parse => Warning
    case FieldUnknown => Warning
    case _ => Error
  }

  /** A diagnostic: severity, 1-based range, code, and `subject`, the name the
      source's message quotes (the key, field or scope name; empty for the codes
      whose message names nothing). The message wording itself is not modelled. */
  datatype Diagnostic = Diagnostic(
    severity: Severity,
    startLine: int,
    startColumn: int,
    endLine: int,
    endColumn: int,
    code: Code,
    subject: string)

  /** A diagnostic pinned to one line of the script. */
  function OnLine(code: Code, line: int, startColumn: int, endColumn: int, subject: string): (d: Diagnostic)
    ensures d.severity == SeverityOf(code) && d.code == code && d.subject == subject
    ensures d.startLine == line && d.endLine == line
    ensures d.startColumn == startColumn && d.endColumn == endColumn
  {
    Diagnostic(SeverityOf(code), line, startColumn, line, endColumn, code, subject)
  }

  /** The diagnostics of `ds` carrying code `c`, in order. */
  function WithCode(ds: seq<Diagnostic>, c: Code): (r: seq<Diagnostic>)
    ensures |r| <= |ds|
    ensures forall i :: 0 <= i < |r| ==> r[i].code == c
  {
    if |ds| == 0 then []
    else (if ds[0].code == c then [ds[0]] else []) + WithCode(ds[1..], c)
  }

  /** How many diagnostics of `ds` carry code `c`. */
  function Count(ds: seq<Diagnostic>, c: Code): nat {
    |WithCode(ds, c)|
  }

  /** Filtering a list none of whose entries carries the code leaves nothing. */
  lemma {:induction false} WithCodeAbsent(ds: seq<Diagnostic>, c: Code)
    requires forall i :: 0 <= i < |ds| ==> ds[i].code != c
    ensures WithCode(ds, c) == []
  {
    if |ds| > 0 {
      WithCodeAbsent(ds[1..], c);
    }
  }

  /** The subjects of a list of diagnostics, in order. */
  function Subjects(ds: seq<Diagnostic>): (r: seq<string>)
    ensures |r| == |ds|
    ensures forall i :: 0 <= i < |ds| ==> r[i] == ds[i].subject
  {
    seq(|ds|, i requires 0 <= i < |ds| => ds[i].subject)
  }

  /** Counting distributes over concatenation. */
  lemma CountAppend(a: seq<Diagnostic>, b: seq<Diagnostic>, c: Code)
    ensures Count(a + b, c) == Count(a, c) + Count(b, c)
  {
    WithCodeAppend(a, b, c);
  }

  /** A single diagnostic counts once for its own code and never for another. */
  lemma CountSingle(d: Diagnostic, c: Code)
    ensures Count([d], c) == if d.code == c then 1 else 0
  {
    WithCodeSingle(d, c);
  }

  /** A single diagnostic passes the filter for its own code only. */
  lemma WithCodeSingle(d: Diagnostic, c: Code)
    ensures WithCode([d], c) == if d.code == c then [d] else []
  {
    assert [d][1..] == [];
  }

  lemma SubjectsAppend(a: seq<Diagnostic>, b: seq<Diagnostic>)
    ensures Subjects(a + b) == Subjects(a) + Subjects(b)
  {
  }

  lemma {:induction false} WithCodeAppend(a: seq<Diagnostic>, b: seq<Diagnostic>, c: Code)
    ensures WithCode(a + b, c) == WithCode(a, c) + WithCode(b, c)
  {
    if |a| == 0 {
      assert a + b == b;
    } else {
      assert (a + b)[0] == a[0];
      assert (a + b)[1..] == a[1..] + b;
      WithCodeAppend(a[1..], b, c);
    }
  }
}
