/** Properties of the linter: what each kind of line does to the frame stack
    and to the diagnostics, what closing a frame reports, and what every
    diagnostic of a whole analysis looks like. */
module LinterProperties {
  import opened Wrappers
  import opened Text
  import opened Registry
  import opened Diagnostics
  import opened LineSyntax
  import opened Linter

  /** The names of `names` that are not in `seen`, in order. */
  function Unseen(names: seq<string>, seen: set<string>): (r: seq<string>)
    ensures |r| <= |names|
  {
    if |names| == 0 then []
    else (if names[0] !in seen then [names[0]] else []) + Unseen(names[1..], seen)
  }

  /** The fields reported missing are the required ones not seen, in
      declaration order. */
  lemma {:induction false} MissingRequiredSubjects(fields: seq<FieldDef>, frame: Frame, endLine: int)
    ensures Subjects(MissingRequired(fields, frame, endLine)) == Unseen(RequiredNames(fields), frame.seen)
  {
    if |fields| > 0 {
      var head := fields[0];
      var here: seq<Diagnostic> := if head.required && head.name !in frame.seen then [RequiredDiag(frame, endLine, head.name)] else [];
      var rest := MissingRequired(fields[1..], frame, endLine);
      MissingRequiredSubjects(fields[1..], frame, endLine);
      assert MissingRequired(fields, frame, endLine) == here + rest;
      SubjectsAppend(here, rest);
      var tail := RequiredNames(fields[1..]);
      if head.required {
        var names := [head.name] + tail;
        assert RequiredNames(fields) == names;
        assert names[1..] == tail;
        assert Unseen(names, frame.seen) == (if head.name !in frame.seen then [head.name] else []) + Unseen(tail, frame.seen);
      } else {
        assert RequiredNames(fields) == [] + tail == tail;
        assert here == [];
      }
    }
  }

  /** A frame that has seen every required field of its field list has nothing
      missing. */
  lemma {:induction false} MissingRequiredQuiet(fields: seq<FieldDef>, frame: Frame, endLine: int)
    requires forall i :: 0 <= i < |fields| && fields[i].required ==> fields[i].name in frame.seen
    ensures MissingRequired(fields, frame, endLine) == []
  {
    if |fields| > 0 {
      MissingRequiredQuiet(fields[1..], frame, endLine);
    }
  }

  /** `_validate_required_fields`: nothing for an unregistered scope; otherwise
      one `ck3.field.required` error per required field not seen, in declaration
      order, spanning from the frame's opening line to `endLine`. */
  lemma RequiredFieldDiagsSpec(reg: Registry, frame: Frame, endLine: int)
    ensures frame.name !in reg.scopes ==> RequiredFieldDiags(reg, frame, endLine) == []
    ensures frame.name in reg.scopes ==>
      Subjects(RequiredFieldDiags(reg, frame, endLine))
        == Unseen(RequiredNames(reg.scopes[frame.name].fields), frame.seen)
    ensures var r := RequiredFieldDiags(reg, frame, endLine);
      forall i :: 0 <= i < |r| ==>
        && r[i].code == FieldRequired && r[i].severity == Error
        && r[i].startLine == frame.startLine && r[i].startColumn == 1
        && r[i].endLine == endLine && r[i].endColumn == 1
  {
    if frame.name in reg.scopes {
      MissingRequiredSubjects(reg.scopes[frame.name].fields, frame, endLine);
    }
  }

  /** A frame that has seen every required field of its scope reports nothing
      when it closes. */
  lemma AllRequiredSeenIsQuiet(reg: Registry, frame: Frame, endLine: int)
    requires frame.name in reg.scopes ==>
      var fs := reg.scopes[frame.name].fields;
      forall i :: 0 <= i < |fs| && fs[i].required ==> fs[i].name in frame.seen
    ensures RequiredFieldDiags(reg, frame, endLine) == []
  {
    if frame.name in reg.scopes {
      MissingRequiredQuiet(reg.scopes[frame.name].fields, frame, endLine);
    }
  }

  /** Two frame stacks agree on every frame's scope name and opening line. */
  predicate SameFrames(a: seq<Frame>, b: seq<Frame>) {
    |a| == |b| && forall i :: 0 <= i < |a| ==> a[i].name == b[i].name && a[i].startLine == b[i].startLine
  }

  /** Lines that are blank after stripping or start with `#` change nothing. */
  lemma SkippedLineIsInert(reg: Registry, st: State, n: int, raw: string)
    requires |Strip(raw)| == 0 || Strip(raw)[0] == '#'
    ensures Step(reg, st, n, raw) == st
  {
    StripEmpty(raw, Whitespace);
  }

  /** A `}` with no open frame is one `ck3.unmatchedClose` error, one character
      wide at the column of that brace, and the stack stays empty. */
  lemma UnmatchedCloseAtRoot(reg: Registry, st: State, n: int, raw: string)
    requires |st.stack| == 0
    requires |Strip(raw)| > 0 && Strip(raw)[0] == '}'
    ensures var c := FirstNonWs(raw);
      && c <= |raw| && raw[c - 1] == '}'
      && Step(reg, st, n, raw) == State([], st.diags + [OnLine(UnmatchedClose, n, c, c + 1, "")])
  {
    StripBySpec(raw, Whitespace);
    assert raw[Leading(raw, Whitespace)] == Strip(raw)[0];
  }

  /** A `}` inside a frame pops exactly that frame and reports its missing
      required fields against the closing line. */
  lemma CloseInsideScopePops(reg: Registry, st: State, n: int, raw: string)
    requires |st.stack| > 0
    requires |Strip(raw)| > 0 && Strip(raw)[0] == '}'
    ensures var r := Step(reg, st, n, raw);
      && r.stack == st.stack[..|st.stack| - 1]
      && r.diags == st.diags + RequiredFieldDiags(reg, st.stack[|st.stack| - 1], n)
  {
  }

  /** Recording a field as seen touches only the innermost frame's seen set. */
  lemma MarkSeenFrames(stack: seq<Frame>, key: string)
    requires |stack| > 0
    ensures var r := MarkSeen(stack, key);
      && SameFrames(r, stack)
      && r[..|stack| - 1] == stack[..|stack| - 1]
      && r[|stack| - 1].seen == stack[|stack| - 1].seen + {key}
  {
  }

  /** A scope-opening line pushes exactly one fresh frame, whether or not its
      key is a known scope or field, and keeps the frames below it. */
  lemma OpenScopePushesOneFrame(reg: Registry, st: State, n: int, raw: string)
    requires Classify(raw).OpenScope?
    ensures var r := Step(reg, st, n, raw); var d := |st.stack|;
      && |r.stack| == d + 1
      && SameFrames(r.stack[..d], st.stack)
      && r.stack[d] == Frame(Classify(raw).key, n, {})
  {
    if |st.stack| > 0 {
      MarkSeenFrames(st.stack, Classify(raw).key);
    }
  }

  /** Every line other than a scope opening or a closing brace keeps the frames
      (names and opening lines) as they are. */
  lemma OtherLinesKeepFrames(reg: Registry, st: State, n: int, raw: string)
    requires !Classify(raw).OpenScope? && !Classify(raw).Close?
    ensures SameFrames(Step(reg, st, n, raw).stack, st.stack)
  {
    if |st.stack| > 0 && Classify(raw).Assign? {
      MarkSeenFrames(st.stack, Classify(raw).key);
    }
  }

  /** The key of a scope opening or assignment is found at the line's first
      non-blank column: it cannot occur earlier, where there is only whitespace. */
  lemma KeyColumn(raw: string)
    requires Classify(raw).OpenScope? || Classify(raw).Assign?
    ensures ColumnFor(raw, Classify(raw).key) == FirstNonWs(raw)
  {
    var key := Classify(raw).key;
    KeyAtFirstColumn(raw);
    FirstAfterBlanks(raw, key, Leading(raw, Whitespace), ColumnFor(raw, key) - 1);
  }

  /** A text that starts with a non-space and occurs right after the leading
      blanks first occurs there. */
  lemma FirstAfterBlanks(raw: string, key: string, l: nat, c: nat)
    requires |key| > 0 && !IsSpace(key[0]) && OccursAt(raw, key, l)
    requires forall i :: 0 <= i < l ==> IsSpace(raw[i])
    requires FirstOccurrence(raw, key, c) || Nowhere(raw, key)
    ensures c == l
  {
    assert !Nowhere(raw, key);
    OccursAtHead(raw, key, c);
  }

  /** A key the innermost frame's scope does not declare is one
      `ck3.field.unknown` warning at the key, and the frame's seen set stays as
      it was, so such a line never satisfies a required field. */
  lemma UnknownFieldNotSeen(reg: Registry, st: State, n: int, raw: string)
    requires |st.stack| > 0
    requires Classify(raw).OpenScope? || Classify(raw).Assign?
    requires FindField(reg, st.stack[|st.stack| - 1].name, Classify(raw).key).None?
    ensures var r := Step(reg, st, n, raw); var key := Classify(raw).key; var c := ColumnFor(raw, key);
      && c == FirstNonWs(raw)
      && r.stack[..|st.stack|] == st.stack
      && r.diags == st.diags + [OnLine(FieldUnknown, n, c, c + |key|, key)]
  {
    var kind := Classify(raw);
    assert ColumnFor(raw, kind.key) == FirstNonWs(raw) by {
      KeyColumn(raw);
    }
    ApplyUnknownField(reg, st, n, raw, kind);
    assert Step(reg, st, n, raw) == Apply(reg, st, n, raw, kind);
  }

  lemma ApplyUnknownField(reg: Registry, st: State, n: int, raw: string, kind: LineKind)
    requires |st.stack| > 0
    requires kind.OpenScope? || kind.Assign?
    requires FindField(reg, st.stack[|st.stack| - 1].name, kind.key).None?
    ensures var r := Apply(reg, st, n, raw, kind); var c := ColumnFor(raw, kind.key);
      && r.stack[..|st.stack|] == st.stack
      && r.diags == st.diags + [OnLine(FieldUnknown, n, c, c + |kind.key|, kind.key)]
  {
  }

  /** A key the innermost frame's scope declares is recorded in that frame's
      seen set, and the frames below stay as they were. An assignment then gets
      exactly the finding of the value check, if any; a scope opening adds no
      diagnostic and pushes a fresh frame for the key. */
  lemma DeclaredFieldSeen(reg: Registry, st: State, n: int, raw: string)
    requires |st.stack| > 0
    requires Classify(raw).OpenScope? || Classify(raw).Assign?
    requires FindField(reg, st.stack[|st.stack| - 1].name, Classify(raw).key).Some?
    ensures var r := Step(reg, st, n, raw); var kind := Classify(raw);
      var d := |st.stack|; var top := st.stack[d - 1];
      var fd := FindField(reg, top.name, kind.key).value;
      && |r.stack| >= d
      && r.stack[..d - 1] == st.stack[..d - 1]
      && r.stack[d - 1] == Frame(top.name, top.startLine, top.seen + {kind.key})
      && (kind.Assign? ==> |r.stack| == d && r.diags == st.diags + OptionToSeq(ValidateValue(fd, kind.value, n, raw)))
      && (kind.OpenScope? ==> |r.stack| == d + 1 && r.stack[d] == Frame(kind.key, n, {}) && r.diags == st.diags)
  {
    var kind := Classify(raw);
    ApplyDeclaredField(reg, st, n, raw, kind);
    assert Step(reg, st, n, raw) == Apply(reg, st, n, raw, kind);
  }

  lemma ApplyDeclaredField(reg: Registry, st: State, n: int, raw: string, kind: LineKind)
    requires |st.stack| > 0
    requires kind.OpenScope? || kind.Assign?
    requires FindField(reg, st.stack[|st.stack| - 1].name, kind.key).Some?
    ensures var r := Apply(reg, st, n, raw, kind);
      var d := |st.stack|; var top := st.stack[d - 1];
      var fd := FindField(reg, top.name, kind.key).value;
      && |r.stack| >= d
      && r.stack[..d - 1] == st.stack[..d - 1]
      && r.stack[d - 1] == Frame(top.name, top.startLine, top.seen + {kind.key})
      && (kind.Assign? ==> |r.stack| == d && r.diags == st.diags + OptionToSeq(ValidateValue(fd, kind.value, n, raw)))
      && (kind.OpenScope? ==> |r.stack| == d + 1 && r.stack[d] == Frame(kind.key, n, {}) && r.diags == st.diags)
  {
    MarkSeenFrames(st.stack, kind.key);
  }

  /** An unparseable line is one `ck3.parse` warning from its first non-blank
      character to one past its end, and the stack stays as it was. */
  lemma UnparsedLine(reg: Registry, st: State, n: int, raw: string)
    requires Classify(raw).Unparsed?
    ensures var c := FirstNonWs(raw);
      && c <= |raw| && !IsSpace(raw[c - 1])
      && Step(reg, st, n, raw) == State(st.stack, st.diags + [OnLine(Parse, n, c, |raw| + 1, "")])
  {
    assert Describes(raw, Classify(raw));
  }

  /** An assignment with no frame open is one `ck3.scope.rootField` error from
      the key to one past the end of the line, and the stack stays empty. */
  lemma RootAssignment(reg: Registry, st: State, n: int, raw: string)
    requires |st.stack| == 0 && Classify(raw).Assign?
    ensures var c := FirstNonWs(raw);
      && c == ColumnFor(raw, Classify(raw).key)
      && Step(reg, st, n, raw) == State([], st.diags + [OnLine(RootField, n, c, |raw| + 1, "")])
  {
    KeyColumn(raw);
  }

  /** A scope opening with no frame open whose key is not a top-level scope is
      one `ck3.scope.unknown` error spanning the key; the frame is pushed all
      the same. */
  lemma UnknownTopLevelScope(reg: Registry, st: State, n: int, raw: string)
    requires |st.stack| == 0 && Classify(raw).OpenScope? && Classify(raw).key !in reg.topLevel
    ensures var key := Classify(raw).key; var c := ColumnFor(raw, key);
      && c == FirstNonWs(raw)
      && Step(reg, st, n, raw) == State([Frame(key, n, {})], st.diags + [OnLine(ScopeUnknown, n, c, c + |key|, key)])
  {
    var kind := Classify(raw);
    KeyColumn(raw);
    ApplyUnknownTopLevel(reg, st, n, raw, kind);
    assert Step(reg, st, n, raw) == Apply(reg, st, n, raw, kind);
  }

  lemma ApplyUnknownTopLevel(reg: Registry, st: State, n: int, raw: string, kind: LineKind)
    requires |st.stack| == 0 && kind.OpenScope? && kind.key !in reg.topLevel
    ensures var c := ColumnFor(raw, kind.key);
      Apply(reg, st, n, raw, kind) == State([Frame(kind.key, n, {})], st.diags + [OnLine(ScopeUnknown, n, c, c + |kind.key|, kind.key)])
  {
  }

  /** A top-level scope opened with no frame open pushes its frame and reports
      nothing. */
  lemma TopLevelScopeOpens(reg: Registry, st: State, n: int, raw: string)
    requires |st.stack| == 0 && Classify(raw).OpenScope? && Classify(raw).key in reg.topLevel
    ensures Step(reg, st, n, raw) == State([Frame(Classify(raw).key, n, {})], st.diags)
  {
  }

  /** Frames that survive a step on line `n` keep their scope name and opening
      line, and their seen sets only grow; frames beyond the old stack are new
      ones, opened on line `n` with nothing seen. */
  predicate FramesKept(a: seq<Frame>, b: seq<Frame>, n: int) {
    && (forall i :: 0 <= i < |a| && i < |b| ==>
          b[i].name == a[i].name && b[i].startLine == a[i].startLine && a[i].seen <= b[i].seen)
    && (forall i :: |a| <= i < |b| ==> b[i].startLine == n && b[i].seen == {})
  }

  /** No line forgets a field a surviving frame has seen. */
  lemma StepKeepsFrames(reg: Registry, st: State, n: int, raw: string)
    ensures FramesKept(st.stack, Step(reg, st, n, raw).stack, n)
  {
    ApplyKeepsFrames(reg, st, n, raw, Classify(raw));
  }

  lemma ApplyKeepsFrames(reg: Registry, st: State, n: int, raw: string, kind: LineKind)
    ensures FramesKept(st.stack, Apply(reg, st, n, raw, kind).stack, n)
  {
    if |st.stack| > 0 && (kind.OpenScope? || kind.Assign?) {
      MarkSeenFrames(st.stack, kind.key);
    }
  }

  /** String and array fields never get a type diagnostic. */
  lemma UncheckedKindsPass(fd: FieldDef, value: string, n: int, raw: string)
    requires fd.kind == StringField || fd.kind == ArrayField
    ensures ValidateValue(fd, value, n, raw).None?
  {
  }

  /** Every integer written in decimal is accepted for an integer field. */
  lemma IntegersAccepted(fd: FieldDef, i: int, n: int, raw: string)
    requires fd.kind == IntegerField
    ensures ValidateValue(fd, IntText(i), n, raw).None?
  {
    IntTextIsIntegerLiteral(i);
  }

  /** Every allowed value of an enum field is accepted, bare or in double
      quotes. */
  lemma EnumValuesAccepted(fd: FieldDef, a: string, n: int, raw: string)
    requires fd.kind == EnumField && a in fd.values
    requires |a| > 0 && a[0] != '"' && a[|a| - 1] != '"'
    ensures ValidateValue(fd, a, n, raw).None?
    ensures ValidateValue(fd, "\"" + a + "\"", n, raw).None?
  {
    QuotesStripped(a);
  }

  /** Stripping double quotes recovers a quote-free word, bare or quoted. */
  lemma QuotesStripped(a: string)
    requires |a| > 0 && a[0] != '"' && a[|a| - 1] != '"'
    ensures StripBy(a, Quote) == a
    ensures StripBy("\"" + a + "\"", Quote) == a
  {
    StripPaddedLeft("", a, Quote);
    assert "" + a == a;
    StripPadded("\"", a, "\"", Quote);
  }

  /** In a well-formed registry every enum field lists its allowed values, so a
      value assigned to a registered enum field is accepted exactly when,
      stripped of double quotes, it is one of them. */
  lemma RegisteredEnumChecked(reg: Registry, scope: string, fd: FieldDef, value: string, n: int, raw: string)
    requires WellFormed(reg) && FindField(reg, scope, fd.name) == Some(fd) && fd.kind == EnumField
    ensures ValidateValue(fd, value, n, raw).None? <==> StripBy(value, Quote) in fd.values
  {
    var fs := reg.scopes[scope].fields;
    var k :| 0 <= k < |fs| && fs[k] == fd;
    assert ScopeWellFormed(reg.scopes[scope]);
  }

  /** The `rank` of a `title` in the built-in registry accepts exactly the five
      ranks, bare or quoted. */
  lemma TitleRankChecked(value: string, n: int, raw: string)
    ensures var fd := FindField(Ck3Registry(), "title", "rank");
      && fd.Some? && fd.value.kind == EnumField
      && (ValidateValue(fd.value, value, n, raw).None? <==>
          StripBy(value, Quote) in ["baron", "count", "duke", "king", "emperor"])
  {
    var fd := FindField(Ck3Registry(), "title", "rank");
    assert Ck3Registry().scopes["title"].fields[2].name == "rank";
    FindInFirst(Ck3Registry().scopes["title"].fields, "rank", 2);
    Ck3RegistryWellFormed();
    RegisteredEnumChecked(Ck3Registry(), "title", fd.value, value, n, raw);
  }

  /** How many diagnostics of the root-level codes one classified line adds:
      an unmatched close, an unknown top-level scope and a root assignment are
      reported only with no frame open, exactly once each. */
  lemma ApplyRootCounts(reg: Registry, st: State, n: int, raw: string, kind: LineKind)
    ensures var r := Apply(reg, st, n, raw, kind); var root := |st.stack| == 0;
      && Count(r.diags, UnmatchedClose) == Count(st.diags, UnmatchedClose) + (if root && kind.Close? then 1 else 0)
      && Count(r.diags, ScopeUnknown) == Count(st.diags, ScopeUnknown)
           + (if root && kind.OpenScope? && kind.key !in reg.topLevel then 1 else 0)
      && Count(r.diags, RootField) == Count(st.diags, RootField) + (if root && kind.Assign? then 1 else 0)
  {
    var added := ApplyAdded(reg, st, n, raw, kind);
    AddedCounts(st.diags, added, UnmatchedClose);
    AddedCounts(st.diags, added, ScopeUnknown);
    AddedCounts(st.diags, added, RootField);
  }

  /** How many parse, unknown-field and unclosed-scope diagnostics one classified
      line adds: a parse warning for every unparseable line, an unknown-field
      warning for every key the innermost scope does not declare, and never an
      unclosed-scope error. */
  lemma ApplyLineCounts(reg: Registry, st: State, n: int, raw: string, kind: LineKind)
    ensures var r := Apply(reg, st, n, raw, kind); var root := |st.stack| == 0;
      && Count(r.diags, Parse) == Count(st.diags, Parse) + (if kind.Unparsed? then 1 else 0)
      && Count(r.diags, FieldUnknown) == Count(st.diags, FieldUnknown)
           + (if !root && (kind.OpenScope? || kind.Assign?)
                 && FindField(reg, st.stack[|st.stack| - 1].name, kind.key).None? then 1 else 0)
      && Count(r.diags, ScopeUnclosed) == Count(st.diags, ScopeUnclosed)
  {
    var added := ApplyAdded(reg, st, n, raw, kind);
    AddedCounts(st.diags, added, Parse);
    AddedCounts(st.diags, added, FieldUnknown);
    AddedCounts(st.diags, added, ScopeUnclosed);
  }

  /** The definition of the field a line assigns, when it is an assignment
      inside a frame whose scope declares the key. */
  function AssignedField(reg: Registry, st: State, kind: LineKind): Option<FieldDef> {
    if |st.stack| > 0 && kind.Assign? then FindField(reg, st.stack[|st.stack| - 1].name, kind.key) else None
  }

  /** How many type errors one classified line adds: one `ck3.type.integer` for
      a declared integer field assigned a value outside `-?\d+`, one
      `ck3.type.enum` for a declared enum field with allowed values assigned
      anything else, and none for any other line. */
  lemma ApplyTypeCounts(reg: Registry, st: State, n: int, raw: string, kind: LineKind)
    ensures var r := Apply(reg, st, n, raw, kind); var fd := AssignedField(reg, st, kind);
      && Count(r.diags, TypeInteger) == Count(st.diags, TypeInteger)
           + (if fd.Some? && fd.value.kind == IntegerField && !IsIntegerLiteral(kind.value) then 1 else 0)
      && Count(r.diags, TypeEnum) == Count(st.diags, TypeEnum)
           + (if fd.Some? && fd.value.kind == EnumField && |fd.value.values| > 0
                 && StripBy(kind.value, Quote) !in fd.value.values then 1 else 0)
  {
    var added := ApplyAdded(reg, st, n, raw, kind);
    AddedCounts(st.diags, added, TypeInteger);
    AddedCounts(st.diags, added, TypeEnum);
    var fd := AssignedField(reg, st, kind);
    if fd.Some? {
      ApplyDeclaredField(reg, st, n, raw, kind);
      var found := OptionToSeq(ValidateValue(fd.value, kind.value, n, raw));
      assert added == (st.diags + found)[|st.diags|..];
    }
  }

  /** Counting code `c` (one a scope-close report never carries) after appending
      `added`: what was there plus `added`'s single entry, if it has that code. */
  lemma AddedCounts(prior: seq<Diagnostic>, added: seq<Diagnostic>, c: Code)
    requires c != FieldRequired
    requires |added| > 1 ==> forall i :: 0 <= i < |added| ==> added[i].code == FieldRequired
    ensures Count(prior + added, c) == Count(prior, c) + (if |added| == 1 && added[0].code == c then 1 else 0)
  {
    CountAppend(prior, added, c);
    if |added| == 1 {
      assert added == [added[0]];
      CountSingle(added[0], c);
    } else if |added| > 1 {
      WithCodeAbsent(added, c);
    }
  }

  /** Each of `added` ends on line `n` and starts there or, for a closing line,
      on the line that opened the innermost frame; its columns are at least 1
      and in order, and its severity is its code's. */
  predicate AddedOnLine(added: seq<Diagnostic>, st: State, n: int, kind: LineKind) {
    forall i :: 0 <= i < |added| ==>
      && added[i].endLine == n && added[i].severity == SeverityOf(added[i].code)
      && 1 <= added[i].startColumn <= added[i].endColumn
      && (added[i].startLine == n
          || (kind.Close? && |st.stack| > 0 && added[i].startLine == st.stack[|st.stack| - 1].startLine))
  }

  /** The diagnostics one classified line appends: each ends on line `n`, starts
      there or (for a missing field) on the line that opened the closed frame,
      has columns of at least 1 in order and its code's severity; and which code
      each carries. */
  lemma ApplyAdded(reg: Registry, st: State, n: int, raw: string, kind: LineKind) returns (added: seq<Diagnostic>)
    ensures Apply(reg, st, n, raw, kind).diags == st.diags + added
    ensures AddedOnLine(added, st, n, kind)
    ensures |added| > 1 ==>
      kind.Close? && |st.stack| > 0 && forall i :: 0 <= i < |added| ==> added[i].code == FieldRequired
    ensures |added| == 1 ==>
      var root := |st.stack| == 0;
      match kind
      case Close => added[0].code == (if root then UnmatchedClose else FieldRequired)
      case Unparsed => added[0].code == Parse
      case OpenScope(key) =>
        if root then added[0].code == ScopeUnknown && key !in reg.topLevel
        else added[0].code == FieldUnknown && FindField(reg, st.stack[|st.stack| - 1].name, key).None?
      case Assign(key, _) =>
        if root then added[0].code == RootField
        else if FindField(reg, st.stack[|st.stack| - 1].name, key).None? then added[0].code == FieldUnknown
        else added[0].code == TypeInteger || added[0].code == TypeEnum
      case _ => false
    ensures |added| == 0 ==>
      var root := |st.stack| == 0;
      match kind
      case Close => !root
      case Unparsed => false
      case OpenScope(key) =>
        if root then key in reg.topLevel
        else FindField(reg, st.stack[|st.stack| - 1].name, key).Some?
      case Assign(key, _) => !root && FindField(reg, st.stack[|st.stack| - 1].name, key).Some?
      case _ => true
  {
    var r := Apply(reg, st, n, raw, kind);
    added := r.diags[|st.diags|..];
    assert r.diags == st.diags + added;
    if kind.Close? && |st.stack| > 0 {
      var top := st.stack[|st.stack| - 1];
      forall i | 0 <= i < |added|
        ensures added[i] == RequiredDiag(top, n, added[i].subject)
      {
        assert added[i] in RequiredFieldDiags(reg, top, n);
      }
    }
  }

  /** The per-line counts of `ApplyRootCounts`, `ApplyLineCounts` and
      `ApplyTypeCounts` for a raw line, classified as the linter classifies it. */
  lemma StepCounts(reg: Registry, st: State, n: int, raw: string)
    ensures var r := Step(reg, st, n, raw); var kind := Classify(raw); var root := |st.stack| == 0;
      && Count(r.diags, UnmatchedClose) == Count(st.diags, UnmatchedClose) + (if root && kind.Close? then 1 else 0)
      && Count(r.diags, ScopeUnknown) == Count(st.diags, ScopeUnknown)
           + (if root && kind.OpenScope? && kind.key !in reg.topLevel then 1 else 0)
      && Count(r.diags, RootField) == Count(st.diags, RootField) + (if root && kind.Assign? then 1 else 0)
      && Count(r.diags, Parse) == Count(st.diags, Parse) + (if kind.Unparsed? then 1 else 0)
      && Count(r.diags, FieldUnknown) == Count(st.diags, FieldUnknown)
           + (if !root && (kind.OpenScope? || kind.Assign?)
                 && FindField(reg, st.stack[|st.stack| - 1].name, kind.key).None? then 1 else 0)
      && Count(r.diags, ScopeUnclosed) == Count(st.diags, ScopeUnclosed)
      && Count(r.diags, TypeInteger) == Count(st.diags, TypeInteger)
           + (if AssignedField(reg, st, kind).Some? && AssignedField(reg, st, kind).value.kind == IntegerField
                 && !IsIntegerLiteral(kind.value) then 1 else 0)
      && Count(r.diags, TypeEnum) == Count(st.diags, TypeEnum)
           + (if AssignedField(reg, st, kind).Some? && AssignedField(reg, st, kind).value.kind == EnumField
                 && |AssignedField(reg, st, kind).value.values| > 0
                 && StripBy(kind.value, Quote) !in AssignedField(reg, st, kind).value.values then 1 else 0)
  {
    ApplyRootCounts(reg, st, n, raw, Classify(raw));
    ApplyLineCounts(reg, st, n, raw, Classify(raw));
    ApplyTypeCounts(reg, st, n, raw, Classify(raw));
  }
}
