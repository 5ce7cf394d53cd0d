/** Line-level syntax of the scripting language as the linter sees it: each line
    is blank, a comment, a closing brace, a `key = {` scope opening, a
    `key = value` assignment, or unparseable. The regular expressions of the
    source are written out as character-class predicates. */
module LineSyntax {
  import opened Wrappers
  import opened Text

  predicate IsKeyStart(c: char) {
    IsLetter(c) || c == '_'
  }

  predicate IsKeyChar(c: char) {
    In(c, KeyTail)
  }

  /** The key pattern `[A-Za-z_][\w-]*`. */
  predicate IsKey(k: string) {
    |k| > 0 && IsKeyStart(k[0]) && forall i :: 1 <= i < |k| ==> IsKeyChar(k[i])
  }

  /** The text between key and value: optional whitespace, one `=`, optional
      whitespace (`\s*=\s*`). */
  predicate IsSeparator(m: string) {
    exists e :: 0 <= e < |m| && m[e] == '=' && SpacesAround(m, e)
  }

  predicate SpacesAround(m: string, e: nat) {
    forall j :: 0 <= j < |m| && j != e ==> IsSpace(m[j])
  }

  /** Length of the longest key-shaped prefix of `s` (0 when there is none). */
  function KeyLength(s: string): (n: nat)
    ensures n <= |s|
    ensures n > 0 ==> IsKeyStart(s[0]) && forall i :: 1 <= i < n ==> IsKeyChar(s[i])
    ensures 0 < n < |s| ==> !IsKeyChar(s[n])
    ensures n == 0 <==> |s| == 0 || !IsKeyStart(s[0])
  {
    if |s| == 0 || !IsKeyStart(s[0]) then 0 else SkipFrom(s, 1, KeyTail)
  }

  /** The two groups of a successful assignment match. */
  datatype Assignment = Assignment(key: string, rest: string)

  /** `re.match(r'^(?P<key>[A-Za-z_][\w-]*)\s*=\s*(?P<value>.+)$', s)` applied to
      a stripped line. The key group is the longest key-shaped prefix (a shorter
      one would leave a key character where `\s*=` must start); the value group is
      everything after the whitespace that follows `=`, which must be non-empty
      and free of line feeds (`.` does not match `\n`). */
  function MatchAssignment(s: string): (r: Option<Assignment>)
    ensures r.Some? ==>
      && |r.value.key| > 0 && |r.value.rest| > 0 && |r.value.key| + |r.value.rest| < |s|
      && s[..|r.value.key|] == r.value.key && s[|s| - |r.value.rest|..] == r.value.rest
  {
    var k := KeyLength(s);
    if k == 0 then None
    else
      var j := SkipFrom(s, k, Whitespace);
      if j == |s| || s[j] != '=' then None
      else
        var m := SkipFrom(s, j + 1, Whitespace);
        if m == |s| || '\n' in s[m..] then None
        else Some(Assignment(s[..k], s[m..]))
  }

  /** What a successful match consists of: a key, then a separator, then a
      non-empty value that starts with a non-space and holds no line feed. */
  lemma MatchAssignmentSound(s: string)
    requires MatchAssignment(s).Some?
    ensures SplitsAs(s, MatchAssignment(s).value)
  {
    var k := KeyLength(s);
    var j := SkipFrom(s, k, Whitespace);
    var m := SkipFrom(s, j + 1, Whitespace);
    SeparatorBetween(s, k, j, m);
    assert s[m..][0] == s[m];
  }

  /** Whitespace, one `=` at `j`, whitespace: the text from `k` to `m` is a
      separator. */
  lemma SeparatorBetween(s: string, k: nat, j: nat, m: nat)
    requires k <= j < m <= |s| && s[j] == '='
    requires forall i :: k <= i < j ==> In(s[i], Whitespace)
    requires forall i :: j + 1 <= i < m ==> In(s[i], Whitespace)
    ensures IsSeparator(s[k..m])
  {
    var mid := s[k..m];
    assert mid[j - k] == '=';
    assert SpacesAround(mid, j - k) by {
      forall i | 0 <= i < |mid| && i != j - k
        ensures IsSpace(mid[i])
      {
        assert mid[i] == s[k + i];
      }
    }
  }

  /** `s` is a key, then a separator, then a non-empty value that starts with
      a non-space and holds no line feed, with `a` holding the key and the value. */
  predicate SplitsAs(s: string, a: Assignment) {
    && IsKey(a.key)
    && |a.rest| > 0 && !IsSpace(a.rest[0]) && '\n' !in a.rest
    && |a.key| + |a.rest| < |s|
    && s[..|a.key|] == a.key && s[|s| - |a.rest|..] == a.rest
    && IsSeparator(s[|a.key|..|s| - |a.rest|])
  }

  /** Every key, separator and value of the right shape is matched, with the
      groups recovered exactly: the converse of `MatchAssignmentSound`. */
  lemma MatchAssignmentComplete(k: string, m: string, v: string)
    requires IsKey(k) && IsSeparator(m)
    requires |v| > 0 && !IsSpace(v[0]) && '\n' !in v
    ensures MatchAssignment(k + m + v) == Some(Assignment(k, v))
  {
    var e :| 0 <= e < |m| && m[e] == '=' && SpacesAround(m, e);
    var s := k + m + v;
    assert s[..|k|] == k;
    assert s[|k| + |m|..] == v;
    assert !IsKeyChar(m[0]) by {
      if e != 0 { assert IsSpace(m[0]); }
    }
    assert forall i :: |k| <= i < |k| + |m| ==> s[i] == m[i - |k|];
    MatchAt(s, |k|, e, |m|);
  }

  /** `MatchAssignment` on a line laid out as a `k`-character key, a separator
      of `len` characters with its `=` at offset `e`, and a value. */
  lemma MatchAt(s: string, k: nat, e: nat, len: nat)
    requires 0 < k && e < len && k + len < |s|
    requires IsKeyStart(s[0]) && forall i :: 1 <= i < k ==> IsKeyChar(s[i])
    requires !IsKeyChar(s[k])
    requires s[k + e] == '=' && forall i :: k <= i < k + len && i != k + e ==> IsSpace(s[i])
    requires !IsSpace(s[k + len]) && '\n' !in s[k + len..]
    ensures MatchAssignment(s) == Some(Assignment(s[..k], s[k + len..]))
  {
    SkipFromUnique(s, 1, KeyTail, k);
    SkipFromUnique(s, k, Whitespace, k + e);
    SkipFromUnique(s, k + e + 1, Whitespace, k + len);
  }

  /** How the linter classifies one raw line. */
  datatype LineKind =
    | Blank
    | Comment
    | Close
    | Unparsed
    | OpenScope(key: string)
    | Assign(key: string, value: string)

  /** The classification `run_static_analysis` makes of a line: strip it; skip
      it when empty or starting with `#`; a closing brace when it starts with `}`;
      otherwise match the assignment pattern, cut the value at the first `#`,
      strip it, and treat a value of exactly `{` as a scope opening. */
  function Classify(raw: string): (r: LineKind)
    ensures Describes(raw, r)
  {
    var s := Strip(raw);
    StripEmpty(raw, Whitespace);
    StripBySpec(raw, Whitespace);
    if |s| > 0 && s[0] != '#' && s[0] != '}' && MatchAssignment(s).Some? then
      ClassifyKeyed(raw);
      ClassifyStripped(s)
    else ClassifyStripped(s)
  }

  function ClassifyStripped(s: string): LineKind {
    if |s| == 0 then Blank
    else if s[0] == '#' then Comment
    else if s[0] == '}' then Close
    else
      match MatchAssignment(s)
      case None => Unparsed
      case Some(a) =>
        var value := Strip(Before(a.rest, '#'));
        if value == "{" then OpenScope(a.key) else Assign(a.key, value)
  }

  /** What classification `r` says about the raw line: blank lines are exactly
      the all-whitespace ones; comment and closing lines are recognised by their
      first non-blank character; a scope opening or assignment names a key of the
      key pattern; an assignment's value is stripped, comment-free and never the
      scope-opening `{`. */
  predicate Describes(raw: string, r: LineKind) {
    && (r.Blank? <==> forall i :: 0 <= i < |raw| ==> IsSpace(raw[i]))
    && (r.Comment? <==> |Strip(raw)| > 0 && Strip(raw)[0] == '#')
    && (r.Close? <==> |Strip(raw)| > 0 && Strip(raw)[0] == '}')
    && ((r.OpenScope? || r.Assign?) ==> IsKey(r.key))
    && (r.Assign? ==> r.value != "{" && '#' !in r.value)
    && (r.Assign? && |r.value| > 0 ==> !IsSpace(r.value[0]) && !IsSpace(r.value[|r.value| - 1]))
  }

  /** The key of a scope opening or assignment sits at the line's first
      non-blank column. */
  lemma KeyAtFirstColumn(raw: string)
    requires Classify(raw).OpenScope? || Classify(raw).Assign?
    ensures OccursAt(raw, Classify(raw).key, Leading(raw, Whitespace))
  {
    ClassifyKeyed(raw);
  }

  /** A scope opening or assignment comes from a match of the stripped line: its
      key is the key group, and its value (`{` for a scope opening) is the value
      group cut at the first `#` and stripped. */
  lemma ClassifyValueGroup(raw: string)
    requires Classify(raw).OpenScope? || Classify(raw).Assign?
    ensures var m := MatchAssignment(Strip(raw));
      && m.Some? && Classify(raw).key == m.value.key
      && Strip(Before(m.value.rest, '#')) == if Classify(raw).Assign? then Classify(raw).value else "{"
  {
  }

  lemma ClassifyKeyed(raw: string)
    requires var s := Strip(raw); |s| > 0 && s[0] != '#' && s[0] != '}' && MatchAssignment(s).Some?
    ensures var r := ClassifyStripped(Strip(raw));
      && IsKey(r.key) && OccursAt(raw, r.key, Leading(raw, Whitespace))
      && (r.Assign? ==> r.value != "{" && '#' !in r.value)
      && (r.Assign? && |r.value| > 0 ==> !IsSpace(r.value[0]) && !IsSpace(r.value[|r.value| - 1]))
  {
    var s := Strip(raw);
    var a := MatchAssignment(s).value;
    MatchAssignmentSound(s);
    StrippedPrefixOccurs(raw, a.key);
    CleanValue(a.rest);
  }

  /** A prefix of the stripped line occurs in the raw line at its first
      non-blank column. */
  lemma StrippedPrefixOccurs(raw: string, u: string)
    requires u <= Strip(raw)
    ensures OccursAt(raw, u, Leading(raw, Whitespace))
  {
    StripBySpec(raw, Whitespace);
    var l := Leading(raw, Whitespace);
    assert raw[l..l + |u|] == Strip(raw)[..|u|];
  }

  /** The value an assignment keeps, cut at the first `#` and stripped, holds no
      `#` and neither starts nor ends with whitespace. */
  lemma CleanValue(rest: string)
    ensures var v := Strip(Before(rest, '#'));
      && '#' !in v
      && (|v| > 0 ==> !IsSpace(v[0]) && !IsSpace(v[|v| - 1]))
  {
    BeforeSpec(rest, '#');
    StripKeepsOut(Before(rest, '#'), Whitespace, '#');
    StripBySpec(Before(rest, '#'), Whitespace);
  }

  /** A line written as indentation, key, separator, a stripped, comment-free
      value and trailing whitespace is classified as that assignment, or as a
      scope opening when the value is `{`: the line printer these pieces describe
      is inverted by `Classify`. */
  lemma ClassifyWrittenLine(indent: string, k: string, m: string, v: string, w: string)
    requires forall i :: 0 <= i < |indent| ==> IsSpace(indent[i])
    requires IsKey(k) && IsSeparator(m)
    requires |v| > 0 && !IsSpace(v[0]) && !IsSpace(v[|v| - 1])
    requires forall i :: 0 <= i < |w| ==> IsSpace(w[i])
    requires '#' !in v && '\n' !in v
    ensures Classify(indent + k + m + v + w) == if v == "{" then OpenScope(k) else Assign(k, v)
  {
    var body := k + m + v;
    assert indent + k + m + v + w == indent + body + w;
    assert body[0] == k[0];
    assert body[|body| - 1] == v[|v| - 1];
    StripPadded(indent, body, w, Whitespace);
    ClassifyBody(k, m, v);
  }

  /** A written line followed by whitespace and a `#` comment is classified as
      the same line without the comment: the value is cut at the first `#` and
      stripped, so `rank = duke # note` assigns `duke`, and `key = { # note`
      opens a scope. */
  lemma ClassifyCommentedLine(indent: string, k: string, m: string, v: string, w: string, c: string)
    requires forall i :: 0 <= i < |indent| ==> IsSpace(indent[i])
    requires IsKey(k) && IsSeparator(m)
    requires |v| > 0 && !IsSpace(v[0]) && !IsSpace(v[|v| - 1])
    requires forall i :: 0 <= i < |w| ==> IsSpace(w[i])
    requires '#' !in v && '\n' !in v && '\n' !in w && '\n' !in c
    ensures Classify(indent + k + m + v + w + "#" + c)
         == if v == "{" then OpenScope(k) else Assign(k, v)
  {
    var body := k + m + v + w + "#" + c;
    var cut := |k| + |m| + |v| + |w|;
    assert indent + k + m + v + w + "#" + c == indent + body;
    assert body[0] == k[0];
    assert body[cut] == '#';
    StripPaddedLeftPrefix(indent, body, cut, Whitespace);
    var s := Strip(indent + body);
    var kept := c[..|s| - cut - 1];
    assert s == k + m + v + w + "#" + kept;
    assert '\n' !in kept by {
      assert forall i :: 0 <= i < |kept| ==> kept[i] == c[i];
    }
    ClassifyCommentedBody(k, m, v, w, kept);
  }

  /** The stripped-line half of `ClassifyCommentedLine`. */
  lemma ClassifyCommentedBody(k: string, m: string, v: string, w: string, c: string)
    requires IsKey(k) && IsSeparator(m)
    requires |v| > 0 && !IsSpace(v[0]) && !IsSpace(v[|v| - 1])
    requires forall i :: 0 <= i < |w| ==> IsSpace(w[i])
    requires '#' !in v && '\n' !in v && '\n' !in w && '\n' !in c
    ensures ClassifyStripped(k + m + v + w + "#" + c)
         == if v == "{" then OpenScope(k) else Assign(k, v)
  {
    var rest := v + w + "#" + c;
    assert k + m + v + w + "#" + c == k + m + rest;
    CommentedValue(v, w, c);
    ClassifyKeyValue(k, m, rest);
  }

  /** A stripped line made of a key, a separator and a value group is classified
      by the value group cut at its first `#` and stripped. */
  lemma ClassifyKeyValue(k: string, m: string, rest: string)
    requires IsKey(k) && IsSeparator(m)
    requires |rest| > 0 && !IsSpace(rest[0]) && '\n' !in rest
    ensures var value := Strip(Before(rest, '#'));
      ClassifyStripped(k + m + rest) == if value == "{" then OpenScope(k) else Assign(k, value)
  {
    assert (k + m + rest)[0] == k[0];
    MatchAssignmentComplete(k, m, rest);
    ClassifyMatched(k + m + rest, Assignment(k, rest));
  }

  /** A value, whitespace and a comment: the value group of such a line, which
      the cut at `#` and the strip reduce to the value itself. */
  lemma CommentedValue(v: string, w: string, c: string)
    requires |v| > 0 && !IsSpace(v[0]) && !IsSpace(v[|v| - 1])
    requires forall i :: 0 <= i < |w| ==> IsSpace(w[i])
    requires '#' !in v && '\n' !in v && '\n' !in w && '\n' !in c
    ensures var rest := v + w + "#" + c;
      && !IsSpace(rest[0]) && '\n' !in rest
      && Strip(Before(rest, '#')) == v
  {
    var rest := v + w + "#" + c;
    assert rest[0] == v[0];
    CommentCut(v + w, c);
    assert v + w + "#" + c == (v + w) + "#" + c;
    StripPadded("", v, w, Whitespace);
    assert "" + v + w == v + w;
  }

  /** Cutting `t + "#" + c` at its first `#` leaves `t` when `t` has none. */
  lemma CommentCut(t: string, c: string)
    requires '\n' !in t && '\n' !in c && forall i :: 0 <= i < |t| ==> t[i] != '#'
    ensures '\n' !in t + "#" + c && Before(t + "#" + c, '#') == t
  {
    var rest := t + "#" + c;
    assert rest[..|t|] == t;
    BeforeAt(rest, '#', |t|);
  }

  /** The stripped-line half of `ClassifyWrittenLine`. */
  lemma ClassifyBody(k: string, m: string, v: string)
    requires IsKey(k) && IsSeparator(m)
    requires |v| > 0 && !IsSpace(v[0]) && !IsSpace(v[|v| - 1])
    requires '#' !in v && '\n' !in v
    ensures ClassifyStripped(k + m + v) == if v == "{" then OpenScope(k) else Assign(k, v)
  {
    assert Strip(Before(v, '#')) == v by {
      BeforeSpec(v, '#');
      StripPaddedLeft("", v, Whitespace);
      assert "" + v == v;
    }
    ClassifyKeyValue(k, m, v);
  }

  /** A stripped line that is neither a comment nor a closing brace and matches
      the assignment pattern is classified by its cleaned value. */
  lemma ClassifyMatched(s: string, a: Assignment)
    requires |s| > 0 && s[0] != '#' && s[0] != '}' && MatchAssignment(s) == Some(a)
    ensures var value := Strip(Before(a.rest, '#'));
      ClassifyStripped(s) == if value == "{" then OpenScope(a.key) else Assign(a.key, value)
  {
  }

  /** The integer pattern `-?\d+`, matched against the whole value. */
  predicate IsIntegerLiteral(v: string) {
    var digits := if |v| > 0 && v[0] == '-' then v[1..] else v;
    |digits| > 0 && forall i :: 0 <= i < |digits| ==> IsDigit(digits[i])
  }

  /** Decimal spelling of a natural number. */
  function NatText(n: nat): (r: string)
    ensures |r| > 0
    ensures forall i :: 0 <= i < |r| ==> IsDigit(r[i])
  {
    var d := ['0' + (n % 10) as char];
    if n < 10 then d else NatText(n / 10) + d
  }

  /** Decimal spelling of an integer, with `-` for negatives. */
  function IntText(n: int): string {
    if n < 0 then "-" + NatText(-n) else NatText(n)
  }

  /** Every integer written in decimal passes the integer pattern. */
  lemma IntTextIsIntegerLiteral(n: int)
    ensures IsIntegerLiteral(IntText(n))
  {
    if n < 0 {
      assert IntText(n)[1..] == NatText(-n);
    }
  }
}
