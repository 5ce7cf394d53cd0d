/** String helpers standing in for the Python `str` methods and regular-expression
    character classes the linter and the build helpers rely on. Character classes
    are restricted to ASCII. */
module Text {
  import opened Wrappers

  /** Python's `str.isspace()` on ASCII: tab, line feed, vertical tab, form feed,
      carriage return, the separators U+001C..U+001F, and space. `\s` in a `str`
      pattern matches the same characters. */
  predicate IsSpace(c: char) {
    c == ' ' || ('\t' <= c <= '\r') || ('\U{001C}' <= c <= '\U{001F}')
  }

  /** `\d` restricted to ASCII. */
  predicate IsDigit(c: char) {
    '0' <= c <= '9'
  }

  predicate IsLetter(c: char) {
    ('a' <= c <= 'z') || ('A' <= c <= 'Z')
  }

  /** `\w` restricted to ASCII. */
  predicate IsWordChar(c: char) {
    IsLetter(c) || IsDigit(c) || c == '_'
  }

  /** The character classes the source strips or scans over. */
  datatype CharClass =
    | Whitespace  // `\s`
    | KeyTail     // `[\w-]`
    | Quote       // `"`

  predicate In(c: char, cls: CharClass) {
    match cls
    case Whitespace => IsSpace(c)
    case KeyTail => IsWordChar(c) || c == '-'
    case Quote => c == '"'
  }

  /** The first index at or after `i` whose character is not in class `p`
      (or `|s|`): the end of a `p*` run that starts at `i`. */
  function SkipFrom(s: string, i: nat, p: CharClass): (r: nat)
    requires i <= |s|
    ensures i <= r <= |s|
    ensures forall j :: i <= j < r ==> In(s[j], p)
    ensures r < |s| ==> !In(s[r], p)
    decreases |s| - i
  {
    if i == |s| || !In(s[i], p) then i else SkipFrom(s, i + 1, p)
  }

  /** A `p*` run is determined by where it starts: any index that ends one
      is the index `SkipFrom` computes. */
  lemma SkipFromUnique(s: string, i: nat, p: CharClass, r: nat)
    requires i <= r <= |s|
    requires forall j :: i <= j < r ==> In(s[j], p)
    requires r < |s| ==> !In(s[r], p)
    ensures SkipFrom(s, i, p) == r
  {
  }

  /** The first index of the run of class-`p` characters that ends at `i`. */
  function SkipBack(s: string, i: nat, p: CharClass): (r: nat)
    requires i <= |s|
    ensures r <= i
    ensures forall j :: r <= j < i ==> In(s[j], p)
    ensures r > 0 ==> !In(s[r - 1], p)
  {
    if i == 0 || !In(s[i - 1], p) then i else SkipBack(s, i - 1, p)
  }

  /** Number of leading characters of `s` in class `p`. */
  function Leading(s: string, p: CharClass): nat
  {
    SkipFrom(s, 0, p)
  }

  /** Python's `str.strip(chars)`: drops every leading and trailing character in
      class `p`. */
  function StripBy(s: string, p: CharClass): string {
    var a := SkipFrom(s, 0, p);
    var b := SkipBack(s, |s|, p);
    if b <= a then [] else s[a..b]
  }

  /** The stripped text is the unique infix of `s` that neither starts nor ends
      with a class-`p` character and outside which only such characters occur. */
  lemma StripBySpec(s: string, p: CharClass)
    ensures var r := StripBy(s, p);
      && Leading(s, p) + |r| <= |s|
      && r == s[Leading(s, p)..Leading(s, p) + |r|]
      && (forall i :: Leading(s, p) + |r| <= i < |s| ==> In(s[i], p))
      && (|r| > 0 ==> !In(r[0], p) && !In(r[|r| - 1], p))
      && (|r| == 0 ==> forall i :: 0 <= i < |s| ==> In(s[i], p))
  {
  }

  /** Python's `str.strip()` with no argument. */
  function Strip(s: string): string {
    StripBy(s, Whitespace)
  }

  /** Stripping leaves nothing exactly when every character is in the class. */
  lemma StripEmpty(s: string, p: CharClass)
    ensures |StripBy(s, p)| == 0 <==> forall i :: 0 <= i < |s| ==> In(s[i], p)
  {
    var r := StripBy(s, p);
    StripBySpec(s, p);
    if |r| > 0 {
      assert s[Leading(s, p)] == r[0];
    }
  }

  /** Stripping never introduces a character. */
  lemma StripKeepsOut(s: string, p: CharClass, c: char)
    requires c !in s
    ensures c !in StripBy(s, p)
  {
    var r := StripBy(s, p);
    var a := Leading(s, p);
    StripBySpec(s, p);
    forall i | 0 <= i < |r|
      ensures r[i] != c
    {
      assert r[i] == s[a + i];
    }
  }

  /** Stripping a padded text whose own ends are not class-`p` characters
      returns the text itself. */
  lemma StripPadded(u: string, t: string, w: string, p: CharClass)
    requires forall i :: 0 <= i < |u| ==> In(u[i], p)
    requires forall i :: 0 <= i < |w| ==> In(w[i], p)
    requires |t| > 0 && !In(t[0], p) && !In(t[|t| - 1], p)
    ensures StripBy(u + t + w, p) == t
  {
    var s := u + t + w;
    assert forall i :: 0 <= i < |u| ==> s[i] == u[i];
    assert s[|u|] == t[0];
    SkipFromUnique(s, 0, p, |u|);
    var r := StripBy(s, p);
    StripBySpec(s, p);
    assert forall i :: 0 <= i < |w| ==> s[|u| + |t| + i] == w[i];
    assert s[|u| + |t| - 1] == t[|t| - 1];
    assert |r| == |t|;
    assert s[|u|..|u| + |t|] == t;
  }

  /** `StripPadded` with padding on the left only. */
  lemma StripPaddedLeft(u: string, t: string, p: CharClass)
    requires forall i :: 0 <= i < |u| ==> In(u[i], p)
    requires |t| > 0 && !In(t[0], p) && !In(t[|t| - 1], p)
    ensures StripBy(u + t, p) == t
  {
    assert u + t + "" == u + t;
    StripPadded(u, t, "", p);
  }

  /** Stripping a left-padded text keeps a prefix of the text that reaches past
      every character of it outside class `p`. */
  lemma StripPaddedLeftPrefix(u: string, t: string, e: nat, p: CharClass)
    requires forall i :: 0 <= i < |u| ==> In(u[i], p)
    requires e < |t| && !In(t[0], p) && !In(t[e], p)
    ensures var r := StripBy(u + t, p); e < |r| <= |t| && r == t[..|r|]
  {
    var s := u + t;
    assert forall i :: 0 <= i < |u| ==> s[i] == u[i];
    assert s[|u|] == t[0];
    SkipFromUnique(s, 0, p, |u|);
    StripBySpec(s, p);
    var r := StripBy(s, p);
    assert s[|u| + e] == t[e];
    assert s[|u|..] == t;
  }

  /** `n` occurs in `h` starting at index `i`. */
  predicate OccursAt(h: string, n: string, i: nat) {
    i + |n| <= |h| && h[i..i + |n|] == n
  }

  /** `i` is where `n` first occurs in `h`. */
  predicate FirstOccurrence(h: string, n: string, i: nat) {
    OccursAt(h, n, i) && forall j :: 0 <= j < i ==> !OccursAt(h, n, j)
  }

  /** `n` occurs nowhere in `h`. */
  predicate Nowhere(h: string, n: string) {
    forall j :: 0 <= j <= |h| ==> !OccursAt(h, n, j)
  }

  /** An occurrence of a non-empty `n` starts with `n`'s first character. */
  lemma OccursAtHead(h: string, n: string, i: nat)
    requires OccursAt(h, n, i) && |n| > 0
    ensures i < |h| && h[i] == n[0]
  {
    assert h[i..i + |n|][0] == h[i];
  }

  /** First occurrence of `n` in `h` at or after `i`. */
  function FindFrom(h: string, n: string, i: nat): Option<nat>
    requires i <= |h|
    decreases |h| - i
  {
    if OccursAt(h, n, i) then Some(i)
    else if i == |h| then None
    else FindFrom(h, n, i + 1)
  }

  /** `FindFrom` reports the first occurrence at or after `i`, and `None` only
      when there is none. */
  lemma {:induction false} FindFromSpec(h: string, n: string, i: nat)
    requires i <= |h|
    ensures var r := FindFrom(h, n, i);
      && (r.Some? ==> i <= r.value && OccursAt(h, n, r.value))
      && (r.Some? ==> forall j :: i <= j < r.value ==> !OccursAt(h, n, j))
      && (r.None? ==> forall j :: i <= j <= |h| ==> !OccursAt(h, n, j))
    decreases |h| - i
  {
    if !OccursAt(h, n, i) && i < |h| {
      FindFromSpec(h, n, i + 1);
    }
  }

  /** Python's `str.find`: the first index where `n` occurs in `h` (`None` for -1). */
  function Find(h: string, n: string): Option<nat> {
    FindFrom(h, n, 0)
  }

  lemma FindSpec(h: string, n: string)
    ensures var r := Find(h, n);
      && (r.Some? ==> OccursAt(h, n, r.value))
      && (r.Some? ==> forall j :: 0 <= j < r.value ==> !OccursAt(h, n, j))
      && (r.None? ==> forall j :: 0 <= j <= |h| ==> !OccursAt(h, n, j))
  {
    FindFromSpec(h, n, 0);
  }

  /** First index of character `c` in `s`. */
  function IndexOf(s: string, c: char): (r: Option<nat>)
    ensures r.Some? ==> r.value < |s|
  {
    if |s| == 0 then None
    else if s[0] == c then Some(0)
    else match IndexOf(s[1..], c)
      case None => None
      case Some(i) => Some(i + 1)
  }

  /** `IndexOf` finds the first `c`, and `None` exactly when there is none. */
  lemma {:induction false} IndexOfSpec(s: string, c: char)
    ensures var r := IndexOf(s, c);
      && (r.Some? ==> s[r.value] == c && c !in s[..r.value])
      && (r.None? <==> c !in s)
  {
    if |s| > 0 && s[0] != c {
      IndexOfSpec(s[1..], c);
      assert s == [s[0]] + s[1..];
      match IndexOf(s[1..], c)
      case None =>
      case Some(i) =>
        assert s[..i + 1] == [s[0]] + s[1..][..i];
    }
  }

  /** Any index holding the first `c` is the one `IndexOf` reports. */
  lemma {:induction false} IndexOfUnique(s: string, c: char, i: nat)
    requires i < |s| && s[i] == c && c !in s[..i]
    ensures IndexOf(s, c) == Some(i)
  {
    if i > 0 {
      assert s[0] == s[..i][0];
      assert s[1..][..i - 1] == s[1..i];
      assert s[1..i] <= s[..i][1..];
      IndexOfUnique(s[1..], c, i - 1);
    }
  }

  /** Python's `s.split(c, 1)[0]`: the part of `s` before the first `c`. */
  function Before(s: string, c: char): string {
    match IndexOf(s, c)
    case None => s
    case Some(i) => s[..i]
  }

  /** The part before the first `c` is the longest `c`-free prefix. */
  lemma BeforeSpec(s: string, c: char)
    ensures var r := Before(s, c);
      && c !in r
      && r <= s
      && (c in s ==> |r| < |s| && s[|r|] == c)
      && (c !in s ==> r == s)
  {
    IndexOfSpec(s, c);
  }

  /** The part before the first `c` ends at any `c` with no `c` before it. */
  lemma BeforeAt(s: string, c: char, i: nat)
    requires i < |s| && s[i] == c && c !in s[..i]
    ensures Before(s, c) == s[..i]
  {
    BeforeSpec(s, c);
  }

  /** Python's `s.split(c)` (no limit). */
  function Split(s: string, c: char): (r: seq<string>)
    ensures |r| >= 1
    decreases |s|
  {
    match IndexOf(s, c)
    case None => [s]
    case Some(i) => [s[..i]] + Split(s[i + 1..], c)
  }

  /** Python's `c.join(xs)`. */
  function Join(xs: seq<string>, c: char): string {
    if |xs| == 0 then ""
    else if |xs| == 1 then xs[0]
    else xs[0] + [c] + Join(xs[1..], c)
  }

  /** Splitting undoes joining when no part contains the separator. */
  lemma {:induction false} SplitJoin(xs: seq<string>, c: char)
    requires |xs| >= 1
    requires forall k :: 0 <= k < |xs| ==> c !in xs[k]
    ensures Split(Join(xs, c), c) == xs
  {
    if |xs| == 1 {
      IndexOfSpec(xs[0], c);
    } else {
      var s := Join(xs, c);
      var tail := Join(xs[1..], c);
      assert s == xs[0] + [c] + tail;
      assert s[..|xs[0]|] == xs[0];
      assert s[|xs[0]|] == c;
      assert c !in s[..|xs[0]|];
      IndexOfUnique(s, c, |xs[0]|);
      assert s[|xs[0]| + 1..] == tail;
      SplitJoin(xs[1..], c);
      assert xs == [xs[0]] + xs[1..];
    }
  }

  /** ASCII lower-casing of one character (Python's `str.lower` on ASCII). */
  function LowerChar(c: char): (r: char)
    ensures 'A' <= c <= 'Z' ==> 'a' <= r <= 'z'
    ensures !('A' <= c <= 'Z') ==> r == c
  {
    if 'A' <= c <= 'Z' then (c as int - 'A' as int + 'a' as int) as char else c
  }

  function Lower(s: string): (r: string)
    ensures |r| == |s|
    ensures forall i :: 0 <= i < |s| ==> r[i] == LowerChar(s[i])
  {
    seq(|s|, i requires 0 <= i < |s| => LowerChar(s[i]))
  }

  /** Last index of character `c` in `s` (Python's `str.rfind`). */
  function LastIndexOf(s: string, c: char): (r: Option<nat>)
    ensures r.Some? ==> r.value < |s| && s[r.value] == c && c !in s[r.value + 1..]
    ensures r.None? <==> c !in s
  {
    if |s| == 0 then None
    else if s[|s| - 1] == c then Some(|s| - 1)
    else
      match LastIndexOf(s[..|s| - 1], c)
      case None =>
        assert s == s[..|s| - 1] + [s[|s| - 1]];
        None
      case Some(i) =>
        assert s[i + 1..] == s[..|s| - 1][i + 1..] + [s[|s| - 1]];
        Some(i)
  }
}
