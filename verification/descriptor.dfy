/** The `descriptor.mod` file the build writes into every mod archive: three
    quoted `key="value"` lines, an optional `tags={ ... }` line, one line feed
    after each. */
module Descriptor {
  import opened Wrappers
  import opened Text

  /** The descriptor keys of a project's metadata dictionary: each is absent
      (`None`) or present with its value already rendered as text. */
  datatype Metadata = Metadata(
    name: Option<string>,
    version: Option<string>,
    supportedVersion: Option<string>,
    tags: Option<seq<string>>)

  /** The values a descriptor is written from, defaults applied. */
  datatype DescriptorFields = DescriptorFields(
    version: string,
    name: string,
    supportedVersion: string,
    tags: seq<string>)

  const DefaultVersion := "1.0"
  const DefaultSupportedVersion := "1.11.*"
  const NamePrefix := "OpenCK3 "
  const TagsOpen := "tags={ "
  const TagsClose := " }"

  /** Looks up each key of the metadata, falling back to the build defaults:
      the name `OpenCK3 <project id>`, version `1.0`, supported version `1.11.*`
      and no tags. A key that is present keeps its value, even an empty one. */
  function Resolve(projectId: string, meta: Metadata): (d: DescriptorFields)
    ensures meta.name.None? ==> d.name == NamePrefix + projectId
    ensures meta.version.None? ==> d.version == DefaultVersion
    ensures meta.supportedVersion.None? ==> d.supportedVersion == DefaultSupportedVersion
    ensures meta.tags.None? ==> d.tags == []
    ensures meta.name.Some? ==> d.name == meta.name.value
    ensures meta.version.Some? ==> d.version == meta.version.value
    ensures meta.supportedVersion.Some? ==> d.supportedVersion == meta.supportedVersion.value
    ensures meta.tags.Some? ==> d.tags == meta.tags.value
  {
    DescriptorFields(
      meta.version.GetOr(DefaultVersion),
      meta.name.GetOr(NamePrefix + projectId),
      meta.supportedVersion.GetOr(DefaultSupportedVersion),
      meta.tags.GetOr([]))
  }

  /** A `key="value"` line. */
  function QuotedLine(key: string, value: string): string {
    key + "=\"" + value + "\""
  }

  /** The `tags={ a,b,c }` line: tags joined by commas, no spaces between them. */
  function TagsLine(tags: seq<string>): string {
    TagsOpen + Join(tags, ',') + TagsClose
  }

  /** The lines of the descriptor, without their line feeds. */
  function Lines(d: DescriptorFields): seq<string> {
    [QuotedLine("version", d.version),
     QuotedLine("name", d.name),
     QuotedLine("supported_version", d.supportedVersion)]
    + (if |d.tags| > 0 then [TagsLine(d.tags)] else [])
  }

  function Render(d: DescriptorFields): string {
    Join(Lines(d), '\n') + "\n"
  }

  /** `_render_descriptor`: the descriptor of the metadata with the defaults
      applied, which reads back as exactly those values when they fit on their
      lines. */
  function RenderDescriptor(projectId: string, meta: Metadata): (r: string)
    ensures LineSafe(Resolve(projectId, meta)) ==> Parse(r) == Some(Resolve(projectId, meta))
  {
    var d := Resolve(projectId, meta);
    if LineSafe(d) then ParseRender(d); Render(d) else Render(d)
  }

  /** The value of a `key="value"` line, if the line has that shape. */
  function ParseQuoted(line: string, key: string): (r: Option<string>)
    ensures r.Some? ==> line == QuotedLine(key, r.value)
  {
    var p := key + "=\"";
    if |line| > |p| && line[..|p|] == p && line[|line| - 1] == '"' then
      assert line == line[..|p|] + line[|p|..|line| - 1] + [line[|line| - 1]];
      Some(line[|p|..|line| - 1])
    else None
  }

  /** The tags of a `tags={ ... }` line, if the line has that shape. */
  function ParseTags(line: string): (r: Option<seq<string>>)
    ensures r.Some? ==> |r.value| > 0 && TagsLine(r.value) == line
  {
    var n := |TagsOpen|;
    var m := |TagsClose|;
    if |line| >= n + m && line[..n] == TagsOpen && line[|line| - m..] == TagsClose then
      JoinSplit(line[n..|line| - m], ',');
      assert line == line[..n] + line[n..|line| - m] + line[|line| - m..];
      Some(Split(line[n..|line| - m], ','))
    else None
  }

  /** Reads a descriptor back: the lines up to the final line feed, which must
      be there. */
  function Parse(text: string): Option<DescriptorFields> {
    var ls := Split(text, '\n');
    if ls[|ls| - 1] != "" then None else ParseLines(ls[..|ls| - 1])
  }

  /** The three quoted lines in their fixed order, then an optional tags line. */
  function ParseLines(ls: seq<string>): (r: Option<DescriptorFields>)
    ensures r.Some? ==> Lines(r.value) == ls
  {
    if |ls| < 3 || |ls| > 4 then None
    else
      var v := ParseQuoted(ls[0], "version");
      var n := ParseQuoted(ls[1], "name");
      var s := ParseQuoted(ls[2], "supported_version");
      if v.None? || n.None? || s.None? then None
      else if |ls| == 3 then Some(DescriptorFields(v.value, n.value, s.value, []))
      else
        match ParseTags(ls[3])
        case None => None
        case Some(ts) => Some(DescriptorFields(v.value, n.value, s.value, ts))
  }

  /** Values that can be written on one line: no line feed anywhere, and no comma
      inside a tag. */
  predicate LineSafe(d: DescriptorFields) {
    && '\n' !in d.version && '\n' !in d.name && '\n' !in d.supportedVersion
    && forall i :: 0 <= i < |d.tags| ==> '\n' !in d.tags[i] && ',' !in d.tags[i]
  }

  /** Joining with a trailing empty part appends one separator. */
  lemma {:induction false} JoinTrailing(xs: seq<string>, c: char)
    requires |xs| >= 1
    ensures Join(xs + [""], c) == Join(xs, c) + [c]
  {
    if |xs| == 1 {
      assert Join(xs + [""], c) == xs[0] + [c] + Join([""], c);
    } else {
      assert (xs + [""])[1..] == xs[1..] + [""];
      JoinTrailing(xs[1..], c);
    }
  }

  /** Joining the parts of a split gives back the text. */
  lemma {:induction false} JoinSplit(s: string, c: char)
    ensures Join(Split(s, c), c) == s
    decreases |s|
  {
    IndexOfSpec(s, c);
    match IndexOf(s, c) {
      case None =>
      case Some(i) =>
        var rest := Split(s[i + 1..], c);
        JoinSplit(s[i + 1..], c);
        assert ([s[..i]] + rest)[1..] == rest;
        assert s == s[..i] + [c] + s[i + 1..];
    }
  }

  /** No line contains a line feed when no value does. */
  lemma LinesSafe(d: DescriptorFields)
    requires LineSafe(d)
    ensures forall k :: 0 <= k < |Lines(d)| ==> '\n' !in Lines(d)[k]
  {
    if |d.tags| > 0 {
      JoinKeepsOut(d.tags, ',', '\n');
    }
  }

  /** A joined text contains a character only if a part or the separator does. */
  lemma {:induction false} JoinKeepsOut(xs: seq<string>, c: char, x: char)
    requires x != c
    requires forall k :: 0 <= k < |xs| ==> x !in xs[k]
    ensures x !in Join(xs, c)
  {
    if |xs| > 1 {
      JoinKeepsOut(xs[1..], c, x);
    }
  }

  /** Reading a rendered descriptor recovers exactly the values it was written
      from, with no tags line when the tag list is empty. */
  lemma ParseRender(d: DescriptorFields)
    requires LineSafe(d)
    ensures Parse(Render(d)) == Some(d)
  {
    var ls := Lines(d);
    assert Split(Render(d), '\n') == ls + [""] by {
      LinesSafe(d);
      JoinTrailing(ls, '\n');
      SplitJoin(ls + [""], '\n');
    }
    assert (ls + [""])[..|ls|] == ls;
    ParseLinesOfLines(d);
  }

  /** The lines of line-safe values read back as those values. */
  lemma ParseLinesOfLines(d: DescriptorFields)
    requires forall i :: 0 <= i < |d.tags| ==> ',' !in d.tags[i]
    ensures ParseLines(Lines(d)) == Some(d)
  {
    QuotedRoundTrip("version", d.version);
    QuotedRoundTrip("name", d.name);
    QuotedRoundTrip("supported_version", d.supportedVersion);
    if |d.tags| > 0 {
      TagsRoundTrip(d.tags);
    }
  }

  lemma QuotedRoundTrip(key: string, value: string)
    ensures ParseQuoted(QuotedLine(key, value), key) == Some(value)
  {
    var line := QuotedLine(key, value);
    var p := key + "=\"";
    assert line[..|p|] == p;
    assert line[|p|..|line| - 1] == value;
  }

  lemma TagsRoundTrip(tags: seq<string>)
    requires |tags| > 0
    requires forall i :: 0 <= i < |tags| ==> ',' !in tags[i]
    ensures ParseTags(TagsLine(tags)) == Some(tags)
  {
    var line := TagsLine(tags);
    assert line[|TagsOpen|..|line| - |TagsClose|] == Join(tags, ',');
    SplitJoin(tags, ',');
  }

  /** Conversely, every text `Parse` accepts is exactly the rendering of what it
      reads: the descriptor format has one spelling per set of values. */
  lemma RenderParse(text: string)
    requires Parse(text).Some?
    ensures Render(Parse(text).value) == text
  {
    var ls := Split(text, '\n');
    var body := ls[..|ls| - 1];
    assert ls == body + [""];
    JoinSplit(text, '\n');
    JoinTrailing(body, '\n');
  }

  /** The rendered text starts with the `version`, `name` and `supported_version`
      lines in that order, has a tags line exactly when there are tags, and ends
      with a single line feed. */
  lemma RenderShape(d: DescriptorFields)
    ensures var r := Render(d);
      && r == QuotedLine("version", d.version) + "\n"
              + QuotedLine("name", d.name) + "\n"
              + QuotedLine("supported_version", d.supportedVersion) + "\n"
              + (if |d.tags| > 0 then TagsLine(d.tags) + "\n" else "")
      && |r| >= 2 && r[|r| - 1] == '\n' && r[|r| - 2] != '\n'
  {
    var ls := Lines(d);
    assert ls[1..][1..] == ls[2..];
    assert Join(ls[1..], '\n') == ls[1] + "\n" + Join(ls[2..], '\n');
    if |d.tags| > 0 {
      assert ls[2..][1..] == [TagsLine(d.tags)];
      assert Join(ls[2..], '\n') == ls[2] + "\n" + TagsLine(d.tags);
    } else {
      assert Join(ls[2..], '\n') == ls[2];
    }
  }

  /** A project with none of the descriptor keys in its metadata gets the
      default descriptor, named after the project and without a tags line. */
  lemma DefaultDescriptor(projectId: string)
    ensures RenderDescriptor(projectId, Metadata(None, None, None, None))
      == QuotedLine("version", "1.0") + "\n"
         + QuotedLine("name", "OpenCK3 " + projectId) + "\n"
         + QuotedLine("supported_version", "1.11.*") + "\n"
  {
    RenderShape(Resolve(projectId, Metadata(None, None, None, None)));
  }
}
