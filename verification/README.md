# OpenCK3 mod-script linter and build helpers, in Dafny

This project models two parts of the OpenCK3 backend.

The first is the static linter for Crusader Kings III mod scripts
(`run_static_analysis` in `backend/app/validation.py`). It takes the script as
a list of lines and classifies each one as one of these:

- blank;
- a comment;
- a closing `}`;
- a `key = {` scope opening;
- a `key = value` assignment;
- unparseable.

As it goes, it keeps a stack of open scope frames. Each frame records the
registered fields that have been assigned in it. The linter emits diagnostics
for these findings:

- a stray `}`;
- an unparseable line;
- an unknown top-level scope;
- an unknown field;
- an assignment outside any scope;
- a value of the wrong type;
- a missing required field, reported when the scope closes;
- a scope still open at the end of the input.

The scope/field registry (`CK3_SCOPES`, `TOP_LEVEL_SCOPES`) is the constant
`Registry.Ck3Registry()`. The linter takes the registry as a parameter
(`Linter.Analyze(reg, lines)`), and `StaticAnalysis.Lint` applies it to the
built-in registry.

The second part is the pure helpers of the mod build (`backend/app/build.py`):

- rendering `descriptor.mod`;
- the audio-format check;
- the DDS converter's command line;
- choosing a converter by priority, given an abstract "is this program
  available" predicate.

Modules:

- `Wrappers` (wrappers.dfy): `Option`, `Result` and `Outcome` stand for Python's
  `None` and for raised `BuildError`s.
- `Text` (text.dfy): string operations written out over ASCII.
  - The source calls `str.strip()`, `strip('"')`, `find`, `split('#', 1)[0]`,
    `','.join` and `lower()`.
  - `LastIndexOf` is the search for the last dot that `Path.suffix` performs.
  - `Split` on every separator is not called by the source. It serves only the
    model's descriptor reader, `Descriptor.Parse`.
- `Registry` (registry.dfy): `FieldDefinition`, `ScopeDefinition`, the built-in
  registry and `_find_field`.
- `Diagnostics` (diagnostics.dfy): the `Diagnostic` record, codes and severities.
- `LineSyntax` (line_syntax.dfy): classification of one line. The regular
  expression `^(?P<key>[A-Za-z_][\w-]*)\s*=\s*(?P<value>.+)$` is written out as
  character-class predicates. `IsIntegerLiteral` stands for `-?\d+`.
- `Linter` (linter.dfy):
  - `_ScopeFrame`, `_first_non_ws`, `_column_for`, `_validate_required_fields`
    and `_validate_value`;
  - the loop body as a function of the state;
  - the whole analysis as the function `Analyze`.
- `LinterProperties` (linter_props.dfy): what one line does to the state.
- `AnalysisProperties` (analysis_props.dfy): invariants of a whole run and the
  end-of-input report.
- `StaticAnalysis` (static_analysis.dfy): `run_static_analysis` as a method with
  the source's two loops, and `Lint` on the built-in registry. Both come with the
  guarantees of a whole analysis.
- `Descriptor` (descriptor.dfy): `_render_descriptor`. It comes with a reader
  (`Parse`) for that format, written for this model as the renderer's inverse.
- `BuildHelpers` (build_helpers.dfy): `_validate_audio`,
  `_build_converter_command` and `_detect_converter`.

## Model

| member | source | states |
|---|---|---|
| Registry.Ck3RegistryWellFormed | backend/app/validation.py:39-75 | every top-level scope name is registered, no scope declares a field twice, and every enum field lists allowed values |
| Registry.FindField | backend/app/validation.py:285-289 | the field found belongs to the named scope and carries the asked-for name; nothing is found exactly when the scope is unregistered or does not declare the name |
| Registry.FindInFirst | backend/app/validation.py:289 | the lookup returns the first field with the name, as `next(...)` over the declaration order does |
| Registry.FindFieldUnique | backend/app/validation.py:285-289 | in a registry without duplicate field names, the field found is the only one of its scope with that name |
| Diagnostics.SeverityOf | backend/app/validation.py:86-282 | only `ck3.parse` and `ck3.field.unknown` are warnings; every other code is an error and nothing is info |
| Diagnostics.CodeTextInjective | backend/app/validation.py:86-282 | the nine code strings are pairwise distinct, so a diagnostic's code string identifies its kind |
| Text.StripBySpec | backend/app/validation.py:92 | `strip` removes exactly the leading and trailing run of the class: the result is a contiguous slice whose ends lie outside the class, and it is empty only when every character is in the class |
| Text.FindSpec | backend/app/validation.py:293 | `find` returns the first index where the fragment occurs, and none when it occurs nowhere |
| Text.BeforeSpec | backend/app/validation.py:132 | `split('#', 1)[0]` is the longest prefix free of `#`, followed in the input by `#` when there is one |
| Text.SplitJoin | backend/app/build.py:214 | splitting a comma-joined list gives back the list when no item contains a comma |
| LineSyntax.MatchAssignment | backend/app/validation.py:116 | a match has a non-empty key and value; the key is a prefix and the value a suffix of the line, with something between them |
| LineSyntax.MatchAssignmentSound | backend/app/validation.py:116 | a successful match splits the stripped line into a key of the key pattern, a whitespace-padded `=`, and a non-empty value that starts with a non-space and has no line feed |
| LineSyntax.MatchAssignmentComplete | backend/app/validation.py:116 | every key, separator and value of that shape matches, and the groups come back exactly |
| LineSyntax.Classify | backend/app/validation.py:92-134 | blank lines are exactly the all-whitespace lines; comment and closing lines are known by their first non-blank character; a key matches the key pattern; an assignment's value is free of `#`, never `{`, and has no whitespace at either end; which value it is, the value group cut at its first `#` and stripped, is stated by `ClassifyValueGroup` |
| LineSyntax.KeyAtFirstColumn | backend/app/validation.py:92-131 | the key of an assignment or opening starts at the line's first non-blank character |
| LineSyntax.ClassifyWrittenLine | backend/app/validation.py:116-134 | an indented `key = value` line with a clean value and any trailing whitespace is classified as that assignment, or as a scope opening when the value is `{` |
| LineSyntax.ClassifyCommentedLine | backend/app/validation.py:116-134 | the same line followed by whitespace and a `# comment` gets the same classification: the comment and the whitespace before it are cut from the value, so `rank = duke # note` assigns `duke` and `key = { # note` opens a scope |
| LineSyntax.ClassifyValueGroup | backend/app/validation.py:116-134 | a scope opening or assignment comes from a match of the stripped line; its key is the key group, and its value, or `{` for an opening, is the value group cut at the first `#` and stripped |
| LineSyntax.ClassifyKeyValue | backend/app/validation.py:116-134 | a stripped line of key, separator and value group is classified by that value group cut at its first `#` and stripped |
| LineSyntax.IntTextIsIntegerLiteral | backend/app/validation.py:255 | every integer written in decimal, with an optional minus, passes `-?\d+` |
| Linter.FirstNonWs | backend/app/validation.py:297-299 | the column is one past the leading whitespace: every earlier character is whitespace, and the character there, if any, is not |
| Linter.ColumnFor | backend/app/validation.py:292-294 | the column is one past the index of the fragment's first occurrence, or 1 when it does not occur |
| Linter.RequiredFieldDiags | backend/app/validation.py:228-247 | every diagnostic is a missing-field error for a required field of the frame's registered scope that the frame has not seen, from the opening line to the given line |
| Linter.ValidateValue | backend/app/validation.py:250-282 | a value is rejected exactly when an integer field gets a non-`-?\d+` value, or an enum field with values gets a value that is not allowed once quotes are stripped; the error is as wide as the value and starts where the value first occurs in the raw line, or at column 1 when it does not occur |
| Linter.Apply | backend/app/validation.py:94-208 | one line only appends diagnostics, and pushes or pops at most one frame |
| Linter.Finish | backend/app/validation.py:210-223 | the end-of-input report holds at least one diagnostic per open frame, and is empty exactly when no frame is open |
| Linter.Analyze | backend/app/validation.py:86-225 | the analysis is the line pass's diagnostics followed by the end-of-input report, which adds something exactly when a scope is still open |
| StaticAnalysis.DrainFrames | backend/app/validation.py:210-223 | the end-of-file loop appends, for each frame still open, innermost first, its unclosed-scope error followed by its missing required fields; this is `Finish`, whose properties are the `AnalysisProperties` Finish lemmas |
| StaticAnalysis.RunStaticAnalysis | backend/app/validation.py:86-225 | the two loops return the analysis of the lines; every diagnostic is well-formed; the unclosed-scope errors are one per frame left open, innermost first, and there are none exactly when every scope was closed |
| StaticAnalysis.ScanLines | backend/app/validation.py:91-208 | the frames left open by the line loop were opened in order on lines of the script, its diagnostics are well-formed, and none is an unclosed-scope error |
| StaticAnalysis.Lint | backend/app/validation.py:86-225 | against the built-in registry, every diagnostic is well-formed and the unclosed-scope errors are one per frame left open |
| LinterProperties.RequiredFieldDiagsSpec | backend/app/validation.py:228-247 | an unregistered scope reports nothing; otherwise one error per required field not yet seen, in declaration order, each from the frame's opening line to the closing line at column 1 |
| LinterProperties.MissingRequiredSubjects | backend/app/validation.py:234-246 | the fields reported are exactly the required ones not in the seen set, in declaration order |
| LinterProperties.AllRequiredSeenIsQuiet | backend/app/validation.py:228-247 | a frame that has seen all its required fields reports nothing when it closes |
| LinterProperties.SkippedLineIsInert | backend/app/validation.py:94-95 | a blank or comment line changes neither the stack nor the diagnostics |
| LinterProperties.UnmatchedCloseAtRoot | backend/app/validation.py:97-110 | a `}` with no open scope adds exactly one `ck3.unmatchedClose` error at the first non-blank column, one column wide, and the stack stays empty |
| LinterProperties.CloseInsideScopePops | backend/app/validation.py:112-114 | a `}` inside a scope pops exactly the innermost frame and adds its missing-field errors, ending on the closing line |
| LinterProperties.OpenScopePushesOneFrame | backend/app/validation.py:134-171 | a `key = {` line pushes exactly one fresh frame for the key, known or not, and keeps the names and opening lines of the frames below it; what it does to the parent's seen set is stated by `DeclaredFieldSeen` and `UnknownFieldNotSeen` |
| LinterProperties.OtherLinesKeepFrames | backend/app/validation.py:173-208 | lines other than openings and closings leave the frames' names and opening lines unchanged; what an assignment does to the seen set is stated by `DeclaredFieldSeen` and `UnknownFieldNotSeen` |
| LinterProperties.DeclaredFieldSeen | backend/app/validation.py:153-208 | a `key = {` or `key = value` line whose key the innermost scope declares adds the key to that frame's seen set and leaves the frames below it unchanged; an assignment then keeps the depth and appends exactly the type diagnostic `_validate_value` returns, if any; an opening pushes a fresh frame for the key, opened on this line with nothing seen, and reports nothing |
| LinterProperties.UnparsedLine | backend/app/validation.py:116-129 | a line that is not an assignment is one `ck3.parse` warning from its first non-blank column, which holds a non-blank character, to one past the end of the line; the stack is unchanged |
| LinterProperties.RootAssignment | backend/app/validation.py:173-185 | an assignment with no scope open is one `ck3.scope.rootField` error from the first non-blank column, which is where the key is, to one past the end of the line; the stack stays empty |
| LinterProperties.UnknownTopLevelScope | backend/app/validation.py:136-151 | a scope opened with no scope open whose name is not a top-level scope is one `ck3.scope.unknown` error spanning the key, which starts at the first non-blank column; its frame is pushed all the same |
| LinterProperties.TopLevelScopeOpens | backend/app/validation.py:136-151 | a top-level scope opened with no scope open pushes its frame, opened on this line with nothing seen, and reports nothing |
| LinterProperties.StepKeepsFrames | backend/app/validation.py:91-208 | after any line, every frame that survives keeps its name and opening line and only gains seen fields, and a frame beyond the old stack was opened on this line with nothing seen |
| LinterProperties.ApplyTypeCounts | backend/app/validation.py:204-208 | a line adds one `ck3.type.integer` error exactly when it assigns a declared integer field a value outside `-?\d+`, one `ck3.type.enum` error exactly when it assigns a declared enum field with allowed values a value that is not allowed once quotes are stripped, and none otherwise |
| LinterProperties.KeyColumn | backend/app/validation.py:143 | the column reported for a key is the line's first non-blank column, since the key cannot occur earlier |
| LinterProperties.UnknownFieldNotSeen | backend/app/validation.py:187-202 | a key the scope does not declare adds one `ck3.field.unknown` warning spanning the key, and the frame's seen set stays unchanged |
| LinterProperties.UncheckedKindsPass | backend/app/validation.py:250-282 | string and array fields never get a type diagnostic |
| LinterProperties.IntegersAccepted | backend/app/validation.py:255 | an integer field accepts every decimal integer |
| LinterProperties.EnumValuesAccepted | backend/app/validation.py:266-268 | an enum field accepts each allowed value, bare or in double quotes |
| LinterProperties.RegisteredEnumChecked | backend/app/validation.py:266-268 | in a registry whose enum fields all list values, a value for a registered enum field is accepted exactly when, stripped of quotes, it is allowed |
| LinterProperties.TitleRankChecked | backend/app/validation.py:50-56 | a title's `rank` accepts exactly `baron`, `count`, `duke`, `king` and `emperor`, bare or quoted |
| LinterProperties.StepCounts | backend/app/validation.py:97-208 | per code, how many diagnostics one line adds: an unmatched close or root assignment only at the root, an unknown scope only at the root for unregistered names, an unknown field only inside a scope, a parse warning for each unparseable line, a type error exactly when an assignment fails its declared field's check, and never an unclosed-scope error |
| AnalysisProperties.RunInvariant | backend/app/validation.py:91-208 | after any prefix of the lines, frames are opened on earlier lines in strictly increasing order, each has seen only fields its scope declares, and every diagnostic is well-formed up to the current line |
| AnalysisProperties.RunFramesOk | backend/app/validation.py:91-208 | after any prefix of the lines, the open frames were opened on lines of that prefix in strictly increasing order, each having seen only fields its scope declares |
| AnalysisProperties.DeclaredFieldSeenIn | backend/app/validation.py:153-208 | a line assigning a key the innermost scope declares leaves the key seen by the frame opened on that frame's line, the only open frame opened on that line |
| AnalysisProperties.SeenInKept | backend/app/validation.py:91-208 | once the frame opened on some line has seen a key, it has seen it after every later line for as long as it is open |
| AnalysisProperties.CloseSeenQuiet | backend/app/validation.py:112-114 | the `}` that closes a frame which has seen a key adds exactly that frame's missing-field errors, and none of them names that key |
| AnalysisProperties.RunHasNoUnclosed | backend/app/validation.py:91-208 | the line loop never reports an unclosed scope |
| AnalysisProperties.FinishUnclosed | backend/app/validation.py:210-222 | the end-of-input report holds one unclosed-scope error per open frame, innermost first, on the frame's opening line |
| AnalysisProperties.FinishShape | backend/app/validation.py:210-223 | the end-of-input report holds only one-line unclosed-scope errors and missing-field errors that end on the last line |
| AnalysisProperties.AnalyzeWellFormed | backend/app/validation.py:86-225 | every diagnostic of an analysis starts on line 1 or later, ends by `len(lines) or 1`, has columns of at least 1, never runs backwards, and carries its code's severity |
| AnalysisProperties.AnalyzeUnclosed | backend/app/validation.py:210-223 | the unclosed-scope errors of an analysis are exactly one per frame left open after the last line, innermost first |
| AnalysisProperties.UnclosedIffOpenAtEnd | backend/app/validation.py:210-223 | an analysis reports an unclosed scope exactly when some scope is still open after the last line |
| Descriptor.Resolve | backend/app/build.py:204-207 | an absent key defaults to the name `OpenCK3 <id>`, version `1.0`, supported version `1.11.*` or no tags; a present key keeps its value |
| Descriptor.RenderDescriptor | backend/app/build.py:203-216 | the descriptor reads back as the metadata's values with the defaults applied, when those values fit on their lines |
| Descriptor.ParseRender | backend/app/build.py:208-216 | reading the rendering of values that fit on their lines gives back exactly those values, with no tags line for an empty tag list |
| Descriptor.RenderParse | backend/app/build.py:208-216 | every text the reader accepts is the rendering of what it reads, so each set of values has one spelling |
| Descriptor.RenderShape | backend/app/build.py:208-216 | the text is the `version`, `name` and `supported_version` lines in that order, each value quoted, then a tags line exactly when there are tags; it ends with exactly one line feed |
| Descriptor.TagsRoundTrip | backend/app/build.py:213-215 | the tags line holds the tags comma-joined without spaces, and reads back as the same list |
| Descriptor.DefaultDescriptor | backend/app/build.py:203-216 | metadata without descriptor keys renders the three default lines and no tags line |
| BuildHelpers.Suffix | backend/app/build.py:220 | a suffix is empty or a dot followed by a dot-free tail that ends the name, shorter than the name |
| BuildHelpers.ValidateAudio | backend/app/build.py:218-221 | an accepted name ends in a dot and `ogg` or `wav` in any mix of cases, after a non-empty stem; a rejection reports the suffix as written |
| BuildHelpers.AudioAcceptedIff | backend/app/build.py:218-221 | a `stem.ext` file is accepted exactly when `ext` is `ogg` or `wav`, in any mix of cases |
| BuildHelpers.AudioHiddenFileRejected | backend/app/build.py:219-221 | a dot-file such as `.ogg` has no suffix and is rejected with an empty suffix |
| BuildHelpers.AudioWithoutSuffixRejected | backend/app/build.py:219-221 | a file without an extension is rejected with an empty suffix |
| BuildHelpers.ConverterCommand | backend/app/build.py:236-249 | a command exists exactly for `texconv`, `magick` and `convert`; any other converter, or none, is `BuildError`; the command starts with the converter's name |
| BuildHelpers.ConverterArguments | backend/app/build.py:237-248 | texconv gets the 7-word `-f BC7_UNORM -y -o <destination parent> <source>` command; ImageMagick gets `[converter, source, destination]` |
| BuildHelpers.DetectConverter | backend/app/build.py:251-255 | the converter found is a candidate that is available; nothing is found exactly when no candidate is available |
| BuildHelpers.FirstAvailableFirst | backend/app/build.py:252-254 | the scan returns the first available name: one preceded only by unavailable names is the one chosen |
| BuildHelpers.DetectionPriority | backend/app/build.py:251-255 | `magick` wins whenever it is available, then `convert`, then `texconv` |
| BuildHelpers.DetectedConverterBuilds | backend/app/build.py:236-255 | a detected converter always yields a command, and the command starts with its name |

## Left out

- The HTTP layer is left out: the `/validation/lint` route (backend/app/validation.py:78-83) and the rest of the FastAPI application. It is request plumbing.
- `str.splitlines` is left out. The linter takes the script as already-split lines, and `EndLine` counts them as `len(lines) or 1`.
- Python's Unicode whitespace and Unicode `\w`/`\d` are left out. Whitespace is the ASCII set `str.isspace` accepts (tab to carriage return, 0x1C-0x1F, space), and letters and digits are ASCII. `lower()` is ASCII lower-casing.
- Diagnostic message wording is left out. A diagnostic keeps its severity, range and code, plus `subject`, the key, field or scope name its message quotes. Subjects are left empty for the codes whose message names nothing.
- Descriptor.Resolve: metadata values are taken as already-rendered text. `str()` of arbitrary objects is not modelled, nor a key present with a `None` value, which the source would render as `None`.
- Descriptor.RenderDescriptor: the round trip is promised only for values without line feeds and tags without commas. The source writes such values too, but they cannot be read back unambiguously.
- Descriptor.ParseRender: it requires values without line feeds and tags without commas, for the same reason.
- BuildHelpers.ValidateAudio: takes the file's name, not a path. Only the final path component determines `Path.suffix`.
- BuildHelpers.ConverterCommand: paths are given as their rendered text `str(p)` and `str(p.parent)`. Path arithmetic is not modelled.
- Linter.Apply: its own contract states only that diagnostics are appended and that the stack changes by at most one frame. The exact result of each kind of line is stated by `SkippedLineIsInert`, `UnmatchedCloseAtRoot`, `CloseInsideScopePops`, `UnparsedLine`, `RootAssignment`, `UnknownTopLevelScope`, `TopLevelScopeOpens`, `UnknownFieldNotSeen` and `DeclaredFieldSeen` in `LinterProperties`. For a key the scope does not declare, `UnknownFieldNotSeen` gives the diagnostics and keeps the frames below; the stack's length and the pushed frame come from `OpenScopePushesOneFrame` and `OtherLinesKeepFrames`.
- AnalysisProperties.CloseSeenQuiet: the whole-run statement that a declared field assigned in a frame is never reported missing when that frame closes is stated in four parts rather than as one lemma over the run. `DeclaredFieldSeenIn` covers the assigning line, `RunFramesOk` supplies its frame condition, `SeenInKept` covers the lines in between, and `CloseSeenQuiet` covers the closing line. Joining them needs only two unfoldings of `Run`'s definition: `Run` after the assigning line `a` is one `Step` on from `Run` after line `a - 1`, and `Run` after the closing line `b` is one `Step` on from `Run` after line `b - 1`.
- Linter.Finish: its own contract states only the report's size. Its contents are stated by `AnalysisProperties.FinishUnclosed` and `AnalysisProperties.FinishShape`.
- Linter.Analyze: its own contract states only how the analysis extends the line pass. Well-formedness and the unclosed-scope report are stated by `AnalysisProperties.AnalyzeWellFormed` and `AnalysisProperties.AnalyzeUnclosed`.
- Linter.RequiredFieldDiags: its own contract states what each diagnostic is, not that every missing field is reported in order. That is `LinterProperties.RequiredFieldDiagsSpec`.
- LineSyntax.MatchAssignment: its own contract states only the shape of a match. The full pattern is `LineSyntax.MatchAssignmentSound` and `LineSyntax.MatchAssignmentComplete`.
- BuildHelpers.DetectConverter: `shutil.which` becomes the `available` predicate. Searching `PATH` is I/O.
- The rest of `backend/app/build.py` is left out:
  - file collection, copying, `subprocess` conversion, zip archiving and timestamps, which are I/O;
  - the `build_mod` progress ratios, which are floating point;
  - `BuildManager`, which is threads and locking.
- Storage, configuration and the pydantic schemas are left out. They are file I/O, environment settings, or declarations without behaviour.
- The editor-side language tooling of the OpenCK3 repository is not part of this model, since only the backend sources were modelled.
