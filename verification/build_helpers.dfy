/** The pure helpers of the mod build: audio format check, texture converter
    selection and the converter's command line. */
module BuildHelpers {
  import opened Wrappers
  import opened Text

  /** The two `BuildError`s these helpers raise. */
  datatype BuildError =
    | UnsupportedAudio(suffix: string)
    | UnsupportedConverter

  /** `Path.suffix` of a file name: from its last `.` on, unless that dot is the
      first or the last character (a hidden file, or a name ending in a dot). */
  function Suffix(name: string): (r: string)
    ensures r == "" || (|r| >= 2 && r[0] == '.' && '.' !in r[1..] && |r| < |name| && name[|name| - |r|..] == r)
  {
    match LastIndexOf(name, '.')
    case Some(i) => if 0 < i < |name| - 1 then name[i..] else ""
    case None => ""
  }

  /** The suffix of `stem + "." + ext` is `"." + ext` when the extension is
      non-empty and dot-free and the stem is non-empty. */
  lemma SuffixOf(stem: string, ext: string)
    requires |stem| > 0 && |ext| > 0 && '.' !in ext
    ensures Suffix(stem + "." + ext) == "." + ext
  {
    var name := stem + "." + ext;
    assert name[|stem|] == '.';
    assert name[|stem| + 1..] == ext;
  }

  /** A name without a dot has no suffix. */
  lemma NoDotNoSuffix(name: string)
    requires '.' !in name
    ensures Suffix(name) == ""
  {
  }

  const AudioExtensions: set<string> := {".ogg", ".wav"}

  /** `_validate_audio` on a file's name: the lower-cased suffix must be `.ogg`
      or `.wav`; otherwise the error reports the suffix as written. */
  function ValidateAudio(name: string): (r: Outcome<BuildError>)
    ensures r.Fail? ==> r.error == UnsupportedAudio(Suffix(name))
    ensures r.Pass? ==> AudioName(name)
  {
    if Lower(Suffix(name)) in AudioExtensions then
      AcceptedIsAudioName(name);
      Pass
    else Fail(UnsupportedAudio(Suffix(name)))
  }

  /** A name with a non-empty stem followed by `.ogg` or `.wav`, in any mix of
      cases. */
  predicate AudioName(name: string) {
    && |name| > 4 && name[|name| - 4] == '.'
    && (Lower(name[|name| - 3..]) == "ogg" || Lower(name[|name| - 3..]) == "wav")
  }

  /** An accepted suffix is the last four characters of the name, a dot and an
      audio extension. */
  lemma AcceptedIsAudioName(name: string)
    requires Lower(Suffix(name)) in AudioExtensions
    ensures AudioName(name)
  {
    var x := Suffix(name);
    assert |x| == 4 && x[0] == '.' && name[|name| - 4..] == x;
    var ext := x[1..];
    assert x == "." + ext;
    LowerDot(ext);
    DottedExtension(Lower(ext));
    assert name[|name| - 3..] == ext;
  }

  /** A file `stem.ext` is accepted exactly when `ext` is `ogg` or `wav` in any
      mix of cases. */
  lemma AudioAcceptedIff(stem: string, ext: string)
    requires |stem| > 0 && |ext| > 0 && '.' !in ext
    ensures ValidateAudio(stem + "." + ext).Pass? <==> Lower(ext) == "ogg" || Lower(ext) == "wav"
  {
    SuffixOf(stem, ext);
    LowerDot(ext);
    DottedExtension(Lower(ext));
  }

  lemma LowerDot(ext: string)
    ensures Lower("." + ext) == "." + Lower(ext)
  {
  }

  /** `.l` is an audio extension exactly when `l` is `ogg` or `wav`. */
  lemma DottedExtension(l: string)
    ensures "." + l in AudioExtensions <==> l == "ogg" || l == "wav"
  {
    var d := "." + l;
    assert d[1..] == l;
    assert ".ogg"[1..] == "ogg" && ".wav"[1..] == "wav";
    if l == "ogg" {
      assert d == ".ogg";
    } else if l == "wav" {
      assert d == ".wav";
    }
  }

  /** A file without an extension is rejected, reporting an empty suffix. */
  lemma AudioWithoutSuffixRejected(name: string)
    requires '.' !in name
    ensures ValidateAudio(name) == Fail(UnsupportedAudio(""))
  {
  }

  /** A hidden file such as `.ogg` has no suffix in pathlib's sense, so it is
      rejected whatever its name says. */
  lemma AudioHiddenFileRejected(ext: string)
    requires '.' !in ext
    ensures ValidateAudio("." + ext) == Fail(UnsupportedAudio(""))
  {
    assert ("." + ext)[1..] == ext;
  }

  /** A path as the converter command spells it: `str(path)` and
      `str(path.parent)`. */
  datatype FilePath = FilePath(text: string, parentText: string)

  /** `_build_converter_command` for the configured converter (`None` when none
      was detected). */
  function ConverterCommand(converter: Option<string>, source: FilePath, destination: FilePath)
    : (r: Result<seq<string>, BuildError>)
    ensures r.Failure? <==> converter !in {Some("texconv"), Some("magick"), Some("convert")}
    ensures r.Failure? ==> r.error == UnsupportedConverter
    ensures r.Success? ==> |r.value| > 0 && Some(r.value[0]) == converter
  {
    match converter
    case Some("texconv") =>
      Success(["texconv", "-f", "BC7_UNORM", "-y", "-o", destination.parentText, source.text])
    case Some(c) =>
      if c in {"magick", "convert"} then Success([c, source.text, destination.text])
      else Failure(UnsupportedConverter)
    case None => Failure(UnsupportedConverter)
  }

  /** Where each converter is told to read and write: texconv takes the source
      last and an output directory, the parent of the destination, after `-o`;
      ImageMagick takes the source then the destination file. */
  lemma ConverterArguments(converter: string, source: FilePath, destination: FilePath)
    requires converter in {"texconv", "magick", "convert"}
    ensures var cmd := ConverterCommand(Some(converter), source, destination).value;
      if converter == "texconv" then
        && |cmd| == 7 && cmd[|cmd| - 1] == source.text
        && cmd[4] == "-o" && cmd[5] == destination.parentText
        && cmd[1..4] == ["-f", "BC7_UNORM", "-y"]
      else
        cmd == [converter, source.text, destination.text]
  {
  }

  /** The converters in order of preference. */
  const Candidates: seq<string> := ["magick", "convert", "texconv"]

  /** The first of `names` for which `available` holds. */
  function FirstAvailable(names: seq<string>, available: string -> bool): (r: Option<string>)
    ensures r.Some? ==> r.value in names && available(r.value)
    ensures r.None? <==> forall k :: 0 <= k < |names| ==> !available(names[k])
  {
    if |names| == 0 then None
    else if available(names[0]) then Some(names[0])
    else FirstAvailable(names[1..], available)
  }

  /** `FirstAvailable` skips only unavailable names: the name found is the
      first available one. */
  lemma {:induction false} FirstAvailableFirst(names: seq<string>, available: string -> bool, i: nat)
    requires i < |names| && available(names[i])
    requires forall k :: 0 <= k < i ==> !available(names[k])
    ensures FirstAvailable(names, available) == Some(names[i])
  {
    if i > 0 {
      FirstAvailableFirst(names[1..], available, i - 1);
    }
  }

  /** `_detect_converter`, with `shutil.which` abstracted as `available`. */
  function DetectConverter(available: string -> bool): (r: Option<string>)
    ensures r.Some? ==> r.value in Candidates && available(r.value)
    ensures r.None? <==> forall k :: 0 <= k < |Candidates| ==> !available(Candidates[k])
  {
    FirstAvailable(Candidates, available)
  }

  /** The priority order: ImageMagick's `magick` whenever it is available, then
      `convert`, then `texconv`. */
  lemma DetectionPriority(available: string -> bool)
    ensures available("magick") ==> DetectConverter(available) == Some("magick")
    ensures !available("magick") && available("convert") ==> DetectConverter(available) == Some("convert")
    ensures !available("magick") && !available("convert") ==>
      DetectConverter(available) == (if available("texconv") then Some("texconv") else None)
  {
    if available("magick") {
      FirstAvailableFirst(Candidates, available, 0);
    } else if available("convert") {
      FirstAvailableFirst(Candidates, available, 1);
    } else if available("texconv") {
      FirstAvailableFirst(Candidates, available, 2);
    }
  }

  /** A detected converter is one the command builder supports, and its
      command starts with the converter's own name. */
  lemma DetectedConverterBuilds(available: string -> bool, source: FilePath, destination: FilePath)
    requires DetectConverter(available).Some?
    ensures var cmd := ConverterCommand(DetectConverter(available), source, destination);
      cmd.Success? && cmd.value[0] == DetectConverter(available).value
  {
  }
}
