/**
 * The decisions of compress_mute_video.py: which tag and extension a mode
 * gives the output name, where the output file goes, and the ffmpeg argument
 * vector run for each mode. The filesystem queries `exists` and `is_dir` are
 * the parameters `pathExists` and `isDir`.
 */
module Video {
  import opened Results
  import opened Paths

  /** The three operations the tool offers. */
  datatype Mode = Compress | Mute | Both

  /** `with_name` on a path that has no name. */
  datatype PathError = EmptyName

  /** The marker appended to the stem: "_c", "_m" or "_cm". */
  function Tag(m: Mode): (t: string)
    ensures |t| >= 2 && t[0] == '_'
    ensures forall j :: 0 <= j < |t| ==> t[j] != '.'
  {
    match m
    case Compress => "_c"
    case Mute => "_m"
    case Both => "_cm"
  }

  /** The extension of a generated name: ".mp4" when re-encoding, the source's own suffix when only muting. */
  function Extension(m: Mode, src: Path): (x: string)
    ensures IsSuffix(x)
    ensures m != Mute ==> x == ".mp4"
    ensures m == Mute ==> x == Suffix(Name(src))
  {
    StemAndSuffix(Name(src));
    match m
    case Compress => ".mp4"
    case Both => ".mp4"
    case Mute => Suffix(Name(src))
  }

  /** The name given to an output when only a directory is known. */
  function GeneratedName(src: Path, tag: string, ext: string): (n: string)
    ensures |n| == |Stem(Name(src))| + |tag| + |ext|
    ensures n[..|Stem(Name(src))|] == Stem(Name(src)) && n[|n| - |ext|..] == ext
  {
    Stem(Name(src)) + tag + ext
  }

  /**
   * `out_path_for`. With no output argument the generated name is placed beside
   * the source. An output argument that is an existing directory receives the
   * generated name. Otherwise an argument with a suffix is the output file
   * itself, and one without a suffix is taken as a directory.
   */
  function OutPathFor(src: Path, outArg: Option<Path>, tag: string, ext: string,
                      pathExists: Path -> bool, isDir: Path -> bool): (r: Result<Path, PathError>)
    ensures outArg == None ==> (r.Err? <==> src == [])
    ensures outArg == None && r.Ok? ==>
      Parent(r.value) == Parent(src) && |r.value| == |src| && Name(r.value) == GeneratedName(src, tag, ext)
    ensures outArg.Some? ==> r.Ok?
    ensures outArg.Some? && pathExists(outArg.value) && isDir(outArg.value) ==>
      Parent(r.value) == outArg.value && |r.value| == |outArg.value| + 1 && Name(r.value) == GeneratedName(src, tag, ext)
    ensures outArg.Some? && !(pathExists(outArg.value) && isDir(outArg.value)) && Suffix(Name(outArg.value)) != "" ==>
      r.value == outArg.value
    ensures outArg.Some? && !(pathExists(outArg.value) && isDir(outArg.value)) && Suffix(Name(outArg.value)) == "" ==>
      Parent(r.value) == outArg.value && |r.value| == |outArg.value| + 1 && Name(r.value) == GeneratedName(src, tag, ext)
  {
    match outArg
    case None =>
      (match WithName(src, GeneratedName(src, tag, ext))
       case None => Err(EmptyName)
       case Some(p) => Ok(p))
    case Some(o) =>
      if pathExists(o) && isDir(o) then Ok(Join(o, GeneratedName(src, tag, ext)))
      else if Suffix(Name(o)) != "" then Ok(o)
      else Ok(Join(o, GeneratedName(src, tag, ext)))
  }

  /** A generated name never equals the source's name, whatever the mode. */
  lemma GeneratedNameDiffers(src: Path, m: Mode)
    ensures GeneratedName(src, Tag(m), Extension(m, src)) != Name(src)
  {
    var name := Name(src);
    var stem, tail := Stem(name), Tag(m) + Extension(m, src);
    StemAndSuffix(name);
    assert GeneratedName(src, Tag(m), Extension(m, src)) == stem + tail;
    assert (stem + tail)[|stem|..] == tail;
    assert name[|stem|..] == Suffix(name);
    assert tail[0] == '_';
  }

  /**
   * The output path is the source path only when the source itself was named
   * as the output: every generated location is a different path value. For
   * well-formed paths (no component empty, ".", ".." or containing "/") that
   * means the file ffmpeg is told to overwrite with `-y` is not its input.
   */
  lemma OutputIsSourceOnlyWhenNamed(m: Mode, src: Path, outArg: Option<Path>,
                                    pathExists: Path -> bool, isDir: Path -> bool)
    ensures var r := OutPathFor(src, outArg, Tag(m), Extension(m, src), pathExists, isDir);
            r.Ok? && r.value == src ==> outArg == Some(src)
  {
    GeneratedNameDiffers(src, m);
  }

  /**
   * A generated output name carries the extension the mode asks for: ".mp4"
   * for compress and both, and the source's own suffix for mute when the
   * source has one.
   */
  lemma GeneratedNameSuffix(src: Path, m: Mode)
    requires m == Mute ==> Suffix(Name(src)) != ""
    ensures Suffix(GeneratedName(src, Tag(m), Extension(m, src))) == Extension(m, src)
    ensures Stem(GeneratedName(src, Tag(m), Extension(m, src))) == Stem(Name(src)) + Tag(m)
  {
    var prefix := Stem(Name(src)) + Tag(m);
    assert GeneratedName(src, Tag(m), Extension(m, src)) == prefix + Extension(m, src);
    SuffixOfAppended(prefix, Extension(m, src));
  }

  /** The fixed start of every command: quiet ffmpeg, overwrite, read `src`. */
  function Preamble(src: string): seq<string>
  {
    ["ffmpeg", "-hide_banner", "-loglevel", "error", "-y", "-i", src]
  }

  /** `flag` is immediately followed by `value` somewhere in `args`. */
  predicate HasOption(args: seq<string>, flag: string, value: string)
  {
    exists i :: 0 <= i < |args| - 1 && args[i] == flag && args[i + 1] == value
  }

  /** An option can only be present when its flag is. */
  lemma OptionNeedsFlag(args: seq<string>)
    ensures forall flag, value :: HasOption(args, flag, value) ==> flag in args
  {
  }

  /** The options of a command: what stands between the input file and the output file. */
  function Options(cmd: seq<string>): seq<string>
    requires |cmd| >= 8
  {
    cmd[7..|cmd| - 1]
  }

  /** The options of the compress command: H.264 video at CRF 23, 128k AAC audio. */
  const CompressOptions: seq<string> :=
    ["-c:v", "libx264", "-preset", "slow", "-crf", "23", "-pix_fmt", "yuv420p",
     "-movflags", "+faststart", "-c:a", "aac", "-b:a", "128k"]

  /** The options of the mute command: copy the streams, drop the audio. */
  const MuteOptions: seq<string> := ["-c", "copy", "-an"]

  /** The options of the compress-and-mute command: H.264 video at CRF 23, no audio. */
  const BothOptions: seq<string> :=
    ["-c:v", "libx264", "-preset", "slow", "-crf", "23", "-pix_fmt", "yuv420p",
     "-movflags", "+faststart", "-an"]

  lemma CompressOptionsFlags()
    ensures "-an" !in CompressOptions
    ensures HasOption(CompressOptions, "-c:a", "aac") && HasOption(CompressOptions, "-b:a", "128k")
    ensures !HasOption(CompressOptions, "-c", "copy")
    ensures HasOption(CompressOptions, "-c:v", "libx264") && HasOption(CompressOptions, "-crf", "23")
  {
    var opts := CompressOptions;
    OptionNeedsFlag(opts);
    assert opts[0] == "-c:v" && opts[1] == "libx264" && opts[4] == "-crf" && opts[5] == "23";
    assert opts[10] == "-c:a" && opts[11] == "aac" && opts[12] == "-b:a" && opts[13] == "128k";
  }

  lemma MuteOptionsFlags()
    ensures "-an" in MuteOptions
    ensures !HasOption(MuteOptions, "-c:a", "aac")
    ensures HasOption(MuteOptions, "-c", "copy")
    ensures !HasOption(MuteOptions, "-c:v", "libx264")
  {
    var opts := MuteOptions;
    OptionNeedsFlag(opts);
    assert opts[0] == "-c" && opts[1] == "copy";
  }

  lemma BothOptionsFlags()
    ensures "-an" in BothOptions
    ensures !HasOption(BothOptions, "-c:a", "aac")
    ensures !HasOption(BothOptions, "-c", "copy")
    ensures HasOption(BothOptions, "-c:v", "libx264") && HasOption(BothOptions, "-crf", "23")
  {
    var opts := BothOptions;
    OptionNeedsFlag(opts);
    assert opts[0] == "-c:v" && opts[1] == "libx264" && opts[4] == "-crf" && opts[5] == "23";
  }

  /**
   * The options each mode passes to ffmpeg, in the order the source lists them:
   * only the muting modes drop the audio, compress alone re-encodes it to 128k
   * AAC, mute alone copies the streams, and the compressing modes encode the
   * video with libx264 at CRF 23.
   */
  function ModeOptions(m: Mode): (opts: seq<string>)
    ensures ("-an" in opts) <==> m != Compress
    ensures (HasOption(opts, "-c:a", "aac") && HasOption(opts, "-b:a", "128k")) <==> m == Compress
    ensures HasOption(opts, "-c", "copy") <==> m == Mute
    ensures (HasOption(opts, "-c:v", "libx264") && HasOption(opts, "-crf", "23")) <==> m != Mute
  {
    match m
    case Compress => CompressOptionsFlags(); CompressOptions
    case Mute => MuteOptionsFlags(); MuteOptions
    case Both => BothOptionsFlags(); BothOptions
  }

  /**
   * The argument vector handed to ffmpeg: it reads `src`, writes `out`, and
   * between the two carries exactly the mode's options, so the facts of
   * `ModeOptions` hold of the command's options. The input file is named at
   * position 6, the argument of `-i`; callers such as `PlanJob` use that
   * position directly.
   */
  function Command(m: Mode, src: string, out: string): (cmd: seq<string>)
    ensures |cmd| >= 8 && cmd[..7] == Preamble(src) && cmd[6] == src && cmd[|cmd| - 1] == out
    ensures Options(cmd) == ModeOptions(m)
    ensures ("-an" in Options(cmd)) <==> m != Compress
    ensures HasOption(Options(cmd), "-c", "copy") <==> m == Mute
  {
    var opts := ModeOptions(m);
    var cmd := Preamble(src) + opts + [out];
    BetweenStartAndEnd(Preamble(src), opts, out);
    cmd
  }

  lemma BetweenStartAndEnd(start: seq<string>, middle: seq<string>, last: string)
    requires |start| == 7
    ensures var cmd := start + middle + [last];
            |cmd| >= 8 && cmd[..7] == start && cmd[6] == start[6] && cmd[|cmd| - 1] == last && Options(cmd) == middle
  {
    var cmd := start + middle + [last];
    assert cmd[..7] == start;
    assert cmd[7..|cmd| - 1] == middle;
  }

  /** The output path chosen by `main` and the command it runs. */
  datatype Job = Job(out: Path, cmd: seq<string>)

  /**
   * The decisions of `main` once the source is known to exist: pick the tag
   * and extension for the mode, place the output, and build the command that
   * reads the source and writes that output.
   */
  function PlanJob(m: Mode, src: Path, outArg: Option<Path>, pathExists: Path -> bool, isDir: Path -> bool)
    : (r: Result<Job, PathError>)
    ensures r.Err? <==> outArg == None && src == []
    ensures r.Ok? ==> r.value.cmd == Command(m, Render(src), Render(r.value.out))
    ensures r.Ok? ==> r.value.cmd[6] == Render(src) && r.value.cmd[|r.value.cmd| - 1] == Render(r.value.out)
    ensures r.Ok? && r.value.out == src ==> outArg == Some(src)
    ensures r.Ok? && outArg == None && m != Mute ==> Suffix(Name(r.value.out)) == ".mp4"
    ensures r.Ok? && outArg == None && m == Mute && Suffix(Name(src)) != "" ==>
      Suffix(Name(r.value.out)) == Suffix(Name(src))
  {
    var tag := Tag(m);
    var ext := Extension(m, src);
    match OutPathFor(src, outArg, tag, ext, pathExists, isDir)
    case Err(e) => Err(e)
    case Ok(out) =>
      OutputIsSourceOnlyWhenNamed(m, src, outArg, pathExists, isDir);
      var job := Ok(Job(out, Command(m, Render(src), Render(out))));
      if m != Mute || Suffix(Name(src)) != "" then GeneratedNameSuffix(src, m); job else job
  }
}
