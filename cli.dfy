/**
 * The command-line configuration (src/cli.rs): its fields, their defaults,
 * and the values derived from them: frame delays and the output path.
 *
 * Paths are strings with '/' as separator; Windows prefixes and non-UTF-8
 * names are not modelled.
 */
module CommandLine {
  import opened Wrappers
  import opened Ints

  type Path = string

  /** `image::Delay` built by `from_numer_denom_ms`: a duration of `numerMs / denomMs` milliseconds. */
  datatype Delay = Delay(numerMs: nat, denomMs: nat)

  /** `name()` unwraps a missing file stem. */
  datatype CliError = NoFileStem(path: Path)

  const DefaultFrameDuration: u32 := 50
  const DefaultInterpLen: nat := 30
  const DefaultPauseLen: u32 := 15

  datatype Cli = Cli(
    output: Option<Path>,
    frameDuration: u32,
    interpLen: nat,
    pauseLen: u32,
    imgHuman: Path,
    imgOtter: Path,
    pointsCsv: Path)
  {
    /** `pause_duration()`: one delay as long as `pauseLen` frames; the product is a `u32`. */
    function PauseDuration(): (d: Delay)
      requires frameDuration as int * pauseLen as int < 0x1_0000_0000
      ensures d.denomMs == 1 && d.numerMs == pauseLen as nat * FrameDuration().numerMs
    {
      Delay(frameDuration as nat * pauseLen as nat, 1)
    }

    /** `frame_duration()`: `frameDuration` milliseconds. */
    function FrameDuration(): (d: Delay)
      ensures d.denomMs == 1 && d.numerMs == frameDuration as nat
    {
      Delay(frameDuration as nat, 1)
    }

    /** `name()`: the file stem of the human image; fails when it has none. */
    function Name(): (r: Result<string, CliError>)
      ensures r.Ok? <==> FileName(imgHuman).Some?
      ensures r.Ok? ==> r.value == Stem(FileName(imgHuman).value) && r.value != "" && '/' !in r.value
      ensures r.Err? ==> r.error == NoFileStem(imgHuman)
    {
      match FileStem(imgHuman)
      case Some(stem) => Ok(stem)
      case None => Err(NoFileStem(imgHuman))
    }

    /** `output()`: the explicit output path, or the human image's stem with ".gif". */
    function Output(): (r: Result<Path, CliError>)
      ensures output.Some? ==> r == Ok(output.value)
      ensures output.None? ==> (r.Ok? <==> FileStem(imgHuman).Some?)
      ensures output.None? && r.Ok? ==> r.value == FileStem(imgHuman).value + ".gif"
    {
      match output
      case Some(path) => Ok(path)
      case None =>
        match Name()
        case Ok(name) => Ok(name + ".gif")
        case Err(e) => Err(e)
    }
  }

  /** The configuration clap builds when only the three positional arguments are given. */
  function WithDefaults(imgHuman: Path, imgOtter: Path, pointsCsv: Path): (cli: Cli)
    ensures cli.output.None? && cli.frameDuration == 50 && cli.interpLen == 30 && cli.pauseLen == 15
    ensures cli.imgHuman == imgHuman && cli.imgOtter == imgOtter && cli.pointsCsv == pointsCsv
  {
    Cli(None, DefaultFrameDuration, DefaultInterpLen, DefaultPauseLen, imgHuman, imgOtter, pointsCsv)
  }

  // ---------------------------------------------------------------------------
  // `Path::file_name` and `Path::file_stem`

  /** The pieces of `s` between occurrences of `sep`. */
  function Split(s: string, sep: char): (parts: seq<string>)
    ensures |parts| >= 1
    ensures forall i :: 0 <= i < |parts| ==> sep !in parts[i]
  {
    if s == [] then [""]
    else
      var rest := Split(s[1..], sep);
      if s[0] == sep then [""] + rest
      else [[s[0]] + rest[0]] + rest[1..]
  }

  /** The components that `Path::components` yields as named ones, or "..": empty and "." pieces vanish. */
  function NamedParts(parts: seq<string>): (named: seq<string>)
    ensures forall i :: 0 <= i < |named| ==> named[i] != "" && named[i] != "." && named[i] in parts
  {
    if parts == [] then []
    else
      var rest := NamedParts(parts[1..]);
      if parts[0] == "" || parts[0] == "." then rest else [parts[0]] + rest
  }

  /** `Path::file_name`: the last component, unless the path ends in ".." or has no component. */
  function FileName(p: Path): (r: Option<string>)
    ensures r.Some? ==> r.value in Split(p, '/')
    ensures r.Some? ==> r.value != "" && r.value != "." && r.value != ".." && '/' !in r.value
  {
    var named := NamedParts(Split(p, '/'));
    if named == [] || named[|named| - 1] == ".." then None else Some(named[|named| - 1])
  }

  /** The index of the last occurrence of `c` in `s`. */
  function LastIndexOf(s: string, c: char): (r: Option<nat>)
    ensures r.None? <==> c !in s
    ensures r.Some? ==> r.value < |s| && s[r.value] == c && c !in s[r.value + 1..]
  {
    if s == [] then None
    else if s[|s| - 1] == c then Some(|s| - 1)
    else
      var r := LastIndexOf(s[..|s| - 1], c);
      assert s == s[..|s| - 1] + [s[|s| - 1]];
      r
  }

  /**
   * The stem of a file name: the part before the last '.', unless there is no
   * '.', or the only one starts the name (".bashrc"), where it is the whole name.
   */
  function Stem(name: string): (stem: string)
    ensures name != "" ==>
      stem != "" && stem <= name &&
      (stem == name || (name[|stem|] == '.' && '.' !in name[|stem| + 1..]))
    ensures name != "" ==> (stem == name <==> '.' !in name[1..])
  {
    match LastIndexOf(name, '.')
    case None => name
    case Some(d) => if d == 0 then name else name[..d]
  }

  /** `Path::file_stem`. */
  function FileStem(p: Path): (r: Option<string>)
    ensures r.Some? <==> FileName(p).Some?
    ensures r.Some? ==> r.value != "" && r.value <= FileName(p).value && '/' !in r.value
  {
    match FileName(p)
    case None => None
    case Some(name) => Some(Stem(name))
  }

  // ---------------------------------------------------------------------------
  // Properties

  /** The stem of `stem.ext`, for an extension without a dot, is `stem`. */
  lemma StemOfExtension(stem: string, ext: string)
    requires stem != "" && '.' !in ext
    ensures Stem(stem + "." + ext) == stem
  {
    var name := stem + "." + ext;
    assert name[|stem|] == '.';
    assert name[|stem| + 1..] == ext;
    assert name[..|stem|] == stem;
  }

  /** A bare name without '/' that is not "." or ".." is its own file name. */
  lemma FileNameOfBareName(name: string)
    requires name != "" && name != "." && name != ".." && '/' !in name
    ensures FileName(name) == Some(name)
  {
    SplitNoSeparator(name, '/');
  }

  lemma {:induction false} SplitNoSeparator(s: string, sep: char)
    requires sep !in s
    ensures Split(s, sep) == [s]
  {
    if s != [] {
      SplitNoSeparator(s[1..], sep);
      assert [s[0]] + s[1..] == s;
    }
  }

  lemma {:induction false} SplitAppend(a: string, b: string, sep: char)
    ensures Split(a + [sep] + b, sep) == Split(a, sep) + Split(b, sep)
  {
    if a == [] {
      assert [sep] + b == a + [sep] + b;
      assert ([sep] + b)[1..] == b;
    } else {
      assert (a + [sep] + b)[1..] == a[1..] + [sep] + b;
      assert (a + [sep] + b)[0] == a[0];
      SplitAppend(a[1..], b, sep);
    }
  }

  lemma {:induction false} NamedPartsAppend(x: seq<string>, y: seq<string>)
    ensures NamedParts(x + y) == NamedParts(x) + NamedParts(y)
  {
    if x != [] {
      assert (x + y)[1..] == x[1..] + y;
      NamedPartsAppend(x[1..], y);
    } else {
      assert x + y == y;
    }
  }

  /** The file name of `dir/name` is `name`, whatever the directory. */
  lemma FileNameInDirectory(dir: Path, name: string)
    requires name != "" && name != "." && name != ".." && '/' !in name
    ensures FileName(dir + "/" + name) == Some(name)
  {
    SplitAppend(dir, name, '/');
    SplitNoSeparator(name, '/');
    NamedPartsAppend(Split(dir, '/'), [name]);
    assert dir + "/" + name == dir + ['/'] + name;
  }

  /**
   * The default output path depends on the human image only: the file name
   * `stem.ext` becomes `stem.gif`, and it never names a directory.
   */
  lemma DefaultOutput(cli: Cli, stem: string, ext: string)
    requires cli.output.None?
    requires FileName(cli.imgHuman) == Some(stem + "." + ext) && stem != "" && '.' !in ext
    ensures cli.Output() == Ok(stem + ".gif")
  {
    StemOfExtension(stem, ext);
  }

  /** Changing the other image, the point file or the timings does not change the output path. */
  lemma OutputDependsOnHumanImageOnly(a: Cli, b: Cli)
    requires a.output == b.output && a.imgHuman == b.imgHuman
    ensures a.Output() == b.Output()
  {
  }

  /** Without an explicit path, `output()` fails exactly when the human image has no file stem. */
  lemma OutputFailsWithoutStem(cli: Cli)
    requires cli.output.None?
    ensures cli.Output().Err? <==> FileName(cli.imgHuman).None?
    ensures cli.Output().Err? ==> cli.Output().error == NoFileStem(cli.imgHuman)
  {
  }

  /** The default output path ends in ".gif" and has no directory part. */
  lemma DefaultOutputIsLocalGif(cli: Cli)
    requires cli.output.None? && cli.Output().Ok?
    ensures var out := cli.Output().value;
      |out| > 4 && out[|out| - 4..] == ".gif" && '/' !in out
  {
  }
}
