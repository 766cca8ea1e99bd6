/**
 * The Ghostscript side of the service: which binary is called, the argument
 * vector handed to it for one compression, and the compressor itself, which
 * is an oracle from that argument vector to the bytes of the output file.
 */
module Ghostscript {

  import opened Wrappers

  newtype byte = x: int | 0 <= x < 256

  type Bytes = seq<byte>

  /** An argument vector passed to the Ghostscript binary. */
  type Argv = seq<string>

  /**
   * The running compressor: given the arguments of one invocation it writes
   * the output file, which is then read back whole. Ghostscript is not part
   * of this model, so this is a parameter of every operation that uses it.
   */
  type Compressor = Argv -> Bytes

  // The three -dPDFSETTINGS presets the service uses.
  const Screen := "/screen"
  const Ebook := "/ebook"
  const Printer := "/printer"

  // The five flags that never change, and the prefixes of the two that do.
  const DeviceFlag := "-sDEVICE=pdfwrite"
  const CompatibilityFlag := "-dCompatibilityLevel=1.4"
  const SettingsPrefix := "-dPDFSETTINGS="
  const NoPauseFlag := "-dNOPAUSE"
  const QuietFlag := "-dQUIET"
  const BatchFlag := "-dBATCH"
  const OutputPrefix := "-sOutputFile="

  /**
   * The command name: a non-empty override from the environment wins,
   * otherwise the platform default (the console binary on Windows).
   */
  function GsCommand(binOverride: Option<string>, isWin32: bool): (cmd: string)
    ensures cmd != ""
    ensures binOverride.Some? && binOverride.value != "" ==> cmd == binOverride.value
    ensures (binOverride.None? || binOverride.value == "") ==>
              cmd == (if isWin32 then "gswin64c" else "gs")
  {
    if binOverride.Some? && binOverride.value != "" then binOverride.value
    else if isWin32 then "gswin64c" else "gs"
  }

  /** The argument vector of one compression of `inputPath` into `outputPath`. */
  function BuildArgs(inputPath: string, outputPath: string, setting: string): (argv: Argv)
    ensures |argv| == 8
    ensures argv[0] == DeviceFlag && argv[1] == CompatibilityFlag
    ensures argv[2] == SettingsPrefix + setting
    ensures argv[3] == NoPauseFlag && argv[4] == QuietFlag && argv[5] == BatchFlag
    ensures argv[6] == OutputPrefix + outputPath
    ensures argv[|argv| - 1] == inputPath
  {
    [ DeviceFlag,
      CompatibilityFlag,
      SettingsPrefix + setting,
      NoPauseFlag,
      QuietFlag,
      BatchFlag,
      OutputPrefix + outputPath,
      inputPath ]
  }

  /** What one invocation asks for: read back from an argument vector. */
  datatype Invocation = Invocation(inputPath: string, outputPath: string, setting: string)

  predicate HasPrefix(s: string, prefix: string)
  {
    |prefix| <= |s| && s[..|prefix|] == prefix
  }

  /**
   * The inverse of BuildArgs: the input file, the output file and the preset
   * read back from an argument vector, provided it has the shape BuildArgs
   * gives it.
   */
  function ParseArgs(argv: Argv): (r: Option<Invocation>)
    ensures r.Some? ==> |argv| == 8 && argv[7] == r.value.inputPath
  {
    if |argv| == 8
       && argv[0] == DeviceFlag && argv[1] == CompatibilityFlag
       && HasPrefix(argv[2], SettingsPrefix)
       && argv[3] == NoPauseFlag && argv[4] == QuietFlag && argv[5] == BatchFlag
       && HasPrefix(argv[6], OutputPrefix)
    then Some(Invocation(argv[7], argv[6][|OutputPrefix|..], argv[2][|SettingsPrefix|..]))
    else None
  }

  lemma PrefixThenRest(prefix: string, rest: string)
    ensures HasPrefix(prefix + rest, prefix) && (prefix + rest)[|prefix|..] == rest
  {
    assert (prefix + rest)[..|prefix|] == prefix;
  }

  lemma RestoreFromPrefix(s: string, prefix: string)
    requires HasPrefix(s, prefix)
    ensures prefix + s[|prefix|..] == s
  {
    assert s == s[..|prefix|] + s[|prefix|..];
  }

  /** ParseArgs recovers exactly what BuildArgs was given. */
  lemma ParseBuildArgs(inputPath: string, outputPath: string, setting: string)
    ensures ParseArgs(BuildArgs(inputPath, outputPath, setting))
            == Some(Invocation(inputPath, outputPath, setting))
  {
    PrefixThenRest(SettingsPrefix, setting);
    PrefixThenRest(OutputPrefix, outputPath);
  }

  /** Every argument vector ParseArgs accepts is one that BuildArgs produces. */
  lemma BuildParsedArgs(argv: Argv)
    requires ParseArgs(argv).Some?
    ensures var inv := ParseArgs(argv).value;
            BuildArgs(inv.inputPath, inv.outputPath, inv.setting) == argv
  {
    RestoreFromPrefix(argv[2], SettingsPrefix);
    RestoreFromPrefix(argv[6], OutputPrefix);
  }

  /**
   * Two invocations with different input, output or preset never share an
   * argument vector, so the compressor oracle is well defined per invocation.
   */
  lemma BuildArgsInjective(i1: string, o1: string, s1: string, i2: string, o2: string, s2: string)
    requires BuildArgs(i1, o1, s1) == BuildArgs(i2, o2, s2)
    ensures i1 == i2 && o1 == o2 && s1 == s2
  {
    ParseBuildArgs(i1, o1, s1);
    ParseBuildArgs(i2, o2, s2);
  }
}
