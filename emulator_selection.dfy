/**
 * How EmulatorSelectionController.java turns an emulator and a ROM into a process command:
 * the emulator's argument text and the ROM's override for that emulator are combined, the
 * `{emu}` and `{rom}` placeholders are filled in, the result is cut into `Scanner` tokens
 * and put behind the emulator's executable. Starting the process is not modelled.
 */
module EmulatorSelection {
  import opened Wrappers
  import opened JavaStrings
  import opened Model

  const EmuPlaceholder := "{emu}"
  const RomPlaceholder := "{rom}"

  /** The ROM path between double quotes, as it is put into the argument text. */
  function Quoted(path: string): (q: string)
    ensures |q| == |path| + 2 && q[0] == '"' && q[|q| - 1] == '"'
  {
    "\"" + path + "\""
  }

  /** The first step of `combineAndReplacePlaceholders`: fill `{emu}`, or put the emulator's text first. */
  function CombineArgs(emulatorArgs: string, romArgs: string): string {
    if Contains(romArgs, EmuPlaceholder) then Replace(romArgs, EmuPlaceholder, emulatorArgs)
    else emulatorArgs + " " + romArgs
  }

  /** The second step: fill `{rom}` with the quoted path, or append the quoted path. */
  function PlaceRom(combined: string, romAbsolutePath: string): string {
    if Contains(combined, RomPlaceholder) then Replace(combined, RomPlaceholder, Quoted(romAbsolutePath))
    else combined + " " + Quoted(romAbsolutePath)
  }

  /**
   * `combineAndReplacePlaceholders`: the argument text handed to the parser. It never has
   * leading or trailing blanks, and it always holds the quoted ROM path, either where `{rom}`
   * stood or at the end.
   */
  function CombineAndReplacePlaceholders(emulatorArgs: string, romArgs: string, romAbsolutePath: string)
    : (combined: string)
    ensures IsTrimmed(combined)
    ensures Contains(combined, Quoted(romAbsolutePath))
  {
    var withRom := PlaceRom(CombineArgs(emulatorArgs, romArgs), romAbsolutePath);
    PlaceRomHoldsPath(CombineArgs(emulatorArgs, romArgs), romAbsolutePath);
    TrimKeeps(withRom, Quoted(romAbsolutePath));
    Trim(withRom)
  }

  lemma PlaceRomHoldsPath(combined: string, romAbsolutePath: string)
    ensures Contains(PlaceRom(combined, romAbsolutePath), Quoted(romAbsolutePath))
  {
    if Contains(combined, RomPlaceholder) {
      ReplaceInserts(combined, RomPlaceholder, Quoted(romAbsolutePath));
    } else {
      ContainsSuffix(combined + " ", Quoted(romAbsolutePath));
    }
  }

  /**
   * Without placeholders the emulator's text comes first, then the ROM's text, then the
   * quoted path, separated by single spaces and trimmed.
   */
  lemma NoPlaceholders(emulatorArgs: string, romArgs: string, path: string)
    requires !Contains(romArgs, EmuPlaceholder)
    requires !Contains(emulatorArgs + " " + romArgs, RomPlaceholder)
    ensures CombineAndReplacePlaceholders(emulatorArgs, romArgs, path)
         == Trim(emulatorArgs + " " + romArgs + " " + Quoted(path))
  {
  }

  /**
   * A single `{emu}` in the ROM's text is replaced by the emulator's text in place, nothing is
   * put in front, and the quoted path is appended.
   */
  lemma {:induction false} EmuPlaceholderFilledInPlace(emulatorArgs: string, a: string, b: string, path: string)
    requires !Contains(a + EmuPlaceholder[..4], EmuPlaceholder) && !Contains(b, EmuPlaceholder)
    requires !Contains(a + emulatorArgs + b, RomPlaceholder)
    ensures CombineAndReplacePlaceholders(emulatorArgs, a + EmuPlaceholder + b, path)
         == Trim(a + emulatorArgs + b + " " + Quoted(path))
  {
    var romArgs := a + EmuPlaceholder + b;
    ContainsExtendLeft(a, EmuPlaceholder + b, EmuPlaceholder);
    ContainsPrefix(EmuPlaceholder, b);
    assert a + (EmuPlaceholder + b) == romArgs;
    ReplaceSingle(a, EmuPlaceholder, b, emulatorArgs);
  }

  /**
   * A single `{rom}` is replaced by the quoted path in place, and the path is not appended a
   * second time.
   */
  lemma {:induction false} RomPlaceholderFilledInPlace(emulatorArgs: string, a: string, b: string, path: string)
    requires !Contains(a + RomPlaceholder + b, EmuPlaceholder)
    requires !Contains(emulatorArgs + " " + a + RomPlaceholder[..4], RomPlaceholder)
    requires !Contains(b, RomPlaceholder)
    ensures CombineAndReplacePlaceholders(emulatorArgs, a + RomPlaceholder + b, path)
         == Trim(emulatorArgs + " " + a + Quoted(path) + b)
  {
    var front := emulatorArgs + " " + a;
    var combined := front + RomPlaceholder + b;
    assert emulatorArgs + " " + (a + RomPlaceholder + b) == combined;
    ContainsExtendLeft(front, RomPlaceholder + b, RomPlaceholder);
    ContainsPrefix(RomPlaceholder, b);
    assert front + (RomPlaceholder + b) == combined;
    ReplaceSingle(front, RomPlaceholder, b, Quoted(path));
    assert front + Quoted(path) + b == emulatorArgs + " " + a + Quoted(path) + b;
  }

  // ---------------------------------------------------------------- parsing

  /**
   * `parseArguments`: the tokens a `Scanner` reads from the text, in order. Null or empty text
   * gives no arguments. Quote characters are ordinary characters, so a quoted path holding a
   * blank is two arguments.
   */
  method ParseArguments(args: Option<string>) returns (arguments: seq<string>)
    ensures args.None? ==> arguments == []
    ensures args.Some? ==> arguments == Tokens(args.value)
  {
    if args.None? || args.value == [] {
      return [];
    }
    arguments := [];
    var rest := args.value;
    while HasNext(rest)
      invariant arguments + Tokens(rest) == Tokens(args.value)
      decreases |rest|
    {
      var (token, after) := Next(rest);
      AppendAssoc(arguments, token, Tokens(after));
      arguments := arguments + [token];
      rest := after;
    }
  }

  // ---------------------------------------------------------------- the launch command

  /** The process to start: the command line and the working directory (none means inherited). */
  datatype Launch = Launch(command: seq<string>, directory: Option<string>)

  /**
   * `java.io.File.getParent` for a normalised Unix path: the text before the last `/`, the
   * root itself for a file directly under it, and nothing for a name without a directory.
   */
  function ParentPath(path: string): (parent: Option<string>)
    ensures parent.Some? ==> |parent.value| < |path| && StartsWith(path, parent.value)
  {
    if '/' !in path then None
    else
      var index := LastIndexOf(path, '/');
      var prefixLength := if path[0] == '/' then 1 else 0;
      if index < prefixLength then
        if prefixLength > 0 && |path| > prefixLength then Some(path[..prefixLength]) else None
      else Some(path[..index])
  }

  /** An executable in a directory runs in that directory; one directly under the root runs in the root. */
  lemma ParentOfFileInDirectory(dir: string, fileName: string)
    requires fileName != "" && '/' !in fileName
    requires dir == "/" || (|dir| > 1 && dir[0] == '/')
    ensures dir == "/" ==> ParentPath(dir + fileName) == Some("/")
    ensures dir != "/" ==> ParentPath(dir + "/" + fileName) == Some(dir)
  {
    if dir == "/" {
      var p := dir + fileName;
      assert p[1..] == fileName;
      LastIndexOfAt(p, '/', 0);
    } else {
      var p := dir + "/" + fileName;
      assert p[|dir| + 1..] == fileName;
      LastIndexOfAt(p, '/', |dir|);
      assert p[..|dir|] == dir;
    }
  }

  /** The ROM's override for the emulator's id; "" when there is none (a null id finds none). */
  function RomArgsFor(overrides: map<Int32, string>, id: Option<Int32>): (romArgs: string)
    ensures id.None? || id.value !in overrides ==> romArgs == ""
    ensures id.Some? && id.value in overrides ==> romArgs == overrides[id.value]
  {
    if id.Some? && id.value in overrides then overrides[id.value] else ""
  }

  /**
   * The launch `launchRomWithEmulator` prepares: the executable, then the parsed arguments,
   * with the ROM path alone as the fallback when there are none; the working directory is the
   * executable's parent.
   */
  function LaunchOf(exePath: string, emulatorArgs: string, romArgs: string, romPath: string): Launch {
    var tokens := Tokens(CombineAndReplacePlaceholders(emulatorArgs, romArgs, romPath));
    Launch(CommandOf(exePath, tokens, romPath), ParentPath(exePath))
  }

  /** The executable, then the arguments, or the bare ROM path when there are none. */
  function CommandOf(exePath: string, arguments: seq<string>, romPath: string): seq<string> {
    [exePath] + (if arguments == [] then [romPath] else arguments)
  }

  /** Text holding a quote character always yields at least one token. */
  lemma QuotedPathGivesToken(s: string, path: string)
    requires Contains(s, Quoted(path))
    ensures Tokens(s) != []
  {
    ContainsFirstChar(s, Quoted(path));
    TokensEmptyIff(s);
    var k :| 0 <= k < |s| && s[k] == '"';
    assert !IsWhitespace(s[k]);
  }

  /**
   * The command is the executable followed by exactly the parsed arguments: it has at least two
   * elements, and the fallback of adding the bare ROM path never applies, because the argument
   * text always holds the quoted path.
   */
  lemma LaunchCommandShape(exePath: string, emulatorArgs: string, romArgs: string, romPath: string)
    ensures var l := LaunchOf(exePath, emulatorArgs, romArgs, romPath);
      && |l.command| >= 2
      && l.command[0] == exePath
      && l.command[1..] == Tokens(CombineAndReplacePlaceholders(emulatorArgs, romArgs, romPath))
      && l.directory == ParentPath(exePath)
  {
    var combined := CombineAndReplacePlaceholders(emulatorArgs, romArgs, romPath);
    QuotedPathGivesToken(combined, romPath);
  }

  /**
   * `launchRomWithEmulator`, up to the start of the process, with an unset emulator argument
   * text read as "" (see `CombineAsWritten` for what the code does instead).
   */
  method LaunchRomWithEmulator(emulator: Emulator, rom: RomFile) returns (launch: Launch)
    ensures launch == LaunchOf(emulator.executablePath, emulator.launchParameters.launchParameters.GetOr(""),
                               RomArgsFor(rom.launchParameters, emulator.id), rom.filePath)
  {
    var command := [emulator.executablePath];
    var emulatorArgs := emulator.launchParameters.launchParameters.GetOr("");
    var romArgs := RomArgsFor(rom.launchParameters, emulator.id);
    var combinedArgs := CombineAndReplacePlaceholders(emulatorArgs, romArgs, rom.filePath);
    var parsed := ParseArguments(Some(combinedArgs));
    command := command + parsed;
    if |command| == 1 {
      command := command + [rom.filePath];
    }
    assert command == CommandOf(emulator.executablePath, parsed, rom.filePath);
    launch := Launch(command, ParentPath(emulator.executablePath));
  }

  // ---------------------------------------------------------------- unset emulator arguments

  datatype LaunchError = NullPointer

  /**
   * `combineAndReplacePlaceholders` as written, where the emulator's text may be null: string
   * concatenation turns null into the text "null", and `replace` with a null replacement
   * throws.
   */
  function CombineAsWritten(emulatorArgs: Option<string>, romArgs: string, romAbsolutePath: string)
    : (r: Result<string, LaunchError>)
    ensures emulatorArgs.Some? ==> r == Success(CombineAndReplacePlaceholders(emulatorArgs.value, romArgs, romAbsolutePath))
  {
    if emulatorArgs.None? && Contains(romArgs, EmuPlaceholder) then Failure(NullPointer)
    else
      var text := if emulatorArgs.None? then "null" else emulatorArgs.value;
      Success(CombineAndReplacePlaceholders(text, romArgs, romAbsolutePath))
  }

  /** With no override and no brace in the emulator's text, both placeholder steps fall back to concatenation. */
  lemma PlainArguments(emulatorArgs: string, path: string)
    requires '{' !in emulatorArgs
    ensures CombineAndReplacePlaceholders(emulatorArgs, "", path) == Trim(emulatorArgs + "  " + Quoted(path))
  {
    NotContainsMissingChar("", EmuPlaceholder, '{');
    assert '{' !in emulatorArgs + " " + "";
    NotContainsMissingChar(emulatorArgs + " " + "", RomPlaceholder, '{');
    NoPlaceholders(emulatorArgs, "", path);
    DoubleBlank(emulatorArgs, Quoted(path));
  }

  lemma DoubleBlank(a: string, b: string)
    ensures a + " " + "" + " " + b == a + "  " + b
  {
  }

  /**
   * A freshly added emulator, whose argument text was never set, launched on a ROM without an
   * override: the code passes the word `null` to the emulator before the ROM path.
   */
  lemma UnsetArgumentsPassNull(path: string)
    ensures CombineAsWritten(None, "", path).Success?
    ensures var tokens := Tokens(CombineAsWritten(None, "", path).value);
      tokens != [] && tokens[0] == "null"
  {
    NotContainsMissingChar("", EmuPlaceholder, '{');
    NullIsAWord("null", path);
    LeadingWordIsFirstArgument("null", path);
  }

  lemma {:induction false} NullIsAWord(word: string, path: string)
    requires word == "null"
    ensures IsToken(word) && word[0] > ' ' && '{' !in word
  {
  }

  /** A leading word in front of the ROM path is the first argument. */
  lemma LeadingWordIsFirstArgument(word: string, path: string)
    requires IsToken(word) && word[0] > ' ' && '{' !in word
    ensures Tokens(CombineAndReplacePlaceholders(word, "", path)) == [word] + Tokens("  " + Quoted(path))
  {
    var q := Quoted(path);
    PlainArguments(word, path);
    TrimmedLead(word, q);
    TokensOfLeadingWord(word, "  " + q);
  }

  lemma TrimmedLead(word: string, q: string)
    requires IsToken(word) && q != [] && q[|q| - 1] > ' ' && word[0] > ' '
    ensures Trim(word + "  " + q) == word + ("  " + q)
  {
    ConcatAssoc(word, "  ", q);
    TrimOfTrimmed(word + ("  " + q));
  }

  /** With a `{emu}` placeholder in the ROM's override, the unset argument text makes the launch throw. */
  lemma UnsetArgumentsWithEmuPlaceholderThrow(romArgs: string, path: string)
    requires Contains(romArgs, EmuPlaceholder)
    ensures CombineAsWritten(None, romArgs, path) == Failure(NullPointer)
  {
  }

  /**
   * Reading unset argument text as "" instead, the same emulator is started with the quoted ROM
   * path as its only argument when the path has no blanks.
   */
  lemma UnsetArgumentsReadAsEmpty(exePath: string, path: string)
    requires forall k :: 0 <= k < |path| ==> !IsWhitespace(path[k])
    ensures LaunchOf(exePath, "", "", path).command == [exePath, Quoted(path)]
  {
    EmptyArgumentsGivePathOnly("", path);
  }

  lemma EmptyArgumentsGivePathOnly(empty: string, path: string)
    requires empty == ""
    requires forall k :: 0 <= k < |path| ==> !IsWhitespace(path[k])
    ensures Tokens(CombineAndReplacePlaceholders(empty, empty, path)) == [Quoted(path)]
  {
    PlainArguments(empty, path);
    TrimLeadingBlanks(empty, Quoted(path));
    QuotedPathIsOneToken(path);
  }

  lemma QuotedPathIsOneToken(path: string)
    requires forall k :: 0 <= k < |path| ==> !IsWhitespace(path[k])
    ensures Tokens(Quoted(path)) == [Quoted(path)]
  {
    var q := Quoted(path);
    QuotedPathIsToken(path);
    TokensOfSingleWord(q);
  }

  lemma TrimLeadingBlanks(empty: string, q: string)
    requires empty == "" && IsTrimmed(q) && q != []
    ensures Trim(empty + "  " + q) == q
  {
    var s := empty + "  " + q;
    LeadingBlanks(empty, q);
    assert TrimStart(s) == TrimStart(s[1..]) == TrimStart(s[2..]);
    TrimOfTrimmed(q);
  }

  lemma LeadingBlanks(empty: string, q: string)
    requires empty == ""
    ensures |empty + "  " + q| == |q| + 2
    ensures (empty + "  " + q)[0] == ' ' && (empty + "  " + q)[1] == ' '
    ensures (empty + "  " + q)[2..] == q
    ensures (empty + "  " + q)[1..][1..] == q
  {
  }

  lemma QuotedPathIsToken(path: string)
    requires forall k :: 0 <= k < |path| ==> !IsWhitespace(path[k])
    ensures IsToken(Quoted(path))
  {
    var q := Quoted(path);
    forall k | 0 <= k < |q| ensures !IsWhitespace(q[k]) {
      if 0 < k < |q| - 1 {
        assert q[k] == path[k - 1];
      }
    }
  }
}
