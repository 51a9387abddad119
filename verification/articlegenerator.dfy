/** The command-line front end: the `type=` validators of the options, the
    all-defaults test and the if/elif chain that picks what to do with the
    parsed options. */
module ArticleGenerator {
  import opened Errors
  import opened Text
  import opened Handler
  import opened Orchestration

  // ---------------------------------------------------------------------
  // Option validators
  // ---------------------------------------------------------------------

  /** `positive_int_type`: `int(value)`, rejected unless positive. The
      accepted texts are the integer texts without a `-` sign and with a
      digit other than `0`. */
  function PositiveIntType(value: string): (r: Result<int>)
    ensures r.Ok? <==> IsIntText(value) && value[0] != '-' && HasNonZeroDigit(value)
    ensures r.Ok? ==> r.value > 0 && r.value == ParseInt(value).value
    ensures !IsIntText(value) ==> r == Err(ValueError(value))
    ensures IsIntText(value) && r.Err? ==> r == Err(ArgumentTypeError(value + " is not a positive int."))
  {
    PositiveIntText(value);
    match ParseInt(value)
    case Err(e) => Err(e)
    case Ok(i) =>
      if i <= 0 then Err(ArgumentTypeError(value + " is not a positive int.")) else Ok(i)
  }

  /** An integer text denotes a positive number exactly when it has no `-`
      sign and a digit other than `0`. */
  lemma PositiveIntText(value: string)
    ensures IsIntText(value) ==> (ParseInt(value).value > 0 <==> value[0] != '-' && HasNonZeroDigit(value))
  {
    if !IsIntText(value) {
    } else if IsDigit(value[0]) {
      DigitsValuePositive(value);
    } else {
      var digits := value[1..];
      DigitsValuePositive(digits);
      if HasNonZeroDigit(digits) {
        var i :| 0 <= i < |digits| && '1' <= digits[i] <= '9';
        assert value[i + 1] == digits[i];
      }
      if HasNonZeroDigit(value) {
        var i :| 0 <= i < |value| && '1' <= value[i] <= '9';
        assert i > 0 && digits[i - 1] == value[i];
      }
    }
  }

  /** The decimal text of a number is accepted exactly when the number is
      positive, and then gives the number back. */
  lemma PositiveIntTypeOfDecimal(n: nat)
    ensures PositiveIntType(NatToString(n)).Ok? <==> n > 0
    ensures n > 0 ==> PositiveIntType(NatToString(n)) == Ok(n)
  {
    ParseIntOfNatToString(n);
  }

  /** `existing_filename_type`: accepts exactly the names of existing files. */
  function ExistingFilenameType(files: FileSystem, value: string): (r: Result<string>)
    ensures r.Ok? <==> value in files
    ensures r.Ok? ==> r.value == value
    ensures r.Err? ==> r.error == ArgumentTypeError(value + " is not the name of a file that exists.")
  {
    if value !in files then Err(ArgumentTypeError(value + " is not the name of a file that exists."))
    else Ok(value)
  }

  /** `not_existing_filename_type`: accepts exactly the names of files that
      do not exist. */
  function NotExistingFilenameType(files: FileSystem, value: string): (r: Result<string>)
    ensures r.Ok? <==> value !in files
    ensures r.Ok? ==> r.value == value
    ensures r.Err? ==> r.error == ArgumentTypeError(value + " is not the name of a file that does not exists.")
  {
    if value in files then Err(ArgumentTypeError(value + " is not the name of a file that does not exists."))
    else Ok(value)
  }

  /** No name passes both file validators. */
  lemma FileValidatorsExclusive(files: FileSystem, value: string)
    ensures ExistingFilenameType(files, value).Ok? != NotExistingFilenameType(files, value).Ok?
  {
  }

  // ---------------------------------------------------------------------
  // The options
  // ---------------------------------------------------------------------

  const DefaultNumSamples: int := 1
  const DefaultNumWords: int := 1023

  /** The options as given on the command line, before validation (`None`
      for an option that is absent). */
  datatype RawArgs = RawArgs(
    filename: Option<string>,
    outputFilename: Option<string>,
    printOutput: bool,
    numSamples: Option<string>,
    numWords: Option<string>,
    titleFilename: Option<string>,
    contentFilename: Option<string>,
    title: Option<string>,
    content: Option<string>)

  /** An empty command line. */
  const NoArguments: RawArgs := RawArgs(None, None, false, None, None, None, None, None, None)

  /** The parsed namespace. */
  datatype Namespace = Namespace(
    filename: Option<string>,
    outputFilename: Option<string>,
    printOutput: bool,
    numSamples: int,
    numWords: int,
    titleFilename: Option<string>,
    contentFilename: Option<string>,
    title: Option<string>,
    content: Option<string>)

  /** An optional file-name option: validated when given. */
  function FileOption(files: FileSystem, value: Option<string>, mustExist: bool): (r: Result<Option<string>>)
    ensures r.Ok? <==> value.None? || (value.value in files <==> mustExist)
    ensures r.Ok? ==> r.value == value
  {
    if value.None? then Ok(None)
    else
      var checked := if mustExist then ExistingFilenameType(files, value.value)
                     else NotExistingFilenameType(files, value.value);
      match checked
      case Err(e) => Err(e)
      case Ok(name) => Ok(Some(name))
  }

  /** An optional count: positive when given, the default otherwise. */
  function CountOption(value: Option<string>, default: int): (r: Result<int>)
    ensures value.None? ==> r == Ok(default)
    ensures value.Some? ==> r == PositiveIntType(value.value)
  {
    if value.None? then Ok(default) else PositiveIntType(value.value)
  }

  /** What the parser makes of the command line: every given option goes
      through its `type=` validator; the counts default to 1 and 1023 and
      the other options to `None` (`False` for `--print`). */
  function ParseArguments(files: FileSystem, raw: RawArgs): (r: Result<Namespace>)
    ensures r.Ok? <==>
      (raw.filename.None? || raw.filename.value in files)
      && (raw.outputFilename.None? || raw.outputFilename.value !in files)
      && (raw.numSamples.None? || PositiveIntType(raw.numSamples.value).Ok?)
      && (raw.numWords.None? || PositiveIntType(raw.numWords.value).Ok?)
      && (raw.titleFilename.None? || raw.titleFilename.value in files)
      && (raw.contentFilename.None? || raw.contentFilename.value in files)
    ensures r.Ok? ==> r.value.numSamples > 0 && r.value.numWords > 0
    ensures r.Ok? ==> (r.value.filename == raw.filename && r.value.outputFilename == raw.outputFilename
      && r.value.titleFilename == raw.titleFilename && r.value.contentFilename == raw.contentFilename
      && r.value.title == raw.title && r.value.content == raw.content && r.value.printOutput == raw.printOutput)
    ensures r.Ok? ==> raw.numSamples.None? ==> r.value.numSamples == DefaultNumSamples
    ensures r.Ok? ==> raw.numWords.None? ==> r.value.numWords == DefaultNumWords
    ensures r.Ok? && raw.numSamples.Some? ==> r.value.numSamples == PositiveIntType(raw.numSamples.value).value
    ensures r.Ok? && raw.numWords.Some? ==> r.value.numWords == PositiveIntType(raw.numWords.value).value
  {
    var filename :- FileOption(files, raw.filename, true);
    var outputFilename :- FileOption(files, raw.outputFilename, false);
    var numSamples :- CountOption(raw.numSamples, DefaultNumSamples);
    var numWords :- CountOption(raw.numWords, DefaultNumWords);
    var titleFilename :- FileOption(files, raw.titleFilename, true);
    var contentFilename :- FileOption(files, raw.contentFilename, true);
    Ok(Namespace(filename, outputFilename, raw.printOutput, numSamples, numWords, titleFilename, contentFilename,
                 raw.title, raw.content))
  }

  /** `is_default_args`: every option holds its default. */
  predicate IsDefaultArgs(ns: Namespace)
  {
    ns.content.None? && ns.contentFilename.None? && ns.filename.None? && !ns.printOutput
    && ns.numSamples == DefaultNumSamples && ns.numWords == DefaultNumWords
    && ns.outputFilename.None? && ns.title.None? && ns.titleFilename.None?
  }

  // ---------------------------------------------------------------------
  // Dispatch
  // ---------------------------------------------------------------------

  const NoOutputMessage: string := "Output has not been set to either console or an output file."
  const SameFileMessage: string := "Output filename cannot be the same as an input filename."

  /** What the script does with a namespace. The number of words is not
      part of any generation request. */
  datatype Action =
    | LaunchGui
    | Fail(error: Exception)
    | FromSingleFile(filename: string, numSamples: int, printOutput: bool, outputFilename: Option<string>)
    | FromFiles(titleFilename: string, contentFilename: Option<string>, numSamples: int, printOutput: bool,
                outputFilename: Option<string>)
    | FromText(title: string, content: Option<string>, numSamples: int, printOutput: bool, outputFilename: Option<string>)
    | NoAction

  /** The if/elif chain of the script, in its order. */
  function Dispatch(ns: Namespace): (r: Action)
    ensures r.LaunchGui? <==> IsDefaultArgs(ns)
    ensures !IsDefaultArgs(ns) && !Truthy(ns.outputFilename) && !ns.printOutput
      ==> r == Fail(ArgumentError(NoOutputMessage))
    ensures r.Fail? ==> r.error.ArgumentError?
    ensures r.FromSingleFile? || r.FromFiles? || r.FromText?
      ==> (Truthy(ns.outputFilename) || ns.printOutput)
    ensures r.FromSingleFile? || r.FromFiles? || r.FromText?
      ==> r.numSamples == ns.numSamples && r.printOutput == ns.printOutput && r.outputFilename == ns.outputFilename
    ensures r.FromFiles? ==> r.contentFilename == ns.contentFilename
    ensures r.FromText? ==> r.content == ns.content
  {
    if IsDefaultArgs(ns) then LaunchGui
    else if !Truthy(ns.outputFilename) && !ns.printOutput then Fail(ArgumentError(NoOutputMessage))
    else if Truthy(ns.outputFilename)
      && ns.outputFilename in [ns.filename, ns.titleFilename, ns.contentFilename]
    then Fail(ArgumentError(SameFileMessage))
    else if Truthy(ns.filename) then
      FromSingleFile(ns.filename.value, ns.numSamples, ns.printOutput, ns.outputFilename)
    else if Truthy(ns.titleFilename) then
      FromFiles(ns.titleFilename.value, ns.contentFilename, ns.numSamples, ns.printOutput, ns.outputFilename)
    else if Truthy(ns.title) then
      FromText(ns.title.value, ns.content, ns.numSamples, ns.printOutput, ns.outputFilename)
    else NoAction
  }

  /** What the script's two `raise argparse.ArgumentError(message)`
      statements do as written: the constructor takes the offending argument
      and the message, so a call with the message alone raises `TypeError`
      before any `ArgumentError` exists. Every other action is unchanged. */
  function DispatchAsWritten(ns: Namespace): (r: Action)
    ensures r.Fail? <==> Dispatch(ns).Fail?
    ensures r.Fail? ==> r.error == TypeError
    ensures !r.Fail? ==> r == Dispatch(ns)
  {
    var intended := Dispatch(ns);
    if intended.Fail? then Fail(TypeError) else intended
  }

  /** `-n 2` with neither `-o` nor `-p`: the script means to report that no
      output was chosen, but as written it raises `TypeError`. */
  lemma NoOutputRaisesTypeError(files: FileSystem)
    ensures var ns := ParseArguments(files, NoArguments.(numSamples := Some("2")));
      ns.Ok?
      && Dispatch(ns.value) == Fail(ArgumentError(NoOutputMessage))
      && DispatchAsWritten(ns.value) == Fail(TypeError)
  {
    PositiveIntTypeOfDecimal(2);
    SmallNatToString();
  }

  /** An empty command line launches the interface. */
  lemma NoArgumentsLaunchGui(files: FileSystem)
    ensures ParseArguments(files, NoArguments).Ok?
    ensures Dispatch(ParseArguments(files, NoArguments).value) == LaunchGui
  {
  }

  /** Spelling out the default sample count is the same as leaving it out:
      `-n 1` alone also launches the interface. */
  lemma ExplicitDefaultCountLaunchesGui(files: FileSystem)
    ensures ParseArguments(files, NoArguments.(numSamples := Some("1"))).Ok?
    ensures Dispatch(ParseArguments(files, NoArguments.(numSamples := Some("1"))).value) == LaunchGui
  {
    PositiveIntTypeOfDecimal(1);
    SmallNatToString();
  }

  /** The output name is compared with the input names only as given; once
      the validators have accepted the options it can never equal one of
      them, because the output must not exist and the inputs must. */
  lemma SameFileCheckUnreachable(files: FileSystem, raw: RawArgs)
    requires ParseArguments(files, raw).Ok?
    ensures Dispatch(ParseArguments(files, raw).value) != Fail(ArgumentError(SameFileMessage))
  {
    var ns := ParseArguments(files, raw).value;
    if Truthy(ns.outputFilename) {
      assert ns.outputFilename != ns.filename;
      assert ns.outputFilename != ns.titleFilename;
      assert ns.outputFilename != ns.contentFilename;
    }
  }

  /** An output name equal to an input name is refused, whatever else is
      given, once output was asked for. */
  lemma SameFileRefused(ns: Namespace)
    requires Truthy(ns.outputFilename)
    requires ns.outputFilename == ns.filename || ns.outputFilename == ns.titleFilename
      || ns.outputFilename == ns.contentFilename
    ensures Dispatch(ns) == Fail(ArgumentError(SameFileMessage))
  {
  }

  /** Which title source wins: the combined file, then the title file, then
      the literal title; with none of them nothing happens and nothing is
      reported. */
  lemma TitleSourcePrecedence(ns: Namespace)
    requires Truthy(ns.outputFilename) || ns.printOutput
    requires !Truthy(ns.outputFilename)
      || ns.outputFilename !in [ns.filename, ns.titleFilename, ns.contentFilename]
    ensures Truthy(ns.filename) ==> Dispatch(ns).FromSingleFile? && Dispatch(ns).filename == ns.filename.value
    ensures !Truthy(ns.filename) && Truthy(ns.titleFilename)
      ==> Dispatch(ns).FromFiles? && Dispatch(ns).titleFilename == ns.titleFilename.value
    ensures !Truthy(ns.filename) && !Truthy(ns.titleFilename) && Truthy(ns.title)
      ==> Dispatch(ns).FromText? && Dispatch(ns).title == ns.title.value
    ensures !Truthy(ns.filename) && !Truthy(ns.titleFilename) && !Truthy(ns.title)
      ==> Dispatch(ns) == NoAction
  {
  }

  /** The literal content matters only when the literal title is used. */
  lemma ContentOnlyWithTitle(ns: Namespace, content: Option<string>)
    requires Truthy(ns.outputFilename) || ns.printOutput
    ensures !Dispatch(ns).FromText? ==> Dispatch(ns.(content := content)) == Dispatch(ns)
  {
  }

  /** The content file matters only when the title file is used (or when it
      clashes with the output name). */
  lemma ContentFileOnlyWithTitleFile(ns: Namespace, contentFilename: Option<string>)
    requires Truthy(ns.outputFilename) || ns.printOutput
    requires !Truthy(ns.outputFilename) || contentFilename != ns.outputFilename
    ensures !Dispatch(ns).FromFiles? && Dispatch(ns) != Fail(ArgumentError(SameFileMessage))
      ==> Dispatch(ns.(contentFilename := contentFilename)) == Dispatch(ns)
  {
  }

  /** `--num_words` changes nothing once output was asked for: no action
      carries it. */
  lemma NumWordsIgnored(ns: Namespace, numWords: int)
    requires Truthy(ns.outputFilename) || ns.printOutput
    ensures Dispatch(ns.(numWords := numWords)) == Dispatch(ns)
  {
  }

  /** The usage example `-f example.txt -o sample.txt -n 3` generates three
      samples from `example.txt` and writes them to `sample.txt`'s numbered
      names. */
  lemma UsageExample(files: FileSystem)
    requires "example.txt" in files && "sample.txt" !in files
    ensures var raw := NoArguments.(filename := Some("example.txt"), outputFilename := Some("sample.txt"),
                                    numSamples := Some("3"));
      ParseArguments(files, raw).Ok?
      && Dispatch(ParseArguments(files, raw).value) == FromSingleFile("example.txt", 3, false, Some("sample.txt"))
  {
    PositiveIntTypeOfDecimal(3);
    SmallNatToString();
  }

  /** The three numbered names are `sample0.txt` to `sample2.txt`; no
      `sample3.txt` is among them. */
  lemma UsageExampleNames()
    ensures IndexedNames("sample.txt", 3) == {"sample0.txt", "sample1.txt", "sample2.txt"}
  {
    var names := ["sample0.txt", "sample1.txt", "sample2.txt"];
    forall i | 0 <= i < 3
      ensures IndexedName("sample.txt", i) == names[i]
    {
      NumberedSampleNames(i);
      SmallNatToString();
      SampleNameSpellings();
    }
    assert IndexedName("sample.txt", 0) in IndexedNames("sample.txt", 3);
    assert IndexedName("sample.txt", 1) in IndexedNames("sample.txt", 3);
    assert IndexedName("sample.txt", 2) in IndexedNames("sample.txt", 3);
  }

  /** The numbered output names are not checked against the input: with
      `-f in0.txt -o in.txt -n 2` the options are accepted and the first
      sample is written over the input file. */
  lemma NumberedOutputCanOverwriteInput(files: FileSystem, s0: string, s1: string)
    requires "in0.txt" in files && "in.txt" !in files
    ensures var raw := NoArguments.(filename := Some("in0.txt"), outputFilename := Some("in.txt"),
                                    numSamples := Some("2"));
      ParseArguments(files, raw).Ok?
      && Dispatch(ParseArguments(files, raw).value) == FromSingleFile("in0.txt", 2, false, Some("in.txt"))
    ensures "in0.txt" in OutputFiles(files, "in.txt", [s0, s1]) && OutputFiles(files, "in.txt", [s0, s1])["in0.txt"] == s0
  {
    PositiveIntTypeOfDecimal(2);
    SmallNatToString();
    InTxtFirstName();
    OutputFilesMeaning(files, "in.txt", [s0, s1]);
  }

  /** The first numbered name for `in.txt` is `in0.txt`. */
  lemma InTxtFirstName()
    ensures IndexedName("in.txt", 0) == "in0.txt"
  {
    assert "in.txt" == "in" + ".txt";
    RFindIs("in", '/', -1);
    SplitExtAtLastDot("in", ".txt", 0);
    IndexedNameOfSplit("in.txt", "in", ".txt", 0);
    SmallNatToString();
    InZeroSpelling();
  }

  // A concrete spelling of a literal concatenation; it only keeps the
  // scenario lemma above cheap to prove.
  lemma InZeroSpelling()
    ensures "in" + "0" + ".txt" == "in0.txt"
  {
  }

  // ---------------------------------------------------------------------
  // The script
  // ---------------------------------------------------------------------

  /** The result of carrying out an action (`Ok([])` when nothing is
      generated). */
  function ActionSamples(files: FileSystem, engine: Engine, action: Action): Result<seq<string>>
  {
    match action
    case LaunchGui => Ok([])
    case NoAction => Ok([])
    case Fail(e) => Err(e)
    case FromSingleFile(f, n, _, _) => SingleFileSamples(files, engine, f, n, DefaultNumWords)
    case FromFiles(t, c, n, _, _) => FilesSamples(files, engine, t, c, n, DefaultNumWords)
    case FromText(t, c, n, _, _) => Samples(engine, t, c, n, DefaultNumWords)
  }

  /** Whether an action generates samples (and so may print and write). */
  predicate Generates(action: Action)
  {
    action.FromSingleFile? || action.FromFiles? || action.FromText?
  }

  /** The script body after parsing: dispatch, then generate with the
      generator's defaults for everything the action does not carry.
      Launching the interface is reported as an action and changes no
      file. */
  method Run(gen: Generator, engine: Engine, ns: Namespace) returns (action: Action, r: Result<seq<string>>)
    modifies gen
    ensures action == Dispatch(ns)
    ensures r == ActionSamples(old(gen.files), engine, action)
    ensures !Generates(action) ==> gen.files == old(gen.files) && gen.console == old(gen.console)
    ensures Generates(action) ==> gen.files == FilesAfter(old(gen.files), action.outputFilename, r)
    ensures Generates(action) ==> gen.console == ConsoleAfter(old(gen.console), action.printOutput, r)
  {
    action := Dispatch(ns);
    match action {
      case LaunchGui =>
        r := Ok([]);
      case NoAction =>
        r := Ok([]);
      case Fail(e) =>
        r := Err(e);
      case FromSingleFile(f, n, p, o) =>
        r := gen.GenerateFromSingleFile(engine, f, n, p, o, DefaultNumWords);
      case FromFiles(t, c, n, p, o) =>
        r := gen.GenerateFromFiles(engine, t, c, n, p, o, DefaultNumWords);
      case FromText(t, c, n, p, o) =>
        r := gen.Generate(engine, t, c, n, p, o, DefaultNumWords);
    }
  }
}
