# GPT-2 article generator — a Dafny model

The article generator asks a GPT-2 language model for news-style articles. The
user gives it a title and, optionally, the opening words of the article. It can
be driven from the command line (`ArticleGenerator.py`) or from a Tk window
(`gui.py`). Both front ends go through the `Generator` façade (`generator.py`),
which talks to the model through `Gpt2Handler` (`gpt2handler.py`).

This project models that core:

- **Prompt and decoding** (`gpt2handler.dfy`, module `Handler`).
  - The prompt is built as `<|startoftext|>`, the `=====TITLE=====` header, the
    title, the `=====CONTENT=====` marker and the initial content with its
    newlines flattened to spaces.
  - The engine's default configuration table is parsed into typed generation
    arguments.
  - Each raw sample is decoded back into a `[title, content]` list: cut after
    the title header, remove every `<|…|>` token, collapse runs of spaces and
    split at the content marker, keeping at most two pieces.
  - The proved partner of decoding is the round trip. A prompt whose title and
    content carry no tokens and no double spaces decodes to exactly
    `[title, flattened content]`.
- **Orchestration** (`generator.dfy`, module `Orchestration`, class
  `Generator`).
  - Reading the seed from one file (first two lines, right-stripped) or from a
    title file plus an optional content file (first line of each).
  - Formatting each decoded pair as `title + "\n" + content`.
  - Printing the samples to the console.
  - The output fan-out: one sample is written to the given path. Any other
    number of samples `i` is written to `stem + str(i) + ext`, where
    `(stem, ext)` is `os.path.splitext` of the path.
  - The static `Generator.generate_as_tuple` (`generator.py:32-35`) only
    forwards to `Gpt2Handler.generate_as_tuple`. It is `Handler.GenerateAsTuple`
    here.
- **Command line** (`articlegenerator.dfy`, module `ArticleGenerator`).
  - The argument validators (positive integer, existing file, non-existing
    file) and the parsed namespace with its defaults.
  - The dispatch chain: GUI when every argument is at its default, otherwise an
    error when there is no output. Next comes the output-equals-input check,
    then `-f` before `-t` before `-T`.
  - `Run`, which performs the chosen action on a `Generator`.
- **Window logic** (`gui.dfy`, module `GuiLogic`).
  - Validation of the two spin boxes and the title field, and the submit path
    that opens a viewer on the decoded samples.
  - The Text/File option menu behind each input field (class `OptionField`).
  - The sample viewer with its index, its `<`/`>` buttons, its content pane and
    its notices (class `SampleViewer`).

Supporting modules:

- `errors.dfy` (module `Errors`) holds the Python exceptions that can surface,
  together with `Result` and `Option`.
- `text.dfy` (module `Text`) states exactly the Python string built-ins the
  core relies on: `find`/`in`, `split`, `rstrip`, `replace`, `readlines` and
  `readline` after universal-newline translation, `str(n)` and `int(text)`.

The outside world is made explicit:

- The GPT-2 engine (`gpt2.generate`) is a function parameter of type
  `Handler.Engine`. It maps the prompt, the sample count, the word limit and the
  parsed arguments to raw sample strings.
- The file system is a `map` from file name to decoded text.
- The console is a sequence of printed strings.
- The answers of the GUI's dialogs are method parameters.

## Model

| member | source | states |
|---|---|---|
| `Text.Split` | gpt2handler.py:91 | `s.split(sep)` yields at least one piece, two or more exactly when `sep` occurs in `s`, and `[s]` when it does not |
| `Text.SplitJoin` | gpt2handler.py:97 | joining the pieces of a split with the separator gives back the original text |
| `Text.SplitPiecesAreFree` | gpt2handler.py:97 | no piece of a split contains the separator |
| `Text.FirstTwoPieces` | gpt2handler.py:97 | the first two pieces of a split, joined by the separator, are the whole text or are followed by a further separator |
| `Text.FirstTwoCuts` | gpt2handler.py:97 | the first piece of a split ends at the first occurrence of the separator, and the second runs from there to the next occurrence or the end |
| `Text.FirstPieceEnd` | gpt2handler.py:97 | the first piece ends where the separator first occurs, and is the whole text when it does not occur |
| `Text.FindFirst` | gpt2handler.py:91 | `find` returns the first occurrence: no occurrence lies before it, and when it finds nothing there is none at all |
| `Text.FindIsFirst` | gpt2handler.py:91 | an occurrence with none before it is the one `find` returns |
| `Text.ContainsIsOccurrence` | gpt2handler.py:91 | `sep in s` holds exactly when `sep` occurs at some index of `s` |
| `Text.RStrip` | generator.py:48 | `rstrip()` keeps a prefix that does not end in whitespace, and only whitespace is cut off |
| `Text.RStripNewline` | generator.py:48-49 | a line's trailing newline makes no difference to `rstrip()` |
| `Text.ReplaceChar` | gpt2handler.py:71 | `replace` of one character changes exactly the occurrences of that character and keeps the length |
| `Text.UniversalNewlines` | generator.py:45 | reading in text mode leaves no `\r`, keeps text without `\r` unchanged, and empty text stays empty |
| `Text.UniversalNewlinesKeepsPlain` | generator.py:45 | text without `\r` is copied through and the translation carries on after it |
| `Text.UniversalNewlinesCRLF` | generator.py:45 | a `\r\n` pair is read as one `\n` |
| `Text.UniversalNewlinesLoneCR` | generator.py:45 | a `\r` not followed by `\n` is read as `\n` |
| `Text.Lines` | generator.py:46 | `readlines()` gives no line for an empty file; every line is non-empty, has no inner newline, and all but the last end in one |
| `Text.LinesConcat` | generator.py:46 | the lines put back together are the whole text |
| `Text.FirstLine` | generator.py:48-49 | the first line is everything up to and including the first newline; a second line exists exactly when text follows it |
| `Text.NatToString` | generator.py:101 | `str(i)` is a non-empty string of decimal digits whose value is `i`, with no leading zero unless it is `0` itself |
| `Text.ParseInt` | ArticleGenerator.py:7 | `int(text)` succeeds exactly on an optionally signed non-empty run of digits, with the digits' value, negated after `-`; anything else raises `ValueError(text)` |
| `Text.ParseIntOfNatToString` | ArticleGenerator.py:7 | `int(str(n)) == n` |
| `Text.ParseIntOfNegative` | ArticleGenerator.py:7 | `int("-" + str(n)) == -n` |
| `Text.DigitsValuePositive` | ArticleGenerator.py:7-8 | a run of digits has a positive value exactly when one of its digits is not zero |
| `Text.NatToStringInjective` | generator.py:101 | different indices give different decimal text |
| `Handler.Flatten` | gpt2handler.py:71 | the initial content keeps its length, every newline becomes a space and nothing else changes |
| `Handler.FlattenKeeps` | gpt2handler.py:71 | any character other than a newline or a space is in the flattened content exactly when it is in the original |
| `Handler.Prefix` | gpt2handler.py:73-75 | the prompt is the title header, the title, the content marker and the flattened content, in that order and with no other characters; the marker and the flattened content sit at their fixed positions |
| `Handler.TokenEndIsPattern` | gpt2handler.py:93 | the token scan matches at `i` up to `e` exactly when `s[i..e]` is a `<|…|>` token with no `|` or `>` inside |
| `Handler.StripTokensPlain` | gpt2handler.py:93 | text without `<` is left unchanged by the token removal |
| `Handler.StripTokensPlainPrefix` | gpt2handler.py:93 | token-free leading text is kept and the removal continues after it |
| `Handler.StripTokensLeadingToken` | gpt2handler.py:93 | a leading `<|…|>` token is removed entirely |
| `Handler.StripFromShift` | gpt2handler.py:93 | text before the scan position has no effect on what the removal produces from there on |
| `Handler.Collapse` | gpt2handler.py:95 | collapsing runs of spaces leaves no two adjacent spaces and keeps the first character |
| `Handler.CollapseRun` | gpt2handler.py:95 | a run of one or more spaces between non-space neighbours becomes exactly one space, and the text on either side is collapsed on its own |
| `Handler.CollapseLeadingRun` | gpt2handler.py:95 | a leading run of spaces becomes one space |
| `Handler.CollapseRemovesOnlySpaces` | gpt2handler.py:95 | collapsing removes spaces and nothing else |
| `Handler.CollapseFixedPoints` | gpt2handler.py:95 | collapsing leaves a text unchanged exactly when it has no two adjacent spaces |
| `Handler.SplitKeepsNoDoubleSpace` | gpt2handler.py:95-97 | splitting a collapsed text yields collapsed pieces |
| `Handler.Body` | gpt2handler.py:91-95 | the decoded body (after the title header, tokens removed, spaces collapsed) has no two adjacent spaces |
| `Handler.SampleToTuple` | gpt2handler.py:87-98 | decoding raises `IndexError` exactly when the title header is missing; otherwise it yields one or two collapsed pieces, and one piece (the whole body) exactly when the body lacks the content marker |
| `Handler.DecodeSplitsAtMarker` | gpt2handler.py:97 | when decoding gives two pieces, neither holds the content marker; the title ends where the marker first occurs in the body, and the content is what follows it up to the next marker, or all of it when there is none |
| `Handler.DecodeIgnoresAfterSecondHeader` | gpt2handler.py:91 | once a second title header occurs, anything appended to the sample does not change the decoded result |
| `Handler.PromptHeaderSplit` | gpt2handler.py:73-75 | a token-free prompt contains the title header, and the piece after it is the title, the marker and the flattened content |
| `Handler.PromptRestSplit` | gpt2handler.py:97 | that piece splits at the content marker into exactly the title and the flattened content |
| `Handler.PromptRestIsClean` | gpt2handler.py:93-95 | token removal and space collapsing leave a clean prompt body unchanged |
| `Handler.DecodePrefix` | gpt2handler.py:69-98 | decoding the prompt itself gives back `[title, flattened content]` when the title has no newline and neither part has tokens or double spaces |
| `Handler.ParseEntry` | gpt2handler.py:21-30 | an unknown key raises `KeyError`; of the known keys only the integer parser can fail in the model, and then with `ValueError` (the float parsers are not modelled) |
| `Handler.BooleanArguments` | gpt2handler.py:27-28 | `include_prefix` and `return_as_list` are true exactly when their text is `True` |
| `Handler.ParseAllMeaning` | gpt2handler.py:100-107 | parsing a table of distinct keys succeeds exactly when every entry parses; the result has exactly the table's keys, each with its parsed value; a failure is the error of the first failing entry |
| `Handler.ParseAllSucceeds` | gpt2handler.py:103-105 | the table parses exactly when every entry parses |
| `Handler.ParseAllFirstError` | gpt2handler.py:103-105 | a failure carries the error of the first entry that fails, and every entry before it parses |
| `Handler.ParseAllKeys` | gpt2handler.py:103-105 | the parsed dictionary has exactly the keys of the table |
| `Handler.ParseAllValues` | gpt2handler.py:103-105 | with distinct keys, each key maps to its own entry's parsed value |
| `Handler.ParseAllStops` | gpt2handler.py:104-105 | once a prefix of the table fails, later entries make no difference |
| `Handler.ParseGenerateArguments` | gpt2handler.py:100-107 | the loop over the table computes exactly the table's parse |
| `Handler.DefaultEntries` | gpt2handler.py:12-30 | each default entry parses to its typed value (`top_k` to the integer 0, the flags to true, the names and the truncate marker as text) |
| `Handler.DefaultConfigParses` | gpt2handler.py:12-19 | the default configuration parses without error into the six typed generation arguments |
| `Handler.GenerateRaw` | gpt2handler.py:69-80 | generation asks the engine for the given counts with the built prompt and the parsed default arguments |
| `Handler.DecodeAllMeaning` | gpt2handler.py:84-85 | decoding every sample succeeds exactly when each sample decodes, and the i-th result is the i-th sample's decoding |
| `Handler.DecodeAllSucceeds` | gpt2handler.py:84-85 | decoding all samples raises exactly when some sample lacks the title header |
| `Handler.DecodeAllValues` | gpt2handler.py:84-85 | each decoded entry is its own sample's decoding |
| `Handler.GenerateAsTuple` | gpt2handler.py:82-85 | the tuples are the decoding of the engine's samples for the built prompt |
| `Orchestration.SingleFileInput` | generator.py:45-49 | a missing file raises `FileNotFoundError`; an empty file raises `IndexError`; otherwise title and content are right-stripped lines without newlines |
| `Orchestration.SingleFileReadsFirstTwoLines` | generator.py:45-49 | a file `a\nb…` yields the title `rstrip(a)` and the content `rstrip(b)`; later lines are ignored |
| `Orchestration.SecondLine` | generator.py:49 | the second line, right-stripped, is the text up to the next newline, right-stripped |
| `Orchestration.TwoLineSeedFile` | generator.py:45-49 | the seed file `My Title\nSome seed` yields `("My Title", "Some seed")` |
| `Orchestration.FirstLineOf` | generator.py:63 | `readline().rstrip()` has no newline and does not end in whitespace |
| `Orchestration.FirstLineOfIs` | generator.py:62-67 | the first line of `a` followed by a newline or nothing is `rstrip(a)` |
| `Orchestration.FilesInput` | generator.py:62-69 | a missing title file or a missing named content file raises `FileNotFoundError`; no content file means empty content; with both files present the result is the first line of each, right-stripped |
| `Orchestration.FormatAll` | generator.py:84 | formatting succeeds exactly when every pair has two parts (else `IndexError`), and sample i is `title + "\n" + content` of pair i |
| `Orchestration.SamplesMeaning` | generator.py:80-84 | the formatted samples exist exactly when every raw sample has the title header and its body has the content marker; then sample i is decoded title, newline, decoded content of raw sample i |
| `Orchestration.AbsentSeedIsEmptySeed` | generator.py:81-82 | no initial content and empty initial content send the same prompt to the engine |
| `Orchestration.FormattedSampleReadsBack` | generator.py:84 | a written one-line-title sample read back as a seed file gives its right-stripped title and content |
| `Orchestration.SplitExt` | generator.py:99 | `splitext` splits the path into stem and extension that concatenate back, the extension is empty or one dot with no dot or slash after it |
| `Orchestration.ExtensionAfterLastDot` | generator.py:99 | the text from the last dot of the last path component is a well-formed extension |
| `Orchestration.SplitExtAtLastDot` | generator.py:99 | a stem with a non-dot character in its last component followed by a plain extension splits back into exactly those two |
| `Orchestration.NoExtension` | generator.py:99 | a last path component made of leading dots and then no dot at all has no extension, so the whole path is the stem |
| `Orchestration.LeadingDotIsNoExtension` | generator.py:99-101 | `.bashrc` has no extension, so its first numbered name is `.bashrc0` |
| `Orchestration.LastExtensionOnly` | generator.py:99-101 | only the last extension is split off: `archive.tar.gz` numbers as `archive.tar0.gz` |
| `Orchestration.SampleTxtSplits` | generator.py:99 | `sample.txt` splits into `sample` and `.txt` |
| `Orchestration.IndexedNameInjective` | generator.py:101 | equal numbered names have equal indices |
| `Orchestration.IndexedNamesDiffer` | generator.py:101 | different indices give different file names, so no sample overwrites another |
| `Orchestration.IndexedNameIsNew` | generator.py:101 | a numbered name is never the given output path itself |
| `Orchestration.NumberedSampleNames` | generator.py:99-101 | `sample.txt` numbers as `sample` + `str(i)` + `.txt` |
| `Orchestration.FirstNumberedSampleName` | generator.py:99-101 | the first numbered name of `sample.txt` is `sample0.txt` |
| `Orchestration.NameList` | generator.py:100-101 | the loop's names are, in order, the numbered names 0 to n-1 |
| `Orchestration.NameListDistinct` | generator.py:100-101 | those names are pairwise distinct |
| `Orchestration.FanoutValues` | generator.py:100-102 | after writing k samples to distinct names, name i holds sample i |
| `Orchestration.FanoutKeys` | generator.py:100-102 | the files after the loop are the old files plus the names written |
| `Orchestration.FanoutOthers` | generator.py:100-102 | every file not written keeps its contents |
| `Orchestration.FanoutContents` | generator.py:99-102 | after k rounds of the numbered loop, file i holds sample i, the file set grows by exactly the first k numbered names, and every other file is unchanged |
| `Orchestration.OutputFilesMeaning` | generator.py:94-102 | one sample goes to the path itself; otherwise every sample i goes to its numbered name and the path itself is left as it was |
| `Orchestration.Generator.constructor` | generator.py:17-24 | a new generator sees the given files and an empty console |
| `Orchestration.Generator.WriteSampleToFile` | generator.py:104-107 | the named file is created or overwritten with the sample; nothing else changes |
| `Orchestration.Generator.WriteSamplesToFile` | generator.py:94-102 | the files become the fan-out of the samples over the path; the console is unchanged |
| `Orchestration.Generator.PrintSamples` | generator.py:86-88 | the samples are appended to the console in order; the files are unchanged |
| `Orchestration.Generator.Generate` | generator.py:73-92 | returns the formatted samples or the decoding error; prints them when asked and writes them when an output name is given, and only on success |
| `Orchestration.Generator.GenerateFromSingleFile` | generator.py:37-51 | reads the seed from one file and generates from it; a read error leaves files and console untouched |
| `Orchestration.Generator.GenerateFromFiles` | generator.py:53-71 | reads the title file and optional content file and generates from them; a read error leaves files and console untouched |
| `ArticleGenerator.PositiveIntType` | ArticleGenerator.py:5-10 | accepts exactly the integer texts with no `-` and a non-zero digit, returning `int(value)`, which is positive; a non-integer text raises `ValueError`, any other integer `ArgumentTypeError("<value> is not a positive int.")` |
| `ArticleGenerator.PositiveIntText` | ArticleGenerator.py:5-10 | an integer text has a positive value exactly when it has no `-` and a non-zero digit |
| `ArticleGenerator.PositiveIntTypeOfDecimal` | ArticleGenerator.py:5-10 | the decimal text of n is accepted exactly when n > 0, with value n |
| `ArticleGenerator.ExistingFilenameType` | ArticleGenerator.py:13-17 | accepts a name exactly when that file exists, returning the name unchanged |
| `ArticleGenerator.NotExistingFilenameType` | ArticleGenerator.py:20-24 | accepts a name exactly when no such file exists, returning the name unchanged |
| `ArticleGenerator.FileValidatorsExclusive` | ArticleGenerator.py:13-24 | every name passes exactly one of the two file validators |
| `ArticleGenerator.FileOption` | ArticleGenerator.py:46-66 | an absent file option passes; a given one passes exactly when its existence matches what the option demands |
| `ArticleGenerator.CountOption` | ArticleGenerator.py:55-59 | an absent count takes its default; a given one goes through the positive-integer validator |
| `ArticleGenerator.ParseArguments` | ArticleGenerator.py:45-73 | parsing succeeds exactly when every given option passes its validator; a given count is the positive-integer validator's value, an absent one defaults to 1 or 1023; the other options are passed through |
| `ArticleGenerator.Dispatch` | ArticleGenerator.py:83-101 | the GUI opens exactly when all arguments are defaults; otherwise no output is an `ArgumentError`, and generation happens only with an output set; the sample count, print flag and output name are forwarded, with the content file name for `-t` and the content text for `-T` |
| `ArticleGenerator.DispatchAsWritten` | ArticleGenerator.py:91-94 | the code as written fails in exactly the same cases as `Dispatch`, always with `TypeError`, and otherwise acts as `Dispatch` |
| `ArticleGenerator.NoOutputRaisesTypeError` | ArticleGenerator.py:91-92 | `-n 2` with no output: the intended outcome is the no-output `ArgumentError`, the code as written raises `TypeError` |
| `ArticleGenerator.NoArgumentsLaunchGui` | ArticleGenerator.py:89-90 | running without arguments opens the GUI |
| `ArticleGenerator.ExplicitDefaultCountLaunchesGui` | ArticleGenerator.py:27-31 | `-n 1` alone still counts as default arguments and opens the GUI |
| `ArticleGenerator.SameFileRefused` | ArticleGenerator.py:93-94 | an output name equal to an input name is refused with the same-file error |
| `ArticleGenerator.SameFileCheckUnreachable` | ArticleGenerator.py:93-94 | after the file validators pass, the same-file error can never be raised |
| `ArticleGenerator.TitleSourcePrecedence` | ArticleGenerator.py:95-101 | `-f` wins over `-t`, which wins over `-T`; with none of them nothing is generated |
| `ArticleGenerator.ContentOnlyWithTitle` | ArticleGenerator.py:100-101 | `-C` changes nothing unless the title comes from `-T` |
| `ArticleGenerator.ContentFileOnlyWithTitleFile` | ArticleGenerator.py:97-99 | `-c` changes nothing unless the title comes from `-t` |
| `ArticleGenerator.NumWordsIgnored` | ArticleGenerator.py:95-101 | `-w` never changes what is done: the word limit is not passed on |
| `ArticleGenerator.UsageExample` | ArticleGenerator.py:41-42 | the usage text's long form with the output option spelled as defined (`--filename example.txt --output_filename sample.txt --num_samples 3`) generates three samples from `example.txt` into `sample.txt`; as printed, with `--output-filename`, argparse rejects the line |
| `ArticleGenerator.UsageExampleNames` | ArticleGenerator.py:41-43 | those three samples are written to `sample0.txt`, `sample1.txt` and `sample2.txt` |
| `ArticleGenerator.NumberedOutputCanOverwriteInput` | ArticleGenerator.py:93-94 | `-f in0.txt -o in.txt -n 2` passes every check and its first sample overwrites the input `in0.txt` |
| `ArticleGenerator.Run` | ArticleGenerator.py:83-101 | performs the intended dispatch (`Dispatch`, with `ArgumentError` for a missing output where the script as written raises `TypeError`, see `DispatchAsWritten`); only generating actions touch files or console, exactly as the generator methods do |
| `GuiLogic.TkGet` | gui.py:138 | reading a Tk text field gives its contents followed by one newline |
| `GuiLogic.Validate` | gui.py:118-136 | samples are checked first, then words, then the title; an unreadable spin box raises; the input is valid exactly when samples > 0, 1 <= words <= 1023 and the stripped title is not empty |
| `GuiLogic.BlankTitleRejected` | gui.py:133-136 | an all-whitespace title is refused with the blank-title message |
| `GuiLogic.ViewerPages` | gui.py:188-189 | the viewer's title is the first sample's title and its pages are every sample's content; an empty or one-part sample list raises `IndexError` |
| `GuiLogic.ContentParts` | gui.py:189 | collecting the contents succeeds exactly when every sample has two parts, giving content i for sample i |
| `GuiLogic.Submit` | gui.py:118-143 | invalid input shows its message and nothing is generated; an unreadable spin box raises `TclError`; valid input opens the viewer exactly when the engine returns samples and each has both markers, and otherwise raises `IndexError`; an opened viewer shows the first sample's title and one page per raw sample, each its decoded content |
| `GuiLogic.ViewerOfDecoded` | gui.py:140-143 | the viewer built from decoded samples shows exactly the decoded contents of the raw samples |
| `GuiLogic.ViewerOpensOn` | gui.py:140-143 | raw samples that exist and each decode into two parts always give the viewer its pages |
| `GuiLogic.RejectionIgnoresEngine` | gui.py:118-136 | refused input never reaches the engine: the outcome does not depend on it |
| `GuiLogic.PromptEndsInSpace` | gui.py:138-141 | the prompt from the GUI always ends in a space, the flattened trailing newline of the content field |
| `GuiLogic.OptionField.constructor` | gui.py:71-77 | a field starts on the Text option, empty and editable |
| `GuiLogic.OptionField.Type` | gui.py:169-172 | typing changes the field only while it is editable |
| `GuiLogic.OptionField.OnOptionMenuUpdate` | gui.py:151-175 | choosing Text unlocks the field; choosing File asks first when the field is not empty; refusing or cancelling returns to Text; a picked file's stripped first line replaces the contents and locks the field; a missing file raises |
| `GuiLogic.PyIndex` | gui.py:254 | a list index is valid exactly from `-len` to `len - 1`, and a negative one counts from the end |
| `GuiLogic.SampleViewer.constructor` | gui.py:184-212 | the viewer starts on page 0 with `<` disabled and `>` enabled exactly when there is a second page |
| `GuiLogic.SampleViewer.UpdateSample` | gui.py:251-255 | the pane shows the page at the index and is locked; an out-of-range index raises `IndexError` and leaves the pane cleared and editable |
| `GuiLogic.SampleViewer.UpdateButtons` | gui.py:257-265 | `<` is disabled exactly on the first page and `>` exactly on the last |
| `GuiLogic.SampleViewer.PreviousSample` | gui.py:235-241 | the index always goes down by one, with a notice when it was on the first page; the pane and buttons then follow the new index |
| `GuiLogic.SampleViewer.NextSample` | gui.py:243-249 | the index always goes up by one, with a notice when it was on the last page, where the redraw raises `IndexError` |
| `GuiLogic.SampleViewer.ClickLeft` | gui.py:230 | clicking `<` moves back one page, except on the first page where the disabled button does nothing |
| `GuiLogic.SampleViewer.ClickRight` | gui.py:232 | clicking `>` moves on one page, except on the last page where the disabled button does nothing |
| `GuiLogic.WalkForward` | gui.py:243-249 | clicking `>` from the first page shows every page in order and ends on the last page with `>` disabled and no notice |

## Left out

- The GPT-2 engine itself: TensorFlow session, model download and checkpoint
  loading (`gpt2handler.py:44-67`). Generation is the `Engine` parameter, and
  the model says nothing about what text it produces.
- The singleton `get_instance`/`__init__` guards of `Gpt2Handler`, `Generator`
  and `Gui`. Each front end uses one instance, which the model passes
  explicitly.
- `Generator.launch_gui` and `Gui.start`/`mainloop`. Dispatch records the
  `LaunchGui` action and stops there.
- The `float` parsers for `temperature` and `top_p`. No default entry uses
  them, so their text is kept unparsed and never fails to parse in the
  model, where Python's `float()` raises `ValueError` on non-numeric text.
- `Text.ParseInt`: does not accept the surrounding whitespace, underscores or
  non-ASCII digits that Python's `int()` also accepts.
- `Text.UniversalNewlines`: its own contract only says that no `\r` is left
  and that text without `\r` is unchanged. The translation of each `\r\n`
  and lone `\r` is stated by `Text.UniversalNewlinesCRLF` and
  `Text.UniversalNewlinesLoneCR`.
- `Handler.Collapse`: its own contract gives the shape of the result; the
  rule that each run of spaces becomes one space is `Handler.CollapseRun`.
- `Orchestration.SplitExt`: its own contract says what an extension looks
  like, not where the cut falls; that is `Orchestration.SplitExtAtLastDot`
  (a real extension is cut off) and `Orchestration.NoExtension` (a leading-dot
  name keeps none).
- The engine is a fixed function of the prompt and the counts. `gpt2.generate`
  samples at random, so two runs on the same prompt can differ; the model
  only says that the same prompt and counts reach the engine.
- `Handler.DecodeAll`: its own contract only gives the length and the error
  kind; the per-sample meaning is `Handler.DecodeAllMeaning`.
- `Orchestration.Samples`: its own contract only gives the error kind; the
  full meaning is `Orchestration.SamplesMeaning`.
- Tk widget layout, fonts, padding, window titles and `grab_set`. Message boxes
  become the `notices` log or a `Rejected` outcome. The yes/no answer and the
  chosen file name become parameters.
- A Tk spin box's value is modelled as `Option<int>`. `None` is a text that is
  not a number, for which `IntVar.get` raises `TclError`.
- `GuiLogic.SampleViewer.constructor`: requires at least one page. Building
  from an empty sample list is the `IndexError` of `GuiLogic.ViewerPages`.
- `create_text_frame` and `create_buttons` only create widgets. Their effect
  on state (buttons, locked pane) is part of the constructor's contract.
- File encodings, `errors='surrogateescape'`, write failures and the
  operating system's line separator. Files hold decoded text, and writing
  stores the text as given.
- `ArticleGenerator.Run`: follows the intended `Dispatch`; the `TypeError`
  the script raises instead of its two `ArgumentError`s is stated only by
  `ArticleGenerator.DispatchAsWritten`.
- `ArticleGenerator.UsageExample`: states the example with the output option
  spelled `--output_filename`. Unknown options such as the printed
  `--output-filename` cannot be written as `RawArgs`, so their rejection is
  not modelled.
- Argument-parser usage text, help text, option order and the process exit
  on a parse error. `ParseArguments` returns the first failing validator's
  error as a `Result`.
- `create_parser`/`parse_arguments` reading `sys.argv`. The raw options are
  the `RawArgs` value.
- Logging setup and the TensorFlow environment variable (`gpt2handler.py:1-7`).

## Quirks of the program

- The usage text (`ArticleGenerator.py:40-43`) does not match the options.
  Its short form passes `-n 5` but the explanation speaks of three articles;
  its long form spells `--output-filename`, while the option is defined as
  `--output_filename` (`ArticleGenerator.py:49`), so argparse stops that
  line with an "unrecognized arguments" error and nothing is generated. It also promises
  `sample1.txt` to `sample3.txt`, while the code numbers from 0
  (`UsageExampleNames`).
- `previous_sample` and `next_sample` show the notice at the ends and still
  move the index. Past the end the redraw raises `IndexError`; before the
  start Python's index -1 shows the last page (`PreviousSample`,
  `NextSample`). Only the Tk button being disabled keeps a click from getting
  there (`ClickLeft`, `ClickRight`).
- `-w` is validated but never passed on (`NumWordsIgnored`).
- With an output set but no title source, nothing happens and nothing is
  reported (`TitleSourcePrecedence`).
- Output names are checked against the inputs before numbering, so a numbered
  output file can overwrite an input (`NumberedOutputCanOverwriteInput`). The
  same-file check itself can never fire, because the validators already
  demand a new output name and existing inputs (`SameFileCheckUnreachable`).
- The GUI does not strip the content field. Its trailing newline reaches the
  prompt as a space (`PromptEndsInSpace`).
- A non-numeric spin box raises `TclError` out of `submit`. That is not a
  `ValueError`, so the message box is never shown (`Validate`).

## Findings

| source | as written | input that shows it | evidently intended | confidence | as-written member | corrected member |
|---|---|---|---|---|---|---|
| ArticleGenerator.py:92,94 | `argparse.ArgumentError(message)` is called with one argument, but the constructor takes the argument and the message, so `TypeError` is raised | `-n 2` with neither `-o` nor `-p` | an `ArgumentError` carrying the message | high, not executed | `ArticleGenerator.DispatchAsWritten`, `ArticleGenerator.NoOutputRaisesTypeError` | `ArticleGenerator.Dispatch` |
