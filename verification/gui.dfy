/** The logic of the desktop interface without its widgets: the checks made
    when Generate is pressed, the Text/File switch of the two input fields,
    and the sample viewer's paging. */
module GuiLogic {
  import opened Errors
  import opened Text
  import opened Handler
  import opened Orchestration

  // ---------------------------------------------------------------------
  // Submitting the form
  // ---------------------------------------------------------------------

  const InvalidValue: string := "Invalid Value"
  const InvalidTitle: string := "Invalid Title"
  const SamplesMessage: string := "Number of samples must be a positive number."
  const WordsMessage: string := "Words per sample must be a whole number between 1 and 1023."
  const TitleMessage: string := "Title must not be blank."

  /** The largest number of words per sample the form accepts. */
  const MaxWords: int := 1023

  /** `text.get('1.0', END)`: a Tk text field's contents come back with a
      newline after them. */
  function TkGet(field: string): (r: string)
    ensures |r| == |field| + 1 && r[..|field|] == field && r[|field|] == '\n'
  {
    field + "\n"
  }

  /** The outcome of the form's checks. */
  datatype Validation =
    | Unreadable                               // a number field's text is not a number
    | Invalid(heading: string, message: string) // an error notice is shown
    | Valid(numSamples: int, numWords: int, title: string)

  /** The checks of `submit`, in their order: the number of samples, then the
      number of words, then the title. A number field is given as the value
      of its Tk variable, `None` when its text is not a number. */
  function Validate(samplesValue: Option<int>, wordsValue: Option<int>, titleField: string): (r: Validation)
    ensures samplesValue.None? ==> r == Unreadable
    ensures samplesValue.Some? && samplesValue.value <= 0 ==> r == Invalid(InvalidValue, SamplesMessage)
    ensures samplesValue.Some? && samplesValue.value > 0 && wordsValue.None? ==> r == Unreadable
    ensures (samplesValue.Some? && samplesValue.value > 0 && wordsValue.Some?
             && !(1 <= wordsValue.value <= MaxWords)) ==> r == Invalid(InvalidValue, WordsMessage)
    ensures r.Valid? <==> (samplesValue.Some? && samplesValue.value > 0 && wordsValue.Some?
                           && 1 <= wordsValue.value <= MaxWords && RStrip(titleField) != "")
    ensures r.Valid? ==> r.numSamples == samplesValue.value && r.numWords == wordsValue.value
    ensures r.Valid? ==> r.title == RStrip(titleField) && r.title != "" && !IsSpace(r.title[|r.title| - 1])
  {
    RStripNewline(titleField);
    if samplesValue.None? then Unreadable
    else if !(samplesValue.value > 0) then Invalid(InvalidValue, SamplesMessage)
    else if wordsValue.None? then Unreadable
    else if !(wordsValue.value > 0 && wordsValue.value < MaxWords + 1) then Invalid(InvalidValue, WordsMessage)
    else
      var title := RStrip(TkGet(titleField));
      if |title| == 0 then Invalid(InvalidTitle, TitleMessage)
      else Valid(samplesValue.value, wordsValue.value, title)
  }

  /** A blank title is the only reason left once both numbers are fine. */
  lemma BlankTitleRejected(numSamples: int, numWords: int, titleField: string)
    requires numSamples > 0 && 1 <= numWords <= MaxWords
    requires forall i :: 0 <= i < |titleField| ==> IsSpace(titleField[i])
    ensures Validate(Some(numSamples), Some(numWords), titleField) == Invalid(InvalidTitle, TitleMessage)
  {
    RStripNewline(titleField);
  }

  /** What the viewer is opened with (`SampleViewer.__init__`): the first
      sample's title as the window title and every sample's content part as
      a page, in order. No sample, or a sample without a content part,
      raises `IndexError`. */
  function ViewerPages(samples: seq<seq<string>>): (r: Result<(string, seq<string>)>)
    ensures r.Ok? <==> |samples| > 0 && forall i :: 0 <= i < |samples| ==> |samples[i]| >= 2
    ensures r.Err? ==> r.error == IndexError
    ensures r.Ok? ==> r.value.0 == samples[0][0]
    ensures r.Ok? ==> |r.value.1| == |samples| && forall i :: 0 <= i < |samples| ==> r.value.1[i] == samples[i][1]
  {
    if |samples| == 0 || |samples[0]| == 0 then Err(IndexError)
    else
      match ContentParts(samples)
      case Err(e) => Err(e)
      case Ok(pages) => Ok((samples[0][0], pages))
  }

  /** `[sample[1] for sample in samples]`. */
  function ContentParts(samples: seq<seq<string>>): (r: Result<seq<string>>)
    ensures r.Ok? <==> forall i :: 0 <= i < |samples| ==> |samples[i]| >= 2
    ensures r.Err? ==> r.error == IndexError
    ensures r.Ok? ==> |r.value| == |samples| && forall i :: 0 <= i < |samples| ==> r.value[i] == samples[i][1]
    decreases |samples|
  {
    if |samples| == 0 then Ok([])
    else if |samples[0]| < 2 then Err(IndexError)
    else
      match ContentParts(samples[1..])
      case Err(e) => Err(e)
      case Ok(rest) => Ok([samples[0][1]] + rest)
  }

  /** What pressing Generate leads to. */
  datatype SubmitOutcome =
    | Rejected(heading: string, message: string) // an error notice; nothing generated
    | Raised(error: Exception)                   // an exception escapes the handler
    | Opened(title: string, pages: seq<string>)  // a viewer window opens

  /** `submit`: validate, generate with the content field as it is (not
      stripped), and open the viewer on the result. */
  function Submit(engine: Engine, samplesValue: Option<int>, wordsValue: Option<int>, titleField: string,
                  contentField: string): (r: SubmitOutcome)
    ensures Validate(samplesValue, wordsValue, titleField).Invalid? ==>
      r == Rejected(Validate(samplesValue, wordsValue, titleField).heading,
                    Validate(samplesValue, wordsValue, titleField).message)
    ensures Validate(samplesValue, wordsValue, titleField).Unreadable? ==> r == Raised(TclError)
    ensures r.Opened? ==> Validate(samplesValue, wordsValue, titleField).Valid?
    ensures r.Opened? ==> var v := Validate(samplesValue, wordsValue, titleField);
      var raw := engine(Prefix(v.title, TkGet(contentField)), v.numSamples, v.numWords, DefaultArgs);
      |r.pages| == |raw| > 0
      && (forall i :: 0 <= i < |raw| ==>
            SampleToTuple(raw[i]).Ok? && |SampleToTuple(raw[i]).value| == 2
            && r.pages[i] == SampleToTuple(raw[i]).value[1])
      && r.title == SampleToTuple(raw[0]).value[0]
    ensures var v := Validate(samplesValue, wordsValue, titleField); v.Valid? ==>
      var raw := engine(Prefix(v.title, TkGet(contentField)), v.numSamples, v.numWords, DefaultArgs);
      (r.Opened? <==> |raw| > 0 && forall i :: 0 <= i < |raw| ==>
                        SampleToTuple(raw[i]).Ok? && |SampleToTuple(raw[i]).value| == 2)
    ensures Validate(samplesValue, wordsValue, titleField).Valid? && !r.Opened? ==> r == Raised(IndexError)
  {
    match Validate(samplesValue, wordsValue, titleField)
    case Unreadable => Raised(TclError)
    case Invalid(heading, message) => Rejected(heading, message)
    case Valid(numSamples, numWords, title) =>
      ViewerOpensOn(engine(Prefix(title, TkGet(contentField)), numSamples, numWords, DefaultArgs));
      match GenerateAsTuple(engine, title, TkGet(contentField), numSamples, numWords)
      case Err(e) => Raised(e)
      case Ok(samples) =>
        match ViewerPages(samples)
        case Err(e) => Raised(e)
        case Ok(viewer) =>
          ViewerOfDecoded(engine(Prefix(title, TkGet(contentField)), numSamples, numWords, DefaultArgs), samples);
          Opened(viewer.0, viewer.1)
  }

  /** Raw samples that are there and each hold a content marker decode
      into pages the viewer accepts. */
  lemma ViewerOpensOn(raw: seq<string>)
    ensures (|raw| > 0 && forall i :: 0 <= i < |raw| ==>
               SampleToTuple(raw[i]).Ok? && |SampleToTuple(raw[i]).value| == 2)
      ==> DecodeAll(raw).Ok? && ViewerPages(DecodeAll(raw).value).Ok?
  {
    DecodeAllMeaning(raw);
  }

  /** The viewer opened on decoded raw samples: one page per raw sample, the
      content part of each, and the first sample's title. */
  lemma ViewerOfDecoded(raw: seq<string>, samples: seq<seq<string>>)
    requires DecodeAll(raw) == Ok(samples) && ViewerPages(samples).Ok?
    ensures var viewer := ViewerPages(samples).value;
      |viewer.1| == |raw| > 0 && viewer.0 == SampleToTuple(raw[0]).value[0]
      && forall i :: 0 <= i < |raw| ==>
           SampleToTuple(raw[i]).Ok? && |SampleToTuple(raw[i]).value| == 2
           && viewer.1[i] == SampleToTuple(raw[i]).value[1]
  {
    DecodeAllMeaning(raw);
    forall i | 0 <= i < |raw|
      ensures |SampleToTuple(raw[i]).value| == 2
    {
      assert SampleToTuple(raw[i]).value == samples[i];
    }
  }

  /** A rejected form never reaches the engine: the outcome is the same
      whatever the engine would have produced. */
  lemma RejectionIgnoresEngine(engine1: Engine, engine2: Engine, samplesValue: Option<int>,
                               wordsValue: Option<int>, titleField: string, contentField: string)
    requires !Validate(samplesValue, wordsValue, titleField).Valid?
    ensures Submit(engine1, samplesValue, wordsValue, titleField, contentField)
         == Submit(engine2, samplesValue, wordsValue, titleField, contentField)
    ensures !Submit(engine1, samplesValue, wordsValue, titleField, contentField).Opened?
  {
  }

  /** The content field goes to the engine unstripped, with the newline Tk
      adds: flattened, that newline becomes a space at the end of the
      prompt. */
  lemma PromptEndsInSpace(title: string, contentField: string)
    ensures var p := Prefix(title, TkGet(contentField)); |p| > 0 && p[|p| - 1] == ' '
  {
    var p := Prefix(title, TkGet(contentField));
    var flat := Flatten(TkGet(contentField));
    assert p == TitleHeader + title + ContentMarker + flat;
    assert p[|p| - 1] == flat[|contentField|];
  }

  // ---------------------------------------------------------------------
  // The Text/File switch of an input field
  // ---------------------------------------------------------------------

  const TextOption: string := "Text"
  const FileOption: string := "File"

  /** An input field with its Text/File option menu. */
  class OptionField {
    var option: string   // the option menu's value
    var text: string     // the field's contents (without Tk's trailing newline)
    var editable: bool   // the field's state: 'normal' or 'disabled'

    /** A field is locked only in file mode, holding a single stripped line. */
    predicate Valid()
      reads this
    {
      !editable ==> option != TextOption && '\n' !in text
    }

    constructor ()
      ensures Valid() && option == TextOption && text == "" && editable
    {
      option := TextOption;
      text := "";
      editable := true;
    }

    /** The user types into the field: only an editable field changes. */
    method Type(newText: string)
      modifies this
      requires Valid()
      ensures Valid()
      ensures text == (if old(editable) then newText else old(text))
      ensures option == old(option) && editable == old(editable)
    {
      if editable {
        text := newText;
      }
    }

    /** `on_option_menu_update`, after the menu has set its value. The
        user's answer to the overwrite question and the file picked in the
        dialog (`""` for Cancel) are inputs. `asked` tells whether the
        overwrite question was shown; it is shown only in file mode and only
        when the field is not empty. */
    method OnOptionMenuUpdate(value: string, answer: bool, chosen: string, files: FileSystem)
      returns (asked: bool, r: Result<string>)
      modifies this
      requires Valid()
      ensures Valid()
      ensures asked <==> value != TextOption && old(text) != ""
      // Text: the field becomes editable and keeps its contents.
      ensures value == TextOption ==> option == TextOption && editable && text == old(text) && r.Ok?
      // No to the overwrite question, or Cancel in the dialog: back to Text,
      // editable, contents kept.
      ensures value != TextOption && ((asked && !answer) || chosen == "")
        ==> option == TextOption && editable && text == old(text) && r.Ok?
      // A file was picked: its first line, stripped, replaces the contents
      // and the field is locked.
      ensures value != TextOption && (!asked || answer) && chosen != "" && chosen in files
        ==> option == value && !editable && text == FirstLineOf(files[chosen]) && r == Ok(text)
      // A picked name that is not a file raises; nothing else changes.
      ensures value != TextOption && (!asked || answer) && chosen != "" && chosen !in files
        ==> r == Err(FileNotFoundError(chosen)) && option == value && text == old(text)
            && editable == old(editable)
    {
      option := value;
      asked := false;
      if value == TextOption {
        editable := true;
        return false, Ok(text);
      }
      if |TkGet(text)| > 1 {
        asked := true;
        if !answer {
          option := TextOption;
          editable := true;
          return asked, Ok(text);
        }
      }
      if chosen != "" {
        if chosen !in files {
          if !editable {
            // the old locked state had a non-Text option; so does the new one
            assert option != TextOption;
          }
          return asked, Err(FileNotFoundError(chosen));
        }
        var line := FirstLineOf(files[chosen]);
        editable := true;
        text := line;
        editable := false;
        r := Ok(text);
      } else {
        option := TextOption;
        editable := true;
        r := Ok(text);
      }
    }
  }

  // ---------------------------------------------------------------------
  // The sample viewer
  // ---------------------------------------------------------------------

  const FirstReached: string := "First sample reached. No previous sample exists."
  const LastReached: string := "Last sample reached. No next sample exists."

  /** Python's `pages[i]` position: negative indices count from the end. */
  function PyIndex(length: nat, i: int): (r: Option<nat>)
    ensures r.Some? <==> -(length as int) <= i < length
    ensures r.Some? ==> r.value < length && (r.value == i || r.value == length + i)
  {
    if 0 <= i < length then Some(i)
    else if -(length as int) <= i < 0 then Some(length + i)
    else None
  }

  /** The viewer window: a fixed title and pages, the current index, the two
      navigation buttons, the page pane and the error notices shown so far. */
  class SampleViewer {
    const title: string
    const pages: seq<string>
    var index: int
    var leftEnabled: bool
    var rightEnabled: bool
    var shown: string
    var paneEditable: bool
    var notices: seq<string>

    /** The state a user can reach by clicking: a page in range is shown,
        and each button is enabled exactly when there is a page on its side. */
    predicate Valid()
      reads this
    {
      0 <= index < |pages| && shown == pages[index] && !paneEditable
      && leftEnabled == (index != 0) && rightEnabled == (index != |pages| - 1)
    }

    /** `__init__` on the pages `ViewerPages` produced (at least one). */
    constructor (title: string, pages: seq<string>)
      requires |pages| > 0
      ensures Valid() && index == 0 && notices == []
      ensures this.title == title && this.pages == pages
      ensures !leftEnabled && (rightEnabled <==> |pages| > 1)
    {
      this.title := title;
      this.pages := pages;
      index := 0;
      notices := [];
      new;
      UpdateButtons();
      var _ := UpdateSample();
    }

    /** `update_sample`: show the page at the current index. An index out
        of range raises after the pane was cleared and left editable. */
    method UpdateSample() returns (r: Result<()>)
      modifies this
      ensures r.Ok? <==> PyIndex(|pages|, index).Some?
      ensures r.Ok? ==> shown == pages[PyIndex(|pages|, index).value] && !paneEditable
      ensures r.Err? ==> r.error == IndexError && shown == "" && paneEditable
      ensures index == old(index) && leftEnabled == old(leftEnabled) && rightEnabled == old(rightEnabled)
      ensures notices == old(notices)
    {
      paneEditable := true;
      shown := "";
      var k := PyIndex(|pages|, index);
      if k.None? {
        return Err(IndexError);
      }
      shown := pages[k.value];
      paneEditable := false;
      r := Ok(());
    }

    /** `update_buttons`: a button is disabled exactly at its end. */
    method UpdateButtons()
      modifies this
      ensures leftEnabled == (index != 0) && rightEnabled == (index != |pages| - 1)
      ensures index == old(index) && shown == old(shown) && paneEditable == old(paneEditable)
      ensures notices == old(notices)
    {
      leftEnabled := true;
      rightEnabled := true;
      if index == 0 {
        leftEnabled := false;
      }
      if index == |pages| - 1 {
        rightEnabled := false;
      }
    }

    /** `previous_sample`: at the first page a notice is shown, yet the index
        still moves (to -1, which shows the last page). */
    method PreviousSample() returns (r: Result<()>)
      modifies this
      ensures index == old(index) - 1
      ensures notices == old(notices) + (if old(index) == 0 then [FirstReached] else [])
      ensures r.Ok? <==> PyIndex(|pages|, index).Some?
      ensures r.Ok? ==> (shown == pages[PyIndex(|pages|, index).value] && !paneEditable
                         && leftEnabled == (index != 0) && rightEnabled == (index != |pages| - 1))
      ensures r.Err? ==> (shown == "" && paneEditable
                          && leftEnabled == old(leftEnabled) && rightEnabled == old(rightEnabled))
      ensures old(Valid()) && old(index) > 0 ==> Valid() && notices == old(notices)
    {
      if index == 0 {
        notices := notices + [FirstReached];
      }
      index := index - 1;
      r := UpdateSample();
      if r.Ok? {
        UpdateButtons();
      }
    }

    /** `next_sample`: at the last page a notice is shown, yet the index still
        moves, past the end, where showing the page raises. */
    method NextSample() returns (r: Result<()>)
      modifies this
      ensures index == old(index) + 1
      ensures notices == old(notices) + (if old(index) == |pages| - 1 then [LastReached] else [])
      ensures r.Ok? <==> PyIndex(|pages|, index).Some?
      ensures r.Ok? ==> (shown == pages[PyIndex(|pages|, index).value] && !paneEditable
                         && leftEnabled == (index != 0) && rightEnabled == (index != |pages| - 1))
      ensures r.Err? ==> (shown == "" && paneEditable
                          && leftEnabled == old(leftEnabled) && rightEnabled == old(rightEnabled))
      ensures old(Valid()) && old(index) < |pages| - 1 ==> Valid() && notices == old(notices)
      ensures old(Valid()) && old(index) == |pages| - 1 ==> r == Err(IndexError)
    {
      if index == |pages| - 1 {
        notices := notices + [LastReached];
      }
      index := index + 1;
      r := UpdateSample();
      if r.Ok? {
        UpdateButtons();
      }
    }

    /** A click on `<`: a disabled button does nothing, so paging by clicks
        never leaves the pages and never shows a notice. */
    method ClickLeft()
      modifies this
      requires Valid()
      ensures Valid() && notices == old(notices)
      ensures index == (if old(index) > 0 then old(index) - 1 else old(index))
    {
      if leftEnabled {
        var _ := PreviousSample();
      }
    }

    /** A click on `>`. */
    method ClickRight()
      modifies this
      requires Valid()
      ensures Valid() && notices == old(notices)
      ensures index == (if old(index) < |pages| - 1 then old(index) + 1 else old(index))
    {
      if rightEnabled {
        var _ := NextSample();
      }
    }
  }

  /** Clicking `>` on a fresh viewer walks through every page in order and
      stops at the last, which then shows with `>` disabled. */
  method WalkForward(title: string, pages: seq<string>) returns (viewer: SampleViewer, seen: seq<string>)
    requires |pages| > 0
    ensures seen == pages
    ensures viewer.Valid() && viewer.index == |pages| - 1 && !viewer.rightEnabled && viewer.notices == []
  {
    viewer := new SampleViewer(title, pages);
    seen := [viewer.shown];
    while viewer.rightEnabled
      invariant viewer.Valid() && viewer.pages == pages && viewer.notices == []
      invariant |seen| == viewer.index + 1 && seen == pages[..viewer.index + 1]
      decreases |pages| - viewer.index
      modifies viewer
    {
      viewer.ClickRight();
      seen := seen + [viewer.shown];
    }
  }
}
