/** The prompt codec around the GPT-2 engine (gpt2handler.py): the prompt
    built from a title and initial content, the decoding of a raw sample
    back into `[title, content]`, and the conversion of the engine's string
    configuration into typed arguments.  The engine itself is a parameter. */
module Handler {
  import opened Errors
  import opened Text

  // ---------------------------------------------------------------------
  // Prompt markers
  // ---------------------------------------------------------------------

  /** The start token, a newline, `'=' * 5 + 'TITLE' + '=' * 5` and a newline. */
  const TitleHeader: string := "<|startoftext|>\n=====TITLE=====\n"

  /** A newline, `'=' * 5 + 'CONTENT' + '=' * 5` and a newline. */
  const ContentMarker: string := "\n=====CONTENT=====\n"

  // ---------------------------------------------------------------------
  // Encoding
  // ---------------------------------------------------------------------

  /** The initial content with every newline replaced by a space. */
  function Flatten(content: string): (r: string)
    ensures |r| == |content|
    ensures forall i :: 0 <= i < |content| ==> r[i] == (if content[i] == '\n' then ' ' else content[i])
    ensures '\n' !in r
  {
    ReplaceChar(content, '\n', ' ')
  }

  /** Flattening keeps every character other than newline and space. */
  lemma FlattenKeeps(content: string, c: char)
    requires c != '\n' && c != ' '
    ensures c in Flatten(content) <==> c in content
  {
    var r := Flatten(content);
    if c in r {
      var i :| 0 <= i < |r| && r[i] == c;
      assert content[i] == c;
    }
    if c in content {
      var i :| 0 <= i < |content| && content[i] == c;
      assert r[i] == c;
    }
  }

  /** The prompt handed to the engine (`prefix` in `Gpt2Handler.generate`). */
  function Prefix(title: string, initialContent: string): (r: string)
    ensures |r| == |TitleHeader| + |title| + |ContentMarker| + |initialContent|
    ensures r[..|TitleHeader|] == TitleHeader
    ensures r[|TitleHeader|..|TitleHeader| + |title|] == title
    ensures r[|TitleHeader| + |title|..|r| - |initialContent|] == ContentMarker
    ensures r[|r| - |initialContent|..] == Flatten(initialContent)
    ensures '\n' !in r[|r| - |initialContent|..]
  {
    var r := TitleHeader + title + ContentMarker + Flatten(initialContent);
    assert r[|r| - |initialContent|..] == Flatten(initialContent);
    assert r[|TitleHeader| + |title|..|r| - |initialContent|] == ContentMarker;
    r
  }

  // ---------------------------------------------------------------------
  // Deleting control tokens: re.sub('<\|[^|>]*\|>', '', text)
  // ---------------------------------------------------------------------

  /** The first index at or after `from` holding `|` or `>`, or the end. */
  function ScanBody(s: string, from: nat): (j: nat)
    requires from <= |s|
    ensures from <= j <= |s|
    ensures forall k :: from <= k < j ==> s[k] != '|' && s[k] != '>'
    ensures j < |s| ==> s[j] == '|' || s[j] == '>'
    decreases |s| - from
  {
    if from == |s| || s[from] == '|' || s[from] == '>' then from else ScanBody(s, from + 1)
  }

  /** A control token: `<|`, then characters other than `|` and `>`, then `|>`. */
  predicate IsToken(t: string)
  {
    |t| >= 4 && t[0] == '<' && t[1] == '|' && t[|t| - 2] == '|' && t[|t| - 1] == '>' &&
    forall k :: 2 <= k < |t| - 2 ==> t[k] != '|' && t[k] != '>'
  }

  /** Where the pattern's match starting at `i` ends, if it matches there. */
  function TokenEnd(s: string, i: nat): (r: Option<nat>)
    requires i <= |s|
    ensures r.Some? ==> i + 4 <= r.value <= |s|
  {
    if i + 2 <= |s| && s[i] == '<' && s[i + 1] == '|' then
      var j := ScanBody(s, i + 2);
      if j + 2 <= |s| && s[j] == '|' && s[j + 1] == '>' then Some(j + 2) else None
    else None
  }

  /** The scan finds a match at `i` ending at `e` exactly when `s[i..e]` is
      a control token, so the pattern has at most one match at each index. */
  lemma TokenEndIsPattern(s: string, i: nat, e: nat)
    requires i <= e <= |s|
    ensures TokenEnd(s, i) == Some(e) <==> IsToken(s[i..e])
  {
    var t := s[i..e];
    if TokenEnd(s, i) == Some(e) {
      var j := ScanBody(s, i + 2);
      assert j == e - 2;
      forall k | 2 <= k < |t| - 2
        ensures t[k] != '|' && t[k] != '>'
      {
        assert t[k] == s[i + k];
      }
    }
    if IsToken(t) {
      assert s[i] == t[0] && s[i + 1] == t[1];
      var j := ScanBody(s, i + 2);
      forall k | i + 2 <= k < e - 2
        ensures s[k] != '|' && s[k] != '>'
      {
        assert s[k] == t[k - i];
      }
      assert s[e - 2] == t[|t| - 2] && s[e - 1] == t[|t| - 1];
      assert j == e - 2;
    }
  }

  /** re.sub's left-to-right scan from index `i`: a match is deleted and the
      scan resumes after it; otherwise the character is kept. */
  function StripFrom(s: string, i: nat): (r: string)
    requires i <= |s|
    ensures |r| <= |s| - i
    decreases |s| - i
  {
    if i == |s| then ""
    else match TokenEnd(s, i)
      case Some(e) => StripFrom(s, e)
      case None => [s[i]] + StripFrom(s, i + 1)
  }

  /** Every control token deleted, as `sample_to_tuple` does. */
  function StripTokens(s: string): (r: string)
    ensures |r| <= |s|
  {
    StripFrom(s, 0)
  }

  /** Scanning inside `b` does not depend on what precedes it. */
  lemma ScanBodyShift(a: string, b: string, k: nat)
    requires k <= |b|
    ensures ScanBody(a + b, |a| + k) == |a| + ScanBody(b, k)
    decreases |b| - k
  {
    if k < |b| {
      assert (a + b)[|a| + k] == b[k];
      if b[k] != '|' && b[k] != '>' {
        ScanBodyShift(a, b, k + 1);
      }
    }
  }

  /** Whether a control token starts in `b` does not depend on what
      precedes it. */
  lemma TokenEndShift(a: string, b: string, k: nat)
    requires k <= |b|
    ensures TokenEnd(a + b, |a| + k) ==
      match TokenEnd(b, k) case Some(e) => Some(|a| + e) case None => None
  {
    var s := a + b;
    if k + 2 <= |b| {
      assert s[|a| + k] == b[k] && s[|a| + k + 1] == b[k + 1];
      if b[k] == '<' && b[k + 1] == '|' {
        ScanBodyShift(a, b, k + 2);
        var j := ScanBody(b, k + 2);
        if j + 2 <= |b| {
          assert s[|a| + j] == b[j] && s[|a| + j + 1] == b[j + 1];
        }
      }
    }
  }

  /** One step of the shifted scan over a match: the deletion in `a + b`
      agrees with the one in `b` when it does so after the match. */
  lemma StripFromShiftToken(a: string, b: string, k: nat, e: nat)
    requires k < |b| && TokenEnd(b, k) == Some(e)
    requires StripFrom(a + b, |a| + e) == StripFrom(b, e)
    ensures StripFrom(a + b, |a| + k) == StripFrom(b, k)
  {
    TokenEndShift(a, b, k);
  }

  /** One step of the shifted scan over a kept character. */
  lemma StripFromShiftKeep(a: string, b: string, k: nat)
    requires k < |b| && TokenEnd(b, k).None?
    requires StripFrom(a + b, |a| + k + 1) == StripFrom(b, k + 1)
    ensures StripFrom(a + b, |a| + k) == StripFrom(b, k)
  {
    TokenEndShift(a, b, k);
    assert (a + b)[|a| + k] == b[k];
  }

  /** The deletion scan inside `b` does not depend on what precedes it. */
  lemma {:induction false} StripFromShift(a: string, b: string, k: nat)
    requires k <= |b|
    ensures StripFrom(a + b, |a| + k) == StripFrom(b, k)
    decreases |b| - k
  {
    if k < |b| {
      match TokenEnd(b, k)
      case Some(e) =>
        StripFromShift(a, b, e);
        StripFromShiftToken(a, b, k, e);
      case None =>
        StripFromShift(a, b, k + 1);
        StripFromShiftKeep(a, b, k);
    }
  }

  /** Text without `<` passes through the deletion unchanged. */
  lemma {:induction false} StripFromPlain(s: string, i: nat)
    requires i <= |s|
    requires forall k :: i <= k < |s| ==> s[k] != '<'
    ensures StripFrom(s, i) == s[i..]
    decreases |s| - i
  {
    if i < |s| {
      StripFromPlain(s, i + 1);
      assert s[i..] == [s[i]] + s[i + 1..];
    }
  }

  /** Text without `<` has no control token to delete. */
  lemma StripTokensPlain(s: string)
    requires '<' !in s
    ensures StripTokens(s) == s
  {
    StripFromPlain(s, 0);
  }

  /** A leading run of text without `<` is kept, and the scan continues
      after it as if it began there. */
  lemma {:induction false} StripTokensPlainPrefix(a: string, rest: string)
    requires '<' !in a
    ensures StripTokens(a + rest) == a + StripTokens(rest)
    decreases |a|
  {
    if |a| == 0 {
      assert a + rest == rest;
    } else {
      var s := a + rest;
      assert s[0] == a[0] && s[0] != '<';
      StripTokensPlainPrefix(a[1..], rest);
      StripFromShift([a[0]], a[1..] + rest, 0);
      assert [a[0]] + (a[1..] + rest) == s;
      assert a == [a[0]] + a[1..];
    }
  }

  /** A control token at the front is deleted and the scan continues after it. */
  lemma StripTokensLeadingToken(t: string, rest: string)
    requires IsToken(t)
    ensures StripTokens(t + rest) == StripTokens(rest)
  {
    var s := t + rest;
    assert s[0..|t|] == t;
    TokenEndIsPattern(s, 0, |t|);
    StripFromShift(t, rest, 0);
  }

  // ---------------------------------------------------------------------
  // Collapsing spaces: re.sub(' +', ' ', text)
  // ---------------------------------------------------------------------

  /** No two adjacent spaces. */
  predicate NoDoubleSpace(s: string)
  {
    forall i :: 0 <= i < |s| - 1 ==> !(s[i] == ' ' && s[i + 1] == ' ')
  }

  /** Every run of spaces replaced by one space. */
  function Collapse(s: string): (r: string)
    ensures |r| <= |s|
    ensures |s| > 0 ==> |r| > 0 && r[0] == s[0]
    ensures NoDoubleSpace(r)
    decreases |s|
  {
    if |s| < 2 then s
    else if s[0] == ' ' && s[1] == ' ' then Collapse(s[1..])
    else [s[0]] + Collapse(s[1..])
  }

  /** The characters other than spaces, in order. */
  function NonSpaces(s: string): string
  {
    if |s| == 0 then "" else (if s[0] == ' ' then "" else [s[0]]) + NonSpaces(s[1..])
  }

  /** Collapsing removes spaces only: every other character survives, in order. */
  lemma {:induction false} CollapseRemovesOnlySpaces(s: string)
    ensures NonSpaces(Collapse(s)) == NonSpaces(s)
    decreases |s|
  {
    if |s| >= 2 {
      CollapseRemovesOnlySpaces(s[1..]);
      if !(s[0] == ' ' && s[1] == ' ') {
        var r := [s[0]] + Collapse(s[1..]);
        assert r[0] == s[0] && r[1..] == Collapse(s[1..]);
      }
    }
  }

  /** Collapsing changes exactly the texts that have two adjacent spaces. */
  lemma {:induction false} CollapseFixedPoints(s: string)
    ensures Collapse(s) == s <==> NoDoubleSpace(s)
    decreases |s|
  {
    if |s| >= 2 && NoDoubleSpace(s) {
      CollapseFixedPoints(s[1..]);
      assert s == [s[0]] + s[1..];
    }
  }

  /** `k` spaces. */
  function Spaces(k: nat): (r: string)
    ensures |r| == k && forall i :: 0 <= i < k ==> r[i] == ' '
  {
    if k == 0 then "" else " " + Spaces(k - 1)
  }

  /** A leading run of spaces collapses to one space. */
  lemma {:induction false} CollapseLeadingRun(k: nat, b: string)
    requires k >= 1 && (b == "" || b[0] != ' ')
    ensures Collapse(Spaces(k) + b) == " " + Collapse(b)
    decreases k
  {
    var s := Spaces(k) + b;
    assert s[1..] == Spaces(k - 1) + b;
    if k >= 2 {
      CollapseLeadingRun(k - 1, b);
    }
  }

  /** Each run of spaces between two other characters (or the ends of the
      text) becomes exactly one space, and the two sides collapse on their
      own. */
  lemma {:induction false} CollapseRun(a: string, k: nat, b: string)
    requires k >= 1
    requires a == "" || a[|a| - 1] != ' '
    requires b == "" || b[0] != ' '
    ensures Collapse(a + Spaces(k) + b) == Collapse(a) + " " + Collapse(b)
    decreases |a|
  {
    if a == "" {
      assert a + Spaces(k) + b == Spaces(k) + b;
      CollapseLeadingRun(k, b);
    } else {
      var s := a + Spaces(k) + b;
      assert s[1..] == a[1..] + Spaces(k) + b;
      CollapseRun(a[1..], k, b);
    }
  }

  /** Two texts without double spaces join without one unless both sides of
      the seam are spaces. */
  lemma NoDoubleSpaceConcat(a: string, b: string)
    requires NoDoubleSpace(a) && NoDoubleSpace(b)
    requires a == "" || b == "" || a[|a| - 1] != ' ' || b[0] != ' '
    ensures NoDoubleSpace(a + b)
  {
    var s := a + b;
    forall i | 0 <= i < |s| - 1
      ensures !(s[i] == ' ' && s[i + 1] == ' ')
    {
      if i + 1 < |a| {
        assert s[i] == a[i] && s[i + 1] == a[i + 1];
      } else if i >= |a| {
        assert s[i] == b[i - |a|] && s[i + 1] == b[i + 1 - |a|];
      }
    }
  }

  /** Every piece of a split of a text without double spaces has none. */
  lemma {:induction false} SplitKeepsNoDoubleSpace(s: string, sep: string)
    requires |sep| > 0 && NoDoubleSpace(s)
    ensures forall k :: 0 <= k < |Split(s, sep)| ==> NoDoubleSpace(Split(s, sep)[k])
    decreases |s|
  {
    match Find(s, sep)
    case None =>
    case Some(i) =>
      var rest := s[i + |sep|..];
      assert forall m :: 0 <= m < |rest| ==> rest[m] == s[i + |sep| + m];
      SplitKeepsNoDoubleSpace(rest, sep);
      SplitUnfold(s, sep);
  }

  // ---------------------------------------------------------------------
  // Decoding
  // ---------------------------------------------------------------------

  /** The cleaned text of a sample: the part between the first and the
      second title header, with tokens deleted and spaces collapsed. */
  function Body(sample: string): (r: string)
    requires Contains(sample, TitleHeader)
    ensures NoDoubleSpace(r)
  {
    Collapse(StripTokens(Split(sample, TitleHeader)[1]))
  }

  /** Python's `lst[:2]`. */
  function TakeTwo(pieces: seq<string>): (r: seq<string>)
    ensures |r| == if |pieces| < 2 then |pieces| else 2
    ensures r == pieces[..|r|]
  {
    if |pieces| <= 2 then pieces else pieces[..2]
  }

  /** `Gpt2Handler.sample_to_tuple`: the title and content of a raw sample.
      A sample without the title header raises `IndexError`. */
  function SampleToTuple(sample: string): (r: Result<seq<string>>)
    ensures r.Err? <==> !Contains(sample, TitleHeader)
    ensures r.Err? ==> r.error == IndexError
    ensures r.Ok? ==> 1 <= |r.value| <= 2
    ensures r.Ok? ==> forall k :: 0 <= k < |r.value| ==> NoDoubleSpace(r.value[k])
    ensures r.Ok? ==> (|r.value| == 1 <==> !Contains(Body(sample), ContentMarker))
    ensures r.Ok? && |r.value| == 1 ==> r.value[0] == Body(sample)
  {
    if !Contains(sample, TitleHeader) then Err(IndexError)
    else
      var pieces := Split(Body(sample), ContentMarker);
      SplitKeepsNoDoubleSpace(Body(sample), ContentMarker);
      Ok(TakeTwo(pieces))
  }

  /** With the content marker present, the decoded pair is the text before
      its first occurrence and the text up to the next occurrence or the
      end; neither holds the marker. */
  lemma DecodeSplitsAtMarker(sample: string)
    requires SampleToTuple(sample).Ok? && |SampleToTuple(sample).value| == 2
    ensures var pair := SampleToTuple(sample).value;
      !Contains(pair[0], ContentMarker) && !Contains(pair[1], ContentMarker) &&
      pair[0] + ContentMarker + pair[1] <= Body(sample)
    ensures var pair := SampleToTuple(sample).value;
      pair[0] + ContentMarker + pair[1] == Body(sample) ||
      pair[0] + ContentMarker + pair[1] + ContentMarker <= Body(sample)
    ensures var pair := SampleToTuple(sample).value;
      Find(Body(sample), ContentMarker) == Some(|pair[0]|)
    ensures var pair := SampleToTuple(sample).value;
      var rest := Body(sample)[|pair[0]| + |ContentMarker|..];
      (Find(rest, ContentMarker).None? ==> pair[1] == rest)
      && (Find(rest, ContentMarker).Some? ==> Find(rest, ContentMarker) == Some(|pair[1]|))
  {
    var body := Body(sample);
    SplitPiecesAreFree(body, ContentMarker);
    FirstTwoPieces(body, ContentMarker);
    FirstTwoCuts(body, ContentMarker);
  }

  /** The first piece of a split is a prefix of the text. */
  lemma FirstPieceIsPrefix(s: string, sep: string)
    requires |sep| > 0
    ensures Split(s, sep)[0] <= s
  {
    if Find(s, sep).Some? {
      SplitUnfold(s, sep);
    }
  }

  /** Once a second title header has appeared, nothing after it changes the
      decoded pair. */
  lemma DecodeIgnoresAfterSecondHeader(sample: string, tail: string)
    requires |Split(sample, TitleHeader)| >= 3
    ensures SampleToTuple(sample + tail) == SampleToTuple(sample)
  {
    SplitSecondPieceAppend(sample, TitleHeader, tail);
  }

  /** The text after the title header in a prompt: the title, the content
      marker and the flattened content. */
  function PromptRest(title: string, content: string): string
  {
    title + ContentMarker + Flatten(content)
  }

  /** A prompt splits on the title header into the empty text and the rest
      of the prompt, when nothing after the header holds `<`. */
  lemma PromptHeaderSplit(title: string, content: string)
    requires '<' !in title && '<' !in content
    ensures '<' !in PromptRest(title, content)
    ensures Contains(Prefix(title, content), TitleHeader)
    ensures Split(Prefix(title, content), TitleHeader)[1] == PromptRest(title, content)
  {
    var rest := PromptRest(title, content);
    FlattenKeeps(content, '<');
    assert '<' !in ContentMarker;
    assert '<' !in rest;
    assert Prefix(title, content) == TitleHeader + rest;
    HeaderSplit(rest);
  }

  /** Text led by the title header and free of `<` after it splits into
      the empty text and what follows the header. */
  lemma HeaderSplit(rest: string)
    requires '<' !in rest
    ensures Contains(TitleHeader + rest, TitleHeader)
    ensures Split(TitleHeader + rest, TitleHeader)[1] == rest
  {
    var prompt := TitleHeader + rest;
    OccursAtStart(TitleHeader, rest);
    FindIsFirst(prompt, TitleHeader, 0);
    assert prompt[|TitleHeader|..] == rest;
    AbsentFirstChar(rest, TitleHeader);
    SplitUnfold(prompt, TitleHeader);
  }

  /** Cleaning leaves the rest of a prompt alone under the round-trip
      conditions. */
  lemma PromptRestIsClean(title: string, content: string)
    requires '<' !in PromptRest(title, content)
    requires NoDoubleSpace(title) && NoDoubleSpace(Flatten(content))
    ensures Collapse(StripTokens(PromptRest(title, content))) == PromptRest(title, content)
  {
    var rest := PromptRest(title, content);
    StripTokensPlain(rest);
    assert NoDoubleSpace(ContentMarker);
    NoDoubleSpaceConcat(title, ContentMarker);
    NoDoubleSpaceConcat(title + ContentMarker, Flatten(content));
    CollapseFixedPoints(rest);
  }

  /** The rest of a prompt splits on the content marker into the title and
      the flattened content, when the title has no newline. */
  lemma PromptRestSplit(title: string, content: string)
    requires '\n' !in title
    ensures Split(PromptRest(title, content), ContentMarker) == [title, Flatten(content)]
  {
    var flat := Flatten(content);
    var rest := PromptRest(title, content);
    OccursAtStart(ContentMarker, flat);
    assert rest == title + (ContentMarker + flat);
    FindAfterPlainPrefix(title, ContentMarker, ContentMarker + flat);
    SplitUnfold(rest, ContentMarker);
    assert rest[..|title|] == title;
    assert rest[|title| + |ContentMarker|..] == flat;
    AbsentFirstChar(flat, ContentMarker);
  }

  /** Decoding the prompt gives back the title and the flattened content,
      provided the title has no newline, neither text has `<`, and neither
      has two adjacent spaces once flattened. */
  lemma DecodePrefix(title: string, content: string)
    requires '\n' !in title && '<' !in title && '<' !in content
    requires NoDoubleSpace(title) && NoDoubleSpace(Flatten(content))
    ensures SampleToTuple(Prefix(title, content)) == Ok([title, Flatten(content)])
  {
    PromptHeaderSplit(title, content);
    PromptRestIsClean(title, content);
    assert Body(Prefix(title, content)) == PromptRest(title, content);
    PromptRestSplit(title, content);
  }

  // ---------------------------------------------------------------------
  // Engine arguments: parse_generate_arguments
  // ---------------------------------------------------------------------

  /** A parsed engine argument. Floats keep their text (not modelled). */
  datatype ArgValue = Str(s: string) | Int(i: int) | Bool(b: bool) | Float(text: string)

  /** The kinds of parser in `GENERATE_ARGUMENT_PARSER`. */
  datatype Parser = Identity | FloatOf | IntOf | IsTrueText

  /** `GENERATE_ARGUMENT_PARSER`: the parser of each known argument name. */
  const ParserTable: map<string, Parser> := map[
    "model_name" := Identity,
    "run_name" := Identity,
    "temperature" := FloatOf,
    "top_k" := IntOf,
    "top_p" := FloatOf,
    "include_prefix" := IsTrueText,
    "return_as_list" := IsTrueText,
    "truncate" := Identity]

  /** `DEFAULT_CONFIG`, in its insertion order. */
  const DefaultConfig: seq<(string, string)> := [
    ("model_name", "124M"),
    ("run_name", "124M_article_generator_model"),
    ("top_k", "0"),
    ("include_prefix", "True"),
    ("return_as_list", "True"),
    ("truncate", "<|endoftext|><|startoftext|>")]

  /** Apply one parser to the text of a value. */
  function Apply(parser: Parser, text: string): Result<ArgValue>
  {
    match parser
    case Identity => Ok(Str(text))
    case FloatOf => Ok(Float(text))
    case IntOf => (match ParseInt(text) case Ok(i) => Ok(Int(i)) case Err(e) => Err(e))
    case IsTrueText => Ok(Bool(text == "True"))
  }

  /** `GENERATE_ARGUMENT_PARSER[key](text)`: an unknown name raises
      `KeyError`; only the integer parser can reject a value. */
  function ParseEntry(key: string, text: string): (r: Result<ArgValue>)
    ensures key !in ParserTable <==> r == Err(KeyError(key))
    ensures r.Err? && key in ParserTable ==> ParserTable[key] == IntOf && r.error == ValueError(text)
  {
    if key in ParserTable then Apply(ParserTable[key], text) else Err(KeyError(key))
  }

  /** The two boolean arguments are true exactly for the text `True`. */
  lemma BooleanArguments(key: string, text: string)
    requires key == "include_prefix" || key == "return_as_list"
    ensures ParseEntry(key, text) == Ok(Bool(text == "True"))
  {
  }

  /** The names of an argument list. */
  function Keys(args: seq<(string, string)>): set<string>
  {
    set i | 0 <= i < |args| :: args[i].0
  }

  /** No name occurs twice (as in a Python dict). */
  predicate DistinctKeys(args: seq<(string, string)>)
  {
    forall i, j :: 0 <= i < j < |args| ==> args[i].0 != args[j].0
  }

  /** The parse of the `i`th entry. */
  function EntryAt(args: seq<(string, string)>, i: nat): Result<ArgValue>
    requires i < |args|
  {
    ParseEntry(args[i].0, args[i].1)
  }

  /** The dictionary the loop of `parse_generate_arguments` builds from the
      entries in order, stopping at the first that raises. */
  function ParseAll(args: seq<(string, string)>): Result<map<string, ArgValue>>
    decreases |args|
  {
    if |args| == 0 then Ok(map[])
    else
      var last := |args| - 1;
      match ParseAll(args[..last])
      case Err(e) => Err(e)
      case Ok(m) =>
        match EntryAt(args, last)
        case Err(e) => Err(e)
        case Ok(v) => Ok(m[args[last].0 := v])
  }

  /** The parse succeeds exactly when every entry parses; it then holds
      exactly the input's names, each with its parsed value; otherwise it
      raises the error of the first entry that fails. */
  lemma ParseAllMeaning(args: seq<(string, string)>)
    requires DistinctKeys(args)
    ensures ParseAll(args).Ok? <==> forall i :: 0 <= i < |args| ==> EntryAt(args, i).Ok?
    ensures ParseAll(args).Ok? ==> ParseAll(args).value.Keys == Keys(args)
    ensures ParseAll(args).Ok? ==>
      forall i :: 0 <= i < |args| ==> ParseAll(args).value[args[i].0] == EntryAt(args, i).value
    ensures ParseAll(args).Err? ==>
      exists i :: 0 <= i < |args| && EntryAt(args, i).Err? &&
        ParseAll(args).error == EntryAt(args, i).error &&
        forall j :: 0 <= j < i ==> EntryAt(args, j).Ok?
  {
    ParseAllSucceeds(args);
    ParseAllKeys(args);
    ParseAllValues(args);
    ParseAllFirstError(args);
  }

  /** The parse succeeds exactly when every entry parses. */
  lemma {:induction false} ParseAllSucceeds(args: seq<(string, string)>)
    ensures ParseAll(args).Ok? <==> forall i :: 0 <= i < |args| ==> EntryAt(args, i).Ok?
    decreases |args|
  {
    if |args| > 0 {
      var last := |args| - 1;
      PrefixEntries(args, last);
      ParseAllSucceeds(args[..last]);
    }
  }

  /** A failed parse raises the error of the first entry that fails. */
  lemma {:induction false} ParseAllFirstError(args: seq<(string, string)>)
    ensures ParseAll(args).Err? ==>
      exists i :: 0 <= i < |args| && EntryAt(args, i).Err? &&
        ParseAll(args).error == EntryAt(args, i).error &&
        forall j :: 0 <= j < i ==> EntryAt(args, j).Ok?
    decreases |args|
  {
    if |args| > 0 {
      var last := |args| - 1;
      var init := args[..last];
      PrefixEntries(args, last);
      ParseAllFirstError(init);
      ParseAllSucceeds(init);
      if ParseAll(init).Err? {
        var i :| 0 <= i < |init| && EntryAt(init, i).Err? &&
          ParseAll(init).error == EntryAt(init, i).error &&
          forall j :: 0 <= j < i ==> EntryAt(init, j).Ok?;
        assert EntryAt(args, i) == EntryAt(init, i);
      } else if EntryAt(args, last).Err? {
        assert forall j :: 0 <= j < last ==> EntryAt(args, j).Ok?;
      }
    }
  }

  /** A successful parse holds exactly the names of the entries. */
  lemma {:induction false} ParseAllKeys(args: seq<(string, string)>)
    ensures ParseAll(args).Ok? ==> ParseAll(args).value.Keys == Keys(args)
    decreases |args|
  {
    if |args| > 0 {
      var last := |args| - 1;
      var init := args[..last];
      ParseAllKeys(init);
      assert Keys(args) == Keys(init) + {args[last].0} by {
        assert forall i :: 0 <= i < last ==> init[i] == args[i];
      }
    }
  }

  /** A successful parse of distinct names maps each name to its parsed
      value. */
  lemma {:induction false} ParseAllValues(args: seq<(string, string)>)
    requires DistinctKeys(args)
    ensures ParseAll(args).Ok? ==>
      forall i :: 0 <= i < |args| ==>
        EntryAt(args, i).Ok? && args[i].0 in ParseAll(args).value &&
        ParseAll(args).value[args[i].0] == EntryAt(args, i).value
    decreases |args|
  {
    if |args| > 0 && ParseAll(args).Ok? {
      var last := |args| - 1;
      var init := args[..last];
      PrefixEntries(args, last);
      ParseAllValues(init);
      var m := ParseAll(init).value;
      var key := args[last].0;
      var v := EntryAt(args, last).value;
      assert ParseAll(args).value == m[key := v];
      forall i | 0 <= i < |args|
        ensures EntryAt(args, i).Ok? && args[i].0 in m[key := v] && m[key := v][args[i].0] == EntryAt(args, i).value
      {
        if i < last {
          assert args[i].0 != key;
          assert init[i] == args[i];
        }
      }
    }
  }

  /** The entries of a prefix parse as they do in the whole list. */
  lemma PrefixEntries(args: seq<(string, string)>, k: nat)
    requires k <= |args|
    ensures forall i :: 0 <= i < k ==> EntryAt(args[..k], i) == EntryAt(args, i)
  {
  }

  /** Once a prefix of the entries raises, the whole list raises the same. */
  lemma {:induction false} ParseAllStops(args: seq<(string, string)>, k: nat)
    requires k <= |args| && ParseAll(args[..k]).Err?
    ensures ParseAll(args) == ParseAll(args[..k])
    decreases |args| - k
  {
    if k < |args| {
      assert args[..k + 1][..k] == args[..k];
      ParseAllStops(args, k + 1);
    } else {
      assert args[..k] == args;
    }
  }

  /** `Gpt2Handler.parse_generate_arguments`: the loop over the entries. */
  method ParseGenerateArguments(arguments: seq<(string, string)>) returns (r: Result<map<string, ArgValue>>)
    ensures r == ParseAll(arguments)
  {
    var result: map<string, ArgValue> := map[];
    var i := 0;
    while i < |arguments|
      invariant 0 <= i <= |arguments|
      invariant ParseAll(arguments[..i]) == Ok(result)
    {
      var (key, text) := arguments[i];
      assert arguments[..i + 1][..i] == arguments[..i];
      match ParseEntry(key, text)
      case Err(e) =>
        ParseAllStops(arguments, i + 1);
        return Err(e);
      case Ok(v) =>
        result := result[key := v];
      i := i + 1;
    }
    assert arguments[..i] == arguments;
    r := Ok(result);
  }

  /** The engine arguments that `DEFAULT_CONFIG` parses to. */
  const DefaultArgs: map<string, ArgValue> := map[
    "model_name" := Str("124M"),
    "run_name" := Str("124M_article_generator_model"),
    "top_k" := Int(0),
    "include_prefix" := Bool(true),
    "return_as_list" := Bool(true),
    "truncate" := Str("<|endoftext|><|startoftext|>")]

  /** The default configuration always parses, to `DefaultArgs`. */
  lemma DefaultConfigParses()
    ensures ParseAll(DefaultConfig) == Ok(DefaultArgs)
  {
    var c := DefaultConfig;
    DefaultEntries();
    assert c[..0] == [];
    ParseAllStep(c, 0, map[]);
    var m1 := map["model_name" := Str("124M")];
    ParseAllStep(c, 1, m1);
    var m2 := m1["run_name" := Str("124M_article_generator_model")];
    ParseAllStep(c, 2, m2);
    var m3 := m2["top_k" := Int(0)];
    ParseAllStep(c, 3, m3);
    var m4 := m3["include_prefix" := Bool(true)];
    ParseAllStep(c, 4, m4);
    var m5 := m4["return_as_list" := Bool(true)];
    ParseAllStep(c, 5, m5);
    assert c[..6] == c;
  }

  /** Each entry of the default configuration parses to its value. */
  lemma DefaultEntries()
    ensures EntryAt(DefaultConfig, 0) == Ok(Str("124M"))
    ensures EntryAt(DefaultConfig, 1) == Ok(Str("124M_article_generator_model"))
    ensures EntryAt(DefaultConfig, 2) == Ok(Int(0))
    ensures EntryAt(DefaultConfig, 3) == Ok(Bool(true))
    ensures EntryAt(DefaultConfig, 4) == Ok(Bool(true))
    ensures EntryAt(DefaultConfig, 5) == Ok(Str("<|endoftext|><|startoftext|>"))
  {
    assert ParseInt("0") == Ok(0) by {
      assert AllDigits("0");
      assert DigitsValue("0") == 0;
    }
  }

  /** One more entry that parses extends the dictionary by it. */
  lemma ParseAllStep(args: seq<(string, string)>, k: nat, m: map<string, ArgValue>)
    requires k < |args| && ParseAll(args[..k]) == Ok(m) && EntryAt(args, k).Ok?
    ensures ParseAll(args[..k + 1]) == Ok(m[args[k].0 := EntryAt(args, k).value])
  {
    assert args[..k + 1][..k] == args[..k];
  }

  // ---------------------------------------------------------------------
  // Generation
  // ---------------------------------------------------------------------

  /** The external engine (`gpt2.generate`): prompt, number of samples,
      length and parsed arguments to raw sample texts. */
  type Engine = (string, int, int, map<string, ArgValue>) -> seq<string>

  /** `Gpt2Handler.generate`: the raw samples for a prompt. */
  function GenerateRaw(engine: Engine, title: string, initialContent: string, numSamples: int, numWords: int)
    : (r: Result<seq<string>>)
    ensures r == Ok(engine(Prefix(title, initialContent), numSamples, numWords, DefaultArgs))
  {
    DefaultConfigParses();
    match ParseAll(DefaultConfig)
    case Err(e) => Err(e)
    case Ok(args) => Ok(engine(Prefix(title, initialContent), numSamples, numWords, args))
  }

  /** Each raw sample decoded, in order; the first that fails raises. */
  function DecodeAll(raw: seq<string>): (r: Result<seq<seq<string>>>)
    ensures r.Ok? ==> |r.value| == |raw|
    ensures r.Err? ==> r.error == IndexError
    decreases |raw|
  {
    if |raw| == 0 then Ok([])
    else
      match SampleToTuple(raw[0])
      case Err(e) => Err(e)
      case Ok(pair) =>
        match DecodeAll(raw[1..])
        case Err(e) => Err(e)
        case Ok(pairs) => Ok([pair] + pairs)
  }

  /** Decoding succeeds exactly when every raw sample decodes, and then
      gives each sample's pair at its own position. */
  lemma DecodeAllMeaning(raw: seq<string>)
    ensures DecodeAll(raw).Ok? <==> forall i :: 0 <= i < |raw| ==> SampleToTuple(raw[i]).Ok?
    ensures DecodeAll(raw).Ok? ==>
      forall i :: 0 <= i < |raw| ==> DecodeAll(raw).value[i] == SampleToTuple(raw[i]).value
  {
    DecodeAllSucceeds(raw);
    DecodeAllValues(raw);
  }

  /** Decoding succeeds exactly when every raw sample decodes. */
  lemma {:induction false} DecodeAllSucceeds(raw: seq<string>)
    ensures DecodeAll(raw).Ok? <==> forall i :: 0 <= i < |raw| ==> SampleToTuple(raw[i]).Ok?
    decreases |raw|
  {
    if |raw| > 0 {
      DecodeAllSucceeds(raw[1..]);
      assert forall i :: 1 <= i < |raw| ==> raw[1..][i - 1] == raw[i];
    }
  }

  /** A successful decoding gives each sample's pair at its own position. */
  lemma {:induction false} DecodeAllValues(raw: seq<string>)
    ensures DecodeAll(raw).Ok? ==>
      forall i :: 0 <= i < |raw| ==>
        SampleToTuple(raw[i]).Ok? && DecodeAll(raw).value[i] == SampleToTuple(raw[i]).value
    decreases |raw|
  {
    if |raw| > 0 && DecodeAll(raw).Ok? {
      var rest := raw[1..];
      DecodeAllValues(rest);
      var pairs := DecodeAll(rest).value;
      assert DecodeAll(raw).value == [SampleToTuple(raw[0]).value] + pairs;
      forall i | 1 <= i < |raw|
        ensures raw[i] == rest[i - 1]
      {
      }
    }
  }

  /** `Gpt2Handler.generate_as_tuple`: one decoded pair per raw sample of the
      prompt, in the engine's order. */
  function GenerateAsTuple(engine: Engine, title: string, initialContent: string, numSamples: int, numWords: int)
    : (r: Result<seq<seq<string>>>)
    ensures r == DecodeAll(engine(Prefix(title, initialContent), numSamples, numWords, DefaultArgs))
  {
    match GenerateRaw(engine, title, initialContent, numSamples, numWords)
    case Err(e) => Err(e)
    case Ok(raw) => DecodeAll(raw)
  }
}
