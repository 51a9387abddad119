/** The generator that sits between the user interfaces and the engine
    handler: it reads the title and seed content from files, formats each
    decoded sample as `title + '\n' + content`, prints the samples and writes
    them to one file, or to one numbered file each. */
module Orchestration {
  import opened Errors
  import opened Text
  import opened Handler

  /** The files the generator can see: name to contents. */
  type FileSystem = map<string, string>

  // ---------------------------------------------------------------------
  // Reading the title and seed content
  // ---------------------------------------------------------------------

  /** `generate_from_single_file`'s reading step: the first line of the file
      is the title and the second (if any) the seed content, each with its
      trailing whitespace stripped. An empty file has no first line. */
  function SingleFileInput(files: FileSystem, name: string): (r: Result<(string, string)>)
    ensures name !in files ==> r == Err(FileNotFoundError(name))
    ensures name in files ==> (r.Err? <==> files[name] == "")
    ensures name in files && r.Err? ==> r.error == IndexError
    ensures r.Ok? ==> '\n' !in r.value.0 && '\n' !in r.value.1
    ensures r.Ok? ==> (r.value.0 == "" || !IsSpace(r.value.0[|r.value.0| - 1]))
    ensures r.Ok? ==> (r.value.1 == "" || !IsSpace(r.value.1[|r.value.1| - 1]))
  {
    if name !in files then Err(FileNotFoundError(name))
    else
      var lines := Lines(UniversalNewlines(files[name]));
      if |lines| == 0 then Err(IndexError)
      else
        RStripLine(lines[0]);
        if |lines| < 2 then Ok((RStrip(lines[0]), ""))
        else
          RStripLine(lines[1]);
          Ok((RStrip(lines[0]), RStrip(lines[1])))
  }

  /** The first line of a file (`''` for an empty file), stripped. */
  function FirstLineOf(contents: string): (r: string)
    ensures '\n' !in r
    ensures r == "" || !IsSpace(r[|r| - 1])
  {
    var lines := Lines(UniversalNewlines(contents));
    if |lines| == 0 then "" else RStripLine(lines[0]); RStrip(lines[0])
  }

  /** `generate_from_files`'s reading step: the title is the first line of
      the title file; the seed content is the first line of the content file
      when a content file name is given and non-empty, and `''` otherwise.
      The title file is opened first. */
  function FilesInput(files: FileSystem, titleName: string, contentName: Option<string>)
    : (r: Result<(string, string)>)
    ensures titleName !in files ==> r == Err(FileNotFoundError(titleName))
    ensures titleName in files && !Truthy(contentName) ==> r == Ok((FirstLineOf(files[titleName]), ""))
    ensures titleName in files && Truthy(contentName) && contentName.value !in files
      ==> r == Err(FileNotFoundError(contentName.value))
    ensures titleName in files && Truthy(contentName) && contentName.value in files
      ==> r == Ok((FirstLineOf(files[titleName]), FirstLineOf(files[contentName.value])))
    ensures r.Ok? ==> r.value.0 == FirstLineOf(files[titleName])
    ensures r.Err? ==> r.error.FileNotFoundError?
    ensures r.Ok? ==> '\n' !in r.value.0 && '\n' !in r.value.1
  {
    if titleName !in files then Err(FileNotFoundError(titleName))
    else
      var title := FirstLineOf(files[titleName]);
      if !Truthy(contentName) then Ok((title, ""))
      else if contentName.value !in files then Err(FileNotFoundError(contentName.value))
      else Ok((title, FirstLineOf(files[contentName.value])))
  }

  /** A file whose first line is `a` and whose second line is `b` (the
      second possibly unterminated, possibly followed by more lines) reads as
      the title `a` and the seed content `b`, both stripped. */
  lemma SingleFileReadsFirstTwoLines(files: FileSystem, name: string, a: string, b: string, tail: string)
    requires name in files && files[name] == a + "\n" + b + tail
    requires '\r' !in files[name] && '\n' !in a && '\n' !in b
    requires tail == "" || tail[0] == '\n'
    ensures SingleFileInput(files, name) == Ok((RStrip(a), RStrip(b)))
  {
    var contents := files[name];
    assert contents == a + "\n" + (b + tail);
    FirstLine(a, b + tail);
    RStripNewline(a);
    if b + tail != "" {
      SecondLine(b, tail);
    }
  }

  /** The first line of `b + tail`, stripped, is `b` stripped. */
  lemma SecondLine(b: string, tail: string)
    requires '\n' !in b && (tail == "" || tail[0] == '\n') && b + tail != ""
    ensures RStrip(Lines(b + tail)[0]) == RStrip(b)
  {
    if tail == "" {
      assert b + tail == b;
      SingleLine(b);
    } else {
      assert b + tail == b + "\n" + tail[1..];
      FirstLine(b, tail[1..]);
      RStripNewline(b);
    }
  }

  /** A file whose first line is `a` (terminated or not, possibly followed
      by more lines) reads as `a` stripped; an empty file reads as `''`. */
  lemma FirstLineOfIs(a: string, tail: string)
    requires '\n' !in a && '\r' !in a + tail
    requires tail == "" || tail[0] == '\n'
    ensures FirstLineOf(a + tail) == RStrip(a)
  {
    if a + tail != "" {
      SecondLine(a, tail);
    }
  }

  /** A two-line seed file: `My Title` then `Some seed`. */
  lemma TwoLineSeedFile(files: FileSystem)
    requires files == map["seed.txt" := "My Title\nSome seed"]
    ensures SingleFileInput(files, "seed.txt") == Ok(("My Title", "Some seed"))
  {
    SeedFileSpelling();
    SingleFileReadsFirstTwoLines(files, "seed.txt", "My Title", "Some seed", "");
    RStripKeeps("My Title");
    RStripKeeps("Some seed");
  }

  // ---------------------------------------------------------------------
  // Formatting the samples
  // ---------------------------------------------------------------------

  /** `[sample[0] + '\n' + sample[1] for sample in samples]`: a decoded sample
      with no content part raises `IndexError`. */
  function FormatAll(pairs: seq<seq<string>>): (r: Result<seq<string>>)
    ensures r.Ok? <==> forall i :: 0 <= i < |pairs| ==> |pairs[i]| >= 2
    ensures r.Ok? ==> |r.value| == |pairs|
    ensures r.Ok? ==> forall i :: 0 <= i < |pairs| ==> r.value[i] == pairs[i][0] + "\n" + pairs[i][1]
    ensures r.Err? ==> r.error == IndexError
    decreases |pairs|
  {
    if |pairs| == 0 then Ok([])
    else if |pairs[0]| < 2 then Err(IndexError)
    else
      match FormatAll(pairs[1..])
      case Err(e) => Err(e)
      case Ok(rest) => Ok([pairs[0][0] + "\n" + pairs[0][1]] + rest)
  }

  /** The seed content `generate` passes on: `None` and `''` become `''`. */
  function SeedText(initialContent: Option<string>): string
  {
    if Truthy(initialContent) then initialContent.value else ""
  }

  /** The raw samples the engine returns for a request. */
  function RawSamples(engine: Engine, title: string, initialContent: Option<string>, numSamples: int, numWords: int)
    : seq<string>
  {
    engine(Prefix(title, SeedText(initialContent)), numSamples, numWords, DefaultArgs)
  }

  /** The formatted samples `generate` returns; a sample that does not
      decode into a title and a content raises `IndexError`. */
  function Samples(engine: Engine, title: string, initialContent: Option<string>, numSamples: int, numWords: int)
    : (r: Result<seq<string>>)
    ensures r.Err? ==> r.error == IndexError
  {
    match GenerateAsTuple(engine, title, SeedText(initialContent), numSamples, numWords)
    case Err(e) => Err(e)
    case Ok(pairs) => FormatAll(pairs)
  }

  /** One formatted sample per raw sample, in the engine's order; `generate`
      succeeds exactly when every raw sample holds the title header and,
      after it, the content marker. */
  lemma SamplesMeaning(engine: Engine, title: string, initialContent: Option<string>, numSamples: int, numWords: int)
    ensures var raw := RawSamples(engine, title, initialContent, numSamples, numWords);
      var r := Samples(engine, title, initialContent, numSamples, numWords);
      (r.Ok? <==> forall i :: 0 <= i < |raw| ==>
         Contains(raw[i], TitleHeader) && Contains(Body(raw[i]), ContentMarker))
      && (r.Ok? ==> |r.value| == |raw|)
      && (r.Ok? ==> forall i :: 0 <= i < |raw| ==>
            r.value[i] == SampleToTuple(raw[i]).value[0] + "\n" + SampleToTuple(raw[i]).value[1])
  {
    var raw := RawSamples(engine, title, initialContent, numSamples, numWords);
    DecodeAllMeaning(raw);
  }

  /** `generate` treats an absent seed and an empty seed alike. */
  lemma AbsentSeedIsEmptySeed(engine: Engine, title: string, numSamples: int, numWords: int)
    ensures Samples(engine, title, None, numSamples, numWords) == Samples(engine, title, Some(""), numSamples, numWords)
    ensures RawSamples(engine, title, None, numSamples, numWords) == engine(Prefix(title, ""), numSamples, numWords, DefaultArgs)
  {
  }

  /** A sample formatted by `generate`, saved to a file and given back with
      `-f`, yields its own title and content again. */
  lemma FormattedSampleReadsBack(files: FileSystem, name: string, title: string, content: string)
    requires '\n' !in title && '\r' !in title && '\n' !in content && '\r' !in content
    ensures SingleFileInput(files[name := title + "\n" + content], name) == Ok((RStrip(title), RStrip(content)))
  {
    var fs := files[name := title + "\n" + content];
    assert fs[name] == title + "\n" + content + "";
    SingleFileReadsFirstTwoLines(fs, name, title, content, "");
  }

  // ---------------------------------------------------------------------
  // Output file names
  // ---------------------------------------------------------------------

  /** Every character of `s` is a dot. */
  predicate AllDots(s: string)
  {
    forall i :: 0 <= i < |s| ==> s[i] == '.'
  }

  /** POSIX `os.path.splitext`: the extension starts at the last dot of the
      final path component, unless that component is only dots up to it
      (a leading-dot name such as `.bashrc` has no extension). */
  function SplitExt(path: string): (r: (string, string))
    ensures r.0 + r.1 == path
    ensures r.1 != "" ==> r.1[0] == '.'
    ensures forall j :: 0 <= j < |r.1| ==> r.1[j] != '/'
    ensures forall j :: 1 <= j < |r.1| ==> r.1[j] != '.'
  {
    var sepIndex := RFind(path, '/');
    var dotIndex := RFind(path, '.');
    if dotIndex > sepIndex && !AllDots(path[sepIndex + 1..dotIndex]) then
      ExtensionAfterLastDot(path, sepIndex, dotIndex);
      (path[..dotIndex], path[dotIndex..])
    else (path, "")
  }

  /** The text from the last dot on, when no slash follows that dot. */
  lemma ExtensionAfterLastDot(path: string, sepIndex: int, dotIndex: int)
    requires -1 <= sepIndex < dotIndex < |path| && path[dotIndex] == '.'
    requires forall j :: sepIndex < j < |path| ==> path[j] != '/'
    requires forall j :: dotIndex < j < |path| ==> path[j] != '.'
    ensures path[..dotIndex] + path[dotIndex..] == path
    ensures forall j :: 0 <= j < |path[dotIndex..]| ==> path[dotIndex..][j] != '/'
    ensures forall j :: 1 <= j < |path[dotIndex..]| ==> path[dotIndex..][j] != '.'
  {
  }

  /** An extension as `splitext` returns it: a dot and then neither dots nor
      slashes. */
  predicate PlainExtension(ext: string)
  {
    |ext| > 0 && ext[0] == '.' && '/' !in ext && forall j :: 0 < j < |ext| ==> ext[j] != '.'
  }

  /** When the stem's final component holds a character other than a dot,
      the extension is everything from the last dot on. */
  lemma SplitExtAtLastDot(stem: string, ext: string, k: nat)
    requires PlainExtension(ext)
    requires RFind(stem, '/') < k < |stem| && stem[k] != '.'
    ensures SplitExt(stem + ext) == (stem, ext)
  {
    var path := stem + ext;
    LastDotAndSlash(stem, ext);
    assert path[k] == stem[k];
    NotAllDots(path, RFind(stem, '/'), |stem|, k);
    SplitExtAt(path, |stem|);
    AppendParts(stem, ext);
  }

  /** `os.path.splitext` cuts at the last dot when it follows the last slash
      and something other than dots precedes it in the final component. */
  lemma SplitExtAt(path: string, d: int)
    requires RFind(path, '/') < d == RFind(path, '.')
    requires !AllDots(path[RFind(path, '/') + 1..d])
    ensures SplitExt(path) == (path[..d], path[d..])
  {
  }

  /** A final path component that is a run of dots (possibly none) followed
      by text without dots has no extension: leading dots do not start one. */
  lemma NoExtension(dir: string, dots: string, rest: string)
    requires dir == "" || dir[|dir| - 1] == '/'
    requires AllDots(dots) && '/' !in rest && '.' !in rest
    ensures SplitExt(dir + dots + rest) == (dir + dots + rest, "")
  {
    var path := dir + dots + rest;
    var s := |dir| - 1;
    var e := |dir| + |dots|;
    forall j | s < j < |path|
      ensures path[j] != '/'
      ensures e <= j ==> path[j] != '.'
    {
      if j < e {
        assert path[j] == dots[j - |dir|];
      } else {
        assert path[j] == rest[j - e];
      }
    }
    if s >= 0 {
      assert path[s] == dir[s];
    }
    RFindIs(path, '/', s);
    if dots != "" {
      assert path[e - 1] == dots[|dots| - 1];
      RFindIs(path, '.', e - 1);
      assert forall j :: 0 <= j < e - 1 - (s + 1) ==> path[s + 1..e - 1][j] == dots[j];
    }
    SplitExtUncut(path);
  }

  /** `splitext` cuts nothing off when the last dot does not follow the last
      slash or only dots precede it in the final component. */
  lemma SplitExtUncut(path: string)
    requires var s, d := RFind(path, '/'), RFind(path, '.'); !(d > s && !AllDots(path[s + 1..d]))
    ensures SplitExt(path) == (path, "")
  {
  }

  /** A slice holding a character other than a dot is not all dots. */
  lemma NotAllDots(path: string, s: int, d: int, k: int)
    requires -1 <= s < k < d <= |path| && path[k] != '.'
    ensures !AllDots(path[s + 1..d])
  {
    assert path[s + 1..d][k - s - 1] == path[k];
  }

  /** The parts of a concatenation are its prefix and suffix. */
  lemma AppendParts(a: string, b: string)
    ensures (a + b)[..|a|] == a && (a + b)[|a|..] == b
  {
  }

  /** Appending an extension puts the last dot just after the stem and
      leaves the last slash where it was. */
  lemma LastDotAndSlash(stem: string, ext: string)
    requires PlainExtension(ext)
    ensures RFind(stem + ext, '.') == |stem|
    ensures RFind(stem + ext, '/') == RFind(stem, '/')
  {
    var path := stem + ext;
    var d := |stem|;
    var s := RFind(stem, '/');
    forall j | d < j < |path|
      ensures path[j] != '.' && path[j] != '/'
    {
      assert path[j] == ext[j - d];
    }
    RFindIs(path, '.', d);
    forall j | s < j < d
      ensures path[j] != '/'
    {
      assert path[j] == stem[j];
    }
    assert s >= 0 ==> path[s] == stem[s];
    RFindIs(path, '/', s);
  }

  /** The name of the `i`-th of several output files: the index goes between
      the base name and the extension. */
  function IndexedName(path: string, i: nat): string
  {
    SplitExt(path).0 + NatToString(i) + SplitExt(path).1
  }

  /** Different indices give different file names. */
  lemma IndexedNameInjective(path: string, i: nat, j: nat)
    requires IndexedName(path, i) == IndexedName(path, j)
    ensures i == j
  {
    var (base, ext) := SplitExt(path);
    var x, y := NatToString(i), NatToString(j);
    assert |x| == |y|;
    assert x == (base + x + ext)[|base|..|base| + |x|];
    assert y == (base + y + ext)[|base|..|base| + |y|];
    NatToStringInjective(i, j);
  }

  /** Different indices give different file names (the contrapositive). */
  lemma IndexedNamesDiffer(path: string, i: nat, j: nat)
    requires i != j
    ensures IndexedName(path, i) != IndexedName(path, j)
  {
    if IndexedName(path, i) == IndexedName(path, j) {
      IndexedNameInjective(path, i, j);
    }
  }

  /** An indexed name is never the name it was derived from. */
  lemma IndexedNameIsNew(path: string, i: nat)
    ensures IndexedName(path, i) != path
  {
    assert |IndexedName(path, i)| == |path| + |NatToString(i)|;
  }

  /** The indexed names of a path that splits into `stem` and `ext`. */
  lemma IndexedNameOfSplit(path: string, stem: string, ext: string, i: nat)
    requires SplitExt(path) == (stem, ext)
    ensures IndexedName(path, i) == stem + NatToString(i) + ext
  {
  }

  /** `-o sample.txt` with several samples writes `sample0.txt`,
      `sample1.txt`, ... */
  lemma NumberedSampleNames(i: nat)
    ensures IndexedName("sample.txt", i) == "sample" + NatToString(i) + ".txt"
  {
    SampleTxtSplits();
    IndexedNameOfSplit("sample.txt", "sample", ".txt", i);
  }

  /** The numbering starts at `sample0.txt`. */
  lemma FirstNumberedSampleName()
    ensures IndexedName("sample.txt", 0) == "sample0.txt"
  {
    NumberedSampleNames(0);
    SmallNatToString();
    SampleNameSpellings();
  }

  /** `sample.txt` splits at its dot. */
  lemma SampleTxtSplits()
    ensures SplitExt("sample.txt") == ("sample", ".txt")
  {
    assert "sample.txt" == "sample" + ".txt";
    RFindIs("sample", '/', -1);
    SplitExtAtLastDot("sample", ".txt", 0);
  }

  /** Only the last extension is split off: `archive.tar.gz` numbers as
      `archive.tar0.gz`. */
  lemma LastExtensionOnly()
    ensures SplitExt("archive.tar.gz") == ("archive.tar", ".gz")
    ensures IndexedName("archive.tar.gz", 0) == "archive.tar0.gz"
  {
    assert "archive.tar.gz" == "archive.tar" + ".gz";
    RFindIs("archive.tar", '/', -1);
    SplitExtAtLastDot("archive.tar", ".gz", 0);
    IndexedNameOfSplit("archive.tar.gz", "archive.tar", ".gz", 0);
    SmallNatToString();
    ArchiveZeroSpelling();
  }

  /** A name whose only dot leads it has no extension: `.bashrc` numbers as
      `.bashrc0`. */
  lemma LeadingDotIsNoExtension()
    ensures SplitExt(".bashrc") == (".bashrc", "")
    ensures IndexedName(".bashrc", 0) == ".bashrc0"
  {
    RFindIs(".bashrc", '/', -1);
    RFindIs(".bashrc", '.', 0);
    assert AllDots(".bashrc"[0..0]);
  }

  // Concrete spellings of literal concatenations. They carry no meaning of
  // their own and only keep the scenario lemmas above cheap to prove.

  /** The seed file's text is its two lines joined by a newline. */
  lemma SeedFileSpelling()
    ensures "My Title\nSome seed" == "My Title" + "\n" + "Some seed" + ""
    ensures '\r' !in "My Title\nSome seed"
    ensures '\n' !in "My Title" && '\n' !in "Some seed"
  {
  }

  /** The spelling of the first three numbered names. */
  lemma SampleNameSpellings()
    ensures "sample" + "0" + ".txt" == "sample0.txt"
    ensures "sample" + "1" + ".txt" == "sample1.txt"
    ensures "sample" + "2" + ".txt" == "sample2.txt"
  {
  }

  /** The first numbered name of `archive.tar.gz`. */
  lemma ArchiveZeroSpelling()
    ensures "archive.tar" + "0" + ".gz" == "archive.tar0.gz"
  {
  }

  // ---------------------------------------------------------------------
  // Writing the samples
  // ---------------------------------------------------------------------

  /** The names of the first `k` indexed output files. */
  function IndexedNames(path: string, k: nat): set<string>
  {
    set i | 0 <= i < k :: IndexedName(path, i)
  }

  /** The indexed names `0 .. n - 1` of a path, in order. */
  function NameList(path: string, n: nat): (r: seq<string>)
    ensures |r| == n
    ensures forall i :: 0 <= i < n ==> r[i] == IndexedName(path, i)
  {
    if n == 0 then [] else NameList(path, n - 1) + [IndexedName(path, n - 1)]
  }

  /** No name occurs twice in the list. */
  predicate DistinctNames(names: seq<string>)
  {
    forall i, j :: 0 <= i < j < |names| ==> names[i] != names[j]
  }

  /** The indexed names of a path are all different. */
  lemma NameListDistinct(path: string, n: nat)
    ensures DistinctNames(NameList(path, n))
  {
    var names := NameList(path, n);
    forall i, j | 0 <= i < j < n
      ensures names[i] != names[j]
    {
      IndexedNamesDiffer(path, i, j);
    }
  }

  /** The files after the first `k` samples were written, each to the name
      at its own position. */
  function Fanout(fs: FileSystem, names: seq<string>, samples: seq<string>, k: nat): FileSystem
    requires k <= |samples| && k <= |names|
  {
    if k == 0 then fs else Fanout(fs, names, samples, k - 1)[names[k - 1] := samples[k - 1]]
  }

  /** The first `k` samples are each in their own indexed file, no other
      file is created, and every file with another name keeps its contents. */
  lemma FanoutContents(fs: FileSystem, path: string, samples: seq<string>, k: nat)
    requires k <= |samples|
    ensures var out := Fanout(fs, NameList(path, |samples|), samples, k);
      forall i :: 0 <= i < k ==> IndexedName(path, i) in out && out[IndexedName(path, i)] == samples[i]
    ensures Fanout(fs, NameList(path, |samples|), samples, k).Keys == fs.Keys + IndexedNames(path, k)
    ensures var out := Fanout(fs, NameList(path, |samples|), samples, k);
      forall name :: name in fs && name !in IndexedNames(path, k) ==> name in out && out[name] == fs[name]
  {
    var names := NameList(path, |samples|);
    NameListDistinct(path, |samples|);
    FanoutValues(fs, names, samples, k);
    FanoutKeys(fs, names, samples, k);
    FanoutOthers(fs, names, samples, k);
    WrittenIndexedNames(path, |samples|, k);
  }

  /** The first `k` of the indexed names, as a set. */
  lemma WrittenIndexedNames(path: string, n: nat, k: nat)
    requires k <= n
    ensures Written(NameList(path, n), k) == IndexedNames(path, k)
  {
    var names := NameList(path, n);
    forall name | name in IndexedNames(path, k)
      ensures name in Written(names, k)
    {
      var i :| 0 <= i < k && IndexedName(path, i) == name;
      assert names[i] == name;
    }
  }

  /** The names of the first `k` files written. */
  function Written(names: seq<string>, k: nat): set<string>
    requires k <= |names|
  {
    set i | 0 <= i < k :: names[i]
  }

  /** With distinct names, each of the first `k` samples is under its own
      name. */
  lemma {:induction false} FanoutValues(fs: FileSystem, names: seq<string>, samples: seq<string>, k: nat)
    requires k <= |samples| && k <= |names| && DistinctNames(names)
    ensures forall i :: 0 <= i < k ==>
      names[i] in Fanout(fs, names, samples, k) && Fanout(fs, names, samples, k)[names[i]] == samples[i]
  {
    if k > 0 {
      FanoutValues(fs, names, samples, k - 1);
    }
  }

  /** The files are the old ones and the first `k` names. */
  lemma {:induction false} FanoutKeys(fs: FileSystem, names: seq<string>, samples: seq<string>, k: nat)
    requires k <= |samples| && k <= |names|
    ensures Fanout(fs, names, samples, k).Keys == fs.Keys + Written(names, k)
  {
    if k > 0 {
      FanoutKeys(fs, names, samples, k - 1);
      assert Written(names, k) == Written(names, k - 1) + {names[k - 1]};
    }
  }

  /** A file whose name is not among the first `k` keeps its contents. */
  lemma {:induction false} FanoutOthers(fs: FileSystem, names: seq<string>, samples: seq<string>, k: nat)
    requires k <= |samples| && k <= |names|
    ensures forall name :: name in fs && name !in Written(names, k) ==>
      name in Fanout(fs, names, samples, k) && Fanout(fs, names, samples, k)[name] == fs[name]
  {
    if k > 0 {
      FanoutOthers(fs, names, samples, k - 1);
      assert Written(names, k) == Written(names, k - 1) + {names[k - 1]};
    }
  }

  /** `write_samples_to_file`: a single sample goes to the given name itself;
      any other number of samples, to the indexed names. */
  function OutputFiles(fs: FileSystem, path: string, samples: seq<string>): FileSystem
  {
    if |samples| == 1 then fs[path := samples[0]] else Fanout(fs, NameList(path, |samples|), samples, |samples|)
  }

  /** What `write_samples_to_file` leaves behind: with one sample, that
      sample under the given name; otherwise every sample under its indexed
      name, while the given name itself is left as it was. */
  lemma OutputFilesMeaning(fs: FileSystem, path: string, samples: seq<string>)
    ensures |samples| == 1 ==> OutputFiles(fs, path, samples)[path] == samples[0]
    ensures |samples| != 1 ==> forall i :: 0 <= i < |samples| ==>
      IndexedName(path, i) in OutputFiles(fs, path, samples) &&
      OutputFiles(fs, path, samples)[IndexedName(path, i)] == samples[i]
    ensures |samples| != 1 ==> (path in OutputFiles(fs, path, samples) <==> path in fs)
    ensures |samples| != 1 && path in fs ==> OutputFiles(fs, path, samples)[path] == fs[path]
  {
    if |samples| != 1 {
      FanoutContents(fs, path, samples, |samples|);
      forall i | 0 <= i < |samples|
        ensures IndexedName(path, i) != path
      {
        IndexedNameIsNew(path, i);
      }
    }
  }

  /** The files after `generate`: the output files are written only when it
      succeeded and an output name was given. */
  function FilesAfter(fs: FileSystem, outputFile: Option<string>, r: Result<seq<string>>): FileSystem
  {
    if r.Ok? && Truthy(outputFile) then OutputFiles(fs, outputFile.value, r.value) else fs
  }

  /** The console after `generate`: every sample is printed, in order, when
      it succeeded and printing was asked for. */
  function ConsoleAfter(console: seq<string>, printOutput: bool, r: Result<seq<string>>): seq<string>
  {
    if r.Ok? && printOutput then console + r.value else console
  }

  /** `generate_from_single_file`'s result. */
  function SingleFileSamples(files: FileSystem, engine: Engine, name: string, numSamples: int, numWords: int)
    : Result<seq<string>>
  {
    match SingleFileInput(files, name)
    case Err(e) => Err(e)
    case Ok(input) => Samples(engine, input.0, Some(input.1), numSamples, numWords)
  }

  /** `generate_from_files`'s result. */
  function FilesSamples(files: FileSystem, engine: Engine, titleName: string, contentName: Option<string>,
                        numSamples: int, numWords: int): Result<seq<string>>
  {
    match FilesInput(files, titleName, contentName)
    case Err(e) => Err(e)
    case Ok(input) => Samples(engine, input.0, Some(input.1), numSamples, numWords)
  }

  /** The generator, with the files and the console it acts on. */
  class Generator {
    var files: FileSystem
    var console: seq<string>

    constructor (files: FileSystem)
      ensures this.files == files && console == []
    {
      this.files := files;
      console := [];
    }

    /** `write_sample_to_file`: create or overwrite one file. */
    method WriteSampleToFile(filename: string, sample: string)
      modifies this
      ensures files == old(files)[filename := sample]
      ensures console == old(console)
    {
      files := files[filename := sample];
    }

    /** `write_samples_to_file`. */
    method WriteSamplesToFile(filename: string, samples: seq<string>)
      modifies this
      ensures files == OutputFiles(old(files), filename, samples)
      ensures console == old(console)
    {
      if |samples| == 1 {
        WriteSampleToFile(filename, samples[0]);
      } else {
        var (base, extension) := SplitExt(filename);
        for i := 0 to |samples|
          invariant files == Fanout(old(files), NameList(filename, |samples|), samples, i)
          invariant console == old(console)
        {
          WriteSampleToFile(base + NatToString(i) + extension, samples[i]);
        }
      }
    }

    /** `generate`: ask the engine, format the samples, then print them
        and write them out as requested. */
    method Generate(engine: Engine, title: string, initialContent: Option<string>, numSamples: int,
                    printOutput: bool, outputFile: Option<string>, numWords: int)
      returns (r: Result<seq<string>>)
      modifies this
      ensures r == Samples(engine, title, initialContent, numSamples, numWords)
      ensures files == FilesAfter(old(files), outputFile, r)
      ensures console == ConsoleAfter(old(console), printOutput, r)
    {
      var content := if Truthy(initialContent) then initialContent.value else "";
      var samples := GenerateAsTuple(engine, title, content, numSamples, numWords);
      if samples.Err? {
        return Err(samples.error);
      }
      var formatted := FormatAll(samples.value);
      if formatted.Err? {
        return Err(formatted.error);
      }
      var samplesStr := formatted.value;
      if printOutput {
        PrintSamples(samplesStr);
      }
      if Truthy(outputFile) {
        WriteSamplesToFile(outputFile.value, samplesStr);
      }
      r := Ok(samplesStr);
    }

    /** Print every sample, in order. */
    method PrintSamples(samples: seq<string>)
      modifies this
      ensures console == old(console) + samples && files == old(files)
    {
      for i := 0 to |samples|
        invariant console == old(console) + samples[..i]
        invariant files == old(files)
      {
        console := console + [samples[i]];
      }
      assert samples[..|samples|] == samples;
    }

    /** `generate_from_single_file`: read the title and seed content from one
        file, then `generate`. */
    method GenerateFromSingleFile(engine: Engine, inputFilename: string, numSamples: int,
                                  printOutput: bool, outputFile: Option<string>, numWords: int)
      returns (r: Result<seq<string>>)
      modifies this
      ensures r == SingleFileSamples(old(files), engine, inputFilename, numSamples, numWords)
      ensures files == FilesAfter(old(files), outputFile, r)
      ensures console == ConsoleAfter(old(console), printOutput, r)
    {
      var input := SingleFileInput(files, inputFilename);
      if input.Err? {
        return Err(input.error);
      }
      r := Generate(engine, input.value.0, Some(input.value.1), numSamples, printOutput, outputFile, numWords);
    }

    /** `generate_from_files`: read the title from one file and the seed
        content from another, then `generate`. */
    method GenerateFromFiles(engine: Engine, titleFilename: string, contentFilename: Option<string>,
                             numSamples: int, printOutput: bool, outputFile: Option<string>, numWords: int)
      returns (r: Result<seq<string>>)
      modifies this
      ensures r == FilesSamples(old(files), engine, titleFilename, contentFilename, numSamples, numWords)
      ensures files == FilesAfter(old(files), outputFile, r)
      ensures console == ConsoleAfter(old(console), printOutput, r)
    {
      var input := FilesInput(files, titleFilename, contentFilename);
      if input.Err? {
        return Err(input.error);
      }
      r := Generate(engine, input.value.0, Some(input.value.1), numSamples, printOutput, outputFile, numWords);
    }
  }
}
