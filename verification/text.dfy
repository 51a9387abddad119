/** The Python string built-ins the article generator relies on, stated
    exactly: `find`/`in`, `split`, `rstrip`, `replace` of one character,
    `readlines`/`readline` on a file opened in text mode (universal
    newlines), `str(n)` for a natural number and `int(text)`. */
module Text {
  import opened Errors

  // ---------------------------------------------------------------------
  // Searching
  // ---------------------------------------------------------------------

  /** `sep` occurs in `s` at index `i`. */
  predicate OccursAt(s: string, sep: string, i: int)
  {
    0 <= i && i + |sep| <= |s| && MatchesFrom(s, sep, i, 0)
  }

  /** The characters of `sep` from position `k` on are those of `s` from
      index `i + k` on. */
  predicate MatchesFrom(s: string, sep: string, i: nat, k: nat)
    requires i + |sep| <= |s| && k <= |sep|
    decreases |sep| - k
  {
    k == |sep| || (s[i + k] == sep[k] && MatchesFrom(s, sep, i, k + 1))
  }

  /** Matching character by character is agreeing at every position. */
  lemma {:induction false} MatchesFromChars(s: string, sep: string, i: nat, k: nat)
    requires i + |sep| <= |s| && k <= |sep|
    ensures MatchesFrom(s, sep, i, k) <==> forall m :: k <= m < |sep| ==> s[i + m] == sep[m]
    decreases |sep| - k
  {
    if k < |sep| {
      MatchesFromChars(s, sep, i, k + 1);
    }
  }

  /** An occurrence is agreement at every position of the separator. */
  lemma OccursAtChars(s: string, sep: string, i: int)
    requires 0 <= i && i + |sep| <= |s|
    ensures OccursAt(s, sep, i) <==> forall m :: 0 <= m < |sep| ==> s[i + m] == sep[m]
  {
    MatchesFromChars(s, sep, i, 0);
  }

  /** An occurrence is a slice equal to the separator. */
  lemma OccursAtSlice(s: string, sep: string, i: int)
    requires 0 <= i && i + |sep| <= |s|
    ensures OccursAt(s, sep, i) <==> s[i..i + |sep|] == sep
  {
    OccursAtChars(s, sep, i);
    if s[i..i + |sep|] == sep {
      forall m | 0 <= m < |sep|
        ensures s[i + m] == sep[m]
      {
        assert s[i..i + |sep|][m] == s[i + m];
      }
    }
  }

  /** Whether `sep` occurs at `i` depends only on the characters there. */
  lemma OccursAtSame(s: string, t: string, sep: string, i: int)
    requires 0 <= i && i + |sep| <= |s| && i + |sep| <= |t|
    requires forall m :: i <= m < i + |sep| ==> s[m] == t[m]
    ensures OccursAt(s, sep, i) <==> OccursAt(t, sep, i)
  {
    MatchesFromSame(s, t, sep, i, 0);
  }

  lemma {:induction false} MatchesFromSame(s: string, t: string, sep: string, i: nat, k: nat)
    requires i + |sep| <= |s| && i + |sep| <= |t| && k <= |sep|
    requires forall m :: i <= m < i + |sep| ==> s[m] == t[m]
    ensures MatchesFrom(s, sep, i, k) <==> MatchesFrom(t, sep, i, k)
    decreases |sep| - k
  {
    if k < |sep| {
      assert s[i + k] == t[i + k];
      MatchesFromSame(s, t, sep, i, k + 1);
    }
  }

  /** A text occurs at the start of any text it begins. */
  lemma OccursAtStart(a: string, b: string)
    ensures OccursAt(a + b, a, 0)
  {
    OccursAtChars(a + b, a, 0);
  }

  /** The first index at or after `from` where `sep` occurs, if any. */
  function FindFrom(s: string, sep: string, from: nat): (r: Option<nat>)
    ensures r.Some? ==> from <= r.value && OccursAt(s, sep, r.value)
    decreases |s| - from
  {
    if from + |sep| > |s| then None
    else if OccursAt(s, sep, from) then Some(from)
    else FindFrom(s, sep, from + 1)
  }

  /** Nothing occurs between `from` and the index found, nor anywhere after
      `from` when nothing is found. */
  lemma {:induction false} FindFromFirst(s: string, sep: string, from: nat)
    ensures FindFrom(s, sep, from).Some? ==>
      forall j :: from <= j < FindFrom(s, sep, from).value ==> !OccursAt(s, sep, j)
    ensures FindFrom(s, sep, from).None? ==> forall j :: from <= j ==> !OccursAt(s, sep, j)
    decreases |s| - from
  {
    if from + |sep| <= |s| && !OccursAt(s, sep, from) {
      FindFromFirst(s, sep, from + 1);
    }
  }

  /** An occurrence at `i` with none in `[from, i)` is what the scan from
      `from` finds. */
  lemma {:induction false} FindFromIs(s: string, sep: string, from: nat, i: nat)
    requires from <= i && OccursAt(s, sep, i)
    requires forall j :: from <= j < i ==> !OccursAt(s, sep, j)
    ensures FindFrom(s, sep, from).Some? && FindFrom(s, sep, from).value == i
    decreases i - from
  {
    if from < i {
      FindFromIs(s, sep, from + 1, i);
    }
  }

  /** Python's `s.find(sep)`: the first index where `sep` occurs, if any. */
  function Find(s: string, sep: string): (r: Option<nat>)
  {
    FindFrom(s, sep, 0)
  }

  /** Python's `sep in s`: there is a first occurrence. */
  predicate Contains(s: string, sep: string)
  {
    Find(s, sep).Some?
  }

  /** `s.find(sep)` is the first occurrence: none lies before it, and
      there is none at all when nothing is found. */
  lemma FindFirst(s: string, sep: string)
    ensures Find(s, sep).Some? ==> forall j :: 0 <= j < Find(s, sep).value ==> !OccursAt(s, sep, j)
    ensures Find(s, sep).None? ==> forall j :: !OccursAt(s, sep, j)
  {
    FindFromFirst(s, sep, 0);
  }

  /** `sep in s` holds exactly when `sep` occurs somewhere in `s`. */
  lemma ContainsIsOccurrence(s: string, sep: string)
    ensures Contains(s, sep) <==> exists i :: OccursAt(s, sep, i)
  {
    FindFirst(s, sep);
  }

  /** The first occurrence is the only occurrence that has none before it. */
  lemma FindIsFirst(s: string, sep: string, i: nat)
    requires OccursAt(s, sep, i)
    requires forall j :: 0 <= j < i ==> !OccursAt(s, sep, j)
    ensures Find(s, sep).Some? && Find(s, sep).value == i
  {
    FindFromIs(s, sep, 0, i);
  }

  /** An occurrence begins with the separator's first character. */
  lemma OccurrenceStart(s: string, sep: string, j: int)
    requires |sep| > 0 && OccursAt(s, sep, j)
    ensures s[j] == sep[0]
  {
  }

  /** A text without the separator's first character does not contain it. */
  lemma AbsentFirstChar(s: string, sep: string)
    requires |sep| > 0 && sep[0] !in s
    ensures !Contains(s, sep)
  {
    forall j | OccursAt(s, sep, j)
      ensures s[j] == sep[0]
    {
      OccurrenceStart(s, sep, j);
    }
  }

  /** After a prefix without the separator's first character, an
      occurrence at the seam is the first one. */
  lemma FindAfterPlainPrefix(a: string, sep: string, b: string)
    requires |sep| > 0 && sep[0] !in a && OccursAt(b, sep, 0)
    ensures Find(a + b, sep).Some? && Find(a + b, sep).value == |a|
  {
    var s := a + b;
    OccursAtChars(b, sep, 0);
    OccursAtChars(s, sep, |a|);
    forall j | 0 <= j < |a|
      ensures !OccursAt(s, sep, j)
    {
      assert s[j] == a[j];
      if OccursAt(s, sep, j) {
        OccurrenceStart(s, sep, j);
      }
    }
    FindIsFirst(s, sep, |a|);
  }

  /** The first occurrence lies inside the text. */
  lemma FindBound(s: string, sep: string)
    requires Find(s, sep).Some?
    ensures Find(s, sep).value + |sep| <= |s|
  {
  }

  /** Appending text after an occurrence does not move the first occurrence. */
  lemma FindAppend(s: string, sep: string, tail: string)
    requires Find(s, sep).Some?
    ensures Find(s + tail, sep) == Find(s, sep)
  {
    var i := Find(s, sep).value;
    FindFirst(s, sep);
    OccursAtSame(s, s + tail, sep, i);
    forall j | 0 <= j < i
      ensures !OccursAt(s + tail, sep, j)
    {
      OccursAtSame(s, s + tail, sep, j);
    }
    FindIsFirst(s + tail, sep, i);
  }

  // ---------------------------------------------------------------------
  // Splitting and joining
  // ---------------------------------------------------------------------

  /** Python's `s.split(sep)` for a non-empty separator. */
  function Split(s: string, sep: string): (r: seq<string>)
    requires |sep| > 0
    ensures |r| >= 1
    ensures |r| >= 2 <==> Contains(s, sep)
    ensures |r| == 1 ==> r[0] == s
    decreases |s|
  {
    match Find(s, sep)
    case None => [s]
    case Some(i) => [s[..i]] + Split(s[i + |sep|..], sep)
  }

  /** Python's `sep.join(parts)`. */
  function Join(parts: seq<string>, sep: string): string
  {
    if |parts| == 0 then ""
    else if |parts| == 1 then parts[0]
    else parts[0] + sep + Join(parts[1..], sep)
  }

  /** Joining the pieces of a split with the separator restores the text. */
  lemma {:induction false} SplitJoin(s: string, sep: string)
    requires |sep| > 0
    ensures Join(Split(s, sep), sep) == s
    decreases |s|
  {
    if Find(s, sep).Some? {
      var i := Find(s, sep).value;
      var rest := s[i + |sep|..];
      SplitUnfold(s, sep);
      SplitJoin(rest, sep);
      JoinCons(s[..i], Split(rest, sep), sep);
      Seam(s, sep, i);
    }
  }

  /** Joining a piece in front of a non-empty list of pieces. */
  lemma JoinCons(head: string, tail: seq<string>, sep: string)
    requires |tail| >= 1
    ensures Join([head] + tail, sep) == head + sep + Join(tail, sep)
  {
    assert ([head] + tail)[1..] == tail;
  }

  /** A text is the part before an occurrence, the occurrence and the part
      after it. */
  lemma Seam(s: string, sep: string, i: int)
    requires OccursAt(s, sep, i)
    ensures s[..i] + sep + s[i + |sep|..] == s
  {
    OccursAtSlice(s, sep, i);
    assert s == s[..i] + s[i..i + |sep|] + s[i + |sep|..];
  }

  /** No piece of a split contains the separator. */
  lemma {:induction false} SplitPiecesAreFree(s: string, sep: string)
    requires |sep| > 0
    ensures forall k :: 0 <= k < |Split(s, sep)| ==> !Contains(Split(s, sep)[k], sep)
    decreases |s|
  {
    if Find(s, sep).Some? {
      var i := Find(s, sep).value;
      SplitUnfold(s, sep);
      var rest := s[i + |sep|..];
      SplitPiecesAreFree(rest, sep);
      HeadIsFree(s, sep);
      forall k | 1 <= k < |Split(s, sep)|
        ensures Split(s, sep)[k] == Split(rest, sep)[k - 1]
      {
      }
    }
  }

  /** The text before the first occurrence does not contain the separator. */
  lemma HeadIsFree(s: string, sep: string)
    requires |sep| > 0 && Find(s, sep).Some?
    ensures !Contains(s[..Find(s, sep).value], sep)
  {
    var i := Find(s, sep).value;
    var head := s[..i];
    FindFirst(s, sep);
    if Contains(head, sep) {
      var j := Find(head, sep).value;
      OccursAtSame(head, s, sep, j);
    }
  }

  /** Once the separator has occurred twice, appended text does not change
      the second piece. */
  lemma SplitSecondPieceAppend(s: string, sep: string, tail: string)
    requires |sep| > 0
    requires |Split(s, sep)| >= 3
    ensures |Split(s + tail, sep)| >= 2 && Split(s + tail, sep)[1] == Split(s, sep)[1]
  {
    SplitUnfold(s, sep);
    FindBound(s, sep);
    SplitAfterAppend(s, sep, tail);
    FirstPieceAppend(s[Find(s, sep).value + |sep|..], sep, tail);
  }

  /** Appending text after the first occurrence appends it to the split of
      the rest. */
  lemma SplitAfterAppend(s: string, sep: string, tail: string)
    requires |sep| > 0 && Find(s, sep).Some? && Find(s, sep).value + |sep| <= |s|
    ensures Split(s + tail, sep)[1..] == Split(s[Find(s, sep).value + |sep|..] + tail, sep)
  {
    FindAppend(s, sep, tail);
    SplitUnfold(s + tail, sep);
    DropAppend(s, tail, Find(s, sep).value + |sep|);
  }

  /** Dropping a prefix of the first part of a concatenation. */
  lemma DropAppend(s: string, tail: string, k: nat)
    requires k <= |s|
    ensures (s + tail)[k..] == s[k..] + tail
  {
  }

  /** A split with an occurrence is the piece before it and the split of
      the rest. */
  lemma SplitUnfold(s: string, sep: string)
    requires |sep| > 0 && Find(s, sep).Some?
    ensures var i := Find(s, sep).value;
      Split(s, sep) == [s[..i]] + Split(s[i + |sep|..], sep)
      && Split(s, sep)[0] == s[..i] && Split(s, sep)[1..] == Split(s[i + |sep|..], sep)
  {
    var i := Find(s, sep).value;
    assert ([s[..i]] + Split(s[i + |sep|..], sep))[1..] == Split(s[i + |sep|..], sep);
  }

  /** The first two pieces of a split are the text up to the first
      separator and the text from there up to the next separator or the
      end. */
  lemma FirstTwoPieces(s: string, sep: string)
    requires |sep| > 0 && |Split(s, sep)| >= 2
    ensures var p := Split(s, sep);
      p[0] + sep + p[1] == s || p[0] + sep + p[1] + sep <= s
    ensures var p := Split(s, sep); p[0] + sep + p[1] <= s
  {
    var i := Find(s, sep).value;
    SplitUnfold(s, sep);
    var rest := s[i + |sep|..];
    Seam(s, sep, i);
    var p0, p1 := Split(s, sep)[0], Split(s, sep)[1];
    assert p1 == Split(rest, sep)[0];
    match Find(rest, sep)
    case None =>
      assert s == p0 + sep + p1;
      ConcatPrefix(p0 + sep + p1, "", s);
    case Some(j) =>
      SplitUnfold(rest, sep);
      Seam(rest, sep, j);
      var after := rest[j + |sep|..];
      assert rest == p1 + sep + after;
      Regroup(p0, sep, p1, after);
      ConcatPrefix(p0 + sep + p1 + sep, after, s);
  }

  /** Where the first two pieces of a split are cut: the first ends at the
      first occurrence of the separator, and the second is what follows up
      to the next occurrence, or all of it when there is none. */
  lemma FirstTwoCuts(s: string, sep: string)
    requires |sep| > 0 && |Split(s, sep)| >= 2
    ensures var p := Split(s, sep); Find(s, sep) == Some(|p[0]|) && |p[0]| + |sep| <= |s|
    ensures var p := Split(s, sep); var rest := s[|p[0]| + |sep|..];
      (Find(rest, sep).None? ==> p[1] == rest)
      && (Find(rest, sep).Some? ==> Find(rest, sep) == Some(|p[1]|))
  {
    var i := Find(s, sep).value;
    SplitUnfold(s, sep);
    var p0, p1 := Split(s, sep)[0], Split(s, sep)[1];
    var rest := s[i + |sep|..];
    assert p0 == s[..i] && |p0| == i;
    assert p1 == Split(rest, sep)[0];
    assert s[|p0| + |sep|..] == rest;
    FirstPieceEnd(rest, sep);
  }

  /** The first piece of a split ends where the separator first occurs,
      and is the whole text when it does not occur. */
  lemma FirstPieceEnd(s: string, sep: string)
    requires |sep| > 0
    ensures Find(s, sep).None? ==> Split(s, sep)[0] == s
    ensures Find(s, sep).Some? ==> Find(s, sep) == Some(|Split(s, sep)[0]|)
  {
    if Find(s, sep).Some? {
      SplitUnfold(s, sep);
    }
  }

  /** Regrouping the text around two separators. */
  lemma Regroup(a: string, sep: string, b: string, c: string)
    ensures a + sep + (b + sep + c) == (a + sep + b + sep) + c
  {
  }

  /** A text is a prefix of anything that starts with it. */
  lemma ConcatPrefix(x: string, y: string, s: string)
    requires s == x + y
    ensures x <= s
  {
    assert s[..|x|] == x;
  }

  /** Appending after an occurrence leaves the first piece alone. */
  lemma FirstPieceAppend(s: string, sep: string, tail: string)
    requires |sep| > 0 && |Split(s, sep)| >= 2
    ensures Split(s + tail, sep)[0] == Split(s, sep)[0]
  {
    var j := Find(s, sep).value;
    SplitUnfold(s, sep);
    FindAppend(s, sep, tail);
    SplitUnfold(s + tail, sep);
    assert (s + tail)[..j] == s[..j];
  }

  // ---------------------------------------------------------------------
  // Characters and whitespace
  // ---------------------------------------------------------------------

  /** Python's `str.isspace` for one character (the characters `rstrip()`
      removes). */
  predicate IsSpace(c: char)
  {
    c == ' ' || '\t' <= c <= '\r' || '\U{1C}' <= c <= '\U{1F}' ||
    c == '\U{85}' || c == '\U{A0}' || c == '\U{1680}' ||
    '\U{2000}' <= c <= '\U{200A}' || c == '\U{2028}' || c == '\U{2029}' ||
    c == '\U{202F}' || c == '\U{205F}' || c == '\U{3000}'
  }

  /** Python's `s.rstrip()`: the longest prefix of `s` that does not end in
      whitespace, where only whitespace was cut off. */
  function RStrip(s: string): (r: string)
    ensures |r| <= |s| && r == s[..|r|]
    ensures |r| > 0 ==> !IsSpace(r[|r| - 1])
    ensures forall i :: |r| <= i < |s| ==> IsSpace(s[i])
    decreases |s|
  {
    if |s| > 0 && IsSpace(s[|s| - 1]) then RStrip(s[..|s| - 1]) else s
  }

  /** A trailing newline makes no difference to `rstrip()`. */
  lemma RStripNewline(s: string)
    ensures RStrip(s + "\n") == RStrip(s)
  {
    assert (s + "\n")[..|s|] == s;
  }

  /** Text that does not end in whitespace is left as it is. */
  lemma RStripKeeps(s: string)
    requires s == "" || !IsSpace(s[|s| - 1])
    ensures RStrip(s) == s
  {
  }

  /** A stripped line holds no newline. */
  lemma RStripLine(l: string)
    requires IsLine(l)
    ensures '\n' !in RStrip(l)
  {
    var r := RStrip(l);
    forall m | 0 <= m < |r|
      ensures r[m] != '\n'
    {
      assert r[m] == l[m];
    }
  }

  /** The last index below `k` holding `c`, or -1. */
  function RFindBefore(s: string, c: char, k: nat): (r: int)
    requires k <= |s|
    ensures -1 <= r < k
    ensures r >= 0 ==> s[r] == c
    ensures forall j :: r < j < k ==> s[j] != c
    decreases k
  {
    if k == 0 then -1
    else if s[k - 1] == c then k - 1
    else RFindBefore(s, c, k - 1)
  }

  /** Python's `s.rfind(c)` for one character: the last index holding `c`,
      or -1. */
  function RFind(s: string, c: char): (r: int)
    ensures -1 <= r < |s|
    ensures r >= 0 ==> s[r] == c
    ensures forall j :: r < j < |s| ==> s[j] != c
  {
    RFindBefore(s, c, |s|)
  }

  /** The last index holding `c` is the only index with that description. */
  lemma RFindIs(s: string, c: char, r: int)
    requires -1 <= r < |s|
    requires r >= 0 ==> s[r] == c
    requires forall j :: r < j < |s| ==> s[j] != c
    ensures RFind(s, c) == r
  {
  }

  /** Python's `s.replace(from, to)` for single characters. */
  function ReplaceChar(s: string, from: char, to: char): (r: string)
    ensures |r| == |s|
    ensures forall i :: 0 <= i < |s| ==> r[i] == (if s[i] == from then to else s[i])
    decreases |s|
  {
    if |s| == 0 then "" else [if s[0] == from then to else s[0]] + ReplaceChar(s[1..], from, to)
  }

  // ---------------------------------------------------------------------
  // Reading text files
  // ---------------------------------------------------------------------

  /** The newline translation of a file opened in text mode: `\r\n` and a
      lone `\r` both read as `\n`. */
  function UniversalNewlines(s: string): (r: string)
    ensures '\r' !in r
    ensures |r| == 0 <==> |s| == 0
    ensures '\r' !in s ==> r == s
    decreases |s|
  {
    if |s| == 0 then ""
    else if s[0] == '\r' then
      "\n" + UniversalNewlines(if |s| > 1 && s[1] == '\n' then s[2..] else s[1..])
    else
      assert '\r' !in s ==> '\r' !in s[1..];
      [s[0]] + UniversalNewlines(s[1..])
  }

  /** Text without `\r` is copied unchanged and the translation goes on
      after it. */
  lemma {:induction false} UniversalNewlinesKeepsPlain(a: string, t: string)
    requires '\r' !in a
    ensures UniversalNewlines(a + t) == a + UniversalNewlines(t)
    decreases |a|
  {
    if a != "" {
      var c, b, u := a[0], a[1..], UniversalNewlines(t);
      assert c in a;
      assert a + t == [c] + (b + t);
      UniversalNewlinesPlainHead(c, b + t);
      UniversalNewlinesKeepsPlain(b, t);
      assert a == [c] + b;
      assert [c] + (b + u) == ([c] + b) + u;
    } else {
      assert a + t == t;
    }
  }

  /** The single step behind `UniversalNewlinesKeepsPlain`: a leading
      character other than `\r` is copied. */
  lemma UniversalNewlinesPlainHead(c: char, t: string)
    requires c != '\r'
    ensures UniversalNewlines([c] + t) == [c] + UniversalNewlines(t)
  {
    assert ([c] + t)[1..] == t;
  }

  /** A `\r\n` pair reads as one `\n`. */
  lemma UniversalNewlinesCRLF(a: string, b: string)
    requires '\r' !in a
    ensures UniversalNewlines(a + "\r\n" + b) == a + "\n" + UniversalNewlines(b)
  {
    assert a + "\r\n" + b == a + ("\r\n" + b);
    UniversalNewlinesKeepsPlain(a, "\r\n" + b);
    assert ("\r\n" + b)[2..] == b;
  }

  /** A `\r` not followed by `\n` reads as `\n`. */
  lemma UniversalNewlinesLoneCR(a: string, b: string)
    requires '\r' !in a && (b == "" || b[0] != '\n')
    ensures UniversalNewlines(a + "\r" + b) == a + "\n" + UniversalNewlines(b)
  {
    var t, u := "\r" + b, UniversalNewlines(b);
    assert a + "\r" + b == a + t;
    UniversalNewlinesKeepsPlain(a, t);
    UniversalNewlinesLeadingCR(b);
    assert a + ("\n" + u) == a + "\n" + u;
  }

  /** The single step behind `UniversalNewlinesLoneCR`: a leading lone `\r`. */
  lemma UniversalNewlinesLeadingCR(b: string)
    requires b == "" || b[0] != '\n'
    ensures UniversalNewlines("\r" + b) == "\n" + UniversalNewlines(b)
  {
    var t := "\r" + b;
    assert t[0] == '\r' && t[1..] == b;
  }

  /** A line as `readlines` returns it: non-empty, with no newline except
      possibly the last character. */
  predicate IsLine(l: string)
  {
    |l| > 0 && forall m :: 0 <= m < |l| - 1 ==> l[m] != '\n'
  }

  predicate EndsInNewline(l: string)
  {
    |l| > 0 && l[|l| - 1] == '\n'
  }

  /** The concatenation of a sequence of strings. */
  function Concat(parts: seq<string>): string
  {
    if |parts| == 0 then "" else parts[0] + Concat(parts[1..])
  }

  /** The index of the first newline at or after `from`, or `|s|` when
      there is none. */
  function NewlineFrom(s: string, from: nat): (r: nat)
    requires from <= |s|
    ensures from <= r <= |s|
    ensures r < |s| ==> s[r] == '\n'
    ensures forall j :: from <= j < r ==> s[j] != '\n'
    decreases |s| - from
  {
    if from == |s| || s[from] == '\n' then from else NewlineFrom(s, from + 1)
  }

  /** The scan stops at the first newline and at nothing else. */
  lemma NewlineFromIs(s: string, from: nat, e: nat)
    requires from <= e <= |s|
    requires e < |s| ==> s[e] == '\n'
    requires forall j :: from <= j < e ==> s[j] != '\n'
    ensures NewlineFrom(s, from) == e
    decreases e - from
  {
    if from < e {
      NewlineFromIs(s, from + 1, e);
    }
  }

  /** Python's `f.readlines()` on (already translated) text: the text cut
      after every newline, every line but the last ending in one. */
  function Lines(s: string): (r: seq<string>)
    ensures |r| == 0 <==> |s| == 0
    ensures forall k :: 0 <= k < |r| ==> IsLine(r[k])
    ensures forall k :: 0 <= k < |r| - 1 ==> EndsInNewline(r[k])
    decreases |s|
  {
    if |s| == 0 then []
    else
      var e := NewlineFrom(s, 0);
      if e == |s| then [s]
      else
        var rest := Lines(s[e + 1..]);
        var r := [s[..e + 1]] + rest;
        assert r[1..] == rest;
        r
  }

  /** The lines put back together are the text. */
  lemma {:induction false} LinesConcat(s: string)
    ensures Concat(Lines(s)) == s
    decreases |s|
  {
    if |s| > 0 {
      var e := NewlineFrom(s, 0);
      if e < |s| {
        var rest := s[e + 1..];
        LinesConcat(rest);
        assert Lines(s) == [s[..e + 1]] + Lines(rest);
        assert (Lines(s))[1..] == Lines(rest);
        assert s == s[..e + 1] + rest;
      }
    }
  }

  /** Python's `f.readline()`: the first line, or `''` for an empty file. */
  function ReadLine(s: string): string
  {
    var lines := Lines(s);
    if |lines| == 0 then "" else lines[0]
  }

  /** The first line of text whose first newline ends `head` is `head` and
      that newline. */
  lemma FirstLine(head: string, tail: string)
    requires '\n' !in head
    ensures Lines(head + "\n" + tail)[0] == head + "\n"
    ensures |Lines(head + "\n" + tail)| >= 2 <==> tail != ""
    ensures tail != "" ==> Lines(head + "\n" + tail)[1..] == Lines(tail)
  {
    var s := head + "\n" + tail;
    NewlineFromIs(s, 0, |head|);
    assert s[..|head| + 1] == head + "\n";
    assert s[|head| + 1..] == tail;
  }

  /** Text without a newline is a single line. */
  lemma SingleLine(s: string)
    requires s != "" && '\n' !in s
    ensures Lines(s) == [s]
  {
    NewlineFromIs(s, 0, |s|);
  }

  // ---------------------------------------------------------------------
  // Integers and their decimal text
  // ---------------------------------------------------------------------

  predicate IsDigit(c: char)
  {
    '0' <= c <= '9'
  }

  predicate AllDigits(s: string)
  {
    forall i :: 0 <= i < |s| ==> IsDigit(s[i])
  }

  /** The value of a string of decimal digits. */
  function DigitsValue(s: string): nat
    requires AllDigits(s)
    decreases |s|
  {
    if |s| == 0 then 0 else 10 * DigitsValue(s[..|s| - 1]) + (s[|s| - 1] as int - '0' as int)
  }

  /** Python's `str(n)` for a natural number: a non-empty string of decimal
      digits denoting `n`. */
  function NatToString(n: nat): (r: string)
    ensures |r| > 0 && AllDigits(r)
    ensures DigitsValue(r) == n
    ensures |r| > 1 ==> r[0] != '0'
    decreases n
  {
    var d := ('0' as int + n % 10) as char;
    if n < 10 then [d]
    else
      var p := NatToString(n / 10);
      assert (p + [d])[..|p|] == p;
      assert (p + [d])[0] == p[0];
      p + [d]
  }
  /** `str(n)` for the first few numbers. */
  lemma SmallNatToString()
    ensures NatToString(0) == "0" && NatToString(1) == "1"
    ensures NatToString(2) == "2" && NatToString(3) == "3"
  {
  }


  /** Text that `int()` accepts (ASCII digits only): an optional `+` or `-`
      and then at least one decimal digit. */
  predicate IsIntText(text: string)
  {
    (|text| > 0 && AllDigits(text)) ||
    (|text| > 1 && (text[0] == '+' || text[0] == '-') && AllDigits(text[1..]))
  }

  /** Some character of `s` is a digit other than `0`. */
  predicate HasNonZeroDigit(s: string)
  {
    exists i :: 0 <= i < |s| && '1' <= s[i] <= '9'
  }

  /** Python's `int(text)` for an optional sign followed by decimal digits:
      the digits' value, negated after `-`; anything else raises
      `ValueError`. */
  function ParseInt(text: string): (r: Result<int>)
    ensures r.Ok? <==> IsIntText(text)
    ensures r.Err? ==> r.error == ValueError(text)
    ensures r.Ok? && IsDigit(text[0]) ==> r.value == DigitsValue(text)
    ensures r.Ok? && text[0] == '+' ==> r.value == DigitsValue(text[1..])
    ensures r.Ok? && text[0] == '-' ==> r.value == -(DigitsValue(text[1..]) as int)
  {
    if |text| > 0 && (text[0] == '+' || text[0] == '-') then
      var digits := text[1..];
      if |digits| > 0 && AllDigits(digits) then
        var magnitude: int := DigitsValue(digits);
        Ok(if text[0] == '-' then -magnitude else magnitude)
      else Err(ValueError(text))
    else if |text| > 0 && AllDigits(text) then Ok(DigitsValue(text))
    else Err(ValueError(text))
  }

  /** A run of digits denotes a positive number exactly when one of its
      digits is not `0`. */
  lemma {:induction false} DigitsValuePositive(s: string)
    requires AllDigits(s)
    ensures DigitsValue(s) > 0 <==> HasNonZeroDigit(s)
    decreases |s|
  {
    if |s| > 0 {
      var init := s[..|s| - 1];
      DigitsValuePositive(init);
      if HasNonZeroDigit(init) {
        var i :| 0 <= i < |init| && '1' <= init[i] <= '9';
        assert s[i] == init[i];
      }
      if HasNonZeroDigit(s) && s[|s| - 1] == '0' {
        var i :| 0 <= i < |s| && '1' <= s[i] <= '9';
        assert init[i] == s[i];
      }
    }
  }

  /** `int('-' + str(n)) == -n`. */
  lemma ParseIntOfNegative(n: nat)
    ensures ParseInt("-" + NatToString(n)) == Ok(-(n as int))
  {
    var s := "-" + NatToString(n);
    assert s[1..] == NatToString(n);
  }

  /** `int(str(n)) == n`. */
  lemma ParseIntOfNatToString(n: nat)
    ensures ParseInt(NatToString(n)) == Ok(n)
  {
    var s := NatToString(n);
    assert IsDigit(s[0]);
  }

  /** Different numbers have different decimal text. */
  lemma NatToStringInjective(a: nat, b: nat)
    requires NatToString(a) == NatToString(b)
    ensures a == b
  {
    ParseIntOfNatToString(a);
    ParseIntOfNatToString(b);
  }
}
