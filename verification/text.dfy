/**
 * Text as a sequence of characters: concatenating the strings written one
 * after another, cutting a line at a separator, and reading a text as lines.
 */
module Text {

  /** The strings written one after another, as `fprintf(fp, "%s", ...)` in a loop leaves them. */
  function Concat(ss: seq<string>): (s: string)
    ensures |ss| == 1 ==> s == ss[0]
  {
    if ss == [] then "" else ss[0] + Concat(ss[1..])
  }

  lemma {:induction false} ConcatAppend(a: seq<string>, b: seq<string>)
    ensures Concat(a + b) == Concat(a) + Concat(b)
  {
    if a != [] {
      assert (a + b)[1..] == a[1..] + b;
      ConcatAppend(a[1..], b);
    } else {
      assert a + b == b;
    }
  }

  /** None of the strings contains c. */
  predicate Free(ss: seq<string>, c: char)
  {
    forall i :: 0 <= i < |ss| ==> c !in ss[i]
  }

  /** The position of the first c in s. */
  function IndexOf(s: string, c: char): (k: nat)
    requires c in s
    ensures k < |s| && s[k] == c
    ensures c !in s[..k]
  {
    if s[0] == c then 0 else 1 + IndexOf(s[1..], c)
  }

  /** The pieces of s between occurrences of sep (Python's `str.split(sep)`). */
  function Split(s: string, sep: char): (parts: seq<string>)
    ensures 1 <= |parts|
    ensures Free(parts, sep)
    decreases |s|
  {
    if sep in s then
      var k := IndexOf(s, sep);
      [s[..k]] + Split(s[k + 1..], sep)
    else
      [s]
  }

  /** The pieces with sep between consecutive ones. */
  function Join(parts: seq<string>, sep: char): string
  {
    if |parts| <= 1 then Concat(parts) else parts[0] + [sep] + Join(parts[1..], sep)
  }

  /** Joining the pieces of a split gives back the original text. */
  lemma {:induction false} JoinSplit(s: string, sep: char)
    ensures Join(Split(s, sep), sep) == s
    decreases |s|
  {
    if sep in s {
      var k := IndexOf(s, sep);
      var rest := Split(s[k + 1..], sep);
      var parts := [s[..k]] + rest;
      assert Split(s, sep) == parts;
      assert parts[1..] == rest;
      JoinSplit(s[k + 1..], sep);
      assert Join(parts, sep) == s[..k] + [sep] + s[k + 1..];
      assert s == s[..k] + [sep] + s[k + 1..];
    }
  }

  /** Splitting a join of separator-free pieces gives back the pieces. */
  lemma {:induction false} SplitJoin(parts: seq<string>, sep: char)
    requires 1 <= |parts|
    requires Free(parts, sep)
    ensures Split(Join(parts, sep), sep) == parts
  {
    if |parts| > 1 {
      var s := Join(parts, sep);
      var rest := Join(parts[1..], sep);
      assert s == parts[0] + [sep] + rest;
      assert s[|parts[0]|] == sep;
      assert sep in s;
      assert IndexOf(s, sep) == |parts[0]|;
      assert s[..|parts[0]|] == parts[0];
      assert s[|parts[0]| + 1..] == rest;
      SplitJoin(parts[1..], sep);
    }
  }

  /** Lines each followed by a line feed, as a text file holds them. */
  function Unlines(lines: seq<string>): string
  {
    if lines == [] then "" else lines[0] + "\n" + Unlines(lines[1..])
  }

  /**
   * The lines of a text: the text cut at each line feed, with no empty
   * line after a final line feed.
   */
  function Lines(s: string): (lines: seq<string>)
    ensures Free(lines, '\n')
  {
    if s == [] then []
    else if s[|s| - 1] == '\n' then Split(s[..|s| - 1], '\n')
    else Split(s, '\n')
  }

  lemma {:induction false} UnlinesAppend(a: seq<string>, b: seq<string>)
    ensures Unlines(a + b) == Unlines(a) + Unlines(b)
  {
    if a != [] {
      assert (a + b)[1..] == a[1..] + b;
      UnlinesAppend(a[1..], b);
    } else {
      assert a + b == b;
    }
  }

  /** A non-empty list of lines is their line-feed join with a final line feed. */
  lemma {:induction false} UnlinesIsJoin(lines: seq<string>)
    requires 1 <= |lines|
    ensures Unlines(lines) == Join(lines, '\n') + "\n"
  {
    if |lines| > 1 {
      UnlinesIsJoin(lines[1..]);
    }
  }

  /** Reading the lines of a text written line by line gives back those lines. */
  lemma LinesUnlines(lines: seq<string>)
    requires Free(lines, '\n')
    ensures Lines(Unlines(lines)) == lines
  {
    if lines != [] {
      UnlinesIsJoin(lines);
      var s := Unlines(lines);
      assert s[..|s| - 1] == Join(lines, '\n');
      SplitJoin(lines, '\n');
    }
  }

  /** A text that is empty or ends in a line feed is exactly its lines written back. */
  lemma UnlinesLines(s: string)
    requires s == [] || s[|s| - 1] == '\n'
    ensures Unlines(Lines(s)) == s
  {
    if s != [] {
      var body := s[..|s| - 1];
      JoinSplit(body, '\n');
      UnlinesIsJoin(Split(body, '\n'));
      assert s == body + "\n";
    }
  }

  /** A text written as n lines holds exactly n line feeds. */
  lemma {:induction false} UnlinesLineFeeds(lines: seq<string>)
    requires Free(lines, '\n')
    ensures multiset(Unlines(lines))['\n'] == |lines|
  {
    if lines != [] {
      UnlinesLineFeeds(lines[1..]);
      assert multiset(lines[0])['\n'] == 0;
      assert Unlines(lines) == lines[0] + "\n" + Unlines(lines[1..]);
    }
  }
}
