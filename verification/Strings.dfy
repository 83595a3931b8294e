/** The string operations the tools share, with the meaning Python gives them. */
module Strings {

  datatype Option<+T> = None | Some(value: T)

  /** `str.isspace`, which is also what `\s` matches in a text pattern. */
  predicate IsSpace(c: char) {
    || c == ' ' || '\t' <= c <= '\r' || '\U{1C}' <= c <= '\U{1F}'
    || c == '\U{85}' || c == '\U{A0}' || c == '\U{1680}' || '\U{2000}' <= c <= '\U{200A}'
    || c == '\U{2028}' || c == '\U{2029}' || c == '\U{202F}' || c == '\U{205F}' || c == '\U{3000}'
  }

  /** The characters at which `str.splitlines` ends a line. */
  predicate IsLineBreak(c: char) {
    || '\n' <= c <= '\r' || '\U{1C}' <= c <= '\U{1E}' || c == '\U{85}' || c == '\U{2028}' || c == '\U{2029}'
  }

  /** Space, the nine control characters that are whitespace, and the Unicode spaces. */
  lemma SpacesAre(c: char)
    ensures IsSpace(c) <==> c in {
      ' ', '\t', '\n', '\U{B}', '\U{C}', '\r', '\U{1C}', '\U{1D}', '\U{1E}', '\U{1F}', '\U{85}', '\U{A0}',
      '\U{1680}', '\U{2000}', '\U{2001}', '\U{2002}', '\U{2003}', '\U{2004}', '\U{2005}', '\U{2006}', '\U{2007}',
      '\U{2008}', '\U{2009}', '\U{200A}', '\U{2028}', '\U{2029}', '\U{202F}', '\U{205F}', '\U{3000}' }
    ensures IsLineBreak(c) <==> c in {
      '\n', '\U{B}', '\U{C}', '\r', '\U{1C}', '\U{1D}', '\U{1E}', '\U{85}', '\U{2028}', '\U{2029}' }
  {
  }

  predicate IsHex(c: char) { '0' <= c <= '9' || 'a' <= c <= 'f' }

  /** A full lowercase commit SHA. */
  predicate IsFull(sha: string) { |sha| == 40 && forall c <- sha :: IsHex(c) }

  predicate NonBlank(s: string) {
    exists i :: 0 <= i < |s| && !IsSpace(s[i])
  }

  predicate StartsWith(s: string, prefix: string) {
    prefix <= s
  }

  /** `lstrip()`. */
  function LStrip(s: string): (r: string)
    ensures |r| <= |s|
  {
    if s != "" && IsSpace(s[0]) then LStrip(s[1..]) else s
  }

  predicate AllSpace(s: string) { forall i :: 0 <= i < |s| ==> IsSpace(s[i]) }

  lemma {:induction false} LStripOf(space: string, s: string)
    requires AllSpace(space) && (s == "" || !IsSpace(s[0]))
    ensures LStrip(space + s) == s
  {
    if space == "" {
      assert space + s == s;
    } else {
      assert (space + s)[1..] == space[1..] + s;
      LStripOf(space[1..], s);
    }
  }

  lemma {:induction false} LStripped(s: string) returns (space: string)
    ensures AllSpace(space) && s == space + LStrip(s) && (LStrip(s) == "" || !IsSpace(LStrip(s)[0]))
  {
    space := "";
    if s != "" && IsSpace(s[0]) {
      var rest := LStripped(s[1..]);
      space := [s[0]] + rest;
      assert s == [s[0]] + s[1..];
    }
  }

  /** `rstrip()`. */
  function RStrip(s: string): (r: string)
    ensures r <= s
  {
    if s != "" && IsSpace(s[|s| - 1]) then RStrip(s[..|s| - 1]) else s
  }

  lemma {:induction false} RStripOf(s: string, space: string)
    requires AllSpace(space) && (s == "" || !IsSpace(s[|s| - 1]))
    ensures RStrip(s + space) == s
  {
    if space == "" {
      assert s + space == s;
    } else {
      var n := |space| - 1;
      assert (s + space)[..|s + space| - 1] == s + space[..n] && (s + space)[|s + space| - 1] == space[n];
      RStripOf(s, space[..n]);
    }
  }

  /** `s.split(c, 1)[0]`: the text before the first `c`. */
  function CutAt(s: string, c: char): (r: string)
    ensures r <= s && c !in r
    ensures |r| < |s| ==> s[|r|] == c
  {
    if s == "" || s[0] == c then "" else [s[0]] + CutAt(s[1..], c)
  }

  lemma {:induction false} CutAtOf(run: string, tail: string, c: char)
    requires c !in run
    ensures CutAt(run + tail, c) == run + CutAt(tail, c)
  {
    if run == "" {
      assert run + tail == tail;
    } else {
      assert (run + tail)[1..] == run[1..] + tail;
      CutAtOf(run[1..], tail, c);
    }
  }

  lemma {:induction false} Whole(s: string, c: char)
    requires c !in s
    ensures CutAt(s, c) == s
  {
    if s != "" {
      Whole(s[1..], c);
    }
  }

  /** `split()`: maximal runs of non-space characters. */
  function Words(s: string): seq<string> {
    WordsFrom(s, "")
  }

  function WordsFrom(s: string, word: string): seq<string> {
    var closed := if word == "" then [] else [word];
    if s == "" then closed
    else if IsSpace(s[0]) then closed + WordsFrom(s[1..], "")
    else WordsFrom(s[1..], word + [s[0]])
  }

  lemma {:induction false} WordBefore(run: string, rest: string, word: string)
    requires word + run != "" && (rest == "" || IsSpace(rest[0])) && forall i :: 0 <= i < |run| ==> !IsSpace(run[i])
    ensures WordsFrom(run + rest, word) == [word + run] + WordsFrom(rest, "")
  {
    if run == "" {
      assert run + rest == rest && word + run == word;
      if rest == "" {
        assert WordsFrom(rest, "") == [];
      } else {
        assert [] + WordsFrom(rest[1..], "") == WordsFrom(rest[1..], "");
      }
    } else {
      assert (run + rest)[1..] == run[1..] + rest && (word + [run[0]]) + run[1..] == word + run;
      WordBefore(run[1..], rest, word + [run[0]]);
    }
  }

  lemma {:induction false} SpaceBefore(space: string, s: string)
    requires AllSpace(space)
    ensures WordsFrom(space + s, "") == WordsFrom(s, "")
  {
    if space == "" {
      assert space + s == s;
    } else {
      assert (space + s)[1..] == space[1..] + s;
      SpaceBefore(space[1..], s);
    }
  }

  /** Words are split at whitespace of any length: a run without any is the first word, what is left gives the others;
      whitespace alone gives none. */
  lemma WordsSplit(space: string, run: string, gap: string, rest: string)
    requires AllSpace(space) && AllSpace(gap) && run != "" && (forall i :: 0 <= i < |run| ==> !IsSpace(run[i]))
    requires gap == "" ==> rest == ""
    ensures Words(space + (run + (gap + rest))) == [run] + Words(rest) && Words(space) == []
  {
    SpaceBefore(space, run + (gap + rest));
    SpaceBefore(space, "");
    assert space + "" == space && "" + run == run;
    if gap == "" {
      assert gap + rest == "";
    } else {
      assert (gap + rest)[0] == gap[0];
    }
    WordBefore(run, gap + rest, "");
    SpaceBefore(gap, rest);
  }

  /** The length of the first line of `s`. */
  function LineLength(s: string): (n: nat)
    ensures n <= |s| && forall i :: 0 <= i < n ==> !IsLineBreak(s[i])
    ensures n < |s| ==> IsLineBreak(s[n])
  {
    if s == "" || IsLineBreak(s[0]) then 0 else 1 + LineLength(s[1..])
  }

  /** `str.splitlines`, with `\r\n` as one break and no line after a final break. */
  function Splitlines(s: string): seq<string> {
    var n := LineLength(s);
    if s == "" then []
    else if n == |s| then [s]
    else [s[..n]] + Splitlines(s[n + (if StartsWith(s[n..], "\r\n") then 2 else 1)..])
  }

  /** What reading a file as text makes of its line ends: universal newlines. */
  function UniversalNewlines(s: string): string {
    if s == "" then ""
    else if s[0] == '\r' then "\n" + UniversalNewlines(s[if StartsWith(s, "\r\n") then 2 else 1..])
    else [s[0]] + UniversalNewlines(s[1..])
  }

  lemma {:induction false} UniversalKeeps(line: string, rest: string)
    requires '\r' !in line
    ensures UniversalNewlines(line + rest) == line + UniversalNewlines(rest)
  {
    if line == "" {
      assert line + rest == rest;
    } else {
      assert (line + rest)[1..] == line[1..] + rest && line == [line[0]] + line[1..];
      UniversalKeeps(line[1..], rest);
      Assoc([line[0]], line[1..], UniversalNewlines(rest));
    }
  }

  lemma {:induction false} SplitlinesUnbroken(s: string)
    ensures forall l <- Splitlines(s) :: Unbroken(l)
  {
    var n := LineLength(s);
    if n < |s| {
      SplitlinesUnbroken(s[n + (if StartsWith(s[n..], "\r\n") then 2 else 1)..]);
    }
  }

  predicate Unbroken(line: string) {
    forall i :: 0 <= i < |line| ==> !IsLineBreak(line[i])
  }

  /** `c.join(parts)`. */
  function JoinOn(parts: seq<string>, c: char): string {
    if parts == [] then "" else if |parts| == 1 then parts[0] else parts[0] + [c] + JoinOn(parts[1..], c)
  }

  /** `"\n".join(lines)`. */
  function JoinLines(lines: seq<string>): string { JoinOn(lines, '\n') }

  /** `text.split(c)`. */
  function SplitOn(text: string, c: char): (parts: seq<string>)
    ensures parts != []
  {
    var first := CutAt(text, c);
    if |first| == |text| then [text] else [first] + SplitOn(text[|first| + 1..], c)
  }

  lemma {:induction false} SplitJoins(text: string, c: char)
    ensures JoinOn(SplitOn(text, c), c) == text && forall part <- SplitOn(text, c) :: c !in part
  {
    var first := CutAt(text, c);
    if |first| < |text| {
      SplitJoins(text[|first| + 1..], c);
      assert text == first + [c] + text[|first| + 1..];
    }
  }

  lemma {:induction false} CutAtFirst(part: string, rest: string, c: char)
    requires c !in part && (rest == "" || rest[0] == c)
    ensures CutAt(part + rest, c) == part
  {
    if part == "" {
      assert part + rest == rest;
    } else {
      assert (part + rest)[1..] == part[1..] + rest && part == [part[0]] + part[1..];
      CutAtFirst(part[1..], rest, c);
    }
  }

  lemma {:induction false} JoinSplits(parts: seq<string>, c: char)
    requires parts != [] && forall part <- parts :: c !in part
    ensures SplitOn(JoinOn(parts, c), c) == parts
  {
    hide SplitOn;
    if |parts| == 1 {
      WholeIsPart(parts[0], c);
    } else {
      JoinSplits(parts[1..], c);
      SplitBehind(parts[0], JoinOn(parts[1..], c), c);
    }
  }

  lemma WholeIsPart(part: string, c: char)
    requires c !in part
    ensures SplitOn(part, c) == [part]
  {
    CutAtFirst(part, "", c);
    assert part + "" == part;
  }

  lemma SplitBehind(part: string, rest: string, c: char)
    requires c !in part
    ensures SplitOn(part + [c] + rest, c) == [part] + SplitOn(rest, c)
  {
    var s := part + [c] + rest;
    CutAtFirst(part, [c] + rest, c);
    assert s == part + ([c] + rest) && s[|part| + 1..] == rest;
  }

  lemma JoinLinesStep(lines: seq<string>)
    requires |lines| > 1
    ensures JoinLines(lines) == lines[0] + "\n" + JoinLines(lines[1..])
  {
  }

  /** What survives of `lines` when they are joined and split again. */
  function DropLastBlank(lines: seq<string>): seq<string> {
    if lines != [] && lines[|lines| - 1] == "" then lines[..|lines| - 1] else lines
  }

  lemma {:induction false} LineLengthOf(line: string, rest: string)
    requires Unbroken(line) && (rest == "" || IsLineBreak(rest[0]))
    ensures LineLength(line + rest) == |line|
  {
    if line == "" {
      assert line + rest == rest;
    } else {
      LineLengthOf(line[1..], rest);
      assert (line + rest)[1..] == line[1..] + rest;
    }
  }

  lemma SplitAtBreak(line: string, b: char, rest: string)
    requires Unbroken(line) && IsLineBreak(b) && b != '\r'
    ensures Splitlines(line + [b] + rest) == [line] + Splitlines(rest)
  {
    var s, tail := line + [b] + rest, [b] + rest;
    assert s == line + tail;
    LineLengthOf(line, tail);
    assert s[..|line|] == line && s[|line|..] == tail && tail[0] == b;
    assert s[|line| + 1..] == rest;
    SplitHere(s, |line|);
  }

  lemma SplitHere(s: string, n: nat)
    requires n == LineLength(s) < |s| && s[n] != '\r'
    ensures Splitlines(s) == [s[..n]] + Splitlines(s[n + 1..])
  {
    hide LineLength, StartsWith;
    NoPair(s[n..]);
  }

  lemma NoPair(s: string)
    requires s != "" && s[0] != '\r'
    ensures !StartsWith(s, "\r\n")
  {
  }

  /** A carriage return is one break, together with a line feed behind it. */
  lemma SplitAtReturn(line: string, rest: string)
    requires Unbroken(line)
    ensures Splitlines(line + ("\r\n" + rest)) == [line] + Splitlines(rest)
    ensures rest == "" || rest[0] != '\n' ==> Splitlines(line + ("\r" + rest)) == [line] + Splitlines(rest)
  {
    ReturnSplits(line, "\r\n" + rest, 2);
    assert ("\r\n" + rest)[2..] == rest && ("\r" + rest)[1..] == rest;
    if rest == "" || rest[0] != '\n' {
      ReturnSplits(line, "\r" + rest, 1);
    }
  }

  lemma ReturnSplits(line: string, tail: string, n: nat)
    requires Unbroken(line) && tail != "" && tail[0] == '\r'
    requires n == if |tail| > 1 && tail[1] == '\n' then 2 else 1
    ensures Splitlines(line + tail) == [line] + Splitlines(tail[n..])
  {
    var s := line + tail;
    LineLengthOf(line, tail);
    assert s[..|line|] == line && s[|line|..] == tail;
    assert s[|line| + n..] == tail[n..];
    assert StartsWith(tail, "\r\n") <==> n == 2;
  }

  lemma SplitFirstLine(line: string, rest: string)
    requires Unbroken(line)
    ensures Splitlines(line + "\n" + rest) == [line] + Splitlines(rest)
  {
    SplitAtBreak(line, '\n', rest);
  }

  lemma Assoc<T>(a: seq<T>, b: seq<T>, c: seq<T>)
    ensures a + (b + c) == (a + b) + c
  {
  }

  lemma SplitJoined(line: string, rest: seq<string>)
    requires rest != [] && Unbroken(line)
    ensures Splitlines(JoinLines([line] + rest)) == [line] + Splitlines(JoinLines(rest))
  {
    JoinLinesStep([line] + rest);
    assert ([line] + rest)[1..] == rest;
    SplitFirstLine(line, JoinLines(rest));
  }

  lemma SplitLast(line: string)
    requires Unbroken(line)
    ensures Splitlines(JoinLines([line])) == DropLastBlank([line])
  {
    LineLengthOf(line, "");
    assert line + "" == line;
  }

  /** Joining and splitting again loses exactly one trailing blank line, if there is one. */
  lemma {:induction false} JoinThenSplit(lines: seq<string>)
    requires forall l <- lines :: Unbroken(l)
    ensures Splitlines(JoinLines(lines)) == DropLastBlank(lines)
  {
    if |lines| == 1 {
      SplitLast(lines[0]);
      assert lines == [lines[0]];
    } else if lines != [] {
      assert lines == [lines[0]] + lines[1..];
      SplitJoined(lines[0], lines[1..]);
      JoinThenSplit(lines[1..]);
      assert DropLastBlank(lines) == [lines[0]] + DropLastBlank(lines[1..]);
    }
  }
}
