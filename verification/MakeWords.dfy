/** Words of a Make line, split around nested `$(...)` and `${...}` references. */
module MakeWords {
  import opened Strings

  predicate IsOpener(c: char) { c == '(' || c == '{' }
  predicate IsCloser(c: char) { c == ')' || c == '}' }

  function Close(word: string): seq<string> {
    if word == "" then [] else [word]
  }

  /** The words of `text` when `depth` references are open and `current` is the word begun so far. */
  function SplitFrom(text: string, depth: nat, current: string): seq<string> {
    if text == "" then Close(current)
    else if text[0] == '$' && |text| > 1 then
      SplitFrom(text[2..], if IsOpener(text[1]) then depth + 1 else depth, current + text[..2])
    else
      var d := if IsCloser(text[0]) && depth > 0 then depth - 1 else depth;
      if IsSpace(text[0]) && d == 0 then Close(current) + SplitFrom(text[1..], d, "")
      else SplitFrom(text[1..], d, current + [text[0]])
  }

  function SplitWords(text: string): seq<string> {
    SplitFrom(text, 0, "")
  }

  lemma SplitStep(text: string, i: nat, depth: nat, current: string)
    requires i < |text|
    ensures
      SplitFrom(text[i..], depth, current) ==
        if text[i] == '$' && i + 1 < |text| then
          SplitFrom(text[i + 2..], if IsOpener(text[i + 1]) then depth + 1 else depth, current + [text[i], text[i + 1]])
        else
          var d := if IsCloser(text[i]) && depth > 0 then depth - 1 else depth;
          if IsSpace(text[i]) && d == 0 then Close(current) + SplitFrom(text[i + 1..], d, "")
          else SplitFrom(text[i + 1..], d, current + [text[i]])
  {
    var s := text[i..];
    assert s[1..] == text[i + 1..];
    if i + 1 < |text| {
      assert s[2..] == text[i + 2..] && s[..2] == [text[i], text[i + 1]];
    }
  }

  method SplitMakeWords(text: string) returns (words: seq<string>)
    ensures words == SplitWords(text)
  {
    words := [];
    var current, depth: nat, index := "", 0, 0;
    assert text[0..] == text;
    while index < |text|
      invariant 0 <= index <= |text|
      invariant SplitWords(text) == words + SplitFrom(text[index..], depth, current)
    {
      var c := text[index];
      SplitStep(text, index, depth, current);
      if c == '$' && index + 1 < |text| {
        var following := text[index + 1];
        current := current + [c, following];
        if IsOpener(following) {
          depth := depth + 1;
        }
        index := index + 2;
        continue;
      }
      if IsCloser(c) && depth > 0 {
        depth := depth - 1;
      }
      if IsSpace(c) && depth == 0 {
        Assoc(words, Close(current), SplitFrom(text[index + 1..], depth, ""));
        if current != "" {
          words := words + [current];
          current := "";
        }
      } else {
        current := current + [c];
      }
      index := index + 1;
    }
    if current != "" {
      words := words + [current];
    }
  }

  /** Whether some character of `word` stands outside every reference. */
  function HasLiteralFrom(word: string, depth: nat): bool {
    if word == "" then false
    else if word[0] == '$' && |word| > 1 then
      (word[1] == '$' && depth == 0)
      || HasLiteralFrom(word[2..], if IsOpener(word[1]) then depth + 1 else depth)
    else if IsCloser(word[0]) && depth > 0 then HasLiteralFrom(word[1..], depth - 1)
    else depth == 0 || HasLiteralFrom(word[1..], depth)
  }

  predicate HasLiteral(word: string) {
    HasLiteralFrom(word, 0)
  }

  method HasLiteralText(word: string) returns (r: bool)
    ensures r == HasLiteral(word)
  {
    var depth: nat, index := 0, 0;
    assert word[0..] == word;
    while index < |word|
      invariant 0 <= index <= |word|
      invariant HasLiteral(word) == HasLiteralFrom(word[index..], depth)
    {
      var c := word[index];
      assert word[index..][1..] == word[index + 1..];
      if c == '$' && index + 1 < |word| {
        assert word[index..][2..] == word[index + 2..];
        var following := word[index + 1];
        if following == '$' && depth == 0 {
          return true;
        }
        if IsOpener(following) {
          depth := depth + 1;
        }
        index := index + 2;
        continue;
      }
      if IsCloser(c) && depth > 0 {
        depth := depth - 1;
      } else if depth == 0 {
        return true;
      }
      index := index + 1;
    }
    return false;
  }

  // ---- normal form of the split ----

  function Concat(words: seq<string>): string {
    if words == [] then "" else words[0] + Concat(words[1..])
  }

  /** `text` without its whitespace at depth zero. */
  function DropOuterSpace(text: string, depth: nat): string {
    if text == "" then ""
    else if text[0] == '$' && |text| > 1 then
      text[..2] + DropOuterSpace(text[2..], if IsOpener(text[1]) then depth + 1 else depth)
    else
      var d := if IsCloser(text[0]) && depth > 0 then depth - 1 else depth;
      (if IsSpace(text[0]) && d == 0 then "" else [text[0]]) + DropOuterSpace(text[1..], d)
  }

  lemma ConcatClose(word: string, words: seq<string>)
    ensures Concat(Close(word) + words) == word + Concat(words)
  {
    if word != "" {
      assert ([word] + words)[1..] == words;
    } else {
      assert Close(word) + words == words;
      assert word + Concat(words) == Concat(words);
    }
  }

  /** Splitting loses exactly the whitespace outside references, and nothing moves. */
  lemma {:induction false} SplitLosesOnlyOuterSpace(text: string, depth: nat, current: string)
    ensures Concat(SplitFrom(text, depth, current)) == current + DropOuterSpace(text, depth)
  {
    if text == "" {
      ConcatClose(current, []);
      assert Close(current) + [] == Close(current);
    } else if text[0] == '$' && |text| > 1 {
      var d := if IsOpener(text[1]) then depth + 1 else depth;
      SplitLosesOnlyOuterSpace(text[2..], d, current + text[..2]);
      Assoc(current, text[..2], DropOuterSpace(text[2..], d));
    } else {
      var d := if IsCloser(text[0]) && depth > 0 then depth - 1 else depth;
      if IsSpace(text[0]) && d == 0 {
        SplitLosesOnlyOuterSpace(text[1..], d, "");
        ConcatClose(current, SplitFrom(text[1..], d, ""));
        assert "" + DropOuterSpace(text[1..], d) == DropOuterSpace(text[1..], d);
      } else {
        SplitLosesOnlyOuterSpace(text[1..], d, current + [text[0]]);
        Assoc(current, [text[0]], DropOuterSpace(text[1..], d));
      }
    }
  }

  /** The depth after `word`, or `None` if it holds whitespace at depth zero or ends in a lone `$`. */
  function Run(word: string, depth: nat): Option<nat> {
    if word == "" then Some(depth)
    else if word[0] == '$' then
      if |word| == 1 then None else Run(word[2..], if IsOpener(word[1]) then depth + 1 else depth)
    else
      var d := if IsCloser(word[0]) && depth > 0 then depth - 1 else depth;
      if IsSpace(word[0]) && d == 0 then None else Run(word[1..], d)
  }

  lemma {:induction false} RunAppend(a: string, b: string, depth: nat)
    requires Run(a, depth).Some?
    ensures Run(a + b, depth) == Run(b, Run(a, depth).value)
  {
    if a == "" {
      assert a + b == b;
    } else if a[0] == '$' {
      assert (a + b)[2..] == a[2..] + b;
      RunAppend(a[2..], b, if IsOpener(a[1]) then depth + 1 else depth);
    } else {
      assert (a + b)[1..] == a[1..] + b;
      RunAppend(a[1..], b, if IsCloser(a[0]) && depth > 0 then depth - 1 else depth);
    }
  }

  /** A stretch without outer whitespace is swallowed whole into the current word. */
  lemma {:induction false} SplitRun(word: string, rest: string, depth: nat, current: string)
    requires Run(word, depth).Some?
    ensures SplitFrom(word + rest, depth, current) == SplitFrom(rest, Run(word, depth).value, current + word)
  {
    var s := word + rest;
    if word == "" {
      assert s == rest && current + word == current;
    } else if word[0] == '$' {
      var d := if IsOpener(word[1]) then depth + 1 else depth;
      assert s[2..] == word[2..] + rest && s[..2] == word[..2];
      assert current + word == (current + word[..2]) + word[2..];
      SplitRun(word[2..], rest, d, current + word[..2]);
    } else {
      var d := if IsCloser(word[0]) && depth > 0 then depth - 1 else depth;
      assert s[1..] == word[1..] + rest && s[0] == word[0];
      assert current + word == (current + [word[0]]) + word[1..];
      SplitRun(word[1..], rest, d, current + [word[0]]);
    }
  }

  function JoinWords(words: seq<string>): string {
    if words == [] then "" else if |words| == 1 then words[0] else words[0] + " " + JoinWords(words[1..])
  }

  lemma {:induction false} NoEmptyWord(text: string, depth: nat, current: string)
    ensures "" !in SplitFrom(text, depth, current)
  {
    if text == "" {
    } else if text[0] == '$' && |text| > 1 {
      NoEmptyWord(text[2..], if IsOpener(text[1]) then depth + 1 else depth, current + text[..2]);
    } else {
      var d := if IsCloser(text[0]) && depth > 0 then depth - 1 else depth;
      NoEmptyWord(text[1..], d, if IsSpace(text[0]) && d == 0 then "" else current + [text[0]]);
    }
  }

  /** The words after a completed one, joined back behind it. */
  lemma SplitJoinCons(word: string, words: seq<string>)
    requires word != "" && Run(word, 0) == Some(0)
    requires SplitWords(JoinWords(words)) == words
    ensures SplitWords(JoinWords([word] + words)) == [word] + words
  {
    if words == [] {
      SplitRun(word, "", 0, "");
      assert word + "" == word && "" + word == word;
    } else {
      assert ([word] + words)[1..] == words;
      var tail := JoinWords(words);
      var s := " " + tail;
      assert JoinWords([word] + words) == word + s;
      SplitRun(word, s, 0, "");
      assert "" + word == word && s[1..] == tail;
    }
  }

  /** Splitting is a normal form: words joined by single spaces split into the same words. */
  lemma {:induction false} SplitNormalForm(text: string, depth: nat, current: string)
    requires Run(current, 0) == Some(depth)
    ensures SplitWords(JoinWords(SplitFrom(text, depth, current))) == SplitFrom(text, depth, current)
  {
    if text == "" {
      if current != "" {
        SplitRun(current, "", 0, "");
        assert current + "" == current && "" + current == current;
      }
    } else if text[0] == '$' && |text| > 1 {
      RunAppend(current, text[..2], 0);
      assert text[..2][2..] == "";
      SplitNormalForm(text[2..], if IsOpener(text[1]) then depth + 1 else depth, current + text[..2]);
    } else if text == "$" {
      SplitRun(current, text, 0, "");
      assert "" + current == current && text[1..] == "" && current + [text[0]] == current + text;
    } else {
      var d := if IsCloser(text[0]) && depth > 0 then depth - 1 else depth;
      if IsSpace(text[0]) && d == 0 {
        SplitNormalForm(text[1..], 0, "");
        if current != "" {
          SplitJoinCons(current, SplitFrom(text[1..], 0, ""));
        } else {
          assert Close(current) + SplitFrom(text[1..], 0, "") == SplitFrom(text[1..], 0, "");
        }
      } else {
        RunAppend(current, [text[0]], 0);
        assert [text[0]][1..] == "";
        SplitNormalForm(text[1..], d, current + [text[0]]);
      }
    }
  }
}
