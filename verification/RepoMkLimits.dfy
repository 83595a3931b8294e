/** A backslash that ends the file is credited as a prerequisite, so acceptance can be lost by appending a line. */
module RepoMkLimits {
  import opened Strings
  import opened MakeLines
  import opened MakeWords
  import opened MakeVariables
  import opened MakeSyntax
  import opened RepoMk
  import opened RepoMkRules

  // ---- the example ----

  lemma BackslashIsProven()
    ensures Proven(SpaceBars(" \\"), map[], {}) == ["\\"] && Proven(SpaceBars("  "), map[], {}) == []
  {
    assert " \\"[1..] == "\\" && "\\"[1..] == "" && "  "[1..] == " " && " "[1..] == "";
    assert SpaceBars("\\") == "\\" && SpaceBars(" ") == " ";
    assert SpaceBars(" \\") == " \\" && SpaceBars("  ") == "  ";
    assert SplitFrom("", 0, "\\") == ["\\"] && "" + ["\\"[0]] == "\\";
    assert SplitFrom("\\", 0, "") == ["\\"];
    assert SplitFrom(" ", 0, "") == [];
    assert SplitWords(" \\") == ["\\"];
    assert SplitWords("  ") == [];
    assert ProvenWords(["\\"], map[], {}) == ProvenWord("\\", map[], {}) + ProvenWords([], map[], {});
  }

  lemma Uncut(s: string, c: char)
    requires |s| == 2 && c != s[0] && c != s[1]
    ensures CutAt(s, c) == s
  {
    assert s[1..][1..] == "" && CutAt("", c) == "";
    assert CutAt(s[1..], c) == [s[1]];
  }

  lemma LeafOf(name: string)
    requires name in REQUIRED_LEAVES && !IsSpecial(name)
    ensures LeavesOf([name]) == {name}
  {
    assert Ordinary([name][1..]) == [];
    assert Ordinary([name]) == [name];
  }

  lemma CreditOf(name: string, after: string)
    requires name in REQUIRED_LEAVES && !IsSpecial(name)
    requires |after| == 2 && forall i :: 0 <= i < 2 ==> after[i] != ';' && after[i] != '#' && after[i] != '='
    ensures Credited(Target(Rule([name], after)), START, [])
         == if Proven(SpaceBars(after), map[], {}) != [] then {name} else {}
  {
    Uncut(after, ';');
    Uncut(after, '#');
    LeafOf(name);
  }

  lemma OneLogicalLine(line: string, rest: seq<string>, logical: string)
    requires Extend(line, rest) == (logical, |rest|)
    ensures ImplementedIn([line] + rest) == Credited(LineOf(logical, '\t'), START, [])
  {
    var lines := [line] + rest;
    assert lines[0..] == lines && lines[1..] == rest && lines[1 + |rest|..] == [];
    LeavesStep(lines, 0, START, logical, 1 + |rest|);
  }

  lemma LoneLine(line: string, rest: seq<string>, name: string, after: string)
    requires SimpleRule(name, after)
    requires Extend(line, rest) == (RuleText(name, after), |rest|)
    ensures ImplementedIn([line] + rest) == Credited(Target(Rule([name], after)), START, [])
  {
    OneLogicalLine(line, rest, RuleText(name, after));
    LineReads(name, after);
  }

  lemma SlashedLine(line: string)
    requires line == "repo-test: \\"
    ensures Extend(line, []) == (RuleText("repo-test", " \\"), 0)
    ensures Extend(line, [""]) == (RuleText("repo-test", "  "), 1)
  {
    assert line == RuleText("repo-test", " \\");
    assert Unslash(line) + "" == RuleText("repo-test", "  ");
    assert [""][1..] == [];
    assert Extend(Unslash(line) + "", []) == (Unslash(line) + "", 0);
  }

  /** `repo-test: \` at the end of a file is credited, for the backslash; with a line behind it the rule is
      empty and is not. A blank line behind it does not help: the projection drops it. */
  lemma TrailingBackslashIsCredited(line: string)
    requires line == "repo-test: \\"
    ensures DropLastBlank([line, ""]) == [line] && !EndsContinued([line, ""])
    ensures ImplementedIn([line]) == {"repo-test"} && ImplementedIn([line, ""]) == {}
  {
    SlashedLine(line);
    assert IsName("repo-test") && "repo-test" == REQUIRED_LEAVES[3];
    LoneLine(line, [], "repo-test", " \\");
    LoneLine(line, [""], "repo-test", "  ");
    assert [line] + [] == [line] && [line] + [""] == [line, ""];
    CreditOf("repo-test", " \\");
    CreditOf("repo-test", "  ");
    BackslashIsProven();
  }
}
