/**
 Backslash continuations of a Make fragment. The analyser joins them in two places:
 `_logical_lines` with a buffer, and the leaf scan with an index. Both are specified here,
 and shown to agree except on a continuation that the end of the file cuts short.
 */
module MakeLines {
  import opened Strings

  datatype Logical = Logical(start: nat, text: string)

  predicate Continued(line: string) {
    line != "" && line[|line| - 1] == '\\'
  }

  function Unslash(line: string): (r: string)
    requires Continued(line)
    ensures |r| == |line| && !Continued(r)
  {
    line[..|line| - 1] + " "
  }

  predicate EndsContinued(lines: seq<string>) {
    lines != [] && Continued(lines[|lines| - 1])
  }

  /** The buffered joiner, from physical line `number` on. */
  function JoinFrom(lines: seq<string>, number: nat, buffer: string, start: nat): seq<Logical> {
    if lines == [] then
      if buffer == "" then [] else [Logical(start, buffer)]
    else
      var first := if buffer == "" then number else start;
      if Continued(lines[0]) then JoinFrom(lines[1..], number + 1, buffer + Unslash(lines[0]), first)
      else [Logical(first, buffer + lines[0])] + JoinFrom(lines[1..], number + 1, "", first)
  }

  function Joined(lines: seq<string>): seq<Logical> {
    JoinFrom(lines, 1, "", 0)
  }

  lemma JoinStep(lines: seq<string>, i: nat, number: nat, buffer: string, start: nat)
    requires i < |lines|
    ensures
      var first := if buffer == "" then number else start;
      JoinFrom(lines[i..], number, buffer, start) ==
        if Continued(lines[i]) then JoinFrom(lines[i + 1..], number + 1, buffer + Unslash(lines[i]), first)
        else [Logical(first, buffer + lines[i])] + JoinFrom(lines[i + 1..], number + 1, "", first)
  {
    assert lines[i..][1..] == lines[i + 1..];
  }

  method LogicalLines(text: string) returns (lines: seq<Logical>)
    ensures lines == Joined(Splitlines(text))
  {
    var physical := Splitlines(text);
    lines := [];
    var buffer, start: nat := "", 0;
    assert physical[0..] == physical;
    for number := 0 to |physical|
      invariant Joined(physical) == lines + JoinFrom(physical[number..], number + 1, buffer, start)
    {
      var raw := physical[number];
      JoinStep(physical, number, number + 1, buffer, start);
      if buffer == "" {
        start := number + 1;
      }
      if Continued(raw) {
        buffer := buffer + Unslash(raw);
      } else {
        Assoc(lines, [Logical(start, buffer + raw)], JoinFrom(physical[number + 1..], number + 2, "", start));
        lines := lines + [Logical(start, buffer + raw)];
        buffer := "";
      }
    }
    if buffer != "" {
      lines := lines + [Logical(start, buffer)];
    } else {
      assert lines + [] == lines;
    }
  }

  /** The indexed joiner: `logical` extended by as many of `rest` as it continues onto. */
  function Extend(logical: string, rest: seq<string>): (r: (string, nat))
    ensures r.1 <= |rest|
    decreases |rest|
  {
    if Continued(logical) && rest != [] then
      var (text, used) := Extend(Unslash(logical) + rest[0], rest[1..]);
      (text, used + 1)
    else (logical, 0)
  }

  /** The logical lines the leaf scan visits. */
  function Visited(lines: seq<string>): seq<string> {
    if lines == [] then [] else
    var (logical, used) := Extend(lines[0], lines[1..]);
    [logical] + Visited(lines[1 + used..])
  }

  /** The physical lines behind the `k`-th of them. */
  function Behind(lines: seq<string>, k: nat): seq<string>
    requires k < |Visited(lines)|
    decreases k
  {
    var (_, used) := Extend(lines[0], lines[1..]);
    if k == 0 then lines[1 + used..] else Behind(lines[1 + used..], k - 1)
  }

  function Texts(logicals: seq<Logical>): (r: seq<string>)
    ensures |r| == |logicals|
  {
    if logicals == [] then [] else [logicals[0].text] + Texts(logicals[1..])
  }

  /** A backslash left at the very end becomes a space. */
  function CloseTail(lines: seq<string>): seq<string> {
    if EndsContinued(lines) then lines[..|lines| - 1] + [Unslash(lines[|lines| - 1])] else lines
  }

  /** `Visited`, when `acc` already stands before the first line. */
  function VisitedAfter(acc: string, lines: seq<string>): seq<string>
    requires lines != []
  {
    var (logical, used) := Extend(acc + lines[0], lines[1..]);
    [logical] + Visited(lines[1 + used..])
  }

  lemma VisitedAfterStep(acc: string, lines: seq<string>)
    requires lines != []
    ensures
      var head, rest := acc + lines[0], lines[1..];
      VisitedAfter(acc, lines) ==
        if Continued(head) && rest != [] then VisitedAfter(Unslash(head), rest) else [head] + Visited(rest)
  {
    var head, rest := acc + lines[0], lines[1..];
    if Continued(head) && rest != [] {
      var (_, used) := Extend(Unslash(head) + rest[0], rest[1..]);
      assert rest[1 + used..] == lines[1 + (used + 1)..];
    }
  }

  lemma VisitedIsAfterNothing(lines: seq<string>)
    requires lines != []
    ensures Visited(lines) == VisitedAfter("", lines)
  {
    assert "" + lines[0] == lines[0];
  }

  lemma CloseTailCons(head: string, rest: seq<string>)
    requires rest != []
    ensures CloseTail([head] + rest) == [head] + CloseTail(rest)
    ensures EndsContinued([head] + rest) <==> EndsContinued(rest)
  {
  }

  lemma UnslashTail(acc: string, line: string)
    requires !Continued(acc)
    ensures Continued(acc + line) <==> Continued(line)
    ensures Continued(line) ==> Unslash(acc + line) == acc + Unslash(line)
  {
  }

  lemma {:induction false} JoinersAgreeFrom(acc: string, lines: seq<string>, number: nat, start: nat)
    requires lines != [] && !Continued(acc)
    ensures Texts(JoinFrom(lines, number, acc, start)) == CloseTail(VisitedAfter(acc, lines))
    ensures EndsContinued(VisitedAfter(acc, lines)) <==> EndsContinued(lines)
    decreases |lines|
  {
    var head, rest := acc + lines[0], lines[1..];
    var first := if acc == "" then number else start;
    VisitedAfterStep(acc, lines);
    UnslashTail(acc, lines[0]);
    assert EndsContinued(lines) <==> if rest == [] then Continued(lines[0]) else EndsContinued(rest);
    if Continued(head) {
      if rest != [] {
        JoinersAgreeFrom(Unslash(head), rest, number + 1, first);
      } else {
        assert CloseTail([head]) == [Unslash(head)];
      }
    } else if rest != [] {
      JoinersAgreeFrom("", rest, number + 1, first);
      VisitedIsAfterNothing(rest);
      CloseTailCons(head, Visited(rest));
    }
  }

  /** The two joiners see the same lines, up to a backslash that ends the file. */
  lemma JoinersAgree(lines: seq<string>)
    ensures Texts(Joined(lines)) == CloseTail(Visited(lines))
    ensures EndsContinued(Visited(lines)) <==> EndsContinued(lines)
    ensures Texts(Joined(lines)) == Visited(lines) <==> !EndsContinued(lines)
  {
    if lines != [] {
      JoinersAgreeFrom("", lines, 1, 0);
      VisitedIsAfterNothing(lines);
    }
  }

  function TotalLength(lines: seq<string>): nat {
    if lines == [] then 0 else |lines[0]| + TotalLength(lines[1..])
  }

  /** Joining loses no character: every continuation's backslash becomes one space. */
  lemma {:induction false} JoiningConservesLength(lines: seq<string>, number: nat, buffer: string, start: nat)
    ensures TotalLength(Texts(JoinFrom(lines, number, buffer, start))) == |buffer| + TotalLength(lines)
  {
    if lines == [] {
    } else {
      var first := if buffer == "" then number else start;
      if Continued(lines[0]) {
        JoiningConservesLength(lines[1..], number + 1, buffer + Unslash(lines[0]), first);
      } else {
        JoiningConservesLength(lines[1..], number + 1, "", first);
      }
    }
  }

  /** Starts at least `lo`, below `hi`, each beyond the one before. */
  ghost predicate Increasing(r: seq<Logical>, lo: nat, hi: nat) {
    r == [] || (lo <= r[0].start < hi && Increasing(r[1..], r[0].start + 1, hi))
  }

  /** Logical lines start on strictly increasing physical lines of the file. */
  lemma {:induction false} StartsIncrease(lines: seq<string>, number: nat, buffer: string, start: nat)
    requires buffer != "" ==> start < number
    ensures Increasing(JoinFrom(lines, number, buffer, start), if buffer == "" then number else start, number + |lines|)
  {
    if lines != [] {
      var first := if buffer == "" then number else start;
      if Continued(lines[0]) {
        StartsIncrease(lines[1..], number + 1, buffer + Unslash(lines[0]), first);
      } else {
        StartsIncrease(lines[1..], number + 1, "", first);
        Weaken(JoinFrom(lines[1..], number + 1, "", first), number + 1, first + 1, number + |lines|);
      }
    }
  }

  lemma Weaken(r: seq<Logical>, lo: nat, lower: nat, hi: nat)
    requires lower <= lo && Increasing(r, lo, hi)
    ensures Increasing(r, lower, hi)
  {
  }

  /** A file that does not end in a continuation is joined independently of what follows it. */
  lemma {:induction false} JoinAppend(a: seq<string>, b: seq<string>, number: nat, buffer: string, start: nat)
    requires !EndsContinued(a) && (a == [] ==> buffer == "")
    ensures JoinFrom(a + b, number, buffer, start)
         == JoinFrom(a, number, buffer, start) + JoinFrom(b, number + |a|, "", 0)
  {
    var all := a + b;
    if a == [] {
      assert all == b;
      StartIrrelevant(b, number, start);
    } else {
      assert all[1..] == a[1..] + b && all[0] == a[0];
      var first := if buffer == "" then number else start;
      if Continued(a[0]) {
        JoinAppend(a[1..], b, number + 1, buffer + Unslash(a[0]), first);
      } else {
        JoinAppend(a[1..], b, number + 1, "", first);
        Assoc([Logical(first, buffer + a[0])], JoinFrom(a[1..], number + 1, "", first),
          JoinFrom(b, number + |a|, "", 0));
      }
    }
  }

  lemma StartIrrelevant(lines: seq<string>, number: nat, start: nat)
    ensures JoinFrom(lines, number, "", start) == JoinFrom(lines, number, "", 0)
  {
  }

  lemma {:induction false} NumbersIrrelevant(lines: seq<string>, n: nat, m: nat, buffer: string, s: nat, t: nat)
    ensures Texts(JoinFrom(lines, n, buffer, s)) == Texts(JoinFrom(lines, m, buffer, t))
  {
    if lines != [] {
      var s', t' := if buffer == "" then n else s, if buffer == "" then m else t;
      if Continued(lines[0]) {
        NumbersIrrelevant(lines[1..], n + 1, m + 1, buffer + Unslash(lines[0]), s', t');
      } else {
        NumbersIrrelevant(lines[1..], n + 1, m + 1, "", s', t');
      }
    }
  }
}
