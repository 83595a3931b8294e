/** The two things that stop the analyser from following references: the cycle guard and the depth cap. */
module MakeVariableBounds {
  import opened Ordering
  import opened MakeWords
  import opened MakeVariables

  /** Refusing more names proves fewer words, and keeps the order of those that remain. */
  lemma {:induction false} ResolvingMoreProvesLess(text: string, vars: Variables, small: set<string>,
      large: set<string>)
    requires small <= large
    ensures Subsequence(Proven(text, vars, large), Proven(text, vars, small))
    decreases Budget(small), 2, 0
  {
    ResolvingMoreProvesLessWords(SplitWords(text), vars, small, large);
  }

  lemma {:induction false} ResolvingMoreProvesLessWords(words: seq<string>, vars: Variables, small: set<string>,
      large: set<string>)
    requires small <= large
    ensures Subsequence(ProvenWords(words, vars, large), ProvenWords(words, vars, small))
    decreases Budget(small), 1, |words|
  {
    if words != [] {
      ResolvingMoreProvesLessWord(words[0], vars, small, large);
      ResolvingMoreProvesLessWords(words[1..], vars, small, large);
      SubsequenceConcat(ProvenWord(words[0], vars, large), ProvenWord(words[0], vars, small),
                        ProvenWords(words[1..], vars, large), ProvenWords(words[1..], vars, small));
    }
  }

  lemma {:induction false} ResolvingMoreProvesLessWord(word: string, vars: Variables, small: set<string>,
      large: set<string>)
    requires small <= large
    ensures Subsequence(ProvenWord(word, vars, large), ProvenWord(word, vars, small))
    decreases Budget(small), 0, 0
  {
    var name := ReferenceName(word);
    Smaller(small, large);
    SubsequenceSelf(ProvenWord(word, vars, large));
    if !HasLiteral(word) && Resolvable(name, vars, large) && vars[name.value].Deferred? {
      Smaller(small + {name.value}, large + {name.value});
      ResolvingMoreProvesLess(vars[name.value].raw, vars, small + {name.value}, large + {name.value});
    }
  }

  lemma Smaller<T>(a: set<T>, b: set<T>)
    requires a <= b
    ensures |a| <= |b|
    ensures |a| == |b| ==> a == b
  {
    var rest := b - a;
    assert b == a + rest;
  }

  /** The analysis with the cycle guard alone. */
  function Uncapped(text: string, vars: Variables, resolving: set<string>): seq<string>
    decreases |vars.Keys - resolving|, 2, 0
  {
    UncappedWords(SplitWords(text), vars, resolving)
  }

  function UncappedWords(words: seq<string>, vars: Variables, resolving: set<string>): seq<string>
    decreases |vars.Keys - resolving|, 1, |words|
  {
    if words == [] then [] else UncappedWord(words[0], vars, resolving) + UncappedWords(words[1..], vars, resolving)
  }

  function UncappedWord(word: string, vars: Variables, resolving: set<string>): seq<string>
    decreases |vars.Keys - resolving|, 0, 0
  {
    var name := ReferenceName(word);
    if HasLiteral(word) then [word]
    else if name.None? || name.value !in vars || name.value in resolving then []
    else match vars[name.value]
      case Evaluated(tokens) => tokens
      case Deferred(raw) =>
        Smaller(vars.Keys - (resolving + {name.value}), (vars.Keys - resolving) - {name.value});
        Uncapped(raw, vars, resolving + {name.value})
  }

  /** With at most sixteen variables the cap is never reached: the cycle guard stops first. */
  lemma {:induction false} CapInvisible(text: string, vars: Variables, resolving: set<string>)
    requires |vars| <= MAX_REFERENCE_DEPTH && resolving <= vars.Keys
    ensures Proven(text, vars, resolving) == Uncapped(text, vars, resolving)
    decreases Budget(resolving), 2, 0
  {
    CapInvisibleWords(SplitWords(text), vars, resolving);
  }

  lemma {:induction false} CapInvisibleWords(words: seq<string>, vars: Variables, resolving: set<string>)
    requires |vars| <= MAX_REFERENCE_DEPTH && resolving <= vars.Keys
    ensures ProvenWords(words, vars, resolving) == UncappedWords(words, vars, resolving)
    decreases Budget(resolving), 1, |words|
  {
    if words != [] {
      CapInvisibleWord(words[0], vars, resolving);
      CapInvisibleWords(words[1..], vars, resolving);
    }
  }

  lemma {:induction false} CapInvisibleWord(word: string, vars: Variables, resolving: set<string>)
    requires |vars| <= MAX_REFERENCE_DEPTH && resolving <= vars.Keys
    ensures ProvenWord(word, vars, resolving) == UncappedWord(word, vars, resolving)
    decreases Budget(resolving), 0, 0
  {
    var name := ReferenceName(word);
    if !HasLiteral(word) && name.Some? && name.value in vars && name.value !in resolving {
      Smaller(resolving + {name.value}, vars.Keys);
      assert |resolving + {name.value}| == |resolving| + 1;
      if vars[name.value].Deferred? {
        CapInvisible(vars[name.value].raw, vars, resolving + {name.value});
      }
    }
  }
}
