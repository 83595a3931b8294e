/** Sorted sequences of distinct strings, which is what `sorted(set(...))` yields, and subsequences. */
module Ordering {

  /** Lexicographic order by code point. */
  predicate Less(a: string, b: string) {
    b != "" && (a == "" || a[0] < b[0] || (a[0] == b[0] && Less(a[1..], b[1..])))
  }

  lemma {:induction false} LessIsTotal(a: string, b: string)
    ensures !Less(a, a) && (Less(a, b) || Less(b, a) || a == b) && !(Less(a, b) && Less(b, a))
  {
    if a != "" {
      LessIsTotal(a[1..], if b == "" then b else b[1..]);
      if b != "" && a[0] == b[0] && a[1..] == b[1..] {
        assert a == [a[0]] + a[1..] && b == [b[0]] + b[1..];
      }
    }
  }

  lemma {:induction false} LessIsTransitive(a: string, b: string, c: string)
    requires Less(a, b) && Less(b, c)
    ensures Less(a, c)
  {
    if a != "" && a[0] == b[0] && b[0] == c[0] {
      LessIsTransitive(a[1..], b[1..], c[1..]);
    }
  }

  predicate StrictlySorted(xs: seq<string>) {
    forall i, j :: 0 <= i < j < |xs| ==> Less(xs[i], xs[j])
  }

  function Elements(xs: seq<string>): set<string> {
    set x | x in xs
  }

  function Insert(x: string, xs: seq<string>): seq<string> {
    if xs == [] || Less(x, xs[0]) then [x] + xs
    else if x == xs[0] then xs
    else [xs[0]] + Insert(x, xs[1..])
  }

  function SortedUnique(xs: seq<string>): seq<string> {
    if xs == [] then [] else Insert(xs[0], SortedUnique(xs[1..]))
  }

  lemma {:induction false} InsertKeepsOrder(x: string, xs: seq<string>)
    requires StrictlySorted(xs)
    ensures StrictlySorted(Insert(x, xs)) && Elements(Insert(x, xs)) == {x} + Elements(xs)
  {
    if xs == [] {
    } else if Less(x, xs[0]) {
      forall i | 0 <= i < |xs|
        ensures Less(x, xs[i])
      {
        if i > 0 {
          LessIsTransitive(x, xs[0], xs[i]);
        }
      }
    } else {
      LessIsTotal(x, xs[0]);
      if x != xs[0] {
        InsertKeepsOrder(x, xs[1..]);
        var rest := Insert(x, xs[1..]);
        forall i | 0 <= i < |rest|
          ensures Less(xs[0], rest[i])
        {
          assert rest[i] in Elements(rest);
        }
        assert Elements([xs[0]] + rest) == {xs[0]} + Elements(rest);
        assert Elements(xs) == {xs[0]} + Elements(xs[1..]) by {
          assert xs == [xs[0]] + xs[1..];
        }
      }
    }
  }

  /** Sorting keeps exactly the elements, each once. */
  lemma {:induction false} SortedUniqueMeets(xs: seq<string>)
    ensures StrictlySorted(SortedUnique(xs)) && Elements(SortedUnique(xs)) == Elements(xs)
  {
    if xs != [] {
      SortedUniqueMeets(xs[1..]);
      InsertKeepsOrder(xs[0], SortedUnique(xs[1..]));
      assert xs == [xs[0]] + xs[1..];
    }
  }

  lemma HeadIsLeast(xs: seq<string>, x: string)
    requires StrictlySorted(xs) && x in xs
    ensures x == xs[0] || Less(xs[0], x)
  {
  }

  lemma NoElements(xs: seq<string>)
    ensures Elements(xs) == {} <==> xs == []
  {
    assert xs != [] ==> xs[0] in Elements(xs);
  }

  /** A set has one sorted listing. */
  lemma {:induction false} SortedIsUnique(xs: seq<string>, ys: seq<string>)
    requires StrictlySorted(xs) && StrictlySorted(ys) && Elements(xs) == Elements(ys)
    ensures xs == ys
  {
    NoElements(xs);
    NoElements(ys);
    if xs != [] && ys != [] {
      SameHead(xs, ys);
      assert xs == [xs[0]] + xs[1..] && ys == [ys[0]] + ys[1..];
      LessIsTotal(xs[0], xs[0]);
      assert Elements(xs[1..]) == Elements(xs) - {xs[0]};
      assert Elements(ys[1..]) == Elements(ys) - {ys[0]};
      SortedIsUnique(xs[1..], ys[1..]);
    }
  }

  lemma SameHead(xs: seq<string>, ys: seq<string>)
    requires StrictlySorted(xs) && StrictlySorted(ys) && Elements(xs) == Elements(ys) && xs != [] && ys != []
    ensures xs[0] == ys[0]
  {
    assert xs[0] in Elements(ys) && ys[0] in Elements(xs);
    HeadIsLeast(xs, ys[0]);
    HeadIsLeast(ys, xs[0]);
    LessIsTotal(xs[0], ys[0]);
  }

  predicate Distinct(xs: seq<string>) { forall i, j :: 0 <= i < j < |xs| ==> xs[i] != xs[j] }

  lemma DistinctOneMore(xs: seq<string>, x: string)
    ensures Elements(xs + [x]) == Elements(xs) + {x}
    ensures Distinct(xs + [x]) <==> Distinct(xs) && x !in Elements(xs)
  {
    var ys := xs + [x];
    if Distinct(ys) {
      forall i, j | 0 <= i < j < |xs|
        ensures xs[i] != xs[j]
      {
        assert ys[i] != ys[j];
      }
      forall i | 0 <= i < |xs|
        ensures xs[i] != x
      {
        assert ys[i] != ys[|xs|];
      }
    }
  }

  predicate Subsequence<T(==)>(a: seq<T>, b: seq<T>) {
    || a == []
    || (b != [] && (Subsequence(a, b[1..]) || (a[0] == b[0] && Subsequence(a[1..], b[1..]))))
  }

  lemma {:induction false} SubsequenceAfter<T>(a: seq<T>, prefix: seq<T>, b: seq<T>)
    requires Subsequence(a, b)
    ensures Subsequence(a, prefix + b)
  {
    if prefix == [] {
      assert prefix + b == b;
    } else {
      assert (prefix + b)[1..] == prefix[1..] + b;
      SubsequenceAfter(a, prefix[1..], b);
    }
  }

  lemma {:induction false} SubsequenceConcat<T>(a: seq<T>, b: seq<T>, c: seq<T>, d: seq<T>)
    requires Subsequence(a, b) && Subsequence(c, d)
    ensures Subsequence(a + c, b + d)
    decreases |b|
  {
    if a == [] {
      assert a + c == c;
      SubsequenceAfter(c, b, d);
    } else {
      assert (a + c)[1..] == a[1..] + c && (b + d)[1..] == b[1..] + d;
      if Subsequence(a, b[1..]) {
        SubsequenceConcat(a, b[1..], c, d);
      } else {
        SubsequenceConcat(a[1..], b[1..], c, d);
      }
    }
  }

  lemma {:induction false} SubsequenceSelf<T>(a: seq<T>)
    ensures Subsequence(a, a)
  {
    if a != [] {
      SubsequenceSelf(a[1..]);
    }
  }
}
