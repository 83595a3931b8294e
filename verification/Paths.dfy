/** `pathlib.PurePosixPath`, as far as the tools look at it. */
module Paths {
  import opened Strings

  predicate IsAbsolute(path: string) { StartsWith(path, "/") }

  predicate IsPart(component: string) { component != "" && component != "." }

  function PartsOf(components: seq<string>): seq<string> {
    if components == [] then []
    else (if IsPart(components[0]) then [components[0]] else []) + PartsOf(components[1..])
  }

  /** `PurePosixPath(path).parts` of a relative path. */
  function Parts(path: string): seq<string> { PartsOf(SplitOn(path, '/')) }

  /** `PurePosixPath(path).as_posix()` of a relative path. */
  function AsPosix(path: string): string {
    if Parts(path) == [] then "." else JoinOn(Parts(path), '/')
  }

  lemma {:induction false} PartsAreComponents(components: seq<string>)
    ensures forall p :: p in PartsOf(components) <==> p in components && IsPart(p)
    ensures |PartsOf(components)| <= |components|
    ensures PartsOf(components) == components <==> forall c <- components :: IsPart(c)
  {
    if components != [] {
      PartsAreComponents(components[1..]);
      assert components == [components[0]] + components[1..];
      if !IsPart(components[0]) {
        assert |PartsOf(components)| < |components|;
      }
    }
  }

  /** A path is in its normal form exactly when none of its components is empty or a dot. */
  lemma NormalIff(path: string)
    ensures path != "." ==> (AsPosix(path) == path <==> forall c <- SplitOn(path, '/') :: IsPart(c))
  {
    var components := SplitOn(path, '/');
    SplitJoins(path, '/');
    PartsAreComponents(components);
    if AsPosix(path) == path && Parts(path) != [] {
      forall p <- Parts(path)
        ensures '/' !in p
      {
        assert p in components;
      }
      JoinSplits(Parts(path), '/');
    }
  }
}
