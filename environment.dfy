/**
 * What the pipeline sees of the world, fixed for one run: glob expansion,
 * the files that can be opened and their bytes, the hex digest functions,
 * and the paths that can be opened for writing.
 */
module Environment {
  import opened Results
  import opened Hashing

  newtype Byte = x: int | 0 <= x < 256

  /**
   * `glob` stands for `glob.glob`; a path missing from `files` is one whose
   * `open(path, "rb")` raises; `digest(a, b)` stands for `hexdigest()` of
   * algorithm `a` over bytes `b`; `writable` holds the paths
   * `open(path, "w")` succeeds on.
   */
  datatype Env = Env(
    glob: string -> seq<string>,
    files: map<string, seq<Byte>>,
    digest: (Algorithm, seq<Byte>) -> string,
    writable: set<string>)

  /** Hex digests hold no newline. */
  ghost predicate NewlineFreeDigests(env: Env)
  {
    forall a, b :: '\n' !in env.digest(a, b)
  }

  /** How a run ends: its exit status and what it wrote to the output file, if anything. */
  datatype Exit = Exit(status: int, written: Option<string>)

  /**
   * Every path matched by the patterns, pattern after pattern, each in glob
   * order: a path is in the list exactly when some pattern matches it.
   */
  function AllMatches(env: Env, patterns: seq<string>): (r: seq<string>)
    ensures forall i, f :: 0 <= i < |patterns| && f in env.glob(patterns[i]) ==> f in r
    ensures forall f :: f in r ==> exists i :: 0 <= i < |patterns| && f in env.glob(patterns[i])
  {
    if patterns == [] then []
    else AllMatches(env, patterns[..|patterns| - 1]) + env.glob(patterns[|patterns| - 1])
  }

  /** The matches of a concatenation of pattern lists are the concatenated matches. */
  lemma {:induction false} AllMatchesAppend(env: Env, a: seq<string>, b: seq<string>)
    ensures AllMatches(env, a + b) == AllMatches(env, a) + AllMatches(env, b)
  {
    if b != [] {
      assert (a + b)[..|a + b| - 1] == a + b[..|b| - 1];
      AllMatchesAppend(env, a, b[..|b| - 1]);
    } else {
      assert a + b == a;
    }
  }

  /** A pattern that matches nothing can be dropped from anywhere in the list. */
  lemma EmptyPatternMatchesNothing(env: Env, a: seq<string>, p: string, b: seq<string>)
    requires env.glob(p) == []
    ensures AllMatches(env, a + [p] + b) == AllMatches(env, a + b)
  {
    AllMatchesAppend(env, a + [p], b);
    AllMatchesAppend(env, a, [p]);
    AllMatchesAppend(env, a, b);
    assert AllMatches(env, [p]) == AllMatches(env, []) + env.glob(p);
  }
}
