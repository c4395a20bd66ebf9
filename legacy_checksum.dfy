/**
 * The earlier tool (checksum.py at the repository root): the same pipeline,
 * but an error inside the hashing `try` exits with status 101, the `open`
 * outside that `try` is not caught at all, and the manifest shows the full
 * matched path.
 */
module LegacyChecksum {
  import opened Results
  import opened Text
  import opened Hashing
  import opened Environment
  import opened OrderedDict
  import opened Manifest

  /**
   * How the old tool stops before writing: `exit(status)` from the `except`
   * branch, or the exception of an `open` that nothing catches.
   */
  datatype Stop = Exited(status: int) | Uncaught(filename: string)

  /** A list of (filename, checksum) pairs, or how the run stopped while building it. */
  type Pairs = Result<seq<(string, string)>, Stop>

  /**
   * One pass of the loop in `calculate_checksum`. The `open` comes first and
   * outside the `try`: a file that cannot be opened escapes uncaught. A file
   * that opens with a method outside the table exits with status 101;
   * otherwise the pair holds the filename unchanged and the digest of its bytes.
   */
  function Step(env: Env, methodName: string, filename: string): (r: Result<(string, string), Stop>)
    ensures filename !in env.files ==> r == Failure(Uncaught(filename))
    ensures filename in env.files ==>
      (r == Failure(Exited(101)) <==> methodName !in {"md5", "sha1", "sha256", "sha512"})
    ensures r.Success? <==> filename in env.files && methodName in {"md5", "sha1", "sha256", "sha512"}
    ensures r.Success? ==>
      r.value.0 == filename && r.value.1 == env.digest(MethodFor(methodName).value, env.files[filename])
  {
    if filename !in env.files then Failure(Uncaught(filename))
    else
      match MethodFor(methodName)
      case None => Failure(Exited(101))
      case Some(a) => Success((filename, env.digest(a, env.files[filename])))
  }

  /**
   * The list the loop of `calculate_checksum` builds over `filenames`: one
   * pair per filename, in order, each holding its filename; the first file
   * that stops the run ends it.
   */
  function StepAll(env: Env, methodName: string, filenames: seq<string>): (r: Pairs)
    ensures r.Failure? ==> r.error == Exited(101) || r.error.Uncaught?
    ensures r.Success? ==> |r.value| == |filenames|
    ensures r.Success? ==> forall i :: 0 <= i < |filenames| ==> r.value[i].0 == filenames[i]
  {
    if filenames == [] then Success([])
    else
      match StepAll(env, methodName, filenames[..|filenames| - 1])
      case Failure(e) => Failure(e)
      case Success(pairs) =>
        match Step(env, methodName, filenames[|filenames| - 1])
        case Failure(e) => Failure(e)
        case Success(p) => Success(pairs + [p])
  }

  /** `calculate_checksum(method, pattern)`: the loop over `glob.glob(pattern)`. */
  method CalculateChecksum(env: Env, methodName: string, pattern: string) returns (r: Pairs)
    ensures r == StepAll(env, methodName, env.glob(pattern))
  {
    var filenames := env.glob(pattern);
    var checksums: seq<(string, string)> := [];
    for i := 0 to |filenames|
      invariant StepAll(env, methodName, filenames[..i]) == Success(checksums)
    {
      assert filenames[..i + 1][..i] == filenames[..i];
      var c := Step(env, methodName, filenames[i]);
      if c.Failure? {
        StepAllAppend(env, methodName, filenames[..i + 1], filenames[i + 1..]);
        assert filenames[..i + 1] + filenames[i + 1..] == filenames;
        return Failure(c.error);
      }
      checksums := checksums + [c.value];
    }
    assert filenames[..|filenames|] == filenames;
    return Success(checksums);
  }

  /** Running the loop over a concatenation is chaining the two lists. */
  lemma {:induction false} StepAllAppend(env: Env, methodName: string, a: seq<string>, b: seq<string>)
    ensures StepAll(env, methodName, a + b) == Chain(StepAll(env, methodName, a), StepAll(env, methodName, b))
  {
    if b == [] {
      assert a + b == a;
      match StepAll(env, methodName, a)
      case Failure(_) =>
      case Success(p) => assert p + [] == p;
    } else {
      var b' := b[..|b| - 1];
      assert (a + b)[..|a + b| - 1] == a + b';
      assert (a + b)[|a + b| - 1] == b[|b| - 1];
      StepAllAppend(env, methodName, a, b');
      match StepAll(env, methodName, a)
      case Failure(_) =>
      case Success(p) =>
        match StepAll(env, methodName, b')
        case Failure(_) =>
        case Success(q) =>
          match Step(env, methodName, b[|b| - 1])
          case Failure(_) =>
          case Success(c) => assert p + (q + [c]) == (p + q) + [c];
    }
  }

  /**
   * The list succeeds exactly when every file opens and, if there is any
   * file, the method is in the table; each pair then holds the filename and
   * the digest of its bytes.
   */
  lemma {:induction false} StepAllSuccess(env: Env, methodName: string, filenames: seq<string>)
    ensures StepAll(env, methodName, filenames).Success? <==>
      (forall i :: 0 <= i < |filenames| ==> filenames[i] in env.files) &&
      (filenames == [] || MethodFor(methodName).Some?)
    ensures StepAll(env, methodName, filenames).Success? ==>
      forall i :: 0 <= i < |filenames| ==>
        StepAll(env, methodName, filenames).value[i] ==
        (filenames[i], env.digest(MethodFor(methodName).value, env.files[filenames[i]]))
  {
    if filenames != [] {
      var pre := filenames[..|filenames| - 1];
      StepAllSuccess(env, methodName, pre);
      assert forall i :: 0 <= i < |pre| ==> pre[i] == filenames[i];
      if StepAll(env, methodName, pre).Success? && pre != [] {
        assert pre[0] in env.files;
      }
    }
  }

  /**
   * A list that stops does so at the first file that cannot be opened or,
   * with a method outside the table, at the first file at all: status 101
   * exactly when that first file opens.
   */
  lemma {:induction false} StepAllStop(env: Env, methodName: string, filenames: seq<string>)
    requires StepAll(env, methodName, filenames).Failure?
    ensures StepAll(env, methodName, filenames).error == Exited(101) <==>
      filenames[0] in env.files && MethodFor(methodName).None?
    ensures StepAll(env, methodName, filenames).error != Exited(101) ==>
      exists j ::
        && 0 <= j < |filenames|
        && (forall i :: 0 <= i < j ==> filenames[i] in env.files)
        && StepAll(env, methodName, filenames).error == Uncaught(filenames[j])
  {
    var pre := filenames[..|filenames| - 1];
    assert forall i :: 0 <= i < |pre| ==> pre[i] == filenames[i];
    if StepAll(env, methodName, pre).Failure? {
      StepAllStop(env, methodName, pre);
    } else {
      StepAllSuccess(env, methodName, pre);
      if pre != [] {
        assert pre[0] in env.files;
      }
    }
  }

  /**
   * `chain.from_iterable(map(calculate_checksum, ...))` forced by `list`: a
   * completed list holds one pair per match, in pattern order, each holding
   * its match; a stop is an exit with status 101 or an uncaught open error.
   */
  function Across(env: Env, methodName: string, patterns: seq<string>): (r: Pairs)
    ensures r.Failure? ==> r.error == Exited(101) || r.error.Uncaught?
    ensures r.Success? ==> |r.value| == |AllMatches(env, patterns)|
    ensures r.Success? ==> forall i :: 0 <= i < |r.value| ==> r.value[i].0 == AllMatches(env, patterns)[i]
  {
    if patterns == [] then Success([])
    else
      Chain(Across(env, methodName, patterns[..|patterns| - 1]),
            StepAll(env, methodName, env.glob(patterns[|patterns| - 1])))
  }

  /** Chaining the per-pattern lists is running the loop over all matches at once. */
  lemma {:induction false} AcrossFlat(env: Env, methodName: string, patterns: seq<string>)
    ensures Across(env, methodName, patterns) == StepAll(env, methodName, AllMatches(env, patterns))
  {
    if patterns != [] {
      var pre := patterns[..|patterns| - 1];
      AcrossFlat(env, methodName, pre);
      StepAllAppend(env, methodName, AllMatches(env, pre), env.glob(patterns[|patterns| - 1]));
    }
  }

  /** The old manifest shows each filename as matched, directory included. */
  function FullName(filename: string): string
  {
    filename
  }

  /**
   * A whole run of the old `main`, as an exit status and what it wrote. The
   * status is 0, 1 or 101, and the output file is written exactly when it is
   * 0, which needs a writable output path.
   */
  function Run(env: Env, methodName: string, patterns: string, outputPath: string): (e: Exit)
    ensures e.status == 0 || e.status == 1 || e.status == 101
    ensures e.written.Some? <==> e.status == 0
    ensures e.status == 0 ==> outputPath in env.writable
  {
    match Across(env, methodName, Split(patterns, '\n'))
    case Failure(Exited(status)) => Exit(status, None)
    case Failure(Uncaught(_)) => Exit(1, None)
    case Success(pairs) =>
      if outputPath in env.writable then Exit(0, Some(Render(FromPairs(pairs), FullName)))
      else Exit(1, None)
  }

  /**
   * `main(method, patterns, output_path)`: split, aggregate, the loop that
   * builds one `f"{checksum} {filename}\n"` line per entry, and the write,
   * whose failure escapes uncaught.
   */
  method Command(env: Env, methodName: string, patterns: string, outputPath: string) returns (e: Exit)
    ensures e == Run(env, methodName, patterns, outputPath)
  {
    var pats := Split(patterns, '\n');
    var across := Across(env, methodName, pats);
    if across.Failure? {
      match across.error
      case Exited(status) => return Exit(status, None);
      case Uncaught(_) => return Exit(1, None);
    }
    var checksums := FromPairs(across.value);
    var output := "";
    for i := 0 to |checksums|
      invariant output == Render(checksums[..i], FullName)
    {
      var (filename, checksum) := checksums[i];
      RenderPrefix(checksums, i, FullName);
      output := output + Line(checksum, filename);
    }
    assert checksums[..|checksums|] == checksums;
    if outputPath in env.writable {
      e := Exit(0, Some(output));
    } else {
      e := Exit(1, None);
    }
  }

  /**
   * The old tool's exit statuses: 0 exactly when every matched file opens,
   * the method is in the table (or nothing matched) and the output can be
   * written; 101 exactly when the first match opens but the method is not in
   * the table; 1 for everything else (an uncaught open or write error). Only
   * a run that exits 0 writes, and it writes the full-path manifest.
   */
  lemma RunStatus(env: Env, methodName: string, patterns: string, outputPath: string)
    ensures var matches := AllMatches(env, Split(patterns, '\n'));
      Run(env, methodName, patterns, outputPath).status == 0 <==>
        (forall i :: 0 <= i < |matches| ==> matches[i] in env.files) &&
        (matches == [] || MethodFor(methodName).Some?) &&
        outputPath in env.writable
    ensures var matches := AllMatches(env, Split(patterns, '\n'));
      Run(env, methodName, patterns, outputPath).status == 101 <==>
        matches != [] && matches[0] in env.files && MethodFor(methodName).None?
    ensures Run(env, methodName, patterns, outputPath).status in {0, 1, 101}
    ensures Run(env, methodName, patterns, outputPath).status != 0 ==>
      Run(env, methodName, patterns, outputPath).written == None
    ensures Run(env, methodName, patterns, outputPath).status == 0 ==>
      Across(env, methodName, Split(patterns, '\n')).Success? &&
      Run(env, methodName, patterns, outputPath).written ==
        Some(Render(FromPairs(Across(env, methodName, Split(patterns, '\n')).value), FullName))
  {
    var pats := Split(patterns, '\n');
    var matches := AllMatches(env, pats);
    AcrossFlat(env, methodName, pats);
    StepAllSuccess(env, methodName, matches);
    if StepAll(env, methodName, matches).Failure? {
      StepAllStop(env, methodName, matches);
    }
  }

  /**
   * The keys of the dict the old `main` builds are exactly the matched
   * filenames, each once, in the order of their first match.
   */
  lemma DictKeys(env: Env, methodName: string, patterns: seq<string>)
    requires Across(env, methodName, patterns).Success?
    ensures forall k :: k in Keys(FromPairs(Across(env, methodName, patterns).value)) <==> k in AllMatches(env, patterns)
    ensures Distinct(Keys(FromPairs(Across(env, methodName, patterns).value)))
    ensures |FromPairs(Across(env, methodName, patterns).value)| == |set f | f in AllMatches(env, patterns)|
    ensures forall i, j :: 0 <= i < j < |FromPairs(Across(env, methodName, patterns).value)| ==>
      Position(AllMatches(env, patterns), FromPairs(Across(env, methodName, patterns).value)[i].0) <
      Position(AllMatches(env, patterns), FromPairs(Across(env, methodName, patterns).value)[j].0)
  {
    var matches := AllMatches(env, patterns);
    var pairs := Across(env, methodName, patterns).value;
    var d := FromPairs(pairs);
    AcrossFlat(env, methodName, patterns);
    assert Keys(pairs) == matches;
    forall k ensures k in Keys(d) <==> k in matches {
      FromPairsKeys(pairs, k);
    }
    FromPairsDistinct(pairs);
    FromPairsSize(pairs);
    FromPairsOrder(pairs);
  }

  /**
   * Each key of the old tool's dict takes the value of its LAST pair, and
   * that value is the digest of the file's bytes.
   */
  lemma DictValues(env: Env, methodName: string, patterns: seq<string>)
    requires Across(env, methodName, patterns).Success?
    ensures forall k ::
      Get(FromPairs(Across(env, methodName, patterns).value), k) == LastValue(Across(env, methodName, patterns).value, k)
    ensures forall i :: 0 <= i < |FromPairs(Across(env, methodName, patterns).value)| ==>
      var e := FromPairs(Across(env, methodName, patterns).value)[i];
      && MethodFor(methodName).Some? && e.0 in env.files
      && e.1 == env.digest(MethodFor(methodName).value, env.files[e.0])
  {
    var matches := AllMatches(env, patterns);
    var pairs := Across(env, methodName, patterns).value;
    var d := FromPairs(pairs);
    AcrossFlat(env, methodName, patterns);
    StepAllSuccess(env, methodName, matches);
    FromPairsDistinct(pairs);
    forall k ensures Get(d, k) == LastValue(pairs, k) {
      FromPairsGet(pairs, k);
    }
    forall i | 0 <= i < |d|
      ensures MethodFor(methodName).Some? && d[i].0 in env.files &&
        d[i].1 == env.digest(MethodFor(methodName).value, env.files[d[i].0])
    {
      GetEntry(d, i);
      LastValueOccurs(pairs, d[i].0);
      var j :| 0 <= j < |pairs| && pairs[j] == (d[i].0, LastValue(pairs, d[i].0).value) &&
        forall j' :: j < j' < |pairs| ==> pairs[j'].0 != d[i].0;
      assert pairs[j] == (matches[j], env.digest(MethodFor(methodName).value, env.files[matches[j]]));
    }
  }

  /**
   * Reading back a manifest the old tool wrote: when no filename and no
   * digest holds a newline, there is one line per DISTINCT matched filename,
   * in dict order, each `"<digest> <filename>"` with the full path, then the
   * empty rest.
   */
  lemma RunLines(env: Env, methodName: string, patterns: string, outputPath: string)
    requires Run(env, methodName, patterns, outputPath).written.Some?
    requires NewlineFreeDigests(env)
    requires forall f :: f in AllMatches(env, Split(patterns, '\n')) ==> '\n' !in f
    ensures var lines := Split(Run(env, methodName, patterns, outputPath).written.value, '\n');
      && |lines| == |set f | f in AllMatches(env, Split(patterns, '\n'))| + 1
      && lines[|lines| - 1] == ""
      && Across(env, methodName, Split(patterns, '\n')).Success?
      && |FromPairs(Across(env, methodName, Split(patterns, '\n')).value)| == |lines| - 1
      && forall i :: 0 <= i < |lines| - 1 ==>
           var e := FromPairs(Across(env, methodName, Split(patterns, '\n')).value)[i];
           lines[i] == e.1 + " " + e.0
  {
    var pats := Split(patterns, '\n');
    RunStatus(env, methodName, patterns, outputPath);
    var d := FromPairs(Across(env, methodName, pats).value);
    DictKeys(env, methodName, pats);
    DictNewlineFree(env, methodName, pats);
    RenderLines(d, FullName);
  }

  /** Without newlines in digests and matched filenames, no dict entry holds one. */
  lemma DictNewlineFree(env: Env, methodName: string, patterns: seq<string>)
    requires Across(env, methodName, patterns).Success?
    requires NewlineFreeDigests(env)
    requires forall f :: f in AllMatches(env, patterns) ==> '\n' !in f
    ensures forall i :: 0 <= i < |FromPairs(Across(env, methodName, patterns).value)| ==>
      var e := FromPairs(Across(env, methodName, patterns).value)[i];
      '\n' !in e.1 && '\n' !in FullName(e.0)
  {
    var d := FromPairs(Across(env, methodName, patterns).value);
    DictKeys(env, methodName, patterns);
    DictValues(env, methodName, patterns);
    assert forall i :: 0 <= i < |d| ==> Keys(d)[i] == d[i].0;
  }
}
