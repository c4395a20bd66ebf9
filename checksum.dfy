/**
 * The current tool (src/checksum.py): split the patterns, checksum every
 * match, collect the pairs into a dict and write one line per entry, showing
 * only the last path component of each filename.
 */
module Checksum {
  import opened Results
  import opened Text
  import opened Hashing
  import opened Environment
  import opened OrderedDict
  import opened Manifest

  /** What `checksum` can raise: `InvalidMethod(method)`, or the error of an `open` that failed. */
  datatype Error = InvalidMethod(methodName: string) | OpenFailure(filename: string)

  /** A list of (filename, checksum) pairs, or the first error raised while building it. */
  type Pairs = Result<seq<(string, string)>, Error>

  /**
   * `checksum(method, filename)`. The file is opened before the method is
   * looked up, so a file that cannot be opened fails with the open error
   * whatever the method; a file that opens fails with `InvalidMethod` exactly
   * when the method is not one of the four names; otherwise the pair holds the
   * filename unchanged and the digest of the file's bytes.
   */
  function FileChecksum(env: Env, methodName: string, filename: string): (r: Result<(string, string), Error>)
    ensures filename !in env.files ==> r == Failure(OpenFailure(filename))
    ensures filename in env.files ==>
      (r == Failure(InvalidMethod(methodName)) <==> methodName !in {"md5", "sha1", "sha256", "sha512"})
    ensures r.Success? <==> filename in env.files && methodName in {"md5", "sha1", "sha256", "sha512"}
    ensures r.Success? ==>
      r.value.0 == filename && r.value.1 == env.digest(MethodFor(methodName).value, env.files[filename])
  {
    if filename !in env.files then Failure(OpenFailure(filename))
    else
      match MethodFor(methodName)
      case None => Failure(InvalidMethod(methodName))
      case Some(a) => Success((filename, env.digest(a, env.files[filename])))
  }

  /**
   * The list that the loop of `checksums` builds over `filenames`: one pair
   * per filename, in order, each holding its filename; the first file that
   * raises ends it with that error.
   */
  function ChecksumAll(env: Env, methodName: string, filenames: seq<string>): (r: Pairs)
    ensures r.Success? ==> |r.value| == |filenames|
    ensures r.Success? ==> forall i :: 0 <= i < |filenames| ==> r.value[i].0 == filenames[i]
  {
    if filenames == [] then Success([])
    else
      match ChecksumAll(env, methodName, filenames[..|filenames| - 1])
      case Failure(e) => Failure(e)
      case Success(pairs) =>
        match FileChecksum(env, methodName, filenames[|filenames| - 1])
        case Failure(e) => Failure(e)
        case Success(p) => Success(pairs + [p])
  }

  /**
   * `checksums(method, pattern)`: the loop over `glob.glob(pattern)` that
   * appends `checksum(method, filename)` for each match.
   */
  method Checksums(env: Env, methodName: string, pattern: string) returns (r: Pairs)
    ensures r == ChecksumAll(env, methodName, env.glob(pattern))
  {
    var filenames := env.glob(pattern);
    var result: seq<(string, string)> := [];
    for i := 0 to |filenames|
      invariant ChecksumAll(env, methodName, filenames[..i]) == Success(result)
    {
      assert filenames[..i + 1][..i] == filenames[..i];
      var c := FileChecksum(env, methodName, filenames[i]);
      if c.Failure? {
        ChecksumAllAppend(env, methodName, filenames[..i + 1], filenames[i + 1..]);
        assert filenames[..i + 1] + filenames[i + 1..] == filenames;
        return Failure(c.error);
      }
      result := result + [c.value];
    }
    assert filenames[..|filenames|] == filenames;
    return Success(result);
  }

  /** Checksumming a concatenation is chaining the two checksum lists. */
  lemma {:induction false} ChecksumAllAppend(env: Env, methodName: string, a: seq<string>, b: seq<string>)
    ensures ChecksumAll(env, methodName, a + b) ==
      Chain(ChecksumAll(env, methodName, a), ChecksumAll(env, methodName, b))
  {
    if b == [] {
      assert a + b == a;
      match ChecksumAll(env, methodName, a)
      case Failure(_) =>
      case Success(p) => assert p + [] == p;
    } else {
      var b' := b[..|b| - 1];
      assert (a + b)[..|a + b| - 1] == a + b';
      assert (a + b)[|a + b| - 1] == b[|b| - 1];
      ChecksumAllAppend(env, methodName, a, b');
      match ChecksumAll(env, methodName, a)
      case Failure(_) =>
      case Success(p) =>
        match ChecksumAll(env, methodName, b')
        case Failure(_) =>
        case Success(q) =>
          match FileChecksum(env, methodName, b[|b| - 1])
          case Failure(_) =>
          case Success(c) => assert p + (q + [c]) == (p + q) + [c];
    }
  }

  /**
   * The list succeeds exactly when every file opens and, if there is any
   * file, the method is one of the four; each pair then holds the filename
   * and the digest of its bytes.
   */
  lemma {:induction false} ChecksumAllSuccess(env: Env, methodName: string, filenames: seq<string>)
    ensures ChecksumAll(env, methodName, filenames).Success? <==>
      (forall i :: 0 <= i < |filenames| ==> filenames[i] in env.files) &&
      (filenames == [] || MethodFor(methodName).Some?)
    ensures ChecksumAll(env, methodName, filenames).Success? ==>
      forall i :: 0 <= i < |filenames| ==>
        ChecksumAll(env, methodName, filenames).value[i] ==
        (filenames[i], env.digest(MethodFor(methodName).value, env.files[filenames[i]]))
  {
    if filenames != [] {
      var pre := filenames[..|filenames| - 1];
      ChecksumAllSuccess(env, methodName, pre);
      assert forall i :: 0 <= i < |pre| ==> pre[i] == filenames[i];
      if ChecksumAll(env, methodName, pre).Success? && pre != [] {
        assert pre[0] in env.files;
      }
    }
  }

  /**
   * Fail-fast: a list that fails carries the error of the first file whose
   * `checksum` raises, every earlier file having succeeded.
   */
  lemma {:induction false} ChecksumAllFailure(env: Env, methodName: string, filenames: seq<string>)
    requires ChecksumAll(env, methodName, filenames).Failure?
    ensures exists j ::
      && 0 <= j < |filenames|
      && (forall i :: 0 <= i < j ==> FileChecksum(env, methodName, filenames[i]).Success?)
      && FileChecksum(env, methodName, filenames[j]) == Failure(ChecksumAll(env, methodName, filenames).error)
  {
    var pre := filenames[..|filenames| - 1];
    assert forall i :: 0 <= i < |pre| ==> pre[i] == filenames[i];
    if ChecksumAll(env, methodName, pre).Failure? {
      ChecksumAllFailure(env, methodName, pre);
    } else {
      ChecksumAllSuccess(env, methodName, pre);
      assert forall i :: 0 <= i < |pre| ==> FileChecksum(env, methodName, filenames[i]).Success?;
    }
  }

  /**
   * `chain.from_iterable(map(checksums, [method] * len(patterns), patterns))`
   * forced by `list`: the per-pattern lists in pattern order; the first
   * pattern whose list fails ends it.
   */
  function ChecksumsAcross(env: Env, methodName: string, patterns: seq<string>): (r: Pairs)
    ensures r.Success? ==> |r.value| == |AllMatches(env, patterns)|
    ensures r.Success? ==> forall i :: 0 <= i < |r.value| ==> r.value[i].0 == AllMatches(env, patterns)[i]
  {
    if patterns == [] then Success([])
    else
      Chain(ChecksumsAcross(env, methodName, patterns[..|patterns| - 1]),
            ChecksumAll(env, methodName, env.glob(patterns[|patterns| - 1])))
  }

  /** Chaining the per-pattern lists is checksumming all matches in one list. */
  lemma {:induction false} ChecksumsAcrossFlat(env: Env, methodName: string, patterns: seq<string>)
    ensures ChecksumsAcross(env, methodName, patterns) ==
      ChecksumAll(env, methodName, AllMatches(env, patterns))
  {
    if patterns != [] {
      var pre := patterns[..|patterns| - 1];
      ChecksumsAcrossFlat(env, methodName, pre);
      ChecksumAllAppend(env, methodName, AllMatches(env, pre), env.glob(patterns[|patterns| - 1]));
    }
  }

  /** The result for two pattern lists in a row is the first's pairs followed by the second's. */
  lemma ChecksumsAcrossAppend(env: Env, methodName: string, a: seq<string>, b: seq<string>)
    ensures ChecksumsAcross(env, methodName, a + b) ==
      Chain(ChecksumsAcross(env, methodName, a), ChecksumsAcross(env, methodName, b))
  {
    ChecksumsAcrossFlat(env, methodName, a + b);
    ChecksumsAcrossFlat(env, methodName, a);
    ChecksumsAcrossFlat(env, methodName, b);
    AllMatchesAppend(env, a, b);
    ChecksumAllAppend(env, methodName, AllMatches(env, a), AllMatches(env, b));
  }

  /** A pattern with no matches contributes nothing, wherever it stands. */
  lemma EmptyPatternContributesNothing(env: Env, methodName: string, a: seq<string>, p: string, b: seq<string>)
    requires env.glob(p) == []
    ensures ChecksumsAcross(env, methodName, a + [p] + b) == ChecksumsAcross(env, methodName, a + b)
  {
    ChecksumsAcrossFlat(env, methodName, a + [p] + b);
    ChecksumsAcrossFlat(env, methodName, a + b);
    EmptyPatternMatchesNothing(env, a, p, b);
  }

  /**
   * The `dict(...)` of `main`: the chained pairs collapsed into a dict. It
   * fails exactly when chaining does, with the same error; it has no more
   * entries than there are matches, and at least one when anything matched.
   */
  function Aggregate(env: Env, methodName: string, patterns: seq<string>): (r: Result<seq<(string, string)>, Error>)
    ensures r.Failure? <==> ChecksumsAcross(env, methodName, patterns).Failure?
    ensures r.Failure? ==> r.error == ChecksumsAcross(env, methodName, patterns).error
    ensures r.Success? ==> |r.value| <= |AllMatches(env, patterns)|
    ensures r.Success? ==> (|r.value| == 0 <==> |AllMatches(env, patterns)| == 0)
  {
    match ChecksumsAcross(env, methodName, patterns)
    case Failure(e) => Failure(e)
    case Success(pairs) => Success(FromPairs(pairs))
  }

  /**
   * The keys of the aggregated dict are exactly the matched filenames, each
   * once, in the order of their first match.
   */
  lemma AggregateKeys(env: Env, methodName: string, patterns: seq<string>)
    requires Aggregate(env, methodName, patterns).Success?
    ensures forall k :: k in Keys(Aggregate(env, methodName, patterns).value) <==> k in AllMatches(env, patterns)
    ensures Distinct(Keys(Aggregate(env, methodName, patterns).value))
    ensures |Aggregate(env, methodName, patterns).value| == |set f | f in AllMatches(env, patterns)|
    ensures forall i, j :: 0 <= i < j < |Aggregate(env, methodName, patterns).value| ==>
      Position(AllMatches(env, patterns), Aggregate(env, methodName, patterns).value[i].0) <
      Position(AllMatches(env, patterns), Aggregate(env, methodName, patterns).value[j].0)
  {
    var matches := AllMatches(env, patterns);
    var pairs := ChecksumsAcross(env, methodName, patterns).value;
    var d := FromPairs(pairs);
    ChecksumsAcrossFlat(env, methodName, patterns);
    assert Keys(pairs) == matches;
    forall k ensures k in Keys(d) <==> k in matches {
      FromPairsKeys(pairs, k);
    }
    FromPairsDistinct(pairs);
    FromPairsSize(pairs);
    FromPairsOrder(pairs);
  }

  /**
   * Each key of the aggregated dict takes the value of its LAST pair; since
   * a file's digest depends only on its bytes, that is the digest of the file.
   */
  lemma AggregateValues(env: Env, methodName: string, patterns: seq<string>)
    requires Aggregate(env, methodName, patterns).Success?
    ensures forall k ::
      Get(Aggregate(env, methodName, patterns).value, k) == LastValue(ChecksumsAcross(env, methodName, patterns).value, k)
    ensures forall i :: 0 <= i < |Aggregate(env, methodName, patterns).value| ==>
      var e := Aggregate(env, methodName, patterns).value[i];
      && MethodFor(methodName).Some? && e.0 in env.files
      && e.1 == env.digest(MethodFor(methodName).value, env.files[e.0])
  {
    var matches := AllMatches(env, patterns);
    var pairs := ChecksumsAcross(env, methodName, patterns).value;
    var d := FromPairs(pairs);
    ChecksumsAcrossFlat(env, methodName, patterns);
    ChecksumAllSuccess(env, methodName, matches);
    FromPairsDistinct(pairs);
    forall k ensures Get(d, k) == LastValue(pairs, k) {
      FromPairsGet(pairs, k);
    }
    forall i | 0 <= i < |d|
      ensures MethodFor(methodName).Some? && d[i].0 in env.files &&
        d[i].1 == env.digest(MethodFor(methodName).value, env.files[d[i].0])
    {
      GetEntry(d, i);
      LastValueOccurs(pairs, d[i].0);
      var j :| 0 <= j < |pairs| && pairs[j] == (d[i].0, LastValue(pairs, d[i].0).value) &&
        forall j' :: j < j' < |pairs| ==> pairs[j'].0 != d[i].0;
      assert pairs[j] == (matches[j], env.digest(MethodFor(methodName).value, env.files[matches[j]]));
    }
  }

  /**
   * `format_filename`, that is `os.path.basename`: the part after the last
   * `/`. It holds no `/`, it ends the filename, and what precedes it, if
   * anything, ends in `/`.
   */
  function FormatFilename(filename: string): (base: string)
    ensures '/' !in base
    ensures |base| <= |filename| && base == filename[|filename| - |base|..]
    ensures |base| < |filename| ==> filename[|filename| - |base| - 1] == '/'
  {
    filename[RFind(filename, '/') + 1..]
  }

  /** Every character of the shown name comes from the filename. */
  lemma FormatFilenameKeeps(filename: string, c: char)
    requires c !in filename
    ensures c !in FormatFilename(filename)
  {
    var base := FormatFilename(filename);
    assert forall k :: 0 <= k < |base| ==> base[k] == filename[|filename| - |base| + k];
  }

  /** Formatting a formatted name changes nothing. */
  lemma FormatFilenameIdempotent(filename: string)
    ensures FormatFilename(FormatFilename(filename)) == FormatFilename(filename)
  {
    var base := FormatFilename(filename);
    assert RFind(base, '/') == -1;
  }

  /** The directory is dropped: `archive/test.txt` is shown as `test.txt`. */
  lemma FormatFilenameArchive()
    ensures FormatFilename("archive/test.txt") == "test.txt"
  {
    var f := "archive/test.txt";
    var base := FormatFilename(f);
    assert f[7] == '/';
    assert |base| <= 8;
  }

  /** `dir/b.txt` is shown as `b.txt`. */
  lemma FormatFilenameArchiveB()
    ensures FormatFilename("dir/b.txt") == "b.txt" && FormatFilename("a.txt") == "a.txt"
  {
    var f := "dir/b.txt";
    var base := FormatFilename(f);
    assert f[3] == '/';
    assert |base| <= 5;
    assert RFind("a.txt", '/') == -1;
  }

  /**
   * `write_file(checksums, out_file)`: the loop that builds one
   * `f"{checksum} {short_name}\n"` line per entry, then the write, which
   * exits with status 1 when the output file cannot be opened.
   */
  method WriteFile(env: Env, checksums: seq<(string, string)>, outFile: string) returns (e: Exit)
    ensures e == if outFile in env.writable then Exit(0, Some(Render(checksums, FormatFilename))) else Exit(1, None)
  {
    var contents := "";
    for i := 0 to |checksums|
      invariant contents == Render(checksums[..i], FormatFilename)
    {
      var (filename, checksum) := checksums[i];
      var shortName := FormatFilename(filename);
      RenderPrefix(checksums, i, FormatFilename);
      contents := contents + Line(checksum, shortName);
    }
    assert checksums[..|checksums|] == checksums;
    if outFile in env.writable {
      e := Exit(0, Some(contents));
    } else {
      e := Exit(1, None);
    }
  }

  /**
   * A whole run of `main`: exit 1 if aggregation raised, otherwise whatever
   * the write gives. The status is 0 or 1, and the output file is written
   * exactly when it is 0, which needs a writable output path.
   */
  function Run(env: Env, methodName: string, output: string, patterns: string): (e: Exit)
    ensures e.status == 0 || e.status == 1
    ensures e.written.Some? <==> e.status == 0
    ensures e.status == 0 ==> output in env.writable
  {
    match Aggregate(env, methodName, Split(patterns, '\n'))
    case Failure(_) => Exit(1, None)
    case Success(d) =>
      if output in env.writable then Exit(0, Some(Render(d, FormatFilename))) else Exit(1, None)
  }

  /** `main(method, output, verbose, patterns)`. */
  method Command(env: Env, methodName: string, output: string, patterns: string) returns (e: Exit)
    ensures e == Run(env, methodName, output, patterns)
  {
    var pats := Split(patterns, '\n');
    var result := Aggregate(env, methodName, pats);
    if result.Failure? {
      return Exit(1, None);
    }
    e := WriteFile(env, result.value, output);
  }

  /**
   * A run exits 0 exactly when every matched file opens, the method is one of
   * the four (or nothing matched at all), and the output can be written; it
   * then writes the manifest of the aggregated dict. Any other run exits 1
   * and writes nothing.
   */
  lemma RunStatus(env: Env, methodName: string, output: string, patterns: string)
    ensures var matches := AllMatches(env, Split(patterns, '\n'));
      Run(env, methodName, output, patterns).status == 0 <==>
        (forall i :: 0 <= i < |matches| ==> matches[i] in env.files) &&
        (matches == [] || MethodFor(methodName).Some?) &&
        output in env.writable
    ensures Run(env, methodName, output, patterns).status == 0 ==>
      Aggregate(env, methodName, Split(patterns, '\n')).Success? &&
      Run(env, methodName, output, patterns).written ==
        Some(Render(Aggregate(env, methodName, Split(patterns, '\n')).value, FormatFilename))
    ensures Run(env, methodName, output, patterns).status != 0 ==>
      Run(env, methodName, output, patterns) == Exit(1, None)
  {
    var pats := Split(patterns, '\n');
    ChecksumsAcrossFlat(env, methodName, pats);
    ChecksumAllSuccess(env, methodName, AllMatches(env, pats));
  }

  /**
   * An unsupported method is reported only when a file was matched and
   * opened: then the run exits 1 with `InvalidMethod` and writes nothing. When
   * nothing matches, the method is never looked up.
   */
  lemma InvalidMethodRun(env: Env, methodName: string, output: string, patterns: string)
    requires methodName !in {"md5", "sha1", "sha256", "sha512"}
    ensures var matches := AllMatches(env, Split(patterns, '\n'));
      matches != [] && matches[0] in env.files ==>
        Aggregate(env, methodName, Split(patterns, '\n')) == Failure(InvalidMethod(methodName)) &&
        Run(env, methodName, output, patterns) == Exit(1, None)
    ensures var matches := AllMatches(env, Split(patterns, '\n'));
      matches == [] && output in env.writable ==>
        Run(env, methodName, output, patterns) == Exit(0, Some(""))
  {
    var pats := Split(patterns, '\n');
    var matches := AllMatches(env, pats);
    ChecksumsAcrossFlat(env, methodName, pats);
    if matches != [] && matches[0] in env.files {
      ChecksumAllFailure(env, methodName, matches);
    }
  }

  /**
   * Reading back a manifest the tool wrote: when no filename and no digest
   * holds a newline, there is one line per DISTINCT matched filename, in dict
   * order, each `"<digest> <basename>"`, then the empty rest.
   */
  lemma RunLines(env: Env, methodName: string, output: string, patterns: string)
    requires Run(env, methodName, output, patterns).written.Some?
    requires NewlineFreeDigests(env)
    requires forall f :: f in AllMatches(env, Split(patterns, '\n')) ==> '\n' !in f
    ensures var lines := Split(Run(env, methodName, output, patterns).written.value, '\n');
      && |lines| == |set f | f in AllMatches(env, Split(patterns, '\n'))| + 1
      && lines[|lines| - 1] == ""
      && Aggregate(env, methodName, Split(patterns, '\n')).Success?
      && |Aggregate(env, methodName, Split(patterns, '\n')).value| == |lines| - 1
      && forall i :: 0 <= i < |lines| - 1 ==>
           var e := Aggregate(env, methodName, Split(patterns, '\n')).value[i];
           lines[i] == e.1 + " " + FormatFilename(e.0)
  {
    var pats := Split(patterns, '\n');
    RunStatus(env, methodName, output, patterns);
    var d := Aggregate(env, methodName, pats).value;
    AggregateKeys(env, methodName, pats);
    AggregateNewlineFree(env, methodName, pats);
    RenderLines(d, FormatFilename);
  }

  /** Without newlines in digests and matched filenames, no dict entry or shown name holds one. */
  lemma AggregateNewlineFree(env: Env, methodName: string, patterns: seq<string>)
    requires Aggregate(env, methodName, patterns).Success?
    requires NewlineFreeDigests(env)
    requires forall f :: f in AllMatches(env, patterns) ==> '\n' !in f
    ensures forall i :: 0 <= i < |Aggregate(env, methodName, patterns).value| ==>
      var e := Aggregate(env, methodName, patterns).value[i];
      '\n' !in e.1 && '\n' !in FormatFilename(e.0)
  {
    var d := Aggregate(env, methodName, patterns).value;
    AggregateKeys(env, methodName, patterns);
    AggregateValues(env, methodName, patterns);
    forall i | 0 <= i < |d| ensures '\n' !in d[i].1 && '\n' !in FormatFilename(d[i].0) {
      assert Keys(d)[i] == d[i].0;
      FormatFilenameKeeps(d[i].0, '\n');
    }
  }

  /**
   * A pattern matching two readable files, checksummed with sha256: one pair
   * per match, in glob order, each holding the matched name unchanged (the
   * directory of `archive/test1.txt` included).
   */
  lemma TwoMatchesPairs(env: Env, pattern: string, a: string, b: string, data: seq<Byte>)
    requires env.glob(pattern) == [a, b]
    requires a in env.files && b in env.files
    requires env.files[a] == data && env.files[b] == data
    ensures ChecksumAll(env, "sha256", env.glob(pattern)) ==
      Success([(a, env.digest(Sha256, data)), (b, env.digest(Sha256, data))])
    ensures ChecksumsAcross(env, "sha256", [pattern]) ==
      Success([(a, env.digest(Sha256, data)), (b, env.digest(Sha256, data))])
  {
    var h := env.digest(Sha256, data);
    var matches := [a, b];
    var first: seq<(string, string)> := [(a, h)];
    var pairs := [(a, h), (b, h)];
    assert MethodFor("sha256") == Some(Sha256);
    assert matches[..1] == [a];
    assert ChecksumAll(env, "sha256", [a]) == Success(first) by {
      assert [a][..0] == [];
      assert [] + first == first;
    }
    assert ChecksumAll(env, "sha256", matches) == Success(pairs) by {
      assert first + [(b, h)] == pairs;
    }
    assert [pattern][..0] == [];
    assert [] + pairs == pairs;
  }

  /** Two pairs with different keys make a dict of both, in order. */
  lemma FromPairsOfTwo(k1: string, v1: string, k2: string, v2: string)
    requires k1 != k2
    ensures FromPairs([(k1, v1), (k2, v2)]) == [(k1, v1), (k2, v2)]
  {
    var first := [(k1, v1)];
    assert [(k1, v1), (k2, v2)][..1] == first;
    assert first[..0] == [];
    assert FromPairs(first) == first;
    assert Keys(first) == [k1];
    assert [k1][1..] == [];
  }

  /** The manifest text of the `*.txt` run below. */
  lemma TwoMatchesText(h: string)
    ensures Render([("a.txt", h), ("dir/b.txt", h)], FormatFilename) == Line(h, "a.txt") + Line(h, "b.txt")
  {
    var pairs := [("a.txt", h), ("dir/b.txt", h)];
    FormatFilenameArchiveB();
    assert pairs[1..] == [("dir/b.txt", h)];
  }

  /**
   * Pattern `*.txt` matching `a.txt` and `dir/b.txt`, both holding the same
   * bytes, with sha256: two lines with the same digest, shown as `a.txt` and
   * `b.txt`.
   */
  lemma TwoMatchesOneDigest(env: Env, data: seq<Byte>)
    requires env.glob("*.txt") == ["a.txt", "dir/b.txt"]
    requires env.files == map["a.txt" := data, "dir/b.txt" := data]
    requires "checksum.txt" in env.writable
    ensures Run(env, "sha256", "checksum.txt", "*.txt") ==
      Exit(0, Some(Line(env.digest(Sha256, data), "a.txt") + Line(env.digest(Sha256, data), "b.txt")))
  {
    var h := env.digest(Sha256, data);
    var pairs := [("a.txt", h), ("dir/b.txt", h)];
    SplitWithoutSep("*.txt", '\n');
    TwoMatchesPairs(env, "*.txt", "a.txt", "dir/b.txt", data);
    FromPairsOfTwo("a.txt", h, "dir/b.txt", h);
    assert Aggregate(env, "sha256", Split("*.txt", '\n')) == Success(pairs);
    TwoMatchesText(h);
  }
}
