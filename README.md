# Checksum manifest generator — a Dafny model

The tool turns a newline-separated list of glob patterns into a checksum
manifest. It splits the argument on `"\n"`, expands each pattern in order,
hashes every matched file with the chosen method (`md5`, `sha1`, `sha256` or
`sha512`), collapses the `(filename, digest)` pairs into an insertion-ordered
dict, and writes one `"<digest> <name>\n"` line per entry. Two versions exist:
`src/checksum.py` (current: exit status 1 on any error, names shown as their
basename) and `checksum.py` (earlier: exit status 101 from inside the hashing
`try`, full paths in the manifest).

The model keeps the pipeline and treats the outside world as given values in
an `Env` (module `Environment`):

- `glob: string -> seq<string>` stands for `glob.glob`. Its matching rules are not modelled.
- `files: map<string, seq<Byte>>` holds the files that `open(path, "rb")` can open, with their bytes. A path missing from it (including a matched directory) is an open failure.
- `digest: (Algorithm, seq<Byte>) -> string` stands for `hashlib.<m>(bytes).hexdigest()`. It is left uninterpreted.
- `writable: set<string>` holds the paths that `open(path, "w")` succeeds on.

A run ends in `Exit(status, written)`: the process exit status, and the text
written to the output file, if any.

Modules:

- `Results`: `Option`, `Result`.
- `Text`: `str.split`, `str.join`, `str.rfind` on strings.
- `OrderedDict`: Python's `dict` as a sequence of entries. `Insert` is `d[k] = v`; `FromPairs` is `dict(pairs)`.
- `Hashing`: the method table.
- `Environment`: the oracles and the flattened glob matches.
- `Manifest`: the manifest text, parameterised by how a filename is shown.
- `Checksum`: `src/checksum.py`.
- `LegacyChecksum`: `checksum.py`.

The loops in the source (`checksums`, `calculate_checksum`, the `+=` loops of
`write_file` and the old `main`) are methods with `for` loops. Each is proved
equal to a specification function, and the properties are proved as lemmas
about those functions. The `map`/`chain`/`dict` aggregation and
`format_filename` are functions.

Three behaviours of the code that are easy to misread:

- The method is looked up per file, after the file is opened. So an unsupported method is never reported when nothing matches: the run writes an empty manifest and exits 0 (`Checksum.InvalidMethodRun`). When the first match cannot be opened, the open error wins.
- In `checksum.py` the `open` is outside the `try`. A match that cannot be opened is therefore an uncaught exception (Python exit status 1), not status 101. In the model, status 101 occurs exactly when the first match opens and the method is unsupported (`LegacyChecksum.RunStatus`); the source also exits 101 on any other exception inside the `try`, such as a read error, which the model does not have.
- Repeated filenames take the value of their last occurrence. Since a digest depends only on the file's bytes, which do not change during a run, that value equals the digest from any earlier occurrence.

Determinism (two runs on the same files give the same manifest) holds by
construction: `Run` is a function of its inputs.

## Model

| member | source | states |
|---|---|---|
| `Text.Split` | src/checksum.py:62 | splitting on `"\n"` gives at least one piece, and no piece holds `"\n"` |
| `Text.JoinSplit` | src/checksum.py:62 | joining the pieces of a split with `"\n"` gives back the pattern argument |
| `Text.SplitJoin` | checksum.py:11 | splitting a join gives back the pieces when there is at least one and none holds the separator |
| `Hashing.MethodFor` | src/checksum.py:11-16 | the table has an algorithm exactly for `md5`, `sha1`, `sha256`, `sha512`, and that algorithm carries the name looked up |
| `Hashing.MethodForName` | checksum.py:33-40 | every algorithm is found under its own name |
| `OrderedDict.Get` | src/checksum.py:65 | a lookup finds a value exactly when the key is among the dict's keys |
| `OrderedDict.Insert` | src/checksum.py:65 | `d[k] = v`: an existing key keeps its place, a new key goes last, `k` maps to `v`, other keys keep their values |
| `OrderedDict.FromPairs` | src/checksum.py:65-73 | `dict(pairs)` is never longer than the list of pairs, and is empty exactly when the list is |
| `OrderedDict.LastValueOccurs` | src/checksum.py:65 | a key has a last value exactly when it occurs, and that value comes from an occurrence not followed by the key again |
| `OrderedDict.FromPairsGet` | src/checksum.py:65-73 | a key of `dict(pairs)` maps to the value of its last occurrence; an absent key maps to nothing |
| `OrderedDict.FromPairsKeys` | src/checksum.py:65-73 | the keys of `dict(pairs)` are exactly the keys occurring in the pairs |
| `OrderedDict.FromPairsOrder` | src/checksum.py:65-73 | the keys of `dict(pairs)` are ordered by their first occurrence in the pairs |
| `OrderedDict.FromPairsDistinct` | src/checksum.py:65-73 | no key occurs twice in `dict(pairs)` |
| `OrderedDict.FromPairsSize` | checksum.py:12-20 | `len(dict(pairs))` is the number of distinct keys |
| `Environment.AllMatches` | src/checksum.py:67-70 | a path is among the matches exactly when some pattern's glob returns it |
| `Environment.AllMatchesAppend` | src/checksum.py:67-70 | the matches of two pattern lists in a row are the first list's matches followed by the second's |
| `Environment.EmptyPatternMatchesNothing` | src/checksum.py:67-70 | a pattern with no matches can be removed from anywhere without changing the matches |
| `Manifest.Render` | src/checksum.py:146-149 | the manifest text is empty exactly when there are no entries, and otherwise ends in `"\n"` |
| `Manifest.RenderSnoc` | src/checksum.py:147-149 | one more entry appends exactly its `"<checksum> <name>\n"` line |
| `Manifest.RenderLines` | src/checksum.py:146-149 | without newlines in digests and names, the text splits into one `"<checksum> <name>"` line per entry, in entry order, then the empty rest |
| `Checksum.FileChecksum` | src/checksum.py:105-131 | an unopenable file fails with the open error whatever the method; an opened file fails with `InvalidMethod(method)` exactly for names outside the table; otherwise the result is the filename unchanged and the digest of its bytes |
| `Checksum.ChecksumAll` | src/checksum.py:98-102 | a completed list has one pair per filename, in order, holding that filename |
| `Checksum.Checksums` | src/checksum.py:81-102 | the loop over `glob.glob(pattern)` returns exactly the specified list, or the first error raised |
| `Checksum.ChecksumAllAppend` | src/checksum.py:99-100 | checksumming a concatenation chains the two results, and the first error wins |
| `Checksum.ChecksumAllSuccess` | src/checksum.py:98-102 | the list succeeds exactly when every file opens and (if any file) the method is supported; pair `i` is `(filename[i], digest of its bytes)` |
| `Checksum.ChecksumAllFailure` | src/checksum.py:99-100 | a failed list carries the error of the first file whose `checksum` raised, and all earlier files succeeded |
| `Checksum.ChecksumsAcross` | src/checksum.py:67-71 | a completed chain holds one pair per match, in pattern order, each holding its match |
| `Checksum.ChecksumsAcrossFlat` | src/checksum.py:67-71 | chaining the per-pattern lists equals checksumming all matches, pattern after pattern, in one list |
| `Checksum.ChecksumsAcrossAppend` | src/checksum.py:67-71 | the pairs of two pattern lists are the first list's pairs followed by the second's |
| `Checksum.EmptyPatternContributesNothing` | src/checksum.py:67-71 | a pattern with zero matches contributes no pairs, wherever it stands |
| `Checksum.Aggregate` | src/checksum.py:65-73 | aggregation fails exactly when the chain fails, with the same error; the dict has at most one entry per match and is empty exactly when nothing matched |
| `Checksum.AggregateKeys` | src/checksum.py:65-73 | the dict's keys are exactly the matched filenames, each once, ordered by first match; its size is the number of distinct matches |
| `Checksum.AggregateValues` | src/checksum.py:65-73 | each key takes the value of its last pair, which is the digest of that file's bytes |
| `Checksum.FormatFilename` | src/checksum.py:160-161 | the basename holds no `/` and ends the filename; whatever precedes it, if anything, ends in `/` |
| `Checksum.FormatFilenameIdempotent` | src/checksum.py:160-161 | formatting twice equals formatting once |
| `Checksum.FormatFilenameArchive` | test.py:55-58 | `archive/test.txt` is shown as `test.txt` |
| `Checksum.WriteFile` | src/checksum.py:134-157 | the content is the manifest of the dict with basenames; a writable output gives exit 0 and that content, otherwise exit 1 and nothing written |
| `Checksum.Run` | src/checksum.py:53-78 | a run exits 0 or 1, and writes the output file exactly when it exits 0, which needs a writable output path |
| `Checksum.Command` | src/checksum.py:53-78 | a run of `main` ends exactly as `Run` specifies |
| `Checksum.RunStatus` | src/checksum.py:64-78 | exit 0 exactly when every match opens, the method is supported (or nothing matched) and the output is writable, and then the manifest is written; otherwise exit 1 with nothing written, so `write_file` is not reached after an aggregation error |
| `Checksum.InvalidMethodRun` | src/checksum.py:127-131 | with an unsupported method and an openable first match, the run fails with `InvalidMethod` and exits 1; with no match at all it writes an empty manifest |
| `Checksum.RunLines` | src/checksum.py:146-157 | without newlines in digests and filenames, the written manifest has one `"<digest> <basename>"` line per distinct matched file, in dict order |
| `Checksum.TwoMatchesPairs` | test.py:36-51 | a pattern matching two files with the same bytes gives the two pairs in glob order, names unchanged |
| `Checksum.TwoMatchesOneDigest` | src/checksum.py:53-78 | `*.txt` matching `a.txt` and `dir/b.txt` with equal contents writes two lines with the same digest, shown as `a.txt` and `b.txt` |
| `LegacyChecksum.Step` | checksum.py:43-51 | an unopenable file escapes uncaught; an opened file exits 101 exactly for names outside the table; otherwise the pair is the filename unchanged and its digest |
| `LegacyChecksum.StepAll` | checksum.py:42-53 | a completed list has one pair per match, in glob order, holding that filename |
| `LegacyChecksum.CalculateChecksum` | checksum.py:31-53 | the loop of `calculate_checksum` returns exactly the specified list, or how the run stopped |
| `LegacyChecksum.StepAllAppend` | checksum.py:14-17 | running the loop over a concatenation chains the two results |
| `LegacyChecksum.StepAllSuccess` | checksum.py:42-53 | success exactly when every match opens and (if any) the method is in the table; pair `i` is the filename and its digest |
| `LegacyChecksum.StepAllStop` | checksum.py:44-51 | a stop is exit 101 exactly when the first match opens and the method is unsupported; otherwise it is the uncaught open error of the first unopenable file |
| `LegacyChecksum.Across` | checksum.py:12-20 | a completed chain holds one pair per match, in pattern order, each holding its match; a stop is status 101 or an uncaught open error |
| `LegacyChecksum.AcrossFlat` | checksum.py:12-20 | chaining the per-pattern lists equals running the loop over all matches in pattern order |
| `LegacyChecksum.DictKeys` | checksum.py:12-20 | the dict's keys are exactly the matched filenames, each once, ordered by first match; its size is the number of distinct matches |
| `LegacyChecksum.DictValues` | checksum.py:12-20 | each key takes the value of its last pair, which is the digest of that file's bytes |
| `LegacyChecksum.Run` | checksum.py:10-28 | a run exits 0, 1 or 101, and writes the output file exactly when it exits 0, which needs a writable output path |
| `LegacyChecksum.Command` | checksum.py:10-28 | split, aggregation, the `output +=` loop and the write end exactly as `Run` specifies |
| `LegacyChecksum.RunStatus` | checksum.py:10-51 | exit 0 exactly when every match opens, the method is supported (or nothing matched) and the output is writable; exit 101 exactly when the first match opens and the method is unsupported; 1 otherwise; only a status-0 run writes, and it writes the full-path manifest |
| `LegacyChecksum.RunLines` | checksum.py:23-28 | without newlines in digests and filenames, the manifest has one `"<digest> <full path>"` line per distinct matched filename, in dict order, then the empty rest |

## Left out

- Hash algorithms and hex encoding: `digest` is an uninterpreted function value, so digest lengths (32, 40, 64 or 128 hex characters) are not modelled.
- Glob matching and filesystem enumeration: `glob` is a given function value.
- Real `open`, `read`, `write` and process `exit`. They become the `files` map, the `writable` set and the `Exit` value. A read that fails after a successful open is not modelled, and neither is a partially written output file.
- `click` option parsing, the defaults (`sha256`, `checksum.txt`), the `-v` flag and all `logging`/`print` output, including the error messages. None of these change the outcome.
- Python's traceback for an uncaught exception in `checksum.py` is modelled only as exit status 1.
- LegacyChecksum.RunStatus, LegacyChecksum.StepAllStop: in `checksum.py` any exception raised inside the `try` (a read error, a hashing error) also exits 101; the model's only such case is an unsupported method, since reads and hashing cannot fail in it.
- The output file is opened in text mode, so writing encodes the manifest. A filename that `glob` returned with surrogate escapes makes `f.write` raise `UnicodeEncodeError`, which exits 1 in both versions; the model treats strings as plain characters and exits 0 there.
- Checksum.FormatFilename is POSIX `os.path.basename`, splitting on `/` only. On Windows, `ntpath.basename` also splits on `\` and after a drive's `:`; that variant is not modelled.
- Ordering of side effects in time: Python evaluates `map` lazily, so pattern `k` is globbed only after the patterns before it have been checksummed. Because `Env` is fixed for the run, this ordering cannot be observed and is not modelled.
