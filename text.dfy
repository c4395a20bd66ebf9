/**
 * Python's `str.split(sep)` and `sep.join(parts)` for a one-character separator,
 * `str.find` and `str.rfind`, on strings as sequences of characters.
 */
module Text {

  /**
   * Index of the first occurrence of `x` in `s`, or `|s|` when `x` does not
   * occur: `s.find(x)` with the absent case moved to the end.
   */
  function Position<T(==)>(s: seq<T>, x: T): (i: nat)
    ensures i <= |s|
    ensures i < |s| ==> s[i] == x
    ensures forall j :: 0 <= j < i ==> s[j] != x
  {
    if s == [] then 0
    else if s[0] == x then 0
    else 1 + Position(s[1..], x)
  }

  /** Appending an element does not move the first occurrence of anything already present. */
  lemma {:induction false} PositionSnoc<T>(s: seq<T>, x: T, y: T)
    ensures Position(s + [x], y) == if y in s then Position(s, y) else if y == x then |s| else |s| + 1
  {
    if s != [] {
      assert (s + [x])[1..] == s[1..] + [x];
      if s[0] != y {
        PositionSnoc(s[1..], x, y);
      }
    }
  }

  /** `s.rfind(c)`: index of the last `c` in `s`, or -1 when `c` does not occur. */
  function RFind(s: string, c: char): (i: int)
    ensures -1 <= i < |s|
    ensures 0 <= i ==> s[i] == c
    ensures forall j :: i < j < |s| ==> s[j] != c
  {
    if s == [] then -1
    else if s[|s| - 1] == c then |s| - 1
    else RFind(s[..|s| - 1], c)
  }

  /**
   * `s.split(sep)`: the pieces between separators, in order. There is always
   * at least one piece (the empty string splits into `[""]`) and no piece
   * holds the separator.
   */
  function Split(s: string, sep: char): (parts: seq<string>)
    ensures |parts| >= 1
    ensures forall k :: 0 <= k < |parts| ==> sep !in parts[k]
    decreases |s|
  {
    var i := Position(s, sep);
    if i == |s| then [s] else [s[..i]] + Split(s[i + 1..], sep)
  }

  /** `sep.join(parts)`. */
  function Join(parts: seq<string>, sep: char): string
  {
    if |parts| == 0 then ""
    else if |parts| == 1 then parts[0]
    else parts[0] + [sep] + Join(parts[1..], sep)
  }

  /** Joining the pieces of a split with the same separator gives back the string. */
  lemma {:induction false} JoinSplit(s: string, sep: char)
    ensures Join(Split(s, sep), sep) == s
    decreases |s|
  {
    var i := Position(s, sep);
    if i < |s| {
      var rest := s[i + 1..];
      var parts := Split(rest, sep);
      JoinSplit(rest, sep);
      assert Split(s, sep) == [s[..i]] + parts;
      assert ([s[..i]] + parts)[1..] == parts;
      assert Join([s[..i]] + parts, sep) == s[..i] + [sep] + Join(parts, sep);
      assert s == s[..i] + [sep] + rest;
    }
  }

  /** The first separator of `p + [sep] + t` is the one after `p` when `p` holds none. */
  lemma PositionAfterPiece(p: string, sep: char, t: string)
    requires sep !in p
    ensures Position(p + [sep] + t, sep) == |p|
  {
    var s := p + [sep] + t;
    assert s[|p|] == sep;
    assert forall j :: 0 <= j < |p| ==> s[j] == p[j];
  }

  /**
   * Splitting a join gives back the pieces, provided there is at least one
   * piece and no piece holds the separator.
   */
  lemma {:induction false} SplitJoin(parts: seq<string>, sep: char)
    requires |parts| >= 1
    requires forall k :: 0 <= k < |parts| ==> sep !in parts[k]
    ensures Split(Join(parts, sep), sep) == parts
  {
    if |parts| == 1 {
      assert Position(parts[0], sep) == |parts[0]|;
    } else {
      var rest := Join(parts[1..], sep);
      var s := parts[0] + [sep] + rest;
      PositionAfterPiece(parts[0], sep, rest);
      assert s[..|parts[0]|] == parts[0];
      assert s[|parts[0]| + 1..] == rest;
      SplitJoin(parts[1..], sep);
      assert parts == [parts[0]] + parts[1..];
    }
  }

  /** A string without the separator is a single piece. */
  lemma SplitWithoutSep(s: string, sep: char)
    requires sep !in s
    ensures Split(s, sep) == [s]
  {
  }

  /** A line `body + "\n"` whose body holds no separator splits off as its own piece. */
  lemma SplitLine(body: string, sep: char, rest: string)
    requires sep !in body
    ensures Split(body + [sep] + rest, sep) == [body] + Split(rest, sep)
  {
    var s := body + [sep] + rest;
    PositionAfterPiece(body, sep, rest);
    assert s[..|body|] == body;
    assert s[|body| + 1..] == rest;
  }
}
