/** The manifest text: one `"<checksum> <name>\n"` line per entry, in entry order. */
module Manifest {
  import opened Text

  /** The line written for one file. */
  function Line(checksum: string, name: string): string
  {
    checksum + " " + name + "\n"
  }

  /**
   * The text for `entries`, (filename, checksum) pairs, showing each filename
   * through `display`. It is empty exactly when there are no entries and
   * otherwise ends in a newline.
   */
  function Render(entries: seq<(string, string)>, display: string -> string): (text: string)
    ensures |text| == 0 <==> |entries| == 0
    ensures |entries| > 0 ==> text[|text| - 1] == '\n'
  {
    if entries == [] then ""
    else Line(entries[0].1, display(entries[0].0)) + Render(entries[1..], display)
  }

  /** Rendering one more entry appends its line: the `output += ...` step of a loop. */
  lemma {:induction false} RenderSnoc(entries: seq<(string, string)>, e: (string, string), display: string -> string)
    ensures Render(entries + [e], display) == Render(entries, display) + Line(e.1, display(e.0))
  {
    if entries != [] {
      assert (entries + [e])[1..] == entries[1..] + [e];
      RenderSnoc(entries[1..], e, display);
    }
  }

  /** The text of the first `i + 1` entries is that of the first `i` and then line `i`. */
  lemma RenderPrefix(entries: seq<(string, string)>, i: nat, display: string -> string)
    requires i < |entries|
    ensures Render(entries[..i + 1], display) == Render(entries[..i], display) + Line(entries[i].1, display(entries[i].0))
  {
    RenderSnoc(entries[..i], entries[i], display);
    assert entries[..i + 1] == entries[..i] + [entries[i]];
  }

  /**
   * Reading the text back line by line: when no checksum and no shown name
   * holds a newline, splitting on newlines gives one line per entry, in order,
   * `"<checksum> <name>"`, and then the empty rest after the final newline.
   */
  lemma {:induction false} RenderLines(entries: seq<(string, string)>, display: string -> string)
    requires forall i :: 0 <= i < |entries| ==> '\n' !in entries[i].1 && '\n' !in display(entries[i].0)
    ensures |Split(Render(entries, display), '\n')| == |entries| + 1
    ensures Split(Render(entries, display), '\n')[|entries|] == ""
    ensures forall i :: 0 <= i < |entries| ==>
      Split(Render(entries, display), '\n')[i] == entries[i].1 + " " + display(entries[i].0)
  {
    if entries == [] {
      assert Position("", '\n') == 0;
    } else {
      var body := entries[0].1 + " " + display(entries[0].0);
      var rest := Render(entries[1..], display);
      assert Render(entries, display) == body + ['\n'] + rest;
      SplitLine(body, '\n', rest);
      RenderLines(entries[1..], display);
    }
  }
}
