/** The two pure helpers of the console front end: splitting an elapsed time
    for display (`time_display`, src/main.rs:595-602) and taking a folder path
    out of a typed or dropped line (src/main.rs:324-331). */
module Console {
  import opened Base
  import opened Text

  /** `time_display`: whole milliseconds as hours, minutes, seconds and milliseconds. */
  function TimeDisplay(milliseconds: nat): (r: (nat, nat, nat, nat))
    ensures r.1 < 60 && r.2 < 60 && r.3 < 1000
    ensures r.0 * 3600000 + r.1 * 60000 + r.2 * 1000 + r.3 == milliseconds
  {
    var hours := milliseconds / 3600000;
    var minutes := milliseconds % 3600000 / 60000;
    var seconds := milliseconds % 60000 / 1000;
    var millis := milliseconds % 1000;
    TimeParts(milliseconds);
    (hours, minutes, seconds, millis)
  }

  lemma TimeParts(t: nat)
    ensures t % 3600000 / 60000 < 60 && t % 60000 / 1000 < 60
    ensures t / 3600000 * 3600000 + t % 3600000 / 60000 * 60000 + t % 60000 / 1000 * 1000 + t % 1000 == t
  {
    var h, rh := t / 3600000, t % 3600000;
    var m, rm := rh / 60000, rh % 60000;
    var s, ms := rm / 1000, rm % 1000;
    assert t == h * 3600000 + rh;
    assert rh == m * 60000 + rm;
    assert rm == s * 1000 + ms;
    assert t == (h * 60 + m) * 60000 + rm;
    assert t % 60000 == rm;
    assert t == ((h * 60 + m) * 60 + s) * 1000 + ms;
    assert t % 1000 == ms;
  }

  /** The quote characters tried in turn: '"' first, then '\''. */
  const Quotes: seq<char> := ['"', '\'']

  /** The second piece of `input.split(q)` when there is one and it is not empty. */
  function QuotedBy(input: string, q: char): Option<string> {
    var split := Split(input, q);
    if |split| > 1 && split[1] != [] then Some(split[1]) else None
  }

  /** The `find_map` over the quote characters: the first one that yields a path. */
  function ExtractQuoted(input: string): Option<string> {
    if QuotedBy(input, Quotes[0]).Some? then QuotedBy(input, Quotes[0]) else QuotedBy(input, Quotes[1])
  }

  /** A line without either quote character gives no path at all. */
  lemma UnquotedRejected(input: string)
    requires '"' !in input && '\'' !in input
    ensures ExtractQuoted(input).None?
  {
    SplitNoSeparator(input, '"');
    SplitNoSeparator(input, '\'');
  }

  /** The path is the text between the first '"' and the next one (or the end of
      the line), when that text is not empty. */
  lemma DoubleQuoted(before: string, path: string, after: string)
    requires '"' !in before && '"' !in path && path != []
    requires after == [] || after[0] == '"'
    ensures ExtractQuoted(before + ['"'] + path + after) == Some(path)
  {
    SplitSecondPiece(before, '"', path, after);
  }

  /** When '"' yields no path, the single quote is tried the same way. */
  lemma SingleQuoted(before: string, path: string, after: string)
    requires '\'' !in before && '\'' !in path && path != []
    requires after == [] || after[0] == '\''
    requires QuotedBy(before + ['\''] + path + after, '"').None?
    ensures ExtractQuoted(before + ['\''] + path + after) == Some(path)
  {
    SplitSecondPiece(before, '\'', path, after);
  }

  /** An instance of the fallback: an empty '"' pair before a single-quoted path. */
  lemma EmptyDoubleQuotesFallBack()
    ensures ExtractQuoted("\"\"'x'") == Some("x")
  {
    var input := "\"\"'x'";
    SplitSecondPiece([], '"', [], "\"'x'");
    assert input == [] + ['"'] + [] + "\"'x'";
    assert QuotedBy(input, '"').None?;
    assert input == "\"\"" + ['\''] + "x" + "'";
    SingleQuoted("\"\"", "x", "'");
  }

  /** A path found is never empty and never holds the quote that delimited it. */
  lemma ExtractedPath(input: string)
    requires ExtractQuoted(input).Some?
    ensures ExtractQuoted(input).value != []
    ensures '"' in input || '\'' in input
    ensures QuotedBy(input, '"').Some? ==> '"' !in ExtractQuoted(input).value
    ensures QuotedBy(input, '"').None? ==> '\'' !in ExtractQuoted(input).value
  {
    if '"' !in input && '\'' !in input {
      UnquotedRejected(input);
    }
  }
}
