/** The string operations of Rust's `str` that the configuration reader and the
    console input rely on: trimming, splitting, line splitting, prefixes, case. */
module Text {
  import opened Base

  /** `char::is_whitespace`: the Unicode White_Space property. */
  predicate IsWhitespace(c: char) {
    c == ' ' || ('\t' <= c <= '\r') || c == '\U{85}' || c == '\U{A0}' || c == '\U{1680}'
    || ('\U{2000}' <= c <= '\U{200A}') || c == '\U{2028}' || c == '\U{2029}'
    || c == '\U{202F}' || c == '\U{205F}' || c == '\U{3000}'
  }

  predicate IsBracket(c: char) { c == '[' || c == ']' }

  /** The first index from `i` on whose character `drop` keeps, or `|s|`. */
  function KeptFrom(s: string, drop: char -> bool, i: nat): (k: nat)
    requires i <= |s|
    ensures i <= k <= |s|
    ensures forall j :: i <= j < k ==> drop(s[j])
    ensures k < |s| ==> !drop(s[k])
    decreases |s| - i
  {
    if i == |s| || !drop(s[i]) then i else KeptFrom(s, drop, i + 1)
  }

  /** The end of the kept text below `j`: the smallest `e`, not under `lo`,
      such that every character of `e..j` is dropped. */
  function KeptUntil(s: string, drop: char -> bool, lo: nat, j: nat): (e: nat)
    requires lo <= j <= |s|
    ensures lo <= e <= j
    ensures forall i :: e <= i < j ==> drop(s[i])
    ensures e > lo ==> !drop(s[e - 1])
    decreases j
  {
    if j == lo || !drop(s[j - 1]) then j else KeptUntil(s, drop, lo, j - 1)
  }

  /** `r` is what is left of `s` once the longest prefix and the longest
      suffix whose characters satisfy `drop` are dropped: a slice of `s` from
      its first kept character, with every character outside it dropped and
      kept characters at both of its ends. */
  predicate TrimsTo(s: string, drop: char -> bool, r: string) {
    var k := KeptFrom(s, drop, 0);
    && k + |r| <= |s| && r == s[k..k + |r|]
    && (forall i :: 0 <= i < k ==> drop(s[i]))
    && (forall i :: k + |r| <= i < |s| ==> drop(s[i]))
    && (r == [] || (!drop(r[0]) && !drop(r[|r| - 1])))
  }

  /** `trim_matches`: the first kept character from the front, then the last
      kept one from the back, and the text between them. */
  function TrimMatches(s: string, drop: char -> bool): (r: string)
    ensures TrimsTo(s, drop, r)
  {
    var k := KeptFrom(s, drop, 0);
    var e := KeptUntil(s, drop, k, |s|);
    assert e > k ==> s[k..e][0] == s[k] && s[k..e][e - k - 1] == s[e - 1];
    s[k..e]
  }

  /** `trim`: `TrimMatches` with the Unicode white space. */
  function Trim(s: string): (r: string)
    ensures Trimmed(r)
    ensures TrimsTo(s, IsWhitespace, r)
  {
    TrimMatches(s, IsWhitespace)
  }

  /** A string with no white space at either end. */
  predicate Trimmed(s: string) {
    s == [] || (!IsWhitespace(s[0]) && !IsWhitespace(s[|s| - 1]))
  }

  /** Number of occurrences of `c` in `s`. */
  function Count(s: string, c: char): nat {
    if s == [] then 0 else (if s[0] == c then 1 else 0) + Count(s[1..], c)
  }

  /** `split(sep)`: the pieces between the separators; never empty. */
  function Split(s: string, sep: char): (r: seq<string>)
    ensures |r| == Count(s, sep) + 1
    ensures forall i :: 0 <= i < |r| ==> sep !in r[i]
  {
    if s == [] then [[]]
    else
      var rest := Split(s[1..], sep);
      if s[0] == sep then [[]] + rest else [[s[0]] + rest[0]] + rest[1..]
  }

  /** The inverse of `Split`: the pieces glued back with the separator. */
  function Join(parts: seq<string>, sep: char): string
    requires |parts| > 0
  {
    if |parts| == 1 then parts[0] else parts[0] + [sep] + Join(parts[1..], sep)
  }

  lemma {:induction false} JoinSplit(s: string, sep: char)
    ensures Join(Split(s, sep), sep) == s
  {
    if s != [] {
      var rest := Split(s[1..], sep);
      JoinSplit(s[1..], sep);
      if s[0] == sep {
        assert Split(s, sep)[1..] == rest;
      } else {
        var r := Split(s, sep);
        if |rest| == 1 {
          assert r == [[s[0]] + rest[0]];
        } else {
          assert r[1..] == rest[1..];
          assert Join(r, sep) == [s[0]] + rest[0] + [sep] + Join(rest[1..], sep);
        }
      }
    }
  }

  /** The text between the first separator and the next one (or the end) is
      the second piece of `Split`. */
  lemma {:induction false} SplitSecondPiece(before: string, sep: char, piece: string, after: string)
    requires sep !in before && sep !in piece
    requires after == [] || after[0] == sep
    ensures |Split(before + [sep] + piece + after, sep)| > 1
    ensures Split(before + [sep] + piece + after, sep)[1] == piece
  {
    var s := before + [sep] + piece + after;
    if before == [] {
      assert s[1..] == piece + after;
      SplitFirstPiece(piece, sep, after);
    } else {
      assert s[1..] == before[1..] + [sep] + piece + after;
      SplitSecondPiece(before[1..], sep, piece, after);
    }
  }

  /** Text without the separator is one piece. */
  lemma {:induction false} SplitNoSeparator(s: string, sep: char)
    requires sep !in s
    ensures Split(s, sep) == [s]
  {
    if s != [] {
      SplitNoSeparator(s[1..], sep);
      assert [s[0]] + s[1..] == s;
    }
  }

  /** The text before the first separator is the first piece of `Split`. */
  lemma {:induction false} SplitFirstPiece(piece: string, sep: char, after: string)
    requires sep !in piece
    requires after == [] || after[0] == sep
    ensures Split(piece + after, sep)[0] == piece
  {
    if piece == [] {
      if after != [] {
        assert (piece + after)[0] == sep;
      }
    } else {
      assert (piece + after)[1..] == piece[1..] + after;
      SplitFirstPiece(piece[1..], sep, after);
    }
  }

  /** The text between line feeds, without the empty piece after a final line
      feed; the empty text has no pieces. */
  function RawLines(s: string): (r: seq<string>)
    ensures forall i :: 0 <= i < |r| ==> '\n' !in r[i]
    ensures s != [] <==> r != []
  {
    if s == [] then []
    else
      var parts := Split(s, '\n');
      if s[|s| - 1] == '\n' then
        SplitEndsEmpty(s, '\n');
        parts[..|parts| - 1]
      else parts
  }

  /** A line that ended in "\r\n" loses its '\r'. */
  function DropCr(line: string): string {
    if line != [] && line[|line| - 1] == '\r' then line[..|line| - 1] else line
  }

  /** `lines()`: split at '\n' or "\r\n"; a final line ending does not start
      another line, and a '\r' that no '\n' follows stays. */
  function Lines(s: string): (r: seq<string>)
    ensures forall i :: 0 <= i < |r| ==> '\n' !in r[i]
  {
    var raw := RawLines(s);
    seq(|raw|, i requires 0 <= i < |raw| =>
      if i < |raw| - 1 || s[|s| - 1] == '\n' then DropCr(raw[i]) else raw[i])
  }

  /** Line `i` is raw line `i`, less one '\r' exactly when "\r\n" ended it. */
  lemma LineEnding(s: string, i: nat)
    requires i < |Lines(s)|
    ensures |Lines(s)| == |RawLines(s)|
    ensures var raw := RawLines(s)[i];
      var ended := i < |RawLines(s)| - 1 || s[|s| - 1] == '\n';
      && (ended && raw != [] && raw[|raw| - 1] == '\r' ==> raw == Lines(s)[i] + "\r")
      && (!(ended && raw != [] && raw[|raw| - 1] == '\r') ==> raw == Lines(s)[i])
  {
    var raw := RawLines(s)[i];
    if raw != [] && raw[|raw| - 1] == '\r' {
      assert raw == raw[..|raw| - 1] + "\r";
    }
  }

  /** The raw lines joined with line feeds give back the text, up to one final
      line feed. */
  lemma LinesRoundTrip(s: string)
    requires s != []
    ensures Join(RawLines(s), '\n') + (if s[|s| - 1] == '\n' then "\n" else "") == s
  {
    JoinSplit(s, '\n');
    var parts := Split(s, '\n');
    if s[|s| - 1] == '\n' {
      SplitEndsEmpty(s, '\n');
      JoinSnoc(parts, '\n');
    }
  }

  /** Text ending in the separator ends with an empty piece. */
  lemma {:induction false} SplitEndsEmpty(s: string, sep: char)
    requires s != [] && s[|s| - 1] == sep
    ensures |Split(s, sep)| >= 2 && Split(s, sep)[|Split(s, sep)| - 1] == []
  {
    if |s| > 1 {
      assert s[1..][|s| - 2] == sep;
      SplitEndsEmpty(s[1..], sep);
    }
  }

  lemma {:induction false} JoinSnoc(parts: seq<string>, sep: char)
    requires |parts| >= 2
    ensures Join(parts, sep) == Join(parts[..|parts| - 1], sep) + [sep] + parts[|parts| - 1]
  {
    if |parts| > 2 {
      JoinSnoc(parts[1..], sep);
      assert parts[1..][..|parts| - 2] == parts[..|parts| - 1][1..];
    }
  }

  /** `strip_prefix`. */
  function StripPrefix(s: string, prefix: string): (r: Option<string>)
    ensures r.Some? <==> prefix <= s
    ensures r.Some? ==> s == prefix + r.value
  {
    if prefix <= s then Some(s[|prefix|..]) else None
  }

  /** Lower case for ASCII letters; other characters are kept. */
  function LowerChar(c: char): char {
    if 'A' <= c <= 'Z' then (c as int + 32) as char else c
  }

  /** `to_lowercase`, for ASCII letters. No character outside ASCII lowers to the
      ASCII letters of the keywords compared against (`true`, `false`, `jpg`,
      `jpeg`, `png`, `jxl`), so comparing the result with them is exact. */
  function Lower(s: string): (r: string)
    ensures |r| == |s|
    ensures forall i :: 0 <= i < |s| ==> r[i] == LowerChar(s[i])
  {
    if s == [] then [] else [LowerChar(s[0])] + Lower(s[1..])
  }
}
