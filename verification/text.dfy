/** The Kotlin string and reader primitives the codecs are built on:
    `indexOf(Char)`, `isNotBlank()`, and the line splitting of
    `BufferedReader.useLines`. File contents are text (`seq<char>`); the
    UTF-8 layer below them is not modelled. */
module Text {
  import opened Wrappers

  /** `line.indexOf(c)`: the position of the FIRST occurrence, or `None`
      where Kotlin returns -1. */
  function IndexOf(s: string, c: char): (r: Option<nat>)
    ensures r.Some? ==> r.value < |s| && s[r.value] == c && c !in s[..r.value]
    ensures r.None? ==> c !in s
  {
    if s == [] then None
    else if s[0] == c then Some(0)
    else match IndexOf(s[1..], c)
      case None => None
      case Some(i) =>
        assert s[..i + 1] == [s[0]] + s[1..][..i];
        Some(i + 1)
  }

  /** The first occurrence of `c` in `p + [c] + rest` is right after `p`
      when `p` does not contain `c`. */
  lemma {:induction false} IndexOfAfterPrefix(p: string, c: char, rest: string)
    requires c !in p
    ensures IndexOf(p + [c] + rest, c) == Some(|p|)
  {
    var s := p + [c] + rest;
    assert s[..|p|] == p;
    assert s[|p|] == c;
  }

  /** `Char.isWhitespace()` on the JVM: `Character.isWhitespace` or
      `Character.isSpaceChar`. */
  predicate IsWhitespace(c: char) {
    || ('\t' <= c <= '\r') || ('\U{1C}' <= c <= '\U{1F}') || c == ' '
    || c == '\U{A0}' || c == '\U{1680}' || ('\U{2000}' <= c <= '\U{200A}')
    || c == '\U{2028}' || c == '\U{2029}' || c == '\U{202F}' || c == '\U{205F}'
    || c == '\U{3000}'
  }

  /** `isBlank()`: empty or whitespace only. */
  predicate IsBlank(s: string) {
    forall k :: 0 <= k < |s| ==> IsWhitespace(s[k])
  }

  /** `isNotBlank` rejects the empty text and text made only of JVM
      whitespace (ASCII controls 9-13 and 28-31, the space, and the Unicode
      space separators); any other character makes the text non-blank. */
  lemma BlankExamples()
    ensures IsBlank("") && IsBlank(" \t\r\n") && IsBlank("\U{A0}\U{2007}\U{3000}")
    ensures !IsBlank(" $ ") && !IsBlank("\U{85}") && !IsBlank("\U{200B}")
  {
    assert " $ "[1] == '$';
    assert "\U{85}"[0] == '\U{85}';
    assert "\U{200B}"[0] == '\U{200B}';
  }

  /** The characters `BufferedReader.readLine` ends a line at. */
  predicate IsTerminator(c: char) {
    c == '\n' || c == '\r'
  }

  predicate NoTerminators(s: string) {
    forall k :: 0 <= k < |s| ==> !IsTerminator(s[k])
  }

  /** Position of the first line terminator, or `|s|` if there is none. */
  function FirstTerminator(s: string): (i: nat)
    ensures i <= |s|
    ensures NoTerminators(s[..i])
    ensures i < |s| ==> IsTerminator(s[i])
  {
    if s == [] then 0
    else if IsTerminator(s[0]) then 0
    else
      var i := 1 + FirstTerminator(s[1..]);
      assert s[..i] == [s[0]] + s[1..][..i - 1];
      i
  }

  /** The lines `useLines` yields for a file's text: a line ends at `\n`,
      `\r` or `\r\n`; a last line without terminator is still a line, but a
      terminator at the very end does not start an empty one. */
  function Lines(t: string): (r: seq<string>)
    ensures forall k :: 0 <= k < |r| ==> NoTerminators(r[k])
    ensures |r| <= |t|
    decreases |t|
  {
    if t == [] then []
    else
      var i := FirstTerminator(t);
      if i == |t| then [t]
      else
        var next := if t[i] == '\r' && i + 1 < |t| && t[i + 1] == '\n' then i + 2 else i + 1;
        [t[..i]] + Lines(t[next..])
  }

  /** The text a writer produces by emitting each line followed by `\n`. */
  function Join(ls: seq<string>): (t: string)
    ensures |ls| <= |t|
  {
    if ls == [] then [] else ls[0] + "\n" + Join(ls[1..])
  }

  /** Splitting the text written line by line gives the lines back, as long
      as none of them contains a line terminator. */
  lemma {:induction false} LinesOfJoin(ls: seq<string>)
    requires forall k :: 0 <= k < |ls| ==> NoTerminators(ls[k])
    ensures Lines(Join(ls)) == ls
  {
    if ls != [] {
      var l := ls[0];
      var rest := Join(ls[1..]);
      var t := Join(ls);
      assert t == l + "\n" + rest;
      FirstTerminatorOfLine(l, rest);
      assert t[..|l|] == l;
      assert t[|l| + 1..] == rest;
      LinesOfJoin(ls[1..]);
    }
  }

  lemma {:induction false} FirstTerminatorOfLine(l: string, rest: string)
    requires NoTerminators(l)
    ensures FirstTerminator(l + "\n" + rest) == |l|
  {
    var t := l + "\n" + rest;
    assert t[..|l|] == l;
    assert t[|l|] == '\n';
  }

  /** A `\r\n` pair counts as one terminator, and a lone trailing
      terminator does not add an empty line. */
  lemma LinesExamples()
    ensures Lines("a\r\nb") == ["a", "b"]
    ensures Lines("a\n") == ["a"]
    ensures Lines("\n") == [""]
    ensures Lines("") == []
  {
    assert FirstTerminator("a\r\nb") == 1 by { assert "a\r\nb"[1..] == "\r\nb"; }
    assert "a\r\nb"[..1] == "a";
    assert "a\r\nb"[3..] == "b";
    assert FirstTerminator("b") == 1 by { assert "b"[1..] == ""; }
    assert FirstTerminator("a\n") == 1 by { assert "a\n"[1..] == "\n"; }
    assert "a\n"[..1] == "a";
    assert "a\n"[2..] == "";
    assert "\n"[..0] == "";
    assert "\n"[1..] == "";
  }
}
