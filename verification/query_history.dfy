/** The query history file of `data/Query.kt`: the `Query` record, the
    per-line decoder inside `loadQueryHistoryFile`, and the line writer of
    `saveQueryHistoryFile` — both as shipped and in the documented
    `<queryVariantIndex> <content>` format. */
module QueryHistory {
  import opened Wrappers
  import opened Decimal
  import opened Text
  import opened Storage

  /** One past lookup: which query variant was used and the searched text. */
  datatype Query = Query(queryVariantIndex: Int32, content: string)

  /** The `mapNotNull` body of `loadQueryHistoryFile`: split at the first
      space, read the prefix as an `Int`, keep the line only when that index
      is below the number of query variants. No lower bound is checked. */
  function DecodeLine(line: string, queryVariantsSize: nat): (r: Option<Query>)
    ensures r.Some? ==> ' ' in line
    ensures r.Some? ==> r.value.queryVariantIndex < queryVariantsSize
    ensures r.Some? ==> |r.value.content| < |line| && r.value.content == line[|line| - |r.value.content|..]
  {
    match IndexOf(line, ' ')
    case None => None
    case Some(sep) =>
      match ParseInt32(line[..sep])
      case None => None
      case Some(index) =>
        if index < queryVariantsSize then Some(Query(index, line[sep + 1..])) else None
  }

  /** The whole `lines.mapNotNull { ... }.toList()`: malformed lines are
      dropped, the survivors keep their order. */
  function DecodeLines(lines: seq<string>, queryVariantsSize: nat): (r: seq<Query>)
    ensures |r| <= |lines|
    ensures forall k :: 0 <= k < |r| ==> r[k].queryVariantIndex < queryVariantsSize
    ensures forall k :: 0 <= k < |r| ==>
      exists j :: 0 <= j < |lines| && DecodeLine(lines[j], queryVariantsSize) == Some(r[k])
  {
    if lines == [] then []
    else
      var rest := DecodeLines(lines[1..], queryVariantsSize);
      assert forall k :: 0 <= k < |rest| ==>
        exists j :: 0 <= j < |lines| && DecodeLine(lines[j], queryVariantsSize) == Some(rest[k]) by {
        forall k | 0 <= k < |rest|
          ensures exists j :: 0 <= j < |lines| && DecodeLine(lines[j], queryVariantsSize) == Some(rest[k])
        {
          var j :| 0 <= j < |lines[1..]| && DecodeLine(lines[1..][j], queryVariantsSize) == Some(rest[k]);
          assert lines[1..][j] == lines[j + 1];
        }
      }
      match DecodeLine(lines[0], queryVariantsSize)
      case None => rest
      case Some(q) => [q] + rest
  }

  /** `loadQueryHistoryFile`: a missing or unreadable file is a failure,
      otherwise the decoded lines. */
  function LoadQueryHistoryFile(disk: Disk, filename: string, queryVariantsSize: nat): (r: Result<seq<Query>, LoadError>)
    ensures r.Success? <==> filename in disk
    ensures r.Success? ==> forall k :: 0 <= k < |r.value| ==> r.value[k].queryVariantIndex < queryVariantsSize
  {
    match ReadLines(disk, filename)
    case Failure(e) => Failure(e)
    case Success(lines) => Success(DecodeLines(lines, queryVariantsSize))
  }

  // ---------------------------------------------------------------------
  // Writing, as shipped

  /** What `Writer.write(Int)` puts in the file: ONE character, the low 16
      bits of the index. A lone surrogate cannot be encoded as UTF-8 and is
      replaced by `?` on its way to the file. */
  function WrittenIndexChar(index: Int32): (c: char)
    ensures (0 <= index < 0xD800 || 0xE000 <= index < 0x1_0000) ==> c as int == index
    ensures 0xD800 <= index < 0xE000 ==> c == '?'
    ensures -0x1_0000 <= index < 0 && index + 0x1_0000 < 0xD800 ==> c as int == index + 0x1_0000
  {
    var code := index % 0x1_0000;
    if 0xD800 <= code < 0xE000 then '?' else code as char
  }

  /** Only the low 16 bits of the index reach the file: indices that differ
      by a multiple of 65536 are written as the same character. */
  lemma WrittenIndexCharKeepsLow16Bits(index: Int32, k: int)
    requires -0x8000_0000 <= index + k * 0x1_0000 < 0x8000_0000
    ensures WrittenIndexChar(index) == WrittenIndexChar(index + k * 0x1_0000)
  {
    assert (index + k * 0x1_0000) % 0x1_0000 == index % 0x1_0000;
  }

  /** The line `saveQueryHistoryFile` actually writes for one query. */
  function AsWrittenLine(q: Query): (line: string)
    ensures |line| == |q.content| + 2
    ensures line[0] == WrittenIndexChar(q.queryVariantIndex) && line[1] == ' ' && line[2..] == q.content
  {
    [WrittenIndexChar(q.queryVariantIndex)] + " " + q.content
  }

  function AsWrittenLines(history: seq<Query>): seq<string> {
    seq(|history|, k requires 0 <= k < |history| => AsWrittenLine(history[k]))
  }

  /** Total length of the searched texts. */
  function ContentLength(history: seq<Query>): nat {
    if history == [] then 0 else |history[0].content| + ContentLength(history[1..])
  }

  /** `saveQueryHistoryFile` as shipped: for each query in list order, the
      index character, a space, the content and a newline. Every index takes
      exactly one character of the file, whatever its value. */
  function SaveQueryHistoryFileAsWritten(disk: Disk, filename: string, history: seq<Query>): (d: Disk)
    ensures filename in d && d.Keys == disk.Keys + {filename}
    ensures forall f :: f in disk && f != filename ==> d[f] == disk[f]
    ensures |d[filename]| == 3 * |history| + ContentLength(history)
    ensures |history| > 0 ==>
      d[filename][0] == WrittenIndexChar(history[0].queryVariantIndex) && d[filename][1] == ' '
  {
    AsWrittenTextLength(history);
    WriteText(disk, filename, Join(AsWrittenLines(history)))
  }

  lemma {:induction false} AsWrittenTextLength(history: seq<Query>)
    ensures |Join(AsWrittenLines(history))| == 3 * |history| + ContentLength(history)
  {
    if history != [] {
      assert AsWrittenLines(history)[1..] == AsWrittenLines(history[1..]);
      AsWrittenTextLength(history[1..]);
    }
  }

  // ---------------------------------------------------------------------
  // Writing in the documented format

  /** `<queryVariantIndex> <content>` with the index in decimal. */
  function EncodeLine(q: Query): (line: string)
    ensures IndexOf(line, ' ') == Some(|IntToDecimal(q.queryVariantIndex)|)
    ensures line[|IntToDecimal(q.queryVariantIndex)| + 1..] == q.content
  {
    var index := IntToDecimal(q.queryVariantIndex);
    assert ' ' !in index;
    IndexOfAfterPrefix(index, ' ', q.content);
    index + " " + q.content
  }

  function EncodeLines(history: seq<Query>): seq<string> {
    seq(|history|, k requires 0 <= k < |history| => EncodeLine(history[k]))
  }

  /** The corrected `saveQueryHistoryFile`: the index is written as decimal
      text, as the file format promises. */
  function SaveQueryHistoryFile(disk: Disk, filename: string, history: seq<Query>): (d: Disk)
    ensures filename in d && d.Keys == disk.Keys + {filename}
    ensures forall f :: f in disk && f != filename ==> d[f] == disk[f]
    ensures |history| > 0 ==>
      var index := IntToDecimal(history[0].queryVariantIndex);
      |index| < |d[filename]| && d[filename][..|index|] == index && d[filename][|index|] == ' '
  {
    var text := Join(EncodeLines(history));
    assert |history| > 0 ==> text == EncodeLine(history[0]) + "\n" + Join(EncodeLines(history)[1..]);
    WriteText(disk, filename, text)
  }

  // ---------------------------------------------------------------------
  // Properties of the decoder

  /** A line with no space is dropped. */
  lemma DecodeLineWithoutSpace(line: string, queryVariantsSize: nat)
    requires ' ' !in line
    ensures DecodeLine(line, queryVariantsSize) == None
  {
  }

  /** For a line with a space, the decoder's full behaviour: the prefix
      before the FIRST space must read as an `Int` below the variant count,
      and then the content is the whole remainder, further spaces included. */
  lemma DecodeLineSplitsAtFirstSpace(prefix: string, content: string, queryVariantsSize: nat)
    requires ' ' !in prefix
    ensures DecodeLine(prefix + " " + content, queryVariantsSize) ==
      match ParseInt32(prefix)
      case Some(index) => if index < queryVariantsSize then Some(Query(index, content)) else None
      case None => None
  {
    var line := prefix + " " + content;
    IndexOfAfterPrefix(prefix, ' ', content);
    assert line[..|prefix|] == prefix;
    assert line[|prefix| + 1..] == content;
  }

  /** `"3 a b"` with four variants is `Query(3, "a b")`. */
  lemma DecodeLineKeepsSpacesInContent()
    ensures DecodeLine("3 a b", 4) == Some(Query(3, "a b"))
  {
    assert "3 a b" == "3" + " " + "a b";
    assert ParseInt32("3") == Some(3);
    DecodeLineSplitsAtFirstSpace("3", "a b", 4);
  }

  /** A line that starts with a space has an empty prefix and is dropped. */
  lemma DecodeLineEmptyPrefix(content: string, queryVariantsSize: nat)
    ensures DecodeLine(" " + content, queryVariantsSize) == None
  {
    assert " " + content == "" + " " + content;
    DecodeLineSplitsAtFirstSpace("", content, queryVariantsSize);
  }

  /** Decoding the documented line of a query gives the query back exactly
      when its index is below the variant count. */
  lemma {:induction false} EncodeLineRoundTrip(q: Query, queryVariantsSize: nat)
    ensures DecodeLine(EncodeLine(q), queryVariantsSize) ==
      if q.queryVariantIndex < queryVariantsSize then Some(q) else None
  {
    var prefix := IntToDecimal(q.queryVariantIndex);
    assert ' ' !in prefix;
    Int32RoundTrip(q.queryVariantIndex);
    DecodeLineSplitsAtFirstSpace(prefix, q.content, queryVariantsSize);
  }

  /** The bound is strict: index `size - 1` is kept, index `size` dropped. */
  lemma BoundIsStrict(queryVariantsSize: nat, content: string)
    requires 0 < queryVariantsSize < 0x8000_0000
    ensures DecodeLine(EncodeLine(Query(queryVariantsSize - 1, content)), queryVariantsSize).Some?
    ensures DecodeLine(EncodeLine(Query(queryVariantsSize, content)), queryVariantsSize) == None
  {
    EncodeLineRoundTrip(Query(queryVariantsSize - 1, content), queryVariantsSize);
    EncodeLineRoundTrip(Query(queryVariantsSize, content), queryVariantsSize);
  }

  /** Negative indices survive decoding whatever the variant count. */
  lemma NegativeIndexKept(q: Query, queryVariantsSize: nat)
    requires q.queryVariantIndex < 0
    ensures DecodeLine(EncodeLine(q), queryVariantsSize) == Some(q)
  {
    EncodeLineRoundTrip(q, queryVariantsSize);
  }

  /** Decoding commutes with concatenation: lines are judged one by one and
      the survivors stay in input order. */
  lemma {:induction false} DecodeLinesAppend(a: seq<string>, b: seq<string>, queryVariantsSize: nat)
    ensures DecodeLines(a + b, queryVariantsSize) == DecodeLines(a, queryVariantsSize) + DecodeLines(b, queryVariantsSize)
  {
    if a != [] {
      assert (a + b)[1..] == a[1..] + b;
      DecodeLinesAppend(a[1..], b, queryVariantsSize);
    } else {
      assert a + b == b;
    }
  }

  /** When every line is well formed, nothing is dropped. */
  lemma {:induction false} DecodeLinesKeepsValid(lines: seq<string>, queryVariantsSize: nat)
    requires forall j :: 0 <= j < |lines| ==> DecodeLine(lines[j], queryVariantsSize).Some?
    ensures |DecodeLines(lines, queryVariantsSize)| == |lines|
    ensures forall j :: 0 <= j < |lines| ==>
      DecodeLines(lines, queryVariantsSize)[j] == DecodeLine(lines[j], queryVariantsSize).value
  {
    if lines != [] {
      var tail := lines[1..];
      DecodeLinesKeepsValid(tail, queryVariantsSize);
      DecodeLinesOfValidHead(lines, queryVariantsSize);
    }
  }

  /** One step of the decoder on a well-formed first line. */
  lemma DecodeLinesOfValidHead(lines: seq<string>, queryVariantsSize: nat)
    requires lines != [] && DecodeLine(lines[0], queryVariantsSize).Some?
    ensures DecodeLines(lines, queryVariantsSize) ==
      [DecodeLine(lines[0], queryVariantsSize).value] + DecodeLines(lines[1..], queryVariantsSize)
  {
  }

  /** Writing a history in the documented format and reading it back gives
      the same list, in order, when every index is below the variant count
      and no content holds a line terminator. */
  lemma {:induction false} HistoryRoundTrip(disk: Disk, filename: string, history: seq<Query>, queryVariantsSize: nat)
    requires forall k :: 0 <= k < |history| ==> history[k].queryVariantIndex < queryVariantsSize
    requires forall k :: 0 <= k < |history| ==> NoTerminators(history[k].content)
    ensures LoadQueryHistoryFile(SaveQueryHistoryFile(disk, filename, history), filename, queryVariantsSize) == Success(history)
  {
    var lines := EncodeLines(history);
    forall k | 0 <= k < |lines| ensures NoTerminators(lines[k]) {
      EncodeLineNoTerminators(history[k]);
    }
    LinesOfJoin(lines);
    forall j | 0 <= j < |lines| ensures DecodeLine(lines[j], queryVariantsSize) == Some(history[j]) {
      EncodeLineRoundTrip(history[j], queryVariantsSize);
    }
    DecodeLinesKeepsValid(lines, queryVariantsSize);
    var decoded := DecodeLines(lines, queryVariantsSize);
    assert decoded == history;
    assert SaveQueryHistoryFile(disk, filename, history)[filename] == Join(lines);
  }

  lemma EncodeLineNoTerminators(q: Query)
    requires NoTerminators(q.content)
    ensures NoTerminators(EncodeLine(q))
  {
    var prefix := IntToDecimal(q.queryVariantIndex);
    var line := EncodeLine(q);
    forall k | 0 <= k < |line| ensures !IsTerminator(line[k]) {
      if k < |prefix| {
        assert line[k] == prefix[k];
      } else if k > |prefix| {
        assert line[k] == q.content[k - |prefix| - 1];
      }
    }
  }

  // ---------------------------------------------------------------------
  // The shipped writer loses the history

  /** An as-written line whose index character is neither a digit nor a
      line terminator never decodes: the text before the first space is then
      empty (the character is itself a space), a bare sign, or a single
      non-digit, and none of these is an `Int`. */
  lemma AsWrittenLineDropped(q: Query, queryVariantsSize: nat)
    requires !IsDigit(WrittenIndexChar(q.queryVariantIndex))
    requires !IsTerminator(WrittenIndexChar(q.queryVariantIndex))
    ensures DecodeLine(AsWrittenLine(q), queryVariantsSize) == None
  {
    var c := WrittenIndexChar(q.queryVariantIndex);
    if c == ' ' {
      assert AsWrittenLine(q) == [] + " " + ([' '] + q.content);
      DecodeLineSplitsAtFirstSpace([], [' '] + q.content, queryVariantsSize);
    } else {
      assert AsWrittenLine(q) == [c] + " " + q.content;
      DecodeLineSplitsAtFirstSpace([c], q.content, queryVariantsSize);
      assert ParseInt32([c]) == None;
    }
  }

  /** For histories that use only the first 48 variants (leaving out the two
      indices that write a line terminator), saving with the shipped writer
      and loading again yields an EMPTY history: no line survives. */
  lemma {:induction false} AsWrittenHistoryIsLost(disk: Disk, filename: string, history: seq<Query>, queryVariantsSize: nat)
    requires forall k :: 0 <= k < |history| ==>
      0 <= history[k].queryVariantIndex < 48 && history[k].queryVariantIndex != 10 && history[k].queryVariantIndex != 13
    requires forall k :: 0 <= k < |history| ==> NoTerminators(history[k].content)
    ensures LoadQueryHistoryFile(SaveQueryHistoryFileAsWritten(disk, filename, history), filename, queryVariantsSize) == Success([])
  {
    var lines := AsWrittenLines(history);
    forall k | 0 <= k < |lines| ensures NoTerminators(lines[k]) {
      assert WrittenIndexChar(history[k].queryVariantIndex) as int == history[k].queryVariantIndex;
    }
    LinesOfJoin(lines);
    forall j | 0 <= j < |lines| ensures DecodeLine(lines[j], queryVariantsSize) == None {
      assert WrittenIndexChar(history[j].queryVariantIndex) as int == history[j].queryVariantIndex;
      AsWrittenLineDropped(history[j], queryVariantsSize);
    }
    NoLineDecodes(lines, queryVariantsSize);
  }

  lemma {:induction false} NoLineDecodes(lines: seq<string>, queryVariantsSize: nat)
    requires forall j :: 0 <= j < |lines| ==> DecodeLine(lines[j], queryVariantsSize) == None
    ensures DecodeLines(lines, queryVariantsSize) == []
  {
    if lines != [] {
      NoLineDecodes(lines[1..], queryVariantsSize);
    }
  }

  /** The shipped file holds one line per query, in list order, each the
      index character, a space and the content, as long as no index is
      written as a line terminator and no content holds one. */
  lemma {:induction false} AsWrittenFileLines(disk: Disk, filename: string, history: seq<Query>)
    requires forall k :: 0 <= k < |history| ==> !IsTerminator(WrittenIndexChar(history[k].queryVariantIndex))
    requires forall k :: 0 <= k < |history| ==> NoTerminators(history[k].content)
    ensures Lines(SaveQueryHistoryFileAsWritten(disk, filename, history)[filename]) == AsWrittenLines(history)
  {
    var lines := AsWrittenLines(history);
    forall k | 0 <= k < |lines| ensures NoTerminators(lines[k]) {
      var line := AsWrittenLine(history[k]);
      forall j | 0 <= j < |line| ensures !IsTerminator(line[j]) {
        if j >= 2 {
          assert line[j] == line[2..][j - 2];
        }
      }
    }
    LinesOfJoin(lines);
  }

  /** The shipped writer also CORRUPTS history: indices 48 to 57 are written
      as the characters `'0'` to `'9'` and read back as indices 0 to 9. */
  lemma AsWrittenIndexCorrupted(q: Query, queryVariantsSize: nat)
    requires 48 <= q.queryVariantIndex < 58 && q.queryVariantIndex - 48 < queryVariantsSize
    ensures DecodeLine(AsWrittenLine(q), queryVariantsSize) == Some(Query(q.queryVariantIndex - 48, q.content))
  {
    var c := WrittenIndexChar(q.queryVariantIndex);
    assert IsDigit(c) && DigitValue(c) == q.queryVariantIndex - 48;
    assert AsWrittenLine(q) == [c] + " " + q.content;
    DecodeLineSplitsAtFirstSpace([c], q.content, queryVariantsSize);
    assert DigitsValue([c]) == DigitValue(c) by {
      assert [c][..0] == [];
    }
    ParseInt32Digits("", [c]);
    assert "" + [c] == [c];
  }

  /** A lookup with variant 49 comes back as a lookup with variant 1. */
  lemma AsWrittenCorruptionExample()
    ensures DecodeLine(AsWrittenLine(Query(49, "x")), 50) == Some(Query(1, "x"))
  {
    AsWrittenIndexCorrupted(Query(49, "x"), 50);
  }

  /** The concrete case: one lookup with the default variant is written as
      `"\0 cat\n"` and reads back as nothing, whereas the documented line
      `"0 cat"` reads back as the query. */
  lemma AsWrittenCounterexample(disk: Disk, filename: string)
    ensures LoadQueryHistoryFile(SaveQueryHistoryFileAsWritten(disk, filename, [Query(0, "cat")]), filename, 1) == Success([])
    ensures LoadQueryHistoryFile(SaveQueryHistoryFile(disk, filename, [Query(0, "cat")]), filename, 1) == Success([Query(0, "cat")])
  {
    AsWrittenHistoryIsLost(disk, filename, [Query(0, "cat")], 1);
    HistoryRoundTrip(disk, filename, [Query(0, "cat")], 1);
  }
}
