/** The search templates of `data/QueryVariant.kt`: the `QueryVariant`
    record with its `$` invariant, `render`, the built-in `GOOGLE_DEFINE`,
    and the `<colorULong> <template>` file codec. */
module QueryVariants {
  import opened Wrappers
  import opened Decimal
  import opened Text
  import opened Storage

  /** A Compose `Color`, kept opaque as its packed 64-bit `value`. */
  type Color = ULong

  /** Why a `runCatching` variants load failed: the file could not be
      opened, or the `QueryVariant` constructor threw for a template. */
  datatype VariantError =
    | Unreadable(cause: LoadError)
    | MissingPlaceholder(template: string)

  /** A search template: every `$` in `template` is replaced by the query. */
  datatype QueryVariant = QueryVariant(template: string, color: Color) {

    /** The `init { require(...) }` of the data class. */
    predicate Valid() {
      '$' in template
    }

    /** `render(content)`: `template.replace("$", content)`. */
    function Render(content: string): (r: string)
      ensures |r| == |template| + Placeholders(template) * (|content| - 1)
      ensures '$' !in content ==> '$' !in r
    {
      ReplaceLeavesNoPlaceholder(template, content);
      Replace(template, content)
    }
  }

  /** Constructing a `QueryVariant`: the `require` in `init` throws when the
      template has no `$`. */
  function MakeQueryVariant(template: string, color: Color): (r: Result<QueryVariant, VariantError>)
    ensures r.Success? <==> '$' in template
    ensures r.Success? ==> r.value.Valid() && r.value.template == template && r.value.color == color
    ensures r.Failure? ==> r.error == MissingPlaceholder(template)
  {
    if '$' in template then Success(QueryVariant(template, color))
    else Failure(MissingPlaceholder(template))
  }

  /** Number of `$` placeholders in a template. */
  function Placeholders(t: string): nat {
    if t == [] then 0 else (if t[0] == '$' then 1 else 0) + Placeholders(t[1..])
  }

  /** Literal (non-regex) replacement of every `$` by `content`. */
  function Replace(t: string, content: string): (r: string)
    ensures |r| == |t| + Placeholders(t) * (|content| - 1)
  {
    if t == [] then []
    else (if t[0] == '$' then content else [t[0]]) + Replace(t[1..], content)
  }

  /** The built-in Google "define:" search. Its color is the packed value
      Compose computes for `Color(0, 100, 200, 120)`: ARGB `0x780064C8`
      shifted into the upper 32 bits. */
  const GOOGLE_DEFINE: QueryVariant :=
    QueryVariant("https://www.google.com/search?q=define%3A$", 0x7800_64C8_0000_0000)

  const DEFAULT: QueryVariant := GOOGLE_DEFINE

  /** The built-in template passes the constructor's check. */
  lemma GoogleDefineIsValid()
    ensures MakeQueryVariant(GOOGLE_DEFINE.template, GOOGLE_DEFINE.color) == Success(GOOGLE_DEFINE)
    ensures DEFAULT.Valid()
  {
    assert GOOGLE_DEFINE.template[41] == '$';
  }

  // ---------------------------------------------------------------------
  // Properties of render

  /** Rendering works character by character: it distributes over
      concatenation, replaces a `$` by the content and keeps any other
      character. Together these determine `Replace` completely. */
  lemma {:induction false} ReplaceAppend(a: string, b: string, content: string)
    ensures Replace(a + b, content) == Replace(a, content) + Replace(b, content)
  {
    if a == [] {
      assert a + b == b;
    } else {
      assert (a + b)[1..] == a[1..] + b;
      ReplaceAppend(a[1..], b, content);
    }
  }

  lemma ReplaceChar(c: char, content: string)
    ensures Replace([c], content) == if c == '$' then content else [c]
  {
    assert [c][1..] == [];
  }

  /** Rendering with the text `"$"` gives the template back. */
  lemma {:induction false} ReplaceWithPlaceholderIsIdentity(t: string)
    ensures Replace(t, "$") == t
  {
    if t != [] {
      ReplaceWithPlaceholderIsIdentity(t[1..]);
    }
  }

  lemma RenderPlaceholderIsIdentity(v: QueryVariant)
    ensures v.Render("$") == v.template
  {
    ReplaceWithPlaceholderIsIdentity(v.template);
  }

  /** A template without `$` renders to itself. */
  lemma {:induction false} ReplaceWithoutPlaceholder(t: string, content: string)
    requires '$' !in t
    ensures Replace(t, content) == t
  {
    if t != [] {
      ReplaceWithoutPlaceholder(t[1..], content);
    }
  }

  /** Every placeholder is substituted: when the content has no `$`, the
      rendered text has none either. */
  lemma {:induction false} ReplaceLeavesNoPlaceholder(t: string, content: string)
    ensures '$' !in content ==> '$' !in Replace(t, content)
  {
    if t != [] {
      ReplaceLeavesNoPlaceholder(t[1..], content);
    }
  }

  /** A template with a single `$` renders to the text around it with the
      content in between. */
  lemma RenderSinglePlaceholder(before: string, after: string, color: Color, content: string)
    requires '$' !in before && '$' !in after
    ensures QueryVariant(before + "$" + after, color).Render(content) == before + content + after
  {
    ReplaceAppend(before + "$", after, content);
    ReplaceAppend(before, "$", content);
    ReplaceWithoutPlaceholder(before, content);
    ReplaceWithoutPlaceholder(after, content);
    ReplaceChar('$', content);
  }

  // ---------------------------------------------------------------------
  // Decoding

  /** The `mapNotNull` body of `loadQueryVariantsFile`. `Success(None)`
      drops the line (no space, a color that is not a `ULong`, a blank
      template); `Failure` is the constructor throwing for a non-blank
      template without `$`, which aborts the whole load. */
  function DecodeLine(line: string): (r: Result<Option<QueryVariant>, VariantError>)
    ensures r.Success? && r.value.Some? ==> r.value.value.Valid()
    ensures r.Success? && r.value.Some? ==> |r.value.value.template| < |line|
  {
    match IndexOf(line, ' ')
    case None => Success(None)
    case Some(sep) =>
      var colorULong := ParseULong(line[..sep]);
      var template := line[sep + 1..];
      if colorULong.Some? && !IsBlank(template) then
        match MakeQueryVariant(template, colorULong.value)
        case Success(v) => Success(Some(v))
        case Failure(e) => Failure(e)
      else Success(None)
  }

  /** `lines.mapNotNull { ... }.toList()` inside `runCatching`: the first
      line whose constructor throws turns the whole load into a failure. */
  function DecodeLines(lines: seq<string>): (r: Result<seq<QueryVariant>, VariantError>)
    ensures r.Success? ==> |r.value| <= |lines|
    ensures r.Success? ==> forall k :: 0 <= k < |r.value| ==> r.value[k].Valid()
    ensures r.Failure? <==> exists j :: 0 <= j < |lines| && DecodeLine(lines[j]).Failure?
  {
    if lines == [] then Success([])
    else
      var rest := DecodeLines(lines[1..]);
      assert rest.Failure? <==> exists j :: 1 <= j < |lines| && DecodeLine(lines[j]).Failure? by {
        if rest.Failure? {
          var j :| 0 <= j < |lines[1..]| && DecodeLine(lines[1..][j]).Failure?;
          assert lines[1..][j] == lines[j + 1];
        }
        if exists j :: 1 <= j < |lines| && DecodeLine(lines[j]).Failure? {
          var j :| 1 <= j < |lines| && DecodeLine(lines[j]).Failure?;
          assert lines[1..][j - 1] == lines[j];
        }
      }
      match DecodeLine(lines[0])
      case Failure(e) => Failure(e)
      case Success(head) =>
        match rest
        case Failure(e) => Failure(e)
        case Success(tail) => Success(if head.Some? then [head.value] + tail else tail)
  }

  /** `loadQueryVariantsFile`: a missing or unreadable file, or a template
      without `$`, is a failure; otherwise the decoded, all-valid list. */
  function LoadQueryVariantsFile(disk: Disk, filename: string): (r: Result<seq<QueryVariant>, VariantError>)
    ensures filename !in disk ==> r == Failure(Unreadable(FileUnreadable(filename)))
    ensures r.Failure? <==> (filename !in disk ||
      exists j :: 0 <= j < |Lines(disk[filename])| && DecodeLine(Lines(disk[filename])[j]).Failure?)
    ensures r.Success? ==> forall k :: 0 <= k < |r.value| ==> r.value[k].Valid()
  {
    match ReadLines(disk, filename)
    case Failure(e) => Failure(Unreadable(e))
    case Success(lines) => DecodeLines(lines)
  }

  /** A valid template always contains a non-whitespace character. */
  lemma ValidIsNotBlank(v: QueryVariant)
    requires v.Valid()
    ensures !IsBlank(v.template)
  {
    var k :| 0 <= k < |v.template| && v.template[k] == '$';
  }

  /** A line with no space is dropped. */
  lemma DecodeLineWithoutSpace(line: string)
    requires ' ' !in line
    ensures DecodeLine(line) == Success(None)
  {
  }

  /** For a line with a space, the decoder's full behaviour: split at the
      FIRST space, the template being the whole remainder (spaces
      included); drop it unless the color reads as a `ULong` and the
      template is not blank; then the constructor decides. */
  lemma DecodeLineSplitsAtFirstSpace(prefix: string, template: string)
    requires ' ' !in prefix
    ensures DecodeLine(prefix + " " + template) ==
      if ParseULong(prefix).None? || IsBlank(template) then Success(None)
      else if '$' in template then Success(Some(QueryVariant(template, ParseULong(prefix).value)))
      else Failure(MissingPlaceholder(template))
  {
    var line := prefix + " " + template;
    IndexOfAfterPrefix(prefix, ' ', template);
    assert line[..|prefix|] == prefix;
    assert line[|prefix| + 1..] == template;
  }

  /** Decoding works line by line: the first failure (in input order)
      decides a failed load; otherwise the kept variants of both parts are
      concatenated, so dropped lines leave the others in input order. */
  lemma {:induction false} DecodeLinesAppend(a: seq<string>, b: seq<string>)
    ensures DecodeLines(a + b) ==
      if DecodeLines(a).Failure? then DecodeLines(a)
      else if DecodeLines(b).Failure? then DecodeLines(b)
      else Success(DecodeLines(a).value + DecodeLines(b).value)
  {
    if a == [] {
      assert a + b == b;
      if DecodeLines(b).Success? {
        assert [] + DecodeLines(b).value == DecodeLines(b).value;
      }
    } else {
      assert (a + b)[0] == a[0];
      assert (a + b)[1..] == a[1..] + b;
      DecodeLinesAppend(a[1..], b);
      var restA := DecodeLines(a[1..]);
      var restB := DecodeLines(b);
      match DecodeLine(a[0])
      case Failure(_) =>
      case Success(head) =>
        if restA.Success? && restB.Success? && head.Some? {
          assert [head.value] + (restA.value + restB.value) == ([head.value] + restA.value) + restB.value;
        }
    }
  }

  /** A dropped line contributes nothing; a kept line contributes its
      variant in front of the rest. */
  lemma DecodeLinesStep(line: string, rest: seq<string>)
    requires DecodeLine(line).Success?
    ensures DecodeLines([line] + rest) ==
      match DecodeLines(rest)
      case Failure(e) => Failure(e)
      case Success(tail) =>
        Success(if DecodeLine(line).value.Some? then [DecodeLine(line).value.value] + tail else tail)
  {
    assert ([line] + rest)[1..] == rest;
  }

  /** One non-blank template without `$` loses the whole file, even when the
      other lines are fine. */
  lemma MissingPlaceholderFailsLoad(good: seq<string>, prefix: string, template: string, more: seq<string>)
    requires ' ' !in prefix && ParseULong(prefix).Some?
    requires !IsBlank(template) && '$' !in template
    ensures DecodeLines(good + [prefix + " " + template] + more).Failure?
  {
    DecodeLineSplitsAtFirstSpace(prefix, template);
    var lines := good + [prefix + " " + template] + more;
    assert lines[|good|] == prefix + " " + template;
  }

  // ---------------------------------------------------------------------
  // Encoding

  /** The line `saveQueryVariantsFile` writes: the color's unsigned decimal,
      a space, the template. */
  function EncodeLine(v: QueryVariant): (line: string)
    ensures IndexOf(line, ' ') == Some(|NatToDecimal(v.color)|)
    ensures line[|NatToDecimal(v.color)| + 1..] == v.template
  {
    var color := NatToDecimal(v.color);
    assert ' ' !in color;
    IndexOfAfterPrefix(color, ' ', v.template);
    color + " " + v.template
  }

  function EncodeLines(variants: seq<QueryVariant>): seq<string> {
    seq(|variants|, k requires 0 <= k < |variants| => EncodeLine(variants[k]))
  }

  /** `saveQueryVariantsFile`: one line per variant, in list order, each
      followed by a newline. */
  function SaveQueryVariantsFile(disk: Disk, filename: string, variants: seq<QueryVariant>): (d: Disk)
    ensures filename in d && d.Keys == disk.Keys + {filename}
    ensures forall f :: f in disk && f != filename ==> d[f] == disk[f]
    ensures |variants| > 0 ==>
      var color := NatToDecimal(variants[0].color);
      |color| < |d[filename]| && d[filename][..|color|] == color && d[filename][|color|] == ' '
  {
    var text := Join(EncodeLines(variants));
    assert |variants| > 0 ==> text == EncodeLine(variants[0]) + "\n" + Join(EncodeLines(variants)[1..]);
    WriteText(disk, filename, text)
  }

  lemma EncodeLineRoundTrip(v: QueryVariant)
    requires v.Valid()
    ensures DecodeLine(EncodeLine(v)) == Success(Some(v))
  {
    var prefix := NatToDecimal(v.color);
    assert ' ' !in prefix;
    ULongRoundTrip(v.color);
    ValidIsNotBlank(v);
    DecodeLineSplitsAtFirstSpace(prefix, v.template);
  }

  lemma EncodeLineNoTerminators(v: QueryVariant)
    requires NoTerminators(v.template)
    ensures NoTerminators(EncodeLine(v))
  {
    var prefix := NatToDecimal(v.color);
    var line := EncodeLine(v);
    forall k | 0 <= k < |line| ensures !IsTerminator(line[k]) {
      if k < |prefix| {
        assert line[k] == prefix[k];
      } else if k > |prefix| {
        assert line[k] == v.template[k - |prefix| - 1];
      }
    }
  }

  lemma {:induction false} DecodeEncodedLines(variants: seq<QueryVariant>)
    requires forall k :: 0 <= k < |variants| ==> variants[k].Valid()
    ensures DecodeLines(EncodeLines(variants)) == Success(variants)
  {
    if variants != [] {
      var lines := EncodeLines(variants);
      assert lines[0] == EncodeLine(variants[0]);
      EncodeLineRoundTrip(variants[0]);
      assert lines[1..] == EncodeLines(variants[1..]);
      DecodeEncodedLines(variants[1..]);
      var rest := DecodeLines(lines[1..]);
      assert rest == Success(variants[1..]);
      assert DecodeLines(lines) == Success([variants[0]] + variants[1..]);
      assert [variants[0]] + variants[1..] == variants;
    }
  }

  /** Saving valid variants and loading them again gives the same list, in
      order, when no template holds a line terminator. */
  lemma {:induction false} VariantsRoundTrip(disk: Disk, filename: string, variants: seq<QueryVariant>)
    requires forall k :: 0 <= k < |variants| ==> variants[k].Valid()
    requires forall k :: 0 <= k < |variants| ==> NoTerminators(variants[k].template)
    ensures LoadQueryVariantsFile(SaveQueryVariantsFile(disk, filename, variants), filename) == Success(variants)
  {
    var lines := EncodeLines(variants);
    forall k | 0 <= k < |lines| ensures NoTerminators(lines[k]) {
      EncodeLineNoTerminators(variants[k]);
    }
    LinesOfJoin(lines);
    DecodeEncodedLines(variants);
    assert SaveQueryVariantsFile(disk, filename, variants)[filename] == Join(lines);
  }
}
