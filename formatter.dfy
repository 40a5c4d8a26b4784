/** The canonical tfvars formatter of scripts/load_terraform_config.py
    (`_needs_quotes` to `_dump_tfvars`): a value tree rendered as text with
    two spaces of indentation per level, one list element or map entry per
    line, `=` signs of a map aligned, and a trailing line feed.

    String quoting is written out as `json.dumps` does it with its default
    `ensure_ascii`: short escapes, printable ASCII as it is, `\uXXXX`
    otherwise. A float is rendered as the literal text it was parsed from,
    standing in for `repr`. */
module Formatter {
  import opened Values
  import opened Grammar

  // ---------------------------------------------------------------------
  // Keys

  /** A key `_format_key` writes bare: non-empty, starting with a letter or
      an underscore, and made of letters, digits and underscores. */
  predicate IsBareKey(text: string) {
    |text| > 0 && (IsLetter(text[0]) || text[0] == '_') &&
    forall k :: 0 <= k < |text| ==> IsAlnum(text[k]) || text[k] == '_'
  }

  /** `_needs_quotes` */
  method NeedsQuotes(text: string) returns (r: bool)
    ensures r == !IsBareKey(text)
  {
    if |text| == 0 {
      return true;
    }
    if !IsLetter(text[0]) && text[0] != '_' {
      return true;
    }
    for n := 0 to |text|
      invariant forall k :: 0 <= k < n ==> IsAlnum(text[k]) || text[k] == '_'
    {
      var ch := text[n];
      if !(IsAlnum(ch) || ch == '_') {
        return true;
      }
    }
    return false;
  }

  /** `_format_key` */
  function FormatKey(text: string): string {
    if IsBareKey(text) then text else Quote(text)
  }

  /** A key is written as it is exactly when it is a bare key. */
  lemma FormatKeyBare(text: string)
    ensures FormatKey(text) == text <==> IsBareKey(text)
  {
    if !IsBareKey(text) {
      QuoteLength(text);
    }
  }

  /** A formatted key reads back as that key, whatever follows it that
      cannot continue an identifier. */
  lemma FormatKeyReadsBack(text: string, rest: string)
    requires BasicPlane(text) && (rest == "" || !IsIdentChar(rest[0]))
    ensures KeyAt(FormatKey(text) + rest, 0) == Ok((text, |FormatKey(text)|))
  {
    if IsBareKey(text) {
      BareKeyReadsBack(text, rest);
    } else {
      QuotedKeyReadsBack(text, rest);
    }
  }

  lemma BareKeyReadsBack(text: string, rest: string)
    requires IsBareKey(text) && (rest == "" || !IsIdentChar(rest[0]))
    ensures KeyAt(text + rest, 0) == Ok((text, |text|))
  {
    var t := text + rest;
    assert t[0] == text[0];
    NotTriviaAt(t, 0);
    assert t[..|text|] == text;
    IdentEndOfBare(t, text, 0);
    assert t[0..|text|] == text;
  }

  lemma QuotedKeyReadsBack(text: string, rest: string)
    requires BasicPlane(text)
    ensures KeyAt(Quote(text) + rest, 0) == Ok((text, |Quote(text)|))
  {
    var t := Quote(text) + rest;
    QuoteReadsBack(text, rest);
    assert t[0] == '"';
    NotTriviaAt(t, 0);
  }

  /** Trivia never starts at a character other than a blank, `#` or `/`. */
  lemma NotTriviaAt(t: string, i: nat)
    requires i < |t| && !IsBlank(t[i]) && t[i] != '#' && t[i] != '/'
    ensures SkipTrivia(t, i) == Ok(i)
  {
    assert !StartsWith(t, i, "//") by {
      assert i + 2 <= |t| ==> t[i..i + 2][0] == t[i];
    }
    assert !StartsWith(t, i, "/*") by {
      assert i + 2 <= |t| ==> t[i..i + 2][0] == t[i];
    }
  }

  lemma {:induction false} IdentEndOfBare(t: string, text: string, k: nat)
    requires IsBareKey(text) && |text| <= |t| && t[..|text|] == text && k <= |text|
    requires |text| == |t| || !IsIdentChar(t[|text|])
    ensures IdentEnd(t, k) == |text|
    decreases |text| - k
  {
    if k < |text| {
      assert t[k] == text[k];
      IdentEndOfBare(t, text, k + 1);
    }
  }

  // ---------------------------------------------------------------------
  // String quoting

  function HexDigitChar(d: nat): (c: char)
    requires d < 16
    ensures IsHexDigit(c) && HexDigitValue(c) == d
  {
    if d < 10 then ('0' as int + d) as char else ('a' as int + d - 10) as char
  }

  /** The letter that follows the backslash when `c` has a short escape. */
  function ShortEscape(c: char): (m: Option<char>)
    ensures m.Some? ==> m.value != 'u' && SimpleEscape(m.value) == Some(c)
  {
    if c == '"' then Some('"')
    else if c == '\\' then Some('\\')
    else if c == '\U{8}' then Some('b')
    else if c == '\U{C}' then Some('f')
    else if c == '\n' then Some('n')
    else if c == '\r' then Some('r')
    else if c == '\t' then Some('t')
    else None
  }

  /** The last `count` hexadecimal digits of `n`, in lower case. */
  function HexDigits(n: nat, count: nat): (d: string)
    ensures |d| == count && forall k :: 0 <= k < count ==> IsHexDigit(d[k])
  {
    if count == 0 then "" else HexDigits(n / 0x10, count - 1) + [HexDigitChar(n % 0x10)]
  }

  /** A `\uXXXX` escape with four lower-case hexadecimal digits. */
  function HexEscape(n: nat): (e: string)
    requires n < 0x1_0000
    ensures |e| == 6 && e[0] == '\\' && e[1] == 'u'
    ensures forall k :: 2 <= k < 6 ==> IsHexDigit(e[k])
  {
    "\\u" + HexDigits(n, 4)
  }

  /** The four digits of a unicode escape read back as its number. */
  lemma HexEscapeValue(n: nat)
    requires n < 0x1_0000
    ensures HexValue(HexEscape(n)[2..6]) == n
  {
    var n1 := n / 0x10;
    var n2 := n1 / 0x10;
    var n3 := n2 / 0x10;
    var d := HexDigits(n, 4);
    assert HexEscape(n)[2..6] == d;
    assert d == HexDigits(n1, 3) + [HexDigitChar(n % 0x10)];
    assert HexDigits(n1, 3) == HexDigits(n2, 2) + [HexDigitChar(n1 % 0x10)];
    assert HexDigits(n2, 2) == HexDigits(n3, 1) + [HexDigitChar(n2 % 0x10)];
    assert HexDigits(n3, 1) == [HexDigitChar(n3 % 0x10)];
    assert n3 < 0x10;
  }

  /** The text `json.dumps` writes for `c` between the quotes (it escapes
      everything outside printable ASCII): a short escape, the character
      itself when it is printable ASCII, a `\uXXXX` escape for another
      character of the basic plane, and a surrogate pair of such escapes
      above it. */
  function EscapeChar(c: char): (e: string)
    ensures |e| >= 1
  {
    match ShortEscape(c)
    case Some(m) => ['\\', m]
    case None =>
      if ' ' <= c <= '~' then [c]
      else if c as int < 0x1_0000 then HexEscape(c as int)
      else
        var n := c as int - 0x1_0000;
        HexEscape(0xD800 + n / 0x400) + HexEscape(0xDC00 + n % 0x400)
  }

  /** Every character of `s` lies in the basic multilingual plane, so that
      `json.dumps` writes it with at most one escape. */
  predicate BasicPlane(s: string) {
    forall k :: 0 <= k < |s| ==> s[k] as int < 0x1_0000
  }

  function QuoteBody(s: string): string {
    if |s| == 0 then "" else EscapeChar(s[0]) + QuoteBody(s[1..])
  }

  /** The double-quoted form of `s`, in place of `json.dumps(s)`. */
  function Quote(s: string): string {
    "\"" + QuoteBody(s) + "\""
  }

  lemma {:induction false} QuoteLength(s: string)
    ensures |Quote(s)| >= |s| + 2
  {
    QuoteBodyLength(s);
  }

  lemma {:induction false} QuoteBodyLength(s: string)
    ensures |QuoteBody(s)| >= |s|
  {
    if |s| > 0 {
      QuoteBodyLength(s[1..]);
    }
  }

  /** A quoted string of the basic plane reads back as that string,
      whatever follows it. */
  lemma QuoteReadsBack(s: string, rest: string)
    requires BasicPlane(s)
    ensures StringAt(Quote(s) + rest, 0) == Ok((s, |Quote(s)|))
  {
    var t := Quote(s) + rest;
    var body := QuoteBody(s);
    assert t == "\"" + body + "\"" + rest;
    assert t[1..1 + |body|] == body;
    assert t[1 + |body|] == '"';
    assert StartsWith(t, 0, "\"") by {
      assert t[0..1] == "\"";
    }
    QuoteBodyEncoded(t, 1, s);
    EncodedReadsAs(t, 1, s, 1 + |body| + 1);
    StringBodyReadsAs(t, 1, s, 1 + |body| + 1, []);
    assert [] + s == s;
  }

  /** The text from `i` on decodes, piece by piece, to `s` and then a
      closing quote that ends at `end`. */
  predicate ReadsAs(t: string, i: nat, s: string, end: nat)
    decreases |s|
  {
    i < |t| &&
    match StringPieceAt(t, i)
    case ClosingQuote => |s| == 0 && end == i + 1
    case Decoded(c, j) => |s| > 0 && c == s[0] && ReadsAs(t, j, s[1..], end)
    case BadPiece(_) => false
  }

  /** The loop of `_parse_string` returns what the pieces decode to. */
  lemma {:induction false} StringBodyReadsAs(t: string, i: nat, s: string, end: nat, acc: string)
    requires i <= |t| && ReadsAs(t, i, s, end)
    ensures StringBody(t, i, acc) == Ok((acc + s, end))
    decreases |s|
  {
    match StringPieceAt(t, i)
    case ClosingQuote =>
      assert acc + s == acc;
    case Decoded(c, j) =>
      StringBodyReadsAs(t, j, s[1..], end, acc + [c]);
      assert acc + [c] + s[1..] == acc + s;
  }

  /** The text from `i` on holds the escapes of `s`, one after the
      other, and then a closing quote that ends at `end`. */
  predicate EncodedAt(t: string, i: nat, s: string, end: nat)
    decreases |s|
  {
    if |s| == 0 then i < |t| && t[i] == '"' && end == i + 1
    else
      var e := EscapeChar(s[0]);
      i + |e| < |t| && t[i..i + |e|] == e && EncodedAt(t, i + |e|, s[1..], end)
  }

  /** QuoteBody followed by a quote is the escapes one after the other. */
  lemma {:induction false} QuoteBodyEncoded(t: string, i: nat, s: string)
    requires i + |QuoteBody(s)| < |t|
    requires t[i..i + |QuoteBody(s)|] == QuoteBody(s) && t[i + |QuoteBody(s)|] == '"'
    ensures EncodedAt(t, i, s, i + |QuoteBody(s)| + 1)
    decreases |s|
  {
    if |s| > 0 {
      var e := EscapeChar(s[0]);
      var tail := QuoteBody(s[1..]);
      assert QuoteBody(s) == e + tail;
      SlicesOfConcat(t, i, e, tail);
      QuoteBodyEncoded(t, i + |e|, s[1..]);
    }
  }

  /** Escapes of basic-plane characters decode piece by piece. */
  lemma {:induction false} EncodedReadsAs(t: string, i: nat, s: string, end: nat)
    requires BasicPlane(s) && EncodedAt(t, i, s, end)
    ensures ReadsAs(t, i, s, end)
    decreases |s|
  {
    if |s| == 0 {
      assert StringPieceAt(t, i) == ClosingQuote;
    } else {
      var e := EscapeChar(s[0]);
      assert BasicPlane(s[1..]) by {
        forall k | 0 <= k < |s| - 1 ensures s[1..][k] as int < 0x1_0000 {
          assert s[1..][k] == s[k + 1];
        }
      }
      StringBodyReadsEscape(t, i, s[0]);
      EncodedReadsAs(t, i + |e|, s[1..], end);
      ReadsAsStep(t, i, i + |e|, s, end);
    }
  }

  lemma ReadsAsStep(t: string, i: nat, j: nat, s: string, end: nat)
    requires i < |t| && |s| > 0 && StringPieceAt(t, i) == Decoded(s[0], j)
    requires ReadsAs(t, j, s[1..], end)
    ensures ReadsAs(t, i, s, end)
  {
  }

  /** The two halves of a concatenation found in place. */
  lemma SlicesOfConcat(t: string, i: nat, a: string, b: string)
    requires i + |a| + |b| <= |t| && t[i..i + |a| + |b|] == a + b
    ensures t[i..i + |a|] == a && t[i + |a|..i + |a| + |b|] == b
  {
    assert t[i..i + |a|] == t[i..i + |a| + |b|][..|a|];
    assert t[i + |a|..i + |a| + |b|] == t[i..i + |a| + |b|][|a|..];
  }

  /** One encoded character is one round of the loop of `_parse_string`. */
  lemma StringBodyReadsEscape(t: string, i: nat, c: char)
    requires c as int < 0x1_0000 && i + |EscapeChar(c)| < |t| && t[i..i + |EscapeChar(c)|] == EscapeChar(c)
    ensures StringPieceAt(t, i) == Decoded(c, i + |EscapeChar(c)|)
  {
    var e := EscapeChar(c);
    assert forall k :: 0 <= k < |e| ==> t[i + k] == e[k] by {
      forall k | 0 <= k < |e| ensures t[i + k] == e[k] {
        assert t[i..i + |e|][k] == t[i + k];
      }
    }
    if ShortEscape(c).None? && !(' ' <= c <= '~') {
      assert t[i + 2..i + 6] == e[2..6];
      HexEscapeValue(c as int);
    }
  }

  // ---------------------------------------------------------------------
  // Scalars

  function DigitChar(d: nat): (c: char)
    requires d < 10
    ensures IsDigit(c) && DigitValue(c) == d
  {
    ('0' as int + d) as char
  }

  function NatToString(n: nat): (s: string)
    ensures |s| >= 1 && forall k :: 0 <= k < |s| ==> IsDigit(s[k])
  {
    if n < 10 then [DigitChar(n)] else NatToString(n / 10) + [DigitChar(n % 10)]
  }

  /** `repr(n)` for an integer. */
  function IntToString(n: int): string {
    if n < 0 then "-" + NatToString(-n) else NatToString(n)
  }

  lemma {:induction false} NatToStringValue(n: nat)
    ensures DigitsValue(NatToString(n)) == n
  {
    var s := NatToString(n);
    if n >= 10 {
      NatToStringValue(n / 10);
      assert s[..|s| - 1] == NatToString(n / 10);
    }
  }

  /** `int(repr(n)) == n`: the parser reads a rendered integer back. */
  lemma IntToStringValue(n: int)
    ensures IntLiteralValue(IntToString(n)) == n
  {
    if n < 0 {
      NatToStringValue(-n);
      assert IntToString(n)[1..] == NatToString(-n);
    } else {
      NatToStringValue(n);
    }
  }

  /** Text that may stand for a float: digits, signs, points and exponent
      markers, never empty (what `repr` of a parsed float looks like). */
  predicate IsNumberText(raw: string) {
    |raw| > 0 &&
    forall k :: 0 <= k < |raw| ==>
      IsDigit(raw[k]) || raw[k] in {'.', 'e', 'E', '+', '-'}
  }

  /** The values the formatter is given: every float is number text. */
  predicate Renderable(v: Value)
    decreases v
  {
    match v
    case Float(raw) => IsNumberText(raw)
    case List(items) => forall k :: 0 <= k < |items| ==> Renderable(items[k])
    case Object(entries) => RenderableEntries(entries)
    case _ => true
  }

  predicate RenderableEntries(entries: Entries)
    decreases Object(entries), 0
  {
    forall k :: 0 <= k < |entries| ==> Renderable(entries[k].1)
  }

  /** `_format_scalar`. The source raises TypeError for other types; the
      datatype has none. */
  function FormatScalar(v: Value): (r: string)
    requires v.IsScalar()
  {
    match v
    case Bool(b) => if b then "true" else "false"
    case Null => "null"
    case Int(n) => IntToString(n)
    case Float(raw) => raw
    case Str(s) => Quote(s)
  }

  // ---------------------------------------------------------------------
  // Layout

  function Spaces(n: nat): (s: string)
    ensures |s| == n && forall k :: 0 <= k < n ==> s[k] == ' '
  {
    seq(n, _ => ' ')
  }

  /** `_indent` */
  function Indent(level: nat): (s: string)
    ensures |s| == 2 * level && forall k :: 0 <= k < |s| ==> s[k] == ' '
  {
    Spaces(2 * level)
  }

  /** `_format_value` */
  function FormatValue(v: Value, level: nat): (r: string)
    requires Renderable(v)
    decreases v, 2
  {
    if v.Object? then FormatObject(v.entries, level)
    else if v.List? then FormatList(v.items, level)
    else FormatScalar(v)
  }

  /** A rendering is never empty and ends with neither a line feed nor a comma. */
  lemma FormatValueEnds(v: Value, level: nat)
    requires Renderable(v)
    ensures var r := FormatValue(v, level); r != "" && r[|r| - 1] != '\n' && r[|r| - 1] != ','
  {
    if !v.Object? && !v.List? {
      ScalarShape(v);
    }
  }

  lemma ScalarShape(v: Value)
    requires v.IsScalar() && Renderable(v)
    ensures var r := FormatScalar(v); r != "" && r[|r| - 1] != '\n' && r[|r| - 1] != ','
  {
    match v
    case Int(n) =>
      assert IntToString(n)[|IntToString(n)| - 1] == NatToString(if n < 0 then -n else n)[|NatToString(if n < 0 then -n else n)| - 1];
    case Float(raw) =>
      assert raw[|raw| - 1] in raw;
    case _ =>
  }

  /** `_format_list` */
  function FormatList(items: seq<Value>, level: nat): (r: string)
    requires forall k :: 0 <= k < |items| ==> Renderable(items[k])
    ensures r != "" && r[|r| - 1] == ']'
    decreases List(items), 1
  {
    if |items| == 0 then "[]"
    else
      var lines := ["["] + ListLines(items, level, 0) + [Indent(level) + "]"];
      JoinLinesLast(lines);
      JoinLines(lines)
  }

  /** The lines of the elements from the `k`-th on. */
  function ListLines(items: seq<Value>, level: nat, k: nat): seq<string>
    requires k <= |items|
    requires forall j :: 0 <= j < |items| ==> Renderable(items[j])
    decreases List(items), 0, |items| - k
  {
    if k == |items| then []
    else ElementLines(items, level, k) + ListLines(items, level, k + 1)
  }

  /** The lines of the `k`-th element: its rendering one level deeper, the
      first line indented, and a comma after the last line unless it is the
      last element. */
  function ElementLines(items: seq<Value>, level: nat, k: nat): (lines: seq<string>)
    requires k < |items| && Renderable(items[k])
    ensures |lines| >= 1
    decreases List(items), 0, |items| - k, 0
  {
    Bracketed(SplitLines(FormatValue(items[k], level + 1)), Indent(level + 1), if k != |items| - 1 then "," else "")
  }

  /** Lines with `pre` before the first and `suf` after the last. */
  function Bracketed(rendered: seq<string>, pre: string, suf: string): (lines: seq<string>)
    requires |rendered| >= 1
    ensures |lines| == |rendered|
  {
    if |rendered| == 1 then [pre + rendered[0] + suf]
    else [pre + rendered[0]] + rendered[1..|rendered| - 1] + [rendered[|rendered| - 1] + suf]
  }

  /** The last framed line is the last line with the suffix, and with the
      prefix too when it is also the first. */
  lemma FramedLast(rendered: seq<string>, pre: string, suf: string) returns (q: string)
    requires |rendered| >= 1
    ensures q == (if |rendered| == 1 then pre else "")
    ensures var lines := Bracketed(rendered, pre, suf); lines[|lines| - 1] == q + rendered[|rendered| - 1] + suf
  {
    q := if |rendered| == 1 then pre else "";
    assert "" + rendered[|rendered| - 1] + suf == rendered[|rendered| - 1] + suf;
  }

  /** The last line of a list element ends with a comma exactly when the
      element is not the last one. */
  lemma ElementCommas(items: seq<Value>, level: nat, k: nat)
    requires k < |items| && Renderable(items[k])
    ensures var lines := ElementLines(items, level, k); var last := lines[|lines| - 1];
      last != "" && (last[|last| - 1] == ',' <==> k != |items| - 1)
  {
    var rendered, r := LastRenderedLine(items[k], level + 1);
    var suffix := if k != |items| - 1 then "," else "";
    BracketedComma(rendered, r, Indent(level + 1), suffix);
    assert ElementLines(items, level, k) == Bracketed(rendered, Indent(level + 1), suffix);
  }

  /** Lines whose last one does not end in a comma end in one once framed
      exactly when the suffix is a comma. */
  lemma BracketedComma(rendered: seq<string>, r: string, pre: string, suffix: string)
    requires |rendered| >= 1 && r == rendered[|rendered| - 1] && r != "" && r[|r| - 1] != ','
    requires suffix == "," || suffix == ""
    ensures var lines := Bracketed(rendered, pre, suffix); var last := lines[|lines| - 1];
      last != "" && (last[|last| - 1] == ',' <==> suffix == ",")
  {
    var q := FramedLast(rendered, pre, suffix);
    SuffixEnd(q, r, suffix);
  }

  /** The last line of a rendering ends in neither a line feed nor a comma. */
  lemma LastRenderedLine(v: Value, level: nat) returns (rendered: seq<string>, r: string)
    requires Renderable(v)
    ensures rendered == SplitLines(FormatValue(v, level)) && |rendered| >= 1
    ensures r == rendered[|rendered| - 1] && r != "" && r[|r| - 1] != ','
  {
    var f := FormatValue(v, level);
    FormatValueEnds(v, level);
    SplitLinesLast(f);
    rendered := SplitLines(f);
    r := rendered[|rendered| - 1];
  }

  /** A line that ends in a character other than a comma ends in one once
      exactly when a comma is added to it. */
  lemma SuffixEnd(pre: string, r: string, suffix: string)
    requires r != "" && r[|r| - 1] != ',' && (suffix == "," || suffix == "")
    ensures var w := pre + r + suffix; w != "" && (w[|w| - 1] == ',' <==> suffix == ",")
  {
  }

  /** The width of the widest formatted key. */
  function KeyWidth(entries: Entries): (w: nat)
    ensures forall k :: 0 <= k < |entries| ==> |FormatKey(entries[k].0)| <= w
    ensures |entries| > 0 ==> exists k :: 0 <= k < |entries| && |FormatKey(entries[k].0)| == w
  {
    if |entries| == 0 then 0
    else
      var rest := KeyWidth(entries[1..]);
      var here := |FormatKey(entries[0].0)|;
      assert forall k :: 1 <= k < |entries| ==> entries[k] == entries[1..][k - 1];
      if here >= rest then here
      else
        var j :| 0 <= j < |entries[1..]| && |FormatKey(entries[1..][j].0)| == rest;
        assert entries[j + 1] == entries[1..][j];
        rest
  }

  /** `_format_object` */
  function FormatObject(entries: Entries, level: nat): (r: string)
    requires RenderableEntries(entries)
    ensures r != "" && r[|r| - 1] == '}'
    decreases Object(entries), 1
  {
    if |entries| == 0 then "{}"
    else
      var lines := ["{"] + EntryLines(entries, level, KeyWidth(entries), 0) + [Indent(level) + "}"];
      JoinLinesLast(lines);
      JoinLines(lines)
  }

  /** The lines of the entries from the `k`-th on. */
  function EntryLines(entries: Entries, level: nat, padding: nat, k: nat): seq<string>
    requires k <= |entries| && RenderableEntries(entries)
    requires forall j :: 0 <= j < |entries| ==> |FormatKey(entries[j].0)| <= padding
    decreases Object(entries), 0, |entries| - k
  {
    if k == |entries| then []
    else EntryOwnLines(entries, level, padding, k) + EntryLines(entries, level, padding, k + 1)
  }

  /** The lines of the `k`-th entry: its first line, then the further
      lines of its value's rendering one level deeper. */
  function EntryOwnLines(entries: Entries, level: nat, padding: nat, k: nat): (lines: seq<string>)
    requires k < |entries| && RenderableEntries(entries)
    requires forall j :: 0 <= j < |entries| ==> |FormatKey(entries[j].0)| <= padding
    ensures |lines| >= 1
    decreases Object(entries), 0, |entries| - k, 1
  {
    var rendered := SplitLines(FormatValue(entries[k].1, level + 1));
    [EntryHead(entries, level, padding, k)] + rendered[1..]
  }

  /** The text before the value on the first line of an entry: indent, key,
      padding up to the widest key, and ` = `. */
  function EntryPrefix(key: string, padding: nat, level: nat): string
    requires |key| <= padding
  {
    Indent(level + 1) + key + Spaces(padding - |key|) + " = "
  }

  /** The first line of the `k`-th entry. */
  function EntryHead(entries: Entries, level: nat, padding: nat, k: nat): string
    requires k < |entries| && RenderableEntries(entries)
    requires forall j :: 0 <= j < |entries| ==> |FormatKey(entries[j].0)| <= padding
    decreases Object(entries), 0, |entries| - k, 0
  {
    var rendered := SplitLines(FormatValue(entries[k].1, level + 1));
    EntryPrefix(FormatKey(entries[k].0), padding, level) + rendered[0]
  }

  lemma JoinLinesLast(lines: seq<string>)
    requires |lines| >= 2
    ensures JoinLines(lines) == JoinLines(lines[..|lines| - 1]) + "\n" + lines[|lines| - 1]
  {
    JoinAppend(lines[..|lines| - 1], [lines[|lines| - 1]], '\n');
    assert lines == lines[..|lines| - 1] + [lines[|lines| - 1]];
  }

  // ---------------------------------------------------------------------
  // The layout as text

  lemma JoinFirstPrefixed(lines: seq<string>, pre: string)
    requires |lines| >= 1
    ensures JoinLines([pre + lines[0]] + lines[1..]) == pre + JoinLines(lines)
  {
    var framed := [pre + lines[0]] + lines[1..];
    assert framed[1..] == lines[1..];
  }

  lemma JoinLastSuffixed(lines: seq<string>, suf: string)
    requires |lines| >= 1
    ensures JoinLines(lines[..|lines| - 1] + [lines[|lines| - 1] + suf]) == JoinLines(lines) + suf
  {
    var n := |lines|;
    if n == 1 {
      assert lines[..n - 1] + [lines[n - 1] + suf] == [lines[0] + suf];
    } else {
      JoinAppend(lines[..n - 1], [lines[n - 1] + suf], '\n');
      JoinAppend(lines[..n - 1], [lines[n - 1]], '\n');
      assert lines == lines[..n - 1] + [lines[n - 1]];
    }
  }

  /** The join of lines between an opening and a closing line. */
  lemma Framed(open: string, body: seq<string>, close: string)
    requires |body| >= 1
    ensures JoinLines([open] + body + [close]) == open + "\n" + JoinLines(body) + "\n" + close
  {
    JoinAppend([open] + body, [close], '\n');
    JoinAppend([open], body, '\n');
    var b := JoinLines(body);
    assert JoinLines([open] + body) == open + "\n" + b;
    assert JoinLines([open] + body + [close]) == (open + "\n" + b) + "\n" + close;
  }

  /** The text of the `k`-th element of a list: the element rendered one
      level deeper after the indent of that level, and a comma unless it
      is the last element. */
  function ElementText(items: seq<Value>, level: nat, k: nat): string
    requires k < |items| && Renderable(items[k])
  {
    Indent(level + 1) + FormatValue(items[k], level + 1) + (if k != |items| - 1 then "," else "")
  }

  lemma ElementLinesText(items: seq<Value>, level: nat, k: nat)
    requires k < |items| && Renderable(items[k])
    ensures JoinLines(ElementLines(items, level, k)) == ElementText(items, level, k)
  {
    var x := FormatValue(items[k], level + 1);
    JoinSplitLines(x);
    Wrapped(SplitLines(x), Indent(level + 1), if k != |items| - 1 then "," else "");
  }

  /** Lines with a prefix on the first and a suffix on the last join to
      the joined lines with that prefix and suffix. */
  lemma Wrapped(rendered: seq<string>, pre: string, suf: string)
    requires |rendered| >= 1
    ensures JoinLines(Bracketed(rendered, pre, suf)) == pre + JoinLines(rendered) + suf
  {
    if |rendered| > 1 {
      var framed := [pre + rendered[0]] + rendered[1..];
      JoinFirstPrefixed(rendered, pre);
      assert framed[..|framed| - 1] == [pre + rendered[0]] + rendered[1..|rendered| - 1];
      JoinLastSuffixed(framed, suf);
    }
  }

  /** The element texts from the `k`-th on, one after the other on their
      own lines. */
  function ListText(items: seq<Value>, level: nat, k: nat): string
    requires k < |items| && forall j :: 0 <= j < |items| ==> Renderable(items[j])
    decreases |items| - k
  {
    if k == |items| - 1 then ElementText(items, level, k)
    else ElementText(items, level, k) + "\n" + ListText(items, level, k + 1)
  }

  lemma {:induction false} ListLinesText(items: seq<Value>, level: nat, k: nat)
    requires k < |items| && forall j :: 0 <= j < |items| ==> Renderable(items[j])
    ensures |ListLines(items, level, k)| >= 1
    ensures JoinLines(ListLines(items, level, k)) == ListText(items, level, k)
    decreases |items| - k
  {
    ElementLinesText(items, level, k);
    if k == |items| - 1 {
      assert ListLines(items, level, k) == ElementLines(items, level, k);
    } else {
      ListLinesText(items, level, k + 1);
      JoinAppend(ElementLines(items, level, k), ListLines(items, level, k + 1), '\n');
    }
  }

  /** `_format_list` as text: an empty list is `[]`; otherwise `[`, every
      element on lines of its own, and `]` at the indent of the list. */
  lemma FormatListText(items: seq<Value>, level: nat)
    requires forall j :: 0 <= j < |items| ==> Renderable(items[j])
    ensures |items| == 0 ==> FormatList(items, level) == "[]"
    ensures |items| > 0 ==>
      FormatList(items, level) == "[" + "\n" + ListText(items, level, 0) + "\n" + (Indent(level) + "]")
  {
    if |items| > 0 {
      var body := ListLines(items, level, 0);
      ListLinesText(items, level, 0);
      Framed("[", body, Indent(level) + "]");
    }
  }

  /** The text of the `k`-th entry of a map: indent, key, padding, ` = `,
      and the value rendered one level deeper. */
  function EntryText(entries: Entries, level: nat, padding: nat, k: nat): string
    requires k < |entries| && RenderableEntries(entries)
    requires forall j :: 0 <= j < |entries| ==> |FormatKey(entries[j].0)| <= padding
  {
    EntryPrefix(FormatKey(entries[k].0), padding, level) + FormatValue(entries[k].1, level + 1)
  }

  /** The entry texts from the `k`-th on, one after the other on their own
      lines. */
  function ObjectText(entries: Entries, level: nat, padding: nat, k: nat): string
    requires k < |entries| && RenderableEntries(entries)
    requires forall j :: 0 <= j < |entries| ==> |FormatKey(entries[j].0)| <= padding
    decreases |entries| - k
  {
    if k == |entries| - 1 then EntryText(entries, level, padding, k)
    else EntryText(entries, level, padding, k) + "\n" + ObjectText(entries, level, padding, k + 1)
  }

  lemma EntryOwnLinesText(entries: Entries, level: nat, padding: nat, k: nat)
    requires k < |entries| && RenderableEntries(entries)
    requires forall j :: 0 <= j < |entries| ==> |FormatKey(entries[j].0)| <= padding
    ensures JoinLines(EntryOwnLines(entries, level, padding, k)) == EntryText(entries, level, padding, k)
  {
    var x := FormatValue(entries[k].1, level + 1);
    JoinSplitLines(x);
    JoinFirstPrefixed(SplitLines(x), EntryPrefix(FormatKey(entries[k].0), padding, level));
  }

  lemma {:induction false} EntryLinesText(entries: Entries, level: nat, padding: nat, k: nat)
    requires k < |entries| && RenderableEntries(entries)
    requires forall j :: 0 <= j < |entries| ==> |FormatKey(entries[j].0)| <= padding
    ensures |EntryLines(entries, level, padding, k)| >= 1
    ensures JoinLines(EntryLines(entries, level, padding, k)) == ObjectText(entries, level, padding, k)
    decreases |entries| - k
  {
    EntryOwnLinesText(entries, level, padding, k);
    if k == |entries| - 1 {
      assert EntryLines(entries, level, padding, k) == EntryOwnLines(entries, level, padding, k);
    } else {
      EntryLinesText(entries, level, padding, k + 1);
      JoinAppend(EntryOwnLines(entries, level, padding, k), EntryLines(entries, level, padding, k + 1), '\n');
    }
  }

  /** `_format_object` as text: an empty map is `{}`; otherwise `{`, every
      entry on lines of its own with its key padded to the widest key, and
      `}` at the indent of the map. */
  lemma FormatObjectText(entries: Entries, level: nat)
    requires RenderableEntries(entries)
    ensures |entries| == 0 ==> FormatObject(entries, level) == "{}"
    ensures |entries| > 0 ==>
      FormatObject(entries, level) ==
      "{" + "\n" + ObjectText(entries, level, KeyWidth(entries), 0) + "\n" + (Indent(level) + "}")
  {
    if |entries| > 0 {
      var body := EntryLines(entries, level, KeyWidth(entries), 0);
      EntryLinesText(entries, level, KeyWidth(entries), 0);
      Framed("{", body, Indent(level) + "}");
    }
  }

  /** Where the parts of an entry's first line sit: the key right after
      the indent, then spaces, and ` = ` with the `=` in column
      `2 * (level + 1) + padding + 1`, the same for every key no wider
      than the padding. */
  lemma EntryPrefixColumns(key: string, padding: nat, level: nat)
    requires |key| <= padding
    ensures var p := EntryPrefix(key, padding, level); var col := 2 * (level + 1) + padding + 1;
      |p| == col + 2 && p[..2 * (level + 1)] == Indent(level + 1) &&
      p[2 * (level + 1)..2 * (level + 1) + |key|] == key &&
      (forall j :: 2 * (level + 1) + |key| <= j < col ==> p[j] == ' ') &&
      p[col] == '=' && p[col + 1] == ' '
  {
    var p := EntryPrefix(key, padding, level);
    var w := 2 * (level + 1);
    assert p == Indent(level + 1) + key + (Spaces(padding - |key|) + " = ");
    assert p[..w] == Indent(level + 1);
    assert p[w..w + |key|] == key;
  }

  /** The `=` signs of a map line up: every entry's text has its `=` in
      the same column, and the widest key leaves no space before ` = `. */
  lemma EqualsAligned(entries: Entries, level: nat, k: nat)
    requires k < |entries| && RenderableEntries(entries)
    ensures var col := 2 * (level + 1) + KeyWidth(entries) + 1;
      var text := EntryText(entries, level, KeyWidth(entries), k);
      col < |text| && text[col] == '=' && text[col - 1] == ' '
    ensures exists j :: 0 <= j < |entries| && |FormatKey(entries[j].0)| == KeyWidth(entries)
  {
    EntryPrefixColumns(FormatKey(entries[k].0), KeyWidth(entries), level);
  }

  // ---------------------------------------------------------------------
  // Documents

  /** `_dump_tfvars`: every top-level key written as it is, then ` = ` and
      the value's rendering. */
  function DumpTfvars(tfvars: Entries): (r: string)
    requires RenderableEntries(tfvars)
  {
    JoinLines(DocumentLines(tfvars, 0)) + "\n"
  }

  /** The lines of the top-level entries from the `k`-th on. */
  function DocumentLines(tfvars: Entries, k: nat): seq<string>
    requires k <= |tfvars| && RenderableEntries(tfvars)
    decreases |tfvars| - k
  {
    if k == |tfvars| then []
    else AssignmentLines(tfvars, k) + DocumentLines(tfvars, k + 1)
  }

  /** The lines of the `k`-th top-level entry; a rendering is never empty,
      so the source's guard against one does not arise. */
  function AssignmentLines(tfvars: Entries, k: nat): (lines: seq<string>)
    requires k < |tfvars| && RenderableEntries(tfvars)
    ensures |lines| >= 1
  {
    var rendered := SplitLines(FormatValue(tfvars[k].1, 0));
    [tfvars[k].0 + " = " + rendered[0]] + rendered[1..]
  }

  /** The text of the `k`-th top-level entry: the key as it is, ` = `, the
      value's rendering and a line feed. */
  function AssignmentText(tfvars: Entries, k: nat): string
    requires k < |tfvars| && RenderableEntries(tfvars)
  {
    tfvars[k].0 + " = " + FormatValue(tfvars[k].1, 0) + "\n"
  }

  /** The assignment texts from the `k`-th on. */
  function DocumentText(tfvars: Entries, k: nat): string
    requires k <= |tfvars| && RenderableEntries(tfvars)
    decreases |tfvars| - k
  {
    if k == |tfvars| then "" else AssignmentText(tfvars, k) + DocumentText(tfvars, k + 1)
  }

  lemma {:induction false} DocumentLinesText(tfvars: Entries, k: nat)
    requires k < |tfvars| && RenderableEntries(tfvars)
    ensures |DocumentLines(tfvars, k)| >= 1
    ensures JoinLines(DocumentLines(tfvars, k)) + "\n" == DocumentText(tfvars, k)
    decreases |tfvars| - k
  {
    var own := AssignmentLines(tfvars, k);
    AssignmentLinesText(tfvars, k);
    if k == |tfvars| - 1 {
      assert DocumentLines(tfvars, k) == own;
    } else {
      DocumentLinesText(tfvars, k + 1);
      var rest := DocumentLines(tfvars, k + 1);
      JoinAppend(own, rest, '\n');
      assert JoinLines(own + rest) + "\n" == (JoinLines(own) + "\n") + (JoinLines(rest) + "\n");
    }
  }

  lemma AssignmentLinesText(tfvars: Entries, k: nat)
    requires k < |tfvars| && RenderableEntries(tfvars)
    ensures JoinLines(AssignmentLines(tfvars, k)) + "\n" == AssignmentText(tfvars, k)
  {
    var x := FormatValue(tfvars[k].1, 0);
    JoinSplitLines(x);
    JoinFirstPrefixed(SplitLines(x), tfvars[k].0 + " = ");
  }

  /** `_dump_tfvars` as text: one assignment per top-level entry, each
      ending with a line feed, and a lone line feed for no entries. */
  lemma DumpTfvarsText(tfvars: Entries)
    requires RenderableEntries(tfvars)
    ensures DumpTfvars(tfvars) == if |tfvars| == 0 then "\n" else DocumentText(tfvars, 0)
  {
    if |tfvars| > 0 {
      DocumentLinesText(tfvars, 0);
    }
  }

  /** A document ends with exactly one line feed. */
  lemma DumpEndsWithOneNewline(tfvars: Entries)
    requires RenderableEntries(tfvars)
    ensures var r := DumpTfvars(tfvars);
      r != "" && r[|r| - 1] == '\n' && (|r| == 1 <==> |tfvars| == 0) &&
      (|r| > 1 ==> r[|r| - 2] != '\n')
  {
    DumpTfvarsText(tfvars);
    if |tfvars| > 0 {
      DocumentTextEnd(tfvars, 0);
    }
  }

  /** `d` ends with one newline after a character that is not one. */
  predicate OneNewlineAtEnd(d: string) {
    |d| >= 2 && d[|d| - 1] == '\n' && d[|d| - 2] != '\n'
  }

  lemma {:induction false} DocumentTextEnd(tfvars: Entries, k: nat)
    requires k < |tfvars| && RenderableEntries(tfvars)
    ensures OneNewlineAtEnd(DocumentText(tfvars, k))
    decreases |tfvars| - k
  {
    if k < |tfvars| - 1 {
      DocumentTextEnd(tfvars, k + 1);
      EndKeptAfter(AssignmentText(tfvars, k), DocumentText(tfvars, k + 1));
    } else {
      AssignmentTextEnd(tfvars, k);
      assert DocumentText(tfvars, k) == AssignmentText(tfvars, k) + "";
    }
  }

  lemma AssignmentTextEnd(tfvars: Entries, k: nat)
    requires k < |tfvars| && RenderableEntries(tfvars)
    ensures OneNewlineAtEnd(AssignmentText(tfvars, k))
  {
    var x := RenderedEnd(tfvars[k].1, 0);
    NewlineAppended(tfvars[k].0 + " = ", x);
    assert AssignmentText(tfvars, k) == tfvars[k].0 + " = " + x + "\n";
  }

  /** A rendering is not empty and does not end in a line feed. */
  lemma RenderedEnd(v: Value, level: nat) returns (x: string)
    requires Renderable(v)
    ensures x == FormatValue(v, level) && x != "" && x[|x| - 1] != '\n'
  {
    x := FormatValue(v, level);
    FormatValueEnds(v, level);
  }

  /** A text that does not end in a line feed, with one added. */
  lemma NewlineAppended(pre: string, x: string)
    requires x != "" && x[|x| - 1] != '\n'
    ensures OneNewlineAtEnd(pre + x + "\n")
  {
    var a := pre + x + "\n";
    assert a[|a| - 2] == x[|x| - 1];
  }

  lemma EndKeptAfter(a: string, d: string)
    requires OneNewlineAtEnd(d)
    ensures OneNewlineAtEnd(a + d)
  {
    assert (a + d)[|a + d| - 2] == d[|d| - 2];
    assert (a + d)[|a + d| - 1] == d[|d| - 1];
  }
}
