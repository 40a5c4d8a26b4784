/** `TfvarsParser` of scripts/load_terraform_config.py: a recursive-descent
    parser over a text with a cursor (`ParseState.index`) that its methods
    advance step by step. Every method is proved to return what the
    corresponding function of module Grammar computes and to leave the
    cursor where that function says. A `TfvarsParseError` becomes an `Err`
    result; after one the cursor position is left unspecified, because the
    source abandons the parser once the exception propagates. */
module Parser {
  import opened Values
  import opened Grammar

  /** The method result `r` with the cursor at `index` is what `spec` yields. */
  predicate Agrees<T(==)>(r: Result<T>, spec: Result<(T, nat)>, index: nat) {
    match spec
    case Ok((v, j)) => r == Ok(v) && index == j
    case Err(m) => r == Err(m)
  }

  /** The same for methods that only move the cursor. */
  predicate Moves(r: Result<()>, spec: Result<nat>, index: nat) {
    match spec
    case Ok(j) => r == Ok(()) && index == j
    case Err(m) => r == Err(m)
  }

  class TfvarsParser {
    const text: string
    var index: nat

    constructor (text: string)
      ensures this.text == text && index == 0
    {
      this.text := text;
      index := 0;
    }

    ghost predicate Valid()
      reads this
    {
      index <= |text|
    }

    /** `_eof` */
    predicate Eof()
      reads this
    {
      index >= |text|
    }

    /** `_peek`: the character at the cursor; None stands for the empty
        string the source returns at the end. */
    function Peek(): (ch: Option<char>)
      reads this
      ensures ch.None? <==> Eof()
      ensures ch.Some? ==> ch.value == text[index]
    {
      if index >= |text| then None else Some(text[index])
    }

    /** `_advance` */
    method Advance(count: nat := 1)
      modifies this
      ensures index == old(index) + count
    {
      index := index + count;
    }

    /** `_match`: consume `value` if the text continues with it. */
    method Match(value: string) returns (matched: bool)
      requires Valid()
      modifies this
      ensures Valid()
      ensures matched == StartsWith(text, old(index), value)
      ensures index == if matched then old(index) + |value| else old(index)
    {
      matched := index + |value| <= |text| && text[index..index + |value|] == value;
      if matched {
        index := index + |value|;
      }
    }

    /** `_skip_ignored` */
    method SkipIgnored() returns (r: Result<()>)
      requires Valid()
      modifies this
      ensures Valid()
      ensures Moves(r, SkipTrivia(text, old(index)), index)
    {
      while !Eof()
        invariant Valid()
        invariant SkipTrivia(text, index) == SkipTrivia(text, old(index))
        decreases |text| - index
      {
        var more, piece := SkipIgnoredPiece();
        if !more {
          return piece;
        }
      }
      return Ok(());
    }

    /** One round of the loop of `_skip_ignored`: one blank, one line
        comment or one block comment, or the stop before anything else. */
    method SkipIgnoredPiece() returns (more: bool, r: Result<()>)
      requires Valid() && !Eof()
      modifies this
      ensures Valid()
      ensures more ==> old(index) < index && SkipTrivia(text, old(index)) == SkipTrivia(text, index)
      ensures !more ==> Moves(r, SkipTrivia(text, old(index)), index)
    {
      var ch := Peek();
      if IsBlank(ch.value) {
        Advance();
        return true, Ok(());
      }
      var m := Match("//");
      if m {
        SkipUntilNewline();
        return true, Ok(());
      }
      if ch == Some('#') {
        SkipUntilNewline();
        return true, Ok(());
      }
      m := Match("/*");
      if m {
        var b := SkipBlockComment();
        return b.Ok?, b;
      }
      return false, Ok(());
    }

    /** `_skip_until_newline` */
    method SkipUntilNewline()
      requires Valid()
      modifies this
      ensures Valid()
      ensures index == SkipLine(text, old(index))
    {
      ScanToLineEnd();
      if !Eof() {
        Advance();
      }
    }

    /** The loop that stops at the next line feed, inside `_skip_until_newline`
        and `_parse_heredoc`. */
    method ScanToLineEnd()
      requires Valid()
      modifies this
      ensures Valid()
      ensures index == LineEnd(text, old(index))
    {
      while !Eof() && Peek() != Some('\n')
        invariant Valid() && old(index) <= index
        invariant LineEnd(text, index) == LineEnd(text, old(index))
        decreases |text| - index
      {
        Advance();
      }
    }

    /** `_skip_block_comment`, called just after the opening slash-star. */
    method SkipBlockComment() returns (r: Result<()>)
      requires Valid()
      modifies this
      ensures Valid()
      ensures Moves(r, BlockComment(text, old(index), 1), index)
    {
      var depth: nat := 1;
      while !Eof() && depth > 0
        invariant Valid()
        invariant BlockComment(text, index, depth) == BlockComment(text, old(index), 1)
        decreases |text| - index
      {
        var m := Match("/*");
        if m {
          depth := depth + 1;
          continue;
        }
        m := Match("*/");
        if m {
          depth := depth - 1;
          continue;
        }
        Advance();
      }
      if depth != 0 {
        return Err(UnterminatedBlockComment);
      }
      return Ok(());
    }

    /** `_parse_key` */
    method ParseKey() returns (r: Result<string>)
      requires Valid()
      modifies this
      ensures Valid()
      ensures Agrees(r, KeyAt(text, old(index)), index)
    {
      var s := SkipIgnored();
      if s.Err? {
        return Err(s.msg);
      }
      var ch := Peek();
      if ch == Some('"') {
        r := ParseString();
        return;
      }
      if ch.Some? && (IsLetter(ch.value) || ch.value == '_') {
        r := ParseIdentifier();
        return;
      }
      return Err(InvalidKey);
    }

    /** `_parse_identifier` */
    method ParseIdentifier() returns (r: Result<string>)
      requires Valid()
      modifies this
      ensures Valid()
      ensures Agrees(r, IdentifierAt(text, old(index)), index)
    {
      var start := index;
      while !Eof()
        invariant Valid() && start <= index
        invariant IdentEnd(text, index) == IdentEnd(text, start)
        decreases |text| - index
      {
        var ch := Peek();
        if IsIdentChar(ch.value) {
          Advance();
          continue;
        }
        break;
      }
      if start == index {
        return Err(ExpectedIdentifier);
      }
      return Ok(text[start..index]);
    }

    /** `_expect_assignment` */
    method ExpectAssignment() returns (r: Result<()>)
      requires Valid()
      modifies this
      ensures Valid()
      ensures Moves(r, AssignmentSignAt(text, old(index)), index)
    {
      var s := SkipIgnored();
      if s.Err? {
        return s;
      }
      var m := Match("=");
      if m {
        return Ok(());
      }
      return Err(ExpectedAssignment);
    }

    /** `_parse_value` */
    method ParseNextValue() returns (r: Result<Value>)
      requires Valid()
      modifies this
      ensures Valid()
      ensures Agrees(r, ValueAt(text, old(index)), index)
      decreases |text| - index, 2
    {
      var s := SkipIgnored();
      if s.Err? {
        return Err(s.msg);
      }
      if Eof() {
        return Err(UnexpectedEnd);
      }
      var ch := Peek();
      if ch == Some('"') {
        var str := ParseString();
        return if str.Ok? then Ok(Str(str.value)) else Err(str.msg);
      }
      if ch == Some('{') {
        r := ParseObject();
        return;
      }
      if ch == Some('[') {
        r := ParseArray();
        return;
      }
      if ch.value == '-' || IsDigit(ch.value) {
        r := ParseNumber();
        return;
      }
      if ch == Some('<') && StartsWith(text, index, "<<") {
        var str := ParseHeredoc();
        return if str.Ok? then Ok(Str(str.value)) else Err(str.msg);
      }
      r := ParseKeyword();
    }

    /** The keyword loop that ends `_parse_value`. */
    method ParseKeyword() returns (r: Result<Value>)
      requires Valid()
      modifies this
      ensures Valid()
      ensures Agrees(r, KeywordValueAt(text, old(index)), index)
    {
      for n := 0 to |Keywords|
        invariant index == old(index)
        invariant KeywordFrom(text, index, n) == KeywordValueAt(text, index)
      {
        var (literal, value) := Keywords[n];
        if StartsWith(text, index, literal) {
          var end := index + |literal|;
          var next := text[end..if end + 1 <= |text| then end + 1 else end];
          if |next| == 0 || IsKeywordBoundary(next[0]) {
            index := end;
            return Ok(value);
          }
        }
      }
      return Err(UnsupportedExpression);
    }

    /** `_parse_string` */
    method ParseString() returns (r: Result<string>)
      requires Valid()
      modifies this
      ensures Valid()
      ensures Agrees(r, StringAt(text, old(index)), index)
    {
      var m := Match("\"");
      if !m {
        return Err(ExpectedStringStart);
      }
      var result: string := [];
      while !Eof()
        invariant Valid()
        invariant StringBody(text, index, result) == StringAt(text, old(index))
        decreases |text| - index
      {
        var p := ReadStringPiece();
        match p
        case ClosingQuote =>
          return Ok(result);
        case Decoded(c, _) =>
          result := result + [c];
        case BadPiece(msg) =>
          return Err(msg);
      }
      return Err(UnterminatedString);
    }

    /** One round of the loop of `_parse_string`: the closing quote, one
        character, or one escape sequence. */
    method ReadStringPiece() returns (p: StringPiece)
      requires Valid() && !Eof()
      modifies this
      ensures Valid()
      ensures p == StringPieceAt(text, old(index))
      ensures p.ClosingQuote? ==> index == old(index) + 1
      ensures p.Decoded? ==> index == p.next
    {
      var ch := Peek();
      Advance();
      if ch == Some('"') {
        return ClosingQuote;
      }
      if ch != Some('\\') {
        return Decoded(ch.value, index);
      }
      if Eof() {
        return BadPiece(IncompleteEscape);
      }
      var esc := Peek();
      Advance();
      if esc == Some('u') {
        var code := text[index..if index + 4 <= |text| then index + 4 else |text|];
        var c := UnicodeEscape(code);
        if c.None? {
          return BadPiece(InvalidUnicodeEscape);
        }
        Advance(4);
        return Decoded(c.value, index);
      }
      var c := SimpleEscape(esc.value);
      if c.None? {
        return BadPiece(UnsupportedEscape(esc.value));
      }
      return Decoded(c.value, index);
    }

    /** `_parse_number` */
    method ParseNumber() returns (r: Result<Value>)
      requires Valid()
      modifies this
      ensures Valid()
      ensures Agrees(r, NumberAt(text, old(index)), index)
    {
      var start := index;
      if Peek() == Some('-') {
        Advance();
      }
      ghost var a := index;
      var digitsSeen := false;
      while !Eof() && IsDigit(Peek().value)
        invariant Valid() && a <= index
        invariant DigitsEnd(text, index) == DigitsEnd(text, a)
        invariant digitsSeen == (index > a)
        decreases |text| - index
      {
        digitsSeen := true;
        Advance();
      }
      if !digitsSeen {
        return Err(InvalidNumber);
      }
      var f := ScanFraction();
      if f.Err? {
        return Err(f.msg);
      }
      var e := ScanExponent();
      if e.Err? {
        return Err(e.msg);
      }
      var raw := text[start..index];
      if HasFloatMark(raw) {
        return Ok(Float(raw));
      }
      return Ok(Int(IntLiteralValue(raw)));
    }

    /** The optional fraction of `_parse_number`. */
    method ScanFraction() returns (r: Result<()>)
      requires Valid()
      modifies this
      ensures Valid()
      ensures Moves(r, FractionEnd(text, old(index)), index)
    {
      if !Eof() && Peek() == Some('.') {
        Advance();
        if Eof() || !IsDigit(Peek().value) {
          return Err(InvalidNumber);
        }
        ScanDigits();
      }
      return Ok(());
    }

    /** The optional exponent of `_parse_number`. */
    method ScanExponent() returns (r: Result<()>)
      requires Valid()
      modifies this
      ensures Valid()
      ensures Moves(r, ExponentEnd(text, old(index)), index)
    {
      if !Eof() && (Peek() == Some('e') || Peek() == Some('E')) {
        Advance();
        if !Eof() && (Peek() == Some('+') || Peek() == Some('-')) {
          Advance();
        }
        if Eof() || !IsDigit(Peek().value) {
          return Err(InvalidExponent);
        }
        ScanDigits();
      }
      return Ok(());
    }

    /** The digit loops of `_parse_number` after the fraction point and the
        exponent marker. */
    method ScanDigits()
      requires Valid()
      modifies this
      ensures Valid()
      ensures index == DigitsEnd(text, old(index))
    {
      while !Eof() && IsDigit(Peek().value)
        invariant Valid() && old(index) <= index
        invariant DigitsEnd(text, index) == DigitsEnd(text, old(index))
        decreases |text| - index
      {
        Advance();
      }
    }

    /** `_parse_array` */
    method ParseArray() returns (r: Result<Value>)
      requires Valid()
      modifies this
      ensures Valid()
      ensures Agrees(r, ArrayAt(text, old(index)), index)
      decreases |text| - index, 1
    {
      var m := Match("[");
      if !m {
        return Err(ExpectedArrayStart);
      }
      var values: seq<Value> := [];
      while true
        invariant Valid() && old(index) < index
        invariant ArrayItems(text, index, values) == ArrayAt(text, old(index))
        decreases |text| - index
      {
        ghost var i := index;
        var s := SkipIgnored();
        if s.Err? {
          return Err(s.msg);
        }
        m := Match("]");
        if m {
          return Ok(List(values));
        }
        var v := ParseNextValue();
        if v.Err? {
          return v;
        }
        assert ArrayItems(text, i, values) == ArraySeparator(text, index, values + [v.value]);
        values := values + [v.value];
        var more;
        more, r := ParseArraySeparator(values);
        if !more {
          return;
        }
      }
    }

    /** The end of the loop of `_parse_array`, after an element: `more`
        after a comma, when the loop goes round again, and the result of the
        array otherwise. */
    method ParseArraySeparator(values: seq<Value>) returns (more: bool, r: Result<Value>)
      requires Valid()
      modifies this
      ensures Valid()
      ensures more ==> old(index) < index
      ensures more ==> ArraySeparator(text, old(index), values) == ArrayItems(text, index, values)
      ensures !more ==> Agrees(r, ArraySeparator(text, old(index), values), index)
    {
      var s := SkipIgnored();
      if s.Err? {
        return false, Err(s.msg);
      }
      var m := Match(",");
      if m {
        return true, Ok(List(values));
      }
      m := Match("]");
      if m {
        return false, Ok(List(values));
      }
      return false, Err(ExpectedCommaOrBracket);
    }

    /** `_parse_object` */
    method ParseObject() returns (r: Result<Value>)
      requires Valid()
      modifies this
      ensures Valid()
      ensures Agrees(r, ObjectAt(text, old(index)), index)
      decreases |text| - index, 1
    {
      var m := Match("{");
      if !m {
        return Err(ExpectedObjectStart);
      }
      var result: Entries := [];
      while true
        invariant Valid() && old(index) < index
        invariant ObjectEntries(text, index, result) == ObjectAt(text, old(index))
        decreases |text| - index
      {
        ghost var i := index;
        var s := SkipIgnored();
        if s.Err? {
          return Err(s.msg);
        }
        m := Match("}");
        if m {
          return Ok(Object(result));
        }
        var key := ParseKey();
        if key.Err? {
          return Err(key.msg);
        }
        var v := ParseEntryValue();
        if v.Err? {
          return v;
        }
        assert ObjectEntries(text, i, result) ==
               ObjectSeparator(text, index, Put(result, key.value, v.value));
        result := Put(result, key.value, v.value);
        var more;
        more, r := ParseObjectSeparator(result);
        if !more {
          return;
        }
      }
    }

    /** The part of the loop of `_parse_object` after a key. */
    method ParseEntryValue() returns (r: Result<Value>)
      requires Valid()
      modifies this
      ensures Valid()
      ensures Agrees(r, EntryValueAt(text, old(index)), index)
      decreases |text| - index, 2
    {
      var s := SkipIgnored();
      if s.Err? {
        return Err(s.msg);
      }
      var m := Match("=");
      if !m {
        m := Match(":");
      }
      if !m {
        return Err(ExpectedEqualsOrColon);
      }
      r := ParseNextValue();
    }

    /** The end of the loop of `_parse_object`, after an entry: `more` when
        the loop goes round again (after a comma, or when the next entry
        follows without one), and the result of the object otherwise. */
    method ParseObjectSeparator(result: Entries) returns (more: bool, r: Result<Value>)
      requires Valid()
      modifies this
      ensures Valid()
      ensures more ==> old(index) <= index
      ensures more ==> ObjectSeparator(text, old(index), result) == ObjectEntries(text, index, result)
      ensures !more ==> Agrees(r, ObjectSeparator(text, old(index), result), index)
    {
      var s := SkipIgnored();
      if s.Err? {
        return false, Err(s.msg);
      }
      var m := Match(",");
      if m {
        return true, Ok(Object(result));
      }
      m := Match("}");
      if m {
        return false, Ok(Object(result));
      }
      return true, Ok(Object(result));
    }

    /** `_parse_heredoc` */
    method ParseHeredoc() returns (r: Result<string>)
      requires Valid()
      modifies this
      ensures Valid()
      ensures Agrees(r, HeredocAt(text, old(index)), index)
    {
      var indent := false;
      var m := Match("<<-");
      if m {
        indent := true;
      } else {
        m := Match("<<");
        if !m {
          return Err(ExpectedHeredocIntroducer);
        }
      }
      var tag := ParseIdentifier();
      if tag.Err? {
        return tag;
      }
      SkipUntilNewline();
      r := ParseHeredocLines(tag.value, indent);
    }

    /** The line loop of `_parse_heredoc`, which ends at the line that
        equals `tag` (after stripping tabs and spaces when `indent`). */
    method ParseHeredocLines(tag: string, indent: bool) returns (r: Result<string>)
      requires Valid()
      modifies this
      ensures Valid()
      ensures Agrees(r, HeredocBody(text, old(index), tag, indent, []), index)
    {
      var lines: seq<string> := [];
      while !Eof()
        invariant Valid()
        invariant HeredocBody(text, index, tag, indent, lines) ==
                  HeredocBody(text, old(index), tag, indent, [])
        decreases |text| - index
      {
        var lineStart := index;
        ScanToLineEnd();
        var line := text[lineStart..index];
        var check := line;
        if indent {
          check := LStripTabsSpaces(line);
        }
        if check == tag {
          if !Eof() {
            Advance();
          }
          return Ok(JoinLines(lines));
        }
        lines := lines + [line];
        if !Eof() {
          Advance();
        }
      }
      return Err(UnterminatedHeredoc);
    }

    /** `parse_assignments` */
    method ParseAssignments() returns (r: Result<Entries>)
      requires Valid()
      modifies this
      ensures r == AssignmentsFrom(text, old(index), [])
    {
      var values: Entries := [];
      while true
        invariant Valid()
        invariant AssignmentsFrom(text, index, values) == AssignmentsFrom(text, old(index), [])
        decreases |text| - index
      {
        var s := SkipIgnored();
        if s.Err? {
          return Err(s.msg);
        }
        if Eof() {
          break;
        }
        var key := ParseKey();
        if key.Err? {
          return Err(key.msg);
        }
        s := SkipIgnored();
        if s.Err? {
          return Err(s.msg);
        }
        s := ExpectAssignment();
        if s.Err? {
          return Err(s.msg);
        }
        var v := ParseNextValue();
        if v.Err? {
          return Err(v.msg);
        }
        values := Put(values, key.value, v.value);
        s := SkipIgnored();
        if s.Err? {
          return Err(s.msg);
        }
      }
      return Ok(values);
    }

    /** `parse_value` */
    method ParseValue() returns (r: Result<Value>)
      requires Valid()
      modifies this
      ensures r == SingleValueFrom(text, old(index))
    {
      var s := SkipIgnored();
      if s.Err? {
        return Err(s.msg);
      }
      r := ParseNextValue();
      if r.Err? {
        return;
      }
      s := SkipIgnored();
      if s.Err? {
        return Err(s.msg);
      }
      if !Eof() {
        return Err(TrailingCharacters);
      }
    }
  }
}
