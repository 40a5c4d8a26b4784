/** The reference definition of the tfvars grammar that `TfvarsParser` in
    scripts/load_terraform_config.py accepts, written as functions of the
    text and a cursor index. Each function corresponds to one method of the
    parser and returns the produced value together with the index the
    method leaves the cursor at, or the message of the `TfvarsParseError`
    the method raises. The imperative parser (module Parser) is proved to
    compute exactly these functions. */
module Grammar {
  import opened Values

  // ---------------------------------------------------------------------
  // The messages of the TfvarsParseError raises

  const UnterminatedBlockComment: string := "Unterminated block comment"
  const ExpectedIdentifier: string := "Expected identifier"
  const InvalidKey: string := "Invalid key in tfvars assignment"
  const ExpectedStringStart: string := "Expected '\"' to start string"
  const UnterminatedString: string := "Unterminated string literal"
  const IncompleteEscape: string := "Incomplete escape sequence in string"
  const InvalidUnicodeEscape: string := "Invalid unicode escape in string"
  const InvalidNumber: string := "Invalid number literal"
  const InvalidExponent: string := "Invalid exponent in number literal"
  const UnsupportedExpression: string := "Unsupported expression in tfvars value"
  const ExpectedHeredocIntroducer: string := "Expected heredoc introducer"
  const UnterminatedHeredoc: string := "Unterminated heredoc"
  const UnexpectedEnd: string := "Unexpected end of input while parsing value"
  const ExpectedArrayStart: string := "Expected '[' to start array"
  const ExpectedCommaOrBracket: string := "Expected ',' or ']' in array literal"
  const ExpectedObjectStart: string := "Expected '{' to start object"
  const ExpectedEqualsOrColon: string := "Expected '=' or ':' inside object literal"
  const ExpectedAssignment: string := "Expected '=' after key in tfvars assignment"
  const TrailingCharacters: string := "Unexpected trailing characters while parsing value"

  function UnsupportedEscape(esc: char): string {
    "Unsupported escape sequence \\" + [esc]
  }

  // ---------------------------------------------------------------------
  // Trivia

  /** The first index at or after `i` that holds a line feed, or |t|. */
  function LineEnd(t: string, i: nat): (e: nat)
    requires i <= |t|
    ensures i <= e <= |t|
    ensures forall k :: i <= k < e ==> t[k] != '\n'
    ensures e < |t| ==> t[e] == '\n'
    decreases |t| - i
  {
    if i == |t| || t[i] == '\n' then i else LineEnd(t, i + 1)
  }

  /** `_skip_until_newline`: the rest of the line and its line feed. */
  function SkipLine(t: string, i: nat): (r: nat)
    requires i <= |t|
    ensures i <= r <= |t|
    ensures i < |t| ==> i < r
  {
    var e := LineEnd(t, i);
    if e < |t| then e + 1 else e
  }

  /** `_skip_block_comment`, entered just after an opening slash-star with
      nesting depth `depth`. */
  function BlockComment(t: string, i: nat, depth: nat): (r: Result<nat>)
    requires i <= |t|
    ensures r.Ok? ==> i <= r.value <= |t|
    ensures r.Err? ==> r.msg == UnterminatedBlockComment
    decreases |t| - i
  {
    if i == |t| || depth == 0 then
      if depth != 0 then Err(UnterminatedBlockComment) else Ok(i)
    else if StartsWith(t, i, "/*") then BlockComment(t, i + 2, depth + 1)
    else if StartsWith(t, i, "*/") then BlockComment(t, i + 2, depth - 1)
    else BlockComment(t, i + 1, depth)
  }

  /** Position `j` starts trivia: white space, a line comment or a block comment. */
  predicate TriviaAt(t: string, j: nat) {
    j < |t| && (IsBlank(t[j]) || t[j] == '#' || StartsWith(t, j, "//") || StartsWith(t, j, "/*"))
  }

  /** One round of the loop of `_skip_ignored` at a position that starts
      trivia: the position after that piece of trivia. */
  function TriviaPieceEnd(t: string, i: nat): (r: Result<nat>)
    requires TriviaAt(t, i)
    ensures r.Ok? ==> i < r.value <= |t|
    ensures r.Err? ==> r.msg == UnterminatedBlockComment
  {
    if IsBlank(t[i]) then Ok(i + 1)
    else if StartsWith(t, i, "//") then Ok(SkipLine(t, i + 2))
    else if t[i] == '#' then Ok(SkipLine(t, i))
    else BlockComment(t, i + 2, 1)
  }

  /** `_skip_ignored`: the cursor only moves forward and stops at the first
      position that does not start trivia. */
  function SkipTrivia(t: string, i: nat): (r: Result<nat>)
    requires i <= |t|
    ensures r.Ok? ==> i <= r.value <= |t|
    ensures r.Err? ==> r.msg == UnterminatedBlockComment
    decreases |t| - i
  {
    if !TriviaAt(t, i) then Ok(i)
    else
      match TriviaPieceEnd(t, i)
      case Ok(j) => SkipTrivia(t, j)
      case Err(m) => Err(m)
  }

  // ---------------------------------------------------------------------
  // Keys and identifiers

  /** The characters `_parse_identifier` consumes. */
  predicate IsIdentChar(c: char) { IsAlnum(c) || c == '_' || c == '-' }

  /** The end of the run of identifier characters that starts at `i`. */
  function IdentEnd(t: string, i: nat): (e: nat)
    requires i <= |t|
    ensures i <= e <= |t|
    ensures forall k :: i <= k < e ==> IsIdentChar(t[k])
    ensures e < |t| ==> !IsIdentChar(t[e])
    decreases |t| - i
  {
    if i < |t| && IsIdentChar(t[i]) then IdentEnd(t, i + 1) else i
  }

  /** `_parse_identifier` */
  function IdentifierAt(t: string, i: nat): (r: Result<(string, nat)>)
    requires i <= |t|
    ensures r.Ok? ==> i < r.value.1 <= |t| && r.value.0 == t[i..r.value.1]
    ensures r.Err? ==> r.msg == ExpectedIdentifier
  {
    var e := IdentEnd(t, i);
    if e == i then Err(ExpectedIdentifier) else Ok((t[i..e], e))
  }

  /** `_parse_key`: a quoted string or an identifier that starts with a
      letter or an underscore, after trivia. */
  function KeyAt(t: string, i: nat): (r: Result<(string, nat)>)
    requires i <= |t|
    ensures r.Ok? ==> i < r.value.1 <= |t|
  {
    match SkipTrivia(t, i)
    case Err(m) => Err(m)
    case Ok(j) =>
      if j < |t| && t[j] == '"' then StringAt(t, j)
      else if j < |t| && (IsLetter(t[j]) || t[j] == '_') then IdentifierAt(t, j)
      else Err(InvalidKey)
  }

  // ---------------------------------------------------------------------
  // Strings

  /** The single character a one-letter escape stands for. */
  function SimpleEscape(c: char): Option<char> {
    match c
    case '"' => Some('"')
    case '\\' => Some('\\')
    case '/' => Some('/')
    case 'b' => Some('\U{8}')
    case 'f' => Some('\U{C}')
    case 'n' => Some('\n')
    case 'r' => Some('\r')
    case 't' => Some('\t')
    case _ => None
  }

  function HexDigitValue(c: char): (d: nat)
    requires IsHexDigit(c)
    ensures d < 16
  {
    if IsDigit(c) then c as int - '0' as int
    else if 'a' <= c <= 'f' then c as int - 'a' as int + 10
    else c as int - 'A' as int + 10
  }

  /** `int(code, 16)` for four hexadecimal digits. */
  function HexValue(s: string): (n: nat)
    requires |s| == 4 && forall k :: 0 <= k < 4 ==> IsHexDigit(s[k])
    ensures n < 0x1_0000
  {
    0x1000 * HexDigitValue(s[0]) + 0x100 * HexDigitValue(s[1]) +
    0x10 * HexDigitValue(s[2]) + HexDigitValue(s[3])
  }

  /** Code points Dafny's `char` cannot hold (lone surrogates). */
  predicate IsSurrogate(n: int) { 0xD800 <= n <= 0xDFFF }

  /** The character a unicode escape with the (at most four) characters
      `code` after its `u` stands for; None where the source raises. */
  function UnicodeEscape(code: string): (r: Option<char>)
    ensures r.Some? ==> |code| == 4
  {
    if |code| == 4 && (forall k :: 0 <= k < 4 ==> IsHexDigit(code[k])) &&
       !IsSurrogate(HexValue(code))
    then Some(HexValue(code) as char)
    else None
  }

  /** `_parse_string`: the opening quote, then the body. */
  function StringAt(t: string, i: nat): (r: Result<(string, nat)>)
    requires i <= |t|
    ensures r.Ok? ==> i + 2 <= r.value.1 <= |t| && t[i] == '"' && t[r.value.1 - 1] == '"'
  {
    if StartsWith(t, i, "\"") then StringBody(t, i + 1, [])
    else Err(ExpectedStringStart)
  }

  /** What one round of the loop of `_parse_string` reads at a character
      that is not the end of the text: the closing quote, one (possibly
      escaped) character and the index after it, or the message the round
      raises. */
  datatype StringPiece = ClosingQuote | Decoded(ch: char, next: nat) | BadPiece(msg: string)

  function StringPieceAt(t: string, i: nat): (p: StringPiece)
    requires i < |t|
    ensures p.ClosingQuote? ==> t[i] == '"'
    ensures p.Decoded? ==> i < p.next <= |t|
  {
    if t[i] == '"' then ClosingQuote
    else if t[i] != '\\' then Decoded(t[i], i + 1)
    else if i + 1 == |t| then BadPiece(IncompleteEscape)
    else if t[i + 1] == 'u' then
      match UnicodeEscape(t[i + 2..if i + 6 <= |t| then i + 6 else |t|])
      case Some(c) => Decoded(c, i + 6)
      case None => BadPiece(InvalidUnicodeEscape)
    else
      match SimpleEscape(t[i + 1])
      case Some(c) => Decoded(c, i + 2)
      case None => BadPiece(UnsupportedEscape(t[i + 1]))
  }

  /** The loop of `_parse_string` after the opening quote; `acc` holds the
      characters decoded so far. */
  function StringBody(t: string, i: nat, acc: string): (r: Result<(string, nat)>)
    requires i <= |t|
    ensures r.Ok? ==> i < r.value.1 <= |t| && t[r.value.1 - 1] == '"'
    decreases |t| - i
  {
    if i == |t| then Err(UnterminatedString)
    else
      match StringPieceAt(t, i)
      case ClosingQuote => Ok((acc, i + 1))
      case Decoded(c, j) => StringBody(t, j, acc + [c])
      case BadPiece(msg) => Err(msg)
  }

  // ---------------------------------------------------------------------
  // Numbers

  /** The end of the run of decimal digits that starts at `i`. */
  function DigitsEnd(t: string, i: nat): (e: nat)
    requires i <= |t|
    ensures i <= e <= |t|
    ensures forall k :: i <= k < e ==> IsDigit(t[k])
    ensures e < |t| ==> !IsDigit(t[e])
    decreases |t| - i
  {
    if i < |t| && IsDigit(t[i]) then DigitsEnd(t, i + 1) else i
  }

  /** The value of a decimal digit. */
  function DigitValue(c: char): int {
    c as int - '0' as int
  }

  /** The value of a string of decimal digits. */
  function DigitsValue(s: string): int {
    if |s| == 0 then 0 else 10 * DigitsValue(s[..|s| - 1]) + DigitValue(s[|s| - 1])
  }

  /** `int(raw)` for an optional minus sign followed by decimal digits. */
  function IntLiteralValue(raw: string): int {
    if |raw| > 0 && raw[0] == '-' then -DigitsValue(raw[1..]) else DigitsValue(raw)
  }

  /** The optional fraction of a number literal, starting at `b`. */
  function FractionEnd(t: string, b: nat): (r: Result<nat>)
    requires b <= |t|
    ensures r.Ok? ==> b <= r.value <= |t|
    ensures r.Ok? ==> (r.value == b <==> !(b < |t| && t[b] == '.'))
    ensures r.Err? ==> r.msg == InvalidNumber
  {
    if b < |t| && t[b] == '.' then
      if b + 1 < |t| && IsDigit(t[b + 1]) then Ok(DigitsEnd(t, b + 1))
      else Err(InvalidNumber)
    else Ok(b)
  }

  /** The optional exponent of a number literal, starting at `c`. */
  function ExponentEnd(t: string, c: nat): (r: Result<nat>)
    requires c <= |t|
    ensures r.Ok? ==> c <= r.value <= |t|
    ensures r.Ok? ==> (r.value == c <==> !(c < |t| && (t[c] == 'e' || t[c] == 'E')))
    ensures r.Err? ==> r.msg == InvalidExponent
  {
    if c < |t| && (t[c] == 'e' || t[c] == 'E') then
      var s := if c + 1 < |t| && (t[c + 1] == '+' || t[c + 1] == '-') then c + 2 else c + 1;
      if s < |t| && IsDigit(t[s]) then Ok(DigitsEnd(t, s))
      else Err(InvalidExponent)
    else Ok(c)
  }

  /** A literal holding any of `.`, `e`, `E` is a float. */
  predicate HasFloatMark(raw: string) {
    exists k :: 0 <= k < |raw| && (raw[k] == '.' || raw[k] == 'e' || raw[k] == 'E')
  }

  /** `_parse_number` */
  function NumberAt(t: string, i: nat): (r: Result<(Value, nat)>)
    requires i <= |t|
    ensures r.Ok? ==> i < r.value.1 <= |t|
  {
    var a := if i < |t| && t[i] == '-' then i + 1 else i;
    var b := DigitsEnd(t, a);
    if b == a then Err(InvalidNumber)
    else
      match FractionEnd(t, b)
      case Err(m) => Err(m)
      case Ok(c) =>
        match ExponentEnd(t, c)
        case Err(m) => Err(m)
        case Ok(d) =>
          var raw := t[i..d];
          if HasFloatMark(raw) then Ok((Float(raw), d))
          else Ok((Int(IntLiteralValue(raw)), d))
  }

  // ---------------------------------------------------------------------
  // Keywords

  /** The characters that may follow `true`, `false` or `null`. */
  predicate IsKeywordBoundary(c: char) {
    c == ' ' || c == '\t' || c == '\r' || c == '\n' || c == ',' || c == ']' || c == '}' ||
    c == '#' || c == '/'
  }

  /** `w` stands at `i` and is followed by the end of input or a boundary. */
  predicate KeywordAt(t: string, i: nat, w: string) {
    StartsWith(t, i, w) && (i + |w| == |t| || IsKeywordBoundary(t[i + |w|]))
  }

  /** The literals of the keyword branch of `_parse_value`, in the order
      they are tried. */
  const Keywords: seq<(string, Value)> := [("true", Bool(true)), ("false", Bool(false)), ("null", Null)]

  /** The keyword branch of `_parse_value`. */
  function KeywordValueAt(t: string, i: nat): (r: Result<(Value, nat)>)
    requires i <= |t|
    ensures r.Ok? ==> i < r.value.1 <= |t|
    ensures r.Err? ==> r.msg == UnsupportedExpression
  {
    KeywordFrom(t, i, 0)
  }

  /** The keywords from the `n`-th on, tried in order. */
  function KeywordFrom(t: string, i: nat, n: nat): (r: Result<(Value, nat)>)
    requires i <= |t| && n <= |Keywords|
    ensures r.Ok? ==> i < r.value.1 <= |t|
    ensures r.Err? ==> r.msg == UnsupportedExpression
    decreases |Keywords| - n
  {
    if n == |Keywords| then Err(UnsupportedExpression)
    else if KeywordAt(t, i, Keywords[n].0) then Ok((Keywords[n].1, i + |Keywords[n].0|))
    else KeywordFrom(t, i, n + 1)
  }

  // ---------------------------------------------------------------------
  // Heredocs

  /** `line.lstrip('\t ')` */
  function LStripTabsSpaces(line: string): (r: string)
    ensures r == "" || (r[0] != ' ' && r[0] != '\t')
  {
    if |line| > 0 && (line[0] == ' ' || line[0] == '\t') then LStripTabsSpaces(line[1..])
    else line
  }

  /** `_parse_heredoc`: `<<` or `<<-`, a mandatory tag, and the body lines
      up to the terminator line. */
  function HeredocAt(t: string, i: nat): (r: Result<(string, nat)>)
    requires i <= |t|
    ensures r.Ok? ==> i < r.value.1 <= |t|
  {
    var (indent, j) :=
      if StartsWith(t, i, "<<-") then (true, i + 3)
      else if StartsWith(t, i, "<<") then (false, i + 2)
      else (false, i);
    if j == i then Err(ExpectedHeredocIntroducer)
    else
      match IdentifierAt(t, j)
      case Err(m) => Err(m)
      case Ok((tag, k)) => HeredocBody(t, SkipLine(t, k), tag, indent, [])
  }

  /** The line loop of `_parse_heredoc`; `lines` holds the body lines so far. */
  function HeredocBody(t: string, i: nat, tag: string, indent: bool, lines: seq<string>)
    : (r: Result<(string, nat)>)
    requires i <= |t|
    ensures r.Ok? ==> i < r.value.1 <= |t|
    ensures r.Err? ==> r.msg == UnterminatedHeredoc
    decreases |t| - i
  {
    if i == |t| then Err(UnterminatedHeredoc)
    else
      var e := LineEnd(t, i);
      var line := t[i..e];
      var next := if e < |t| then e + 1 else e;
      if (if indent then LStripTabsSpaces(line) else line) == tag then Ok((JoinLines(lines), next))
      else HeredocBody(t, next, tag, indent, lines + [line])
  }

  // ---------------------------------------------------------------------
  // Values, arrays and objects

  /** `_parse_value`: trivia, then one value chosen by its first character. */
  function ValueAt(t: string, i: nat): (r: Result<(Value, nat)>)
    requires i <= |t|
    ensures r.Ok? ==> i < r.value.1 <= |t|
    decreases |t| - i, 2
  {
    match SkipTrivia(t, i)
    case Err(m) => Err(m)
    case Ok(j) =>
      if j == |t| then Err(UnexpectedEnd)
      else if t[j] == '"' then
        match StringAt(t, j)
        case Err(m) => Err(m)
        case Ok((s, k)) => Ok((Str(s), k))
      else if t[j] == '{' then ObjectAt(t, j)
      else if t[j] == '[' then ArrayAt(t, j)
      else if t[j] == '-' || IsDigit(t[j]) then NumberAt(t, j)
      else if t[j] == '<' && StartsWith(t, j, "<<") then
        match HeredocAt(t, j)
        case Err(m) => Err(m)
        case Ok((s, k)) => Ok((Str(s), k))
      else KeywordValueAt(t, j)
  }

  /** `_parse_array` */
  function ArrayAt(t: string, i: nat): (r: Result<(Value, nat)>)
    requires i <= |t|
    ensures r.Ok? ==> i < r.value.1 <= |t|
    decreases |t| - i, 1
  {
    if StartsWith(t, i, "[") then ArrayItems(t, i + 1, [])
    else Err(ExpectedArrayStart)
  }

  /** The loop of `_parse_array`; `acc` holds the elements so far. */
  function ArrayItems(t: string, i: nat, acc: seq<Value>): (r: Result<(Value, nat)>)
    requires i <= |t|
    ensures r.Ok? ==> i < r.value.1 <= |t|
    decreases |t| - i, 3
  {
    match SkipTrivia(t, i)
    case Err(m) => Err(m)
    case Ok(j) =>
      if StartsWith(t, j, "]") then Ok((List(acc), j + 1))
      else
        match ValueAt(t, j)
        case Err(m) => Err(m)
        case Ok((v, k)) => ArraySeparator(t, k, acc + [v])
  }

  /** The part of the loop of `_parse_array` after an element: a comma
      continues, a closing bracket ends the array. */
  function ArraySeparator(t: string, k: nat, acc: seq<Value>): (r: Result<(Value, nat)>)
    requires k <= |t|
    ensures r.Ok? ==> k < r.value.1 <= |t|
    decreases |t| - k, 4
  {
    match SkipTrivia(t, k)
    case Err(m) => Err(m)
    case Ok(p) =>
      if StartsWith(t, p, ",") then ArrayItems(t, p + 1, acc)
      else if StartsWith(t, p, "]") then Ok((List(acc), p + 1))
      else Err(ExpectedCommaOrBracket)
  }

  /** `_parse_object` */
  function ObjectAt(t: string, i: nat): (r: Result<(Value, nat)>)
    requires i <= |t|
    ensures r.Ok? ==> i < r.value.1 <= |t|
    decreases |t| - i, 1
  {
    if StartsWith(t, i, "{") then ObjectEntries(t, i + 1, [])
    else Err(ExpectedObjectStart)
  }

  /** The loop of `_parse_object`; `acc` holds the entries so far. */
  function ObjectEntries(t: string, i: nat, acc: Entries): (r: Result<(Value, nat)>)
    requires i <= |t|
    ensures r.Ok? ==> i < r.value.1 <= |t|
    decreases |t| - i, 3
  {
    match SkipTrivia(t, i)
    case Err(m) => Err(m)
    case Ok(j) =>
      if StartsWith(t, j, "}") then Ok((Object(acc), j + 1))
      else
        match KeyAt(t, j)
        case Err(m) => Err(m)
        case Ok((key, k)) =>
          match EntryValueAt(t, k)
          case Err(m) => Err(m)
          case Ok((v, q)) => ObjectSeparator(t, q, Put(acc, key, v))
  }

  /** The part of the loop of `_parse_object` after a key: `=` or `:`, then
      the value. */
  function EntryValueAt(t: string, k: nat): (r: Result<(Value, nat)>)
    requires k <= |t|
    ensures r.Ok? ==> k < r.value.1 <= |t|
    decreases |t| - k, 4
  {
    match SkipTrivia(t, k)
    case Err(m) => Err(m)
    case Ok(p) =>
      if !(StartsWith(t, p, "=") || StartsWith(t, p, ":")) then
        Err(ExpectedEqualsOrColon)
      else
        ValueAt(t, p + 1)
  }

  /** The end of the loop of `_parse_object`: a comma continues, a closing
      brace ends the object, and anything else starts the next entry. */
  function ObjectSeparator(t: string, q: nat, acc: Entries): (r: Result<(Value, nat)>)
    requires q <= |t|
    ensures r.Ok? ==> q < r.value.1 <= |t|
    decreases |t| - q, 5
  {
    match SkipTrivia(t, q)
    case Err(m) => Err(m)
    case Ok(s) =>
      if StartsWith(t, s, ",") then ObjectEntries(t, s + 1, acc)
      else if StartsWith(t, s, "}") then Ok((Object(acc), s + 1))
      else ObjectEntries(t, s, acc)
  }

  // ---------------------------------------------------------------------
  // Entry points

  /** `_expect_assignment` */
  function AssignmentSignAt(t: string, i: nat): (r: Result<nat>)
    requires i <= |t|
    ensures r.Ok? ==> i < r.value <= |t| && t[r.value - 1] == '='
  {
    match SkipTrivia(t, i)
    case Err(m) => Err(m)
    case Ok(j) =>
      var next: nat := j + 1;
      if StartsWith(t, j, "=") then Ok(next)
      else Err(ExpectedAssignment)
  }

  /** `parse_assignments`: `key = value` pairs until the end of input. */
  function Assignments(t: string): Result<Entries> {
    AssignmentsFrom(t, 0, [])
  }

  /** The loop of `parse_assignments`; `acc` holds the bindings so far. */
  function AssignmentsFrom(t: string, i: nat, acc: Entries): Result<Entries>
    requires i <= |t|
    decreases |t| - i
  {
    match SkipTrivia(t, i)
    case Err(m) => Err(m)
    case Ok(j) =>
      if j == |t| then Ok(acc)
      else
        match KeyAt(t, j)
        case Err(m) => Err(m)
        case Ok((key, k)) =>
          match SkipTrivia(t, k)
          case Err(m) => Err(m)
          case Ok(p) =>
            match AssignmentSignAt(t, p)
            case Err(m) => Err(m)
            case Ok(q) =>
              match ValueAt(t, q)
              case Err(m) => Err(m)
              case Ok((v, s)) =>
                match SkipTrivia(t, s)
                case Err(m) => Err(m)
                case Ok(u) => AssignmentsFrom(t, u, Put(acc, key, v))
  }

  /** `parse_value`: exactly one value, surrounded by trivia only. */
  function SingleValue(t: string): Result<Value> {
    SingleValueFrom(t, 0)
  }

  function SingleValueFrom(t: string, i0: nat): Result<Value>
    requires i0 <= |t|
  {
    match SkipTrivia(t, i0)
    case Err(m) => Err(m)
    case Ok(i) =>
      match ValueAt(t, i)
      case Err(m) => Err(m)
      case Ok((v, j)) =>
        match SkipTrivia(t, j)
        case Err(m) => Err(m)
        case Ok(k) =>
          if k == |t| then Ok(v) else Err(TrailingCharacters)
  }
}
