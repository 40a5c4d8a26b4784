/** Properties of the tfvars grammar of scripts/load_terraform_config.py:
    what trivia skipping, keywords, numbers, strings, heredocs and the
    collection rules accept and reject. */
module GrammarProperties {
  import opened Values
  import opened Grammar

  // ---------------------------------------------------------------------
  // Trivia

  /** Skipping trivia stops at the first position that does not start
      trivia, and skipping again from there does not move. */
  lemma {:induction false} SkipTriviaStops(t: string, i: nat)
    requires i <= |t| && SkipTrivia(t, i).Ok?
    ensures !TriviaAt(t, SkipTrivia(t, i).value)
    ensures SkipTrivia(t, SkipTrivia(t, i).value) == SkipTrivia(t, i)
    decreases |t| - i
  {
    if TriviaAt(t, i) {
      SkipTriviaStops(t, TriviaPieceEnd(t, i).value);
    }
  }

  /** A block comment with no closing star-slash after it is unterminated,
      whatever the depth. */
  lemma {:induction false} UnclosedBlockComment(t: string, i: nat, depth: nat)
    requires i <= |t| && depth > 0
    requires forall k :: i <= k < |t| ==> !StartsWith(t, k, "*/")
    ensures BlockComment(t, i, depth) == Err(UnterminatedBlockComment)
    decreases |t| - i
  {
    if i < |t| {
      if StartsWith(t, i, "/*") {
        UnclosedBlockComment(t, i + 2, depth + 1);
      } else {
        UnclosedBlockComment(t, i + 1, depth);
      }
    }
  }

  /** Inside a block comment, characters other than `/` and `*` are
      passed over one by one. */
  lemma {:induction false} BlockCommentPlain(t: string, i: nat, e: nat, depth: nat)
    requires i <= e <= |t| && depth > 0
    requires '/' !in t[i..e] && '*' !in t[i..e]
    ensures BlockComment(t, i, depth) == BlockComment(t, e, depth)
    decreases e - i
  {
    if i < e {
      assert t[i] == t[i..e][0];
      assert i + 2 <= |t| ==> t[i..i + 2][0] == t[i];
      assert t[i + 1..e] == t[i..e][1..];
      BlockCommentPlain(t, i + 1, e, depth);
    }
  }

  /** An opening slash-star inside a block comment deepens the nesting. */
  lemma BlockCommentOpens(t: string, i: nat, depth: nat)
    requires i <= |t| && depth > 0 && StartsWith(t, i, "/*")
    ensures BlockComment(t, i, depth) == BlockComment(t, i + 2, depth + 1)
  {
  }

  /** A closing star-slash inside a block comment ends one level. */
  lemma BlockCommentCloses(t: string, i: nat, depth: nat)
    requires i + 2 <= |t| && depth > 0 && t[i..i + 2] == "*/"
    ensures BlockComment(t, i, depth) == BlockComment(t, i + 2, depth - 1)
  {
    assert !StartsWith(t, i, "/*") by {
      assert t[i..i + 2][0] == '*';
    }
  }

  /** Block comments nest: the inner star-slash does not end the outer
      comment, and skipping stops exactly before `x`. */
  lemma NestedBlockComment()
    ensures SkipTrivia("/* a /* b */ c */ x", 0) == Ok(18)
  {
    var t := "/* a /* b */ c */ x";
    NestedCommentInner(t);
    NestedCommentOuter(t);
    assert TriviaPieceEnd(t, 0) == Ok(17) by {
      assert StartsWith(t, 0, "/*") by { assert t[0..2] == "/*"; }
      assert !StartsWith(t, 0, "//") by { assert t[0..2][1] == t[1]; }
    }
    assert SkipTrivia(t, 17) == SkipTrivia(t, 18) by {
      assert IsBlank(t[17]);
    }
    assert !TriviaAt(t, 18) by {
      assert !StartsWith(t, 18, "//") && !StartsWith(t, 18, "/*");
    }
  }

  /** The inner comment of `NestedBlockComment` opens and closes a level. */
  lemma NestedCommentInner(t: string)
    requires t == "/* a /* b */ c */ x"
    ensures BlockComment(t, 5, 1) == BlockComment(t, 12, 1)
  {
    BlockCommentOpens(t, 5, 1) by { assert t[5..7] == "/*"; }
    assert t[7..10] == " b ";
    BlockCommentPlain(t, 7, 10, 2);
    BlockCommentCloses(t, 10, 2) by { assert t[10..12] == "*/"; }
  }

  /** The outer comment of `NestedBlockComment` ends at position 17. */
  lemma NestedCommentOuter(t: string)
    requires t == "/* a /* b */ c */ x"
    requires BlockComment(t, 5, 1) == BlockComment(t, 12, 1)
    ensures BlockComment(t, 2, 1) == Ok(17)
  {
    assert t[2..5] == " a " && t[12..15] == " c ";
    BlockCommentPlain(t, 2, 5, 1);
    BlockCommentPlain(t, 12, 15, 1);
    BlockCommentCloses(t, 15, 1) by { assert t[15..17] == "*/"; }
  }

  // ---------------------------------------------------------------------
  // Keywords

  /** `true`, `false` and `null` are read when they stand at `i` followed
      by the end of input or a boundary character, and nothing else is. */
  lemma KeywordValues(t: string, i: nat)
    requires i <= |t|
    ensures KeywordAt(t, i, "true") ==> KeywordValueAt(t, i) == Ok((Bool(true), i + 4))
    ensures !KeywordAt(t, i, "true") && KeywordAt(t, i, "false") ==>
      KeywordValueAt(t, i) == Ok((Bool(false), i + 5))
    ensures !KeywordAt(t, i, "true") && !KeywordAt(t, i, "false") && KeywordAt(t, i, "null") ==>
      KeywordValueAt(t, i) == Ok((Null, i + 4))
    ensures !KeywordAt(t, i, "true") && !KeywordAt(t, i, "false") && !KeywordAt(t, i, "null") ==>
      KeywordValueAt(t, i) == Err(UnsupportedExpression)
  {
    assert Keywords[0].0 == "true" && Keywords[1].0 == "false" && Keywords[2].0 == "null";
  }

  /** A keyword followed by a letter is not a keyword. */
  lemma KeywordNeedsBoundary()
    ensures KeywordValueAt("truex", 0) == Err(UnsupportedExpression)
  {
    var t := "truex";
    assert !IsKeywordBoundary(t[4]);
    assert !StartsWith(t, 0, "false") && !StartsWith(t, 0, "null") by {
      assert t[0..4][0] == 't';
    }
    KeywordValues(t, 0);
  }

  // ---------------------------------------------------------------------
  // Numbers

  /** A number is an integer exactly when its literal holds none of `.`,
      `e`, `E`; a float keeps its literal, an integer has its value. */
  lemma NumberKinds(t: string, i: nat)
    requires i <= |t| && NumberAt(t, i).Ok?
    ensures var (v, e) := NumberAt(t, i).value; var raw := t[i..e];
      (v.Int? || v.Float?) &&
      (v.Int? <==> !HasFloatMark(raw)) &&
      (v.Float? ==> v.raw == raw) &&
      (v.Int? ==> v.n == IntLiteralValue(raw))
  {
  }

  /** A number fails without a digit after the optional minus sign. */
  lemma NumberNeedsDigits(t: string, i: nat)
    requires i <= |t|
    requires var a := if i < |t| && t[i] == '-' then i + 1 else i;
      !(a < |t| && IsDigit(t[a]))
    ensures NumberAt(t, i) == Err(InvalidNumber)
  {
  }

  /** A point must be followed by a digit. */
  lemma NumberFractionNeedsDigit(t: string, i: nat)
    requires i <= |t|
    requires var a := if i < |t| && t[i] == '-' then i + 1 else i;
      var b := DigitsEnd(t, a);
      b > a && b < |t| && t[b] == '.' && !(b + 1 < |t| && IsDigit(t[b + 1]))
    ensures NumberAt(t, i) == Err(InvalidNumber)
  {
  }

  /** An exponent marker and its optional sign must be followed by a
      digit. */
  lemma NumberExponentNeedsDigit(t: string, i: nat)
    requires i <= |t|
    requires var a := if i < |t| && t[i] == '-' then i + 1 else i;
      var b := DigitsEnd(t, a);
      b > a && FractionEnd(t, b).Ok? &&
      var c := FractionEnd(t, b).value;
      c < |t| && (t[c] == 'e' || t[c] == 'E') &&
      var d := if c + 1 < |t| && (t[c + 1] == '+' || t[c + 1] == '-') then c + 2 else c + 1;
      !(d < |t| && IsDigit(t[d]))
    ensures NumberAt(t, i) == Err(InvalidExponent)
  {
  }

  // ---------------------------------------------------------------------
  // Strings

  /** What one round of the string loop reads at a backslash: each short
      escape its character, a unicode escape the code point of its four
      hexadecimal digits, and an error for anything else. */
  lemma Escapes(t: string, i: nat)
    requires i < |t| && t[i] == '\\'
    ensures i + 1 == |t| ==> StringPieceAt(t, i) == BadPiece(IncompleteEscape)
    ensures i + 1 < |t| ==>
      var e := t[i + 1];
      (e == '"' ==> StringPieceAt(t, i) == Decoded('"', i + 2)) &&
      (e == '\\' ==> StringPieceAt(t, i) == Decoded('\\', i + 2)) &&
      (e == '/' ==> StringPieceAt(t, i) == Decoded('/', i + 2)) &&
      (e == 'b' ==> StringPieceAt(t, i) == Decoded('\U{8}', i + 2)) &&
      (e == 'f' ==> StringPieceAt(t, i) == Decoded('\U{C}', i + 2)) &&
      (e == 'n' ==> StringPieceAt(t, i) == Decoded('\n', i + 2)) &&
      (e == 'r' ==> StringPieceAt(t, i) == Decoded('\r', i + 2)) &&
      (e == 't' ==> StringPieceAt(t, i) == Decoded('\t', i + 2)) &&
      (e !in {'"', '\\', '/', 'b', 'f', 'n', 'r', 't', 'u'} ==>
        StringPieceAt(t, i) == BadPiece(UnsupportedEscape(e)))
    ensures i + 6 <= |t| && t[i + 1] == 'u' && (forall k :: i + 2 <= k < i + 6 ==> IsHexDigit(t[k])) ==>
      var n := HexValue(t[i + 2..i + 6]);
      StringPieceAt(t, i) == if IsSurrogate(n) then BadPiece(InvalidUnicodeEscape) else Decoded(n as char, i + 6)
    ensures i + 1 < |t| && t[i + 1] == 'u' && !(i + 6 <= |t| && forall k :: i + 2 <= k < i + 6 ==> IsHexDigit(t[k])) ==>
      StringPieceAt(t, i) == BadPiece(InvalidUnicodeEscape)
  {
    if i + 1 < |t| && t[i + 1] == 'u' {
      var code := t[i + 2..if i + 6 <= |t| then i + 6 else |t|];
      assert forall k :: 0 <= k < |code| ==> code[k] == t[i + 2 + k];
    }
  }

  /** A string whose closing quote never comes is an error. */
  lemma UnclosedString(t: string, i: nat, acc: string)
    requires i <= |t| && forall k :: i <= k < |t| ==> t[k] != '"'
    ensures StringBody(t, i, acc).Err?
  {
  }

  // ---------------------------------------------------------------------
  // Heredocs

  /** Stripping leading tabs and spaces leaves a suffix of the line. */
  lemma {:induction false} LStripSuffix(line: string)
    ensures var r := LStripTabsSpaces(line); |r| <= |line| && r == line[|line| - |r|..]
  {
    if |line| > 0 && (line[0] == ' ' || line[0] == '\t') {
      LStripSuffix(line[1..]);
    }
  }

  /** A heredoc whose tag never occurs again is unterminated. */
  lemma {:induction false} HeredocWithoutTerminator(t: string, i: nat, tag: string, indent: bool, lines: seq<string>)
    requires i <= |t| && |tag| > 0
    requires forall k :: i <= k < |t| ==> !StartsWith(t, k, tag)
    ensures HeredocBody(t, i, tag, indent, lines) == Err(UnterminatedHeredoc)
    decreases |t| - i
  {
    if i < |t| {
      var e := LineEnd(t, i);
      var line := t[i..e];
      var next := if e < |t| then e + 1 else e;
      var seen := if indent then LStripTabsSpaces(line) else line;
      LStripSuffix(line);
      var m := |line| - |seen|;
      assert seen == line[m..];
      if seen == tag {
        assert t[i + m..i + m + |tag|] == tag;
        assert StartsWith(t, i + m, tag);
        assert false;
      }
      HeredocWithoutTerminator(t, next, tag, indent, lines + [line]);
    }
  }

  /** A line of a heredoc's body: it holds no line feed and is not the
      terminator. */
  predicate BodyLine(line: string, tag: string, indent: bool) {
    (forall k :: 0 <= k < |line| ==> line[k] != '\n') &&
    (if indent then LStripTabsSpaces(line) else line) != tag
  }

  /** A heredoc's text is the lines read so far and then whole body lines,
      joined by line feeds. */
  lemma HeredocLines(t: string, i: nat, tag: string, indent: bool, lines: seq<string>)
    requires i <= |t| && HeredocBody(t, i, tag, indent, lines).Ok?
    ensures exists body: seq<string> ::
      HeredocBody(t, i, tag, indent, lines).value.0 == JoinLines(lines + body) &&
      forall k :: 0 <= k < |body| ==> BodyLine(body[k], tag, indent)
  {
    var body := HeredocBodyLines(t, i, tag, indent, lines);
  }

  /** The body lines behind `HeredocLines`, found line by line. */
  lemma {:induction false} HeredocBodyLines(t: string, i: nat, tag: string, indent: bool, lines: seq<string>)
    returns (body: seq<string>)
    requires i <= |t| && HeredocBody(t, i, tag, indent, lines).Ok?
    ensures HeredocBody(t, i, tag, indent, lines).value.0 == JoinLines(lines + body)
    ensures forall k :: 0 <= k < |body| ==> BodyLine(body[k], tag, indent)
    decreases |t| - i
  {
    var e := LineEnd(t, i);
    var line := t[i..e];
    var next := if e < |t| then e + 1 else e;
    if (if indent then LStripTabsSpaces(line) else line) == tag {
      assert lines + [] == lines;
      return [];
    }
    var rest := HeredocBodyLines(t, next, tag, indent, lines + [line]);
    HeredocStep(t, i, tag, indent, rest);
    HeredocUnfold(t, i, tag, indent, lines);
    body := [line] + rest;
    assert lines + [line] + rest == lines + body;
  }

  lemma HeredocUnfold(t: string, i: nat, tag: string, indent: bool, lines: seq<string>)
    requires i < |t|
    requires var line := t[i..LineEnd(t, i)]; (if indent then LStripTabsSpaces(line) else line) != tag
    ensures var e := LineEnd(t, i);
      HeredocBody(t, i, tag, indent, lines) ==
      HeredocBody(t, if e < |t| then e + 1 else e, tag, indent, lines + [t[i..e]])
  {
  }

  lemma HeredocStep(t: string, i: nat, tag: string, indent: bool, rest: seq<string>)
    requires i < |t|
    requires var line := t[i..LineEnd(t, i)]; (if indent then LStripTabsSpaces(line) else line) != tag
    requires forall k :: 0 <= k < |rest| ==> BodyLine(rest[k], tag, indent)
    ensures var body := [t[i..LineEnd(t, i)]] + rest;
      forall k :: 0 <= k < |body| ==> BodyLine(body[k], tag, indent)
  {
    var line := t[i..LineEnd(t, i)];
    assert forall k :: 0 <= k < |line| ==> line[k] == t[i + k];
    var body := [line] + rest;
    assert forall k :: 0 < k < |body| ==> body[k] == rest[k - 1];
  }

  /** A line of the text starts at `p`, at or after `i`: at `i` itself or
      right after a line feed, and before the end of the text. */
  predicate LineStartFrom(t: string, i: nat, p: nat) {
    i <= p < |t| && (p == i || t[p - 1] == '\n')
  }

  /** The line at `p` closes a heredoc tagged `tag`: it is the tag, once
      its leading tabs and spaces are dropped when `indent` is set. */
  predicate ClosesHeredoc(t: string, p: nat, tag: string, indent: bool)
    requires p <= |t|
  {
    var line := t[p..LineEnd(t, p)];
    (if indent then LStripTabsSpaces(line) else line) == tag
  }

  /** The line at `p` is the first line from `i` on that closes the
      heredoc. */
  predicate FirstClosing(t: string, i: nat, p: nat, tag: string, indent: bool) {
    LineStartFrom(t, i, p) && ClosesHeredoc(t, p, tag, indent) &&
    forall q :: i <= q < p && LineStartFrom(t, i, q) ==> !ClosesHeredoc(t, q, tag, indent)
  }

  /** The text of the lines from `i` up to the line at `p`, without the
      line feed that ends the last of them. */
  function BodyText(t: string, i: nat, p: nat): string
    requires i <= p <= |t|
  {
    if p == i then "" else t[i..p - 1]
  }

  /** The lines read so far, then (unless `none`) the text `x` of more
      lines, joined by line feeds. */
  function Joined(lines: seq<string>, x: string, none: bool): string {
    if none then JoinLines(lines)
    else if lines == [] then x
    else JoinLines(lines) + "\n" + x
  }

  /** The heredoc body from `i` is the text up to its first closing line,
      and the text after that line is read next; there is such a line
      exactly when the body is read. */
  lemma HeredocTerminated(t: string, i: nat, tag: string, indent: bool, s: string, n: nat)
    requires i <= |t|
    ensures HeredocBody(t, i, tag, indent, []) == Ok((s, n)) <==>
      exists p :: FirstClosing(t, i, p, tag, indent) && n == SkipLine(t, p) && s == BodyText(t, i, p)
  {
    if HeredocBody(t, i, tag, indent, []) == Ok((s, n)) {
      var p := HeredocClosingFound(t, i, tag, indent, []);
      HeredocClosedAt(t, i, p, tag, indent, []);
    }
    if exists p :: FirstClosing(t, i, p, tag, indent) && n == SkipLine(t, p) && s == BodyText(t, i, p) {
      var p :| FirstClosing(t, i, p, tag, indent) && n == SkipLine(t, p) && s == BodyText(t, i, p);
      HeredocClosedAt(t, i, p, tag, indent, []);
    }
  }

  /** A heredoc body is unterminated exactly when no line from `i` on
      closes it. */
  lemma HeredocUnterminated(t: string, i: nat, tag: string, indent: bool)
    requires i <= |t|
    ensures HeredocBody(t, i, tag, indent, []) == Err(UnterminatedHeredoc) <==>
      forall p :: LineStartFrom(t, i, p) ==> !ClosesHeredoc(t, p, tag, indent)
  {
    if HeredocBody(t, i, tag, indent, []).Ok? {
      var p := HeredocClosingFound(t, i, tag, indent, []);
    } else {
      forall p | LineStartFrom(t, i, p) ensures !ClosesHeredoc(t, p, tag, indent) {
        NotClosingWhenUnterminated(t, i, p, tag, indent, []);
      }
    }
  }

  /** Reading a body up to its first closing line at `p`. */
  lemma {:induction false} HeredocClosedAt(t: string, i: nat, p: nat, tag: string, indent: bool, lines: seq<string>)
    requires FirstClosing(t, i, p, tag, indent)
    ensures HeredocBody(t, i, tag, indent, lines) ==
      Ok((Joined(lines, BodyText(t, i, p), p == i), SkipLine(t, p)))
    decreases p - i
  {
    if p != i {
      var e, next, line := LaterClosing(t, i, p, tag, indent);
      var more := lines + [line];
      HeredocNext(t, i, e, next, tag, indent, lines, line, more);
      HeredocClosedAt(t, next, p, tag, indent, more);
      BodyTextStep(t, i, e, next, p, line);
      JoinedStep(lines, line, more, BodyText(t, next, p), p == next);
    }
  }

  /** A line at `i` that does not close the heredoc is added to the lines
      read so far, and the loop goes on after its line feed. */
  lemma HeredocNext(t: string, i: nat, e: nat, next: nat, tag: string, indent: bool, lines: seq<string>, line: string, more: seq<string>)
    requires i < |t| && e == LineEnd(t, i) && e < |t| && next == e + 1 && line == t[i..e]
    requires !ClosesHeredoc(t, i, tag, indent) && more == lines + [line]
    ensures HeredocBody(t, i, tag, indent, lines) == HeredocBody(t, next, tag, indent, more)
  {
    HeredocUnfold(t, i, tag, indent, lines);
  }

  /** When the first closing line is not the line at `i`, that line ends
      with a line feed before it, and the first closing line from the
      next line on is the same. */
  lemma LaterClosing(t: string, i: nat, p: nat, tag: string, indent: bool) returns (e: nat, next: nat, line: string)
    requires FirstClosing(t, i, p, tag, indent) && p != i
    ensures e == LineEnd(t, i) && e < p && t[e] == '\n' && next == e + 1 && line == t[i..e]
    ensures i < |t| && !ClosesHeredoc(t, i, tag, indent) && FirstClosing(t, next, p, tag, indent)
  {
    e := LineEnd(t, i);
    assert LineStartFrom(t, i, i);
    LineEndBefore(t, i, p);
    next := e + 1;
    line := t[i..e];
    FirstClosingAfter(t, i, next, p, tag, indent);
  }

  /** The line at `i` ends before any later line starts. */
  lemma LineEndBefore(t: string, i: nat, p: nat)
    requires i < p <= |t| && t[p - 1] == '\n'
    ensures LineEnd(t, i) < p
  {
  }

  /** The text from `i` up to the line at `p` is the line at `i` and, when
      more lines follow before `p`, a line feed and their text. */
  lemma BodyTextStep(t: string, i: nat, e: nat, next: nat, p: nat, line: string)
    requires i <= e < p <= |t| && next == e + 1 && next <= p && t[e] == '\n' && line == t[i..e]
    ensures BodyText(t, i, p) == if p == next then line else line + "\n" + BodyText(t, next, p)
  {
    if p != next {
      assert t[i..p - 1] == t[i..e] + [t[e]] + t[next..p - 1];
    }
  }

  /** The lines between a line feed after `i` and a first closing line
      are the lines before it from that line feed on. */
  lemma FirstClosingAfter(t: string, i: nat, next: nat, p: nat, tag: string, indent: bool)
    requires FirstClosing(t, i, p, tag, indent) && i < next <= p && t[next - 1] == '\n'
    ensures FirstClosing(t, next, p, tag, indent)
  {
    forall q | next <= q < p && LineStartFrom(t, next, q) ensures !ClosesHeredoc(t, q, tag, indent) {
      assert LineStartFrom(t, i, q);
    }
  }

  /** One more line read: its text joins the lines so far. */
  lemma JoinedStep(lines: seq<string>, line: string, more: seq<string>, rest: string, last: bool)
    requires more == lines + [line]
    ensures Joined(more, rest, last) == Joined(lines, if last then line else line + "\n" + rest, false)
  {
    if lines != [] {
      JoinAppend(lines, [line], '\n');
    } else {
      assert lines + [line] == [line];
    }
  }

  /** A body that is read has a first closing line. */
  lemma {:induction false} HeredocClosingFound(t: string, i: nat, tag: string, indent: bool, lines: seq<string>)
      returns (p: nat)
    requires i <= |t| && HeredocBody(t, i, tag, indent, lines).Ok?
    ensures FirstClosing(t, i, p, tag, indent)
    decreases |t| - i
  {
    if ClosesHeredoc(t, i, tag, indent) {
      p := i;
    } else {
      var e := LineEnd(t, i);
      HeredocUnfold(t, i, tag, indent, lines);
      var next := if e < |t| then e + 1 else e;
      p := HeredocClosingFound(t, next, tag, indent, lines + [t[i..e]]);
      FirstClosingBefore(t, i, e, p, tag, indent);
    }
  }

  /** A first closing line after the line at `i`, which does not close the
      heredoc, is the first from `i` on. */
  lemma FirstClosingBefore(t: string, i: nat, e: nat, p: nat, tag: string, indent: bool)
    requires i < |t| && e == LineEnd(t, i) && e < |t| && !ClosesHeredoc(t, i, tag, indent)
    requires FirstClosing(t, e + 1, p, tag, indent)
    ensures FirstClosing(t, i, p, tag, indent)
  {
    forall q | i <= q < p && LineStartFrom(t, i, q) ensures !ClosesHeredoc(t, q, tag, indent) {
      if q != i {
        assert t[q - 1] == '\n';
        assert LineStartFrom(t, e + 1, q);
      }
    }
  }

  /** In a body that is not read, no line from `i` on closes it. */
  lemma {:induction false} NotClosingWhenUnterminated(t: string, i: nat, p: nat, tag: string, indent: bool, lines: seq<string>)
    requires LineStartFrom(t, i, p) && HeredocBody(t, i, tag, indent, lines).Err?
    ensures !ClosesHeredoc(t, p, tag, indent)
    decreases p - i
  {
    assert !ClosesHeredoc(t, i, tag, indent);
    if p != i {
      var e := LineEnd(t, i);
      LineEndBefore(t, i, p);
      var next, line := e + 1, t[i..e];
      var more := lines + [line];
      HeredocNext(t, i, e, next, tag, indent, lines, line, more);
      NotClosingWhenUnterminated(t, next, p, tag, indent, more);
    }
  }

  /** After `<<` or `<<-` (ending at `j`) a tag is mandatory. */
  lemma HeredocNeedsTag(t: string, i: nat, j: nat)
    requires i <= |t| && StartsWith(t, i, "<<")
    requires j == (if StartsWith(t, i, "<<-") then i + 3 else i + 2) && j <= |t|
    requires IdentEnd(t, j) == j
    ensures HeredocAt(t, i) == Err(ExpectedIdentifier)
  {
  }

  /** The tag runs from `j` to `e`; the rest of the introducer line and its
      line feed are passed over before the body. */
  lemma HeredocIntroducer(t: string, i: nat, j: nat, e: nat)
    requires i <= |t| && StartsWith(t, i, "<<")
    requires j == (if StartsWith(t, i, "<<-") then i + 3 else i + 2) && j <= |t|
    requires e == IdentEnd(t, j) && e > j
    ensures HeredocAt(t, i) ==
      HeredocBody(t, SkipLine(t, e), t[j..e], StartsWith(t, i, "<<-"), [])
  {
    assert IdentifierAt(t, j) == Ok((t[j..e], e));
  }

  // ---------------------------------------------------------------------
  // Choosing the kind of a value

  /** After trivia a bracket starts an array. */
  lemma ValueAtArray(t: string, j: nat, i: nat)
    requires j <= i < |t| && SkipTrivia(t, j) == Ok(i) && t[i] == '['
    ensures ValueAt(t, j) == ArrayAt(t, i)
  {
  }

  /** After trivia a brace starts an object. */
  lemma ValueAtObject(t: string, j: nat, i: nat)
    requires j <= i < |t| && SkipTrivia(t, j) == Ok(i) && t[i] == '{'
    ensures ValueAt(t, j) == ObjectAt(t, i)
  {
  }

  /** After trivia a double quote starts a string. */
  lemma ValueAtString(t: string, j: nat, i: nat, s: string, k: nat)
    requires j <= i < |t| && SkipTrivia(t, j) == Ok(i) && t[i] == '"'
    requires StringAt(t, i) == Ok((s, k))
    ensures ValueAt(t, j) == Ok((Str(s), k))
  {
  }

  /** After trivia a minus sign or a digit starts a number. */
  lemma ValueAtNumber(t: string, j: nat, i: nat)
    requires j <= i < |t| && SkipTrivia(t, j) == Ok(i) && (t[i] == '-' || IsDigit(t[i]))
    ensures ValueAt(t, j) == NumberAt(t, i)
  {
  }

  /** After trivia the first letter of a keyword starts a keyword. */
  lemma ValueAtKeyword(t: string, j: nat, i: nat)
    requires j <= i < |t| && SkipTrivia(t, j) == Ok(i) && (t[i] == 't' || t[i] == 'f' || t[i] == 'n')
    ensures ValueAt(t, j) == KeywordValueAt(t, i)
  {
  }

  /** An array starts with its bracket. */
  lemma ArrayOpens(t: string, i: nat, p: nat)
    requires i < |t| && t[i] == '[' && p == i + 1
    ensures ArrayAt(t, i) == ArrayItems(t, p, [])
  {
    OneChar(t, i, '[');
  }

  /** An object starts with its brace. */
  lemma ObjectOpens(t: string, i: nat, p: nat)
    requires i < |t| && t[i] == '{' && p == i + 1
    ensures ObjectAt(t, i) == ObjectEntries(t, p, [])
  {
    OneChar(t, i, '{');
  }

  /** An element of an array is followed by its separator. */
  lemma ArrayElement(t: string, p: nat, q: nat, acc: seq<Value>, v: Value, e: nat)
    requires p <= |t| && SkipTrivia(t, p) == Ok(q) && q < |t| && t[q] != ']'
    requires ValueAt(t, q) == Ok((v, e))
    ensures ArrayItems(t, p, acc) == ArraySeparator(t, e, acc + [v])
  {
    OneChar(t, q, ']');
  }

  /** An entry of an object is bound in the entries so far and followed by
      its separator. */
  lemma ObjectEntry(t: string, p: nat, s: nat, acc: Entries, key: string, k: nat, v: Value, q: nat)
    requires p <= |t| && SkipTrivia(t, p) == Ok(s) && s < |t| && t[s] != '}'
    requires KeyAt(t, s) == Ok((key, k)) && EntryValueAt(t, k) == Ok((v, q))
    ensures ObjectEntries(t, p, acc) == ObjectSeparator(t, q, Put(acc, key, v))
  {
    OneChar(t, s, '}');
  }

  /** A one-character literal starts at `i` exactly when that character is there. */
  lemma OneChar(t: string, i: nat, c: char)
    requires i < |t|
    ensures StartsWith(t, i, [c]) <==> t[i] == c
  {
    assert t[i..i + 1] == [t[i]];
  }

  // ---------------------------------------------------------------------
  // Separators of arrays and objects

  /** A closing bracket ends an array wherever an element could start:
      `[]` is the empty list and a comma may trail the last element. */
  lemma ArrayItemsClose(t: string, i: nat, j: nat, acc: seq<Value>)
    requires i <= |t| && SkipTrivia(t, i) == Ok(j) && j < |t| && t[j] == ']'
    ensures ArrayItems(t, i, acc) == Ok((List(acc), j + 1))
  {
    OneChar(t, j, ']');
  }

  /** After an element only a comma or a closing bracket may follow. */
  lemma ArraySeparators(t: string, k: nat, p: nat, q: nat, acc: seq<Value>)
    requires k <= |t| && SkipTrivia(t, k) == Ok(p) && q == p + 1
    ensures p < |t| && t[p] == ',' ==> ArraySeparator(t, k, acc) == ArrayItems(t, q, acc)
    ensures p < |t| && t[p] == ']' ==> ArraySeparator(t, k, acc) == Ok((List(acc), q))
    ensures !(p < |t| && (t[p] == ',' || t[p] == ']')) ==>
      ArraySeparator(t, k, acc) == Err(ExpectedCommaOrBracket)
  {
    if p < |t| {
      OneChar(t, p, ',');
      OneChar(t, p, ']');
    }
  }

  /** An object key must be followed by `=` or `:`, and the value of the
      entry is read after it. */
  lemma EntrySigns(t: string, k: nat, p: nat, q: nat)
    requires k <= |t| && SkipTrivia(t, k) == Ok(p) && q == p + 1
    ensures p < |t| && (t[p] == '=' || t[p] == ':') ==> EntryValueAt(t, k) == ValueAt(t, q)
    ensures !(p < |t| && (t[p] == '=' || t[p] == ':')) ==>
      EntryValueAt(t, k) == Err(ExpectedEqualsOrColon)
  {
    if p < |t| {
      OneChar(t, p, '=');
      OneChar(t, p, ':');
    }
  }

  /** A closing brace where trivia ends ends the map. */
  lemma ObjectEntriesClose(t: string, i: nat, j: nat, acc: Entries)
    requires i <= |t| && SkipTrivia(t, i) == Ok(j) && j < |t| && t[j] == '}'
    ensures ObjectEntries(t, i, acc) == Ok((Object(acc), j + 1))
  {
    OneChar(t, j, '}');
  }

  /** Trivia skipped before the entries of a map change nothing. */
  lemma EntriesAfterTrivia(t: string, p: nat, s: nat, acc: Entries)
    requires p <= s <= |t| && SkipTrivia(t, p) == Ok(s) && SkipTrivia(t, s) == Ok(s)
    ensures ObjectEntries(t, p, acc) == ObjectEntries(t, s, acc)
  {
  }

  /** Between object entries a comma is optional. */
  lemma ObjectSeparators(t: string, q: nat, s: nat, u: nat, acc: Entries)
    requires q <= |t| && SkipTrivia(t, q) == Ok(s) && u == s + 1
    ensures s < |t| && t[s] == ',' ==> ObjectSeparator(t, q, acc) == ObjectEntries(t, u, acc)
    ensures s < |t| && t[s] == '}' ==> ObjectSeparator(t, q, acc) == Ok((Object(acc), u))
    ensures !(s < |t| && (t[s] == ',' || t[s] == '}')) ==>
      ObjectSeparator(t, q, acc) == ObjectEntries(t, s, acc)
  {
    if s < |t| {
      OneChar(t, s, ',');
      OneChar(t, s, '}');
    }
  }

  // ---------------------------------------------------------------------
  // Objects, assignments and single values

  /** The entries of a parsed object have unique keys: a later duplicate
      key overwrites the earlier binding in place. */
  lemma {:induction false} ObjectEntriesUnique(t: string, i: nat, acc: Entries)
    requires i <= |t| && UniqueKeys(acc) && ObjectEntries(t, i, acc).Ok?
    ensures var v := ObjectEntries(t, i, acc).value.0;
      v.Object? && UniqueKeys(v.entries) && Keys(acc) <= Keys(v.entries)
    decreases |t| - i, 0
  {
    var j := SkipTrivia(t, i).value;
    if !StartsWith(t, j, "}") {
      var (key, k) := KeyAt(t, j).value;
      var (v, q) := EntryValueAt(t, k).value;
      PutKeepsKeysUnique(acc, key, v);
      ObjectSeparatorUnique(t, q, Put(acc, key, v));
    }
  }

  lemma {:induction false} ObjectSeparatorUnique(t: string, q: nat, acc: Entries)
    requires q <= |t| && UniqueKeys(acc) && ObjectSeparator(t, q, acc).Ok?
    ensures var v := ObjectSeparator(t, q, acc).value.0;
      v.Object? && UniqueKeys(v.entries) && Keys(acc) <= Keys(v.entries)
    decreases |t| - q, 1
  {
    var s := SkipTrivia(t, q).value;
    if StartsWith(t, s, ",") {
      ObjectEntriesUnique(t, s + 1, acc);
    } else if !StartsWith(t, s, "}") {
      ObjectEntriesUnique(t, s, acc);
    }
  }

  /** A parsed array is a list whose elements begin with those read so
      far. */
  lemma {:induction false} ArrayItemsList(t: string, i: nat, acc: seq<Value>)
    requires i <= |t| && ArrayItems(t, i, acc).Ok?
    ensures var (v, _) := ArrayItems(t, i, acc).value;
      v.List? && |acc| <= |v.items| && v.items[..|acc|] == acc
    decreases |t| - i, 0
  {
    var j := SkipTrivia(t, i).value;
    if !StartsWith(t, j, "]") {
      var (v, k) := ValueAt(t, j).value;
      ArraySeparatorList(t, k, acc + [v]);
      var items := ArrayItems(t, i, acc).value.0.items;
      assert items[..|acc|] == items[..|acc| + 1][..|acc|];
    }
  }

  lemma {:induction false} ArraySeparatorList(t: string, k: nat, acc: seq<Value>)
    requires k <= |t| && ArraySeparator(t, k, acc).Ok?
    ensures var (v, _) := ArraySeparator(t, k, acc).value;
      v.List? && |acc| <= |v.items| && v.items[..|acc|] == acc
    decreases |t| - k, 1
  {
    var p := SkipTrivia(t, k).value;
    if StartsWith(t, p, ",") {
      ArrayItemsList(t, p + 1, acc);
    }
  }

  /** The bindings of a parsed assignment list have unique keys: the last
      binding of a key wins. */
  lemma {:induction false} AssignmentsUnique(t: string, i: nat, acc: Entries)
    requires i <= |t| && UniqueKeys(acc) && AssignmentsFrom(t, i, acc).Ok?
    ensures UniqueKeys(AssignmentsFrom(t, i, acc).value)
    decreases |t| - i
  {
    var j := SkipTrivia(t, i).value;
    if j < |t| {
      var (key, k) := KeyAt(t, j).value;
      var p := SkipTrivia(t, k).value;
      var q := AssignmentSignAt(t, p).value;
      var (v, s) := ValueAt(t, q).value;
      var u := SkipTrivia(t, s).value;
      PutKeepsKeysUnique(acc, key, v);
      AssignmentsUnique(t, u, Put(acc, key, v));
    }
  }

  /** A single value is one value with nothing but trivia around it. */
  lemma SingleValueAlone(t: string, i0: nat)
    requires i0 <= |t| && SingleValueFrom(t, i0).Ok?
    ensures exists i: nat, j: nat ::
      i0 <= i < j <= |t| && SkipTrivia(t, i0) == Ok(i) &&
      ValueAt(t, i) == Ok((SingleValueFrom(t, i0).value, j)) && SkipTrivia(t, j) == Ok(|t|)
  {
    var i := SkipTrivia(t, i0).value;
    var j := ValueAt(t, i).value.1;
    assert SkipTrivia(t, j) == Ok(|t|);
  }
}
