/** What the formatter of scripts/load_terraform_config.py writes, the
    parser of the same file reads back: `_format_value` and `_parse_value`
    agree on booleans, null, integers, strings, and lists and maps of
    them nested to any depth. */
module RoundTrip {
  import opened Values
  import opened Grammar
  import opened Formatter
  import opened GrammarProperties

  /** A run of digits from `j` to `e`, followed by a non-digit or the end,
      is read whole. */
  lemma {:induction false} DigitsEndAt(t: string, j: nat, e: nat)
    requires j <= e <= |t| && forall k :: j <= k < e ==> IsDigit(t[k])
    requires e == |t| || !IsDigit(t[e])
    ensures DigitsEnd(t, j) == e
    decreases e - j
  {
    if j < e {
      DigitsEndAt(t, j + 1, e);
    }
  }

  /** A rendered integer followed by a keyword boundary reads back as that
      integer. */
  lemma {:induction false} IntReadsBack(n: int, rest: string)
    requires rest == "" || IsKeywordBoundary(rest[0])
    ensures NumberAt(IntToString(n) + rest, 0) == Ok((Int(n), |IntToString(n)|))
  {
    var f := IntToString(n);
    var t := f + rest;
    var a := if n < 0 then 1 else 0;
    assert forall k :: 0 <= k < |f| ==> t[k] == f[k];
    assert forall k :: a <= k < |f| ==> IsDigit(f[k]);
    assert t[0] == '-' <==> n < 0;
    if |f| < |t| {
      assert t[|f|] == rest[0];
    }
    DigitsEndAt(t, a, |f|);
    assert t[0..|f|] == f;
    assert !HasFloatMark(f);
    IntToStringValue(n);
  }

  /** A keyword followed by a boundary is read as its value. */
  lemma {:induction false} KeywordReadsBack(w: string, v: Value, rest: string)
    requires (w, v) in Keywords
    requires rest == "" || IsKeywordBoundary(rest[0])
    ensures ValueAt(w + rest, 0) == Ok((v, |w|))
  {
    var t := w + rest;
    assert t[0..|w|] == w;
    assert KeywordAt(t, 0, w);
    NotTriviaAt(t, 0);
    KeywordValues(t, 0);
    if w != "true" {
      assert t[0] != 't';
      assert !StartsWith(t, 0, "true") by {
        assert 4 <= |t| ==> t[0..4][0] == t[0];
      }
    }
    if w == "null" {
      assert !StartsWith(t, 0, "false") by {
        assert 5 <= |t| ==> t[0..5][0] == t[0];
      }
    }
  }

  /** A quoted basic-plane string is read as that string value. */
  lemma {:induction false} StrValueReadsBack(s: string, rest: string)
    requires BasicPlane(s)
    ensures ValueAt(Quote(s) + rest, 0) == Ok((Str(s), |Quote(s)|))
  {
    var t := Quote(s) + rest;
    QuoteReadsBack(s, rest);
    assert t[0] == '"';
    NotTriviaAt(t, 0);
  }

  /** A rendered integer before a boundary is read as that integer value. */
  lemma {:induction false} IntValueReadsBack(n: int, rest: string)
    requires rest == "" || IsKeywordBoundary(rest[0])
    ensures ValueAt(IntToString(n) + rest, 0) == Ok((Int(n), |IntToString(n)|))
  {
    var f := IntToString(n);
    var t := f + rest;
    IntReadsBack(n, rest);
    assert t[0] == f[0];
    assert IsDigit(f[0]) || f[0] == '-';
    NotTriviaAt(t, 0);
  }

  /** A rendered scalar other than a float reads back as that scalar
      before any keyword boundary (strings: of the basic plane). */
  lemma {:induction false} ScalarReadsBack(v: Value, rest: string)
    requires v.IsScalar() && !v.Float? && (v.Str? ==> BasicPlane(v.s))
    requires rest == "" || IsKeywordBoundary(rest[0])
    ensures ValueAt(FormatScalar(v) + rest, 0) == Ok((v, |FormatScalar(v)|))
  {
    match v
    case Str(s) =>
      StrValueReadsBack(s, rest);
    case Int(n) =>
      IntValueReadsBack(n, rest);
    case Bool(b) =>
      if b {
        assert Keywords[0] == ("true", Bool(true));
        KeywordReadsBack("true", v, rest);
      } else {
        assert Keywords[1] == ("false", Bool(false));
        KeywordReadsBack("false", v, rest);
      }
    case Null =>
      assert Keywords[2] == ("null", Null);
      KeywordReadsBack("null", v, rest);
  }

  // ---------------------------------------------------------------------
  // Lists and maps, at any position of a text

  /** Values whose rendering reads back as the same value: no floats (the
      rendering of a float stands in for `repr`), strings and keys of the
      basic plane, and no key twice in a map (the parser would keep only
      one binding of twins). */
  predicate Readable(v: Value)
    ensures Readable(v) ==> Renderable(v)
    decreases v
  {
    match v
    case Float(_) => false
    case Str(s) => BasicPlane(s)
    case List(items) => forall k :: 0 <= k < |items| ==> Readable(items[k])
    case Object(entries) =>
      UniqueKeys(entries) &&
      forall k :: 0 <= k < |entries| ==> BasicPlane(entries[k].0) && Readable(entries[k].1)
    case _ => true
  }

  /** `f` is the rendering of `v` at `level`. */
  predicate Rendered(v: Value, level: nat, f: string) {
    Renderable(v) && f == FormatValue(v, level)
  }

  /** Every element of a list is readable. */
  predicate ReadableItems(items: seq<Value>)
    ensures ReadableItems(items) ==> forall j :: 0 <= j < |items| ==> Renderable(items[j])
  {
    forall j :: 0 <= j < |items| ==> Readable(items[j])
  }

  /** Where a value may end: at the end of the text or before a keyword
      boundary. */
  predicate BoundaryAt(t: string, e: nat) {
    e == |t| || (e < |t| && IsKeywordBoundary(t[e]))
  }

  /** The characters a rendered readable value starts with; none of them
      starts trivia or closes a collection. */
  predicate OpensValue(c: char) {
    c == '"' || c == '-' || IsDigit(c) || c == 't' || c == 'f' || c == 'n' || c == '[' || c == '{'
  }

  lemma {:induction false} FormatValueOpens(v: Value, level: nat)
    requires Readable(v)
    ensures OpensValue(FormatValue(v, level)[0])
  {
    match v
    case List(items) => FormatListText(items, level);
    case Object(entries) => FormatObjectText(entries, level);
    case Int(n) =>
      if n >= 0 {
        assert IsDigit(NatToString(n)[0]);
      }
    case _ =>
  }

  lemma {:induction false} CharAt(t: string, i: nat, s: string, m: nat)
    requires StartsWith(t, i, s) && m < |s|
    ensures t[i + m] == s[m]
  {
    assert t[i..i + |s|][m] == t[i + m];
  }

  lemma {:induction false} StartsWithConcat(t: string, i: nat, a: string, b: string)
    requires StartsWith(t, i, a + b)
    ensures StartsWith(t, i, a) && StartsWith(t, i + |a|, b)
  {
    SlicesOfConcat(t, i, a, b);
  }

  lemma {:induction false} SpacesAt(t: string, i: nat, n: nat)
    requires StartsWith(t, i, Spaces(n))
    ensures forall m :: i <= m < i + n ==> t[m] == ' '
  {
    forall m | i <= m < i + n ensures t[m] == ' ' {
      CharAt(t, i, Spaces(n), m - i);
    }
  }

  /** A run of spaces and line feeds is skipped whole when what follows
      it cannot start trivia. */
  lemma {:induction false} BlankRunSkipped(t: string, p: nat, q: nat)
    requires p <= q < |t| && forall m :: p <= m < q ==> t[m] == ' ' || t[m] == '\n'
    requires !IsBlank(t[q]) && t[q] != '#' && t[q] != '/'
    ensures SkipTrivia(t, p) == Ok(q)
    decreases q - p
  {
    if p == q {
      NotTriviaAt(t, q);
    } else {
      assert TriviaAt(t, p) && TriviaPieceEnd(t, p) == Ok(p + 1);
      BlankRunSkipped(t, p + 1, q);
    }
  }

  /** A line feed and an indent before a character that cannot start
      trivia. */
  lemma {:induction false} LineBreakSkipped(t: string, p: nat, level: nat, s: nat)
    requires p < |t| && t[p] == '\n' && StartsWith(t, p + 1, Indent(level))
    requires s == p + 1 + 2 * level && s < |t| && !IsBlank(t[s]) && t[s] != '#' && t[s] != '/'
    ensures SkipTrivia(t, p) == Ok(s)
  {
    SpacesAt(t, p + 1, 2 * level);
    BlankRunSkipped(t, p, s);
  }

  /** A rendered integer at `i` before a boundary is read as that integer. */
  lemma {:induction false} IntAt(t: string, i: nat, n: int, f: string, e: nat)
    requires f == IntToString(n) && StartsWith(t, i, f) && e == i + |f| && BoundaryAt(t, e)
    ensures NumberAt(t, i) == Ok((Int(n), e))
  {
    var a := IntDigitsAt(t, i, n, f, e);
    IntToStringValue(n);
    IntegerLiteral(t, i, a, e);
  }

  /** Where the digits of a rendered integer start and end, and that its
      text has no mark of a float. */
  lemma {:induction false} IntDigitsAt(t: string, i: nat, n: int, f: string, e: nat) returns (a: nat)
    requires f == IntToString(n) && StartsWith(t, i, f) && e == i + |f|
    requires e == |t| || (e < |t| && !IsDigit(t[e]))
    ensures i <= a < e <= |t| && a == (if t[i] == '-' then i + 1 else i)
    ensures DigitsEnd(t, a) == e && t[i..e] == f && !HasFloatMark(f)
  {
    a := if n < 0 then i + 1 else i;
    forall m | a <= m < e ensures IsDigit(t[m]) {
      CharAt(t, i, f, m - i);
    }
    CharAt(t, i, f, 0);
    DigitsEndAt(t, a, e);
    assert !HasFloatMark(f);
  }

  /** Digits, after an optional minus sign, up to a boundary are an
      integer literal. */
  lemma {:induction false} IntegerLiteral(t: string, i: nat, a: nat, e: nat)
    requires i <= a < e <= |t| && a == (if t[i] == '-' then i + 1 else i)
    requires DigitsEnd(t, a) == e && BoundaryAt(t, e) && !HasFloatMark(t[i..e])
    ensures NumberAt(t, i) == Ok((Int(IntLiteralValue(t[i..e])), e))
  {
  }

  /** A quoted basic-plane string at `i` is read as that string. */
  lemma {:induction false} QuoteAt(t: string, i: nat, s: string, e: nat)
    requires BasicPlane(s) && StartsWith(t, i, Quote(s)) && e == i + |Quote(s)|
    ensures StringAt(t, i) == Ok((s, e))
  {
    var body := QuoteBody(s);
    StartsWithConcat(t, i, "\"" + body, "\"");
    StartsWithConcat(t, i, "\"", body);
    CharAt(t, i, "\"", 0);
    CharAt(t, i + 1 + |body|, "\"", 0);
    QuotedBodyAt(t, i, s, body, e);
  }

  lemma {:induction false} QuotedBodyAt(t: string, i: nat, s: string, body: string, e: nat)
    requires BasicPlane(s) && body == QuoteBody(s)
    requires i + |body| + 2 <= |t| && t[i] == '"' && t[i + 1 + |body|] == '"'
    requires StartsWith(t, i + 1, body) && e == i + |body| + 2
    ensures StringAt(t, i) == Ok((s, e))
  {
    OneChar(t, i, '"');
    EscapesRead(t, i + 1, s, body, e);
  }

  /** The escapes of a basic-plane string and a closing quote decode to
      that string. */
  lemma {:induction false} EscapesRead(t: string, j: nat, s: string, body: string, e: nat)
    requires BasicPlane(s) && body == QuoteBody(s)
    requires j + |body| < |t| && t[j + |body|] == '"' && StartsWith(t, j, body) && e == j + |body| + 1
    ensures StringBody(t, j, []) == Ok((s, e))
  {
    EscapesEncoded(t, j, s, body, e);
    StringBodyReadsAs(t, j, s, e, []);
    assert [] + s == s;
  }

  /** The escapes of a basic-plane string and a closing quote encode that
      string, and so the string is what they read as. */
  lemma {:induction false} EscapesEncoded(t: string, j: nat, s: string, body: string, e: nat)
    requires BasicPlane(s) && body == QuoteBody(s)
    requires j + |body| < |t| && t[j + |body|] == '"' && StartsWith(t, j, body) && e == j + |body| + 1
    ensures j <= |t| && ReadsAs(t, j, s, e)
  {
    QuoteBodyEncoded(t, j, s);
    EncodedReadsAs(t, j, s, e);
  }

  /** A keyword at `i` before a boundary is read as its value. */
  lemma {:induction false} KeywordFound(t: string, i: nat, w: string, v: Value)
    requires (w, v) in Keywords && StartsWith(t, i, w) && BoundaryAt(t, i + |w|)
    ensures KeywordValueAt(t, i) == Ok((v, i + |w|))
  {
    assert KeywordAt(t, i, w);
    KeywordValues(t, i);
    CharAt(t, i, w, 0);
    if w != "true" {
      assert !StartsWith(t, i, "true") by {
        assert i + 4 <= |t| ==> t[i..i + 4][0] == t[i];
      }
    }
    if w == "null" {
      assert !StartsWith(t, i, "false") by {
        assert i + 5 <= |t| ==> t[i..i + 5][0] == t[i];
      }
    }
  }

  /** The end of a run of identifier characters. */
  lemma {:induction false} IdentEndAt(t: string, k: nat, e: nat)
    requires k <= e <= |t| && forall m :: k <= m < e ==> IsIdentChar(t[m])
    requires e == |t| || !IsIdentChar(t[e])
    ensures IdentEnd(t, k) == e
    decreases e - k
  {
    if k < e {
      IdentEndAt(t, k + 1, e);
    }
  }

  /** A formatted key at `s` followed by a space is read as that key. */
  lemma {:induction false} KeyFound(t: string, s: nat, key: string, fk: string, ks: nat)
    requires BasicPlane(key) && fk == FormatKey(key) && StartsWith(t, s, fk)
    requires ks == s + |fk| && ks < |t| && t[ks] == ' '
    ensures KeyAt(t, s) == Ok((key, ks))
  {
    CharAt(t, s, fk, 0);
    NotTriviaAt(t, s);
    if IsBareKey(key) {
      forall m | s <= m < s + |key| ensures IsIdentChar(t[m]) {
        CharAt(t, s, key, m - s);
      }
      IdentEndAt(t, s, ks);
    } else {
      QuoteAt(t, s, key, ks);
    }
  }

  /** The characters a formatted key starts with. */
  predicate OpensKey(c: char) {
    c == '"' || IsLetter(c) || c == '_'
  }

  /** A rendered readable value `f` at `i`, after trivia from `j` and
      before a boundary, is read as that value. */
  lemma {:induction false} ValueReadsBackAt(v: Value, level: nat, f: string, t: string, j: nat, i: nat)
    requires Readable(v) && Rendered(v, level, f)
    requires j <= i <= |t| && SkipTrivia(t, j) == Ok(i) && StartsWith(t, i, f) && BoundaryAt(t, i + |f|)
    ensures ValueAt(t, j) == Ok((v, i + |f|))
    decreases v, 3
  {
    match v
    case List(items) => ListValueAt(items, level, f, t, j, i);
    case Object(entries) => ObjectValueAt(entries, level, f, t, j, i);
    case Float(_) => assert false;
    case _ => ScalarValueAt(v, f, t, j, i, i + |f|);
  }

  lemma {:induction false} ScalarValueAt(v: Value, f: string, t: string, j: nat, i: nat, e: nat)
    requires Readable(v) && v.IsScalar() && f == FormatScalar(v)
    requires j <= i <= |t| && SkipTrivia(t, j) == Ok(i) && StartsWith(t, i, f) && e == i + |f| && BoundaryAt(t, e)
    ensures ValueAt(t, j) == Ok((v, e))
  {
    match v
    case Str(s) => StrValueAt(s, f, t, j, i, e);
    case Int(n) => IntValueAt(n, f, t, j, i, e);
    case _ => KeywordValueReadsAt(v, f, t, j, i, e);
  }

  lemma {:induction false} StrValueAt(s: string, f: string, t: string, j: nat, i: nat, e: nat)
    requires BasicPlane(s) && f == Quote(s)
    requires j <= i <= |t| && SkipTrivia(t, j) == Ok(i) && StartsWith(t, i, f) && e == i + |f|
    ensures ValueAt(t, j) == Ok((Str(s), e))
  {
    QuoteAt(t, i, s, e);
    ValueAtString(t, j, i, s, e);
  }

  lemma {:induction false} IntValueAt(n: int, f: string, t: string, j: nat, i: nat, e: nat)
    requires f == IntToString(n)
    requires j <= i <= |t| && SkipTrivia(t, j) == Ok(i) && StartsWith(t, i, f) && e == i + |f| && BoundaryAt(t, e)
    ensures ValueAt(t, j) == Ok((Int(n), e))
  {
    CharAt(t, i, f, 0);
    if n >= 0 {
      assert IsDigit(NatToString(n)[0]);
    }
    IntAt(t, i, n, f, e);
    ValueAtNumber(t, j, i);
  }

  lemma {:induction false} KeywordValueReadsAt(v: Value, f: string, t: string, j: nat, i: nat, e: nat)
    requires (v.Bool? || v.Null?) && f == FormatScalar(v)
    requires j <= i <= |t| && SkipTrivia(t, j) == Ok(i) && StartsWith(t, i, f) && e == i + |f| && BoundaryAt(t, e)
    ensures ValueAt(t, j) == Ok((v, e))
  {
    CharAt(t, i, f, 0);
    if v == Bool(true) {
      assert Keywords[0] == ("true", v);
      KeywordFound(t, i, "true", v);
    } else if v == Bool(false) {
      assert Keywords[1] == ("false", v);
      KeywordFound(t, i, "false", v);
    } else {
      assert Keywords[2] == ("null", v);
      KeywordFound(t, i, "null", v);
    }
    ValueAtKeyword(t, j, i);
  }

  lemma {:induction false} ListValueAt(items: seq<Value>, level: nat, f: string, t: string, j: nat, i: nat)
    requires Readable(List(items)) && f == FormatList(items, level)
    requires j <= i <= |t| && SkipTrivia(t, j) == Ok(i) && StartsWith(t, i, f)
    ensures ValueAt(t, j) == Ok((List(items), i + |f|))
    decreases List(items), 2
  {
    ListReadsBack(items, level, f, t, i);
    ValueAtArray(t, j, i);
  }

  lemma {:induction false} ObjectValueAt(entries: Entries, level: nat, f: string, t: string, j: nat, i: nat)
    requires Readable(Object(entries)) && f == FormatObject(entries, level)
    requires j <= i <= |t| && SkipTrivia(t, j) == Ok(i) && StartsWith(t, i, f)
    ensures ValueAt(t, j) == Ok((Object(entries), i + |f|))
    decreases Object(entries), 2
  {
    ObjectReadsBack(entries, level, f, t, i);
    ValueAtObject(t, j, i);
  }

  /** A rendered list `f` of readable values at `i` is read as that
      list. */
  lemma {:induction false} ListReadsBack(items: seq<Value>, level: nat, f: string, t: string, i: nat)
    requires ReadableItems(items) && f == FormatList(items, level) && StartsWith(t, i, f)
    ensures i < |t| && t[i] == '['
    ensures ArrayAt(t, i) == Ok((List(items), i + |f|))
    decreases List(items), 1, 1
  {
    FormatListText(items, level);
    if |items| == 0 {
      PairAt(t, i, '[', ']');
      NotTriviaAt(t, i + 1);
      ArrayItemsClose(t, i + 1, i + 1, []);
      ArrayOpens(t, i, i + 1);
    } else {
      FullListReadsBack(items, level, ListText(items, level, 0), f, t, i);
    }
  }

  /** A non-empty rendered list. */
  lemma {:induction false} FullListReadsBack(items: seq<Value>, level: nat, body: string, f: string, t: string, i: nat)
    requires ReadableItems(items) && |items| > 0 && body == ListText(items, level, 0)
    requires f == "[" + "\n" + body + "\n" + (Indent(level) + "]") && StartsWith(t, i, f)
    ensures i < |t| && t[i] == '['
    ensures ArrayAt(t, i) == Ok((List(items), i + |f|))
    decreases List(items), 1, 0
  {
    var p := i + 1;
    var c := p + 1 + |body|;
    var n := c + 2 * level + 2;
    FrameLength('[', body, level, ']');
    FrameAt(t, i, '[', body, level, ']', p, c);
    NoneTaken(items);
    assert ClosingAt(t, c, level, ']', n);
    ListItemsReadBack(items, level, 0, [], body, t, p, c, n);
    ArrayRead(t, i, p, List(items), f, n);
  }

  lemma {:induction false} NoneTaken<T>(s: seq<T>)
    ensures s[..0] == []
  {
  }

  lemma {:induction false} TakeOneMore<T>(s: seq<T>, k: nat)
    requires k < |s|
    ensures s[..k] + [s[k]] == s[..k + 1]
  {
  }

  lemma {:induction false} LastTaken<T>(s: seq<T>, k: nat)
    requires k == |s| - 1
    ensures s[..k] + [s[k]] == s
  {
  }

  /** A comma after an element leads to the next one. */
  lemma {:induction false} NextElement(t: string, e: nat, u: nat, acc: seq<Value>, r: Result<(Value, nat)>)
    requires e < |t| && t[e] == ',' && u == e + 1 && ArrayItems(t, u, acc) == r
    ensures ArraySeparator(t, e, acc) == r
  {
    NotTriviaAt(t, e);
    ArraySeparators(t, e, e, u, acc);
  }

  /** After the last element, the line feed, the closing indent and the
      bracket end the array. */
  lemma {:induction false} LastSeparator(t: string, c: nat, level: nat, acc: seq<Value>, v: Value, n: nat)
    requires v == List(acc) && ClosingAt(t, c, level, ']', n)
    ensures ArraySeparator(t, c, acc) == Ok((v, n))
  {
    var s := c + 1 + 2 * level;
    LineBreakSkipped(t, c, level, s);
    ArraySeparators(t, c, s, n, acc);
  }

  /** The array at `i` is what its elements after the bracket read as. */
  lemma {:induction false} ArrayRead(t: string, i: nat, p: nat, v: Value, f: string, n: nat)
    requires i < |t| && t[i] == '[' && p == i + 1
    requires ArrayItems(t, p, []) == Ok((v, n)) && n == i + |f|
    ensures ArrayAt(t, i) == Ok((v, i + |f|))
  {
    ArrayOpens(t, i, p);
    SameEnd(ArrayAt(t, i), v, n, i + |f|);
  }

  /** Where the two characters of an empty collection sit. */
  lemma {:induction false} PairAt(t: string, i: nat, o: char, c: char)
    requires StartsWith(t, i, [o, c])
    ensures i + 1 < |t| && t[i] == o && t[i + 1] == c
  {
    CharAt(t, i, [o, c], 0);
    CharAt(t, i, [o, c], 1);
  }

  /** The width of a non-empty collection: its body and four characters
      besides the indent of the closing line. */
  lemma {:induction false} FrameLength(o: char, body: string, level: nat, close: char)
    ensures |[o] + "\n" + body + "\n" + (Indent(level) + [close])| == |body| + 2 * level + 4
  {
  }

  /** Where the parts of a non-empty collection sit: the opening
      character at `i`, a line feed at `p` and the body, then a line feed
      at `c`, the indent of `level` and the closing character. */
  lemma {:induction false} FrameAt(t: string, i: nat, o: char, body: string, level: nat, close: char, p: nat, c: nat)
    requires StartsWith(t, i, [o] + "\n" + body + "\n" + (Indent(level) + [close]))
    requires p == i + 1 && c == p + 1 + |body|
    ensures t[i] == o && p < |t| && t[p] == '\n' && StartsWith(t, p + 1, body)
    ensures c + 1 + 2 * level < |t|
    ensures t[c] == '\n' && StartsWith(t, c + 1, Indent(level)) && t[c + 1 + 2 * level] == close
  {
    StartsWithConcat(t, i, [o] + "\n" + body + "\n", Indent(level) + [close]);
    StartsWithConcat(t, i, [o] + "\n" + body, "\n");
    StartsWithConcat(t, i, [o] + "\n", body);
    StartsWithConcat(t, c + 1, Indent(level), [close]);
    CharAt(t, i, [o] + "\n", 0);
    CharAt(t, i, [o] + "\n", 1);
    CharAt(t, c, "\n", 0);
    CharAt(t, c + 1 + 2 * level, [close], 0);
  }

  /** The `k`-th element of a list being read and the elements before
      it, with the text of the elements from it on. */
  predicate ItemsToRead(items: seq<Value>, level: nat, k: nat, acc: seq<Value>, body: string) {
    k < |items| && acc == items[..k] && ReadableItems(items) && body == ListText(items, level, k)
  }

  /** The elements from the `k`-th on, each after a line feed, and then
      the closing bracket are read as the whole list. */
  lemma {:induction false} ListItemsReadBack(items: seq<Value>, level: nat, k: nat, acc: seq<Value>, body: string, t: string, p: nat, c: nat, n: nat)
    requires ItemsToRead(items, level, k, acc, body)
    requires p < |t| && t[p] == '\n' && StartsWith(t, p + 1, body)
    requires c == p + 1 + |body| && ClosingAt(t, c, level, ']', n)
    ensures ArrayItems(t, p, acc) == Ok((List(items), n))
    decreases List(items), 0, |items| - k, 2
  {
    if k == |items| - 1 {
      LastItemReadsBack(items, level, k, acc, body, t, p, c, n);
    } else {
      ItemThenMoreReadBack(items, level, k, acc, body, t, p, c, n);
    }
  }

  /** The last element, then the closing bracket. */
  lemma {:induction false} LastItemReadsBack(items: seq<Value>, level: nat, k: nat, acc: seq<Value>, body: string, t: string, p: nat, c: nat, n: nat)
    requires k == |items| - 1 && ItemsToRead(items, level, k, acc, body)
    requires p < |t| && t[p] == '\n' && StartsWith(t, p + 1, body)
    requires c == p + 1 + |body| && ClosingAt(t, c, level, ']', n)
    ensures ArrayItems(t, p, acc) == Ok((List(items), n))
    decreases List(items), 0, |items| - k, 1
  {
    var v, x, q, e := LastItemParts(items, level, k, acc, body, t, p, c, n);
    ElementReadsBack(v, level, x, t, p, q, e, acc, items);
    LastSeparator(t, e, level, items, List(items), n);
  }

  /** An element that is not the last, then the elements after it. */
  lemma {:induction false} ItemThenMoreReadBack(items: seq<Value>, level: nat, k: nat, acc: seq<Value>, body: string, t: string, p: nat, c: nat, n: nat)
    requires k < |items| - 1 && ItemsToRead(items, level, k, acc, body)
    requires p < |t| && t[p] == '\n' && StartsWith(t, p + 1, body)
    requires c == p + 1 + |body| && ClosingAt(t, c, level, ']', n)
    ensures ArrayItems(t, p, acc) == Ok((List(items), n))
    decreases List(items), 0, |items| - k, 1
  {
    var v, x, q, e, next, rest, u := MoreItemParts(items, level, k, acc, body, t, p, c);
    ElementReadsBack(v, level, x, t, p, q, e, acc, next);
    MoreItemsReadBack(items, level, k, next, rest, t, e, u, c, n);
  }

  /** Where the last element sits, and that it completes the list. */
  lemma {:induction false} LastItemParts(items: seq<Value>, level: nat, k: nat, acc: seq<Value>, body: string, t: string, p: nat, c: nat, n: nat)
      returns (v: Value, x: string, q: nat, e: nat)
    requires k == |items| - 1 && ItemsToRead(items, level, k, acc, body)
    requires StartsWith(t, p + 1, body) && c == p + 1 + |body| && ClosingAt(t, c, level, ']', n)
    ensures v == items[k] && Readable(v) && Rendered(v, level + 1, x)
    ensures StartsWith(t, p + 1, Indent(level + 1)) && q == p + 1 + 2 * (level + 1) && StartsWith(t, q, x)
    ensures e == q + |x| && e == c && BoundaryAt(t, e) && acc + [v] == items
  {
    v, x := items[k], FormatValue(items[k], level + 1);
    q := p + 1 + 2 * (level + 1);
    e := q + |x|;
    LastElementLayout(items, level, k, body, x, t, p, q, e);
    LastTaken(items, k);
  }

  /** Where an element sits that is not the last, the comma and line feed
      after it and the text of the elements after it. */
  lemma {:induction false} MoreItemParts(items: seq<Value>, level: nat, k: nat, acc: seq<Value>, body: string, t: string, p: nat, c: nat)
      returns (v: Value, x: string, q: nat, e: nat, next: seq<Value>, rest: string, u: nat)
    requires k < |items| - 1 && ItemsToRead(items, level, k, acc, body)
    requires StartsWith(t, p + 1, body) && c == p + 1 + |body|
    ensures v == items[k] && Readable(v) && Rendered(v, level + 1, x)
    ensures StartsWith(t, p + 1, Indent(level + 1)) && q == p + 1 + 2 * (level + 1) && StartsWith(t, q, x)
    ensures e == q + |x| && BoundaryAt(t, e) && next == acc + [v]
    ensures ItemsToRead(items, level, k + 1, next, rest)
    ensures e < |t| && t[e] == ',' && u == e + 1 && u < |t| && t[u] == '\n' && StartsWith(t, u + 1, rest)
    ensures c == u + 1 + |rest|
  {
    v, x := items[k], FormatValue(items[k], level + 1);
    q := p + 1 + 2 * (level + 1);
    e := q + |x|;
    rest := ListText(items, level, k + 1);
    u := e + 1;
    ElementLayout(items, level, k, body, x, rest, t, p, q, e, u);
    TakeOneMore(items, k);
    next := acc + [v];
  }

  /** The comma after the `k`-th element, and the elements after it. */
  lemma {:induction false} MoreItemsReadBack(items: seq<Value>, level: nat, k: nat, acc: seq<Value>, rest: string, t: string, e: nat, u: nat, c: nat, n: nat)
    requires ItemsToRead(items, level, k + 1, acc, rest)
    requires e < |t| && t[e] == ',' && u == e + 1 && u < |t| && t[u] == '\n' && StartsWith(t, u + 1, rest)
    requires c == u + 1 + |rest| && ClosingAt(t, c, level, ']', n)
    ensures ArraySeparator(t, e, acc) == Ok((List(items), n))
    decreases List(items), 0, |items| - k, 0
  {
    ListItemsReadBack(items, level, k + 1, acc, rest, t, u, c, n);
    NextElement(t, e, u, acc, Ok((List(items), n)));
  }

  /** Where the `k`-th element sits in the text of the elements from the
      `k`-th on: after the indent, and followed by a comma, a line feed
      and the rest unless it is the last. */
  lemma {:induction false} LastElementLayout(items: seq<Value>, level: nat, k: nat, body: string, x: string, t: string, p: nat, q: nat, e: nat)
    requires k == |items| - 1 && (forall j :: 0 <= j < |items| ==> Renderable(items[j])) && body == ListText(items, level, k)
    requires x == FormatValue(items[k], level + 1) && StartsWith(t, p + 1, body)
    requires q == p + 1 + 2 * (level + 1) && e == q + |x|
    ensures StartsWith(t, p + 1, Indent(level + 1)) && StartsWith(t, q, x)
    ensures e == p + 1 + |body|
  {
    ListTextParts(items, level, k, x);
    LastLayout(t, p + 1, level + 1, x, q, e);
  }

  lemma {:induction false} ElementLayout(items: seq<Value>, level: nat, k: nat, body: string, x: string, rest: string, t: string, p: nat, q: nat, e: nat, u: nat)
    requires k < |items| - 1 && (forall j :: 0 <= j < |items| ==> Renderable(items[j])) && body == ListText(items, level, k)
    requires x == FormatValue(items[k], level + 1) && rest == ListText(items, level, k + 1) && StartsWith(t, p + 1, body)
    requires q == p + 1 + 2 * (level + 1) && e == q + |x| && u == e + 1
    ensures StartsWith(t, p + 1, Indent(level + 1)) && StartsWith(t, q, x)
    ensures u < |t| && t[e] == ',' && t[u] == '\n' && StartsWith(t, u + 1, rest)
    ensures p + 1 + |body| == u + 1 + |rest|
  {
    ListTextParts(items, level, k, x);
    MoreLayout(t, p + 1, level + 1, x, rest, q, e, u);
  }

  /** The text of the elements from the `k`-th on: the indented rendering
      of the `k`-th, and a comma, a line feed and the rest unless it is the
      last. */
  lemma {:induction false} ListTextParts(items: seq<Value>, level: nat, k: nat, x: string)
    requires k < |items| && (forall j :: 0 <= j < |items| ==> Renderable(items[j]))
    requires x == FormatValue(items[k], level + 1)
    ensures k == |items| - 1 ==> ListText(items, level, k) == Indent(level + 1) + x
    ensures k != |items| - 1 ==>
      ListText(items, level, k) == Indent(level + 1) + x + "," + "\n" + ListText(items, level, k + 1)
  {
    if k == |items| - 1 {
      assert ElementText(items, level, k) == Indent(level + 1) + x + "";
    }
  }

  lemma {:induction false} LastLayout(t: string, a: nat, level: nat, x: string, q: nat, e: nat)
    requires StartsWith(t, a, Indent(level) + x) && q == a + 2 * level && e == q + |x|
    ensures StartsWith(t, a, Indent(level)) && StartsWith(t, q, x)
    ensures e == a + |Indent(level) + x|
  {
    StartsWithConcat(t, a, Indent(level), x);
  }

  lemma {:induction false} MoreLayout(t: string, a: nat, level: nat, x: string, rest: string, q: nat, e: nat, u: nat)
    requires StartsWith(t, a, Indent(level) + x + "," + "\n" + rest) && q == a + 2 * level && e == q + |x| && u == e + 1
    ensures StartsWith(t, a, Indent(level)) && StartsWith(t, q, x)
    ensures u < |t| && t[e] == ',' && t[u] == '\n' && StartsWith(t, u + 1, rest)
    ensures a + |Indent(level) + x + "," + "\n" + rest| == u + 1 + |rest|
  {
    StartsWithConcat(t, a, Indent(level) + x + "," + "\n", rest);
    StartsWithConcat(t, a, Indent(level) + x, "," + "\n");
    StartsWithConcat(t, a, Indent(level), x);
    PairAt(t, e, ',', '\n');
    assert "," + "\n" == [',', '\n'];
  }

  /** A readable element after a line feed and its indent is read, and
      then its separator. */
  lemma {:induction false} ElementReadsBack(v: Value, level: nat, x: string, t: string, p: nat, q: nat, e: nat, acc: seq<Value>, next: seq<Value>)
    requires Readable(v) && Rendered(v, level + 1, x)
    requires p < |t| && t[p] == '\n' && StartsWith(t, p + 1, Indent(level + 1))
    requires q == p + 1 + 2 * (level + 1) && StartsWith(t, q, x) && e == q + |x| && BoundaryAt(t, e)
    requires next == acc + [v]
    ensures ArrayItems(t, p, acc) == ArraySeparator(t, e, next)
    decreases v, 4, 1
  {
    ElementAt(v, level, x, t, p, q);
    ElementSeparated(t, p, q, acc, v, x, e);
  }

  /** The element's text is what follows the trivia at `p`, and it is read
      as the element. */
  lemma {:induction false} ElementAt(v: Value, level: nat, x: string, t: string, p: nat, q: nat)
    requires Readable(v) && Rendered(v, level + 1, x)
    requires p < |t| && t[p] == '\n' && StartsWith(t, p + 1, Indent(level + 1))
    requires q == p + 1 + 2 * (level + 1) && StartsWith(t, q, x) && BoundaryAt(t, q + |x|)
    ensures SkipTrivia(t, p) == Ok(q) && q < |t| && t[q] != ']'
    ensures ValueAt(t, q) == Ok((v, q + |x|))
    decreases v, 4, 0
  {
    RenderingOpens(v, level + 1, x, t, q);
    LineBreakSkipped(t, p, level + 1, q);
    NotTriviaAt(t, q);
    ValueReadsBackAt(v, level + 1, x, t, q, q);
  }

  lemma {:induction false} ElementSeparated(t: string, p: nat, q: nat, acc: seq<Value>, v: Value, x: string, e: nat)
    requires p <= |t| && SkipTrivia(t, p) == Ok(q) && q < |t| && t[q] != ']'
    requires ValueAt(t, q) == Ok((v, q + |x|)) && e == q + |x|
    ensures ArrayItems(t, p, acc) == ArraySeparator(t, e, acc + [v])
  {
    SameEnd(ValueAt(t, q), v, q + |x|, e);
    ArrayElement(t, p, q, acc, v, e);
  }

  /** A read that ends at `a` ends at any `b` equal to it. */
  lemma {:induction false} SameEnd<T>(r: Result<(T, nat)>, v: T, a: nat, b: nat)
    requires r == Ok((v, a)) && a == b
    ensures r == Ok((v, b))
  {
  }

  lemma {:induction false} FirstCharAt(t: string, i: nat, s: string)
    requires StartsWith(t, i, s) && |s| > 0
    ensures i < |t| && t[i] == s[0]
  {
    assert t[i..i + |s|][0] == t[i];
  }

  /** A rendered map `f` of readable values at `i` is read as that map. */
  lemma {:induction false} ObjectReadsBack(entries: Entries, level: nat, f: string, t: string, i: nat)
    requires UniqueKeys(entries) && ReadableEntries(entries)
    requires f == FormatObject(entries, level) && StartsWith(t, i, f)
    ensures i < |t| && t[i] == '{'
    ensures ObjectAt(t, i) == Ok((Object(entries), i + |f|))
    decreases Object(entries), 1, 1
  {
    if |entries| == 0 {
      FormatObjectText(entries, level);
      EmptyObjectReadsBack(entries, f, t, i);
    } else {
      var padding, body := ObjectFrame(entries, level, f);
      FullObjectReadsBack(entries, level, padding, body, f, t, i);
    }
  }

  /** A non-empty rendered map, cut into its frame and the text of its
      entries with their keys padded to `padding`. */
  lemma {:induction false} ObjectFrame(entries: Entries, level: nat, f: string) returns (padding: nat, body: string)
    requires RenderableEntries(entries) && |entries| > 0 && f == FormatObject(entries, level)
    ensures forall j :: 0 <= j < |entries| ==> |FormatKey(entries[j].0)| <= padding
    ensures body == ObjectText(entries, level, padding, 0)
    ensures f == "{" + "\n" + body + "\n" + (Indent(level) + "}")
  {
    FormatObjectText(entries, level);
    padding := KeyWidth(entries);
    body := ObjectText(entries, level, padding, 0);
  }

  /** An empty map is rendered as `{}`, which is read as the empty map. */
  lemma {:induction false} EmptyObjectReadsBack(entries: Entries, f: string, t: string, i: nat)
    requires |entries| == 0 && f == "{}" && StartsWith(t, i, f)
    ensures i < |t| && t[i] == '{'
    ensures ObjectAt(t, i) == Ok((Object(entries), i + |f|))
  {
    assert entries == [];
    PairAt(t, i, '{', '}');
    NotTriviaAt(t, i + 1);
    ObjectEntriesClose(t, i + 1, i + 1, []);
    ObjectOpens(t, i, i + 1);
  }

  /** A non-empty rendered map, with its keys padded to `padding`. */
  lemma {:induction false} FullObjectReadsBack(entries: Entries, level: nat, padding: nat, body: string, f: string, t: string, i: nat)
    requires UniqueKeys(entries) && ReadableEntries(entries) && |entries| > 0
    requires (forall j :: 0 <= j < |entries| ==> |FormatKey(entries[j].0)| <= padding) && body == ObjectText(entries, level, padding, 0)
    requires f == "{" + "\n" + body + "\n" + (Indent(level) + "}") && StartsWith(t, i, f)
    ensures i < |t| && t[i] == '{'
    ensures ObjectAt(t, i) == Ok((Object(entries), i + |f|))
    decreases Object(entries), 1, 0
  {
    var p := i + 1;
    var c := p + 1 + |body|;
    var n := c + 2 * level + 2;
    FrameLength('{', body, level, '}');
    FrameAt(t, i, '{', body, level, '}', p, c);
    var s := p + 1 + 2 * (level + 1);
    NoneTaken(entries);
    EntriesReadBack(entries, level, padding, 0, [], body, t, p, s, c, n);
    ObjectRead(t, i, p, s, Object(entries), f, n);
  }

  /** The map at `i` is what its entries after the brace read as. */
  lemma {:induction false} ObjectRead(t: string, i: nat, p: nat, s: nat, v: Value, f: string, n: nat)
    requires i < |t| && t[i] == '{' && p == i + 1
    requires s < |t| && SkipTrivia(t, p) == Ok(s) && OpensKey(t[s])
    requires ObjectEntries(t, s, []) == Ok((v, n)) && n == i + |f|
    ensures ObjectAt(t, i) == Ok((v, i + |f|))
  {
    ObjectOpens(t, i, p);
    NotTriviaAt(t, s);
    EntriesAfterTrivia(t, p, s, []);
    SameEnd(ObjectAt(t, i), v, n, i + |f|);
  }

  /** Reading a map whose first `k` entries `acc` are read, with `body` the
      text of the rest. */
  predicate EntriesToRead(entries: Entries, level: nat, padding: nat, k: nat, acc: Entries, body: string) {
    k < |entries| && acc == entries[..k] && UniqueKeys(entries) && ReadableEntries(entries) &&
    (forall j :: 0 <= j < |entries| ==> |FormatKey(entries[j].0)| <= padding) &&
    body == ObjectText(entries, level, padding, k)
  }

  /** The closing line of a collection at `level`: a line feed at `c`, the
      indent and the character `close`, ending at `n`. */
  predicate ClosingAt(t: string, c: nat, level: nat, close: char, n: nat) {
    c + 1 + 2 * level < |t| && n == c + 2 * level + 2 &&
    t[c] == '\n' && StartsWith(t, c + 1, Indent(level)) && t[c + 1 + 2 * level] == close
  }

  /** The entries from the `k`-th on, each after a line feed, and then the
      closing brace are read as the whole map; the key of the `k`-th entry
      is where the trivia after the line feed ends. */
  lemma {:induction false} EntriesReadBack(entries: Entries, level: nat, padding: nat, k: nat, acc: Entries, body: string, t: string, p: nat, s: nat, c: nat, n: nat)
    requires EntriesToRead(entries, level, padding, k, acc, body)
    requires p < |t| && t[p] == '\n' && StartsWith(t, p + 1, body) && s == p + 1 + 2 * (level + 1)
    requires c == p + 1 + |body| && ClosingAt(t, c, level, '}', n)
    ensures s < |t| && SkipTrivia(t, p) == Ok(s) && OpensKey(t[s])
    ensures ObjectEntries(t, s, acc) == Ok((Object(entries), n))
    decreases Object(entries), 0, |entries| - k, 2
  {
    if k == |entries| - 1 {
      LastEntryReadsBack(entries, level, padding, k, acc, body, t, p, s, c, n);
    } else {
      EntryThenMoreReadBack(entries, level, padding, k, acc, body, t, p, s, c, n);
    }
  }

  /** The last entry, then the closing brace. */
  lemma {:induction false} LastEntryReadsBack(entries: Entries, level: nat, padding: nat, k: nat, acc: Entries, body: string, t: string, p: nat, s: nat, c: nat, n: nat)
    requires k == |entries| - 1 && EntriesToRead(entries, level, padding, k, acc, body)
    requires p < |t| && t[p] == '\n' && StartsWith(t, p + 1, body) && s == p + 1 + 2 * (level + 1)
    requires c == p + 1 + |body| && ClosingAt(t, c, level, '}', n)
    ensures s < |t| && SkipTrivia(t, p) == Ok(s) && OpensKey(t[s])
    ensures ObjectEntries(t, s, acc) == Ok((Object(entries), n))
    decreases Object(entries), 0, |entries| - k, 1
  {
    var key, v, fk, x, eq, e := LastEntryParts(entries, level, padding, k, acc, body, t, p, s);
    var ks := s + |fk|;
    EntryReadsBack(key, v, level, fk, x, t, p, s, ks, eq, e);
    LastObjectSeparator(t, e, level, entries, Object(entries), n);
    EntryThenSeparator(t, s, acc, key, ks, v, e, entries, Ok((Object(entries), n)));
  }

  /** An entry that is not the last, then the entries after it. */
  lemma {:induction false} EntryThenMoreReadBack(entries: Entries, level: nat, padding: nat, k: nat, acc: Entries, body: string, t: string, p: nat, s: nat, c: nat, n: nat)
    requires k < |entries| - 1 && EntriesToRead(entries, level, padding, k, acc, body)
    requires p < |t| && t[p] == '\n' && StartsWith(t, p + 1, body) && s == p + 1 + 2 * (level + 1)
    requires c == p + 1 + |body| && ClosingAt(t, c, level, '}', n)
    ensures s < |t| && SkipTrivia(t, p) == Ok(s) && OpensKey(t[s])
    ensures ObjectEntries(t, s, acc) == Ok((Object(entries), n))
    decreases Object(entries), 0, |entries| - k, 1
  {
    var key, v, fk, x, eq, e, acc', rest := MoreEntryParts(entries, level, padding, k, acc, body, t, p, s);
    var ks := s + |fk|;
    EntryReadsBack(key, v, level, fk, x, t, p, s, ks, eq, e);
    MoreEntriesReadBack(entries, level, padding, k, acc', rest, t, e, c, n);
    EntryThenSeparator(t, s, acc, key, ks, v, e, acc', Ok((Object(entries), n)));
  }

  /** Where the key `key` is read at `s` up to `k`, and then the value `v`
      up to `e`. */
  predicate KeyedValueAt(t: string, s: nat, key: string, k: nat, v: Value, e: nat) {
    s < |t| && OpensKey(t[s]) && SkipTrivia(t, s) == Ok(s) &&
    KeyAt(t, s) == Ok((key, k)) && EntryValueAt(t, k) == Ok((v, e))
  }

  /** A keyed value at `s` binds the key in the entries so far, and the
      entries then read as the separator after it does. */
  lemma {:induction false} EntryThenSeparator(t: string, s: nat, acc: Entries, key: string, k: nat, v: Value, e: nat, next: Entries, r: Result<(Value, nat)>)
    requires KeyedValueAt(t, s, key, k, v, e) && Put(acc, key, v) == next
    requires e <= |t| && ObjectSeparator(t, e, next) == r
    ensures ObjectEntries(t, s, acc) == r
  {
    ObjectEntry(t, s, s, acc, key, k, v, e);
  }

  /** The line feed after the `k`-th entry, and the entries after it. */
  lemma {:induction false} MoreEntriesReadBack(entries: Entries, level: nat, padding: nat, k: nat, acc: Entries, rest: string, t: string, e: nat, c: nat, n: nat)
    requires EntriesToRead(entries, level, padding, k + 1, acc, rest)
    requires e < |t| && t[e] == '\n' && StartsWith(t, e + 1, rest)
    requires c == e + 1 + |rest| && ClosingAt(t, c, level, '}', n)
    ensures ObjectSeparator(t, e, acc) == Ok((Object(entries), n))
    decreases Object(entries), 0, |entries| - k, 0
  {
    var s := e + 1 + 2 * (level + 1);
    EntriesReadBack(entries, level, padding, k + 1, acc, rest, t, e, s, c, n);
    NextEntry(t, e, s, acc, Ok((Object(entries), n)));
  }

  /** What an entry line needs to be read back: a key in the basic plane
      formatted as `fk`, and a readable value rendered as `x`. */
  predicate EntryFacts(key: string, v: Value, level: nat, fk: string, x: string) {
    BasicPlane(key) && Readable(v) && fk == FormatKey(key) && Rendered(v, level + 1, x)
  }

  /** The `k`-th entry of a map being read: what it needs to be read back,
      what it adds to the entries before it, and where it sits in the text
      of the entries from it on. */
  lemma {:induction false} EntryAt(entries: Entries, level: nat, padding: nat, k: nat, acc: Entries, body: string)
      returns (key: string, v: Value, fk: string, x: string)
    requires EntriesToRead(entries, level, padding, k, acc, body)
    ensures key == entries[k].0 && v == entries[k].1
    ensures EntryFacts(key, v, level, fk, x) && |fk| <= padding
    ensures Put(acc, key, v) == acc + [entries[k]]
    ensures k == |entries| - 1 ==> body == EntryPrefix(fk, padding, level) + x
    ensures k != |entries| - 1 ==> body == EntryPrefix(fk, padding, level) + x + "\n" + ObjectText(entries, level, padding, k + 1)
  {
    key, v := entries[k].0, entries[k].1;
    fk, x := FormatKey(key), FormatValue(v, level + 1);
    FreshKey(entries, k, acc);
    ObjectTextParts(entries, level, padding, k, fk, x);
  }

  /** Where the parts of the last entry line sit, and that it completes
      the map. */
  lemma {:induction false} LastEntryParts(entries: Entries, level: nat, padding: nat, k: nat, acc: Entries, body: string, t: string, p: nat, s: nat)
      returns (key: string, v: Value, fk: string, x: string, eq: nat, e: nat)
    requires k == |entries| - 1 && EntriesToRead(entries, level, padding, k, acc, body)
    requires StartsWith(t, p + 1, body) && s == p + 1 + 2 * (level + 1)
    ensures v == entries[k].1
    ensures EntryFacts(key, v, level, fk, x) && EntryLine(t, p + 1, level, fk, x, s, eq, e)
    ensures e == p + 1 + |body| && Put(acc, key, v) == entries
  {
    key, v, fk, x := EntryAt(entries, level, padding, k, acc, body);
    LastTaken(entries, k);
    eq, e := LastEntryLayout(t, p + 1, level, padding, fk, x, body, s);
  }

  /** Where the parts of an entry line sit that is not the last, the line
      feed and the rest after it, and the entries read once it is. */
  lemma {:induction false} MoreEntryParts(entries: Entries, level: nat, padding: nat, k: nat, acc: Entries, body: string, t: string, p: nat, s: nat)
      returns (key: string, v: Value, fk: string, x: string, eq: nat, e: nat, acc': Entries, rest: string)
    requires k < |entries| - 1 && EntriesToRead(entries, level, padding, k, acc, body)
    requires StartsWith(t, p + 1, body) && s == p + 1 + 2 * (level + 1)
    ensures v == entries[k].1
    ensures EntryFacts(key, v, level, fk, x) && EntryLine(t, p + 1, level, fk, x, s, eq, e)
    ensures e < |t| && t[e] == '\n' && StartsWith(t, e + 1, rest) && p + 1 + |body| == e + 1 + |rest|
    ensures Put(acc, key, v) == acc' && EntriesToRead(entries, level, padding, k + 1, acc', rest)
  {
    key, v, fk, x := EntryAt(entries, level, padding, k, acc, body);
    rest := ObjectText(entries, level, padding, k + 1);
    acc' := acc + [entries[k]];
    TakeOneMore(entries, k);
    eq, e := MoreEntryLayout(t, p + 1, level, padding, fk, x, rest, body, s);
  }

  predicate ReadableEntries(entries: Entries)
    ensures ReadableEntries(entries) ==> RenderableEntries(entries)
  {
    forall j :: 0 <= j < |entries| ==> BasicPlane(entries[j].0) && Readable(entries[j].1)
  }

  /** With unique keys, each entry is new to the entries before it. */
  lemma {:induction false} FreshKey(entries: Entries, k: nat, acc: Entries)
    requires k < |entries| && acc == entries[..k] && UniqueKeys(entries)
    ensures Put(acc, entries[k].0, entries[k].1) == acc + [(entries[k].0, entries[k].1)]
  {
    assert entries[k].0 !in Keys(acc) by {
      forall j | 0 <= j < k ensures acc[j].0 != entries[k].0 {
        assert acc[j] == entries[j];
      }
    }
    PutNewKey(acc, entries[k].0, entries[k].1);
  }

  /** The text of the entries from the `k`-th on: the `k`-th line, and a
      line feed and the rest unless it is the last. */
  lemma {:induction false} ObjectTextParts(entries: Entries, level: nat, padding: nat, k: nat, fk: string, x: string)
    requires k < |entries| && RenderableEntries(entries)
    requires (forall j :: 0 <= j < |entries| ==> |FormatKey(entries[j].0)| <= padding)
    requires fk == FormatKey(entries[k].0) && x == FormatValue(entries[k].1, level + 1)
    ensures |fk| <= padding
    ensures k == |entries| - 1 ==> ObjectText(entries, level, padding, k) == EntryPrefix(fk, padding, level) + x
    ensures k != |entries| - 1 ==>
      ObjectText(entries, level, padding, k) == EntryPrefix(fk, padding, level) + x + "\n" + ObjectText(entries, level, padding, k + 1)
  {
  }

  /** Where the parts of an entry line at `a` sit: the indent, the key at
      `s`, blanks up to the `=` at `eq`, a space and the value up to `e`. */
  predicate EntryLine(t: string, a: nat, level: nat, fk: string, x: string, s: nat, eq: nat, e: nat) {
    StartsWith(t, a, Indent(level + 1)) && s == a + 2 * (level + 1) && StartsWith(t, s, fk) &&
    s + |fk| < eq && e == eq + 2 + |x| && e <= |t| &&
    (forall m :: s + |fk| <= m < eq ==> t[m] == ' ') && t[eq] == '=' && t[eq + 1] == ' ' && StartsWith(t, eq + 2, x)
  }

  /** An entry line with its key padded to `padding` has its parts there. */
  lemma {:induction false} EntryLineAt(t: string, a: nat, level: nat, padding: nat, fk: string, x: string, s: nat, eq: nat, e: nat)
    requires |fk| <= padding && StartsWith(t, a, EntryPrefix(fk, padding, level) + x)
    requires s == a + 2 * (level + 1) && eq == s + padding + 1 && e == eq + 2 + |x|
    ensures EntryLine(t, a, level, fk, x, s, eq, e)
    ensures e == a + |EntryPrefix(fk, padding, level) + x|
  {
    var ind := Indent(level + 1);
    var gap := Spaces(padding - |fk|);
    var ks, g := s + |fk|, eq - 1;
    assert EntryPrefix(fk, padding, level) + x == ind + fk + gap + " = " + x;
    assert ks == a + |ind + fk| && g == a + |ind + fk + gap|;
    StartsWithConcat(t, a, ind + fk + gap + " = ", x);
    StartsWithConcat(t, a, ind + fk + gap, " = ");
    StartsWithConcat(t, a, ind + fk, gap);
    StartsWithConcat(t, a, ind, fk);
    SpacesAt(t, ks, padding - |fk|);
    CharAt(t, g, " = ", 0);
    CharAt(t, g, " = ", 1);
    CharAt(t, g, " = ", 2);
  }

  lemma {:induction false} LastEntryLayout(t: string, a: nat, level: nat, padding: nat, fk: string, x: string, body: string, s: nat)
      returns (eq: nat, e: nat)
    requires |fk| <= padding && body == EntryPrefix(fk, padding, level) + x && StartsWith(t, a, body)
    requires s == a + 2 * (level + 1)
    ensures EntryLine(t, a, level, fk, x, s, eq, e)
    ensures e == a + |body|
  {
    eq := s + padding + 1;
    e := eq + 2 + |x|;
    EntryLineAt(t, a, level, padding, fk, x, s, eq, e);
  }

  lemma {:induction false} MoreEntryLayout(t: string, a: nat, level: nat, padding: nat, fk: string, x: string, rest: string, body: string, s: nat)
      returns (eq: nat, e: nat)
    requires |fk| <= padding && body == EntryPrefix(fk, padding, level) + x + "\n" + rest && StartsWith(t, a, body)
    requires s == a + 2 * (level + 1)
    ensures EntryLine(t, a, level, fk, x, s, eq, e)
    ensures e < |t| && t[e] == '\n' && StartsWith(t, e + 1, rest)
    ensures a + |body| == e + 1 + |rest|
  {
    eq := s + padding + 1;
    e := eq + 2 + |x|;
    var line := EntryPrefix(fk, padding, level) + x;
    StartsWithConcat(t, a, line + "\n", rest);
    StartsWithConcat(t, a, line, "\n");
    EntryLineAt(t, a, level, padding, fk, x, s, eq, e);
    CharAt(t, e, "\n", 0);
  }

  /** An entry line after a line feed: trivia ends at its key, the key and
      then the value after the `=` are read, and then its separator. */
  lemma {:induction false} EntryReadsBack(key: string, v: Value, level: nat, fk: string, x: string, t: string, p: nat, s: nat, ks: nat, eq: nat, e: nat)
    requires EntryFacts(key, v, level, fk, x) && ks == s + |fk|
    requires p < |t| && t[p] == '\n' && EntryLine(t, p + 1, level, fk, x, s, eq, e) && e < |t| && t[e] == '\n'
    ensures SkipTrivia(t, p) == Ok(s) && KeyedValueAt(t, s, key, ks, v, e)
    decreases v, 5
  {
    var a := eq + 1;
    SignedValueReadsBack(v, level + 1, x, t, a, e);
    EntryKeyReadsBack(key, v, level, fk, t, p, s, ks, eq, a, e);
  }

  /** An entry line whose value after the `=` is read as `v` ending at
      `e`: trivia ends at its key, and the key and then the value are
      read. */
  lemma {:induction false} EntryKeyReadsBack(key: string, v: Value, level: nat, fk: string, t: string, p: nat, s: nat, ks: nat, eq: nat, a: nat, e: nat)
    requires BasicPlane(key) && fk == FormatKey(key)
    requires p < |t| && t[p] == '\n' && StartsWith(t, p + 1, Indent(level + 1))
    requires s == p + 1 + 2 * (level + 1) && StartsWith(t, s, fk) && ks == s + |fk|
    requires ks < eq < |t| && (forall m :: s + |fk| <= m < eq ==> t[m] == ' ') && t[eq] == '='
    requires a == eq + 1 && ValueAt(t, a) == Ok((v, e))
    ensures SkipTrivia(t, p) == Ok(s) && KeyedValueAt(t, s, key, ks, v, e)
  {
    KeyLineAt(key, level, fk, t, p, s, ks);
    EntryValueAfterSign(t, ks, eq, a, Ok((v, e)));
  }

  /** The key of an entry line after a line feed: trivia ends at it and it
      is read. */
  lemma {:induction false} KeyLineAt(key: string, level: nat, fk: string, t: string, p: nat, s: nat, ks: nat)
    requires BasicPlane(key) && fk == FormatKey(key)
    requires p < |t| && t[p] == '\n' && StartsWith(t, p + 1, Indent(level + 1))
    requires s == p + 1 + 2 * (level + 1) && StartsWith(t, s, fk) && ks == s + |fk| && ks < |t| && t[ks] == ' '
    ensures s < |t| && OpensKey(t[s]) && SkipTrivia(t, p) == Ok(s) && SkipTrivia(t, s) == Ok(s)
    ensures KeyAt(t, s) == Ok((key, ks))
  {
    KeyOpensAt(t, s, key, fk);
    LineBreakSkipped(t, p, level + 1, s);
    NotTriviaAt(t, s);
    KeyFound(t, s, key, fk, ks);
  }

  /** A formatted key starts with a quote, a letter or an underscore. */
  lemma {:induction false} KeyOpensAt(t: string, s: nat, key: string, fk: string)
    requires fk == FormatKey(key) && StartsWith(t, s, fk)
    ensures s < |t| && OpensKey(t[s])
  {
    FirstCharAt(t, s, fk);
  }

  /** After the key, blanks and the `=` come before the value. */
  lemma {:induction false} EntryValueAfterSign(t: string, ks: nat, eq: nat, a: nat, r: Result<(Value, nat)>)
    requires ks < eq < |t| && (forall m :: ks <= m < eq ==> t[m] == ' ') && t[eq] == '='
    requires a == eq + 1 && ValueAt(t, a) == r
    ensures SkipTrivia(t, ks) == Ok(eq) && StartsWith(t, eq, "=")
    ensures EntryValueAt(t, ks) == r
  {
    OneChar(t, eq, '=');
    BlankRunSkipped(t, ks, eq);
    EntrySigns(t, ks, eq, a);
  }

  /** A rendered readable value after one space is read as that value. */
  lemma {:induction false} SignedValueReadsBack(v: Value, level: nat, x: string, t: string, a: nat, e: nat)
    requires Readable(v) && Rendered(v, level, x)
    requires a < |t| && t[a] == ' ' && StartsWith(t, a + 1, x)
    requires e == a + 1 + |x| && e < |t| && t[e] == '\n'
    ensures ValueAt(t, a) == Ok((v, e))
    decreases v, 4
  {
    RenderingOpens(v, level, x, t, a + 1);
    BlankRunSkipped(t, a, a + 1);
    ValueReadsBackAt(v, level, x, t, a, a + 1);
  }

  /** A line feed after an entry leads to the next key. */
  lemma {:induction false} NextEntry(t: string, e: nat, s: nat, acc: Entries, r: Result<(Value, nat)>)
    requires e <= |t| && SkipTrivia(t, e) == Ok(s) && s < |t| && OpensKey(t[s])
    requires ObjectEntries(t, s, acc) == r
    ensures ObjectSeparator(t, e, acc) == r
  {
    ObjectSeparators(t, e, s, s + 1, acc);
  }

  /** After the last entry, the line feed, the closing indent and the brace
      end the map. */
  lemma {:induction false} LastObjectSeparator(t: string, c: nat, level: nat, acc: Entries, v: Value, n: nat)
    requires v == Object(acc) && ClosingAt(t, c, level, '}', n)
    ensures ObjectSeparator(t, c, acc) == Ok((v, n))
  {
    var s := c + 1 + 2 * level;
    LineBreakSkipped(t, c, level, s);
    ObjectSeparators(t, c, s, n, acc);
  }
  /** What `_format_value` writes for a readable value, followed by
      nothing or by a keyword boundary, `_parse_value` reads back as the
      same value and stops right after it. */
  lemma {:induction false} FormatValueReadsBack(v: Value, level: nat, rest: string)
    requires Readable(v) && (rest == "" || IsKeywordBoundary(rest[0]))
    ensures ValueAt(FormatValue(v, level) + rest, 0) == Ok((v, |FormatValue(v, level)|))
  {
    RenderingReadsBack(v, level, FormatValue(v, level), rest);
  }

  lemma {:induction false} RenderingReadsBack(v: Value, level: nat, f: string, rest: string)
    requires Readable(v) && Rendered(v, level, f) && (rest == "" || IsKeywordBoundary(rest[0]))
    ensures ValueAt(f + rest, 0) == Ok((v, |f|))
  {
    var t := f + rest;
    assert t[0..|f|] == f;
    RenderingOpens(v, level, f, t, 0);
    NotTriviaAt(t, 0);
    if rest != "" {
      assert t[|f|] == rest[0];
    }
    ValueReadsBackAt(v, level, f, t, 0, 0);
  }

  /** A readable rendering starts with a character that opens a value. */
  lemma {:induction false} RenderingOpens(v: Value, level: nat, f: string, t: string, q: nat)
    requires Readable(v) && Rendered(v, level, f) && StartsWith(t, q, f)
    ensures q < |t| && OpensValue(t[q])
  {
    FormatValueEnds(v, level);
    FormatValueOpens(v, level);
    FirstCharAt(t, q, f);
  }
}
