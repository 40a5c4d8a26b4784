/** The value vocabulary shared by the tfvars parser, the directive extractor
    and the canonical formatter, together with the text helpers they all use.

    A tfvars value is one of the native Python kinds the parser produces: a
    string, an integer, a float, a boolean, None, a list or a dict. Python's
    dict keeps insertion order and assigning an existing key replaces its
    value where it stands; `Entries` with `Put` is that behaviour on a
    sequence of key/value pairs. */
module Values {

  datatype Option<T> = None | Some(value: T)

  /** A computation that either yields a value or fails with the message the
      source raises (`TfvarsParseError`, or `_error` followed by `SystemExit`). */
  datatype Result<T> = Ok(value: T) | Err(msg: string)

  datatype Value =
    | Str(s: string)
    | Int(n: int)
      /** a float literal, kept as the text it was parsed from */
    | Float(raw: string)
    | Bool(b: bool)
    | Null
    | List(items: seq<Value>)
    | Object(entries: Entries)
  {
    predicate IsScalar() { !List? && !Object? }
  }

  /** An ordered dict from string keys to values. */
  type Entries = seq<(string, Value)>

  function Keys(m: Entries): set<string> {
    set i | 0 <= i < |m| :: m[i].0
  }

  lemma KeysCons(p: (string, Value), m: Entries)
    ensures Keys([p] + m) == {p.0} + Keys(m)
  {
    var l := [p] + m;
    forall k | k in Keys(l) ensures k in {p.0} + Keys(m) {
      var i :| 0 <= i < |l| && l[i].0 == k;
      if i > 0 { assert m[i - 1] == l[i]; }
    }
    forall k | k in Keys(m) ensures k in Keys(l) {
      var i :| 0 <= i < |m| && m[i].0 == k;
      assert l[i + 1] == m[i];
    }
    assert l[0] == p;
    assert p.0 in Keys(l);
  }

  /** A dict never holds the same key twice. */
  predicate UniqueKeys(m: Entries) {
    forall i, j :: 0 <= i < j < |m| ==> m[i].0 != m[j].0
  }

  /** `d.get(k)`: the value bound to `k`, if any. */
  function Get(m: Entries, k: string): (r: Option<Value>)
    ensures r.None? <==> k !in Keys(m)
  {
    if |m| == 0 then None
    else
      KeysCons(m[0], m[1..]);
      assert m == [m[0]] + m[1..];
      if m[0].0 == k then Some(m[0].1) else Get(m[1..], k)
  }

  /** `d[k] = v`: an existing key keeps its position and takes the new value,
      a new key is appended (see PutShape). */
  function Put(m: Entries, k: string, v: Value): (r: Entries)
    ensures Get(r, k) == Some(v)
    ensures forall k' :: k' != k ==> Get(r, k') == Get(m, k')
    ensures Keys(r) == Keys(m) + {k}
  {
    if |m| == 0 then [(k, v)]
    else
      KeysCons(m[0], m[1..]);
      assert m == [m[0]] + m[1..];
      if m[0].0 == k then
        KeysCons((k, v), m[1..]);
        [(k, v)] + m[1..]
      else
        KeysCons(m[0], Put(m[1..], k, v));
        [m[0]] + Put(m[1..], k, v)
  }

  /** A key the dict does not hold is appended at the end. */
  lemma {:induction false} PutNewKey(m: Entries, k: string, v: Value)
    requires k !in Keys(m)
    ensures Put(m, k, v) == m + [(k, v)]
  {
    if |m| > 0 {
      assert Keys(m) == {m[0].0} + Keys(m[1..]);
      PutNewKey(m[1..], k, v);
      assert m == [m[0]] + m[1..];
    }
  }

  lemma UniqueTail(m: Entries)
    requires UniqueKeys(m) && |m| > 0
    ensures UniqueKeys(m[1..])
  {
    forall i, j | 0 <= i < j < |m[1..]| ensures m[1..][i].0 != m[1..][j].0 {
      assert m[1..][i] == m[i + 1] && m[1..][j] == m[j + 1];
    }
  }

  /** A key the dict holds keeps its position; only its value changes. */
  lemma {:induction false} PutExistingKey(m: Entries, k: string, v: Value, at: nat)
    requires UniqueKeys(m) && at < |m| && m[at].0 == k
    ensures Put(m, k, v) == m[at := (k, v)]
  {
    assert m == [m[0]] + m[1..];
    if at > 0 {
      assert m[0].0 != k;
      UniqueTail(m);
      PutExistingKey(m[1..], k, v, at - 1);
      assert m[at := (k, v)] == [m[0]] + m[1..][at - 1 := (k, v)];
    } else {
      assert m[0 := (k, v)] == [(k, v)] + m[1..];
    }
  }

  /** Assignment keeps the keys of a dict unique. */
  lemma {:induction false} PutKeepsKeysUnique(m: Entries, k: string, v: Value)
    requires UniqueKeys(m)
    ensures UniqueKeys(Put(m, k, v))
  {
    if |m| > 0 && m[0].0 != k {
      UniqueTail(m);
      PutKeepsKeysUnique(m[1..], k, v);
      var r := Put(m, k, v);
      assert m[0].0 !in Keys(m[1..]);
      forall i, j | 0 <= i < j < |r| ensures r[i].0 != r[j].0 {
        if i == 0 {
          assert r[j] == Put(m[1..], k, v)[j - 1];
          assert r[j].0 in Keys(Put(m[1..], k, v));
        } else {
          assert r[i] == Put(m[1..], k, v)[i - 1] && r[j] == Put(m[1..], k, v)[j - 1];
        }
      }
    } else if |m| > 0 {
      var r := Put(m, k, v);
      forall i, j | 0 <= i < j < |r| ensures r[i].0 != r[j].0 {
        assert r[j] == m[j];
        if i > 0 { assert r[i] == m[i]; }
      }
    }
  }

  // ---------------------------------------------------------------------
  // Character classes. The source uses Python's Unicode-aware str methods;
  // the model restricts them to ASCII.

  predicate IsDigit(c: char) { '0' <= c <= '9' }

  predicate IsLetter(c: char) { 'a' <= c <= 'z' || 'A' <= c <= 'Z' }

  predicate IsAlnum(c: char) { IsLetter(c) || IsDigit(c) }

  predicate IsHexDigit(c: char) { IsDigit(c) || 'a' <= c <= 'f' || 'A' <= c <= 'F' }

  /** Space, tab, carriage return and line feed: the trivia the parser skips. */
  predicate IsBlank(c: char) { c == ' ' || c == '\t' || c == '\r' || c == '\n' }

  /** What Python's `str.strip()` removes, restricted to ASCII. */
  predicate IsStripSpace(c: char) {
    c == ' ' || c == '\t' || c == '\n' || c == '\r' || c == '\U{0B}' || c == '\U{0C}' ||
    ('\U{1C}' <= c <= '\U{1F}')
  }

  /** `t.startswith(p, i)` */
  predicate StartsWith(t: string, i: nat, p: string) {
    i + |p| <= |t| && t[i..i + |p|] == p
  }

  /** The first index at or after `from` where `s` holds `c`, or |s|. */
  function IndexOf(s: string, c: char, from: nat := 0): (k: nat)
    requires from <= |s|
    ensures from <= k <= |s|
    ensures k < |s| ==> s[k] == c
    ensures c !in s[from..k]
    decreases |s| - from
  {
    if from == |s| || s[from] == c then from
    else
      var k := IndexOf(s, c, from + 1);
      assert s[from..k] == [s[from]] + s[from + 1..k];
      k
  }

  /** `s.split(sep)`: the pieces between the separators, at least one. */
  function Split(s: string, sep: char): (parts: seq<string>)
    ensures |parts| >= 1
    ensures forall i :: 0 <= i < |parts| ==> sep !in parts[i]
    decreases |s|
  {
    var k := IndexOf(s, sep);
    if k == |s| then
      assert s[0..k] == s;
      [s]
    else
      assert s[0..k] == s[..k];
      [s[..k]] + Split(s[k + 1..], sep)
  }

  /** `sep.join(parts)` */
  function Join(parts: seq<string>, sep: char): (s: string)
    ensures |parts| == 1 ==> s == parts[0]
  {
    if |parts| == 0 then ""
    else if |parts| == 1 then parts[0]
    else parts[0] + [sep] + Join(parts[1..], sep)
  }

  /** Joining the pieces of a split restores the text. */
  lemma {:induction false} JoinSplit(s: string, sep: char)
    ensures Join(Split(s, sep), sep) == s
    decreases |s|
  {
    var k := IndexOf(s, sep);
    if k < |s| {
      JoinSplit(s[k + 1..], sep);
      var rest := Split(s[k + 1..], sep);
      assert Split(s, sep) == [s[..k]] + rest;
      assert Join([s[..k]] + rest, sep) == s[..k] + [sep] + Join(rest, sep) by {
        assert ([s[..k]] + rest)[1..] == rest;
      }
      assert s == s[..k] + [sep] + s[k + 1..];
    }
  }

  /** Splitting a join of pieces free of the separator gives the pieces back. */
  lemma {:induction false} SplitJoin(parts: seq<string>, sep: char)
    requires |parts| >= 1
    requires forall i :: 0 <= i < |parts| ==> sep !in parts[i]
    ensures Split(Join(parts, sep), sep) == parts
  {
    var s := Join(parts, sep);
    if |parts| == 1 {
      assert IndexOf(s, sep) == |s|;
      assert s[0..|s|] == s;
    } else {
      var rest := Join(parts[1..], sep);
      assert s == parts[0] + [sep] + rest;
      var k := IndexOf(s, sep);
      assert k == |parts[0]| by {
        assert s[|parts[0]|] == sep;
        assert s[0..|parts[0]|] == parts[0];
      }
      assert s[..k] == parts[0];
      assert s[k + 1..] == rest;
      SplitJoin(parts[1..], sep);
      assert parts == [parts[0]] + parts[1..];
    }
  }

  /** Joining two non-empty runs of pieces puts one separator between them. */
  lemma {:induction false} JoinAppend(a: seq<string>, b: seq<string>, sep: char)
    requires |a| >= 1 && |b| >= 1
    ensures Join(a + b, sep) == Join(a, sep) + [sep] + Join(b, sep)
  {
    if |a| == 1 {
      assert (a + b)[1..] == b;
    } else {
      assert (a + b)[1..] == a[1..] + b;
      JoinAppend(a[1..], b, sep);
    }
  }

  /** The last piece of a split is what follows the last separator. */
  lemma {:induction false} SplitLast(s: string, sep: char)
    ensures var parts := Split(s, sep); var last := parts[|parts| - 1];
      |last| <= |s| && last == s[|s| - |last|..] &&
      (|parts| > 1 ==> |last| < |s| && s[|s| - |last| - 1] == sep)
    decreases |s|
  {
    var k := IndexOf(s, sep);
    if k < |s| {
      SplitLast(s[k + 1..], sep);
      var rest := Split(s[k + 1..], sep);
      assert Split(s, sep) == [s[..k]] + rest;
      var last := rest[|rest| - 1];
      assert s[k + 1..][|s[k + 1..]| - |last|..] == s[|s| - |last|..];
      if |rest| > 1 {
        assert s[k + 1..][|s[k + 1..]| - |last| - 1] == s[|s| - |last| - 1];
      }
    }
  }

  /** A text that does not end with a line feed has a last line that ends
      with the same character. */
  lemma SplitLinesLast(s: string)
    requires s != "" && s[|s| - 1] != '\n'
    ensures var lines := SplitLines(s); var last := lines[|lines| - 1];
      last != "" && last[|last| - 1] == s[|s| - 1]
  {
    SplitLast(s, '\n');
    var parts := Split(s, '\n');
    var last := parts[|parts| - 1];
    if |parts| == 1 {
      JoinSplit(s, '\n');
    }
    assert last[|last| - 1] == s[|s| - 1];
  }

  /** Joining the lines of a text that does not end with a line feed
      restores it. */
  lemma JoinSplitLines(s: string)
    requires s == "" || s[|s| - 1] != '\n'
    ensures JoinLines(SplitLines(s)) == s
  {
    if s != "" {
      JoinSplit(s, '\n');
    }
  }

  /** A split of a join is the pieces again, when no piece holds a line
      feed and the last one is not empty. */
  lemma SplitLinesJoinLines(lines: seq<string>)
    requires |lines| >= 1 && lines[|lines| - 1] != ""
    requires forall i :: 0 <= i < |lines| ==> '\n' !in lines[i]
    ensures SplitLines(JoinLines(lines)) == lines
  {
    var s := JoinLines(lines);
    var last := lines[|lines| - 1];
    if |lines| >= 2 {
      JoinAppend(lines[..|lines| - 1], [last], '\n');
      assert lines == lines[..|lines| - 1] + [last];
    }
    assert s[|s| - 1] == last[|last| - 1];
    assert last[|last| - 1] in last;
    SplitJoin(lines, '\n');
  }

  /** `"\n".join(lines)` */
  function JoinLines(lines: seq<string>): (s: string)
    ensures |lines| == 1 ==> s == lines[0]
  {
    Join(lines, '\n')
  }

  /** `s.splitlines()`, with the line feed as the only line boundary: no
      lines for the empty text, and no empty last line for a trailing line
      feed. */
  function SplitLines(s: string): (lines: seq<string>)
    ensures forall i :: 0 <= i < |lines| ==> '\n' !in lines[i]
    ensures |lines| == 0 <==> s == ""
  {
    if s == "" then []
    else
      var parts := Split(s, '\n');
      if s[|s| - 1] == '\n' then
        assert |parts| >= 2 by {
          JoinSplit(s, '\n');
          assert s[|s| - 1] in s;
        }
        parts[..|parts| - 1]
      else parts
  }

  /** `str.strip()`: the text between the leading and the trailing run of
      white space. */
  function Strip(s: string): (r: string)
    ensures r == s[LeadingSpace(s)..TrailingSpace(s, LeadingSpace(s))]
    ensures r == "" || (!IsStripSpace(r[0]) && !IsStripSpace(r[|r| - 1]))
  {
    s[LeadingSpace(s)..TrailingSpace(s, LeadingSpace(s))]
  }

  /** The index of the first character that is not white space, or |s|. */
  function LeadingSpace(s: string, from: nat := 0): (a: nat)
    requires from <= |s|
    ensures from <= a <= |s|
    ensures forall k :: from <= k < a ==> IsStripSpace(s[k])
    ensures a < |s| ==> !IsStripSpace(s[a])
    decreases |s| - from
  {
    if from < |s| && IsStripSpace(s[from]) then LeadingSpace(s, from + 1) else from
  }

  /** The index just past the last character at or after `a` that is not
      white space, or `a`. */
  function TrailingSpace(s: string, a: nat, upto: nat := |s|): (b: nat)
    requires a <= upto <= |s|
    ensures a <= b <= upto
    ensures forall k :: b <= k < upto ==> IsStripSpace(s[k])
    ensures b > a ==> !IsStripSpace(s[b - 1])
    decreases upto
  {
    if upto > a && IsStripSpace(s[upto - 1]) then TrailingSpace(s, a, upto - 1) else upto
  }
}
