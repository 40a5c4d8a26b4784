/** Workflow directives of scripts/load_terraform_config.py (`_parse_metadata`
    and `_metadata_set`): comment lines of the form
    `# workflow.<dotted.path> = <value>` (or with `//`) whose value is parsed
    with `TfvarsParser.parse_value` and stored under the dotted path of a
    nested map. An `_error` followed by `SystemExit` becomes an `Err` whose
    message is the text the source prints after `::error::`. */
module Directives {
  import opened Values
  import opened Grammar
  import opened Parser

  const Prefix: string := "workflow."

  function MissingEquals(line: string): string {
    "Invalid workflow directive (missing '='): " + line
  }

  function Unparsable(line: string, reason: string): string {
    "Unable to parse workflow directive '" + line + "': " + reason
  }

  function PathConflict(part: string): string {
    "Workflow directive path conflict at '" + part + "'"
  }

  // ---------------------------------------------------------------------
  // Storing a value under a path

  /** `_metadata_set`: walk the path, replacing an absent or null
      intermediate by a new map and failing at one that holds anything else
      than a map, then bind the last segment to `v`. The walk of the source
      updates the nested maps in place; here the path is rebuilt. */
  function SetPath(m: Entries, parts: seq<string>, v: Value): (r: Result<Entries>)
    requires |parts| >= 1
    ensures r.Ok? ==> parts[0] in Keys(r.value) && Keys(r.value) == Keys(m) + {parts[0]}
    decreases |parts|
  {
    if |parts| == 1 then Ok(Put(m, parts[0], v))
    else
      var next := NextLevel(m, parts[0]);
      if next.None? then Err(PathConflict(parts[0]))
      else
        match SetPath(next.value, parts[1..], v)
        case Err(msg) => Err(msg)
        case Ok(inner) => Ok(Put(m, parts[0], Object(inner)))
  }

  /** The map a walk continues in at `part`: a new one for an absent or null
      entry, the entry itself for a map, and None for anything else. */
  function NextLevel(m: Entries, part: string): (next: Option<Entries>)
    ensures Get(m, part) == None || Get(m, part) == Some(Null) ==> next == Some([])
    ensures Get(m, part).Some? && Get(m, part).value.Object? ==>
      next == Some(Get(m, part).value.entries)
    ensures next.None? <==>
      Get(m, part).Some? && !Get(m, part).value.Object? && !Get(m, part).value.Null?
  {
    match Get(m, part)
    case None => Some([])
    case Some(Null) => Some([])
    case Some(Object(e)) => Some(e)
    case Some(_) => None
  }

  /** The value reached by following `path` through nested maps. */
  function Lookup(m: Entries, path: seq<string>): Option<Value>
    requires |path| >= 1
    decreases |path|
  {
    match Get(m, path[0])
    case None => None
    case Some(v) =>
      if |path| == 1 then Some(v)
      else if v.Object? then Lookup(v.entries, path[1..])
      else None
  }

  /** Two paths part ways: neither is a prefix of the other. */
  predicate Diverge(p: seq<string>, q: seq<string>)
    decreases |p|
  {
    |p| >= 1 && |q| >= 1 && (p[0] != q[0] || Diverge(p[1..], q[1..]))
  }

  /** The nested maps that hold `v` under `parts` and nothing else. */
  function Nest(parts: seq<string>, v: Value): Entries
    requires |parts| >= 1
    decreases |parts|
  {
    if |parts| == 1 then [(parts[0], v)] else [(parts[0], Object(Nest(parts[1..], v)))]
  }

  /** After a store the path leads to the stored value. */
  lemma {:induction false} SetPathStores(m: Entries, parts: seq<string>, v: Value)
    requires |parts| >= 1 && SetPath(m, parts, v).Ok?
    ensures Lookup(SetPath(m, parts, v).value, parts) == Some(v)
    decreases |parts|
  {
    if |parts| > 1 {
      SetPathStores(NextLevel(m, parts[0]).value, parts[1..], v);
    }
  }

  /** A store changes nothing on a path that parts ways with it: sibling
      keys of every map along the path keep their values. */
  lemma {:induction false} SetPathKeepsOthers(m: Entries, parts: seq<string>, v: Value, q: seq<string>)
    requires |parts| >= 1 && SetPath(m, parts, v).Ok? && Diverge(parts, q)
    ensures Lookup(SetPath(m, parts, v).value, q) == Lookup(m, q)
    decreases |parts|
  {
    var r := SetPath(m, parts, v).value;
    if q[0] != parts[0] {
      assert Get(r, q[0]) == Get(m, q[0]);
    } else {
      assert |parts| > 1 && |q| > 1;
      SetPathKeepsOthers(NextLevel(m, parts[0]).value, parts[1..], v, q[1..]);
      if Get(m, parts[0]) == None || Get(m, parts[0]) == Some(Null) {
        NestedLookupOfEmpty(q[1..]);
      }
    }
  }

  lemma NestedLookupOfEmpty(q: seq<string>)
    requires |q| >= 1
    ensures Lookup([], q) == None
  {
  }

  /** An absent or null intermediate is replaced by new maps holding only
      the rest of the path. */
  lemma SetPathCreates(m: Entries, parts: seq<string>, v: Value)
    requires |parts| >= 2 && (Get(m, parts[0]) == None || Get(m, parts[0]) == Some(Null))
    ensures SetPath(m, parts, v) == Ok(Put(m, parts[0], Object(Nest(parts[1..], v))))
  {
    SetPathIntoEmpty(parts[1..], v);
  }

  lemma {:induction false} SetPathIntoEmpty(parts: seq<string>, v: Value)
    requires |parts| >= 1
    ensures SetPath([], parts, v) == Ok(Nest(parts, v))
    decreases |parts|
  {
    if |parts| > 1 {
      SetPathIntoEmpty(parts[1..], v);
    }
  }

  /** An intermediate that holds a value other than a map or null is a
      path conflict. */
  lemma SetPathConflict(m: Entries, parts: seq<string>, v: Value)
    requires |parts| >= 2 && Get(m, parts[0]).Some?
    requires !Get(m, parts[0]).value.Object? && !Get(m, parts[0]).value.Null?
    ensures SetPath(m, parts, v) == Err(PathConflict(parts[0]))
  {
  }

  /** A store keeps the keys of every map unique. */
  lemma {:induction false} SetPathKeepsKeysUnique(m: Entries, parts: seq<string>, v: Value)
    requires |parts| >= 1 && UniqueKeys(m) && SetPath(m, parts, v).Ok?
    ensures UniqueKeys(SetPath(m, parts, v).value)
    decreases |parts|
  {
    if |parts| == 1 {
      PutKeepsKeysUnique(m, parts[0], v);
    } else {
      var r := SetPath(NextLevel(m, parts[0]).value, parts[1..], v).value;
      PutKeepsKeysUnique(m, parts[0], Object(r));
    }
  }

  /** Segment `k` of `parts` (counting from 1) is blocked in `m`: what the
      first `k` segments reach is neither a map nor null, so a walk along
      `parts` cannot go on there. */
  predicate Blocked(m: Entries, parts: seq<string>, k: nat)
    requires 1 <= k <= |parts|
  {
    var x := Lookup(m, parts[..k]);
    x.Some? && !x.value.Object? && !x.value.Null?
  }

  /** `k` is the first intermediate segment of `parts` that is blocked. */
  predicate FirstBlocked(m: Entries, parts: seq<string>, k: nat) {
    1 <= k < |parts| && Blocked(m, parts, k) && forall j :: 1 <= j < k ==> !Blocked(m, parts, j)
  }

  /** Following the first `k >= 2` segments goes through the map at the
      first one. */
  lemma LookupPrefixStep(m: Entries, parts: seq<string>, k: nat)
    requires 2 <= k <= |parts|
    ensures Lookup(m, parts[..k]) ==
      if Get(m, parts[0]).Some? && Get(m, parts[0]).value.Object?
      then Lookup(Get(m, parts[0]).value.entries, parts[1..][..k - 1])
      else None
  {
    assert parts[..k][0] == parts[0];
    assert parts[..k][1..] == parts[1..][..k - 1];
  }

  lemma BlockedFirst(m: Entries, parts: seq<string>)
    requires |parts| >= 1
    ensures Blocked(m, parts, 1) <==> NextLevel(m, parts[0]).None?
  {
    assert parts[..1] == [parts[0]];
  }

  /** Below the first segment, a segment is blocked exactly when it is
      blocked in the map the walk continues in. */
  lemma BlockedStep(m: Entries, parts: seq<string>, k: nat)
    requires 2 <= k <= |parts| && NextLevel(m, parts[0]).Some?
    ensures Blocked(m, parts, k) <==> Blocked(NextLevel(m, parts[0]).value, parts[1..], k - 1)
  {
    LookupPrefixStep(m, parts, k);
    if !(Get(m, parts[0]).Some? && Get(m, parts[0]).value.Object?) {
      NestedLookupOfEmpty(parts[1..][..k - 1]);
    }
  }

  /** A store succeeds exactly when no intermediate segment is blocked: each
      one reaches a map, null, or nothing. */
  lemma {:induction false} SetPathSucceeds(m: Entries, parts: seq<string>, v: Value)
    requires |parts| >= 1
    ensures SetPath(m, parts, v).Ok? <==> forall k :: 1 <= k < |parts| ==> !Blocked(m, parts, k)
    decreases |parts|
  {
    if |parts| > 1 {
      var next := NextLevel(m, parts[0]);
      BlockedFirst(m, parts);
      if next.Some? {
        SetPathSucceeds(next.value, parts[1..], v);
        if SetPath(m, parts, v).Ok? {
          forall k | 1 <= k < |parts| ensures !Blocked(m, parts, k) {
            if k > 1 {
              BlockedStep(m, parts, k);
            }
          }
        }
        if forall k :: 1 <= k < |parts| ==> !Blocked(m, parts, k) {
          forall j | 1 <= j < |parts| - 1 ensures !Blocked(next.value, parts[1..], j) {
            BlockedStep(m, parts, j + 1);
          }
        }
      }
    }
  }

  /** A store through a blocked segment fails with the path conflict of the
      first blocked segment, at any depth. */
  lemma {:induction false} SetPathConflictAt(m: Entries, parts: seq<string>, v: Value, k: nat)
    requires FirstBlocked(m, parts, k)
    ensures SetPath(m, parts, v) == Err(PathConflict(parts[k - 1]))
    decreases k
  {
    BlockedFirst(m, parts);
    if k > 1 {
      assert !Blocked(m, parts, 1);
      var next := NextLevel(m, parts[0]).value;
      BlockedStep(m, parts, k);
      forall j | 1 <= j < k - 1 ensures !Blocked(next, parts[1..], j) {
        BlockedStep(m, parts, j + 1);
      }
      SetPathConflictAt(next, parts[1..], v, k - 1);
      assert parts[1..][k - 2] == parts[k - 1];
    }
  }

  /** Every failing store fails at its first blocked segment. */
  lemma SetPathFails(m: Entries, parts: seq<string>, v: Value) returns (k: nat)
    requires |parts| >= 1 && SetPath(m, parts, v).Err?
    ensures FirstBlocked(m, parts, k) && SetPath(m, parts, v) == Err(PathConflict(parts[k - 1]))
  {
    SetPathSucceeds(m, parts, v);
    k := LeastBlocked(m, parts, |parts| - 1);
    SetPathConflictAt(m, parts, v, k);
  }

  lemma {:induction false} LeastBlocked(m: Entries, parts: seq<string>, bound: nat) returns (k: nat)
    requires bound < |parts| && exists j :: 1 <= j <= bound && Blocked(m, parts, j)
    ensures FirstBlocked(m, parts, k) && k <= bound
    decreases bound
  {
    if Blocked(m, parts, bound) && forall j :: 1 <= j < bound ==> !Blocked(m, parts, j) {
      k := bound;
    } else {
      k := LeastBlocked(m, parts, bound - 1);
    }
  }

  /** An absent or null intermediate, at any depth, ends up holding new maps
      with only the rest of the path. */
  lemma {:induction false} SetPathCreatesAt(m: Entries, parts: seq<string>, v: Value, k: nat)
    requires 1 <= k < |parts| && SetPath(m, parts, v).Ok?
    requires Lookup(m, parts[..k]) == None || Lookup(m, parts[..k]) == Some(Null)
    ensures Lookup(SetPath(m, parts, v).value, parts[..k]) == Some(Object(Nest(parts[k..], v)))
    decreases k
  {
    var next := NextLevel(m, parts[0]).value;
    var inner := SetPath(next, parts[1..], v).value;
    var r := SetPath(m, parts, v).value;
    assert r == Put(m, parts[0], Object(inner));
    if k == 1 {
      assert parts[..1] == [parts[0]];
      SetPathIntoEmpty(parts[1..], v);
    } else {
      LookupPrefixStep(m, parts, k);
      LookupPrefixStep(r, parts, k);
      if Get(m, parts[0]).Some? && Get(m, parts[0]).value.Object? {
        SetPathCreatesAt(next, parts[1..], v, k - 1);
      } else {
        NestedLookupOfEmpty(parts[1..][..k - 1]);
        SetPathCreatesAt([], parts[1..], v, k - 1);
      }
      assert parts[1..][k - 1..] == parts[k..];
    }
  }

  // ---------------------------------------------------------------------
  // Reading directives from the text

  /** The text after the comment marker of a stripped `#` or `//` line,
      itself stripped. */
  function CommentBody(stripped: string): (body: Option<string>)
    ensures body.Some? ==> |stripped| >= 1
  {
    if StartsWith(stripped, 0, "#") then Some(Strip(stripped[1..]))
    else if StartsWith(stripped, 0, "//") then Some(Strip(stripped[2..]))
    else None
  }

  /** `s.split("=", 1)` of a text that holds `=`. */
  function SplitAtEquals(s: string): (halves: (string, string))
    requires '=' in s
    ensures halves.0 + "=" + halves.1 == s && '=' !in halves.0
  {
    var k := IndexOf(s, '=');
    assert s[0..k] == s[..k];
    assert s == s[..k] + "=" + s[k + 1..];
    (s[..k], s[k + 1..])
  }

  lemma EqualsAfterPrefix(body: string)
    requires StartsWith(body, 0, Prefix) && '=' in body
    ensures '=' in body[|Prefix|..]
  {
    var k :| 0 <= k < |body| && body[k] == '=';
    assert body[|Prefix|..][k - |Prefix|] == '=';
  }

  /** The directive a stripped line holds, if any: a `#` or `//` comment
      whose body starts with `workflow.`. */
  predicate IsDirective(stripped: string) {
    var body := CommentBody(stripped);
    body.Some? && |body.value| != 0 && StartsWith(body.value, 0, Prefix)
  }

  /** One round of the loop of `_parse_metadata`: the map after `line`. */
  function MetadataLine(acc: Entries, line: string): (r: Result<Entries>)
  {
    var stripped := Strip(line);
    if !IsDirective(stripped) then Ok(acc)
    else
      var body := CommentBody(stripped).value;
      if '=' !in body then Err(MissingEquals(stripped))
      else
        EqualsAfterPrefix(body);
        var (keyPath, valueRaw) := SplitAtEquals(body[|Prefix|..]);
        match SingleValue(Strip(valueRaw))
        case Err(reason) => Err(Unparsable(stripped, reason))
        case Ok(v) => SetPath(acc, Split(Strip(keyPath), '.'), v)
  }

  /** The lines from the `n`-th on, starting from the map `acc`. */
  function MetadataFrom(lines: seq<string>, n: nat, acc: Entries): Result<Entries>
    requires n <= |lines|
    decreases |lines| - n
  {
    if n == |lines| then Ok(acc)
    else
      match MetadataLine(acc, lines[n])
      case Err(msg) => Err(msg)
      case Ok(next) => MetadataFrom(lines, n + 1, next)
  }

  /** What `_parse_metadata` returns for `raw`, or the message it fails with. */
  function Metadata(raw: string): Result<Entries> {
    MetadataFrom(SplitLines(raw), 0, [])
  }

  /** Lines that hold no directive leave the map as it is. */
  lemma {:induction false} OrdinaryLinesIgnored(lines: seq<string>, n: nat, acc: Entries)
    requires n <= |lines|
    requires forall k :: n <= k < |lines| ==> !IsDirective(Strip(lines[k]))
    ensures MetadataFrom(lines, n, acc) == Ok(acc)
    decreases |lines| - n
  {
    if n < |lines| {
      OrdinaryLinesIgnored(lines, n + 1, acc);
    }
  }

  /** A directive whose body holds no `=` fails with the stripped line. */
  lemma DirectiveWithoutEquals(acc: Entries, line: string)
    requires IsDirective(Strip(line)) && '=' !in CommentBody(Strip(line)).value
    ensures MetadataLine(acc, line) == Err(MissingEquals(Strip(line)))
  {
  }

  /** The first failing line ends the run with its message. */
  lemma FailingLineStops(lines: seq<string>, n: nat, acc: Entries)
    requires n < |lines| && MetadataLine(acc, lines[n]).Err?
    ensures MetadataFrom(lines, n, acc) == Err(MetadataLine(acc, lines[n]).msg)
  {
  }

  /** A text without directive lines yields the empty map. */
  lemma NoDirectivesNoMetadata(raw: string)
    requires forall line :: line in SplitLines(raw) ==> !IsDirective(Strip(line))
    ensures Metadata(raw) == Ok([])
  {
    OrdinaryLinesIgnored(SplitLines(raw), 0, []);
  }

  /** Every map the directives build has unique keys. */
  lemma {:induction false} MetadataFromUnique(lines: seq<string>, n: nat, acc: Entries)
    requires n <= |lines| && UniqueKeys(acc) && MetadataFrom(lines, n, acc).Ok?
    ensures UniqueKeys(MetadataFrom(lines, n, acc).value)
    decreases |lines| - n
  {
    if n < |lines| {
      var line := lines[n];
      var stripped := Strip(line);
      if IsDirective(stripped) {
        var body := CommentBody(stripped).value;
        EqualsAfterPrefix(body);
        var (keyPath, valueRaw) := SplitAtEquals(body[|Prefix|..]);
        var v := SingleValue(Strip(valueRaw)).value;
        SetPathKeepsKeysUnique(acc, Split(Strip(keyPath), '.'), v);
      }
      MetadataFromUnique(lines, n + 1, MetadataLine(acc, line).value);
    }
  }

  lemma MetadataUnique(raw: string)
    requires Metadata(raw).Ok?
    ensures UniqueKeys(Metadata(raw).value)
  {
    MetadataFromUnique(SplitLines(raw), 0, []);
  }

  /** `line` is a directive whose text after `workflow.` is `keyPath`, an
      `=` and `valueRaw`, with no `=` in `keyPath`. */
  predicate DirectiveParts(line: string, keyPath: string, valueRaw: string) {
    IsDirective(Strip(line)) && '=' !in keyPath &&
    CommentBody(Strip(line)).value == Prefix + keyPath + "=" + valueRaw
  }

  /** `split("=", 1)` cuts at the first `=`. */
  lemma SplitAtFirstEquals(keyPath: string, valueRaw: string)
    requires '=' !in keyPath
    ensures SplitAtEquals(keyPath + "=" + valueRaw) == (keyPath, valueRaw)
  {
    var s := keyPath + "=" + valueRaw;
    var k := IndexOf(s, '=');
    assert s[|keyPath|] == '=';
    assert s[..k] == keyPath;
    assert s[k + 1..] == valueRaw;
  }

  /** A directive line parses its value and, when that succeeds, stores it
      under the dotted key path; otherwise it fails with the parse error. */
  lemma DirectiveLine(acc: Entries, line: string, keyPath: string, valueRaw: string)
    requires DirectiveParts(line, keyPath, valueRaw)
    ensures SingleValue(Strip(valueRaw)).Err? ==>
      MetadataLine(acc, line) == Err(Unparsable(Strip(line), SingleValue(Strip(valueRaw)).msg))
    ensures SingleValue(Strip(valueRaw)).Ok? ==>
      MetadataLine(acc, line) == SetPath(acc, Split(Strip(keyPath), '.'), SingleValue(Strip(valueRaw)).value)
  {
    DirectiveSplit(CommentBody(Strip(line)).value, keyPath, valueRaw);
  }

  lemma DirectiveSplit(body: string, keyPath: string, valueRaw: string)
    requires body == Prefix + keyPath + "=" + valueRaw && '=' !in keyPath
    ensures '=' in body && SplitAtEquals(body[|Prefix|..]) == (keyPath, valueRaw)
  {
    assert body[|Prefix|..] == keyPath + "=" + valueRaw;
    assert body[|Prefix| + |keyPath|] == '=';
    SplitAtFirstEquals(keyPath, valueRaw);
  }

  /** A directive whose value parses to `v` succeeds exactly when no segment
      of its path is blocked; it then puts `v` under the path and leaves
      every diverging path as it was. */
  lemma DirectiveStores(acc: Entries, line: string, keyPath: string, valueRaw: string, v: Value, parts: seq<string>)
    requires DirectiveParts(line, keyPath, valueRaw) && SingleValue(Strip(valueRaw)) == Ok(v)
    requires parts == Split(Strip(keyPath), '.')
    ensures MetadataLine(acc, line).Ok? <==> forall k :: 1 <= k < |parts| ==> !Blocked(acc, parts, k)
    ensures MetadataLine(acc, line).Ok? ==> Lookup(MetadataLine(acc, line).value, parts) == Some(v)
    ensures MetadataLine(acc, line).Ok? ==>
      forall q :: Diverge(parts, q) ==> Lookup(MetadataLine(acc, line).value, q) == Lookup(acc, q)
  {
    DirectiveLine(acc, line, keyPath, valueRaw);
    StoreOutcome(acc, parts, v, MetadataLine(acc, line));
  }

  /** What a store `r` of `v` under `parts` gives: success exactly when no
      segment is blocked, and then `v` under the path with every diverging
      path kept. */
  lemma StoreOutcome(m: Entries, parts: seq<string>, v: Value, r: Result<Entries>)
    requires |parts| >= 1 && r == SetPath(m, parts, v)
    ensures r.Ok? <==> forall k :: 1 <= k < |parts| ==> !Blocked(m, parts, k)
    ensures r.Ok? ==> Lookup(r.value, parts) == Some(v)
    ensures r.Ok? ==> forall q :: Diverge(parts, q) ==> Lookup(r.value, q) == Lookup(m, q)
  {
    SetPathSucceeds(m, parts, v);
    if r.Ok? {
      SetPathStores(m, parts, v);
      forall q | Diverge(parts, q) ensures Lookup(r.value, q) == Lookup(m, q) {
        SetPathKeepsOthers(m, parts, v, q);
      }
    }
  }

  /** A line that holds no directive. */
  predicate Ordinary(line: string) {
    !IsDirective(Strip(line))
  }

  lemma OrdinaryLineSkipped(lines: seq<string>, n: nat, next: nat, acc: Entries)
    requires n < |lines| && next == n + 1 && Ordinary(lines[n])
    ensures MetadataFrom(lines, n, acc) == MetadataFrom(lines, next, acc)
  {
  }

  /** A line that is read successfully hands its map on to the next line. */
  lemma LineReadOn(lines: seq<string>, n: nat, next: nat, acc: Entries, r: Entries)
    requires n < |lines| && next == n + 1 && MetadataLine(acc, lines[n]) == Ok(r)
    ensures MetadataFrom(lines, n, acc) == MetadataFrom(lines, next, r)
  {
  }

  /** A well-formed directive read into the empty map gives the nested maps
      of its path. */
  lemma FirstStore(line: string, keyPath: string, valueRaw: string, v: Value, parts: seq<string>)
    requires DirectiveParts(line, keyPath, valueRaw) && SingleValue(Strip(valueRaw)) == Ok(v)
    requires parts == Split(Strip(keyPath), '.')
    ensures MetadataLine([], line) == Ok(Nest(parts, v))
  {
    DirectiveLine([], line, keyPath, valueRaw);
    SetPathIntoEmpty(parts, v);
  }

  /** From line `n` on, where line `j` is the one directive and is well
      formed, the run from the empty map ends with the nested maps of that
      directive. */
  lemma {:induction false} DirectiveAhead(lines: seq<string>, n: nat, j: nat, keyPath: string, valueRaw: string, v: Value, parts: seq<string>)
    requires n <= j < |lines| && DirectiveParts(lines[j], keyPath, valueRaw)
    requires forall k :: n <= k < |lines| && k != j ==> Ordinary(lines[k])
    requires SingleValue(Strip(valueRaw)) == Ok(v) && parts == Split(Strip(keyPath), '.')
    ensures MetadataFrom(lines, n, []) == Ok(Nest(parts, v))
    decreases j - n
  {
    var next := n + 1;
    if n < j {
      OrdinaryLineSkipped(lines, n, next, []);
      DirectiveAhead(lines, next, j, keyPath, valueRaw, v, parts);
    } else {
      FirstStore(lines[j], keyPath, valueRaw, v, parts);
      LineReadOn(lines, j, next, [], Nest(parts, v));
      forall k | next <= k < |lines| ensures !IsDirective(Strip(lines[k])) {
        assert Ordinary(lines[k]);
      }
      OrdinaryLinesIgnored(lines, next, Nest(parts, v));
    }
  }

  /** A text whose one directive line is well formed yields just the nested
      maps that hold its value under its path. */
  lemma OnlyDirective(raw: string, j: nat, keyPath: string, valueRaw: string, v: Value, parts: seq<string>)
    requires j < |SplitLines(raw)| && DirectiveParts(SplitLines(raw)[j], keyPath, valueRaw)
    requires forall k :: 0 <= k < |SplitLines(raw)| && k != j ==> !IsDirective(Strip(SplitLines(raw)[k]))
    requires SingleValue(Strip(valueRaw)) == Ok(v) && parts == Split(Strip(keyPath), '.')
    ensures Metadata(raw) == Ok(Nest(parts, v))
  {
    var lines := SplitLines(raw);
    forall k | 0 <= k < |lines| && k != j ensures Ordinary(lines[k]) {
    }
    DirectiveAhead(lines, 0, j, keyPath, valueRaw, v, parts);
  }

  /** `_parse_metadata` */
  method ParseMetadata(raw: string) returns (r: Result<Entries>)
    ensures r == Metadata(raw)
  {
    var metadata: Entries := [];
    var lines := SplitLines(raw);
    for n := 0 to |lines|
      invariant MetadataFrom(lines, n, metadata) == Metadata(raw)
    {
      var next := ReadDirectiveLine(metadata, lines[n]);
      if next.Err? {
        return Err(next.msg);
      }
      metadata := next.value;
    }
    return Ok(metadata);
  }

  /** One round of the loop of `_parse_metadata`: a line that is not a
      directive leaves `metadata` as it is; a directive is parsed and stored. */
  method ReadDirectiveLine(metadata: Entries, line: string) returns (r: Result<Entries>)
    ensures r == MetadataLine(metadata, line)
  {
    var stripped := Strip(line);
    var body := CommentBody(stripped);
    if body.None? || |body.value| == 0 || !StartsWith(body.value, 0, Prefix) {
      return Ok(metadata);
    }
    assert IsDirective(stripped);
    if '=' !in body.value {
      return Err(MissingEquals(stripped));
    }
    EqualsAfterPrefix(body.value);
    var (keyPath, valueRaw) := SplitAtEquals(body.value[|Prefix|..]);
    keyPath := Strip(keyPath);
    valueRaw := Strip(valueRaw);
    var parser := new TfvarsParser(valueRaw);
    var value := parser.ParseValue();
    if value.Err? {
      return Err(Unparsable(stripped, value.msg));
    }
    r := SetPath(metadata, Split(keyPath, '.'), value.value);
  }
}
