/**
 * `decode_tens_text` and `parse_dict_line` (encoder.rs): TENS-Text read
 * back line by line. Directives set the dictionary, the schema name and the
 * array fields; a line equal to the schema name starts a record; an
 * indented line adds a field to the current record; everything else is
 * skipped. The decoder never reports an error: its only failure is the
 * panic of `parse_tens_text_value` on the token `"`, which is `None` here.
 *
 * The decoder's local variables are grouped in one `DecodeState`; the
 * `schema_fields` list it also keeps is left out, as nothing reads it.
 */
module TextDecoder {
  import opened Base
  import opened Float64
  import opened Values
  import opened Canonical
  import opened TextQuoting
  import opened TextValues
  import opened TextLines

  /** `str::starts_with`. */
  predicate StartsWith(s: string, prefix: string)
  {
    |prefix| <= |s| && s[..|prefix|] == prefix
  }

  /** `str::ends_with`. */
  predicate EndsWith(s: string, suffix: string)
  {
    |suffix| <= |s| && s[|s| - |suffix|..] == suffix
  }

  // ---------------------------------------------------------------------------
  // The `@dict` line

  /*
   * `parse_dict_line` walks the text after `@dict` by position, and so do
   * the functions that say what it reads: each takes the text and the
   * position it starts from.
   */

  /** The first position from `i` on that does not hold whitespace, or `|s|`. */
  function SkipFrom(s: string, i: nat): (k: nat)
    requires i <= |s|
    ensures i <= k <= |s|
    ensures k < |s| ==> !IsWhitespace(s[k])
    decreases |s| - i
  {
    if i < |s| && IsWhitespace(s[i]) then SkipFrom(s, i + 1) else i
  }

  /** The first position from `i` on that holds whitespace, or `|s|`. */
  function WordEndFrom(s: string, i: nat): (k: nat)
    requires i <= |s|
    ensures i <= k <= |s|
    ensures k < |s| ==> IsWhitespace(s[k])
    decreases |s| - i
  {
    if i < |s| && !IsWhitespace(s[i]) then WordEndFrom(s, i + 1) else i
  }

  /**
   * The text of a quoted token read from `i`, just after its opening quote:
   * `\x` stands for the unescaped `x`, an unescaped `"` or the end of the
   * text ends the token, and a `\` as the last character is dropped.
   */
  function QuotedFrom(s: string, i: nat): string
    requires i <= |s|
    decreases |s| - i
  {
    if i == |s| then []
    else if s[i] == '\\' then (if i + 1 == |s| then [] else [Unescaped(s[i + 1])] + QuotedFrom(s, i + 2))
    else if s[i] == '"' then []
    else [s[i]] + QuotedFrom(s, i + 1)
  }

  /** Where the quoted token read from `i` ends: just after its closing quote, or at the end of the text. */
  function QuotedEnd(s: string, i: nat): (k: nat)
    requires i <= |s|
    ensures i <= k <= |s|
    decreases |s| - i
  {
    if i == |s| then i
    else if s[i] == '\\' then (if i + 1 == |s| then i + 1 else QuotedEnd(s, i + 2))
    else if s[i] == '"' then i + 1
    else QuotedEnd(s, i + 1)
  }

  /** The token starting at `k`: quoted when it opens with `"`, otherwise a run of non-whitespace. */
  function TokenAt(s: string, k: nat): string
    requires k < |s|
  {
    if s[k] == '"' then QuotedFrom(s, k + 1) else s[k..WordEndFrom(s, k)]
  }

  /** Where the token starting at `k` ends. */
  function TokenEndAt(s: string, k: nat): (e: nat)
    requires k < |s| && !IsWhitespace(s[k])
    ensures k < e <= |s|
  {
    if s[k] == '"' then QuotedEnd(s, k + 1) else WordEndFrom(s, k)
  }

  /** The `@dict` entries read from `i` on: whitespace is skipped, a token read, and so on to the end. */
  function TokensFrom(s: string, i: nat): seq<string>
    requires i <= |s|
    decreases |s| - i
  {
    var k := SkipFrom(s, i);
    if k == |s| then [] else [TokenAt(s, k)] + TokensFrom(s, TokenEndAt(s, k))
  }

  /** What `parse_dict_line` returns. */
  function DictOf(line: string): seq<string>
  {
    if StartsWith(line, "@dict") then TokensFrom(Trim(line[5..]), 0) else []
  }

  /** `parse_dict_line`. */
  method ParseDictLine(line: string) returns (entries: seq<string>)
    ensures entries == DictOf(line)
  {
    if !StartsWith(line, "@dict") {
      return [];
    }
    entries := ReadTokens(Trim(line[5..]));
  }

  /** The loop of `parse_dict_line`, reading the characters one by one. */
  method ReadTokens(content: string) returns (entries: seq<string>)
    ensures entries == TokensFrom(content, 0)
  {
    entries := [];
    var i := 0;
    while i < |content|
      invariant i <= |content|
      invariant entries + TokensFrom(content, i) == TokensFrom(content, 0)
      decreases |content| - i
    {
      var token, j := ReadToken(content, i);
      if token.Some? {
        entries := entries + [token.value];
      }
      i := j;
    }
    NoTokensAtEnd(content, entries);
  }

  /** Nothing is left to read at the end of the content. */
  lemma NoTokensAtEnd(content: string, entries: seq<string>)
    ensures entries + TokensFrom(content, |content|) == entries
  {
    assert TokensFrom(content, |content|) == [];
  }

  /** One turn of the `parse_dict_line` loop: skip whitespace, then read a token if one is left. */
  method ReadToken(content: string, i: nat) returns (token: Option<string>, j: nat)
    requires i < |content|
    ensures token.None? ==> j == |content| && TokensFrom(content, i) == []
    ensures token.Some? ==> i < j <= |content| && TokensFrom(content, i) == [token.value] + TokensFrom(content, j)
  {
    var k := SkipWhitespace(content, i);
    if k == |content| {
      return None, k;
    }
    var s;
    if content[k] == '"' {
      s, j := QuotedToken(content, k);
    } else {
      s, j := BareToken(content, k);
    }
    token := Some(s);
  }

  /** Skips the whitespace from `i` on. */
  method SkipWhitespace(content: string, i: nat) returns (j: nat)
    requires i <= |content|
    ensures j == SkipFrom(content, i)
  {
    j := i;
    while j < |content| && IsWhitespace(content[j])
      invariant i <= j <= |content|
      invariant SkipFrom(content, j) == SkipFrom(content, i)
      decreases |content| - j
    {
      j := j + 1;
    }
  }

  /** Reads a quoted token whose opening quote is at `start`. */
  method QuotedToken(content: string, start: nat) returns (s: string, next: nat)
    requires start < |content| && content[start] == '"'
    ensures s == TokenAt(content, start) && next == TokenEndAt(content, start)
  {
    s := "";
    var j := start + 1;
    while j < |content|
      invariant start + 1 <= j <= |content|
      invariant s + QuotedFrom(content, j) == QuotedFrom(content, start + 1)
      invariant QuotedEnd(content, j) == QuotedEnd(content, start + 1)
      decreases |content| - j
    {
      var s1, j1, done := QuotedChar(content, j, s);
      s, j := s1, j1;
      if done {
        break;
      }
    }
    next := j;
  }

  /** One character (or escape pair) of a quoted token; `done` when it closes the token. */
  method QuotedChar(content: string, j: nat, s: string) returns (s1: string, j1: nat, done: bool)
    requires j < |content|
    ensures j < j1 <= |content|
    ensures done ==> s1 == s + QuotedFrom(content, j) && j1 == QuotedEnd(content, j)
    ensures !done ==> s1 + QuotedFrom(content, j1) == s + QuotedFrom(content, j)
    ensures !done ==> QuotedEnd(content, j1) == QuotedEnd(content, j)
  {
    var c := content[j];
    if c == '\\' && j + 1 == |content| {
      s1, j1, done := s, j + 1, true;
    } else if c == '\\' {
      QuotedPair(content, j, s);
      s1, j1, done := s + [Unescaped(content[j + 1])], j + 2, false;
    } else if c == '"' {
      QuotedClose(content, j);
      s1, j1, done := s, j + 1, true;
    } else {
      QuotedSingle(content, j, s);
      s1, j1, done := s + [c], j + 1, false;
    }
  }

  lemma QuotedPair(content: string, j: nat, s: string)
    requires j + 1 < |content| && content[j] == '\\'
    ensures s + QuotedFrom(content, j) == (s + [Unescaped(content[j + 1])]) + QuotedFrom(content, j + 2)
    ensures QuotedEnd(content, j) == QuotedEnd(content, j + 2)
  {
    assert QuotedFrom(content, j) == [Unescaped(content[j + 1])] + QuotedFrom(content, j + 2);
  }

  /** Past the closing quote, the quoted token is read and has ended. */
  lemma QuotedClose(content: string, j: nat)
    requires j < |content| && content[j] == '"'
    ensures QuotedFrom(content, j) == [] && QuotedEnd(content, j) == j + 1
  {
  }

  lemma QuotedSingle(content: string, j: nat, s: string)
    requires j < |content| && content[j] != '\\' && content[j] != '"'
    ensures s + QuotedFrom(content, j) == (s + [content[j]]) + QuotedFrom(content, j + 1)
    ensures QuotedEnd(content, j) == QuotedEnd(content, j + 1)
  {
    assert QuotedFrom(content, j) == [content[j]] + QuotedFrom(content, j + 1);
  }

  /** Reads an unquoted token starting at `start`, up to the next whitespace. */
  method BareToken(content: string, start: nat) returns (s: string, next: nat)
    requires start < |content| && !IsWhitespace(content[start]) && content[start] != '"'
    ensures s == TokenAt(content, start) && next == TokenEndAt(content, start)
  {
    s := "";
    next := start;
    while next < |content| && !IsWhitespace(content[next])
      invariant start <= next <= |content|
      invariant s == content[start..next]
      invariant WordEndFrom(content, next) == WordEndFrom(content, start)
      decreases |content| - next
    {
      s := s + [content[next]];
      next := next + 1;
    }
  }

  // ---------------------------------------------------------------------------
  // The decoder's state and one line of input

  datatype DecodeState = DecodeState(
    dict: seq<string>,
    schemaName: string,
    arrayFields: set<string>,
    records: seq<Value>,
    current: Option<seq<(string, Value)>>)

  /** The state before the first line. */
  const START: DecodeState := DecodeState([], "", {}, [], None)

  /** The names of the schema items `name:type[]`: the array fields a `@schema` line declares. */
  function ArrayNames(parts: seq<string>): set<string>
  {
    if parts == [] then {}
    else
      var item := SplitOnce(parts[|parts| - 1], ':');
      ArrayNames(parts[..|parts| - 1]) + (if item.Some? && EndsWith(item.value.1, "[]") then {item.value.0} else {})
  }

  /**
   * A field line's value added to the current record: appended to the
   * array under an array field's name (which starts as `[]`, and is left
   * alone when it holds something else); stored under any other name,
   * replacing what was there.
   */
  function AddField(rec: seq<(string, Value)>, name: string, v: Value, arrayFields: set<string>): seq<(string, Value)>
  {
    if name in arrayFields then
      var existing: Option<Value> := Lookup(rec, name);
      if existing.None? then Insert(rec, name, Arr([v]))
      else if existing.value.Arr? then Insert(rec, name, Arr(existing.value.items + [v]))
      else rec
    else Insert(rec, name, v)
  }

  /** The records, with the current one pushed after them. */
  function Flushed(st: DecodeState): seq<Value>
  {
    if st.current.Some? then st.records + [Obj(st.current.value)] else st.records
  }

  /** A `@schema` line: its second word names the records, and its `name:type[]` items add array fields. */
  function SchemaStep(st: DecodeState, trimmed: string): DecodeState
  {
    var parts := SplitWhitespace(trimmed);
    if |parts| >= 2 then st.(schemaName := parts[1], arrayFields := st.arrayFields + ArrayNames(parts[2..])) else st
  }

  /** A line holding the schema name: the current record is pushed and an empty one started. */
  function StartRecord(st: DecodeState): DecodeState
  {
    st.(records := Flushed(st), current := Some([]))
  }

  /** An indented line inside a record: its first word names the field, the rest is the value. */
  function FieldStep(st: DecodeState, trimmed: string, parseF64: string -> Option<F64Bits>): Option<DecodeState>
    requires st.current.Some?
  {
    var split := SplitAtWhitespace(trimmed);
    if split.None? then Some(st)
    else
      var parsed := ParseValue(Trim(split.value.1), st.dict, parseF64);
      if parsed.None? then None
      else Some(st.(current := Some(AddField(st.current.value, split.value.0, parsed.value, st.arrayFields))))
  }

  /** Which branch of the line loop a line takes. */
  datatype LineKind = Ignored | SchemaLine | DictLine | RecordStart | FieldLine

  /**
   * The branch for a line, given the line trimmed: blank lines, comments,
   * `@version` and `@encoding` lines and unrecognised lines are ignored; an
   * indented line is a field only while a record is open.
   */
  function Classify(st: DecodeState, line: string, trimmed: string): (kind: LineKind)
    ensures kind == FieldLine ==> st.current.Some?
  {
    if trimmed == [] || trimmed[0] == '#' then Ignored
    else if StartsWith(trimmed, "@version") || StartsWith(trimmed, "@encoding") then Ignored
    else if StartsWith(trimmed, "@schema") then SchemaLine
    else if StartsWith(trimmed, "@dict") then DictLine
    else if trimmed == st.schemaName then RecordStart
    else if StartsWith(line, "  ") && st.current.Some? then FieldLine
    else Ignored
  }

  /** The state after one line; `None` when the line panics. */
  function Step(st: DecodeState, line: string, parseF64: string -> Option<F64Bits>): Option<DecodeState>
  {
    var kind := Classify(st, line, Trim(line));
    if kind == FieldLine then FieldStep(st, Trim(line), parseF64)
    else if kind == SchemaLine then Some(SchemaStep(st, Trim(line)))
    else if kind == DictLine then Some(st.(dict := DictOf(Trim(line))))
    else if kind == RecordStart then Some(StartRecord(st))
    else Some(st)
  }

  /** The state after the first `k` lines, in order; `None` once one panics. */
  function Run(lines: seq<string>, k: nat, parseF64: string -> Option<F64Bits>): Option<DecodeState>
    requires k <= |lines|
  {
    Fold(lines, k, (st, line) => Step(st, line, parseF64))
  }

  /** The state after line `k` is the step from the state before it. */
  lemma RunStep(lines: seq<string>, k: nat, parseF64: string -> Option<F64Bits>, st: DecodeState)
    requires k < |lines| && Run(lines, k, parseF64) == Some(st)
    ensures Run(lines, k + 1, parseF64) == Step(st, lines[k], parseF64)
  {
  }

  /** `step` applied to the first `k` lines in order, from `START`, stopping at the first `None`. */
  function Fold(lines: seq<string>, k: nat, step: (DecodeState, string) -> Option<DecodeState>): Option<DecodeState>
    requires k <= |lines|
  {
    if k == 0 then Some(START)
    else
      var before := Fold(lines, k - 1, step);
      if before.None? then None else step(before.value, lines[k - 1])
  }

  /** A single record is returned alone, any other number as an array. */
  function Finish(records: seq<Value>): Value
  {
    if |records| == 1 then records[0] else Arr(records)
  }

  /** What `decode_tens_text` returns; `None` when it panics. */
  function DecodedText(input: string, parseF64: string -> Option<F64Bits>): Option<Value>
  {
    var lines := Lines(input);
    var st := Run(lines, |lines|, parseF64);
    if st.None? then None else Some(Finish(Flushed(st.value)))
  }

  // ---------------------------------------------------------------------------
  // The decoder

  /** `decode_tens_text`. */
  method DecodeTensText(input: string, parseF64: string -> Option<F64Bits>) returns (r: Option<Value>)
    ensures r == DecodedText(input, parseF64)
  {
    var lines := Lines(input);
    var st := START;
    for k := 0 to |lines|
      invariant Run(lines, k, parseF64) == Some(st)
    {
      var next := DecodeLine(st, lines[k], parseF64);
      RunStep(lines, k, parseF64, st);
      if next.None? {
        PanicStays(lines, (st, line) => Step(st, line, parseF64), k + 1);
        return None;
      }
      st := next.value;
    }
    var records := st.records;
    if st.current.Some? {
      records := records + [Obj(st.current.value)];
    }
    if |records| == 1 {
      r := Some(records[0]);
    } else {
      r := Some(Arr(records));
    }
  }

  /** The body of the line loop: the branch the line takes, then that branch. */
  method DecodeLine(st: DecodeState, line: string, parseF64: string -> Option<F64Bits>) returns (next: Option<DecodeState>)
    ensures next == Step(st, line, parseF64)
  {
    var trimmed := Trim(line);
    var kind := Classify(st, line, trimmed);
    match kind
    case Ignored =>
      next := Some(st);
    case SchemaLine =>
      var schema := ReadSchema(st, trimmed);
      next := Some(schema);
    case DictLine =>
      var dict := ParseDictLine(trimmed);
      next := Some(st.(dict := dict));
    case RecordStart =>
      var records := st.records;
      if st.current.Some? {
        records := records + [Obj(st.current.value)];
      }
      next := Some(st.(records := records, current := Some([])));
    case FieldLine =>
      next := ReadField(st, trimmed, parseF64);
  }

  /** The `@schema` branch of the loop. */
  method ReadSchema(st: DecodeState, trimmed: string) returns (next: DecodeState)
    ensures next == SchemaStep(st, trimmed)
  {
    var parts := SplitWhitespace(trimmed);
    if |parts| < 2 {
      return st;
    }
    var arrayFields := st.arrayFields;
    for p := 2 to |parts|
      invariant arrayFields == st.arrayFields + ArrayNames(parts[2..p])
    {
      assert parts[2..p + 1][..p - 2] == parts[2..p];
      var item := SplitOnce(parts[p], ':');
      if item.Some? && EndsWith(item.value.1, "[]") {
        arrayFields := arrayFields + {item.value.0};
      }
    }
    assert parts[2..|parts|] == parts[2..];
    next := st.(schemaName := parts[1], arrayFields := arrayFields);
  }

  /** The field-line branch of the loop. */
  method ReadField(st: DecodeState, trimmed: string, parseF64: string -> Option<F64Bits>) returns (next: Option<DecodeState>)
    requires st.current.Some?
    ensures next == FieldStep(st, trimmed, parseF64)
  {
    var split := SplitAtWhitespace(trimmed);
    if split.None? {
      return Some(st);
    }
    var name := split.value.0;
    var parsed := ParseTextValue(Trim(split.value.1), st.dict, parseF64);
    if parsed.None? {
      return None;
    }
    var rec := st.current.value;
    if name in st.arrayFields {
      var existing: Option<Value> := Lookup(rec, name);
      if existing.None? {
        rec := Insert(rec, name, Arr([parsed.value]));
      } else if existing.value.Arr? {
        rec := Insert(rec, name, Arr(existing.value.items + [parsed.value]));
      }
    } else {
      rec := Insert(rec, name, parsed.value);
    }
    next := Some(st.(current := Some(rec)));
  }

  /** A property of states that `START` has and every step keeps holds of every state reached. */
  lemma {:induction false} FoldKeeps(lines: seq<string>, k: nat, step: (DecodeState, string) -> Option<DecodeState>, inv: DecodeState -> bool)
    requires k <= |lines| && inv(START)
    requires forall st, line :: inv(st) && step(st, line).Some? ==> inv(step(st, line).value)
    ensures Fold(lines, k, step).Some? ==> inv(Fold(lines, k, step).value)
  {
    if k > 0 {
      FoldKeeps(lines, k - 1, step, inv);
    }
  }

  /** Once a line has panicked, the decoder has panicked. */
  lemma {:induction false} PanicStays(lines: seq<string>, step: (DecodeState, string) -> Option<DecodeState>, k: nat)
    requires k <= |lines| && Fold(lines, k, step).None?
    ensures Fold(lines, |lines|, step).None?
    decreases |lines| - k
  {
    if k < |lines| {
      PanicStays(lines, step, k + 1);
    }
  }
}
