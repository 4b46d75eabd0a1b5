/**
 * What `decode_tens_text` promises: the records it collects are objects, a
 * single record comes back alone and any other number as an array, and the
 * only line that makes it panic is a field line whose value is the lone
 * token `"`.
 */
module TextDecoderProperties {
  import opened Base
  import opened Float64
  import opened Values
  import opened Canonical
  import opened TextLines
  import opened TextValues
  import opened TextDecoder

  /** Every record collected so far is an object. */
  predicate AllObjects(records: seq<Value>)
  {
    forall i :: 0 <= i < |records| ==> records[i].Obj?
  }

  /** The records of a decoding that did not panic, the last open one included. */
  function DecodedRecords(input: string, parseF64: string -> Option<F64Bits>): seq<Value>
    requires DecodedText(input, parseF64).Some?
  {
    var lines := Lines(input);
    Flushed(Run(lines, |lines|, parseF64).value)
  }

  // ---------------------------------------------------------------------------
  // The shape of the result

  /**
   * The decoder returns objects only: one record on its own, and any other
   * number of records, none included, as an array of them.
   */
  lemma DecodedShape(input: string, parseF64: string -> Option<F64Bits>)
    requires DecodedText(input, parseF64).Some?
    ensures var v := DecodedText(input, parseF64).value;
      var records := DecodedRecords(input, parseF64);
      && AllObjects(records)
      && (v.Obj? <==> |records| == 1)
      && (v.Obj? ==> v == records[0])
      && (!v.Obj? ==> v == Arr(records))
  {
    var lines := Lines(input);
    var st := Run(lines, |lines|, parseF64).value;
    RunObjects(lines, |lines|, parseF64);
    FlushedObjects(st);
  }

  lemma FlushedObjects(st: DecodeState)
    requires AllObjects(st.records)
    ensures AllObjects(Flushed(st))
  {
  }

  /** The records of every state the decoder reaches are objects. */
  lemma RunObjects(lines: seq<string>, k: nat, parseF64: string -> Option<F64Bits>)
    requires k <= |lines| && Run(lines, k, parseF64).Some?
    ensures AllObjects(Run(lines, k, parseF64).value.records)
  {
    var step := (st, line) => Step(st, line, parseF64);
    var inv := (st: DecodeState) => AllObjects(st.records);
    forall st, line | inv(st) && step(st, line).Some?
      ensures inv(step(st, line).value)
    {
      StepObjects(st, line, parseF64);
    }
    FoldKeeps(lines, k, step, inv);
  }

  /** A line never adds a record that is not an object. */
  lemma StepObjects(st: DecodeState, line: string, parseF64: string -> Option<F64Bits>)
    requires AllObjects(st.records) && Step(st, line, parseF64).Some?
    ensures AllObjects(Step(st, line, parseF64).value.records)
  {
    var trimmed := Trim(line);
    var kind := Classify(st, line, trimmed);
    if kind == RecordStart {
      StepIsStart(st, line, trimmed, parseF64);
      FlushedObjects(st);
    } else if kind == FieldLine {
      StepIsField(st, line, trimmed, parseF64);
      FieldStepRecords(st, trimmed, parseF64);
    } else {
      StepKeepsRecords(st, line, trimmed, parseF64, kind);
    }
  }

  lemma StepIsStart(st: DecodeState, line: string, trimmed: string, parseF64: string -> Option<F64Bits>)
    requires trimmed == Trim(line) && Classify(st, line, trimmed) == RecordStart
    ensures Step(st, line, parseF64) == Some(StartRecord(st))
  {
  }

  /** Schema, dictionary and ignored lines leave the records alone. */
  lemma StepKeepsRecords(st: DecodeState, line: string, trimmed: string, parseF64: string -> Option<F64Bits>, kind: LineKind)
    requires trimmed == Trim(line) && kind == Classify(st, line, trimmed)
    requires kind != RecordStart && kind != FieldLine
    ensures Step(st, line, parseF64).Some? && Step(st, line, parseF64).value.records == st.records
  {
  }

  /** A field line leaves the records alone. */
  lemma FieldStepRecords(st: DecodeState, trimmed: string, parseF64: string -> Option<F64Bits>)
    requires st.current.Some? && FieldStep(st, trimmed, parseF64).Some?
    ensures FieldStep(st, trimmed, parseF64).value.records == st.records
  {
  }

  // ---------------------------------------------------------------------------
  // The one panic

  /**
   * A line makes the decoder panic only as an indented field line inside a
   * record whose value, trimmed, is the lone token `"`.
   */
  lemma StepPanicsOnlyOnLoneQuote(st: DecodeState, line: string, parseF64: string -> Option<F64Bits>)
    requires Step(st, line, parseF64).None?
    ensures StartsWith(line, "  ") && st.current.Some?
    ensures var split := SplitAtWhitespace(Trim(line));
      split.Some? && Trim(split.value.1) == "\""
  {
    var trimmed := Trim(line);
    StepNoneIsField(st, line, parseF64);
    FieldLineIndented(st, line, trimmed);
    FieldStepPanics(st, trimmed, parseF64);
  }

  lemma StepNoneIsField(st: DecodeState, line: string, parseF64: string -> Option<F64Bits>)
    requires Step(st, line, parseF64).None?
    ensures Classify(st, line, Trim(line)) == FieldLine
    ensures FieldStep(st, Trim(line), parseF64).None?
  {
    var trimmed := Trim(line);
    var kind := Classify(st, line, trimmed);
    if kind == RecordStart {
      StepIsStart(st, line, trimmed, parseF64);
      assert false;
    } else if kind != FieldLine {
      StepKeepsRecords(st, line, trimmed, parseF64, kind);
      assert false;
    }
    StepIsField(st, line, trimmed, parseF64);
  }

  lemma StepIsField(st: DecodeState, line: string, trimmed: string, parseF64: string -> Option<F64Bits>)
    requires trimmed == Trim(line) && Classify(st, line, trimmed) == FieldLine
    ensures Step(st, line, parseF64) == FieldStep(st, trimmed, parseF64)
  {
  }

  lemma FieldLineIndented(st: DecodeState, line: string, trimmed: string)
    requires Classify(st, line, trimmed) == FieldLine
    ensures StartsWith(line, "  ") && st.current.Some?
  {
  }

  /** A field line panics only on the lone token `"`. */
  lemma FieldStepPanics(st: DecodeState, trimmed: string, parseF64: string -> Option<F64Bits>)
    requires st.current.Some? && FieldStep(st, trimmed, parseF64).None?
    ensures var split := SplitAtWhitespace(trimmed);
      split.Some? && Trim(split.value.1) == "\""
  {
    var split := SplitAtWhitespace(trimmed);
    PanicsOnlyOnLoneQuote(Trim(split.value.1), st.dict, parseF64);
  }

  /** Such a line does make it panic. */
  lemma LoneQuoteFieldPanics(st: DecodeState, name: string, parseF64: string -> Option<F64Bits>)
    requires st.current.Some? && name != [] && name[0] != '#' && name[0] != '@'
    requires forall j :: 0 <= j < |name| ==> !IsWhitespace(name[j])
    requires name + " \"" != st.schemaName
    ensures Step(st, "  " + name + " \"", parseF64).None?
  {
    var line := "  " + name + " \"";
    var trimmed := name + " \"";
    TrimIndented(name + " ", '"');
    assert line == "  " + (name + " ") + ['"'];
    assert Trim(line) == trimmed;
    ClassifyIndented(st, line, trimmed);
    LoneQuoteValue(st, name, parseF64);
  }

  /** A line indented by two spaces whose text does not open with `#` or `@` is a field line while a record is open. */
  lemma ClassifyIndented(st: DecodeState, line: string, trimmed: string)
    requires st.current.Some? && trimmed != [] && trimmed[0] != '#' && trimmed[0] != '@'
    requires StartsWith(line, "  ") && trimmed != st.schemaName
    ensures Classify(st, line, trimmed) == FieldLine
  {
    assert !StartsWith(trimmed, "@version") && !StartsWith(trimmed, "@encoding") by {
      assert "@version"[0] == '@' && "@encoding"[0] == '@';
    }
    assert !StartsWith(trimmed, "@schema") && !StartsWith(trimmed, "@dict") by {
      assert "@schema"[0] == '@' && "@dict"[0] == '@';
    }
  }

  /** The field `name` with the value `"` does not parse. */
  lemma LoneQuoteValue(st: DecodeState, name: string, parseF64: string -> Option<F64Bits>)
    requires st.current.Some? && forall j :: 0 <= j < |name| ==> !IsWhitespace(name[j])
    ensures FieldStep(st, name + " \"", parseF64).None?
  {
    var quote := "\"";
    var trimmed := name + " \"";
    SplitNameValue(name, quote);
    assert trimmed == name + " " + quote;
    TrimNoEdges(quote);
    PanicsOnlyOnLoneQuote(quote, st.dict, parseF64);
    FieldStepNone(st, trimmed, quote, parseF64);
  }

  /** A field line whose value does not parse panics. */
  lemma FieldStepNone(st: DecodeState, trimmed: string, value: string, parseF64: string -> Option<F64Bits>)
    requires st.current.Some? && SplitAtWhitespace(trimmed).Some? && SplitAtWhitespace(trimmed).value.1 == value
    requires ParseValue(Trim(value), st.dict, parseF64).None?
    ensures FieldStep(st, trimmed, parseF64).None?
  {
  }

  /** A word, a space and a value split at the space. */
  lemma SplitNameValue(name: string, value: string)
    requires forall j :: 0 <= j < |name| ==> !IsWhitespace(name[j])
    ensures SplitAtWhitespace(name + " " + value) == Some((name, value))
  {
    var t := name + " " + value;
    WordEndAppend(name, ' ', value);
    assert t == name + [' '] + value;
    assert t[..|name|] == name && t[|name| + 1..] == value;
  }

  /** Two spaces of indentation come off, and nothing at the end when it is not whitespace. */
  lemma TrimIndented(body: string, last: char)
    requires body != [] && !IsWhitespace(body[0]) && !IsWhitespace(last)
    ensures Trim("  " + body + [last]) == body + [last]
  {
    var t := body + [last];
    var s := "  " + body + [last];
    assert s == [' '] + ([' '] + t);
    assert s[|s| - 1] == last;
    assert TrimEnd(s) == s;
    TrimStartSpace([' '] + t);
    TrimStartSpace(t);
    assert t[0] == body[0];
    assert TrimStart(t) == t;
  }

  /** A leading space comes off. */
  lemma TrimStartSpace(x: string)
    ensures TrimStart([' '] + x) == TrimStart(x)
  {
    assert ([' '] + x)[1..] == x;
  }

  // ---------------------------------------------------------------------------
  // The empty document

  /** The text an empty array encodes to decodes to an empty array. */
  lemma EmptyDocument(parseF64: string -> Option<F64Bits>)
    ensures DecodedText("@version 1\n", parseF64) == Some(Arr([]))
  {
    var line := "@version 1";
    assert JoinLines([line]) == "@version 1\n";
    LinesOfLines([line]);
    var lines := Lines("@version 1\n");
    assert lines == [line];
    VersionLineIgnored(START, parseF64);
    RunStep(lines, 0, parseF64, START);
  }

  /** The version line changes nothing. */
  lemma VersionLineIgnored(st: DecodeState, parseF64: string -> Option<F64Bits>)
    ensures Step(st, "@version 1", parseF64) == Some(st)
  {
    var line := "@version 1";
    TrimNoEdges(line);
    assert StartsWith(line, "@version");
    assert Classify(st, line, line) == Ignored;
  }
}
