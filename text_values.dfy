/**
 * TENS-Text field values (encoder.rs): the type label `infer_type` gives a
 * value, the token `format_tens_text_value` writes for it, and the value
 * `parse_tens_text_value` reads back from a token.
 *
 * Three routines of other libraries are parameters, gathered in `Foreign`:
 * Rust's float parser (`parseF64`), its float formatting `format!("{}", f)`
 * (`display`) and `serde_json::to_string` (`toJson`).
 */
module TextValues {
  import opened Base
  import opened Float64
  import opened Values
  import opened Decimal
  import opened TextQuoting
  import opened BinaryFormat

  datatype Foreign = Foreign(
    parseF64: string -> Option<F64Bits>,
    display: F64Bits -> string,
    toJson: Value -> string)

  /** Rust's float parser accepts every decimal integer literal that `parse::<i64>` accepts. */
  ghost predicate FloatParserAcceptsIntegers(parseF64: string -> Option<F64Bits>)
  {
    forall t :: ParseI64(t).Some? ==> parseF64(t).Some?
  }

  /** `infer_type`: the label of a field's type; only an array is labelled as repeated. */
  function InferType(v: Value): (kind: string)
    ensures kind == "str[]" <==> v.Arr?
    ensures kind == "num" <==> v.Int? || v.Float?
    ensures kind == "str" <==> v.Str? || v.Obj?
  {
    match v
    case Null => "null"
    case Bool(_) => "bool"
    case Int(_) => "num"
    case Float(_) => "num"
    case Str(_) => "str"
    case Arr(_) => "str[]"
    case Obj(_) => "str"
  }

  /** The float branch of `format_tens_text_value`. */
  function FloatText(f: F64Bits, display: F64Bits -> string): string
  {
    if IsNaN(f) then "\"NaN\""
    else if IsInfinite(f) then (if !Negative(f) then "\"Infinity\"" else "\"-Infinity\"")
    else if f == NEG_ZERO then "-0"
    else display(f)
  }

  /**
   * `format_tens_text_value`. `dict` is the sorted `@dict` list; the
   * source's `dict_map` sends each of its strings to its index.
   */
  function FormatValue(v: Value, dict: seq<string>, lib: Foreign): string
  {
    match v
    case Null => "_"
    case Bool(b) => if b then "true" else "false"
    case Int(i) => if i < TWO_63 then IntString(i) else FloatText(IntToF64(i), lib.display)
    case Float(f) => FloatText(f, lib.display)
    case Str(s) =>
      if s in dict then "@" + DecimalString(Position(dict, s))
      else if NeedsQuoting(s, lib.parseF64) then Quote(s)
      else s
    case Arr(_) => Quote(lib.toJson(v))
    case Obj(_) => Quote(lib.toJson(v))
  }

  /**
   * `parse_tens_text_value`; `None` is the panic of the slice
   * `s[1..s.len() - 1]` on the one-character token `"`.
   */
  function ParseValue(raw: string, dict: seq<string>, parseF64: string -> Option<F64Bits>): (r: Option<Value>)
  {
    if raw == "_" then Some(Null)
    else if raw == "true" then Some(Bool(true))
    else if raw == "false" then Some(Bool(false))
    else if raw != [] && raw[0] == '@' then
      match ParseUnsigned(raw[1..], USIZE_LIMIT)
      case Some(idx) => if idx < |dict| then Some(Str(dict[idx])) else Some(Str(raw))
      case None => Some(Str(raw))
    else if raw != [] && raw[0] == '"' && raw[|raw| - 1] == '"' then
      if |raw| < 2 then None else Some(Str(Unescape(raw[1..|raw| - 1])))
    else
      match ParseI64(raw)
      case Some(i) => Some(Int(i))
      case None =>
        match parseF64(raw)
        case Some(f) => Some(FromF64(f))
        case None => Some(Str(raw))
  }

  /** `parse_tens_text_value`, running the unescaping loop. */
  method ParseTextValue(raw: string, dict: seq<string>, parseF64: string -> Option<F64Bits>) returns (r: Option<Value>)
    ensures r == ParseValue(raw, dict, parseF64)
  {
    if raw == "_" {
      r := Some(Null);
    } else if raw == "true" {
      r := Some(Bool(true));
    } else if raw == "false" {
      r := Some(Bool(false));
    } else if raw != [] && raw[0] == '@' {
      var idx := ParseUnsigned(raw[1..], USIZE_LIMIT);
      if idx.Some? && idx.value < |dict| {
        r := Some(Str(dict[idx.value]));
      } else {
        r := Some(Str(raw));
      }
    } else if raw != [] && raw[0] == '"' && raw[|raw| - 1] == '"' {
      if |raw| < 2 {
        r := None;
      } else {
        var s := UnescapeLoop(raw[1..|raw| - 1]);
        r := Some(Str(s));
      }
    } else {
      var i := ParseI64(raw);
      if i.Some? {
        r := Some(Int(i.value));
      } else {
        var f := parseF64(raw);
        r := if f.Some? then Some(FromF64(f.value)) else Some(Str(raw));
      }
    }
  }

  // ---------------------------------------------------------------------------
  // Reading back what was written

  /**
   * A null, a boolean, an `i64` or a string reads back as itself: a
   * dictionary string through its `@` index, a string that needs quoting
   * through its escapes, any other string as it is.
   */
  lemma FormatParseRoundTrip(v: Value, dict: seq<string>, lib: Foreign)
    requires v.Null? || v.Bool? || (v.Int? && v.i < TWO_63) || v.Str?
    requires |dict| <= USIZE_LIMIT && FloatParserAcceptsIntegers(lib.parseF64)
    ensures ParseValue(FormatValue(v, dict, lib), dict, lib.parseF64) == Some(v)
  {
    match v
    case Int(i) =>
      IntStringStart(i);
      ParseI64IntString(i);
    case Str(s) =>
      if s in dict {
        var raw := "@" + DecimalString(Position(dict, s));
        assert raw[1..] == DecimalString(Position(dict, s));
        ParseUnsignedDecimal(Position(dict, s), USIZE_LIMIT);
        DecimalStringDigits(Position(dict, s));
        assert raw != "_" && raw != "true" && raw != "false";
      } else if NeedsQuoting(s, lib.parseF64) {
        QuotedReadsBack(s, dict, lib.parseF64);
      } else {
        assert !SpecialChar(s[0]);
        assert ParseI64(s).Some? ==> lib.parseF64(s).Some?;
      }
    case _ =>
  }

  /** Non-finite floats are written as quoted words, which read back as strings, not numbers. */
  lemma NonFiniteReadsAsString(f: F64Bits, dict: seq<string>, lib: Foreign)
    requires !IsFinite(f)
    ensures ParseValue(FormatValue(Float(f), dict, lib), dict, lib.parseF64)
         == Some(Str(if IsNaN(f) then "NaN" else if Negative(f) then "-Infinity" else "Infinity"))
  {
    var word := if IsNaN(f) then "NaN" else if Negative(f) then "-Infinity" else "Infinity";
    NonFiniteQuoted(f, lib.display, word);
    assert FormatValue(Float(f), dict, lib) == FloatText(f, lib.display);
    WordReadsBack(word, dict, lib.parseF64);
  }

  lemma NonFiniteQuoted(f: F64Bits, display: F64Bits -> string, word: string)
    requires !IsFinite(f)
    requires word == if IsNaN(f) then "NaN" else if Negative(f) then "-Infinity" else "Infinity"
    ensures FloatText(f, display) == "\"" + word + "\"" && '\\' !in word
  {
    var quote := "\"";
    if IsNaN(f) {
      assert "\"NaN\"" == quote + "NaN" + quote;
    } else if Negative(f) {
      assert "\"-Infinity\"" == quote + "-Infinity" + quote;
    } else {
      assert "\"Infinity\"" == quote + "Infinity" + quote;
    }
  }

  /** A word without backslashes, between quotes, reads back as the word. */
  lemma WordReadsBack(w: string, dict: seq<string>, parseF64: string -> Option<F64Bits>)
    requires '\\' !in w
    ensures ParseValue("\"" + w + "\"", dict, parseF64) == Some(Str(w))
  {
    var raw := "\"" + w + "\"";
    assert raw[1..|raw| - 1] == w;
    UnescapeNoBackslash(w);
    assert raw != "_" && raw != "true" && raw != "false";
  }

  /** A quoted token reads back as the string that was quoted. */
  lemma QuotedReadsBack(w: string, dict: seq<string>, parseF64: string -> Option<F64Bits>)
    ensures ParseValue(Quote(w), dict, parseF64) == Some(Str(w))
  {
    QuoteShape(w);
    UnescapeEscape(w);
    assert Quote(w) != "_" && Quote(w) != "true" && Quote(w) != "false";
  }

  /** Negative zero is written as `-0`, which reads back as the integer 0. */
  lemma NegativeZeroReadsAsZero(dict: seq<string>, lib: Foreign)
    ensures ParseValue(FormatValue(Float(NEG_ZERO), dict, lib), dict, lib.parseF64) == Some(Int(0))
  {
    assert NEG_ZERO / TWO_52 == 2048;
    assert Exponent(NEG_ZERO) == 0;
    var raw := FormatValue(Float(NEG_ZERO), dict, lib);
    assert raw == "-0";
    assert raw[1..] == "0" && AllDigits("0") && DigitsValue("0") == 0;
  }

  /** An array or object at field level is written as its quoted JSON, which reads back as that JSON string. */
  lemma ContainerReadsAsJson(v: Value, dict: seq<string>, lib: Foreign)
    requires v.Arr? || v.Obj?
    ensures ParseValue(FormatValue(v, dict, lib), dict, lib.parseF64) == Some(Str(lib.toJson(v)))
  {
    QuotedReadsBack(lib.toJson(v), dict, lib.parseF64);
  }

  /**
   * The one-character token `"` starts and ends with a quote, and slicing
   * between them panics; every other token gives a value.
   */
  lemma PanicsOnlyOnLoneQuote(raw: string, dict: seq<string>, parseF64: string -> Option<F64Bits>)
    ensures ParseValue(raw, dict, parseF64).None? <==> raw == "\""
  {
    if raw != [] && raw[0] == '"' && |raw| < 2 {
      assert raw == [raw[0]];
    }
  }

  /** An `@` index past the dictionary, or not a number, is kept as the literal token. */
  lemma DictRefFallback(raw: string, dict: seq<string>, parseF64: string -> Option<F64Bits>)
    requires raw != [] && raw[0] == '@'
    requires ParseUnsigned(raw[1..], USIZE_LIMIT).None? || ParseUnsigned(raw[1..], USIZE_LIMIT).value >= |dict|
    ensures ParseValue(raw, dict, parseF64) == Some(Str(raw))
  {
  }
}
