/**
 * TENS-Text tokens (encoder.rs): when a string must be quoted, how
 * `quote_string` escapes it, and the two readers that undo the escapes,
 * the unquoting of `parse_tens_text_value` and the quoted tokens of
 * `parse_dict_line`.
 *
 * `s.parse::<f64>()` is Rust's float parser, a library routine outside
 * this model: it is the parameter `parseF64`, giving the bit pattern of the
 * parsed float or `None` when the text is not a float literal.
 */
module TextQuoting {
  import opened Base
  import opened Float64
  import opened Canonical
  import opened Decimal

  /** The characters `needs_quoting` singles out besides whitespace. */
  predicate SpecialChar(c: char)
  {
    c == '"' || c == '\\' || c == '|' || c == '>' || c == ',' || c == '='
    || c == '{' || c == '}' || c == '[' || c == ']' || c == '@' || c == '#'
  }

  /**
   * `needs_quoting`: the empty string, `_`, `true`, `false`, a `@` or `#`
   * followed by a `u32`, anything that parses as a float, and anything
   * holding whitespace or a special character.
   */
  function NeedsQuoting(s: string, parseF64: string -> Option<F64Bits>): (r: bool)
    ensures s == "" || s == "_" || s == "true" || s == "false" ==> r
    ensures !r ==> s != [] && parseF64(s).None?
    ensures !r ==> forall i :: 0 <= i < |s| ==> !IsWhitespace(s[i]) && !SpecialChar(s[i])
  {
    if s == [] then true
    else if s == "_" || s == "true" || s == "false" then true
    else if (s[0] == '@' || s[0] == '#') && ParseUnsigned(s[1..], U32_LIMIT).Some? then true
    else if parseF64(s).Some? then true
    else exists i :: 0 <= i < |s| && (IsWhitespace(s[i]) || SpecialChar(s[i]))
  }

  // ---------------------------------------------------------------------------
  // Quoting

  /** The text `quote_string` writes for one character. */
  function EscapeChar(c: char): string
  {
    if c == '"' then "\\\""
    else if c == '\\' then "\\\\"
    else if c == '\n' then "\\n"
    else if c == '\r' then "\\r"
    else if c == '\t' then "\\t"
    else [c]
  }

  /** The characters of `s`, each escaped. */
  function Escape(s: string): string
  {
    if s == [] then [] else Escape(s[..|s| - 1]) + EscapeChar(s[|s| - 1])
  }

  /** What `quote_string` returns: `s` escaped, between double quotes. */
  function Quote(s: string): string
  {
    "\"" + Escape(s) + "\""
  }

  /** `quote_string`. */
  method QuoteString(s: string) returns (out: string)
    ensures out == Quote(s)
  {
    out := "\"";
    for i := 0 to |s|
      invariant out == "\"" + Escape(s[..i])
    {
      assert s[..i + 1][..i] == s[..i];
      assert Escape(s[..i + 1]) == Escape(s[..i]) + EscapeChar(s[i]);
      match s[i]
      case '"' => out := out + "\\\"";
      case '\\' => out := out + "\\\\";
      case '\n' => out := out + "\\n";
      case '\r' => out := out + "\\r";
      case '\t' => out := out + "\\t";
      case c => out := out + [c];
    }
    assert s[..|s|] == s;
    out := out + "\"";
  }

  // ---------------------------------------------------------------------------
  // Unquoting

  /** The character an escape `\c` stands for: `n`, `r` and `t` name control characters, anything else itself. */
  function Unescaped(c: char): char
  {
    if c == 'n' then '\n' else if c == 'r' then '\r' else if c == 't' then '\t' else c
  }

  /**
   * The unescaping loop of `parse_tens_text_value`, over the text between
   * the quotes: each `\c` becomes `Unescaped(c)`, a `\` at the very end is
   * dropped, every other character is kept.
   */
  function Unescape(t: string): string
  {
    if t == [] then []
    else if t[0] == '\\' then (if |t| == 1 then [] else [Unescaped(t[1])] + Unescape(t[2..]))
    else [t[0]] + Unescape(t[1..])
  }

  /** The unescaping loop, as the source runs it over the characters. */
  method UnescapeLoop(t: string) returns (result: string)
    ensures result == Unescape(t)
  {
    result := [];
    var i := 0;
    while i < |t|
      invariant i <= |t|
      invariant result + Unescape(t[i..]) == Unescape(t)
    {
      if t[i] == '\\' {
        if i + 1 == |t| {
          assert Unescape(t[i..]) == [];
          i := |t|;
        } else {
          UnescapePair(t, i, result);
          result := result + [Unescaped(t[i + 1])];
          i := i + 2;
        }
      } else {
        UnescapeSingle(t, i, result);
        result := result + [t[i]];
        i := i + 1;
      }
    }
    assert t[i..] == [];
  }

  /** An escape `\c` at index `i` gives one character and the loop goes on two characters later. */
  lemma UnescapePair(t: string, i: nat, acc: string)
    requires i + 1 < |t| && t[i] == '\\'
    ensures acc + Unescape(t[i..]) == (acc + [Unescaped(t[i + 1])]) + Unescape(t[i + 2..])
  {
    assert t[i..][2..] == t[i + 2..];
  }

  /** Any other character at index `i` is kept and the loop goes on at the next one. */
  lemma UnescapeSingle(t: string, i: nat, acc: string)
    requires i < |t| && t[i] != '\\'
    ensures acc + Unescape(t[i..]) == (acc + [t[i]]) + Unescape(t[i + 1..])
  {
    assert t[i..][1..] == t[i + 1..];
  }

  /**
   * The text of a quoted `@dict` token, read after its opening quote: like
   * `Unescape`, but an unescaped `"` ends the token.
   */
  function TokenText(t: string): string
  {
    if t == [] then []
    else if t[0] == '\\' then (if |t| == 1 then [] else [Unescaped(t[1])] + TokenText(t[2..]))
    else if t[0] == '"' then []
    else [t[0]] + TokenText(t[1..])
  }

  /** How many characters the quoted token reads after its opening quote, the closing quote included. */
  function TokenLength(t: string): (n: nat)
    ensures n <= |t|
  {
    if t == [] then 0
    else if t[0] == '\\' then (if |t| == 1 then 1 else 2 + TokenLength(t[2..]))
    else if t[0] == '"' then 1
    else 1 + TokenLength(t[1..])
  }

  // ---------------------------------------------------------------------------
  // Unquoting undoes quoting

  /** Escaping works character by character from the front too. */
  lemma {:induction false} EscapeCons(c: char, s: string)
    ensures Escape([c] + s) == EscapeChar(c) + Escape(s)
    decreases |s|
  {
    if s == [] {
      assert [c] + s == [c] && [c][..0] == [];
    } else {
      var t, u := [c] + s, s[..|s| - 1];
      assert t[..|t| - 1] == [c] + u;
      assert t[|t| - 1] == s[|s| - 1];
      EscapeCons(c, u);
      calc {
        Escape(t);
        Escape([c] + u) + EscapeChar(s[|s| - 1]);
        EscapeChar(c) + Escape(u) + EscapeChar(s[|s| - 1]);
        EscapeChar(c) + (Escape(u) + EscapeChar(s[|s| - 1]));
      }
    }
  }

  /** Unescaping undoes escaping, whatever follows. */
  lemma {:induction false} UnescapeEscape(s: string)
    ensures Unescape(Escape(s)) == s
    decreases |s|
  {
    if s != [] {
      EscapeCons(s[0], s[1..]);
      assert [s[0]] + s[1..] == s;
      UnescapeEscape(s[1..]);
      UnescapeChar(s[0], Escape(s[1..]));
    }
  }

  lemma UnescapeChar(c: char, rest: string)
    ensures Unescape(EscapeChar(c) + rest) == [c] + Unescape(rest)
  {
    var t := EscapeChar(c) + rest;
    if c == '"' || c == '\\' || c == '\n' || c == '\r' || c == '\t' {
      assert t[0] == '\\' && t[2..] == rest;
    } else {
      assert t[0] == c && t[1..] == rest;
    }
  }

  /** A quoted `@dict` token reads back the string that was quoted, and ends after its closing quote. */
  lemma TokenEscape(s: string, rest: string)
    ensures TokenText(Escape(s) + "\"" + rest) == s
    ensures TokenLength(Escape(s) + "\"" + rest) == |Escape(s)| + 1
  {
    TokenTextEscape(s, rest);
    TokenLengthEscape(s, rest);
  }

  lemma {:induction false} TokenTextEscape(s: string, rest: string)
    ensures TokenText(Escape(s) + "\"" + rest) == s
    decreases |s|
  {
    if s == [] {
      assert Escape(s) + "\"" + rest == "\"" + rest;
    } else {
      var e := Escape(s[1..]) + "\"" + rest;
      EscapeCons(s[0], s[1..]);
      assert [s[0]] + s[1..] == s;
      assert Escape(s) + "\"" + rest == EscapeChar(s[0]) + e;
      TokenTextEscape(s[1..], rest);
      TokenChar(s[0], e);
    }
  }

  lemma {:induction false} TokenLengthEscape(s: string, rest: string)
    ensures TokenLength(Escape(s) + "\"" + rest) == |Escape(s)| + 1
    decreases |s|
  {
    if s == [] {
      assert Escape(s) + "\"" + rest == "\"" + rest;
    } else {
      var e := Escape(s[1..]) + "\"" + rest;
      EscapeCons(s[0], s[1..]);
      assert [s[0]] + s[1..] == s;
      assert Escape(s) + "\"" + rest == EscapeChar(s[0]) + e;
      TokenLengthEscape(s[1..], rest);
      TokenChar(s[0], e);
    }
  }

  lemma TokenChar(c: char, rest: string)
    ensures TokenText(EscapeChar(c) + rest) == [c] + TokenText(rest)
    ensures TokenLength(EscapeChar(c) + rest) == |EscapeChar(c)| + TokenLength(rest)
  {
    var t := EscapeChar(c) + rest;
    if c == '"' || c == '\\' || c == '\n' || c == '\r' || c == '\t' {
      assert t[0] == '\\' && t[2..] == rest;
    } else {
      assert t[0] == c && t[1..] == rest;
    }
  }

  /** `quote_string` writes no line break: every newline and carriage return is escaped. */
  lemma {:induction false} EscapeNoLineBreak(s: string)
    ensures '\n' !in Escape(s) && '\r' !in Escape(s)
  {
    if s != [] {
      var p, c := s[..|s| - 1], s[|s| - 1];
      EscapeNoLineBreak(p);
      assert Escape(s) == Escape(p) + EscapeChar(c);
      assert '\n' !in EscapeChar(c) && '\r' !in EscapeChar(c);
    }
  }

  /** Text without a backslash is its own unescaping. */
  lemma {:induction false} UnescapeNoBackslash(t: string)
    requires '\\' !in t
    ensures Unescape(t) == t
  {
    if t != [] {
      assert t[0] in t && forall c :: c in t[1..] ==> c in t;
      UnescapeNoBackslash(t[1..]);
    }
  }

  /** The quoted form of `s`: starts and ends with a quote, and is at least two characters long. */
  lemma QuoteShape(s: string)
    ensures |Quote(s)| >= 2 && Quote(s)[0] == '"' && Quote(s)[|Quote(s)| - 1] == '"'
    ensures Quote(s)[1..|Quote(s)| - 1] == Escape(s)
  {
  }
}
