/**
 * The `@dict` line `encode_tens_text` writes is read back by
 * `parse_dict_line` as exactly the entries it was written from, whatever
 * they hold: a quoted entry reads back through its escapes, a bare one runs
 * to the next space.
 */
module TextRoundTrip {
  import opened Base
  import opened Float64
  import opened Canonical
  import opened TextQuoting
  import opened TextLines
  import opened TextEncoder
  import opened TextDecoder

  // ---------------------------------------------------------------------------
  // Reading depends only on what lies ahead

  /** Equal suffixes stay equal as both positions move on together. */
  lemma SuffixDrop(s: string, i: nat, t: string, j: nat, n: nat)
    requires i + n <= |s| && j <= |t| && s[i..] == t[j..]
    ensures j + n <= |t| && s[i + n..] == t[j + n..]
    ensures n < |s| - i ==> s[i + n] == t[j + n]
  {
    assert s[i + n..] == s[i..][n..];
    assert t[j + n..] == t[j..][n..];
    if n < |s| - i {
      assert s[i..][n] == s[i + n];
      assert t[j..][n] == t[j + n];
    }
  }

  lemma {:induction false} SkipSuffix(s: string, i: nat, t: string, j: nat)
    requires i <= |s| && j <= |t| && s[i..] == t[j..]
    ensures SkipFrom(s, i) - i == SkipFrom(t, j) - j
    decreases |s| - i
  {
    if i < |s| {
      SuffixDrop(s, i, t, j, 0);
      if IsWhitespace(s[i]) {
        SuffixDrop(s, i, t, j, 1);
        SkipSuffix(s, i + 1, t, j + 1);
      }
    }
  }

  /** The index-based word end is the word end of the suffix. */
  lemma {:induction false} WordEndSlice(s: string, i: nat)
    requires i <= |s|
    ensures WordEndFrom(s, i) == i + WordEnd(s[i..])
    decreases |s| - i
  {
    if i < |s| {
      assert s[i..][0] == s[i];
      if !IsWhitespace(s[i]) {
        WordEndSlice(s, i + 1);
        assert s[i..][1..] == s[i + 1..];
      }
    }
  }

  /** The index-based quoted token is the token read from the suffix. */
  lemma {:induction false} QuotedSlice(s: string, i: nat)
    requires i <= |s|
    ensures QuotedFrom(s, i) == TokenText(s[i..])
    ensures QuotedEnd(s, i) == i + TokenLength(s[i..])
    decreases |s| - i
  {
    if i < |s| {
      var t := s[i..];
      assert t[0] == s[i];
      if s[i] == '\\' {
        if i + 1 < |s| {
          QuotedSlice(s, i + 2);
          assert t[1] == s[i + 1];
          assert t[2..] == s[i + 2..];
        }
      } else if s[i] != '"' {
        QuotedSlice(s, i + 1);
        assert t[1..] == s[i + 1..];
      }
    }
  }

  /** The token at a position depends only on the text from there on. */
  lemma TokenSuffix(s: string, k: nat, t: string, m: nat)
    requires k < |s| && m <= |t| && s[k..] == t[m..] && !IsWhitespace(s[k])
    ensures m < |t| && s[k] == t[m] && !IsWhitespace(t[m])
    ensures TokenAt(s, k) == TokenAt(t, m)
    ensures TokenEndAt(s, k) - k == TokenEndAt(t, m) - m
  {
    SuffixDrop(s, k, t, m, 0);
    if s[k] == '"' {
      SuffixDrop(s, k, t, m, 1);
      QuotedSlice(s, k + 1);
      QuotedSlice(t, m + 1);
    } else {
      WordEndSlice(s, k);
      WordEndSlice(t, m);
      var n := WordEnd(s[k..]);
      assert s[k..WordEndFrom(s, k)] == s[k..][..n];
      assert t[m..WordEndFrom(t, m)] == t[m..][..n];
    }
  }

  /** The entries read from a position depend only on the text from there on. */
  lemma {:induction false} TokensSuffix(s: string, i: nat, t: string, j: nat)
    requires i <= |s| && j <= |t| && s[i..] == t[j..]
    ensures TokensFrom(s, i) == TokensFrom(t, j)
    decreases |s| - i
  {
    var k := SkipFrom(s, i);
    var m := SkipFrom(t, j);
    SkipSuffix(s, i, t, j);
    SuffixDrop(s, i, t, j, k - i);
    if k < |s| {
      TokenSuffix(s, k, t, m);
      var e := TokenEndAt(s, k);
      SuffixDrop(s, k, t, m, e - k);
      TokensSuffix(s, e, t, TokenEndAt(t, m));
    }
  }

  // ---------------------------------------------------------------------------
  // One written entry reads back

  /** A written token is not empty and has no whitespace at either end. */
  lemma TokenEdges(entry: string, parseF64: string -> Option<F64Bits>)
    ensures var tok := DictToken(entry, parseF64);
      tok != [] && !IsWhitespace(tok[0]) && !IsWhitespace(tok[|tok| - 1])
  {
    if NeedsQuoting(entry, parseF64) {
      QuoteShape(entry);
    }
  }

  /** The token written for `entry`, read from its first character, gives `entry` back and ends where it was written to. */
  lemma TokenRead(entry: string, rest: string, parseF64: string -> Option<F64Bits>)
    requires rest == [] || rest[0] == ' '
    ensures var s := " " + DictToken(entry, parseF64) + rest;
      && 1 < |s| && !IsWhitespace(s[1])
      && TokenAt(s, 1) == entry
      && TokenEndAt(s, 1) == 1 + |DictToken(entry, parseF64)|
  {
    TokenEdges(entry, parseF64);
    if NeedsQuoting(entry, parseF64) {
      QuotedRead(entry, rest);
    } else {
      BareRead(entry, rest, parseF64);
    }
  }

  /** A quoted entry reads back through its escapes and ends after its closing quote. */
  lemma QuotedRead(entry: string, rest: string)
    ensures var s := " " + Quote(entry) + rest;
      && 1 < |s| && s[1] == '"'
      && QuotedFrom(s, 2) == entry
      && QuotedEnd(s, 2) == 1 + |Quote(entry)|
  {
    var quote := "\"";
    var s := " " + Quote(entry) + rest;
    assert Quote(entry) == quote + Escape(entry) + quote;
    assert s[2..] == Escape(entry) + quote + rest;
    QuotedSlice(s, 2);
    TokenEscape(entry, rest);
  }

  /** An entry written bare runs to the next space or to the end. */
  lemma BareRead(entry: string, rest: string, parseF64: string -> Option<F64Bits>)
    requires !NeedsQuoting(entry, parseF64) && (rest == [] || rest[0] == ' ')
    ensures var s := " " + entry + rest;
      && 1 < |s| && s[1] != '"'
      && s[1..WordEndFrom(s, 1)] == entry
      && WordEndFrom(s, 1) == 1 + |entry|
  {
    var s := " " + entry + rest;
    assert s[1] == entry[0];
    WordEndSlice(s, 1);
    if rest == [] {
      assert s[1..] == entry;
      WordEndNoWhitespace(entry);
    } else {
      assert s[1..] == entry + [' '] + rest[1..];
      WordEndAppend(entry, ' ', rest[1..]);
    }
    assert s[1..1 + |entry|] == entry;
  }

  /** An entry written after a space reads back, and reading goes on where it ends. */
  lemma TokensCons(entry: string, rest: string, parseF64: string -> Option<F64Bits>)
    requires rest == [] || rest[0] == ' '
    ensures TokensFrom(" " + DictToken(entry, parseF64) + rest, 0) == [entry] + TokensFrom(rest, 0)
  {
    var tok := DictToken(entry, parseF64);
    var s := " " + tok + rest;
    TokenRead(entry, rest, parseF64);
    assert IsWhitespace(s[0]);
    assert SkipFrom(s, 1) == 1;
    assert SkipFrom(s, 0) == 1;
    assert s[1 + |tok|..] == rest[0..];
    TokensSuffix(s, 1 + |tok|, rest, 0);
  }

  // ---------------------------------------------------------------------------
  // The whole line

  /** The entries, each written after a space, front to back. */
  function SpacedTokens(entries: seq<string>, parseF64: string -> Option<F64Bits>): string
  {
    if entries == [] then [] else " " + DictToken(entries[0], parseF64) + SpacedTokens(entries[1..], parseF64)
  }

  lemma {:induction false} SpacedAppend(entries: seq<string>, x: string, parseF64: string -> Option<F64Bits>)
    ensures SpacedTokens(entries + [x], parseF64) == SpacedTokens(entries, parseF64) + " " + DictToken(x, parseF64)
  {
    if entries != [] {
      assert (entries + [x])[1..] == entries[1..] + [x];
      SpacedAppend(entries[1..], x, parseF64);
    } else {
      assert [x][1..] == [];
    }
  }

  /** The encoder's left-to-right join is the front-to-back one. */
  lemma {:induction false} DictTokensSpaced(dict: seq<string>, parseF64: string -> Option<F64Bits>, k: nat)
    requires k <= |dict|
    ensures DictTokens(dict, parseF64, k) == SpacedTokens(dict[..k], parseF64)
  {
    if k > 0 {
      DictTokensSpaced(dict, parseF64, k - 1);
      assert dict[..k] == dict[..k - 1] + [dict[k - 1]];
      SpacedAppend(dict[..k - 1], dict[k - 1], parseF64);
    }
  }

  /** Every written entry reads back, in order. */
  lemma {:induction false} SpacedRoundTrip(entries: seq<string>, parseF64: string -> Option<F64Bits>)
    ensures TokensFrom(SpacedTokens(entries, parseF64), 0) == entries
  {
    if entries != [] {
      var rest := SpacedTokens(entries[1..], parseF64);
      assert SpacedTokens(entries, parseF64) == " " + DictToken(entries[0], parseF64) + rest;
      SpacedRoundTrip(entries[1..], parseF64);
      TokensCons(entries[0], rest, parseF64);
    }
  }

  /** Written entries open with a space before a token, and end in a token. */
  lemma {:induction false} SpacedEdges(entries: seq<string>, parseF64: string -> Option<F64Bits>)
    requires entries != []
    ensures var sp := SpacedTokens(entries, parseF64);
      |sp| >= 2 && sp[0] == ' ' && !IsWhitespace(sp[1]) && !IsWhitespace(sp[|sp| - 1])
  {
    var tok := DictToken(entries[0], parseF64);
    TokenEdges(entries[0], parseF64);
    if entries[1..] != [] {
      SpacedEdges(entries[1..], parseF64);
    }
  }

  /** Trimming the written entries drops the leading space only. */
  lemma SpacedTrim(entries: seq<string>, parseF64: string -> Option<F64Bits>)
    requires entries != []
    ensures Trim(SpacedTokens(entries, parseF64)) == SpacedTokens(entries, parseF64)[1..]
  {
    var sp := SpacedTokens(entries, parseF64);
    SpacedEdges(entries, parseF64);
    assert TrimEnd(sp) == sp;
    assert TrimStart(sp[1..]) == sp[1..];
  }

  /** The `@dict` line of a non-empty dictionary reads back as that dictionary, in its order. */
  lemma DictLineRoundTrip(dict: seq<string>, parseF64: string -> Option<F64Bits>)
    requires dict != []
    ensures DictOf("@dict" + DictTokens(dict, parseF64, |dict|)) == dict
  {
    var sp := DictTokens(dict, parseF64, |dict|);
    var line := "@dict" + sp;
    DictTokensSpaced(dict, parseF64, |dict|);
    assert dict[..|dict|] == dict;
    assert line[..5] == "@dict" && line[5..] == sp;
    SpacedTrim(dict, parseF64);
    SpacedEdges(dict, parseF64);
    TokensSuffix(sp[1..], 0, sp, 1);
    assert SkipFrom(sp, 0) == SkipFrom(sp, 1);
    SpacedRoundTrip(dict, parseF64);
  }

  /** The decoder, reading the `@dict` line the encoder wrote, takes up exactly the dictionary written. */
  lemma DictLineStep(st: DecodeState, dict: seq<string>, parseF64: string -> Option<F64Bits>)
    requires dict != []
    ensures Step(st, "@dict" + DictTokens(dict, parseF64, |dict|), parseF64) == Some(st.(dict := dict))
  {
    var line := "@dict" + DictTokens(dict, parseF64, |dict|);
    DictLineShape(dict, parseF64);
    DictLineRoundTrip(dict, parseF64);
    DictLineClass(st, line);
    StepIsDict(st, line, parseF64);
  }

  /** The written `@dict` line has no whitespace to trim. */
  lemma DictLineShape(dict: seq<string>, parseF64: string -> Option<F64Bits>)
    requires dict != []
    ensures var line := "@dict" + DictTokens(dict, parseF64, |dict|);
      |line| >= 5 && line[..5] == "@dict" && Trim(line) == line
  {
    var sp := DictTokens(dict, parseF64, |dict|);
    var line := "@dict" + sp;
    DictTokensSpaced(dict, parseF64, |dict|);
    assert dict[..|dict|] == dict;
    SpacedEdges(dict, parseF64);
    assert line[|line| - 1] == sp[|sp| - 1];
    TrimNoEdges(line);
  }

  lemma StepIsDict(st: DecodeState, line: string, parseF64: string -> Option<F64Bits>)
    requires Trim(line) == line && Classify(st, line, line) == DictLine
    ensures Step(st, line, parseF64) == Some(st.(dict := DictOf(line)))
  {
  }

  /** A line opening with `@dict` is a dictionary line. */
  lemma DictLineClass(st: DecodeState, line: string)
    requires |line| >= 5 && line[..5] == "@dict" && Trim(line) == line
    ensures Classify(st, line, line) == DictLine
  {
    var version, encoding, schema := "@version", "@encoding", "@schema";
    assert line[1] == 'd';
    assert !StartsWith(line, version) by { assert version[1] == 'v'; }
    assert !StartsWith(line, encoding) by { assert encoding[1] == 'e'; }
    assert !StartsWith(line, schema) by { assert schema[1] == 's'; }
  }
}
