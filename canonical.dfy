/**
 * `canonicalize` (encoder.rs): the normal form every value is brought to
 * before it is encoded. Objects come out with their keys in ascending
 * order, arrays keep their length and order, NaN and the infinities become
 * null, negative zero becomes the integer 0, and every string is NFKC
 * normalised and loses the trailing whitespace of each of its lines.
 *
 * NFKC normalisation (Unicode Standard Annex #15) is a foreign library: it
 * is the parameter `nfkc`. The line handling is Rust's `str::lines` and
 * `str::trim_end`, written out here.
 */
module Canonical {
  import opened Base
  import opened Float64
  import opened Values

  // ---------------------------------------------------------------------------
  // Strings

  /** `char::is_whitespace`: the Unicode White_Space property. */
  predicate IsWhitespace(c: char)
  {
    ('\U{0009}' <= c <= '\U{000D}') || c == ' ' || c == '\U{0085}' || c == '\U{00A0}'
    || c == '\U{1680}' || ('\U{2000}' <= c <= '\U{200A}') || c == '\U{2028}' || c == '\U{2029}'
    || c == '\U{202F}' || c == '\U{205F}' || c == '\U{3000}'
  }

  /** `str::trim_end`: the longest prefix of `s` that does not end in whitespace. */
  function TrimEnd(s: string): (r: string)
    ensures r <= s
    ensures r == [] || !IsWhitespace(r[|r| - 1])
    ensures forall i :: |r| <= i < |s| ==> IsWhitespace(s[i])
  {
    if s != [] && IsWhitespace(s[|s| - 1]) then TrimEnd(s[..|s| - 1]) else s
  }

  /** The index of the first `c` in `s`, or `|s|` when there is none. */
  function IndexOf(s: string, c: char): (i: nat)
    ensures i <= |s|
    ensures i < |s| ==> s[i] == c
  {
    if s == [] then 0 else if s[0] == c then 0 else 1 + IndexOf(s[1..], c)
  }

  /** `IndexOf` finds the first occurrence. */
  lemma {:induction false} IndexOfFirst(s: string, c: char)
    ensures c !in s[..IndexOf(s, c)]
  {
    if s != [] && s[0] != c {
      IndexOfFirst(s[1..], c);
      assert s[..IndexOf(s, c)] == [s[0]] + s[1..][..IndexOf(s[1..], c)];
    }
  }

  /**
   * The line that `str::lines` cuts off the front of `s` at its first
   * newline: the text before the `\n`, without one `\r` just before it.
   */
  function FirstLine(s: string): (line: string)
    requires IndexOf(s, '\n') < |s|
    ensures line <= s[..IndexOf(s, '\n')]
  {
    var line := s[..IndexOf(s, '\n')];
    if line != [] && line[|line| - 1] == '\r' then line[..|line| - 1] else line
  }

  /**
   * The string branch of `canonicalize`, after NFKC:
   * `s.lines().map(|line| line.trim_end()).collect::<Vec<_>>().join("\n")`,
   * one line at a time. `str::lines` cuts at every `\n` (dropping a `\r`
   * just before it); a final `\n` does not start an empty last line and
   * the empty string has no lines at all. Each line loses its trailing
   * whitespace, and `join` puts one `\n` between consecutive lines.
   */
  function CanonString(s: string): string
    decreases |s|
  {
    if s == [] then []
    else
      var i := IndexOf(s, '\n');
      if i == |s| then TrimEnd(s)
      else if i + 1 == |s| then TrimEnd(FirstLine(s))
      else TrimEnd(FirstLine(s)) + "\n" + CanonString(s[i + 1..])
  }

  /** `s` with every whitespace character removed. */
  function Strip(s: string): string
  {
    if s == [] then [] else (if IsWhitespace(s[0]) then [] else [s[0]]) + Strip(s[1..])
  }

  /**
   * No line of a canonical string ends in whitespace: a whitespace
   * character other than `\n` is always followed by a character that is
   * not `\n`.
   */
  predicate LinesTrimmed(s: string)
  {
    forall i :: 0 <= i < |s| && s[i] != '\n' && IsWhitespace(s[i]) ==> i + 1 < |s| && s[i + 1] != '\n'
  }

  lemma {:induction false} StripAppend(a: string, b: string)
    ensures Strip(a + b) == Strip(a) + Strip(b)
  {
    if a != [] {
      assert (a + b)[1..] == a[1..] + b;
      StripAppend(a[1..], b);
    } else {
      assert a + b == b;
    }
  }

  lemma {:induction false} StripTrimEnd(s: string)
    ensures Strip(TrimEnd(s)) == Strip(s)
    decreases |s|
  {
    if s != [] && IsWhitespace(s[|s| - 1]) {
      StripTrimEnd(s[..|s| - 1]);
      StripDropLast(s);
    }
  }

  /** A whitespace character at the end contributes nothing to `Strip`. */
  lemma StripDropLast(s: string)
    requires s != [] && IsWhitespace(s[|s| - 1])
    ensures Strip(s) == Strip(s[..|s| - 1])
  {
    var t, c := s[..|s| - 1], s[|s| - 1];
    assert s == t + [c];
    StripAppend(t, [c]);
    assert Strip([c]) == [] by {
      assert [c][1..] == [];
    }
  }

  lemma StripWhitespaceCons(c: char, t: string)
    requires IsWhitespace(c)
    ensures Strip([c] + t) == Strip(t)
  {
    assert ([c] + t)[1..] == t;
  }

  lemma StripFirstLine(s: string)
    requires IndexOf(s, '\n') < |s|
    ensures Strip(FirstLine(s)) == Strip(s[..IndexOf(s, '\n')])
  {
    var line := s[..IndexOf(s, '\n')];
    if line != [] && line[|line| - 1] == '\r' {
      assert FirstLine(s) == line[..|line| - 1];
      StripDropLast(line);
    } else {
      assert FirstLine(s) == line;
    }
  }

  lemma StripSplit(s: string, i: nat)
    requires i < |s| && IsWhitespace(s[i])
    ensures Strip(s) == Strip(s[..i]) + Strip(s[i + 1..])
  {
    assert s == s[..i] + ([s[i]] + s[i + 1..]);
    StripAppend(s[..i], [s[i]] + s[i + 1..]);
    StripWhitespaceCons(s[i], s[i + 1..]);
  }

  /** Canonicalising a string removes whitespace characters only: every other character is kept, in order. */
  lemma {:induction false} StripCanonString(s: string)
    ensures Strip(CanonString(s)) == Strip(s)
    decreases |s|
  {
    if s != [] {
      var i := IndexOf(s, '\n');
      if i == |s| {
        StripTrimEnd(s);
      } else {
        StripFirstLineKept(s, i);
        if i + 1 == |s| {
          assert Strip(s[i + 1..]) == [];
        } else {
          var rest := s[i + 1..];
          StripCanonString(rest);
          StripCanonLines(s, i, rest);
        }
      }
    }
  }

  /** Stripping the first line, trimmed, keeps what stripping the text before its line break keeps. */
  lemma StripFirstLineKept(s: string, i: nat)
    requires i == IndexOf(s, '\n') < |s|
    ensures Strip(TrimEnd(FirstLine(s))) == Strip(s[..i])
    ensures Strip(s) == Strip(s[..i]) + Strip(s[i + 1..])
  {
    StripTrimEnd(FirstLine(s));
    StripFirstLine(s);
    StripSplit(s, i);
  }

  /** The step of `StripCanonString` past the first line break. */
  lemma StripCanonLines(s: string, i: nat, rest: string)
    requires i == IndexOf(s, '\n') && i + 1 < |s| && rest == s[i + 1..]
    requires Strip(TrimEnd(FirstLine(s))) == Strip(s[..i])
    requires Strip(CanonString(rest)) == Strip(rest)
    ensures Strip(CanonString(s)) == Strip(s[..i]) + Strip(rest)
  {
    assert CanonString(s) == TrimEnd(FirstLine(s)) + "\n" + CanonString(rest);
    StripLineBreak(TrimEnd(FirstLine(s)), CanonString(rest));
  }

  lemma StripLineBreak(a: string, t: string)
    ensures Strip(a + "\n" + t) == Strip(a) + Strip(t)
  {
    StripAppend(a + "\n", t);
    StripAppend(a, "\n");
    assert Strip("\n") == [] by {
      assert "\n"[1..] == [];
    }
  }

  /** A single line that does not end in whitespace is trimmed. */
  lemma LineTrimmed(a: string)
    requires '\n' !in a
    requires a == [] || !IsWhitespace(a[|a| - 1])
    ensures LinesTrimmed(a)
  {
    forall i | 0 <= i < |a| && a[i] != '\n' && IsWhitespace(a[i])
      ensures i + 1 < |a| && a[i + 1] != '\n'
    {
      assert a[i + 1] in a;
    }
  }

  /** Putting a trimmed line in front of trimmed lines, with a `\n` between, keeps every line trimmed. */
  lemma JoinTrimmed(a: string, t: string)
    requires '\n' !in a
    requires a == [] || !IsWhitespace(a[|a| - 1])
    requires LinesTrimmed(t)
    ensures LinesTrimmed(a + "\n" + t)
  {
    var r := a + "\n" + t;
    forall i | 0 <= i < |r| && r[i] != '\n' && IsWhitespace(r[i])
      ensures i + 1 < |r| && r[i + 1] != '\n'
    {
      if i < |a| {
        assert r[i] == a[i];
        if i + 1 < |a| {
          assert r[i + 1] == a[i + 1];
          assert a[i + 1] in a;
        }
      } else {
        assert i > |a|;
        assert r[i] == t[i - |a| - 1];
        if i + 1 < |r| {
          assert r[i + 1] == t[i - |a|];
        }
      }
    }
  }

  /** The first line holds no newline. */
  lemma FirstLineNoNewline(s: string)
    requires IndexOf(s, '\n') < |s|
    ensures '\n' !in FirstLine(s)
  {
    IndexOfFirst(s, '\n');
    var line := FirstLine(s);
    forall j | 0 <= j < |line|
      ensures line[j] != '\n'
    {
      assert line[j] == s[..IndexOf(s, '\n')][j];
    }
  }

  /** Every line of a canonical string is trimmed at its end. */
  lemma {:induction false} CanonStringLinesTrimmed(s: string)
    ensures LinesTrimmed(CanonString(s))
    decreases |s|
  {
    if s != [] {
      var i := IndexOf(s, '\n');
      if i == |s| {
        IndexOfFirst(s, '\n');
        assert s[..i] == s;
        NoNewlineTrimEnd(s);
        LineTrimmed(TrimEnd(s));
      } else {
        FirstLineNoNewline(s);
        NoNewlineTrimEnd(FirstLine(s));
        if i + 1 == |s| {
          LineTrimmed(TrimEnd(FirstLine(s)));
        } else {
          CanonStringLinesTrimmed(s[i + 1..]);
          JoinTrimmed(TrimEnd(FirstLine(s)), CanonString(s[i + 1..]));
        }
      }
    }
  }

  lemma NoNewlineTrimEnd(s: string)
    requires '\n' !in s
    ensures '\n' !in TrimEnd(s)
  {
    var r := TrimEnd(s);
    forall j | 0 <= j < |r|
      ensures r[j] != '\n'
    {
      assert r[j] == s[j];
      assert s[j] in s;
    }
  }

  /**
   * `canonicalize` is not idempotent on strings: `lines` drops the final
   * empty line, so each application can remove one more trailing newline.
   */
  lemma CanonStringNotIdempotent()
    ensures CanonString("a\n\n") == "a\n"
    ensures CanonString("a\n") == "a"
  {
    var s, t, u := "a\n\n", "\n", "a\n";
    assert IndexOf(t, '\n') == 0 && t[..0] == [] && CanonString(t) == [];
    assert IndexOf(s, '\n') == 1 && s[..1] == "a" && s[2..] == t;
    assert IndexOf(u, '\n') == 1 && u[..1] == "a";
    assert TrimEnd("a") == "a";
  }

  // ---------------------------------------------------------------------------
  // Values

  /**
   * The number branch for a float: NaN and the infinities become null,
   * `-0.0` becomes the integer 0, anything else is kept as it is.
   */
  function CanonFloat(f: F64Bits): (r: Value)
    ensures r == Null <==> !IsFinite(f)
    ensures r == Int(0) <==> f == NEG_ZERO
    ensures r != Null && r != Int(0) ==> r == Float(f)
  {
    if IsNaN(f) || IsInfinite(f) then Null
    else if f == NEG_ZERO then Int(0)
    else Float(f)
  }

  /**
   * `canonicalize`. An object's fields are inserted one by one into a new
   * `BTreeMap`; the source sorts them first, which changes nothing, since
   * the map orders its keys itself and its fields have distinct keys.
   * Integers are kept: `as_f64` of an integer is finite and never `-0.0`.
   */
  function Canonicalize(v: Value, nfkc: string -> string): (r: Value)
    ensures v.Arr? <==> r.Arr?
    ensures v.Obj? <==> r.Obj?
    ensures v.Str? <==> r.Str?
    ensures r.Arr? ==> |r.items| == |v.items|
                       && forall i :: 0 <= i < |v.items| ==> r.items[i] == Canonicalize(v.items[i], nfkc)
    decreases v, 1
  {
    match v
    case Null => Null
    case Bool(b) => Bool(b)
    case Int(i) => Int(i)
    case Float(f) => CanonFloat(f)
    case Str(s) => Str(CanonString(nfkc(s)))
    case Arr(items) => Arr(seq(|items|, i requires 0 <= i < |items| => Canonicalize(items[i], nfkc)))
    case Obj(fields) => Obj(InsertAll([], CanonPairs(fields, nfkc)))
  }

  /** The pairs `(k, canonicalize(v))` of an object's fields, in their order, before they go into the new map. */
  function CanonPairs(fields: seq<(string, Value)>, nfkc: string -> string): (r: seq<(string, Value)>)
    ensures |r| == |fields| && KeysOf(r) == KeysOf(fields)
    ensures forall i :: 0 <= i < |fields| ==> r[i].1 == Canonicalize(fields[i].1, nfkc)
    decreases Obj(fields), 0
  {
    var r := seq(|fields|, i requires 0 <= i < |fields| => (fields[i].0, Canonicalize(fields[i].1, nfkc)));
    assert KeysOf(r) == KeysOf(fields);
    r
  }

  /** No float is NaN, infinite or negative zero, at any depth. */
  predicate NumbersCanonical(v: Value)
  {
    match v
    case Float(f) => IsFinite(f) && f != NEG_ZERO
    case Arr(items) => forall i :: 0 <= i < |items| ==> NumbersCanonical(items[i])
    case Obj(fields) => forall i :: 0 <= i < |fields| ==> NumbersCanonical(fields[i].1)
    case _ => true
  }

  /** The output of `canonicalize` has sorted keys at every depth and only finite, non-negative-zero floats. */
  lemma {:induction false} CanonicalizeIsCanonical(v: Value, nfkc: string -> string)
    ensures WellFormed(Canonicalize(v, nfkc))
    ensures NumbersCanonical(Canonicalize(v, nfkc))
  {
    match v
    case Arr(items) =>
      forall i | 0 <= i < |items|
        ensures WellFormed(Canonicalize(items[i], nfkc)) && NumbersCanonical(Canonicalize(items[i], nfkc))
      {
        CanonicalizeIsCanonical(items[i], nfkc);
      }
    case Obj(fields) =>
      var pairs := CanonPairs(fields, nfkc);
      var r := InsertAll([], pairs);
      InsertAllInvariant([], pairs);
      forall i | 0 <= i < |r|
        ensures WellFormed(r[i].1) && NumbersCanonical(r[i].1)
      {
        assert r[i] in pairs;
        var j :| 0 <= j < |pairs| && pairs[j] == r[i];
        CanonicalizeIsCanonical(fields[j].1, nfkc);
      }
    case _ =>
  }

  /**
   * On an object whose keys are already strictly ascending, `canonicalize`
   * keeps the keys where they are and canonicalises each value.
   */
  lemma CanonicalizeSortedObject(fields: seq<(string, Value)>, nfkc: string -> string)
    requires StrictlySorted(KeysOf(fields))
    ensures Canonicalize(Obj(fields), nfkc).fields == CanonPairs(fields, nfkc)
  {
    var pairs := CanonPairs(fields, nfkc);
    assert [] + pairs == pairs;
    InsertAllSorted([], pairs);
  }

  /**
   * For an object with distinct keys, each key keeps its canonicalised
   * value, and a key absent from the input is absent from the output.
   */
  lemma CanonicalizeObjectLookup(fields: seq<(string, Value)>, nfkc: string -> string, k: string)
    requires StrictlySorted(KeysOf(fields))
    ensures Lookup(Canonicalize(Obj(fields), nfkc).fields, k)
         == match Lookup(fields, k) case None => None case Some(x) => Some(Canonicalize(x, nfkc))
  {
    CanonicalizeSortedObject(fields, nfkc);
    LookupMapped(fields, CanonPairs(fields, nfkc), nfkc, k);
  }

  lemma {:induction false} LookupMapped(fields: seq<(string, Value)>, pairs: seq<(string, Value)>, nfkc: string -> string, k: string)
    requires |pairs| == |fields|
    requires forall i :: 0 <= i < |fields| ==> pairs[i] == (fields[i].0, Canonicalize(fields[i].1, nfkc))
    ensures Lookup(pairs, k) == match Lookup(fields, k) case None => None case Some(x) => Some(Canonicalize(x, nfkc))
  {
    if fields != [] {
      LookupMapped(fields[1..], pairs[1..], nfkc, k);
    }
  }

  /** The worked example of the source's tests: `{"c":3,"a":1,"b":2}` comes out with keys a, b, c. */
  lemma CanonicalizeSortsKeys(nfkc: string -> string)
    ensures KeysOf(Canonicalize(Obj([("c", Int(3)), ("a", Int(1)), ("b", Int(2))]), nfkc).fields) == ["a", "b", "c"]
  {
    var pairs := [("c", Int(3)), ("a", Int(1)), ("b", Int(2))];
    assert CanonPairs(pairs, nfkc) == pairs;
    assert Less("a", "c") && Less("b", "c") && Less("a", "b");
    assert Insert([], "c", Int(3)) == [("c", Int(3))];
    assert Insert([("c", Int(3))], "a", Int(1)) == [("a", Int(1)), ("c", Int(3))];
    assert Insert([("c", Int(3))], "b", Int(2)) == [("b", Int(2)), ("c", Int(3))];
    assert Insert([("a", Int(1)), ("c", Int(3))], "b", Int(2)) == [("a", Int(1)), ("b", Int(2)), ("c", Int(3))];
  }
}
