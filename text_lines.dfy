/**
 * The `str` methods the TENS-Text decoder cuts its input with: `lines`,
 * `trim`, `split_whitespace` and `split_once`. Whitespace is Unicode
 * White_Space, as `char::is_whitespace` has it.
 */
module TextLines {
  import opened Base
  import opened Canonical

  /** `str::trim_start`. */
  function TrimStart(s: string): (r: string)
    ensures |r| <= |s| && r == s[|s| - |r|..]
    ensures r == [] || !IsWhitespace(r[0])
    ensures forall i :: 0 <= i < |s| - |r| ==> IsWhitespace(s[i])
  {
    if s != [] && IsWhitespace(s[0]) then TrimStart(s[1..]) else s
  }

  /** `str::trim`: no whitespace at either end. */
  function Trim(s: string): string
  {
    TrimStart(TrimEnd(s))
  }

  /** `str::lines`: the text between `\n`s, each losing one `\r` before its `\n`; no line after a final `\n`. */
  function Lines(s: string): seq<string>
    decreases |s|
  {
    if s == [] then []
    else
      var i := IndexOf(s, '\n');
      if i == |s| then [s] else [FirstLine(s)] + Lines(s[i + 1..])
  }

  /** The index of the first whitespace character of `s`, or `|s|`. */
  function WordEnd(s: string): (i: nat)
    ensures i <= |s|
    ensures forall j :: 0 <= j < i ==> !IsWhitespace(s[j])
    ensures i < |s| ==> IsWhitespace(s[i])
  {
    if s == [] || IsWhitespace(s[0]) then 0 else 1 + WordEnd(s[1..])
  }

  /** `str::split_whitespace`: the maximal runs of non-whitespace characters. */
  function SplitWhitespace(s: string): seq<string>
    decreases |s|
  {
    var t := TrimStart(s);
    if t == [] then [] else [t[..WordEnd(t)]] + SplitWhitespace(t[WordEnd(t)..])
  }

  /** `s.split_once(char::is_whitespace)`: the text before the first whitespace character and the text after it. */
  function SplitAtWhitespace(s: string): (r: Option<(string, string)>)
  {
    var i := WordEnd(s);
    if i == |s| then None else Some((s[..i], s[i + 1..]))
  }

  /** `s.split_once(c)`. */
  function SplitOnce(s: string, c: char): (r: Option<(string, string)>)
  {
    var i := IndexOf(s, c);
    if i == |s| then None else Some((s[..i], s[i + 1..]))
  }

  // ---------------------------------------------------------------------------
  // Facts the text round trip relies on

  /** A string that neither starts nor ends with whitespace is its own `trim`. */
  lemma TrimNoEdges(s: string)
    requires s != [] && !IsWhitespace(s[0]) && !IsWhitespace(s[|s| - 1])
    ensures Trim(s) == s
  {
  }

  /** A string with no whitespace is one word. */
  lemma {:induction false} WordEndNoWhitespace(s: string)
    requires forall j :: 0 <= j < |s| ==> !IsWhitespace(s[j])
    ensures WordEnd(s) == |s|
  {
    if s != [] {
      WordEndNoWhitespace(s[1..]);
    }
  }

  /** A word followed by whitespace is split at that whitespace. */
  lemma {:induction false} WordEndAppend(a: string, c: char, b: string)
    requires forall j :: 0 <= j < |a| ==> !IsWhitespace(a[j])
    requires IsWhitespace(c)
    ensures WordEnd(a + [c] + b) == |a|
  {
    if a != [] {
      assert (a + [c] + b)[1..] == a[1..] + [c] + b;
      WordEndAppend(a[1..], c, b);
    }
  }

  /** Lines ending in `\n`, none holding a `\n` or ending in `\r`, come back out of `lines`. */
  lemma {:induction false} LinesOfLines(ls: seq<string>)
    requires forall i :: 0 <= i < |ls| ==> '\n' !in ls[i] && (ls[i] == [] || ls[i][|ls[i]| - 1] != '\r')
    ensures Lines(JoinLines(ls)) == ls
  {
    if ls != [] {
      var s := JoinLines(ls);
      assert s == ls[0] + "\n" + JoinLines(ls[1..]);
      IndexOfLine(ls[0], JoinLines(ls[1..]));
      assert s[..|ls[0]|] == ls[0];
      assert s[|ls[0]| + 1..] == JoinLines(ls[1..]);
      LinesOfLines(ls[1..]);
      assert ls == [ls[0]] + ls[1..];
    }
  }

  /** Each string followed by a newline. */
  function JoinLines(ls: seq<string>): string
  {
    if ls == [] then [] else ls[0] + "\n" + JoinLines(ls[1..])
  }

  lemma {:induction false} IndexOfLine(a: string, rest: string)
    requires '\n' !in a
    ensures IndexOf(a + "\n" + rest, '\n') == |a|
  {
    if a != [] {
      assert (a + "\n" + rest)[1..] == a[1..] + "\n" + rest;
      assert a[0] in a;
      IndexOfLine(a[1..], rest);
    }
  }

  lemma {:induction false} JoinLinesAppend(a: seq<string>, b: seq<string>)
    ensures JoinLines(a + b) == JoinLines(a) + JoinLines(b)
  {
    if a != [] {
      assert (a + b)[1..] == a[1..] + b;
      JoinLinesAppend(a[1..], b);
    } else {
      assert a + b == b;
    }
  }
}
