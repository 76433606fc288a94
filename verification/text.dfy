/**
 * The handful of Python string operations the document-processing code relies on:
 * `str.isspace`, `str.strip`, `str.split("\n")`, `"\n".join(...)`, and
 * concatenation of a list of strings.
 */
module Text {

  /** Python's `str.isspace()` for one character: the characters `str.strip()` removes. */
  predicate IsSpace(c: char) {
    || c == ' ' || c == '\t' || c == '\n' || c == '\r' || c == '\U{0b}' || c == '\U{0c}'
    || c == '\U{1c}' || c == '\U{1d}' || c == '\U{1e}' || c == '\U{1f}' || c == '\U{85}' || c == '\U{a0}'
    || c == '\U{1680}' || ('\U{2000}' <= c <= '\U{200a}') || c == '\U{2028}' || c == '\U{2029}'
    || c == '\U{202f}' || c == '\U{205f}' || c == '\U{3000}'
  }

  /** A string made only of whitespace (the empty string included): Python's `not s.strip()`. */
  predicate IsBlank(s: string) {
    forall i :: 0 <= i < |s| ==> IsSpace(s[i])
  }

  /** A string with no whitespace at either end. */
  predicate IsStripped(s: string) {
    |s| == 0 || (!IsSpace(s[0]) && !IsSpace(s[|s| - 1]))
  }

  /** The end of the run of whitespace that starts at `lo`. */
  function SpaceRunEnd(s: string, lo: nat): (n: nat)
    requires lo <= |s|
    ensures lo <= n <= |s|
    ensures forall i :: lo <= i < n ==> IsSpace(s[i])
    ensures n == |s| || !IsSpace(s[n])
    decreases |s| - lo
  {
    if lo < |s| && IsSpace(s[lo]) then SpaceRunEnd(s, lo + 1) else lo
  }

  /** The start of the run of whitespace that ends at `hi`. */
  function SpaceRunStart(s: string, hi: nat): (n: nat)
    requires hi <= |s|
    ensures n <= hi
    ensures forall i :: n <= i < hi ==> IsSpace(s[i])
    ensures n == 0 || !IsSpace(s[n - 1])
    decreases hi
  {
    if hi > 0 && IsSpace(s[hi - 1]) then SpaceRunStart(s, hi - 1) else hi
  }

  /**
   * Python's `s.strip()`: the text between the leading and the trailing whitespace. The result
   * is a slice of the input with only whitespace before and after it, and it has no whitespace
   * at either end, so it is the longest such slice.
   */
  function Strip(s: string): (r: string)
    ensures IsStripped(r)
    ensures |r| <= |s|
    ensures r == "" <==> IsBlank(s)
    ensures exists lo, hi :: 0 <= lo <= hi <= |s| && r == s[lo..hi] && IsBlank(s[..lo]) && IsBlank(s[hi..])
  {
    var start := SpaceRunEnd(s, 0);
    var end := SpaceRunStart(s, |s|);
    if start < end then
      assert IsBlank(s[..start]) && IsBlank(s[end..]);
      s[start..end]
    else
      assert start == |s|;
      assert IsBlank(s[..|s|]) && IsBlank(s[|s|..]) && "" == s[|s|..|s|];
      ""
  }

  /** A string with no surrounding whitespace is unchanged by `Strip`. */
  lemma StrippedIsFixed(s: string)
    requires IsStripped(s)
    ensures Strip(s) == s
  {
    assert SpaceRunEnd(s, 0) == 0;
    assert SpaceRunStart(s, |s|) == |s|;
  }

  /** Stripping is idempotent. */
  lemma StripIdempotent(s: string)
    ensures Strip(Strip(s)) == Strip(s)
  {
    StrippedIsFixed(Strip(s));
  }

  /** A string with a non-blank prefix is not blank. */
  lemma NonBlankExtended(s: string, t: string)
    requires !IsBlank(s)
    ensures !IsBlank(s + t)
  {
    var i :| 0 <= i < |s| && !IsSpace(s[i]);
    assert (s + t)[i] == s[i];
  }

  /** Python's `s.split("\n")`: the pieces between newline characters; never empty. */
  function SplitLines(s: string): (ls: seq<string>)
    ensures |ls| >= 1
    ensures forall i :: 0 <= i < |ls| ==> '\n' !in ls[i]
    decreases |s|
  {
    if |s| == 0 then [""]
    else
      var rest := SplitLines(s[1..]);
      if s[0] == '\n' then [""] + rest
      else [[s[0]] + rest[0]] + rest[1..]
  }

  /** Python's `sep.join(ls)`. */
  function Join(ls: seq<string>, sep: string): (s: string)
    decreases |ls|
  {
    if |ls| == 0 then ""
    else if |ls| == 1 then ls[0]
    else ls[0] + sep + Join(ls[1..], sep)
  }

  /** Joining a piece in front of at least one more puts the separator after it. */
  lemma JoinCons(x: string, ls: seq<string>, sep: string)
    requires |ls| >= 1
    ensures Join([x] + ls, sep) == x + sep + Join(ls, sep)
  {
    assert ([x] + ls)[1..] == ls;
  }

  /** Joining the pieces of a split gives back the original string. */
  lemma {:induction false} JoinSplitLines(s: string)
    ensures Join(SplitLines(s), "\n") == s
    decreases |s|
  {
    if |s| > 0 {
      var rest := SplitLines(s[1..]);
      JoinSplitLines(s[1..]);
      if s[0] == '\n' {
        assert SplitLines(s) == [""] + rest;
        assert s == "" + "\n" + s[1..];
      } else {
        var ls := [[s[0]] + rest[0]] + rest[1..];
        assert SplitLines(s) == ls;
        if |rest| == 1 {
          assert Join(rest, "\n") == rest[0];
        } else {
          assert rest == [rest[0]] + rest[1..];
          assert Join(rest, "\n") == rest[0] + "\n" + Join(rest[1..], "\n");
          assert ls[1..] == rest[1..];
        }
      }
    }
  }

  /** Splitting a string that starts with a newline-free piece `l`. */
  lemma {:induction false} SplitLinesPrefix(l: string, t: string)
    requires '\n' !in l
    ensures SplitLines(l + t) == [l + SplitLines(t)[0]] + SplitLines(t)[1..]
    decreases |l|
  {
    if |l| > 0 {
      SplitLinesPrefix(l[1..], t);
      assert (l + t)[1..] == l[1..] + t;
      assert [l[0]] + (l[1..] + SplitLines(t)[0]) == l + SplitLines(t)[0];
    } else {
      assert l + t == t;
      assert l + SplitLines(t)[0] == SplitLines(t)[0];
      assert [SplitLines(t)[0]] + SplitLines(t)[1..] == SplitLines(t);
    }
  }

  /** Splitting newline-free lines joined by newlines gives the lines back. */
  lemma {:induction false} SplitJoinLines(ls: seq<string>)
    requires |ls| >= 1
    requires forall i :: 0 <= i < |ls| ==> '\n' !in ls[i]
    ensures SplitLines(Join(ls, "\n")) == ls
    decreases |ls|
  {
    if |ls| == 1 {
      SplitLinesPrefix(ls[0], "");
      assert ls[0] + "" == ls[0];
    } else {
      var t := Join(ls[1..], "\n");
      SplitJoinLines(ls[1..]);
      assert SplitLines("\n" + t) == [""] + ls[1..] by {
        assert ("\n" + t)[1..] == t;
      }
      assert Join(ls, "\n") == ls[0] + ("\n" + t);
      SplitLinesPrefix(ls[0], "\n" + t);
      assert ls[0] + "" == ls[0];
      assert [ls[0]] + ls[1..] == ls;
    }
  }

  /** Regrouping a four-way string append (the solver does not find this unaided in larger contexts). */
  lemma AppendAssoc(a: string, b: string, c: string, d: string)
    ensures a + ((b + c) + d) == ((a + b) + c) + d
  {
  }

  /** Concatenation of a list of strings: Python's `"".join(ss)`. */
  function Concat(ss: seq<string>): string
    decreases |ss|
  {
    if |ss| == 0 then "" else Concat(ss[..|ss| - 1]) + ss[|ss| - 1]
  }

  /** Each string followed by a newline, all concatenated: the text an f-string `f"{x}\n"` accumulates. */
  function Terminated(ss: seq<string>): string
    decreases |ss|
  {
    if |ss| == 0 then "" else Terminated(ss[..|ss| - 1]) + ss[|ss| - 1] + "\n"
  }

  /** Concatenation of a first string and more: the first string comes first. */
  lemma {:induction false} ConcatCons(s: string, ss: seq<string>)
    ensures Concat([s] + ss) == s + Concat(ss)
    decreases |ss|
  {
    if |ss| == 0 {
      assert [s] + ss == [s];
      assert Concat([s]) == Concat([s][..0]) + s;
    } else {
      var init := ss[..|ss| - 1];
      ConcatCons(s, init);
      assert ([s] + ss)[..|ss|] == [s] + init;
      assert ([s] + ss)[|ss|] == ss[|ss| - 1];
    }
  }

  /** Concatenation distributes over a final element. */
  lemma ConcatSnoc(ss: seq<string>, s: string)
    ensures Concat(ss + [s]) == Concat(ss) + s
  {
    assert (ss + [s])[..|ss|] == ss;
  }

  /** Peeling the last element off the tail `ls[1..]`. */
  lemma TerminatedTailSnoc(ls: seq<string>)
    requires |ls| > 1
    ensures Terminated(ls[1..]) == Terminated(ls[..|ls| - 1][1..]) + ls[|ls| - 1] + "\n"
  {
    assert ls[1..][..|ls[1..]| - 1] == ls[..|ls| - 1][1..];
  }

  /** `s.endswith(e)`. */
  predicate EndsWith(s: string, e: string) {
    |e| <= |s| && s[|s| - |e|..] == e
  }

  /** Values strictly increase. */
  ghost predicate Increasing(xs: seq<nat>)
  {
    forall k :: 0 < k < |xs| ==> xs[k - 1] < xs[k]
  }

  /**
   * The text a buffer accumulates from the strings `[start, end)`: the first string of the
   * list bare (it seeds the first buffer), every other one followed by a newline.
   */
  function SpanText(ss: seq<string>, start: nat, end: nat): string
    requires start <= end <= |ss|
    requires start == 0 ==> end > 0
  {
    if start == 0 then ss[0] + Terminated(ss[1..end]) else Terminated(ss[start..end])
  }

  /** The text accumulated over a prefix of the list does not depend on the strings after it. */
  lemma SpanTextPrefix(ss: seq<string>, m: nat, start: nat, end: nat)
    requires start <= end <= m <= |ss|
    requires start == 0 ==> end > 0
    ensures SpanText(ss[..m], start, end) == SpanText(ss, start, end)
  {
    assert ss[..m][1..end] == ss[1..end];
    assert ss[..m][start..end] == ss[start..end];
  }

  /** Accumulating one more string appends it and a newline. */
  lemma SpanTextSnoc(ss: seq<string>, start: nat, end: nat)
    requires start <= end < |ss|
    requires start == 0 ==> end > 0
    ensures SpanText(ss, start, end + 1) == SpanText(ss, start, end) + ss[end] + "\n"
  {
    if start == 0 {
      assert ss[1..end + 1][..end - 1] == ss[1..end];
      AppendAssoc(ss[0], Terminated(ss[1..end]), ss[end], "\n");
    } else {
      assert ss[start..end + 1][..end - start] == ss[start..end];
    }
  }
}
