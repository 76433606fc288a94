/**
 * Document cleaning (`clean_document`): collapse runs of newlines and of blanks (the code's
 * substitutions stop after eight runs each), strip, drop blank and overlong lines, then trim
 * words before the last fifty until the document fits the token budget or the attempts run out.
 */
module Cleaning {
  import opened Text

  /** `CONTEXT_SIZE`: the model's context, in tokens. */
  const ContextSize: nat := 4096
  /** `RESPONSE_TOKENS`: the tokens reserved for the response. */
  const ResponseTokens: nat := 1024
  /** `max_doc_size`: what the context leaves for the document once the response is reserved. */
  const MaxDocSize: nat := ContextSize - ResponseTokens
  /** The trim loop gives up after this many attempts. */
  const MaxTrimAttempts: nat := 200
  /** `keep_end_tokens`: the words at the end of the document that trimming never removes. */
  const KeepEndTokens: nat := 50
  /** The words each trim removes from just before the kept end. */
  const DropTokens: nat := 5
  /** Lines this long or longer are dropped. */
  const MaxLineLength: nat := 100
  /** The value of `re.M`, which both substitutions receive in the position of `count`. */
  const MultilineFlag: nat := 8

  /** The two character classes the cleaning works with: `[\n]` and `[\t ]`. */
  datatype CharClass = Newlines | Blanks

  predicate InClass(c: char, cls: CharClass) {
    match cls
    case Newlines => c == '\n'
    case Blanks => c == ' ' || c == '\t'
  }

  /** What a run of the class is replaced by, and what joins the pieces between runs. */
  function Rep(cls: CharClass): (c: char)
    ensures InClass(c, cls)
  {
    match cls
    case Newlines => '\n'
    case Blanks => ' '
  }

  /** No two neighbouring characters both belong to the class. */
  predicate NoRuns(s: string, cls: CharClass) {
    forall i :: 0 < i < |s| ==> !(InClass(s[i - 1], cls) && InClass(s[i], cls))
  }

  /** No character of the class occurs. */
  predicate Free(s: string, cls: CharClass) {
    forall i :: 0 <= i < |s| ==> !InClass(s[i], cls)
  }

  /**
   * Pieces as `re.split` returns them: at least one, none holding a class character, and only
   * the first and the last possibly empty (a run is maximal, so two runs never touch).
   */
  predicate Separated(ts: seq<string>, cls: CharClass) {
    && |ts| >= 1
    && (forall k :: 0 <= k < |ts| ==> Free(ts[k], cls))
    && (forall k :: 0 < k < |ts| - 1 ==> ts[k] != "")
  }

  /** The characters of the text outside the class, in order. */
  function Erase(s: string, cls: CharClass): (r: string)
    decreases |s|
  {
    if |s| == 0 then "" else (if InClass(s[0], cls) then "" else [s[0]]) + Erase(s[1..], cls)
  }

  /** Erasing the class from a character followed by a text. */
  lemma EraseCons(c: char, t: string, cls: CharClass)
    ensures Erase([c] + t, cls) == (if InClass(c, cls) then "" else [c]) + Erase(t, cls)
  {
    assert ([c] + t)[1..] == t;
  }

  /** `re.split("[c]+", s)`: the pieces between the maximal runs of the class. */
  function SplitRuns(s: string, cls: CharClass): (ts: seq<string>)
    ensures Separated(ts, cls)
    ensures |s| == 0 ==> ts == [""]
    ensures |s| > 0 ==> (ts[0] == "" <==> InClass(s[0], cls))
    decreases |s|
  {
    if |s| == 0 then [""]
    else
      var rest := SplitRuns(s[1..], cls);
      if InClass(s[0], cls) then
        if |s| > 1 && InClass(s[1], cls) then rest else [""] + rest
      else
        [[s[0]] + rest[0]] + rest[1..]
  }

  /** No character is lost or reordered: the pieces, concatenated, are the text without the class. */
  lemma {:induction false} SplitRunsErase(s: string, cls: CharClass)
    ensures Concat(SplitRuns(s, cls)) == Erase(s, cls)
    decreases |s|
  {
    if |s| == 0 {
      assert Concat([""]) == Concat([""][..0]) + "";
    } else {
      SplitRunsErase(s[1..], cls);
      SplitRunsEraseStep(s, cls);
    }
  }

  /** The inductive step of `SplitRunsErase`: from the text after the first character to the whole text. */
  lemma SplitRunsEraseStep(s: string, cls: CharClass)
    requires |s| > 0
    requires Concat(SplitRuns(s[1..], cls)) == Erase(s[1..], cls)
    ensures Concat(SplitRuns(s, cls)) == Erase(s, cls)
  {
    var rest := SplitRuns(s[1..], cls);
    var tail := Concat(rest[1..]);
    assert Concat(rest) == rest[0] + tail by {
      ConcatCons(rest[0], rest[1..]);
      assert [rest[0]] + rest[1..] == rest;
    }
    if InClass(s[0], cls) {
      assert Erase(s, cls) == Erase(s[1..], cls);
      if !(|s| > 1 && InClass(s[1], cls)) {
        ConcatCons("", rest);
      }
    } else {
      assert Erase(s, cls) == [s[0]] + Erase(s[1..], cls);
      ConcatCons([s[0]] + rest[0], rest[1..]);
      AppendAssoc3([s[0]], rest[0], tail);
    }
  }

  /**
   * `re.sub("[c]+", rep, s)` with no count: every run of the class becomes one `rep`, and the
   * characters outside the class are kept, in order.
   */
  function CollapseAll(s: string, cls: CharClass): (r: string)
    ensures |r| <= |s|
    ensures |s| > 0 ==> |r| > 0 && (InClass(r[0], cls) <==> InClass(s[0], cls))
    ensures |s| > 0 && !InClass(s[0], cls) ==> r[0] == s[0]
    ensures NoRuns(r, cls)
    ensures forall i :: 0 <= i < |r| && InClass(r[i], cls) ==> r[i] == Rep(cls)
    ensures Erase(r, cls) == Erase(s, cls)
    decreases |s|
  {
    if |s| == 0 then ""
    else if InClass(s[0], cls) then
      if |s| > 1 && InClass(s[1], cls) then CollapseAll(s[1..], cls)
      else
        EraseCons(Rep(cls), CollapseAll(s[1..], cls), cls);
        [Rep(cls)] + CollapseAll(s[1..], cls)
    else
      EraseCons(s[0], CollapseAll(s[1..], cls), cls);
      [s[0]] + CollapseAll(s[1..], cls)
  }

  /** The number of maximal runs of the class. */
  function RunCount(s: string, cls: CharClass): (n: nat)
    ensures n <= |s|
    ensures n == 0 <==> Free(s, cls)
    decreases |s|
  {
    if |s| == 0 then 0
    else
      var ends := InClass(s[0], cls) && !(|s| > 1 && InClass(s[1], cls));
      (if ends then 1 else 0) + RunCount(s[1..], cls)
  }

  /**
   * The index just past the `n`-th run of the class: 0 for `n` = 0, and the length of the text
   * when it has fewer runs. Past it, a character outside the class follows, and exactly the runs
   * after the `n`-th remain.
   */
  function RunsEnd(s: string, cls: CharClass, n: nat): (e: nat)
    ensures e <= |s|
    ensures n == 0 ==> e == 0
    ensures n > 0 && |s| > 0 ==> e > 0
    ensures n > 0 && 0 < e < |s| ==> InClass(s[e - 1], cls) && !InClass(s[e], cls)
    ensures n <= RunCount(s, cls) ==> RunCount(s[e..], cls) == RunCount(s, cls) - n
    decreases |s|
  {
    if |s| == 0 || n == 0 then 0
    else
      var ends := InClass(s[0], cls) && !(|s| > 1 && InClass(s[1], cls));
      var e := 1 + RunsEnd(s[1..], cls, if ends then n - 1 else n);
      assert s[e..] == s[1..][e - 1..];
      e
  }

  /**
   * `re.sub("[c]+", rep, s, n)`: only the first `n` runs are replaced, the rest are kept as
   * they are. This is what the cleaning code computes, with `n` = `re.M` = 8.
   */
  function CollapseFirst(s: string, cls: CharClass, n: nat): (r: string)
    ensures |r| <= |s|
    ensures n == 0 ==> r == s
    decreases |s|
  {
    if |s| == 0 || n == 0 then s
    else if InClass(s[0], cls) then
      if |s| > 1 && InClass(s[1], cls) then CollapseFirst(s[1..], cls, n)
      else [Rep(cls)] + CollapseFirst(s[1..], cls, n - 1)
    else [s[0]] + CollapseFirst(s[1..], cls, n)
  }

  /** Collapsing a character followed by a text: a class character that a run continues is absorbed. */
  lemma CollapseAllCons(c: char, t: string, cls: CharClass)
    ensures CollapseAll([c] + t, cls)
            == if InClass(c, cls) && |t| > 0 && InClass(t[0], cls) then CollapseAll(t, cls)
               else [if InClass(c, cls) then Rep(cls) else c] + CollapseAll(t, cls)
  {
    assert ([c] + t)[1..] == t;
  }

  /** Whether the first character of a non-empty text ends a run of the class. */
  predicate EndsRun(s: string, cls: CharClass)
    requires |s| > 0
  {
    InClass(s[0], cls) && !(|s| > 1 && InClass(s[1], cls))
  }

  /** One character of the counted substitution: a run's last character uses up one of the count. */
  lemma CollapseFirstStep(s: string, cls: CharClass, n: nat)
    requires |s| > 0 && n > 0
    ensures var n' := if EndsRun(s, cls) then n - 1 else n;
            && RunsEnd(s, cls, n) == 1 + RunsEnd(s[1..], cls, n')
            && CollapseFirst(s, cls, n)
               == if InClass(s[0], cls) && !EndsRun(s, cls) then CollapseFirst(s[1..], cls, n')
                  else [if InClass(s[0], cls) then Rep(cls) else s[0]] + CollapseFirst(s[1..], cls, n')
  {
  }

  /** A prefix and a suffix of a text, read from its second character. */
  lemma SliceAfterFirst(s: string, e: nat)
    requires 0 < e <= |s|
    ensures s[..e] == [s[0]] + s[1..][..e - 1]
    ensures s[e..] == s[1..][e - 1..]
  {
  }

  /** Regrouping a three-way append. */
  lemma AppendAssoc3(a: string, b: string, c: string)
    ensures a + (b + c) == (a + b) + c
  {
  }

  /**
   * The counted substitution collapses the text up to the end of the `n`-th run and keeps the
   * text after it as it is.
   */
  lemma {:induction false} CollapseFirstSplit(s: string, cls: CharClass, n: nat)
    ensures CollapseFirst(s, cls, n) == CollapseAll(s[..RunsEnd(s, cls, n)], cls) + s[RunsEnd(s, cls, n)..]
    decreases |s|
  {
    if |s| == 0 || n == 0 {
      assert s[..0] == "" && s[0..] == s;
    } else {
      var n' := if EndsRun(s, cls) then n - 1 else n;
      CollapseFirstSplit(s[1..], cls, n');
      CollapseFirstSplitStep(s, cls, n);
    }
  }

  /** The inductive step of `CollapseFirstSplit`: from the text after the first character to the text. */
  lemma CollapseFirstSplitStep(s: string, cls: CharClass, n: nat)
    requires |s| > 0 && n > 0
    requires var n' := if EndsRun(s, cls) then n - 1 else n;
             CollapseFirst(s[1..], cls, n')
             == CollapseAll(s[1..][..RunsEnd(s[1..], cls, n')], cls) + s[1..][RunsEnd(s[1..], cls, n')..]
    ensures CollapseFirst(s, cls, n) == CollapseAll(s[..RunsEnd(s, cls, n)], cls) + s[RunsEnd(s, cls, n)..]
  {
    var e := RunsEnd(s, cls, n);
    var n' := if EndsRun(s, cls) then n - 1 else n;
    var e' := RunsEnd(s[1..], cls, n');
    var q := s[1..][..e'];
    var rest := s[1..][e'..];
    var a := CollapseAll(q, cls);
    var absorbed := InClass(s[0], cls) && !EndsRun(s, cls);
    var head: string := if absorbed then "" else [if InClass(s[0], cls) then Rep(cls) else s[0]];
    assert e == 1 + e' && CollapseFirst(s, cls, n) == head + CollapseFirst(s[1..], cls, n') by {
      CollapseFirstStep(s, cls, n);
    }
    assert s[e..] == rest by {
      SliceAfterFirst(s, e);
    }
    CollapsePrefixHead(s, cls, n);
    Regroup(CollapseFirst(s, cls, n), head, CollapseFirst(s[1..], cls, n'), a, rest,
            CollapseAll(s[..e], cls), s[e..]);
  }

  /** Collapsing the text up to the end of the n-th run, read from its second character. */
  lemma CollapsePrefixHead(s: string, cls: CharClass, n: nat)
    requires |s| > 0 && n > 0
    ensures var n' := if EndsRun(s, cls) then n - 1 else n;
            var head: string := if InClass(s[0], cls) && !EndsRun(s, cls) then ""
                                else [if InClass(s[0], cls) then Rep(cls) else s[0]];
            CollapseAll(s[..RunsEnd(s, cls, n)], cls) == head + CollapseAll(s[1..][..RunsEnd(s[1..], cls, n')], cls)
  {
    var e := RunsEnd(s, cls, n);
    var n' := if EndsRun(s, cls) then n - 1 else n;
    var e' := RunsEnd(s[1..], cls, n');
    var q := s[1..][..e'];
    assert s[..e] == [s[0]] + q by {
      CollapseFirstStep(s, cls, n);
      SliceAfterFirst(s, e);
    }
    CollapseAllCons(s[0], q, cls);
    if InClass(s[0], cls) && !EndsRun(s, cls) {
      assert e' > 0 && q[0] == s[1];
    } else if |q| > 0 {
      assert q[0] == s[1];
    }
  }

  /** Regrouping `head + (a + rest)` as `(head + a) + rest`, with every part named. */
  lemma Regroup(whole: string, head: string, tail: string, a: string, rest: string, left: string, right: string)
    requires whole == head + tail && tail == a + rest && left == head + a && right == rest
    ensures whole == left + right
  {
    AppendAssoc3(head, a, rest);
  }

  /** Prepending a character outside the class to a split extends its first piece. */
  lemma JoinConsFirst(c: char, ts: seq<string>, sep: string)
    requires |ts| >= 1
    ensures Join([[c] + ts[0]] + ts[1..], sep) == [c] + Join(ts, sep)
  {
    var us := [[c] + ts[0]] + ts[1..];
    if |ts| > 1 {
      assert us[1..] == ts[1..];
    }
  }

  /** Collapsing every run is joining the pieces of the split with the replacement. */
  lemma {:induction false} CollapseIsSplitJoin(s: string, cls: CharClass)
    ensures CollapseAll(s, cls) == Join(SplitRuns(s, cls), [Rep(cls)])
    decreases |s|
  {
    if |s| > 0 {
      CollapseIsSplitJoin(s[1..], cls);
      var rest := SplitRuns(s[1..], cls);
      if InClass(s[0], cls) {
        if !(|s| > 1 && InClass(s[1], cls)) {
          assert ([""] + rest)[1..] == rest;
        }
      } else {
        JoinConsFirst(s[0], rest, [Rep(cls)]);
      }
    }
  }

  /** A piece free of the class, followed by more text, extends the first piece of that text's split. */
  lemma {:induction false} SplitRunsPrefix(l: string, t: string, cls: CharClass)
    requires Free(l, cls)
    ensures SplitRuns(l + t, cls) == [l + SplitRuns(t, cls)[0]] + SplitRuns(t, cls)[1..]
    decreases |l|
  {
    if |l| > 0 {
      SplitRunsPrefix(l[1..], t, cls);
      assert (l + t)[1..] == l[1..] + t;
      assert [l[0]] + (l[1..] + SplitRuns(t, cls)[0]) == l + SplitRuns(t, cls)[0];
    } else {
      assert l + t == t;
      assert l + SplitRuns(t, cls)[0] == SplitRuns(t, cls)[0];
      assert [SplitRuns(t, cls)[0]] + SplitRuns(t, cls)[1..] == SplitRuns(t, cls);
    }
  }

  /**
   * A maximal run of the class at the front of the text is a cut: the split is an empty first
   * piece followed by the split of the text after the run. With `SplitRunsPrefix` (a piece
   * free of the class at the front extends the first piece) and the empty text, this fixes
   * the split of every text.
   */
  lemma {:induction false} SplitRunsRun(r: string, t: string, cls: CharClass)
    requires |r| > 0 && forall i :: 0 <= i < |r| ==> InClass(r[i], cls)
    requires |t| == 0 || !InClass(t[0], cls)
    ensures SplitRuns(r + t, cls) == [""] + SplitRuns(t, cls)
    decreases |r|
  {
    var s := r + t;
    assert s[1..] == r[1..] + t;
    if |r| == 1 {
      assert s[1..] == t;
    } else {
      SplitRunsRun(r[1..], t, cls);
      assert s[1] == r[1];
    }
  }

  /** A piece free of the class at the front of the text is kept as it is by collapsing. */
  lemma {:induction false} CollapseAllFree(l: string, t: string, cls: CharClass)
    requires Free(l, cls)
    ensures CollapseAll(l + t, cls) == l + CollapseAll(t, cls)
    decreases |l|
  {
    if |l| > 0 {
      CollapseAllFree(l[1..], t, cls);
      ConsRegroup(l, t);
      CollapseAllCons(l[0], l[1..] + t, cls);
      ConsRegroup(l, CollapseAll(t, cls));
    } else {
      assert l + t == t;
    }
  }

  /** A non-empty text followed by another, read from its first character. */
  lemma ConsRegroup(l: string, t: string)
    requires |l| > 0
    ensures l + t == [l[0]] + (l[1..] + t)
  {
  }

  /**
   * A maximal run of the class at the front of the text becomes one replacement character.
   * With `CollapseAllFree` and the empty text, this fixes the collapse of every text.
   */
  lemma {:induction false} CollapseAllRun(r: string, t: string, cls: CharClass)
    requires |r| > 0 && forall i :: 0 <= i < |r| ==> InClass(r[i], cls)
    requires |t| == 0 || !InClass(t[0], cls)
    ensures CollapseAll(r + t, cls) == [Rep(cls)] + CollapseAll(t, cls)
    decreases |r|
  {
    var s := r + t;
    assert s[1..] == r[1..] + t;
    if |r| == 1 {
      assert s[1..] == t;
    } else {
      CollapseAllRun(r[1..], t, cls);
      assert s[1] == r[1];
    }
  }

  /** Splitting pieces joined with the replacement gives the pieces back. */
  lemma {:induction false} SplitJoinRuns(ts: seq<string>, cls: CharClass)
    requires Separated(ts, cls)
    ensures SplitRuns(Join(ts, [Rep(cls)]), cls) == ts
    decreases |ts|
  {
    if |ts| == 1 {
      SplitRunsPrefix(ts[0], "", cls);
      assert ts[0] + "" == ts[0];
    } else {
      var t := Join(ts[1..], [Rep(cls)]);
      assert Separated(ts[1..], cls);
      SplitJoinRuns(ts[1..], cls);
      var u := [Rep(cls)] + t;
      assert u[1..] == t;
      if |ts| > 2 {
        assert ts[1] != "" && t[0] == ts[1][0];
      } else {
        assert t == ts[1];
      }
      assert SplitRuns(u, cls) == [""] + ts[1..];
      assert Join(ts, [Rep(cls)]) == ts[0] + u;
      SplitRunsPrefix(ts[0], u, cls);
      assert ts[0] + "" == ts[0];
      assert [ts[0]] + ts[1..] == ts;
    }
  }

  /** Collapsing twice is collapsing once. */
  lemma CollapseIdempotent(s: string, cls: CharClass)
    ensures CollapseAll(CollapseAll(s, cls), cls) == CollapseAll(s, cls)
  {
    var ts := SplitRuns(s, cls);
    CollapseIsSplitJoin(s, cls);
    CollapseIsSplitJoin(Join(ts, [Rep(cls)]), cls);
    SplitJoinRuns(ts, cls);
  }

  /** With a count at least the number of runs, the counted substitution replaces them all. */
  lemma {:induction false} CollapseFirstAll(s: string, cls: CharClass, n: nat)
    requires n >= RunCount(s, cls)
    ensures CollapseFirst(s, cls, n) == CollapseAll(s, cls)
    decreases |s|
  {
    if |s| > 0 {
      if n == 0 {
        CollapseFree(s, cls);
      } else {
        CollapseFirstAll(s[1..], cls, if InClass(s[0], cls) && !(|s| > 1 && InClass(s[1], cls)) then n - 1 else n);
      }
    }
  }

  /** A text without the class is unchanged by collapsing. */
  lemma {:induction false} CollapseFree(s: string, cls: CharClass)
    requires Free(s, cls)
    ensures CollapseAll(s, cls) == s
    decreases |s|
  {
    if |s| > 0 {
      CollapseFree(s[1..], cls);
      assert [s[0]] + s[1..] == s;
    }
  }

  /**
   * The two substitutions and the strip, as the cleaning code writes them: each substitution
   * replaces only the first `re.M` = 8 runs.
   */
  function NormaliseAsWritten(s: string): (r: string)
    ensures IsStripped(r)
  {
    Strip(CollapseFirst(CollapseFirst(s, Newlines, MultilineFlag), Blanks, MultilineFlag))
  }

  /** The two substitutions and the strip as evidently intended: every run is collapsed. */
  function Normalise(s: string): (r: string)
    ensures IsStripped(r)
  {
    Strip(CollapseAll(CollapseAll(s, Newlines), Blanks))
  }

  /** A slice of a text without runs has no runs. */
  lemma NoRunsSlice(s: string, lo: nat, hi: nat, cls: CharClass)
    requires lo <= hi <= |s| && NoRuns(s, cls)
    ensures NoRuns(s[lo..hi], cls)
  {
    var t := s[lo..hi];
    forall i | 0 < i < |t| ensures !(InClass(t[i - 1], cls) && InClass(t[i], cls)) {
      assert t[i - 1] == s[lo + i - 1] && t[i] == s[lo + i];
    }
  }

  /** Collapsing blanks cannot make two newlines neighbours: each blank run leaves one blank. */
  lemma {:induction false} CollapseBlanksKeepsNewlines(s: string)
    requires NoRuns(s, Newlines)
    ensures NoRuns(CollapseAll(s, Blanks), Newlines)
    decreases |s|
  {
    if |s| > 0 {
      NoRunsSlice(s, 1, |s|, Newlines);
      CollapseBlanksKeepsNewlines(s[1..]);
    }
  }

  /**
   * Normalised text has no surrounding whitespace, no two neighbouring newlines, no two
   * neighbouring blanks, and no tab.
   */
  lemma NormaliseShape(s: string)
    ensures IsStripped(Normalise(s))
    ensures NoRuns(Normalise(s), Newlines) && NoRuns(Normalise(s), Blanks)
    ensures forall i :: 0 <= i < |Normalise(s)| ==> Normalise(s)[i] != '\t'
  {
    var n := CollapseAll(s, Newlines);
    var c := CollapseAll(n, Blanks);
    CollapseBlanksKeepsNewlines(n);
    assert forall i :: 0 <= i < |c| ==> c[i] != '\t' by {
      assert InClass('\t', Blanks);
    }
    var lo, hi :| 0 <= lo <= hi <= |c| && Strip(c) == c[lo..hi];
    NoRunsSlice(c, lo, hi, Blanks);
    NoRunsSlice(c, lo, hi, Newlines);
    SliceNoTab(c, lo, hi);
  }

  /** A slice of a text without tabs has no tabs. */
  lemma SliceNoTab(s: string, lo: nat, hi: nat)
    requires lo <= hi <= |s| && forall i :: 0 <= i < |s| ==> s[i] != '\t'
    ensures forall i :: 0 <= i < hi - lo ==> s[lo..hi][i] != '\t'
  {
    forall i | 0 <= i < hi - lo ensures s[lo..hi][i] != '\t' {
      assert s[lo..hi][i] == s[lo + i];
    }
  }

  /** Normalising twice is normalising once. */
  lemma NormaliseIdempotent(s: string)
    ensures Normalise(Normalise(s)) == Normalise(s)
  {
    var r := Normalise(s);
    NormaliseShape(s);
    CollapseNoRuns(r, Newlines);
    CollapseNoRuns(r, Blanks);
    StrippedIsFixed(r);
  }

  /** A text without runs is unchanged by collapsing. */
  lemma {:induction false} CollapseNoRuns(s: string, cls: CharClass)
    requires NoRuns(s, cls)
    requires forall i :: 0 <= i < |s| && InClass(s[i], cls) ==> s[i] == Rep(cls)
    ensures CollapseAll(s, cls) == s
    decreases |s|
  {
    if |s| > 0 {
      NoRunsSlice(s, 1, |s|, cls);
      CollapseNoRuns(s[1..], cls);
      assert [s[0]] + s[1..] == s;
    }
  }

  /** A word character followed by a single blank uses up one of the counted replacements. */
  lemma SingleBlankStep(c: char, t: string, n: nat)
    requires !InClass(c, Blanks) && |t| > 0 && !InClass(t[0], Blanks) && n > 0
    ensures CollapseFirst([c, ' '] + t, Blanks, n) == [c, ' '] + CollapseFirst(t, Blanks, n - 1)
  {
    var s := [c, ' '] + t;
    assert s[1..] == [' '] + t;
    assert ([' '] + t)[1..] == t;
  }

  /** `k` words `x`, each followed by a single blank. */
  function Spaced(k: nat): (s: string)
    ensures |s| == 2 * k
    ensures Free(s, Newlines)
    ensures k > 0 ==> s[0] == 'x'
  {
    if k == 0 then "" else "x " + Spaced(k - 1)
  }

  /** After `k` single blanks a count of `k` is used up, and the rest of the text is left alone. */
  lemma {:induction false} SpacedUsesCount(k: nat, t: string)
    requires |t| > 0 && !InClass(t[0], Blanks)
    ensures CollapseFirst(Spaced(k) + t, Blanks, k) == Spaced(k) + t
    decreases k
  {
    if k > 0 {
      var rest := Spaced(k - 1) + t;
      SpacedUsesCount(k - 1, t);
      assert Spaced(k) + t == ['x', ' '] + rest;
      SingleBlankStep('x', rest, k);
    }
  }

  /** The example text has no newline, starts and ends with a word, and holds two neighbouring blanks. */
  lemma SpacedExampleShape(k: nat, s: string)
    requires s == Spaced(k) + "x  x"
    ensures Free(s, Newlines) && IsStripped(s) && !NoRuns(s, Blanks)
  {
    var sp := Spaced(k);
    forall i | 0 <= i < |s| ensures !InClass(s[i], Newlines) {
      if i < |sp| { assert s[i] == sp[i]; }
    }
    assert s[|s| - 1] == 'x';
    assert k > 0 ==> s[0] == sp[0];
    assert s[|s| - 3] == ' ' && s[|s| - 2] == ' ';
  }

  /**
   * The counted substitution keeps a doubled blank once eight runs have been seen: after eight
   * single blanks, the as-written cleaning leaves a following pair of blanks in place, while the
   * intended cleaning leaves no two neighbouring blanks.
   */
  lemma NinthBlankRunKept(k: nat, s: string)
    requires k == MultilineFlag && s == Spaced(k) + "x  x"
    ensures NormaliseAsWritten(s) == s
    ensures !NoRuns(NormaliseAsWritten(s), Blanks)
    ensures NoRuns(Normalise(s), Blanks)
    ensures Normalise(s) != NormaliseAsWritten(s)
  {
    SpacedExampleShape(k, s);
    CollapseFirstAll(s, Newlines, MultilineFlag);
    CollapseFree(s, Newlines);
    SpacedUsesCount(k, "x  x");
    StrippedIsFixed(s);
    NormaliseShape(s);
  }

  /** A line survives the filter when it is not blank and is shorter than the length limit. */
  predicate KeepLine(l: string) {
    !IsBlank(l) && |l| < MaxLineLength
  }

  /**
   * The lines the filter keeps, in order: a single line is kept exactly when it passes, and
   * (`KeptLinesAppend`) the lines of a concatenation are those of each part.
   */
  function KeptLines(ls: seq<string>): (r: seq<string>)
    ensures |r| <= |ls|
    ensures forall i :: 0 <= i < |r| ==> KeepLine(r[i]) && r[i] in ls
    ensures forall i :: 0 <= i < |ls| && KeepLine(ls[i]) ==> ls[i] in r
    ensures |ls| == 1 ==> r == if KeepLine(ls[0]) then ls else []
    decreases |ls|
  {
    if |ls| == 0 then []
    else (if KeepLine(ls[0]) then [ls[0]] else []) + KeptLines(ls[1..])
  }

  /** The filter keeps order and multiplicity: it distributes over concatenation. */
  lemma {:induction false} KeptLinesAppend(a: seq<string>, b: seq<string>)
    ensures KeptLines(a + b) == KeptLines(a) + KeptLines(b)
    decreases |a|
  {
    if |a| == 0 {
      assert a + b == b;
    } else {
      KeptLinesAppend(a[1..], b);
      assert (a + b)[1..] == a[1..] + b && (a + b)[0] == a[0];
      var h := if KeepLine(a[0]) then [a[0]] else [];
      assert h + (KeptLines(a[1..]) + KeptLines(b)) == (h + KeptLines(a[1..])) + KeptLines(b);
    }
  }

  /** Filtering what is already filtered changes nothing. */
  lemma {:induction false} KeptLinesIdempotent(ls: seq<string>)
    ensures KeptLines(KeptLines(ls)) == KeptLines(ls)
    decreases |ls|
  {
    if |ls| > 0 {
      KeptLinesIdempotent(ls[1..]);
      var r := KeptLines(ls[1..]);
      if KeepLine(ls[0]) {
        assert ([ls[0]] + r)[1..] == r;
      } else {
        assert [] + r == r;
      }
    }
  }

  /**
   * The blank-line and long-line filter: split on newlines, keep, join with newlines. The
   * filtered text is empty when no line is kept; otherwise its lines are exactly the kept lines
   * of the input, in order, so none is blank and none reaches the length limit.
   */
  function FilterLines(text: string): (r: string)
    ensures KeptLines(SplitLines(text)) == [] ==> r == ""
    ensures KeptLines(SplitLines(text)) != [] ==> SplitLines(r) == KeptLines(SplitLines(text))
  {
    var kept := KeptLines(SplitLines(text));
    if kept != [] then
      SplitJoinLines(kept);
      Join(kept, "\n")
    else Join(kept, "\n")
  }

  /** Filtering twice is filtering once. */
  lemma FilterLinesIdempotent(text: string)
    ensures FilterLines(FilterLines(text)) == FilterLines(text)
  {
    var kept := KeptLines(SplitLines(text));
    if kept != [] {
      KeptLinesIdempotent(SplitLines(text));
    } else {
      assert SplitLines("") == [""];
      assert KeptLines([""]) == [];
    }
  }

  /** `re.split(r"[\t ]+", text)`: the words of the text. */
  function Tokens(text: string): (ts: seq<string>)
    ensures Separated(ts, Blanks)
  {
    SplitRuns(text, Blanks)
  }

  /** `" ".join(ts)`. */
  function JoinTokens(ts: seq<string>): (text: string)
  {
    Join(ts, " ")
  }

  /** Python's `ts[:-k]`: everything but the last `k` (nothing when there are fewer). */
  function DropLast<T>(ts: seq<T>, k: nat): (r: seq<T>)
    requires k > 0
  {
    if |ts| > k then ts[..|ts| - k] else []
  }

  /** Python's `ts[-k:]`: the last `k` (all of them when there are fewer). */
  function TakeLast<T>(ts: seq<T>, k: nat): (r: seq<T>)
    requires k > 0
  {
    if |ts| > k then ts[|ts| - k..] else ts
  }

  /**
   * One trim of the word list, `tokens[:-55] + tokens[-50:]`: the five words before the last
   * fifty go; with 51 to 54 words only the last fifty stay; with fifty or fewer nothing changes.
   */
  function TrimTokens<T>(ts: seq<T>): (r: seq<T>)
    ensures |ts| <= KeepEndTokens ==> r == ts
    ensures |r| == if |ts| <= KeepEndTokens then |ts|
                   else if |ts| - DropTokens > KeepEndTokens then |ts| - DropTokens
                   else KeepEndTokens
    ensures TakeLast(r, KeepEndTokens) == TakeLast(ts, KeepEndTokens)
    ensures |ts| >= KeepEndTokens + DropTokens ==>
              r[..|ts| - KeepEndTokens - DropTokens] == ts[..|ts| - KeepEndTokens - DropTokens]
  {
    DropLast(ts, KeepEndTokens + DropTokens) + TakeLast(ts, KeepEndTokens)
  }

  /** Each word of a trimmed word list is a word of the list. */
  lemma TrimKeepsFree(ts: seq<string>, cls: CharClass)
    requires forall k :: 0 <= k < |ts| ==> Free(ts[k], cls)
    ensures forall k :: 0 <= k < |TrimTokens(ts)| ==> Free(TrimTokens(ts)[k], cls)
  {
    var r := TrimTokens(ts);
    var n := |ts|;
    if n > KeepEndTokens {
      var d := DropLast(ts, KeepEndTokens + DropTokens);
      assert r == d + ts[n - KeepEndTokens..];
      forall k | 0 <= k < |r| ensures Free(r[k], cls) {
        if k < |d| { assert r[k] == ts[k]; } else { assert r[k] == ts[n - KeepEndTokens + k - |d|]; }
      }
    }
  }

  /** The inner words of a trimmed word list are inner words of the list. */
  lemma TrimKeepsInner(ts: seq<string>)
    requires forall k :: 0 < k < |ts| - 1 ==> ts[k] != ""
    ensures forall k :: 0 < k < |TrimTokens(ts)| - 1 ==> TrimTokens(ts)[k] != ""
  {
    var r := TrimTokens(ts);
    var n := |ts|;
    if n > KeepEndTokens {
      var d := DropLast(ts, KeepEndTokens + DropTokens);
      assert r == d + ts[n - KeepEndTokens..];
      forall k | 0 < k < |r| - 1 ensures r[k] != "" {
        if k < |d| { assert r[k] == ts[k]; } else { assert r[k] == ts[n - KeepEndTokens + k - |d|]; }
      }
    }
  }

  /** A trimmed word list is still one `re.split` can return. */
  lemma TrimKeepsSeparated(ts: seq<string>, cls: CharClass)
    requires Separated(ts, cls)
    ensures Separated(TrimTokens(ts), cls)
  {
    TrimKeepsFree(ts, cls);
    TrimKeepsInner(ts);
  }

  /**
   * `" ".join(tokens[:-55] + tokens[-50:])` on the words of the text: one pass of the trim loop.
   * The words of the trimmed text are the trimmed words of the text.
   */
  function TrimStep(text: string): (r: string)
    ensures Tokens(r) == TrimTokens(Tokens(text))
    ensures CollapseAll(r, Blanks) == r
  {
    TrimKeepsSeparated(Tokens(text), Blanks);
    SplitJoinRuns(TrimTokens(Tokens(text)), Blanks);
    CollapseIsSplitJoin(JoinTokens(TrimTokens(Tokens(text))), Blanks);
    JoinTokens(TrimTokens(Tokens(text)))
  }

  /** Once fifty words or fewer remain, a trim only normalises blanks, and further trims do nothing. */
  lemma TrimStepStalls(text: string)
    requires |Tokens(text)| <= KeepEndTokens
    ensures TrimStep(text) == CollapseAll(text, Blanks)
    ensures TrimStep(TrimStep(text)) == TrimStep(text)
  {
    CollapseIsSplitJoin(text, Blanks);
  }

  /** The text after `n` applications of `step`. */
  function Iterate(step: string -> string, text: string, n: nat): (r: string)
    decreases n
  {
    if n == 0 then text else Iterate(step, step(text), n - 1)
  }

  /** One more application is an application to the result. */
  lemma {:induction false} IterateSnoc(step: string -> string, text: string, n: nat)
    ensures Iterate(step, text, n + 1) == step(Iterate(step, text, n))
    decreases n
  {
    if n > 0 {
      IterateSnoc(step, step(text), n - 1);
    }
  }

  /** The word list after `n` trims. */
  function TrimTimes<T>(ts: seq<T>, n: nat): (r: seq<T>)
    decreases n
  {
    if n == 0 then ts else TrimTimes(TrimTokens(ts), n - 1)
  }

  /** However many trims are made, the last fifty words stay. */
  lemma {:induction false} TrimTimesKeepsEnd<T>(ts: seq<T>, n: nat)
    ensures TakeLast(TrimTimes(ts, n), KeepEndTokens) == TakeLast(ts, KeepEndTokens)
    decreases n
  {
    if n > 0 {
      TrimTimesKeepsEnd(TrimTokens(ts), n - 1);
    }
  }

  /** The number of words after one trim of `m` words. */
  function TrimmedCount(m: nat): (k: nat)
    ensures k <= m
    ensures m > KeepEndTokens ==> KeepEndTokens <= k < m
  {
    if m <= KeepEndTokens then m else if m - DropTokens > KeepEndTokens then m - DropTokens else KeepEndTokens
  }

  /** Each trim removes five words until fifty remain; a list of fifty words or fewer keeps its length. */
  lemma {:induction false} TrimTimesCount<T>(ts: seq<T>, n: nat)
    ensures |ts| <= KeepEndTokens ==> |TrimTimes(ts, n)| == |ts|
    ensures |ts| > KeepEndTokens ==>
              |TrimTimes(ts, n)| == if |ts| - DropTokens * n > KeepEndTokens then |ts| - DropTokens * n else KeepEndTokens
    decreases n
  {
    if n > 0 {
      TrimTimesCount(TrimTokens(ts), n - 1);
      assert |TrimTokens(ts)| == TrimmedCount(|ts|);
    }
  }

  /** The words of a text trimmed `n` times are its words trimmed `n` times. */
  lemma {:induction false} TrimmedWords(text: string, n: nat)
    ensures Tokens(Iterate(TrimStep, text, n)) == TrimTimes(Tokens(text), n)
    decreases n
  {
    if n > 0 {
      TrimmedWords(TrimStep(text), n - 1);
    }
  }

  /** However many trims are made, the last fifty words are those of the original text. */
  lemma TrimmedKeepsEnd(text: string, n: nat)
    ensures TakeLast(Tokens(Iterate(TrimStep, text, n)), KeepEndTokens) == TakeLast(Tokens(text), KeepEndTokens)
  {
    TrimmedWords(text, n);
    TrimTimesKeepsEnd(Tokens(text), n);
  }

  /** Each trim removes five words until fifty remain; a text of fifty words or fewer keeps its count. */
  lemma TrimmedTokenCount(text: string, n: nat)
    ensures |Tokens(text)| <= KeepEndTokens ==> |Tokens(Iterate(TrimStep, text, n))| == |Tokens(text)|
    ensures |Tokens(text)| > KeepEndTokens ==>
              |Tokens(Iterate(TrimStep, text, n))| == if |Tokens(text)| - DropTokens * n > KeepEndTokens
                                                      then |Tokens(text)| - DropTokens * n else KeepEndTokens
  {
    TrimmedWords(text, n);
    TrimTimesCount(Tokens(text), n);
  }

  /** One more application of the loop body keeps the loop's invariant. */
  lemma TrimLoopAdvance(step: string -> string, countTokens: string -> nat, text: string, cleaned: string, attempts: nat)
    requires attempts < MaxTrimAttempts && countTokens(cleaned) > MaxDocSize
    requires cleaned == Iterate(step, text, attempts)
    requires forall j :: 0 <= j < attempts ==> countTokens(Iterate(step, text, j)) > MaxDocSize
    ensures step(cleaned) == Iterate(step, text, attempts + 1)
    ensures TrimLoop(step, countTokens, step(cleaned), attempts + 1) == TrimLoop(step, countTokens, cleaned, attempts)
    ensures forall j :: 0 <= j < attempts + 1 ==> countTokens(Iterate(step, text, j)) > MaxDocSize
  {
    IterateSnoc(step, text, attempts);
  }

  /**
   * The loop of the code, with its step as a parameter: while the tokenizer counts more than the
   * budget and fewer than 200 attempts have been made, apply the step once more.
   */
  function TrimLoop(step: string -> string, countTokens: string -> nat, text: string, attempts: nat): (r: string)
    requires attempts <= MaxTrimAttempts
    ensures countTokens(text) <= MaxDocSize ==> r == text
    decreases MaxTrimAttempts - attempts
  {
    if countTokens(text) > MaxDocSize && attempts < MaxTrimAttempts
    then TrimLoop(step, countTokens, step(text), attempts + 1)
    else text
  }

  /**
   * `r` is the first iterate that fits the budget, looking no further than the attempts left
   * after `attempts` have been made.
   */
  ghost predicate FirstFit(step: string -> string, countTokens: string -> nat, text: string, n: nat, attempts: nat, r: string)
  {
    && attempts + n <= MaxTrimAttempts
    && r == Iterate(step, text, n)
    && (countTokens(r) <= MaxDocSize || attempts + n == MaxTrimAttempts)
    && (forall j :: 0 <= j < n ==> countTokens(Iterate(step, text, j)) > MaxDocSize)
  }

  /**
   * The loop stops at the first number of steps after which the text fits the budget, or when
   * the attempts run out if none does.
   */
  lemma {:induction false} TrimLoopFirstFit(step: string -> string, countTokens: string -> nat, text: string, attempts: nat)
    requires attempts <= MaxTrimAttempts
    ensures exists n :: FirstFit(step, countTokens, text, n, attempts, TrimLoop(step, countTokens, text, attempts))
    decreases MaxTrimAttempts - attempts
  {
    var r := TrimLoop(step, countTokens, text, attempts);
    if countTokens(text) > MaxDocSize && attempts < MaxTrimAttempts {
      TrimLoopFirstFit(step, countTokens, step(text), attempts + 1);
      var m: nat :| FirstFit(step, countTokens, step(text), m, attempts + 1, r);
      forall j | 0 <= j < m + 1 ensures countTokens(Iterate(step, text, j)) > MaxDocSize {
        if j > 0 {
          assert Iterate(step, text, j) == Iterate(step, step(text), j - 1);
        }
      }
      assert Iterate(step, text, m + 1) == Iterate(step, step(text), m);
      assert FirstFit(step, countTokens, text, m + 1, attempts, r);
    } else {
      assert FirstFit(step, countTokens, text, 0, attempts, r);
    }
  }

  /**
   * The trim loop run in place, as the code runs it with `TrimStep` as its step, returning the
   * text and the attempts made.
   */
  method TrimToBudget(step: string -> string, text: string, countTokens: string -> nat)
    returns (cleaned: string, attempts: nat)
    ensures cleaned == TrimLoop(step, countTokens, text, 0)
    ensures attempts <= MaxTrimAttempts && cleaned == Iterate(step, text, attempts)
    ensures countTokens(cleaned) <= MaxDocSize || attempts == MaxTrimAttempts
    ensures forall j :: 0 <= j < attempts ==> countTokens(Iterate(step, text, j)) > MaxDocSize
  {
    cleaned := text;
    attempts := 0;
    while countTokens(cleaned) > MaxDocSize && attempts < MaxTrimAttempts
      invariant attempts <= MaxTrimAttempts
      invariant cleaned == Iterate(step, text, attempts)
      invariant TrimLoop(step, countTokens, cleaned, attempts) == TrimLoop(step, countTokens, text, 0)
      invariant forall j :: 0 <= j < attempts ==> countTokens(Iterate(step, text, j)) > MaxDocSize
      decreases MaxTrimAttempts - attempts
    {
      TrimLoopAdvance(step, countTokens, text, cleaned, attempts);
      attempts := attempts + 1;
      cleaned := step(cleaned);
    }
  }

  /**
   * Trimming a text: the result is the text trimmed the fewest times that makes it fit, or 200
   * times; either way its last fifty words are those of the text.
   */
  lemma TrimmedFits(text: string, countTokens: string -> nat)
    ensures exists n :: FirstFit(TrimStep, countTokens, text, n, 0, TrimLoop(TrimStep, countTokens, text, 0))
    ensures TakeLast(Tokens(TrimLoop(TrimStep, countTokens, text, 0)), KeepEndTokens)
            == TakeLast(Tokens(text), KeepEndTokens)
  {
    TrimLoopFirstFit(TrimStep, countTokens, text, 0);
    var n: nat :| FirstFit(TrimStep, countTokens, text, n, 0, TrimLoop(TrimStep, countTokens, text, 0));
    TrimmedKeepsEnd(text, n);
  }

  /**
   * `clean_document` as the code runs it: the substitutions limited to eight runs each, the
   * strip, the line filter, then the trim loop. `countTokens` stands for the model's tokenizer
   * applied to the UTF-8 bytes of the text.
   */
  function CleanDocument(pageText: string, countTokens: string -> nat): (cleaned: string)
    ensures countTokens(FilterLines(NormaliseAsWritten(pageText))) <= MaxDocSize
            ==> cleaned == FilterLines(NormaliseAsWritten(pageText))
  {
    TrimLoop(TrimStep, countTokens, FilterLines(NormaliseAsWritten(pageText)), 0)
  }

  /**
   * The cleaned document is the filtered text trimmed the fewest times that makes it fit, or
   * 200 times; either way its last fifty words are those of the filtered text.
   */
  lemma CleanDocumentFits(pageText: string, countTokens: string -> nat)
    ensures exists n :: FirstFit(TrimStep, countTokens, FilterLines(NormaliseAsWritten(pageText)), n, 0,
                                 CleanDocument(pageText, countTokens))
    ensures TakeLast(Tokens(CleanDocument(pageText, countTokens)), KeepEndTokens)
            == TakeLast(Tokens(FilterLines(NormaliseAsWritten(pageText))), KeepEndTokens)
  {
    var filtered := FilterLines(NormaliseAsWritten(pageText));
    TrimmedFits(filtered, countTokens);
    var n: nat :| FirstFit(TrimStep, countTokens, filtered, n, 0, TrimLoop(TrimStep, countTokens, filtered, 0));
    assert FirstFit(TrimStep, countTokens, filtered, n, 0, CleanDocument(pageText, countTokens));
  }

  /** `clean_document` as evidently intended: every run collapsed before the filter and the trim loop. */
  function CleanDocumentIntended(pageText: string, countTokens: string -> nat): (cleaned: string)
    ensures countTokens(FilterLines(Normalise(pageText))) <= MaxDocSize ==> cleaned == FilterLines(Normalise(pageText))
  {
    TrimLoop(TrimStep, countTokens, FilterLines(Normalise(pageText)), 0)
  }

  /**
   * The two cleanings differ only through the count: on a text with at most eight runs of
   * newlines, whose collapsed form has at most eight runs of blanks, they agree.
   */
  lemma CleanDocumentAgrees(pageText: string, countTokens: string -> nat)
    requires RunCount(pageText, Newlines) <= MultilineFlag
    requires RunCount(CollapseAll(pageText, Newlines), Blanks) <= MultilineFlag
    ensures NormaliseAsWritten(pageText) == Normalise(pageText)
    ensures CleanDocument(pageText, countTokens) == CleanDocumentIntended(pageText, countTokens)
  {
    CollapseFirstAll(pageText, Newlines, MultilineFlag);
    CollapseFirstAll(CollapseAll(pageText, Newlines), Blanks, MultilineFlag);
  }
}
