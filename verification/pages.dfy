/**
 * Page segmentation of a raw text stream (`line_matches` and `text_to_pages`):
 * every line after the first is appended to the current page buffer, and a line
 * that matches a page marker closes that buffer and opens an empty one.
 */
module Pages {
  import opened Basics
  import opened Text

  /**
   * The source's regular-expression test: `re.match(".*" + m + ".*", text, re.I)` where every
   * whitespace run of the marker `m` became `\s+`. The regex engine is not modelled; a matcher
   * is any predicate on (text, marker).
   */
  type Matcher = (string, string) -> bool

  /** None of the first `i` markers matches `line`. */
  predicate NoMatchBefore(line: string, markers: seq<string>, matches: Matcher, i: int)
    requires 0 <= i <= |markers|
  {
    forall j :: 0 <= j < i ==> !matches(line, markers[j])
  }

  /** `line_matches`: the first marker, in iteration order, that matches `line`, if any. */
  function LineMatches(line: string, markers: seq<string>, matches: Matcher): (r: Option<string>)
    ensures r.None? <==> forall i :: 0 <= i < |markers| ==> !matches(line, markers[i])
    ensures r.Some? ==>
              exists i :: 0 <= i < |markers| && markers[i] == r.value && matches(line, markers[i])
                          && NoMatchBefore(line, markers, matches, i)
    decreases |markers|
  {
    if |markers| == 0 then None
    else if matches(line, markers[0]) then Some(markers[0])
    else
      LineMatchesShift(line, markers, matches);
      LineMatches(line, markers[1..], matches)
  }

  /** A first match in the tail of the markers is a first match in the whole list when the head does not match. */
  lemma LineMatchesShift(line: string, markers: seq<string>, matches: Matcher)
    requires |markers| > 0 && !matches(line, markers[0])
    ensures (forall i :: 0 <= i < |markers[1..]| ==> !matches(line, markers[1..][i]))
            ==> forall i :: 0 <= i < |markers| ==> !matches(line, markers[i])
    ensures forall i :: 0 <= i < |markers[1..]| && NoMatchBefore(line, markers[1..], matches, i)
                        ==> NoMatchBefore(line, markers, matches, i + 1)
  {
    assert forall j :: 0 < j < |markers| ==> markers[j] == markers[1..][j - 1];
  }

  /** A marker that matches and follows only markers that do not is the one `line_matches` returns. */
  lemma {:induction false} FirstMatchFound(line: string, markers: seq<string>, matches: Matcher, i: nat)
    requires i < |markers| && matches(line, markers[i]) && NoMatchBefore(line, markers, matches, i)
    ensures LineMatches(line, markers, matches) == Some(markers[i])
    decreases i
  {
    if i > 0 {
      assert !matches(line, markers[0]);
      assert markers[1..][i - 1] == markers[i];
      assert forall k :: 0 <= k < i - 1 ==> markers[1..][k] == markers[k + 1];
      FirstMatchFound(line, markers[1..], matches, i - 1);
    }
  }

  /** Every first match is the marker `line_matches` returns. */
  lemma LineMatchesFirst(line: string, markers: seq<string>, matches: Matcher)
    ensures forall i :: 0 <= i < |markers| && matches(line, markers[i]) && NoMatchBefore(line, markers, matches, i)
                        ==> LineMatches(line, markers, matches) == Some(markers[i])
  {
    forall i | 0 <= i < |markers| && matches(line, markers[i]) && NoMatchBefore(line, markers, matches, i)
      ensures LineMatches(line, markers, matches) == Some(markers[i])
    {
      FirstMatchFound(line, markers, matches, i);
    }
  }

  /**
   * The condition `if line_matches(...)` tests: Python truthiness of the returned marker. A line
   * opens a page exactly when the first marker it matches is not empty.
   */
  function Opens(line: string, markers: seq<string>, matches: Matcher): (b: bool)
    ensures b <==> exists i :: 0 <= i < |markers| && markers[i] != "" && matches(line, markers[i])
                              && NoMatchBefore(line, markers, matches, i)
  {
    LineMatchesFirst(line, markers, matches);
    var m := LineMatches(line, markers, matches);
    m.Some? && m.value != ""
  }

  /** How many of `lines` open a new buffer. */
  function OpenCount(lines: seq<string>, markers: seq<string>, matches: Matcher): nat
    decreases |lines|
  {
    if |lines| == 0 then 0
    else OpenCount(lines[..|lines| - 1], markers, matches)
         + (if Opens(lines[|lines| - 1], markers, matches) then 1 else 0)
  }

  /**
   * One iteration of the loop of `text_to_pages` after the first line: append the line and an
   * extra newline to the last buffer, then open an empty buffer if the line matched.
   */
  function PageStep(bufs: seq<string>, line: string, opens: bool): (bufs': seq<string>)
    requires |bufs| > 0
    ensures |bufs'| == |bufs| + (if opens then 1 else 0)
    ensures bufs'[..|bufs| - 1] == bufs[..|bufs| - 1]
    ensures bufs'[|bufs| - 1] == bufs[|bufs| - 1] + line + "\n"
    ensures opens ==> bufs'[|bufs|] == ""
  {
    var grown := bufs[..|bufs| - 1] + [bufs[|bufs| - 1] + line + "\n"];
    if opens then grown + [""] else grown
  }

  /** Counting the opening lines after the first, one more line at a time. */
  lemma OpenCountTail(lines: seq<string>, markers: seq<string>, matches: Matcher)
    requires |lines| > 1
    ensures OpenCount(lines[1..], markers, matches)
            == OpenCount(lines[..|lines| - 1][1..], markers, matches)
               + (if Opens(lines[|lines| - 1], markers, matches) then 1 else 0)
  {
    assert lines[1..][..|lines[1..]| - 1] == lines[..|lines| - 1][1..];
    assert lines[1..][|lines[1..]| - 1] == lines[|lines| - 1];
  }

  /**
   * The list `pages` of `text_to_pages` after its loop: the first line seeds the first buffer,
   * every later line is appended with an extra newline (the line read from the file keeps its
   * own), and a matching line is followed by a fresh empty buffer.
   */
  function PageBuffers(lines: seq<string>, markers: seq<string>, matches: Matcher): (bufs: seq<string>)
    ensures |bufs| == 0 <==> |lines| == 0
    ensures |lines| > 0 ==> |bufs| == 1 + OpenCount(lines[1..], markers, matches)
    decreases |lines|
  {
    if |lines| <= 1 then lines
    else
      var prefix := lines[..|lines| - 1];
      var line := lines[|lines| - 1];
      OpenCountTail(lines, markers, matches);
      PageStep(PageBuffers(prefix, markers, matches), line, Opens(line, markers, matches))
  }

  /**
   * Where each buffer starts, as an index into the lines: the first at line 0, and a further
   * one just after every later line that opens a buffer.
   */
  function BufferStarts(lines: seq<string>, markers: seq<string>, matches: Matcher): (starts: seq<nat>)
    ensures |starts| == |PageBuffers(lines, markers, matches)|
    decreases |lines|
  {
    if |lines| <= 1 then (if |lines| == 0 then [] else [0])
    else
      BufferStarts(lines[..|lines| - 1], markers, matches)
      + (if Opens(lines[|lines| - 1], markers, matches) then [|lines|] else [])
  }

  /** Where buffer `k` ends: where the next one starts, or after the last line. */
  function BufferEnd(starts: seq<nat>, k: nat, n: nat): nat
    requires k < |starts|
  {
    if k + 1 < |starts| then starts[k + 1] else n
  }

  /** The test `if line_matches(line, new_page_identifiers)` as a function of the line. */
  function Opener(markers: seq<string>, matches: Matcher): (isOpen: string -> bool)
    ensures forall l :: isOpen(l) == Opens(l, markers, matches)
  {
    l => Opens(l, markers, matches)
  }

  /**
   * The buffers start at line 0 and just after each later line that passes `isOpen`, and
   * nowhere else: a buffer never holds an opening line except as its last line.
   */
  ghost predicate CutAfterOpeners(lines: seq<string>, starts: seq<nat>, isOpen: string -> bool)
  {
    && |starts| > 0 && starts[0] == 0
    && Increasing(starts)
    && CutsMarked(lines, starts, isOpen)
    && CutsComplete(lines, starts, isOpen)
  }

  /** Each cut point after the first follows a line after the first that opens a buffer. */
  ghost predicate CutsMarked(lines: seq<string>, starts: seq<nat>, isOpen: string -> bool)
  {
    forall k :: 0 < k < |starts| ==> 2 <= starts[k] <= |lines| && isOpen(lines[starts[k] - 1])
  }

  /** Each line after the first that opens a buffer is followed by a cut point. */
  ghost predicate CutsComplete(lines: seq<string>, starts: seq<nat>, isOpen: string -> bool)
  {
    forall i :: 1 <= i < |lines| && isOpen(lines[i]) ==> i + 1 in starts
  }

  /** Buffer `k` holds exactly the lines from its start up to the next buffer's start. */
  ghost predicate HoldsLines(lines: seq<string>, bufs: seq<string>, starts: seq<nat>, k: nat)
    requires k < |starts| == |bufs|
  {
    && starts[k] <= BufferEnd(starts, k, |lines|) <= |lines|
    && (starts[k] == 0 ==> BufferEnd(starts, k, |lines|) > 0)
    && bufs[k] == SpanText(lines, starts[k], BufferEnd(starts, k, |lines|))
  }

  /** Every buffer holds exactly its lines. */
  ghost predicate CoversLines(lines: seq<string>, bufs: seq<string>, starts: seq<nat>)
  {
    |bufs| == |starts| && forall k :: 0 <= k < |bufs| ==> HoldsLines(lines, bufs, starts, k)
  }

  /** The cut points stay correct when a line is added. */
  lemma CutStep(lines: seq<string>, starts: seq<nat>, isOpen: string -> bool)
    requires |lines| > 1
    requires CutAfterOpeners(lines[..|lines| - 1], starts, isOpen)
    ensures var opens := isOpen(lines[|lines| - 1]);
            CutAfterOpeners(lines, starts + (if opens then [|lines|] else []), isOpen)
  {
    var n := |lines|;
    var prefix := lines[..n - 1];
    var opens := isOpen(lines[n - 1]);
    var starts' := starts + (if opens then [n] else []);
    StartsBelow(lines, starts, isOpen);
    CutMarkedStep(lines, prefix, starts, opens, isOpen);
    CutCompleteStep(lines, prefix, starts, opens, isOpen);
    assert Increasing(starts') by {
      assert forall k :: 0 <= k < |starts| ==> starts'[k] == starts[k];
    }
  }

  /** The cut points over all but the last line lie before it. */
  lemma StartsBelow(lines: seq<string>, starts: seq<nat>, isOpen: string -> bool)
    requires |lines| > 1
    requires CutAfterOpeners(lines[..|lines| - 1], starts, isOpen)
    ensures forall k :: 0 <= k < |starts| ==> starts[k] < |lines|
  {
    forall k | 0 <= k < |starts| ensures starts[k] < |lines| {
      if k > 0 { assert starts[k] <= |lines[..|lines| - 1]|; }
    }
  }

  /** Each cut point after the first, old or added, follows an opening line. */
  lemma CutMarkedStep(lines: seq<string>, prefix: seq<string>, starts: seq<nat>, opens: bool, isOpen: string -> bool)
    requires |lines| > 1 && prefix == lines[..|lines| - 1] && opens == isOpen(lines[|lines| - 1])
    requires CutsMarked(prefix, starts, isOpen)
    ensures CutsMarked(lines, starts + (if opens then [|lines|] else []), isOpen)
  {
    var n := |lines|;
    var starts' := starts + (if opens then [n] else []);
    forall k | 0 < k < |starts'| ensures 2 <= starts'[k] <= n && isOpen(lines[starts'[k] - 1]) {
      if k < |starts| {
        assert starts'[k] == starts[k];
        assert lines[starts[k] - 1] == prefix[starts[k] - 1];
      } else {
        assert starts'[k] == n;
      }
    }
  }

  /** Every opening line after the first, old or added, is followed by a cut point. */
  lemma CutCompleteStep(lines: seq<string>, prefix: seq<string>, starts: seq<nat>, opens: bool, isOpen: string -> bool)
    requires |lines| > 1 && prefix == lines[..|lines| - 1] && opens == isOpen(lines[|lines| - 1])
    requires CutsComplete(prefix, starts, isOpen)
    ensures CutsComplete(lines, starts + (if opens then [|lines|] else []), isOpen)
  {
    var n := |lines|;
    var starts' := starts + (if opens then [n] else []);
    forall i | 1 <= i < n && isOpen(lines[i]) ensures i + 1 in starts' {
      if i < n - 1 {
        assert lines[i] == prefix[i];
        assert i + 1 in starts;
      } else {
        assert starts'[|starts|] == n;
      }
    }
  }

  /** The buffers still hold exactly their lines after a loop step. */
  lemma CoverStep(lines: seq<string>, bufs: seq<string>, starts: seq<nat>, opens: bool)
    requires |lines| > 1 && |bufs| > 0
    requires forall k :: 0 <= k < |starts| ==> starts[k] < |lines|
    requires CoversLines(lines[..|lines| - 1], bufs, starts)
    ensures CoversLines(lines, PageStep(bufs, lines[|lines| - 1], opens),
                        starts + (if opens then [|lines|] else []))
  {
    var n := |lines|;
    var prefix := lines[..n - 1];
    var bufs' := PageStep(bufs, lines[n - 1], opens);
    var starts' := starts + (if opens then [n] else []);
    var last := |bufs| - 1;
    forall k | 0 <= k < |bufs'| ensures HoldsLines(lines, bufs', starts', k) {
      if k < last {
        assert bufs'[k] == bufs'[..last][k] == bufs[k];
        assert starts'[k] == starts[k] && starts'[k + 1] == starts[k + 1];
        assert HoldsLines(prefix, bufs, starts, k);
        SpanTextPrefix(lines, n - 1, starts[k], starts[k + 1]);
      } else if k == last {
        assert starts'[k] == starts[k] && BufferEnd(starts', k, n) == n;
        assert HoldsLines(prefix, bufs, starts, k);
        SpanTextPrefix(lines, n - 1, starts[k], n - 1);
        SpanTextSnoc(lines, starts[k], n - 1);
      } else {
        assert starts'[k] == n && bufs'[k] == "";
        assert lines[n..n] == [];
      }
    }
  }

  /**
   * Where `text_to_pages` cuts: buffer 0 starts at the first line, every other buffer starts
   * just after a line that opens a buffer, and each buffer holds exactly the lines up to and
   * including the next opening line (the first bare, the others with their extra newline).
   */
  lemma {:induction false} PageBuffersCover(lines: seq<string>, markers: seq<string>, matches: Matcher)
    requires |lines| > 0
    ensures CutAfterOpeners(lines, BufferStarts(lines, markers, matches), Opener(markers, matches))
    ensures CoversLines(lines, PageBuffers(lines, markers, matches), BufferStarts(lines, markers, matches))
    decreases |lines|
  {
    var starts := BufferStarts(lines, markers, matches);
    var bufs := PageBuffers(lines, markers, matches);
    if |lines| == 1 {
      assert starts == [0] && bufs == lines;
      assert lines[1..1] == [];
      assert SpanText(lines, 0, 1) == lines[0] + "";
    } else {
      var prefix := lines[..|lines| - 1];
      var startsP := BufferStarts(prefix, markers, matches);
      PageBuffersCover(prefix, markers, matches);
      CutStep(lines, startsP, Opener(markers, matches));
      StartsBelow(lines, startsP, Opener(markers, matches));
      CoverStep(lines, PageBuffers(prefix, markers, matches), startsP, Opens(lines[|lines| - 1], markers, matches));
    }
  }

  /** Every buffer stripped: the `p.strip()` of `[p.strip() for p in bufs if p.strip()]`. */
  function StripAll(bufs: seq<string>): (r: seq<string>)
    ensures |r| == |bufs|
    ensures forall i :: 0 <= i < |bufs| ==> r[i] == Strip(bufs[i]) && IsStripped(r[i])
  {
    seq(|bufs|, i requires 0 <= i < |bufs| => Strip(bufs[i]))
  }

  /** Each string's strip is among the stripped strings, and each stripped string is some string's strip. */
  lemma StripAllMembers(bufs: seq<string>)
    ensures forall b :: b in bufs ==> Strip(b) in StripAll(bufs)
    ensures forall x :: x in StripAll(bufs) ==> exists b :: b in bufs && Strip(b) == x
  {
    var r := StripAll(bufs);
    forall b | b in bufs ensures Strip(b) in r {
      var i :| 0 <= i < |bufs| && bufs[i] == b;
      assert r[i] == Strip(b);
    }
    forall x | x in r ensures exists b :: b in bufs && Strip(b) == x {
      var i :| 0 <= i < |r| && r[i] == x;
      assert bufs[i] in bufs;
    }
  }

  /**
   * The non-empty strings, in order: the `if p.strip()` filter. A string is kept exactly when it
   * is given and not empty; a single string is kept exactly when it is not empty, and
   * (`NonEmptyAppend`) the filter of a concatenation is that of each part.
   */
  function NonEmpty(ss: seq<string>): (r: seq<string>)
    ensures |r| <= |ss|
    ensures forall i :: 0 <= i < |r| ==> r[i] != ""
    ensures forall x :: x in r <==> x in ss && x != ""
    ensures |ss| == 1 ==> r == if ss[0] != "" then ss else []
    decreases |ss|
  {
    if |ss| == 0 then []
    else
      var rest := NonEmpty(ss[..|ss| - 1]);
      assert ss == ss[..|ss| - 1] + [ss[|ss| - 1]];
      if ss[|ss| - 1] != "" then rest + [ss[|ss| - 1]] else rest
  }

  /** The filter only keeps strings it was given, so stripped strings stay stripped. */
  lemma {:induction false} NonEmptyKeepsStripped(ss: seq<string>)
    requires forall i :: 0 <= i < |ss| ==> IsStripped(ss[i])
    ensures forall i :: 0 <= i < |NonEmpty(ss)| ==> IsStripped(NonEmpty(ss)[i])
    decreases |ss|
  {
    if |ss| > 0 {
      NonEmptyKeepsStripped(ss[..|ss| - 1]);
    }
  }

  /**
   * `text_to_pages` on the lines of the input file (reading the file is not modelled): every
   * buffer that is not blank gives its stripped text as a page, and every page is a non-empty
   * stripped buffer.
   */
  function TextToPages(lines: seq<string>, markers: seq<string>, matches: Matcher): (pages: seq<string>)
    ensures |lines| == 0 ==> pages == []
    ensures forall i :: 0 <= i < |pages| ==> pages[i] != "" && Strip(pages[i]) == pages[i]
    ensures forall b :: b in PageBuffers(lines, markers, matches) && !IsBlank(b) ==> Strip(b) in pages
    ensures forall p :: p in pages ==> exists b :: b in PageBuffers(lines, markers, matches) && Strip(b) == p
  {
    var stripped := StripAll(PageBuffers(lines, markers, matches));
    StripAllMembers(PageBuffers(lines, markers, matches));
    var pages := NonEmpty(stripped);
    NonEmptyKeepsStripped(stripped);
    StrippedAreFixed(pages);
    pages
  }

  /** Every string of a list of stripped strings is unchanged by `Strip`. */
  lemma StrippedAreFixed(ss: seq<string>)
    requires forall i :: 0 <= i < |ss| ==> IsStripped(ss[i])
    ensures forall i :: 0 <= i < |ss| ==> Strip(ss[i]) == ss[i]
  {
    forall i | 0 <= i < |ss| ensures Strip(ss[i]) == ss[i] {
      StrippedIsFixed(ss[i]);
    }
  }

  /** One loop step adds the line and its extra newline to the concatenated buffers. */
  lemma PageStepConcat(bufs: seq<string>, line: string, opens: bool)
    requires |bufs| > 0
    ensures Concat(PageStep(bufs, line, opens)) == Concat(bufs) + line + "\n"
  {
    var init := bufs[..|bufs| - 1];
    var last := bufs[|bufs| - 1];
    var grown := init + [last + line + "\n"];
    ConcatSnoc(init, last + line + "\n");
    ConcatSnoc(init, last);
    assert init + [last] == bufs;
    AppendAssoc(Concat(init), last, line, "\n");
    if opens {
      ConcatSnoc(grown, "");
      assert Concat(grown) + "" == Concat(grown);
    }
  }

  /**
   * No line is lost or reordered: the buffers, concatenated, are the first line followed by
   * every later line with its extra newline.
   */
  lemma {:induction false} PageBuffersConcat(lines: seq<string>, markers: seq<string>, matches: Matcher)
    requires |lines| > 0
    ensures Concat(PageBuffers(lines, markers, matches)) == lines[0] + Terminated(lines[1..])
    decreases |lines|
  {
    if |lines| == 1 {
      assert Concat(lines) == Concat(lines[..0]) + lines[0];
    } else {
      var prefix := lines[..|lines| - 1];
      var line := lines[|lines| - 1];
      var t := Terminated(prefix[1..]);
      PageBuffersConcat(prefix, markers, matches);
      PageStepConcat(PageBuffers(prefix, markers, matches), line, Opens(line, markers, matches));
      TerminatedTailSnoc(lines);
      assert prefix[0] == lines[0];
      assert Concat(PageBuffers(lines, markers, matches)) == (lines[0] + t) + line + "\n";
      AppendAssoc(lines[0], t, line, "\n");
    }
  }

  /**
   * For two or more lines, the last buffer is empty exactly when the last line matched:
   * a marker on the last line leaves an empty trailing buffer.
   */
  lemma LastBufferEmptyIff(lines: seq<string>, markers: seq<string>, matches: Matcher)
    requires |lines| >= 2
    ensures var bufs := PageBuffers(lines, markers, matches);
            bufs[|bufs| - 1] == "" <==> Opens(lines[|lines| - 1], markers, matches)
  {
    var prev := PageBuffers(lines[..|lines| - 1], markers, matches);
    var line := lines[|lines| - 1];
    assert |prev[|prev| - 1] + line + "\n"| > 0;
  }

  /** The filter distributes over appending. */
  lemma {:induction false} NonEmptyAppend(a: seq<string>, b: seq<string>)
    ensures NonEmpty(a + b) == NonEmpty(a) + NonEmpty(b)
    decreases |b|
  {
    if |b| == 0 {
      assert a + b == a;
    } else {
      var b' := b[..|b| - 1];
      var ab := a + b;
      var last := b[|b| - 1];
      NonEmptyAppend(a, b');
      assert ab[..|ab| - 1] == a + b';
      assert ab[|ab| - 1] == last;
      var x, y := NonEmpty(a), NonEmpty(b');
      if last != "" {
        assert NonEmpty(ab) == (x + y) + [last];
        assert NonEmpty(b) == y + [last];
        assert (x + y) + [last] == x + (y + [last]);
      } else {
        assert NonEmpty(ab) == x + y;
        assert NonEmpty(b) == y;
      }
    }
  }

  /**
   * A marker on the last line leaves an empty trailing buffer, and the filter discards it:
   * the pages are those of the buffers before it.
   */
  lemma TrailingMarkerBufferDropped(lines: seq<string>, markers: seq<string>, matches: Matcher)
    requires |lines| >= 2
    requires Opens(lines[|lines| - 1], markers, matches)
    ensures var bufs := PageBuffers(lines, markers, matches);
            TextToPages(lines, markers, matches) == NonEmpty(StripAll(bufs[..|bufs| - 1]))
            && |TextToPages(lines, markers, matches)| < |bufs|
  {
    var bufs := PageBuffers(lines, markers, matches);
    LastBufferEmptyIff(lines, markers, matches);
    var init := StripAll(bufs[..|bufs| - 1]);
    assert StripAll(bufs) == init + [Strip("")];
    assert Strip("") == "";
    NonEmptyAppend(init, [""]);
    assert NonEmpty([""]) == [];
  }
}
