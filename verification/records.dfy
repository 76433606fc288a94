/**
 * Record grouping (`group_pages_to_records`): pages are scanned left to right, a page that
 * matches a record marker opens a new group, and every page after the first is appended,
 * with a newline, to the last group.
 */
module Records {
  import opened Basics
  import opened Text
  import opened Pages

  /**
   * A key of the record-marker table with its metadata. `pages` is the optional page count
   * the metadata carries; the grouping code looks the metadata up but never uses it.
   */
  datatype RecordMarker = RecordMarker(phrase: string, pages: Option<int>)

  /** One record: the concatenated text of its pages and the 1-based number of its first page. */
  datatype PageGroup = PageGroup(text: string, pg: nat)

  /** The loop state: the groups built so far and the `grab_pages` counter. */
  datatype GroupState = GroupState(groups: seq<PageGroup>, grab: int)

  /** The marker phrases, in table order: the `record_ids` the matcher is given. */
  function Phrases(markers: seq<RecordMarker>): (ps: seq<string>)
    ensures |ps| == |markers|
    ensures forall i :: 0 <= i < |markers| ==> ps[i] == markers[i].phrase
  {
    seq(|markers|, i requires 0 <= i < |markers| => markers[i].phrase)
  }

  /**
   * One iteration of the loop for a page after the first, in the source's order: decrement a
   * positive counter, open an empty group if the page matches, append the page and a newline to
   * the last group, and open another empty group if the counter is then 1. Earlier groups are
   * kept, the last one only grows, at most two groups are opened, each numbered with this page,
   * and the page lands in a new group exactly when it opens one.
   */
  function GroupStep(st: GroupState, page: string, index: nat, markers: seq<RecordMarker>, matches: Matcher)
    : (st': GroupState)
    requires |st.groups| > 0
    ensures st.grab > 0 ==> st'.grab == st.grab - 1
    ensures st.grab <= 0 ==> st'.grab == st.grab
    ensures |st.groups| <= |st'.groups| <= |st.groups| + 2
    ensures forall i :: 0 <= i < |st.groups| - 1 ==> st'.groups[i] == st.groups[i]
    ensures st'.groups[|st.groups| - 1].pg == st.groups[|st.groups| - 1].pg
    ensures st.groups[|st.groups| - 1].text <= st'.groups[|st.groups| - 1].text
    ensures forall i :: |st.groups| <= i < |st'.groups| ==> st'.groups[i].pg == index + 1
    ensures var opens := Opens(page, Phrases(markers), matches);
            var k := if opens then |st.groups| else |st.groups| - 1;
            k < |st'.groups| && st'.groups[k].text == (if opens then "" else st.groups[k].text) + page + "\n"
  {
    var grab := if st.grab > 0 then st.grab - 1 else st.grab;
    var started := if Opens(page, Phrases(markers), matches)
                  then st.groups + [PageGroup("", index + 1)]
                  else st.groups;
    var last := started[|started| - 1];
    var appended := started[..|started| - 1] + [last.(text := last.text + page + "\n")];
    var groups := if grab == 1 then appended + [PageGroup("", index + 1)] else appended;
    GroupState(groups, grab)
  }

  /**
   * The loop state after the given pages; the counter starts at 0 and the first page seeds
   * group 1, which keeps its number and begins with the first page's text. Every group is
   * numbered with one of the given pages.
   */
  function GroupFold(pages: seq<string>, markers: seq<RecordMarker>, matches: Matcher): (st: GroupState)
    ensures |st.groups| == 0 <==> |pages| == 0
    ensures |pages| > 0 ==> st.groups[0].pg == 1 && pages[0] <= st.groups[0].text
    ensures forall i :: 0 <= i < |st.groups| ==> 1 <= st.groups[i].pg <= |pages|
    decreases |pages|
  {
    if |pages| == 0 then GroupState([], 0)
    else if |pages| == 1 then GroupState([PageGroup(pages[0], 1)], 0)
    else
      var prev := GroupFold(pages[..|pages| - 1], markers, matches);
      var st := GroupStep(prev, pages[|pages| - 1], |pages| - 1, markers, matches);
      assert pages[..|pages| - 1][0] == pages[0];
      assert forall i :: 0 <= i < |st.groups| ==> 1 <= st.groups[i].pg <= |pages| by {
        NumbersKept(prev, st, |pages| - 1);
      }
      st
  }

  /** A step keeps the numbers of the groups before it and numbers new groups with the next page. */
  lemma NumbersKept(st: GroupState, st': GroupState, n: nat)
    requires |st.groups| > 0 && |st.groups| <= |st'.groups|
    requires forall i :: 0 <= i < |st.groups| ==> 1 <= st.groups[i].pg <= n
    requires forall i :: 0 <= i < |st.groups| - 1 ==> st'.groups[i] == st.groups[i]
    requires st'.groups[|st.groups| - 1].pg == st.groups[|st.groups| - 1].pg
    requires forall i :: |st.groups| <= i < |st'.groups| ==> st'.groups[i].pg == n + 1
    ensures forall i :: 0 <= i < |st'.groups| ==> 1 <= st'.groups[i].pg <= n + 1
  {
  }

  /** `group_pages_to_records`. */
  function GroupPages(pages: seq<string>, markers: seq<RecordMarker>, matches: Matcher): (groups: seq<PageGroup>)
    ensures |groups| == 0 <==> |pages| == 0
  {
    GroupFold(pages, markers, matches).groups
  }

  /** The step with the counter at rest: open a group at a matching page, then append the page. */
  function OpenOrExtend(groups: seq<PageGroup>, page: string, index: nat, opens: bool): (groups': seq<PageGroup>)
    requires |groups| > 0
    ensures |groups'| == |groups| + (if opens then 1 else 0)
  {
    if opens then groups + [PageGroup(page + "\n", index + 1)]
    else groups[..|groups| - 1] + [groups[|groups| - 1].(text := groups[|groups| - 1].text + page + "\n")]
  }

  /** With the counter at 0, a step leaves it at 0 and only opens or extends. */
  lemma StepAtRest(st: GroupState, page: string, index: nat, markers: seq<RecordMarker>, matches: Matcher)
    requires |st.groups| > 0 && st.grab == 0
    ensures GroupStep(st, page, index, markers, matches)
            == GroupState(OpenOrExtend(st.groups, page, index, Opens(page, Phrases(markers), matches)), 0)
  {
    assert "" + page + "\n" == page + "\n";
  }

  /**
   * `grab_pages` is never set above 0, so it stays 0: the decrement and the branch that
   * closes a multi-page record never fire.
   */
  lemma {:induction false} GrabStaysZero(pages: seq<string>, markers: seq<RecordMarker>, matches: Matcher)
    ensures GroupFold(pages, markers, matches).grab == 0
    decreases |pages|
  {
    if |pages| > 1 {
      GrabStaysZero(pages[..|pages| - 1], markers, matches);
    }
  }

  /** The fold, read with the counter known to be 0. */
  lemma FoldStep(pages: seq<string>, markers: seq<RecordMarker>, matches: Matcher)
    requires |pages| > 1
    ensures var prev := GroupFold(pages[..|pages| - 1], markers, matches).groups;
            var page := pages[|pages| - 1];
            GroupPages(pages, markers, matches)
            == OpenOrExtend(prev, page, |pages| - 1, Opens(page, Phrases(markers), matches))
  {
    var prefix := pages[..|pages| - 1];
    GrabStaysZero(prefix, markers, matches);
    StepAtRest(GroupFold(prefix, markers, matches), pages[|pages| - 1], |pages| - 1, markers, matches);
  }

  /** No pages, no groups; otherwise one group for the first page plus one per later matching page. */
  lemma {:induction false} GroupCount(pages: seq<string>, markers: seq<RecordMarker>, matches: Matcher)
    ensures |pages| == 0 ==> GroupPages(pages, markers, matches) == []
    ensures |pages| > 0 ==>
              |GroupPages(pages, markers, matches)| == 1 + OpenCount(pages[1..], Phrases(markers), matches)
    decreases |pages|
  {
    if |pages| > 1 {
      var prefix := pages[..|pages| - 1];
      GroupCount(prefix, markers, matches);
      FoldStep(pages, markers, matches);
      OpenCountTail(pages, Phrases(markers), matches);
    }
  }

  /** The texts of the groups, in order. */
  function Texts(groups: seq<PageGroup>): (ts: seq<string>)
    ensures |ts| == |groups|
    ensures forall k :: 0 <= k < |groups| ==> ts[k] == groups[k].text
  {
    seq(|groups|, k requires 0 <= k < |groups| => groups[k].text)
  }

  /** One step adds the page and its newline to the concatenated texts. */
  lemma OpenOrExtendConcat(groups: seq<PageGroup>, page: string, index: nat, opens: bool)
    requires |groups| > 0
    ensures Concat(Texts(OpenOrExtend(groups, page, index, opens))) == Concat(Texts(groups)) + page + "\n"
  {
    var ts := Texts(groups);
    var ts' := Texts(OpenOrExtend(groups, page, index, opens));
    if opens {
      assert ts' == ts + [page + "\n"];
      ConcatSnoc(ts, page + "\n");
      assert Concat(ts) + (page + "\n") == Concat(ts) + page + "\n";
    } else {
      var init := ts[..|ts| - 1];
      var last := ts[|ts| - 1];
      assert ts' == init + [last + page + "\n"];
      assert ts == init + [last];
      ConcatSnoc(init, last + page + "\n");
      ConcatSnoc(init, last);
      AppendAssoc(Concat(init), last, page, "\n");
    }
  }

  /**
   * The groups partition the pages in order: their texts, concatenated, are the first page
   * followed by every later page with a newline.
   */
  lemma {:induction false} GroupsConcat(pages: seq<string>, markers: seq<RecordMarker>, matches: Matcher)
    requires |pages| > 0
    ensures Concat(Texts(GroupPages(pages, markers, matches))) == pages[0] + Terminated(pages[1..])
    decreases |pages|
  {
    if |pages| == 1 {
      var ts := Texts(GroupPages(pages, markers, matches));
      assert ts == [pages[0]];
      assert Concat(ts) == Concat(ts[..0]) + ts[0];
      assert pages[1..] == [];
    } else {
      var prefix := pages[..|pages| - 1];
      var page := pages[|pages| - 1];
      var t := Terminated(prefix[1..]);
      GroupsConcat(prefix, markers, matches);
      FoldStep(pages, markers, matches);
      OpenOrExtendConcat(GroupPages(prefix, markers, matches), page, |pages| - 1, Opens(page, Phrases(markers), matches));
      TerminatedTailSnoc(pages);
      assert prefix[0] == pages[0];
      AppendAssoc(pages[0], t, page, "\n");
    }
  }

  /** The `pg` of every group, in order. */
  function Starts(groups: seq<PageGroup>): (pgs: seq<nat>)
    ensures |pgs| == |groups|
    ensures forall k :: 0 <= k < |groups| ==> pgs[k] == groups[k].pg
  {
    seq(|groups|, k requires 0 <= k < |groups| => groups[k].pg)
  }

  /**
   * Where the groups start: group 1 at page 1, every later group at a page that passes
   * `isStart`, page numbers strictly increasing, and every later page that passes `isStart`
   * starting a group.
   */
  ghost predicate StartsAtMarkers(pages: seq<string>, pgs: seq<nat>, isStart: string -> bool)
  {
    && |pgs| > 0 && pgs[0] == 1
    && StartsInRange(|pages|, pgs)
    && Increasing(pgs)
    && StartsMarked(pages, pgs, isStart)
    && StartsComplete(pages, pgs, isStart)
  }

  /** Every start is a page number. */
  ghost predicate StartsInRange(n: nat, pgs: seq<nat>)
  {
    forall k :: 0 <= k < |pgs| ==> 1 <= pgs[k] <= n
  }

  /** Every group after the first starts at a page that passes `isStart`. */
  ghost predicate StartsMarked(pages: seq<string>, pgs: seq<nat>, isStart: string -> bool)
    requires StartsInRange(|pages|, pgs)
  {
    forall k :: 0 < k < |pgs| ==> isStart(pages[pgs[k] - 1])
  }

  /** Every page after the first that passes `isStart` starts a group. */
  ghost predicate StartsComplete(pages: seq<string>, pgs: seq<nat>, isStart: string -> bool)
  {
    forall i :: 0 < i < |pages| && isStart(pages[i]) ==> StartsGroup(pgs, i + 1)
  }

  /** Some group after the first starts at page number `pg`. */
  ghost predicate StartsGroup(pgs: seq<nat>, pg: int)
  {
    exists k :: 0 < k < |pgs| && pgs[k] == pg
  }

  /** A step keeps the start pages and adds the new page's number when it opens a group. */
  lemma StartsOfStep(groups: seq<PageGroup>, page: string, index: nat, opens: bool)
    requires |groups| > 0
    ensures Starts(OpenOrExtend(groups, page, index, opens))
            == Starts(groups) + (if opens then [index + 1] else [])
  {
  }

  /** The start pages stay correct when a page that does not open a group is added. */
  lemma StartsExtend(pages: seq<string>, pgs: seq<nat>, isStart: string -> bool)
    requires |pages| > 1 && !isStart(pages[|pages| - 1])
    requires StartsAtMarkers(pages[..|pages| - 1], pgs, isStart)
    ensures StartsAtMarkers(pages, pgs, isStart)
  {
    var prefix := pages[..|pages| - 1];
    assert forall k :: 0 <= k < |pgs| ==> pages[pgs[k] - 1] == prefix[pgs[k] - 1];
    forall i | 0 < i < |pages| && isStart(pages[i])
      ensures StartsGroup(pgs, i + 1)
    {
      assert prefix[i] == pages[i];
    }
  }

  /** Marked starts stay marked when a marked page is added at the end. */
  lemma StartsOpenMarked(pages: seq<string>, pgs: seq<nat>, isStart: string -> bool)
    requires |pages| > 1 && isStart(pages[|pages| - 1])
    requires StartsInRange(|pages| - 1, pgs)
    requires StartsMarked(pages[..|pages| - 1], pgs, isStart)
    ensures StartsInRange(|pages|, pgs + [|pages|])
    ensures StartsMarked(pages, pgs + [|pages|], isStart)
  {
    var prefix := pages[..|pages| - 1];
    var pgs' := pgs + [|pages|];
    forall k | 0 < k < |pgs'| ensures isStart(pages[pgs'[k] - 1]) {
      if k < |pgs| {
        assert pages[pgs[k] - 1] == prefix[pgs[k] - 1];
      }
    }
  }

  /** Every marked page starts a group once a marked page is added at the end. */
  lemma StartsOpenComplete(pages: seq<string>, pgs: seq<nat>, isStart: string -> bool)
    requires |pages| > 1 && isStart(pages[|pages| - 1]) && |pgs| > 0
    requires StartsComplete(pages[..|pages| - 1], pgs, isStart)
    ensures StartsComplete(pages, pgs + [|pages|], isStart)
  {
    var n := |pages|;
    var prefix := pages[..n - 1];
    var pgs' := pgs + [n];
    forall i | 0 < i < n && isStart(pages[i])
      ensures StartsGroup(pgs', i + 1)
    {
      if i < n - 1 {
        assert prefix[i] == pages[i];
        assert StartsGroup(pgs, i + 1);
        var k :| 0 < k < |pgs| && pgs[k] == i + 1;
        assert pgs'[k] == i + 1;
      } else {
        assert pgs'[|pgs|] == i + 1;
      }
    }
  }

  /** The start pages stay correct when a page that opens a group is added. */
  lemma StartsOpen(pages: seq<string>, pgs: seq<nat>, isStart: string -> bool)
    requires |pages| > 1 && isStart(pages[|pages| - 1])
    requires StartsAtMarkers(pages[..|pages| - 1], pgs, isStart)
    ensures StartsAtMarkers(pages, pgs + [|pages|], isStart)
  {
    StartsOpenMarked(pages, pgs, isStart);
    StartsOpenComplete(pages, pgs, isStart);
    assert Increasing(pgs + [|pages|]) by {
      assert forall k :: 0 <= k < |pgs| ==> (pgs + [|pages|])[k] == pgs[k];
    }
  }

  /** Where each group's pages start and end, as indices into the pages. */
  function GroupEnd(groups: seq<PageGroup>, k: nat, n: nat): int
    requires k < |groups|
  {
    if k + 1 < |groups| then groups[k + 1].pg - 1 else n
  }

  /** Each group's text is exactly the text of the pages from its start to the next group's start. */
  ghost predicate Covers(pages: seq<string>, groups: seq<PageGroup>)
  {
    forall k :: 0 <= k < |groups| ==> CoversGroup(pages, groups, k)
  }

  /** Group `k` starts at a page, ends after it, and holds the text of the pages in between. */
  ghost predicate CoversGroup(pages: seq<string>, groups: seq<PageGroup>, k: nat)
    requires k < |groups|
  {
    && 1 <= groups[k].pg && groups[k].pg - 1 < GroupEnd(groups, k, |pages|) <= |pages|
    && groups[k].text == SpanText(pages, groups[k].pg - 1, GroupEnd(groups, k, |pages|))
  }

  /** A group whose start, end and text are unchanged still covers its pages after a page is added. */
  lemma CoversKept(pages: seq<string>, groups: seq<PageGroup>, groups': seq<PageGroup>, k: nat)
    requires |pages| > 1 && k < |groups| && k < |groups'|
    requires groups'[k] == groups[k]
    requires GroupEnd(groups', k, |pages|) == GroupEnd(groups, k, |pages| - 1)
    requires CoversGroup(pages[..|pages| - 1], groups, k)
    ensures CoversGroup(pages, groups', k)
  {
    SpanTextPrefix(pages, |pages| - 1, groups[k].pg - 1, GroupEnd(groups, k, |pages| - 1));
  }

  /** The last group, extended by the added page, covers it. */
  lemma CoversExtended(pages: seq<string>, groups: seq<PageGroup>)
    requires |pages| > 1 && |groups| > 0
    requires CoversGroup(pages[..|pages| - 1], groups, |groups| - 1)
    ensures CoversGroup(pages, OpenOrExtend(groups, pages[|pages| - 1], |pages| - 1, false), |groups| - 1)
  {
    var n := |pages|;
    var last := |groups| - 1;
    var groups' := OpenOrExtend(groups, pages[n - 1], n - 1, false);
    var start := groups[last].pg - 1;
    assert groups'[last] == groups[last].(text := groups[last].text + pages[n - 1] + "\n");
    assert GroupEnd(groups', last, n) == n;
    assert GroupEnd(groups, last, n - 1) == n - 1;
    SpanTextPrefix(pages, n - 1, start, n - 1);
    SpanTextSnoc(pages, start, n - 1);
  }

  /** The group the added page opens covers just that page. */
  lemma CoversOpened(pages: seq<string>, groups: seq<PageGroup>)
    requires |pages| > 1 && |groups| > 0
    ensures CoversGroup(pages, OpenOrExtend(groups, pages[|pages| - 1], |pages| - 1, true), |groups|)
  {
    var n := |pages|;
    var page := pages[n - 1];
    var groups' := OpenOrExtend(groups, page, n - 1, true);
    assert groups'[|groups|] == PageGroup(page + "\n", n);
    assert pages[n - 1..n] == [page];
    assert Terminated([page]) == Terminated([page][..0]) + page + "\n";
  }

  /** The partition is kept when a page that opens a group is added. */
  lemma CoversOpen(pages: seq<string>, groups: seq<PageGroup>)
    requires |pages| > 1 && |groups| > 0
    requires groups[|groups| - 1].pg < |pages|
    requires Covers(pages[..|pages| - 1], groups)
    ensures Covers(pages, OpenOrExtend(groups, pages[|pages| - 1], |pages| - 1, true))
  {
    var n := |pages|;
    var groups' := OpenOrExtend(groups, pages[n - 1], n - 1, true);
    forall k | 0 <= k < |groups'| ensures CoversGroup(pages, groups', k) {
      if k < |groups| {
        assert groups'[k] == groups[k];
        if k + 1 < |groups| {
          assert groups'[k + 1] == groups[k + 1];
        }
        CoversKept(pages, groups, groups', k);
      } else {
        CoversOpened(pages, groups);
      }
    }
  }

  /** The partition is kept when a page that does not open a group is added. */
  lemma CoversExtend(pages: seq<string>, groups: seq<PageGroup>)
    requires |pages| > 1 && |groups| > 0
    requires Covers(pages[..|pages| - 1], groups)
    ensures Covers(pages, OpenOrExtend(groups, pages[|pages| - 1], |pages| - 1, false))
  {
    var n := |pages|;
    var groups' := OpenOrExtend(groups, pages[n - 1], n - 1, false);
    forall k | 0 <= k < |groups'| ensures CoversGroup(pages, groups', k) {
      if k + 1 < |groups| {
        assert groups'[k] == groups[k] && groups'[k + 1].pg == groups[k + 1].pg;
        CoversKept(pages, groups, groups', k);
      } else {
        CoversExtended(pages, groups);
      }
    }
  }

  /** The test that a page opens a group: its first matching phrase is non-empty. */
  function RecordStart(markers: seq<RecordMarker>, matches: Matcher): (isStart: string -> bool)
    ensures forall p :: isStart(p) == Opens(p, Phrases(markers), matches)
  {
    p => Opens(p, Phrases(markers), matches)
  }

  /**
   * The groups start where the markers say: the first group at page 1, each later group at a
   * matching page (its `pg` is 1 + that page's index), `pg` strictly increasing, and every
   * later matching page opening a group.
   */
  lemma {:induction false} GroupStarts(pages: seq<string>, markers: seq<RecordMarker>, matches: Matcher)
    requires |pages| > 0
    ensures StartsAtMarkers(pages, Starts(GroupPages(pages, markers, matches)), RecordStart(markers, matches))
    decreases |pages|
  {
    var isStart := RecordStart(markers, matches);
    if |pages| == 1 {
      assert GroupPages(pages, markers, matches) == [PageGroup(pages[0], 1)];
      assert Starts([PageGroup(pages[0], 1)]) == [1];
      assert StartsAtMarkers(pages, [1], isStart);
    } else {
      var prefix := pages[..|pages| - 1];
      var page := pages[|pages| - 1];
      GroupStarts(prefix, markers, matches);
      FoldStep(pages, markers, matches);
      var prev := GroupPages(prefix, markers, matches);
      var opens := isStart(page);
      assert GroupPages(pages, markers, matches) == OpenOrExtend(prev, page, |pages| - 1, opens);
      StartsOfStep(prev, page, |pages| - 1, opens);
      var groups := GroupPages(pages, markers, matches);
      if opens {
        StartsOpen(pages, Starts(prev), isStart);
        assert Starts(groups) == Starts(prev) + [|pages|];
      } else {
        StartsExtend(pages, Starts(prev), isStart);
        assert Starts(groups) == Starts(prev);
      }
      assert StartsAtMarkers(pages, Starts(groups), isStart);
    }
  }

  /**
   * The groups cover the pages: each group's text is its pages' text, from its first page up
   * to the next group's first page.
   */
  lemma {:induction false} GroupCovers(pages: seq<string>, markers: seq<RecordMarker>, matches: Matcher)
    requires |pages| > 0
    ensures Covers(pages, GroupPages(pages, markers, matches))
    decreases |pages|
  {
    if |pages| == 1 {
      assert GroupPages(pages, markers, matches) == [PageGroup(pages[0], 1)];
      assert pages[1..1] == [];
      assert SpanText(pages, 0, 1) == pages[0] + "";
    } else {
      var prefix := pages[..|pages| - 1];
      var page := pages[|pages| - 1];
      GroupCovers(prefix, markers, matches);
      FoldStep(pages, markers, matches);
      var prev := GroupPages(prefix, markers, matches);
      GroupCount(prefix, markers, matches);
      if Opens(page, Phrases(markers), matches) {
        assert CoversGroup(prefix, prev, |prev| - 1);
        CoversOpen(pages, prev);
      } else {
        CoversExtend(pages, prev);
      }
    }
  }

  /** Groups built from non-blank pages are non-blank: each holds at least one of its pages. */
  lemma {:induction false} GroupsNonBlank(pages: seq<string>, markers: seq<RecordMarker>, matches: Matcher)
    requires forall i :: 0 <= i < |pages| ==> !IsBlank(pages[i])
    ensures forall k :: 0 <= k < |GroupPages(pages, markers, matches)| ==> !IsBlank(GroupPages(pages, markers, matches)[k].text)
    decreases |pages|
  {
    if |pages| == 1 {
      assert GroupPages(pages, markers, matches) == [PageGroup(pages[0], 1)];
    } else if |pages| > 1 {
      var prefix := pages[..|pages| - 1];
      var page := pages[|pages| - 1];
      GroupsNonBlank(prefix, markers, matches);
      FoldStep(pages, markers, matches);
      OpenOrExtendNonBlank(GroupPages(prefix, markers, matches), page, |pages| - 1, Opens(page, Phrases(markers), matches));
    }
  }

  /** Opening or extending a group with a non-blank page keeps every group non-blank. */
  lemma OpenOrExtendNonBlank(groups: seq<PageGroup>, page: string, index: nat, opens: bool)
    requires |groups| > 0 && !IsBlank(page)
    requires forall k :: 0 <= k < |groups| ==> !IsBlank(groups[k].text)
    ensures forall k :: 0 <= k < |OpenOrExtend(groups, page, index, opens)| ==>
              !IsBlank(OpenOrExtend(groups, page, index, opens)[k].text)
  {
    var groups' := OpenOrExtend(groups, page, index, opens);
    forall k | 0 <= k < |groups'| ensures !IsBlank(groups'[k].text) {
      if k < |groups| - 1 {
        assert groups'[k] == groups[k];
      } else if k == |groups| - 1 {
        if opens {
          assert groups'[k] == groups[k];
        } else {
          assert groups'[k].text == groups[k].text + (page + "\n");
          NonBlankExtended(groups[k].text, page + "\n");
        }
      } else {
        assert groups'[k].text == page + "\n";
        NonBlankExtended(page, "\n");
      }
    }
  }

  /**
   * Only the marker phrases matter: tables with the same phrases in the same order group the
   * pages identically, whatever page counts their metadata carries.
   */
  lemma {:induction false} MetadataIgnored(pages: seq<string>, markers: seq<RecordMarker>, markers': seq<RecordMarker>, matches: Matcher)
    requires Phrases(markers) == Phrases(markers')
    ensures GroupPages(pages, markers, matches) == GroupPages(pages, markers', matches)
    decreases |pages|
  {
    if |pages| > 1 {
      var prefix := pages[..|pages| - 1];
      MetadataIgnored(prefix, markers, markers', matches);
      FoldStep(pages, markers, matches);
      FoldStep(pages, markers', matches);
    }
  }
}
