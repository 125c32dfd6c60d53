/**
 * Retention selection: one forward pass over the matched items, sorted by date. Each
 * live item the cursor reaches outside a window becomes an anchor and is kept. Its window
 * is 30 days when that window ends before the two-years threshold, otherwise 7 days when
 * that one ends before the two-months threshold, otherwise there is none. Items strictly
 * inside the window are discarded. After an anchor without a window the cursor steps over
 * the next item unseen. Already-deleted items the cursor looks at are reported gone.
 *
 * The pass is specified as a machine that reads one item per step. Its mode is what the
 * cursor loop knows at that point: looking for an anchor, inside an anchor's window, or
 * about to step over an item unseen, which the loop does right after an anchor that
 * has no window (it advances the cursor a second time).
 */
module Selector {
  import opened Wrappers
  import opened Timestamp
  import opened Sorting
  import opened Catalog
  import opened Report

  const Day: int := 24 * 60 * 60
  const MonthPeriod: int := 30 * Day
  const WeekPeriod: int := 7 * Day

  /**
   * What the selection depends on besides the items: the already-deleted names, the two
   * thresholds, and `at`, which places an item on the time line (the program uses
   * `Catalog.Instant`; the pass itself only compares and shifts these values).
   */
  datatype Policy = Policy(alreadyDeleted: set<string>, twoYearsAgo: int, twoMonthsAgo: int, at: ArchiveItem -> int)

  datatype Mode = Seeking | InWindow(anchor: nat, end: int) | SkipNext

  /** What the pass does with one item. `Skipped` items are neither kept, discarded nor reported. */
  datatype Label = Keep(window: Option<int>) | Discard(anchor: nat) | Gone | Skipped

  /**
   * The end of the window an anchor at time `start` opens, if any. The 30-day window is
   * preferred; any window ends after its start and before the threshold that admitted it;
   * there is none exactly when neither window ends before its threshold.
   */
  function PeriodEnd(start: int, p: Policy): (r: Option<int>)
    ensures start + MonthPeriod < p.twoYearsAgo ==> r == Some(start + MonthPeriod)
    ensures r.Some? ==> start < r.value
    ensures r.Some? ==>
      (r.value == start + MonthPeriod && r.value < p.twoYearsAgo) ||
      (r.value == start + WeekPeriod && r.value < p.twoMonthsAgo)
    ensures r.None? <==> start + MonthPeriod >= p.twoYearsAgo && start + WeekPeriod >= p.twoMonthsAgo
  {
    if start + MonthPeriod < p.twoYearsAgo then Some(start + MonthPeriod)
    else if start + WeekPeriod < p.twoMonthsAgo then Some(start + WeekPeriod)
    else None
  }

  /** Item k becomes an anchor. */
  function Anchor(items: seq<ArchiveItem>, p: Policy, k: nat): (Label, Mode)
    requires k < |items|
  {
    match PeriodEnd(p.at(items[k]), p)
    case None => (Keep(None), SkipNext)
    case Some(e) => (Keep(Some(e)), InWindow(k, e))
  }

  /** One step of the pass: the label of item k and the mode for item k + 1. */
  function Step(items: seq<ArchiveItem>, p: Policy, mode: Mode, k: nat): (Label, Mode)
    requires k < |items|
  {
    match mode
    case SkipNext => (Skipped, Seeking)
    case Seeking =>
      if items[k].name in p.alreadyDeleted then (Gone, Seeking) else Anchor(items, p, k)
    case InWindow(_, e) =>
      if items[k].name in p.alreadyDeleted then (Gone, mode)
      else if p.at(items[k]) < e then (Discard(mode.anchor), mode)
      else Anchor(items, p, k)
  }

  /** The mode in which item k is reached. */
  function ModeAt(items: seq<ArchiveItem>, p: Policy, k: nat): Mode
    requires k <= |items|
    decreases k
  {
    if k == 0 then Seeking else Step(items, p, ModeAt(items, p, k - 1), k - 1).1
  }

  function LabelAt(items: seq<ArchiveItem>, p: Policy, k: nat): Label
    requires k < |items|
  {
    Step(items, p, ModeAt(items, p, k), k).0
  }

  /** The discarded items among the first k, in order. */
  function Discards(items: seq<ArchiveItem>, p: Policy, k: nat): seq<ArchiveItem>
    requires k <= |items|
  {
    if k == 0 then []
    else Discards(items, p, k - 1) + (if LabelAt(items, p, k - 1).Discard? then [items[k - 1]] else [])
  }

  /** The positions of the discarded items among the first k, in order. */
  function DiscardPositions(items: seq<ArchiveItem>, p: Policy, k: nat): seq<nat>
    requires k <= |items|
  {
    if k == 0 then []
    else DiscardPositions(items, p, k - 1) + (if LabelAt(items, p, k - 1).Discard? then [k - 1] else [])
  }

  /** The lines printed for item k: `keep` and `discard` only in dry-run mode, `gone` always. */
  function LinesFor(items: seq<ArchiveItem>, p: Policy, dryRun: bool, k: nat): seq<Line>
    requires k < |items|
  {
    match LabelAt(items, p, k)
    case Keep(_) => if dryRun then [KeepLine(items[k])] else []
    case Discard(_) => if dryRun then [DiscardLine(items[k])] else []
    case Gone => [GoneLine(items[k].name)]
    case Skipped => []
  }

  /** The lines printed for the first k items. */
  function Lines(items: seq<ArchiveItem>, p: Policy, dryRun: bool, k: nat): seq<Line>
    requires k <= |items|
  {
    if k == 0 then [] else Lines(items, p, dryRun, k - 1) + LinesFor(items, p, dryRun, k - 1)
  }

  // ---- the name filter ----

  /** The items whose names the compiled pattern matches, in their order. */
  function Matching(items: seq<ArchiveItem>, matches: string -> bool): seq<ArchiveItem>
  {
    if items == [] then []
    else
      var last := items[|items| - 1];
      Matching(items[..|items| - 1], matches) + (if matches(last.name) then [last] else [])
  }

  /** Filtering keeps exactly the matching items, and keeps them sorted by date. */
  lemma {:induction false} MatchingSorted(items: seq<ArchiveItem>, matches: string -> bool)
    requires SortedByDate(items)
    ensures var r := Matching(items, matches);
      SortedByDate(r) && |r| <= |items| &&
      (forall x :: x in r <==> x in items && matches(x.name))
  {
    if items != [] {
      var init, last := items[..|items| - 1], items[|items| - 1];
      assert items == init + [last];
      assert SortedByDate(init);
      MatchingSorted(init, matches);
      var r0 := Matching(init, matches);
      forall x | x in r0 ensures Instant(x) <= Instant(last) {
        var i :| 0 <= i < |init| && init[i] == x;
        assert items[i] == x;
      }
      if matches(last.name) {
        AppendSorted(r0, last, Instant);
      }
    }
  }

  /** The filter loop of `main`: `matchedItems` collects the items whose names match, in order. */
  method MatchItems(items: seq<ArchiveItem>, matches: string -> bool) returns (matched: seq<ArchiveItem>)
    ensures matched == Matching(items, matches)
  {
    matched := [];
    for i := 0 to |items|
      invariant matched == Matching(items[..i], matches)
    {
      assert items[..i + 1][..i] == items[..i];
      if !matches(items[i].name) {
        continue;
      }
      matched := matched + [items[i]];
    }
    assert items[..|items|] == items;
  }

  /** One more item: how the mode, the discards and the printed lines grow. */
  lemma Advance(items: seq<ArchiveItem>, p: Policy, dryRun: bool, k: nat)
    requires k < |items|
    ensures ModeAt(items, p, k + 1) == Step(items, p, ModeAt(items, p, k), k).1
    ensures Discards(items, p, k + 1) ==
      Discards(items, p, k) + (if LabelAt(items, p, k).Discard? then [items[k]] else [])
    ensures Lines(items, p, dryRun, k + 1) == Lines(items, p, dryRun, k) + LinesFor(items, p, dryRun, k)
  {
  }

  /** The machine behaves at item k as if it were seeking an anchor. */
  predicate SeekingAt(items: seq<ArchiveItem>, p: Policy, k: nat)
    requires k <= |items|
  {
    k < |items| ==> Step(items, p, ModeAt(items, p, k), k) == Step(items, p, Seeking, k)
  }

  /** While seeking, an already-deleted item is reported gone and the search goes on. */
  lemma SeekPastGone(items: seq<ArchiveItem>, p: Policy, dryRun: bool, k: nat)
    requires k < |items| && SeekingAt(items, p, k) && items[k].name in p.alreadyDeleted
    ensures ModeAt(items, p, k + 1) == Seeking && SeekingAt(items, p, k + 1)
    ensures Discards(items, p, k + 1) == Discards(items, p, k)
    ensures Lines(items, p, dryRun, k + 1) == Lines(items, p, dryRun, k) + [GoneLine(items[k].name)]
  {
    Advance(items, p, dryRun, k);
  }

  /** While seeking, a live item is kept as an anchor. */
  lemma SeekAnchor(items: seq<ArchiveItem>, p: Policy, dryRun: bool, k: nat)
    requires k < |items| && SeekingAt(items, p, k) && items[k].name !in p.alreadyDeleted
    ensures PeriodEnd(p.at(items[k]), p).None? ==> ModeAt(items, p, k + 1) == SkipNext
    ensures PeriodEnd(p.at(items[k]), p).Some? ==> ModeAt(items, p, k + 1) == InWindow(k, PeriodEnd(p.at(items[k]), p).value)
    ensures Discards(items, p, k + 1) == Discards(items, p, k)
    ensures Lines(items, p, dryRun, k + 1) == Lines(items, p, dryRun, k) + (if dryRun then [KeepLine(items[k])] else [])
  {
    Advance(items, p, dryRun, k);
    assert LabelAt(items, p, k) == Anchor(items, p, k).0;
  }

  /** The item after an anchor without a window is stepped over. */
  lemma StepOver(items: seq<ArchiveItem>, p: Policy, dryRun: bool, k: nat)
    requires k < |items| && ModeAt(items, p, k) == SkipNext
    ensures ModeAt(items, p, k + 1) == Seeking && SeekingAt(items, p, k + 1)
    ensures Discards(items, p, k + 1) == Discards(items, p, k)
    ensures Lines(items, p, dryRun, k + 1) == Lines(items, p, dryRun, k)
  {
    Advance(items, p, dryRun, k);
  }

  /** After an anchor without a window at k - 1, the cursor lands at k + 1 ready to seek again. */
  lemma SkipPassed(items: seq<ArchiveItem>, p: Policy, dryRun: bool, k: nat, discard: seq<ArchiveItem>, log: seq<Line>)
    requires k <= |items| && ModeAt(items, p, k) == SkipNext
    requires discard == Discards(items, p, k) && log == Lines(items, p, dryRun, k)
    ensures Passed(items, p, dryRun, k + 1, discard, log)
  {
    if k < |items| {
      StepOver(items, p, dryRun, k);
    }
  }

  /** Inside a window, an already-deleted item is reported gone and the window goes on. */
  lemma WindowPastGone(items: seq<ArchiveItem>, p: Policy, dryRun: bool, k: nat, a: nat, e: int)
    requires k < |items| && ModeAt(items, p, k) == InWindow(a, e) && items[k].name in p.alreadyDeleted
    ensures ModeAt(items, p, k + 1) == InWindow(a, e)
    ensures Discards(items, p, k + 1) == Discards(items, p, k)
    ensures Lines(items, p, dryRun, k + 1) == Lines(items, p, dryRun, k) + [GoneLine(items[k].name)]
  {
    Advance(items, p, dryRun, k);
  }

  /** Inside a window, a live item before its end is discarded. */
  lemma WindowDiscard(items: seq<ArchiveItem>, p: Policy, dryRun: bool, k: nat, a: nat, e: int)
    requires k < |items| && ModeAt(items, p, k) == InWindow(a, e)
    requires items[k].name !in p.alreadyDeleted && p.at(items[k]) < e
    ensures ModeAt(items, p, k + 1) == InWindow(a, e)
    ensures Discards(items, p, k + 1) == Discards(items, p, k) + [items[k]]
    ensures Lines(items, p, dryRun, k + 1) == Lines(items, p, dryRun, k) + (if dryRun then [DiscardLine(items[k])] else [])
  {
    Advance(items, p, dryRun, k);
    assert LabelAt(items, p, k) == Discard(a);
  }

  /**
   * The cursor has reached `k` (one past the end after a final double advance) in step with
   * the machine: it is about to seek an anchor, and the discards and lines so far are the machine's.
   */
  predicate Passed(items: seq<ArchiveItem>, p: Policy, dryRun: bool, k: nat, discard: seq<ArchiveItem>, log: seq<Line>)
  {
    var m := if k <= |items| then k else |items|;
    (k <= |items| ==> SeekingAt(items, p, k)) &&
    discard == Discards(items, p, m) && log == Lines(items, p, dryRun, m)
  }

  /**
   * The cursor loop of `main`. The result is the discard list and the printed lines of the
   * machine above, item by item.
   */
  method Select(items: seq<ArchiveItem>, p: Policy, dryRun: bool) returns (discard: seq<ArchiveItem>, log: seq<Line>)
    ensures discard == Discards(items, p, |items|)
    ensures log == Lines(items, p, dryRun, |items|)
  {
    discard, log := [], [];
    var n := |items|;
    var currentIndex := 0;
    while currentIndex < n
      invariant currentIndex <= n + 1
      invariant Passed(items, p, dryRun, currentIndex, discard, log)
      decreases n + 1 - currentIndex
    {
      var item := items[currentIndex];
      if item.name in p.alreadyDeleted {
        SeekPastGone(items, p, dryRun, currentIndex);
        log := log + [GoneLine(item.name)];
        currentIndex := currentIndex + 1;
        continue;
      }
      SeekAnchor(items, p, dryRun, currentIndex);
      if dryRun {
        log := log + [KeepLine(item)];
      }
      var anchor := currentIndex;
      var periodStart := p.at(item);
      currentIndex := currentIndex + 1;
      var periodEnd: int;
      if periodStart + MonthPeriod < p.twoYearsAgo {
        periodEnd := periodStart + MonthPeriod;
      } else if periodStart + WeekPeriod < p.twoMonthsAgo {
        periodEnd := periodStart + WeekPeriod;
      } else {
        // The cursor moves past the next item without looking at it.
        assert PeriodEnd(periodStart, p).None?;
        SkipPassed(items, p, dryRun, currentIndex, discard, log);
        currentIndex := currentIndex + 1;
        continue;
      }
      assert PeriodEnd(periodStart, p) == Some(periodEnd);
      currentIndex, discard, log := ScanWindow(items, p, dryRun, anchor, periodEnd, currentIndex, discard, log);
    }
  }

  /**
   * The inner loop of the cursor loop: from `start`, inside the window of `anchor`, report
   * gone items, discard items before `periodEnd`, and stop at the first other item.
   */
  method ScanWindow(items: seq<ArchiveItem>, p: Policy, dryRun: bool, anchor: nat, periodEnd: int,
                    start: nat, discard0: seq<ArchiveItem>, log0: seq<Line>)
    returns (currentIndex: nat, discard: seq<ArchiveItem>, log: seq<Line>)
    requires start <= |items| && ModeAt(items, p, start) == InWindow(anchor, periodEnd)
    requires discard0 == Discards(items, p, start) && log0 == Lines(items, p, dryRun, start)
    ensures start <= currentIndex <= |items|
    ensures SeekingAt(items, p, currentIndex)
    ensures discard == Discards(items, p, currentIndex) && log == Lines(items, p, dryRun, currentIndex)
    ensures currentIndex < |items| ==> items[currentIndex].name !in p.alreadyDeleted && p.at(items[currentIndex]) >= periodEnd
    ensures forall m :: start <= m < currentIndex ==> items[m].name in p.alreadyDeleted || p.at(items[m]) < periodEnd
  {
    currentIndex, discard, log := start, discard0, log0;
    while currentIndex < |items|
      invariant start <= currentIndex <= |items|
      invariant forall m :: start <= m < currentIndex ==> items[m].name in p.alreadyDeleted || p.at(items[m]) < periodEnd
      invariant ModeAt(items, p, currentIndex) == InWindow(anchor, periodEnd)
      invariant discard == Discards(items, p, currentIndex)
      invariant log == Lines(items, p, dryRun, currentIndex)
    {
      var next := items[currentIndex];
      if next.name in p.alreadyDeleted {
        WindowPastGone(items, p, dryRun, currentIndex, anchor, periodEnd);
        log := log + [GoneLine(next.name)];
        currentIndex := currentIndex + 1;
        continue;
      }
      if p.at(next) < periodEnd {
        WindowDiscard(items, p, dryRun, currentIndex, anchor, periodEnd);
        if dryRun {
          log := log + [DiscardLine(next)];
        }
        discard := discard + [next];
        currentIndex := currentIndex + 1;
        continue;
      }
      // The next item lies outside the period: it is the next anchor.
      break;
    }
  }

  // ---- what the pass guarantees ----

  /** An anchor's window is 30 days exactly when that ends before the two-years threshold, else 7 days when that ends before the two-months threshold. */
  lemma AnchorWindow(items: seq<ArchiveItem>, p: Policy, k: nat)
    requires k < |items| && LabelAt(items, p, k).Keep?
    ensures var t, w := p.at(items[k]), LabelAt(items, p, k).window;
      items[k].name !in p.alreadyDeleted &&
      (w == Some(t + MonthPeriod) <==> t + MonthPeriod < p.twoYearsAgo) &&
      (w == Some(t + WeekPeriod) <==> !(t + MonthPeriod < p.twoYearsAgo) && t + WeekPeriod < p.twoMonthsAgo) &&
      (w == None <==> !(t + MonthPeriod < p.twoYearsAgo) && !(t + WeekPeriod < p.twoMonthsAgo))
  {
  }

  /** A window in force at item k was opened by a kept anchor before k; everything since is discarded or gone. */
  lemma {:induction false} WindowOpenedByAnchor(items: seq<ArchiveItem>, p: Policy, k: nat)
    requires k <= |items| && ModeAt(items, p, k).InWindow?
    ensures var a, e := ModeAt(items, p, k).anchor, ModeAt(items, p, k).end;
      a < k && LabelAt(items, p, a) == Keep(Some(e)) && PeriodEnd(p.at(items[a]), p) == Some(e) &&
      forall m :: a < m < k ==> LabelAt(items, p, m) == Gone || LabelAt(items, p, m) == Discard(a)
    decreases k
  {
    var prev := ModeAt(items, p, k - 1);
    if prev.InWindow? && ModeAt(items, p, k) == prev {
      WindowOpenedByAnchor(items, p, k - 1);
    }
  }

  /**
   * Every discarded item lies strictly before the end of the window of a kept anchor
   * before it, is not already deleted, and everything between them is discarded or gone.
   */
  lemma DiscardFollowsAnchor(items: seq<ArchiveItem>, p: Policy, k: nat)
    requires k < |items| && LabelAt(items, p, k).Discard?
    ensures var a := LabelAt(items, p, k).anchor;
      a < k && LabelAt(items, p, a).Keep? && LabelAt(items, p, a).window.Some? &&
      p.at(items[k]) < LabelAt(items, p, a).window.value &&
      items[k].name !in p.alreadyDeleted &&
      forall m :: a < m < k ==> LabelAt(items, p, m) == Gone || LabelAt(items, p, m) == Discard(a)
  {
    WindowOpenedByAnchor(items, p, k);
  }

  /** After an anchor with a window, the window stays in force until the next kept item. */
  lemma {:induction false} WindowContinues(items: seq<ArchiveItem>, p: Policy, a: nat, e: int, k: nat)
    requires a < k <= |items| && LabelAt(items, p, a) == Keep(Some(e))
    requires forall m :: a < m < k ==> !LabelAt(items, p, m).Keep?
    ensures ModeAt(items, p, k) == InWindow(a, e)
    decreases k
  {
    if k > a + 1 {
      WindowContinues(items, p, a, e, k - 1);
      assert !LabelAt(items, p, k - 1).Keep?;
    }
  }

  /**
   * Inside an anchor's window the pass decides each item by itself: already deleted is
   * gone, strictly before the end is discarded, and the first other item is kept.
   */
  lemma WindowDecides(items: seq<ArchiveItem>, p: Policy, a: nat, e: int, k: nat)
    requires a < k < |items| && LabelAt(items, p, a) == Keep(Some(e))
    requires forall m :: a < m < k ==> !LabelAt(items, p, m).Keep?
    ensures items[k].name in p.alreadyDeleted ==> LabelAt(items, p, k) == Gone
    ensures items[k].name !in p.alreadyDeleted && p.at(items[k]) < e ==> LabelAt(items, p, k) == Discard(a)
    ensures items[k].name !in p.alreadyDeleted && p.at(items[k]) >= e ==> LabelAt(items, p, k).Keep?
  {
    WindowContinues(items, p, a, e, k);
  }

  /** Two consecutive kept items are at least the first one's window apart. */
  lemma KeptSpacing(items: seq<ArchiveItem>, p: Policy, a: nat, k: nat)
    requires a < k < |items| && LabelAt(items, p, a).Keep? && LabelAt(items, p, a).window.Some?
    requires LabelAt(items, p, k).Keep?
    requires forall m :: a < m < k ==> !LabelAt(items, p, m).Keep?
    ensures p.at(items[k]) >= LabelAt(items, p, a).window.value
  {
    WindowDecides(items, p, a, LabelAt(items, p, a).window.value, k);
  }

  /** The double advance: an item is skipped exactly when it follows an anchor that has no window. */
  lemma SkipFollowsRecentAnchor(items: seq<ArchiveItem>, p: Policy, k: nat)
    requires k < |items|
    ensures LabelAt(items, p, k) == Skipped <==> k > 0 && LabelAt(items, p, k - 1) == Keep(None)
  {
  }

  /** Gone items are already deleted; an already-deleted item is gone unless it is skipped. */
  lemma GoneMeansDeleted(items: seq<ArchiveItem>, p: Policy, k: nat)
    requires k < |items|
    ensures LabelAt(items, p, k) == Gone ==> items[k].name in p.alreadyDeleted
    ensures items[k].name in p.alreadyDeleted ==> LabelAt(items, p, k) == Gone || LabelAt(items, p, k) == Skipped
  {
  }

  /** The discard list is the discarded items, in their order in the input: an in-order subsequence. */
  lemma {:induction false} DiscardsInOrder(items: seq<ArchiveItem>, p: Policy, k: nat)
    requires k <= |items|
    ensures var d, ix := Discards(items, p, k), DiscardPositions(items, p, k);
      |d| == |ix| &&
      (forall i :: 0 <= i < |ix| ==> ix[i] < k && LabelAt(items, p, ix[i]).Discard? && d[i] == items[ix[i]]) &&
      (forall i, j :: 0 <= i < j < |ix| ==> ix[i] < ix[j]) &&
      (forall m :: 0 <= m < k && LabelAt(items, p, m).Discard? ==> m in ix)
  {
    if k > 0 {
      DiscardsInOrder(items, p, k - 1);
    }
  }

  /** No already-deleted name is ever discarded. */
  lemma {:induction false} DiscardsNotDeleted(items: seq<ArchiveItem>, p: Policy, k: nat)
    requires k <= |items|
    ensures forall x :: x in Discards(items, p, k) ==> x.name !in p.alreadyDeleted
  {
    if k > 0 {
      DiscardsNotDeleted(items, p, k - 1);
      if LabelAt(items, p, k - 1).Discard? {
        DiscardFollowsAnchor(items, p, k - 1);
      }
    }
  }

  /** The policy with one more name marked as already deleted. */
  function MarkDeleted(p: Policy, name: string): Policy
  {
    p.(alreadyDeleted := p.alreadyDeleted + {name})
  }

  /** Marking item k deleted leaves every mode alone when k is discarded or skipped and its name is unique. */
  lemma {:induction false} SameModes(items: seq<ArchiveItem>, p: Policy, k: nat, m: nat)
    requires k < |items| && (LabelAt(items, p, k).Discard? || LabelAt(items, p, k) == Skipped) && m <= |items|
    requires forall j :: 0 <= j < |items| && j != k ==> items[j].name != items[k].name
    ensures ModeAt(items, MarkDeleted(p, items[k].name), m) == ModeAt(items, p, m)
    decreases m
  {
    if m > 0 {
      SameModes(items, p, k, m - 1);
    }
  }

  /**
   * Marking a discarded archive as already deleted changes nothing but that archive's
   * own label, which becomes gone (names are unique in a catalog).
   */
  lemma DeletingADiscardIsTransparent(items: seq<ArchiveItem>, p: Policy, k: nat)
    requires k < |items| && LabelAt(items, p, k).Discard?
    requires forall j :: 0 <= j < |items| && j != k ==> items[j].name != items[k].name
    ensures LabelAt(items, MarkDeleted(p, items[k].name), k) == Gone
    ensures forall m :: 0 <= m < |items| && m != k ==>
      LabelAt(items, MarkDeleted(p, items[k].name), m) == LabelAt(items, p, m)
  {
    forall m | 0 <= m < |items| ensures ModeAt(items, MarkDeleted(p, items[k].name), m) == ModeAt(items, p, m) {
      SameModes(items, p, k, m);
    }
  }

  /**
   * Marking a skipped archive as already deleted changes no label at all, its own
   * included: the double advance never looks at its name.
   */
  lemma DeletingASkippedIsTransparent(items: seq<ArchiveItem>, p: Policy, k: nat)
    requires k < |items| && LabelAt(items, p, k) == Skipped
    requires forall j :: 0 <= j < |items| && j != k ==> items[j].name != items[k].name
    ensures forall m :: 0 <= m < |items| ==>
      LabelAt(items, MarkDeleted(p, items[k].name), m) == LabelAt(items, p, m)
  {
    forall m | 0 <= m < |items| ensures ModeAt(items, MarkDeleted(p, items[k].name), m) == ModeAt(items, p, m) {
      SameModes(items, p, k, m);
    }
  }

  /** A later start never opens a window an earlier start did not: the thresholds only admit old anchors. */
  lemma NoPeriodLater(t: int, u: int, p: Policy)
    requires t <= u && PeriodEnd(t, p).None?
    ensures PeriodEnd(u, p).None?
  {
  }

  /** An item reached outside any window, no earlier than a time that opens no window, opens none itself. */
  lemma NoWindowLater(items: seq<ArchiveItem>, p: Policy, t: int, m: nat)
    requires m < |items| && PeriodEnd(t, p) == None && t <= p.at(items[m])
    requires ModeAt(items, p, m) == Seeking || ModeAt(items, p, m) == SkipNext
    ensures LabelAt(items, p, m) == Keep(None) || LabelAt(items, p, m) == Skipped || LabelAt(items, p, m) == Gone
  {
    NoPeriodLater(t, p.at(items[m]), p);
  }

  /**
   * On date-sorted input, once an anchor has no window no later anchor has one: every
   * later item is kept, skipped or gone, never discarded. An item the double advance steps
   * over is not discarded either, but it gets no line: neither its `gone` line nor, on a dry
   * run, the `keep` line it would otherwise have had.
   */
  lemma {:induction false} RecentTail(items: seq<ArchiveItem>, p: Policy, k: nat, m: nat)
    requires SortedBy(items, p.at)
    requires k < m <= |items| && LabelAt(items, p, k) == Keep(None)
    ensures ModeAt(items, p, m) == Seeking || ModeAt(items, p, m) == SkipNext
    ensures m < |items| ==>
      LabelAt(items, p, m) == Keep(None) || LabelAt(items, p, m) == Skipped || LabelAt(items, p, m) == Gone
    decreases m
  {
    if m > k + 1 {
      RecentTail(items, p, k, m - 1);
    }
    if m < |items| {
      assert PeriodEnd(p.at(items[k]), p) == None;
      assert p.at(items[k]) <= p.at(items[m]);
      NoWindowLater(items, p, p.at(items[k]), m);
    }
  }
}
