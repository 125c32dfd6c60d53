/**
 * The whole run of `main`: check the flags, anchor and compile the name pattern, load the
 * already-deleted names, parse and sort the catalog, keep the archives whose name matches,
 * select the ones to discard, and, unless this is a dry run, delete them in batches.
 *
 * The catalog listing, the already-deleted file's contents, the regular-expression engine,
 * the clock (as the two cut-off instants) and tarsnap are parameters.
 */
module Pipeline {
  import opened Wrappers
  import opened Timestamp
  import opened Catalog
  import opened Report
  import opened Pattern
  import opened DeletedList
  import opened Selector
  import opened Executor

  /** The command-line settings. `alreadyDeletedData` is the file's contents when the flag is given. */
  datatype Config = Config(dryRun: bool, batchSize: int, regex: string, alreadyDeletedData: Option<string>)

  /** The errors that end the program through `log.Fatal`. */
  datatype Fatal =
    | NonPositiveBatchSize
    | MissingRegex
    | BadRegex(pattern: string)
    | CatalogFailure(error: CatalogError)
    | DeleteFailure(stderr: string)

  /**
   * What a run did: the lines printed, the archives selected for discarding, every list of
   * names given to `tarsnap -d`, and the error that ended it early, if any.
   */
  datatype Outcome = Outcome(log: seq<Line>, discard: seq<ArchiveItem>, requests: seq<seq<string>>, fatal: Option<Fatal>)

  /**
   * The archive listing: its lines, whether it is tarsnap's own output (no `-file` given),
   * and, if so, whether the temporary file for a copy of it could be created.
   */
  datatype Listing = Listing(lines: seq<string>, fromTarsnap: bool, tempCreated: bool)

  /**
   * The lines `getArchiveItems` gets to read as the program is written: copying tarsnap's
   * output into the temporary file reads the buffer to its end first, so nothing is left.
   */
  function AsWrittenCatalog(listing: Listing): (lines: seq<string>)
    ensures listing.fromTarsnap && listing.tempCreated ==> ParseLines(lines) == Success([])
    ensures !(listing.fromTarsnap && listing.tempCreated) ==> ParseLines(lines) == ParseLines(listing.lines)
  {
    if listing.fromTarsnap && listing.tempCreated then [] else listing.lines
  }

  /**
   * The drained buffer: a tarsnap listing holding one archive the pattern matches leaves
   * the pass that archive to consider, but once the temporary copy has been written the
   * pass gets nothing at all.
   */
  lemma AsWrittenDrainsListing(a: ArchiveItem, sort: seq<ArchiveItem> -> seq<ArchiveItem>, matches: string -> bool)
    requires '\t' !in a.name && matches(a.name) && SortsByDate(sort)
    ensures var listing := Listing([ItemString(a)], true, true);
      ParseLines(listing.lines).Success? && Candidates(listing.lines, sort, matches) == [a] &&
      ParseLines(AsWrittenCatalog(listing)).Success? && Candidates(AsWrittenCatalog(listing), sort, matches) == []
  {
    var lines := [ItemString(a)];
    LineRoundTrip(a);
    ParseLinesFailure(lines);
    ParseLinesItems(lines, 0);
    assert ParseLines(lines).value == [a];
    var sorted := sort([a]);
    assert |sorted| == |multiset(sorted)| == 1;
    assert a in multiset(sorted);
    assert sorted == [a];
    assert Matching([a], matches) == Matching([], matches) + [a];
  }

  function ItemNames(items: seq<ArchiveItem>): (names: seq<string>)
    ensures |names| == |items| && forall k :: 0 <= k < |items| ==> names[k] == items[k].name
  {
    if items == [] then [] else [items[0].name] + ItemNames(items[1..])
  }

  /** The compiled name filter: `None` when the pattern is empty or does not compile. */
  function Matcher(regex: string, compile: string -> Option<string -> bool>): Option<string -> bool>
  {
    match AnchorPattern(regex)
    case Failure(_) => None
    case Success(anchored) => compile(anchored)
  }

  /** The already-deleted names: none when no file is given. */
  function AlreadyDeleted(cfg: Config): set<string>
  {
    if cfg.alreadyDeletedData.Some? then Names(cfg.alreadyDeletedData.value) else {}
  }

  /** The archives the pass walks: the parsed catalog, sorted by date with `sort`, filtered by name. */
  function Candidates(catalog: seq<string>, sort: seq<ArchiveItem> -> seq<ArchiveItem>, matches: string -> bool): seq<ArchiveItem>
    requires ParseLines(catalog).Success?
  {
    Matching(sort(ParseLines(catalog).value), matches)
  }

  /** The selection policy of a run: the already-deleted names, the cut-offs, and archive instants. */
  function SelectionPolicy(cfg: Config, twoYearsAgo: int, twoMonthsAgo: int): Policy
  {
    Policy(AlreadyDeleted(cfg), twoYearsAgo, twoMonthsAgo, Instant)
  }

  /** What the batches of a run's discards do against tarsnap. */
  function DeletionRun(discard: seq<ArchiveItem>, alreadyDeleted: set<string>, batchSize: nat,
                       tarsnap: seq<string> -> RunResult): Run
    requires batchSize > 0
  {
    ExecuteAll(Batches(ItemNames(discard), alreadyDeleted, batchSize), tarsnap)
  }

  /** Every name sent to tarsnap is the name of one of `items`. */
  predicate OnlyNamesOf(requests: seq<seq<string>>, items: seq<ArchiveItem>)
  {
    forall k, n :: 0 <= k < |requests| && n in requests[k] ==> n in ItemNames(items)
  }

  /** The last lines of `log` report, in order, on every item of `items`. */
  predicate ReportsAll(log: seq<Line>, items: seq<ArchiveItem>)
  {
    |items| <= |log| &&
    forall k :: 0 <= k < |items| ==> Reports(log[|log| - |items| + k], items[k].name)
  }

  /**
   * `main`. `compile` stands for `regexp.Compile`, giving the matcher or `None`;
   * `twoYearsAgo` and `twoMonthsAgo` are the cut-offs computed from the clock; `sort` is
   * `sort.Slice`, any sort that keeps its promise, so with several archives of one date the
   * outcome is stated for whichever order it leaves them in. The catalog is the listing's
   * own lines, whether or not a temporary copy was written.
   *
   * The checks come in the program's order. After them, the discards are the selection
   * pass over the sorted, filtered catalog, the printed lines are the pass's lines followed
   * by the deletion's, and tarsnap receives exactly the requests of the batched discards.
   */
  method RunOldArchives(cfg: Config, listing: Listing, compile: string -> Option<string -> bool>,
                        sort: seq<ArchiveItem> -> seq<ArchiveItem>,
                        twoYearsAgo: int, twoMonthsAgo: int, tarsnap: seq<string> -> RunResult)
    returns (out: Outcome)
    requires SortsByDate(sort)
    ensures cfg.batchSize <= 0 ==> out == Outcome([], [], [], Some(NonPositiveBatchSize))
    ensures cfg.batchSize > 0 && cfg.regex == "" ==> out == Outcome([], [], [], Some(MissingRegex))
    ensures cfg.batchSize > 0 && cfg.regex != "" && Matcher(cfg.regex, compile).None? ==>
      out == Outcome([], [], [], Some(BadRegex(AnchorPattern(cfg.regex).value)))
    ensures cfg.batchSize > 0 && Matcher(cfg.regex, compile).Some? && ParseLines(listing.lines).Failure? ==>
      out == Outcome([], [], [], Some(CatalogFailure(ParseLines(listing.lines).error)))
    ensures cfg.batchSize > 0 && Matcher(cfg.regex, compile).Some? && ParseLines(listing.lines).Success? ==>
      var items := Candidates(listing.lines, sort, Matcher(cfg.regex, compile).value);
      var p := SelectionPolicy(cfg, twoYearsAgo, twoMonthsAgo);
      out.discard == Discards(items, p, |items|) &&
      (cfg.dryRun ==> out == Outcome(Lines(items, p, true, |items|), out.discard, [], None)) &&
      (!cfg.dryRun ==>
        var run := DeletionRun(out.discard, AlreadyDeleted(cfg), cfg.batchSize, tarsnap);
        out == Outcome(Lines(items, p, false, |items|) + run.log, out.discard, run.requests,
                       if run.fatal.Some? then Some(DeleteFailure(run.fatal.value)) else None))
    ensures cfg.dryRun ==> out.requests == []
    ensures out.discard != [] ==> Matcher(cfg.regex, compile).Some? && ParseLines(listing.lines).Success?
    ensures forall x :: x in out.discard ==>
      x in ParseLines(listing.lines).value && Matcher(cfg.regex, compile).value(x.name) && x.name !in AlreadyDeleted(cfg)
    ensures OnlyNamesOf(out.requests, out.discard)
    ensures !cfg.dryRun && out.fatal == None ==> ReportsAll(out.log, out.discard)
  {
    var none := Outcome([], [], [], None);
    if cfg.batchSize <= 0 {
      return none.(fatal := Some(NonPositiveBatchSize));
    }
    var anchored := AnchorPattern(cfg.regex);
    if anchored.Failure? {
      return none.(fatal := Some(MissingRegex));
    }
    var rx := compile(anchored.value);
    if rx.None? {
      return none.(fatal := Some(BadRegex(anchored.value)));
    }
    assert Matcher(cfg.regex, compile) == rx;
    var alreadyDeleted: set<string> := {};
    if cfg.alreadyDeletedData.Some? {
      alreadyDeleted := LoadAlreadyDeleted(cfg.alreadyDeletedData.value);
    }
    assert alreadyDeleted == AlreadyDeleted(cfg);
    var parsed := GetArchiveItems(listing.lines, sort);
    if parsed.Failure? {
      return none.(fatal := Some(CatalogFailure(parsed.error)));
    }
    var p := Policy(alreadyDeleted, twoYearsAgo, twoMonthsAgo, Instant);
    assert p == SelectionPolicy(cfg, twoYearsAgo, twoMonthsAgo);
    var discardItems, log := SelectFromCatalog(parsed.value, rx.value, p, cfg.dryRun, ParseLines(listing.lines).value);
    if cfg.dryRun {
      return Outcome(log, discardItems, [], None);
    }
    var deleteLog, run := DeleteDiscards(discardItems, alreadyDeleted, cfg.batchSize, tarsnap);
    var fatal: Option<Fatal> := if run.fatal.Some? then Some(DeleteFailure(run.fatal.value)) else None;
    out := Outcome(log + deleteLog, discardItems, run.requests, fatal);
    if run.fatal == None {
      ReportsAllAfter(log, deleteLog, discardItems);
    }
  }

  lemma ReportsAllAfter(before: seq<Line>, log: seq<Line>, items: seq<ArchiveItem>)
    requires ReportsAll(log, items)
    ensures ReportsAll(before + log, items)
  {
    forall k | 0 <= k < |items| ensures Reports((before + log)[|before + log| - |items| + k], items[k].name) {
      assert (before + log)[|before + log| - |items| + k] == log[|log| - |items| + k];
    }
  }

  /** Filter the sorted items by name and run the selection pass over the survivors. */
  method SelectFromCatalog(items: seq<ArchiveItem>, matches: string -> bool, p: Policy, dryRun: bool,
                           ghost parsed: seq<ArchiveItem>)
    returns (discard: seq<ArchiveItem>, log: seq<Line>)
    requires SortedByDate(items) && multiset(items) == multiset(parsed)
    ensures var m := Matching(items, matches);
      discard == Discards(m, p, |m|) && log == Lines(m, p, dryRun, |m|)
    ensures forall x :: x in discard ==> x in parsed && matches(x.name) && x.name !in p.alreadyDeleted
  {
    var matchedItems := MatchItems(items, matches);
    discard, log := Select(matchedItems, p, dryRun);
    ProvenanceOfDiscards(items, matches, p, parsed);
    DiscardsNotDeleted(matchedItems, p, |matchedItems|);
  }

  /**
   * Batch the discarded names and run the batches. Since no discarded name is already
   * deleted, batch formation prints nothing and the batches hold the names in order.
   */
  method DeleteDiscards(discard: seq<ArchiveItem>, alreadyDeleted: set<string>, batchSize: nat,
                        tarsnap: seq<string> -> RunResult)
    returns (log: seq<Line>, run: Run)
    requires batchSize > 0 && forall x :: x in discard ==> x.name !in alreadyDeleted
    ensures run == DeletionRun(discard, alreadyDeleted, batchSize, tarsnap) && log == run.log
    ensures run.fatal == None ==> ReportsAll(log, discard)
    ensures OnlyNamesOf(run.requests, discard)
  {
    var names := ItemNames(discard);
    assert forall n :: n in names ==> n !in alreadyDeleted;
    var batches, goneLog := FormBatches(names, alreadyDeleted, batchSize);
    NothingGone(names, alreadyDeleted, batchSize);
    run := Execute(batches, tarsnap);
    log := goneLog + run.log;
    assert log == run.log;
    ExecuteAllReports(batches, tarsnap);
    assert Flatten(batches) == names;
    if run.fatal == None {
      assert |log| == |discard|;
      forall k | 0 <= k < |discard| ensures Reports(log[|log| - |discard| + k], discard[k].name) {
        assert Reports(run.log[k], names[k]);
      }
    }
    forall k, n | 0 <= k < |run.requests| && n in run.requests[k] ensures n in names {
      assert RequestsFrom(run.requests, names);
    }
  }

  /**
   * No discarded name is already deleted, so on the discard list the batching loop as the
   * program writes it hands out exactly the corrected batches.
   */
  lemma DiscardBatchesAsWritten(items: seq<ArchiveItem>, p: Policy, batchSize: nat)
    requires batchSize > 0
    ensures var names := ItemNames(Discards(items, p, |items|));
      AsWrittenRun(names, p.alreadyDeleted, 0, batchSize) == Batches(names, p.alreadyDeleted, batchSize)
  {
    var d := Discards(items, p, |items|);
    var names := ItemNames(d);
    DiscardsNotDeleted(items, p, |items|);
    forall n | n in names ensures n !in p.alreadyDeleted {
      var k :| 0 <= k < |names| && names[k] == n;
      assert d[k] in d;
    }
    AsWrittenRunChunks(names, p.alreadyDeleted, 0, batchSize);
    assert names[0..] == names;
  }

  /** Every discarded item was parsed from the catalog and its name matched the pattern. */
  lemma ProvenanceOfDiscards(items: seq<ArchiveItem>, matches: string -> bool, p: Policy, parsed: seq<ArchiveItem>)
    requires SortedByDate(items) && multiset(items) == multiset(parsed)
    ensures forall x :: x in Discards(Matching(items, matches), p, |Matching(items, matches)|) ==>
      x in parsed && matches(x.name)
  {
    var m := Matching(items, matches);
    MatchingSorted(items, matches);
    DiscardsInOrder(m, p, |m|);
    forall x | x in Discards(m, p, |m|) ensures x in parsed && matches(x.name) {
      var d := Discards(m, p, |m|);
      var i :| 0 <= i < |d| && d[i] == x;
      var ix := DiscardPositions(m, p, |m|);
      assert x == m[ix[i]];
      assert x in items;
      assert x in multiset(parsed);
    }
  }
}
