/**
 * The archive catalog: one line per archive, `<name>\t<YYYY-MM-DD HH:MM:SS>`, as
 * `tarsnap --list-archives -v` prints it. Parsing turns the lines into archive items
 * sorted by date, or stops at the first line it cannot read.
 */
module Catalog {
  import opened Wrappers
  import opened Text
  import opened Timestamp
  import opened Sorting

  datatype ArchiveItem = ArchiveItem(date: Date, name: string)

  /**
   * `archiveItem.String`: the name, a tab and the formatted date, so the line holds one tab
   * more than the name. When the name has no tab that tab is the line's only one.
   */
  function ItemString(a: ArchiveItem): (line: string)
    ensures |line| == |a.name| + 20
    ensures line[..|a.name|] == a.name && line[|a.name|] == '\t' && line[|a.name| + 1..] == Format(a.date)
    ensures Count(line, '\t') == Count(a.name, '\t') + 1
    ensures '\t' !in a.name ==> Count(line, '\t') == 1 && FirstIndex(line, '\t') == |a.name|
  {
    TabSplit(a.name, Format(a.date));
    a.name + "\t" + Format(a.date)
  }

  /** Why a catalog line was refused: its tab count (with the line itself), or its timestamp text. */
  datatype CatalogError = WrongTabCount(count: nat, line: string) | BadTimestamp(text: string)

  /** One iteration of the scanner loop: split at the single tab, parse the timestamp. */
  function ParseLine(line: string): (r: Result<ArchiveItem, CatalogError>)
    ensures Count(line, '\t') != 1 <==> r == Failure(WrongTabCount(Count(line, '\t'), line))
    ensures r.Success? ==> '\t' !in r.value.name && Count(line, '\t') == 1
  {
    var count := Count(line, '\t');
    if count != 1 then Failure(WrongTabCount(count, line))
    else
      var k := FirstIndex(line, '\t');
      match Parse(line[k + 1..])
      case None => Failure(BadTimestamp(line[k + 1..]))
      case Some(d) => Success(ArchiveItem(d, line[..k]))
  }

  /** A name, a tab and tab-free text: where the parts sit, and for a tab-free name where the first tab is. */
  lemma TabSplit(name: string, ts: string)
    requires '\t' !in ts
    ensures var line := name + "\t" + ts;
      line[..|name|] == name && line[|name|] == '\t' && line[|name| + 1..] == ts &&
      Count(line, '\t') == Count(name, '\t') + 1 &&
      ('\t' !in name ==> FirstIndex(line, '\t') == |name|)
  {
    var line := name + "\t" + ts;
    assert line[..|name|] == name;
    assert line[|name| + 1..] == ts;
    TabCount(name, ts);
    if '\t' !in name {
      FirstIndexAt(line, '\t', |name|);
    }
  }

  /** The line holds the name's tabs and one more. */
  lemma TabCount(name: string, ts: string)
    requires '\t' !in ts
    ensures Count(name + "\t" + ts, '\t') == Count(name, '\t') + 1
  {
    assert name + "\t" + ts == name + ("\t" + ts);
    CountConcat(name, "\t" + ts, '\t');
    CountConcat("\t", ts, '\t');
  }

  /** A line is the text before its first tab, the tab, and the text after it. */
  lemma SplitAtTab(line: string, k: nat)
    requires k < |line| && line[k] == '\t'
    ensures line == line[..k] + "\t" + line[k + 1..]
  {
  }

  /** A name without a tab and its timestamp survive the trip through a catalog line. */
  lemma LineRoundTrip(a: ArchiveItem)
    requires '\t' !in a.name
    ensures ParseLine(ItemString(a)) == Success(a)
  {
    var line := ItemString(a);
    assert Count(line, '\t') == 1 && line[FirstIndex(line, '\t') + 1..] == Format(a.date);
    ParseFormat(a.date);
  }

  /** Every line the parser accepts is exactly the `String()` of the item it yields. */
  lemma LineInverse(line: string)
    requires ParseLine(line).Success?
    ensures ItemString(ParseLine(line).value) == line
  {
    var k := FirstIndex(line, '\t');
    var ts := line[k + 1..];
    assert Parse(ts).Some? && ParseLine(line) == Success(ArchiveItem(Parse(ts).value, line[..k]));
    FormatParse(ts);
    SplitAtTab(line, k);
  }

  /**
   * The scanner loop over the lines in order: the items of all lines, or the error of the
   * first line that fails.
   */
  function ParseLines(lines: seq<string>): (r: Result<seq<ArchiveItem>, CatalogError>)
    ensures r.Success? ==> |r.value| == |lines|
  {
    if lines == [] then Success([])
    else
      var prefix := ParseLines(lines[..|lines| - 1]);
      var last := ParseLine(lines[|lines| - 1]);
      if prefix.Failure? then prefix
      else if last.Failure? then Failure(last.error)
      else Success(prefix.value + [last.value])
  }

  /** On success there is one item per line, each the parse of its own line. */
  lemma {:induction false} ParseLinesItems(lines: seq<string>, k: nat)
    requires ParseLines(lines).Success? && k < |lines|
    ensures ParseLine(lines[k]) == Success(ParseLines(lines).value[k])
  {
    var init, last := lines[..|lines| - 1], lines[|lines| - 1];
    var prefix, r := ParseLines(init), ParseLine(last);
    assert prefix.Success? && r.Success?;
    var items := prefix.value + [r.value];
    assert ParseLines(lines) == Success(items);
    if k < |init| {
      ParseLinesItems(init, k);
      assert lines[k] == init[k] && items[k] == prefix.value[k];
    } else {
      assert lines[k] == last && items[k] == r.value;
    }
  }

  /** When parsing succeeds, every line parses. */
  lemma AllLinesParse(lines: seq<string>)
    requires ParseLines(lines).Success?
    ensures forall k :: 0 <= k < |lines| ==> ParseLine(lines[k]).Success?
  {
    forall k | 0 <= k < |lines| ensures ParseLine(lines[k]).Success? {
      ParseLinesItems(lines, k);
    }
  }

  /** When parsing fails, the error is that of the first line that does not parse. */
  lemma {:induction false} FirstBadLine(lines: seq<string>) returns (k: nat)
    requires ParseLines(lines).Failure?
    ensures k < |lines| && ParseLine(lines[k]) == Failure(ParseLines(lines).error)
    ensures forall j :: 0 <= j < k ==> ParseLine(lines[j]).Success?
  {
    var init := lines[..|lines| - 1];
    if ParseLines(init).Failure? {
      k := FirstBadLine(init);
      assert lines[k] == init[k];
      assert forall j :: 0 <= j < k ==> init[j] == lines[j];
    } else {
      k := |lines| - 1;
      AllLinesParse(init);
      assert forall j :: 0 <= j < k ==> init[j] == lines[j];
    }
  }

  /** Parsing fails exactly when some line does not parse. */
  lemma ParseLinesFailure(lines: seq<string>)
    ensures ParseLines(lines).Failure? <==> exists k :: 0 <= k < |lines| && ParseLine(lines[k]).Failure?
  {
    if ParseLines(lines).Failure? {
      var k := FirstBadLine(lines);
    } else {
      AllLinesParse(lines);
    }
  }

  /** An error on a prefix of the catalog is the error of the whole catalog. */
  lemma {:induction false} ParseLinesPrefixFailure(lines: seq<string>, i: nat)
    requires i <= |lines| && ParseLines(lines[..i]).Failure?
    ensures ParseLines(lines) == ParseLines(lines[..i])
    decreases |lines| - i
  {
    if i < |lines| {
      assert lines[..i + 1][..i] == lines[..i];
      ParseLinesPrefixFailure(lines, i + 1);
    } else {
      assert lines[..i] == lines;
    }
  }

  // ---- ordering by date ----

  /** The item's place on the time line; Go's `Before` compares these. */
  function Instant(a: ArchiveItem): int
  {
    Seconds(a.date)
  }

  ghost predicate SortedByDate(s: seq<ArchiveItem>)
  {
    SortedBy(s, Instant)
  }

  /**
   * The order `sort.Slice` establishes: a sorted rearrangement of the parsed items.
   * `sort.Slice` is not stable, so which of several items with one date comes first is
   * not something the program promises; `SortedKeysUnique` shows that the sequence of
   * dates is the same for every sorted rearrangement.
   */
  function SortByDate(s: seq<ArchiveItem>): (r: seq<ArchiveItem>)
    ensures SortedByDate(r) && multiset(r) == multiset(s) && |r| == |s|
  {
    SortBy(s, Instant)
  }

  /**
   * What `sort.Slice` with the `Before` comparison promises of its result, and no more: it
   * is sorted by date and a rearrangement of its input. Which of several items with one
   * date comes first is left open.
   */
  ghost predicate SortsByDate(sort: seq<ArchiveItem> -> seq<ArchiveItem>)
  {
    forall s :: SortedByDate(sort(s)) && multiset(sort(s)) == multiset(s)
  }

  /** The insertion sort is one of the arrangements `sort.Slice` may produce. */
  lemma SortByDateSorts()
    ensures SortsByDate(SortByDate)
  {
  }

  /**
   * `getArchiveItems`: read every line, stop at the first bad one, then sort by date with
   * `sort`, which stands for `sort.Slice` and may be any sort that keeps its promise.
   * On success the items are one per line, a permutation of the parsed lines, sorted.
   */
  method GetArchiveItems(lines: seq<string>, sort: seq<ArchiveItem> -> seq<ArchiveItem>)
    returns (r: Result<seq<ArchiveItem>, CatalogError>)
    requires SortsByDate(sort)
    ensures ParseLines(lines).Failure? ==> r == Failure(ParseLines(lines).error)
    ensures ParseLines(lines).Success? ==>
      r.Success? && |r.value| == |lines| &&
      multiset(r.value) == multiset(ParseLines(lines).value) && SortedByDate(r.value)
    ensures ParseLines(lines).Success? ==> r == Success(sort(ParseLines(lines).value))
  {
    var items: seq<ArchiveItem> := [];
    var i := 0;
    while i < |lines|
      invariant 0 <= i <= |lines|
      invariant ParseLines(lines[..i]) == Success(items)
    {
      var next := ParseLine(lines[i]);
      assert lines[..i + 1][..i] == lines[..i] && lines[..i + 1][i] == lines[i];
      if next.Failure? {
        assert ParseLines(lines[..i + 1]) == Failure(next.error);
        ParseLinesPrefixFailure(lines, i + 1);
        return Failure(next.error);
      }
      assert ParseLines(lines[..i + 1]) == Success(items + [next.value]);
      items := items + [next.value];
      i := i + 1;
    }
    assert lines[..i] == lines;
    var sorted := sort(items);
    assert |sorted| == |multiset(sorted)| == |multiset(items)| == |items|;
    r := Success(sorted);
  }
}
