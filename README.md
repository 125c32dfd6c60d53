# tarsnap-old-archives in Dafny

`tarsnap-old-archives` thins a Tarsnap account's backups with a tiered rule.

- Older than two years: one archive per 30 days.
- Between two years and two months old: one per 7 days.
- More recent than that: everything is kept.

The program works in these steps:

1. Read the archive catalog. Each line is `name<TAB>YYYY-MM-DD HH:MM:SS`, as `tarsnap --list-archives -v` prints it.
2. Sort the archives by date.
3. Keep the archives whose name matches a pattern. The pattern is anchored with `.*` where it has no `^` or `$`.
4. Walk the matched archives once with a cursor. Each live archive the cursor reaches outside a window becomes an anchor and is kept. The archives that fall inside the anchor's window are discarded. After an anchor too recent for any window, the cursor steps over the next archive without looking at it.
5. Skip names listed in an "already deleted" file, reporting each one the cursor looks at as `gone`. One that the double advance after a windowless anchor (main.go:193) steps over gets no line at all.
6. Unless this is a dry run, delete the discarded archives with `tarsnap -d -f n1 -f n2 ...`, in batches.
   - If a batch fails because an archive does not exist, the names of that batch are deleted one at a time.
   - Any other failure ends the run.

The project models all of `main.go`'s logic. The modules are:

- `Wrappers`: `Option` and `Result`.
- `Text`: counting, first index and substring search on strings.
- `Timestamp`: the calendar record `Date`. It has a fixed-width formatter and parser (`2006-01-02 15:04:05`) and an instant in seconds that orders dates the way `time.Time.Before` does.
- `Sorting`: an insertion sort by an integer key, and facts about sorted permutations.
- `Catalog`: `archiveItem`, `String`, and `getArchiveItems`, modelled as a loop over the catalog lines followed by a sort. The sort is a parameter that keeps `sort.Slice`'s promise: it returns a permutation sorted by date (`Catalog.SortsByDate`). The insertion sort `Catalog.SortByDate` is one such sort.
- `Report`: the status lines the program prints.
- `Selector`: the name filter and the retention pass.
  - The pass is specified as a state machine. `Step` maps a mode (seeking an anchor, inside a window, or skipping one item) and an item to a label (`Keep`, `Discard`, `Gone`, `Skipped`) and the next mode.
  - `Select` is the nested cursor loop of `main`, proved equal to that machine.
  - The pass reads an archive's time through the policy's `at` function. `Pipeline` sets it to `Catalog.Instant`, the archive's instant in seconds. The pass itself only compares and shifts these values.
- `Pattern`: the anchoring of the name pattern.
- `DeletedList`: reading the already-deleted file into a set.
- `Executor`:
  - batch formation;
  - the argument list and error classification of `deleteArchives`;
  - the per-batch goroutine with its one-by-one fallback;
  - the dispatch of the batches.
- `Pipeline`: `main` itself, from flag checks to deletion.

The regular-expression engine, the clock, the contents of the files and tarsnap itself are parameters:

- the name matcher is a function of the anchored pattern;
- the two cut-off instants are integers;
- `sort.Slice` is any function that returns a date-sorted permutation of its input;
- the already-deleted file's contents are a string;
- the archive listing is its lines, with whether it came from tarsnap and whether the temporary copy was created;
- tarsnap is a function from the argument list to whether the command failed and what it wrote to standard error.

## Model

| member | source | states |
|---|---|---|
| `Text.Count` | main.go:69 | The number of occurrences is at most the length, and it is zero exactly when the character is absent. |
| `Text.FirstIndex` | main.go:72 | The position where `SplitN` cuts: it holds the separator, and the separator does not occur before it. |
| `Text.ContainsIff` | main.go:51 | `strings.Contains` holds exactly when the pattern occurs at some position of the text. |
| `Timestamp.Parse` | main.go:74 | The layout parser accepts only 19-character texts, and yields only valid calendar dates. |
| `Timestamp.ParseFormat` | main.go:74 | Parsing the formatted text of any date gives back that date. |
| `Timestamp.FormatParse` | main.go:74 | Every text the parser accepts is exactly the formatting of the date it yields. |
| `Timestamp.SecondsOrder` | main.go:87 | Comparing instants is the lexicographic order on (year, month, day, hour, minute, second), and equal instants mean equal dates. |
| `Timestamp.Format` | main.go:32 | A formatted date is always 19 characters and contains no tab, so it never splits a catalog line. |
| `Sorting.InsertBy` | main.go:86-88 | Inserting into a sorted sequence keeps it sorted, adds exactly the one element, and grows the length by one. |
| `Sorting.SortBy` | main.go:86-88 | The result is sorted by the key, is a permutation of the input, and has the same length. |
| `Sorting.SortedKeysUnique` | main.go:86-88 | Two sorted permutations of the same items have the same sequence of keys. Whatever order an unstable sort picks among equal dates, the dates come out the same. |
| `Catalog.ParseLine` | main.go:67-81 | A line fails with the tab count and the line itself exactly when its tab count is not 1. On success the name has no tab. |
| `Catalog.ItemString` | main.go:31-33 | `String()` is the name, a tab and the 19-character date text, so it holds one tab more than the name. When the name has no tab, that tab is the line's only one and the first, and the line splits at it back into the name and the date text. |
| `Catalog.LineRoundTrip` | main.go:31-33 | For a name without a tab, parsing `String()` of an item gives back the same name and date. |
| `Catalog.LineInverse` | main.go:72-81 | Every line the parser accepts is the `String()` of the item it yields. |
| `Catalog.ParseLines` | main.go:64-82 | The scanner loop yields one item per line on success. |
| `Catalog.ParseLinesItems` | main.go:67-82 | On success, item k is the parse of line k. |
| `Catalog.AllLinesParse` | main.go:67-82 | On success, every line parses. |
| `Catalog.FirstBadLine` | main.go:69-77 | On failure, the error is that of the first line that does not parse, and every earlier line parses. |
| `Catalog.ParseLinesFailure` | main.go:67-82 | Reading the catalog fails exactly when some line does not parse. |
| `Catalog.ParseLinesPrefixFailure` | main.go:69-77 | An error on a prefix of the catalog ends the scan with that error. |
| `Catalog.SortByDate` | main.go:86-88 | The items come out sorted by date, as a permutation of the input. |
| `Catalog.SortByDateSorts` | main.go:86-88 | The insertion sort keeps `sort.Slice`'s promise on every input, so it is one of the sorts `Pipeline.RunOldArchives` accepts. |
| `Catalog.GetArchiveItems` | main.go:64-90 | On a bad line, the error of the first bad line and no items. Otherwise the given sort's arrangement of the parsed items: one item per line, a permutation of the parsed lines, sorted by date. |
| `Report.LineText` | main.go:177 | The text of a status line: `keep`, `discard`, `gone` or `deleted`, then the item or name. |
| `Pattern.AnchorPattern` | main.go:110-118 | The pattern is refused exactly when it is empty. |
| `Pattern.AnchoredShape` | main.go:113-118 | The anchored pattern starts with `^` or `.*`, ends with `$` or `.*`, and contains the original pattern. It equals the original exactly when that already starts with `^` and ends with `$`. |
| `DeletedList.SplitPieces` | main.go:129 | `strings.Split` on newlines yields one more piece than there are newlines, and no piece holds a newline. |
| `DeletedList.JoinSplit` | main.go:129 | Joining the pieces with newlines gives back the file contents. |
| `DeletedList.SplitJoin` | main.go:129 | Splitting newline-joined lines that contain no newline gives back the lines. |
| `DeletedList.LoadAlreadyDeleted` | main.go:123-135 | The set is exactly the non-empty lines of the file. Every name in it is non-empty and holds no newline. |
| `Selector.Step` | main.go:175-211 | One item of the retention pass, as a labelled transition between the modes of the cursor loop. |
| `Selector.MatchItems` | main.go:163-169 | The filter loop keeps the matching items in order. |
| `Selector.MatchingSorted` | main.go:163-169 | The matched items are exactly the items whose name matches. They stay sorted by date, and there are no more of them than items. |
| `Selector.Select` | main.go:170-211 | The nested cursor loop discards exactly the items the state machine labels `Discard`, and prints exactly its lines. |
| `Selector.ScanWindow` | main.go:196-210 | The inner loop stops at the first live item at or after the window end, or at the end of the items. Every item it passes is already deleted or before the window end. It has discarded and reported exactly what the machine does up to there, and the machine is then looking for an anchor. |
| `Selector.PeriodEnd` | main.go:187-195 | The 30-day window is chosen whenever it ends before the two-year cut-off. Any window ends after its start, and before the cut-off that admitted it. There is no window exactly when neither window ends before its cut-off. |
| `Selector.NoPeriodLater` | main.go:187-195 | A later anchor time never opens a window that an earlier one did not. |
| `Selector.AnchorWindow` | main.go:182-194 | A kept anchor is not already deleted. Its window ends 30 days later exactly when that is before the two-year cut-off, and otherwise 7 days later exactly when that is before the two-month cut-off. Otherwise it has no window. |
| `Selector.WindowOpenedByAnchor` | main.go:175-210 | Whenever the loop is inside a window, an earlier anchor opened it, and everything since that anchor was `gone` or discarded into that window. |
| `Selector.DiscardFollowsAnchor` | main.go:196-207 | Every discarded item lies strictly before the end of the window of an earlier kept anchor. |
| `Selector.WindowContinues` | main.go:196-210 | After an anchor with a window, and as long as nothing is kept, the loop stays in that window. |
| `Selector.WindowDecides` | main.go:196-209 | Inside a window: an already-deleted item is `gone`, a live item before the end is discarded, and a live item at or after the end is kept as the next anchor. |
| `Selector.KeptSpacing` | main.go:202-209 | The next item kept after an anchor with a window is at or after that window's end. |
| `Selector.SkipFollowsRecentAnchor` | main.go:192-194 | An item is skipped (neither kept, discarded nor reported) exactly when the item before it was kept without a window. |
| `Selector.GoneMeansDeleted` | main.go:175-180 | Only already-deleted items are reported `gone`. An already-deleted item is reported `gone` unless it is the skipped one. |
| `Selector.DiscardsInOrder` | main.go:202-205 | The discard list is the discarded items in their original order, each once. |
| `Selector.DiscardsNotDeleted` | main.go:196-205 | No already-deleted name is ever discarded. |
| `Selector.DeletingADiscardIsTransparent` | main.go:196-201 | Marking a discarded item (with a unique name) as already deleted turns it into `gone` and changes no other label. |
| `Selector.DeletingASkippedIsTransparent` | main.go:176-195 | Marking a skipped item (with a unique name) as already deleted changes no label at all, its own included. |
| `Selector.NoWindowLater` | main.go:188-194 | Once an instant is too recent for a window, every later item is too. |
| `Selector.RecentTail` | main.go:188-194 | On sorted input, once an anchor has no window, every later item is kept without a window, skipped or `gone`, and nothing later is discarded. |
| `Executor.TakeWindow` | main.go:220-228 | The inner loop collects the window's live names in order and reports the others as `gone`. |
| `Executor.FormBatches` | main.go:217-228 | Batch formation, with the cursor moved past each window, yields the batches of `Batches` and the `gone` lines of the already-deleted names. |
| `Executor.BatchesCover` | main.go:217-228 | The batches together hold every name not already deleted, in order and each once. |
| `Executor.BatchesBounded` | main.go:220 | Every batch holds at least one and at most `batchSize` names. |
| `Executor.BatchesAreChunks` | main.go:217-228 | With no name already deleted, the batches are the plain consecutive chunks of the names. |
| `Executor.ChunksCount` | main.go:217-220 | There are ceil(n / batchSize) chunks. |
| `Executor.ChunkAt` | main.go:219-220 | Chunk i is the names from i * batchSize, up to batchSize of them. |
| `Executor.NothingGone` | main.go:221-224 | With no name already deleted, batch formation prints nothing, and the batches concatenate to the names. |
| `Executor.AsWrittenResubmits` | main.go:217-228 | The source's loop sends a name twice when an earlier name of its window is already deleted. |
| `Executor.AsWrittenStalls` | main.go:217-228 | The source's cursor stays put on a window whose names are all already deleted. |
| `Executor.AsWrittenAgrees` | main.go:217-228 | With no name already deleted, one step of the source's loop takes the same window as `Batches`. |
| `Executor.AsWrittenRunChunks` | main.go:217-228 | With no name already deleted, the source's loop run to the end hands out exactly the plain chunks of the names, which are the corrected batches. |
| `Executor.DeleteArgsLayout` | main.go:38-43 | For n names there are 2n + 1 arguments: `-d` first, then `-f` at 2i + 1 and name i at 2i + 2. |
| `Executor.BuildArgs` | main.go:38-43 | The loop fills the slice of 2n + 1 arguments with exactly that layout. |
| `Executor.ArgNamesRoundTrip` | main.go:58-60 | The arguments at positions 2, 4, ... are the archives, in order. |
| `Executor.ReportDeleted` | main.go:58-60 | The success loop prints `deleted` for each argument at an even position from 2 on. |
| `Executor.Classify` | main.go:50-55 | Success exactly when the command did not fail. Already-deleted exactly when it failed and its standard error contains `Archive does not exist`. Every other failure keeps its error. |
| `Executor.DeleteArchives` | main.go:37-62 | The outcome is the classification of tarsnap's result on the built arguments. Only on success is `deleted` printed, once per archive and in order. |
| `Executor.DeleteOneByOne` | main.go:237-246 | The one-by-one loop sends each name alone and prints `deleted` or `gone`. It stops at the first other failure. |
| `Executor.ExecuteBatch` | main.go:234-251 | One batch is sent whole. If an archive was gone it falls back to one at a time, and any other failure is fatal. |
| `Executor.Execute` | main.go:217-254 | With one operation in flight at a time, the batches run in order until one fails fatally. |
| `Executor.FallbackReports` | main.go:237-246 | The fallback sends the names one at a time, as a prefix of the batch. Without a fatal error it sends them all and reports each as `deleted` or `gone`, in order. |
| `Executor.BatchReports` | main.go:234-251 | A batch that is not fatal reports on each of its names, in order. Every name it sends is one of its names, and the first request is the whole batch. |
| `Executor.ExecuteAllReports` | main.go:217-254 | Without a fatal error, every name of every batch is reported, in order. Whatever happens, no name outside the batches is ever sent to tarsnap. |
| `Executor.StoreOutcome` | main.go:50-53 | Against a fixed set of stored archives, a delete is a success when all its archives are stored, and already-deleted otherwise. |
| `Executor.FallbackAgainstStore` | main.go:237-246 | Against a store, the fallback reports each name as `deleted` or `gone` by whether it is stored, sending each name exactly once. |
| `Executor.BatchAgainstStore` | main.go:234-246 | Against a store, a batch never ends the run. A fully stored batch is deleted in one request. Otherwise the whole batch is tried once, then each name once, and each is reported `deleted` if stored and `gone` if not. |
| `Pipeline.AsWrittenCatalog` | main.go:146-159 | What `getArchiveItems` parses as the program is written. When the listing came from tarsnap and the temporary copy was created, it parses as an empty catalog: no items and no error, whatever the listing held. Otherwise it parses exactly as the listing's own lines do. |
| `Pipeline.AsWrittenDrainsListing` | main.go:146-159 | For any sort that keeps `sort.Slice`'s promise, a tarsnap listing holding one matching archive gives the pass that archive to consider. Once the temporary copy is written, the pass gets nothing at all. |
| `Pipeline.RunOldArchives` | main.go:98-254 | The checks run in the program's order: batch size, empty pattern, a pattern that does not compile (`BadRegex` with the anchored pattern), then a bad catalog (the first bad line's error). After them, the discards and printed lines are those of the selection pass over the catalog, sorted by the given sort and filtered by the pattern. The sort is any one that keeps `sort.Slice`'s promise, so among archives with equal dates the outcome is stated for whichever order it leaves them in. Without a dry run, tarsnap then receives exactly the requests of the batched discards. Their lines follow, and a fatal deletion error ends the run. A dry run never calls tarsnap. The catalog is the listing's own lines, whether or not the temporary copy was written. |
| `Pipeline.SelectFromCatalog` | main.go:163-211 | The discards and printed lines are those of the selection pass over the items whose name matches. Each discarded item was parsed from the catalog, matches the pattern, and is not already deleted. |
| `Pipeline.DeleteDiscards` | main.go:217-254 | The run is the execution of the batches of the discarded names, and its lines are the whole log. Batch formation prints nothing here. Without a fatal error every discarded name is reported. Only discarded names reach tarsnap. |
| `Pipeline.DiscardBatchesAsWritten` | main.go:217-228 | On the discard list of the selection pass, the source's batching loop, run to the end, hands out exactly the corrected batches. |
| `Pipeline.ProvenanceOfDiscards` | main.go:163-205 | Every discarded item is a parsed catalog item whose name matched. |

A few points where the code behaves differently from how the retention policy is usually described. The model follows the code:

- `sort.Slice` is not stable. The sort is a parameter that only has to return a date-sorted permutation, so the results hold whatever order it picks among archives with equal dates. Any two such sorts give the same sequence of dates (`Sorting.SortedKeysUnique`).
- Marking an archive as already deleted leaves every other label unchanged when that archive was discarded (`Selector.DeletingADiscardIsTransparent`) or skipped (`Selector.DeletingASkippedIsTransparent`). Marking a kept anchor as deleted can move the anchors that follow.
- After an anchor that is too recent for a window, the cursor moves twice (main.go:193). The next archive is neither kept, discarded nor reported (`Selector.SkipFollowsRecentAnchor`). On sorted input, nothing after an anchor without a window is discarded (`Selector.RecentTail`). A skipped archive still loses its line: its `gone` line if it was already deleted, or its `keep` line on a dry run.

## Findings

| source | as written | input that shows it | evidently intended | confidence | as-written member | corrected member |
|---|---|---|---|---|---|---|
| main.go:217-228 | The window is always the `batchSize` names from `i`, but `i` moves only once per name that joins the batch, so an already-deleted name holds the cursor back. | Names `a`, `b`, `c`; `a` already deleted; batch size 2. The first batch is `[b]` and leaves `i` at 1, and the second batch is `[b, c]`, so `b` is sent twice. | Move the cursor past the whole window. | not executed; it cannot happen when the loop is reached from `main`, since no discarded name is already deleted (`Selector.DiscardsNotDeleted`) | `Executor.AsWrittenResubmits` | `Executor.FormBatches` |
| main.go:217-228 | A window whose names are all already deleted adds nothing and leaves `i` where it was. | Names `a`; `a` already deleted; batch size 1. `i` stays 0 and the loop sends an empty batch (`tarsnap -d` with no `-f`) again and again. It never ends as long as tarsnap answers that request with success or "Archive does not exist"; any other failure ends the run at the first empty request (main.go:247-249). | Move past the window, and send no empty batch. | not executed; not reachable from `main`, for the same reason | `Executor.AsWrittenStalls` | `Executor.FormBatches` |
| main.go:146-159 | With no `-file`, tarsnap's listing is captured in a buffer. `io.Copy(tmp, buf)` then reads that buffer to its end to write the temporary copy, and `getArchiveItems` reads the same, now empty, buffer. | Any run without `-file` in which the temporary file can be created: the catalog parses as empty, so nothing is kept, discarded or deleted, whatever the account holds. | Parse the whole listing, for example by copying from a second reader or reading the temporary file back. | not executed | `Pipeline.AsWrittenDrainsListing` | `Pipeline.RunOldArchives` |

For the listing, `Pipeline.RunOldArchives` parses the listing's own lines in every case.

The corrected loop is proved to hand out every live name exactly once, in order (`Executor.BatchesCover`). Every batch it forms is non-empty and no larger than the batch size (`Executor.BatchesBounded`). `Executor.AsWrittenRunChunks` shows that the source's loop, run to the end, and the corrected one hand out the same batches whenever no name is already deleted. That is always the case on the discard list (`Pipeline.DiscardBatchesAsWritten`).

## Left out

- Running tarsnap, capturing its output, opening and reading files, and creating the temporary copy of the listing are not modelled.
  - The catalog lines and the already-deleted file's contents are inputs.
  - tarsnap is a function from the argument list to (failed, standard error).
  - tarsnap's own standard output is discarded by the source and is not modelled.
  - The name of the temporary file and the line announcing it (main.go:155) are not modelled. What the copy does to the buffer is a finding above.
- The tarsnap function is stateless: deleting one batch does not change what later requests see. Whether a failed batch deleted part of its archives is not modelled. `Executor.BatchAgainstStore` takes a store that is fixed for the duration of one batch.
- Goroutines, the wait group, the semaphore and context cancellation are not modelled. With one operation in flight, the batches run one after another.
  - Under the source's concurrency, batch formation for the next batch overlaps the running batch. Its `gone` lines could interleave with the deletion output, but on the discard list batch formation prints nothing (`Executor.NothingGone`).
  - `log.Fatal` is a fatal result that ends the run.
  - The fatal result carries tarsnap's standard error in place of Go's process error value.
- Flag parsing, `regexp.Compile` and `MatchString` are not modelled. The compiler is a parameter that returns a matcher or nothing, and matching is that matcher.
- `time.Now` and the normalisation inside `time.Date` (main.go:172-174) are not modelled. The two cut-offs are integer seconds on the same scale as `Timestamp.Seconds`.
- Go's `time.Parse` accepts more than the fixed 19-character layout (for example fractional seconds), and its errors carry text. The model accepts exactly the fixed layout with a four-digit year from 0000 to 9999, and its timestamp error carries the rejected text.
- `bufio.Scanner` behaviour is not modelled: its line-length limit, its `\r` stripping and `bs.Err` (main.go:83-85). The catalog is already a sequence of lines.
- `sort.Slice`'s own algorithm is not modelled. The sort is a parameter that is constrained only by what `sort.Slice` promises here: a permutation sorted by date (`Catalog.SortsByDate`). Nothing fixes the order it picks among equal dates.
- Writing to standard output is not modelled. Lines are collected into a log sequence. `Report.LineText` gives their text exactly as `fmt.Println` writes it, with one space between its arguments. For example, the `gone` line is `"gone   "`, a space and the name, so four spaces in all. The final newline is left out.
- `Selector.Step`: it carries no `ensures` of its own. The properties of the retention pass are stated by the lemmas about it and by `Selector.Select`.
- `Report.LineText`: it carries no `ensures` of its own; it only gives the text of each line kind.
