/**
 * Deleting the discarded archives: cut the names into batches, run one
 * `tarsnap -d -f n1 -f n2 ...` per batch, and when a batch fails because some archive in
 * it no longer exists, delete its names one at a time. The program allows one tarsnap
 * operation at a time, so batches run one after another; a failure of any other kind
 * ends the run.
 *
 * tarsnap itself is a parameter: a function from the argument list to whether the
 * command failed and what it wrote to standard error.
 */
module Executor {
  import opened Wrappers
  import opened Text
  import opened Report

  // ---- batch formation ----

  /** The names not already deleted, in order. */
  function Live(names: seq<string>, alreadyDeleted: set<string>): seq<string>
  {
    if names == [] then []
    else
      var last := names[|names| - 1];
      Live(names[..|names| - 1], alreadyDeleted) + (if last in alreadyDeleted then [] else [last])
  }

  /** The `gone` lines batch formation prints for the already-deleted names, in order. */
  function GoneLines(names: seq<string>, alreadyDeleted: set<string>): seq<Line>
  {
    if names == [] then []
    else
      var last := names[|names| - 1];
      GoneLines(names[..|names| - 1], alreadyDeleted) + (if last in alreadyDeleted then [GoneLine(last)] else [])
  }

  function Min(a: int, b: int): int
  {
    if a < b then a else b
  }

  /**
   * The batches: consecutive windows of `batchSize` names, each without its
   * already-deleted names; a window left empty yields no batch.
   */
  function Batches(names: seq<string>, alreadyDeleted: set<string>, batchSize: nat): seq<seq<string>>
    requires batchSize > 0
    decreases |names|
  {
    if names == [] then []
    else
      var w := Min(batchSize, |names|);
      var batch := Live(names[..w], alreadyDeleted);
      (if batch == [] then [] else [batch]) + Batches(names[w..], alreadyDeleted, batchSize)
  }

  function Flatten(batches: seq<seq<string>>): seq<string>
  {
    if batches == [] then [] else batches[0] + Flatten(batches[1..])
  }

  lemma {:induction false} LiveConcat(a: seq<string>, b: seq<string>, alreadyDeleted: set<string>)
    ensures Live(a + b, alreadyDeleted) == Live(a, alreadyDeleted) + Live(b, alreadyDeleted)
    decreases |b|
  {
    if b == [] {
      assert a + b == a;
    } else {
      var b' := b[..|b| - 1];
      assert (a + b)[..|a + b| - 1] == a + b';
      LiveConcat(a, b', alreadyDeleted);
    }
  }

  lemma {:induction false} FlattenConcat(x: seq<seq<string>>, y: seq<seq<string>>)
    ensures Flatten(x + y) == Flatten(x) + Flatten(y)
  {
    if x != [] {
      assert (x + y)[1..] == x[1..] + y;
      FlattenConcat(x[1..], y);
    } else {
      assert x + y == y;
    }
  }

  /** The batches together hold every name not already deleted, each once, in order. */
  lemma {:induction false} BatchesCover(names: seq<string>, alreadyDeleted: set<string>, batchSize: nat)
    requires batchSize > 0
    ensures Flatten(Batches(names, alreadyDeleted, batchSize)) == Live(names, alreadyDeleted)
    decreases |names|
  {
    if names == [] {
      assert Batches(names, alreadyDeleted, batchSize) == [];
    } else {
      var w := Min(batchSize, |names|);
      var front, back := names[..w], names[w..];
      var batch := Live(front, alreadyDeleted);
      var head: seq<seq<string>> := if batch == [] then [] else [batch];
      var later := Batches(back, alreadyDeleted, batchSize);
      assert Batches(names, alreadyDeleted, batchSize) == head + later;
      BatchesCover(back, alreadyDeleted, batchSize);
      FlattenConcat(head, later);
      assert Flatten(head) == batch by {
        if batch != [] {
          assert head[1..] == [];
        }
      }
      assert names == front + back;
      LiveConcat(front, back, alreadyDeleted);
    }
  }

  lemma {:induction false} LiveBounded(names: seq<string>, alreadyDeleted: set<string>)
    ensures |Live(names, alreadyDeleted)| <= |names|
    ensures forall n :: n in Live(names, alreadyDeleted) ==> n in names && n !in alreadyDeleted
    ensures (forall n :: n in names ==> n !in alreadyDeleted) ==> Live(names, alreadyDeleted) == names
  {
    if names != [] {
      var init := names[..|names| - 1];
      LiveBounded(init, alreadyDeleted);
      assert names == init + [names[|names| - 1]];
    }
  }

  /** Every batch holds between one and `batchSize` names. */
  lemma {:induction false} BatchesBounded(names: seq<string>, alreadyDeleted: set<string>, batchSize: nat)
    requires batchSize > 0
    ensures forall b :: b in Batches(names, alreadyDeleted, batchSize) ==> 0 < |b| <= batchSize
    decreases |names|
  {
    if names != [] {
      var w := Min(batchSize, |names|);
      LiveBounded(names[..w], alreadyDeleted);
      BatchesBounded(names[w..], alreadyDeleted, batchSize);
    }
  }

  /** Plain chunking: consecutive windows of `batchSize` names, the last one possibly short. */
  function Chunks(names: seq<string>, batchSize: nat): seq<seq<string>>
    requires batchSize > 0
    decreases |names|
  {
    if names == [] then []
    else
      var w := Min(batchSize, |names|);
      [names[..w]] + Chunks(names[w..], batchSize)
  }

  /** When no name is already deleted, the batches are the plain chunks. */
  lemma {:induction false} BatchesAreChunks(names: seq<string>, alreadyDeleted: set<string>, batchSize: nat)
    requires batchSize > 0 && forall n :: n in names ==> n !in alreadyDeleted
    ensures Batches(names, alreadyDeleted, batchSize) == Chunks(names, batchSize)
    decreases |names|
  {
    if names != [] {
      var w := Min(batchSize, |names|);
      LiveBounded(names[..w], alreadyDeleted);
      assert forall n :: n in names[w..] ==> n in names;
      BatchesAreChunks(names[w..], alreadyDeleted, batchSize);
    }
  }

  lemma DivUnique(x: int, b: int, q: int)
    requires b > 0 && q * b <= x < q * b + b
    ensures x / b == q
  {
    var d := x / b - q;
    assert x == (x / b) * b + x % b;
    assert (x / b) * b == q * b + d * b;
  }

  /** There are ceil(n / batchSize) chunks. */
  lemma {:induction false} ChunksCount(names: seq<string>, batchSize: nat)
    requires batchSize > 0
    ensures |Chunks(names, batchSize)| == (|names| + batchSize - 1) / batchSize
    decreases |names|
  {
    if names == [] {
      DivUnique(batchSize - 1, batchSize, 0);
    } else if |names| <= batchSize {
      assert names[|names|..] == [];
      DivUnique(|names| + batchSize - 1, batchSize, 1);
    } else {
      var rest := names[batchSize..];
      assert |Chunks(names, batchSize)| == 1 + |Chunks(rest, batchSize)|;
      ChunksCount(rest, batchSize);
      CeilStep(|rest|, batchSize);
    }
  }

  /** One more full window adds one to the ceiling of n / b. */
  lemma CeilStep(n: nat, b: nat)
    requires b > 0
    ensures (n + b + b - 1) / b == (n + b - 1) / b + 1
  {
    var q := (n + b - 1) / b;
    assert q * b <= n + b - 1 < q * b + b by {
      assert n + b - 1 == q * b + (n + b - 1) % b;
    }
    assert (q + 1) * b == q * b + b;
    DivUnique(n + b + b - 1, b, q + 1);
  }

  /** Chunk i is names[i * batchSize ..] up to batchSize names: every chunk but the last is full. */
  lemma {:induction false} ChunkAt(names: seq<string>, batchSize: nat, i: nat)
    requires batchSize > 0 && i < |Chunks(names, batchSize)|
    ensures i * batchSize < |names|
    ensures Chunks(names, batchSize)[i] == names[i * batchSize .. Min((i + 1) * batchSize, |names|)]
    decreases i
  {
    if i == 0 {
      assert Chunks(names, batchSize)[0] == names[..Min(batchSize, |names|)];
    } else {
      var rest := ChunksTail(names, batchSize);
      ChunkAt(rest, batchSize, i - 1);
      ChunkNext(names, batchSize, i, Chunks(names, batchSize)[i]);
    }
  }

  /** The step of `ChunkAt`: a window of what follows the first `batchSize` names, shifted back. */
  lemma ChunkNext(names: seq<string>, batchSize: nat, i: nat, chunk: seq<string>)
    requires batchSize > 0 && 0 < i && |names| > batchSize
    requires (i - 1) * batchSize < |names| - batchSize
    requires chunk == names[batchSize..][(i - 1) * batchSize .. Min(i * batchSize, |names| - batchSize)]
    ensures i * batchSize < |names|
    ensures chunk == names[i * batchSize .. Min((i + 1) * batchSize, |names|)]
  {
    NextMultiple(i, batchSize);
    var k := i * batchSize;
    var lo, hi := k - batchSize, Min(k, |names| - batchSize);
    assert Min(k + batchSize, |names|) == hi + batchSize;
    SliceShift(names, batchSize, lo, hi);
  }

  /** Past the first chunk, the chunks are those of the remaining names. */
  lemma ChunksTail(names: seq<string>, batchSize: nat) returns (rest: seq<string>)
    requires batchSize > 0 && |Chunks(names, batchSize)| > 1
    ensures |names| > batchSize && rest == names[batchSize..]
    ensures |Chunks(names, batchSize)| == 1 + |Chunks(rest, batchSize)|
    ensures forall i :: 0 < i < |Chunks(names, batchSize)| ==> Chunks(names, batchSize)[i] == Chunks(rest, batchSize)[i - 1]
  {
    rest := names[batchSize..];
  }

  lemma NextMultiple(i: nat, b: nat)
    requires i > 0
    ensures i * b == (i - 1) * b + b && (i + 1) * b == i * b + b
  {
  }

  lemma SliceShift(names: seq<string>, k: nat, lo: nat, hi: nat)
    requires k <= |names| && lo <= hi <= |names| - k
    ensures names[k..][lo..hi] == names[k + lo..k + hi]
  {
  }

  lemma {:induction false} GoneLinesConcat(a: seq<string>, b: seq<string>, alreadyDeleted: set<string>)
    ensures GoneLines(a + b, alreadyDeleted) == GoneLines(a, alreadyDeleted) + GoneLines(b, alreadyDeleted)
    decreases |b|
  {
    if b == [] {
      assert a + b == a;
    } else {
      var b' := b[..|b| - 1];
      assert (a + b)[..|a + b| - 1] == a + b';
      GoneLinesConcat(a, b', alreadyDeleted);
    }
  }

  lemma GoneLinesSplit(names: seq<string>, i: nat, j: nat, alreadyDeleted: set<string>)
    requires i <= j <= |names|
    ensures GoneLines(names[..j], alreadyDeleted) == GoneLines(names[..i], alreadyDeleted) + GoneLines(names[i..j], alreadyDeleted)
  {
    assert names[..j] == names[..i] + names[i..j];
    GoneLinesConcat(names[..i], names[i..j], alreadyDeleted);
  }

  /**
   * The inner loop of batch formation: walk one window, print `gone` for each
   * already-deleted name and collect the others.
   */
  method TakeWindow(window: seq<string>, alreadyDeleted: set<string>) returns (archives: seq<string>, log: seq<Line>)
    ensures archives == Live(window, alreadyDeleted)
    ensures log == GoneLines(window, alreadyDeleted)
  {
    archives, log := [], [];
    for j := 0 to |window|
      invariant archives == Live(window[..j], alreadyDeleted)
      invariant log == GoneLines(window[..j], alreadyDeleted)
    {
      var name := window[j];
      assert window[..j + 1][..j] == window[..j];
      if name in alreadyDeleted {
        log := log + [GoneLine(name)];
        continue;
      }
      archives := archives + [name];
    }
    assert window[..|window|] == window;
  }

  /** Batches from position i on: the window at i, then the batches after it. */
  lemma BatchesFrom(names: seq<string>, alreadyDeleted: set<string>, batchSize: nat, i: nat)
    requires batchSize > 0 && i < |names|
    ensures var j := Min(i + batchSize, |names|);
      var batch := Live(names[i..j], alreadyDeleted);
      Batches(names[i..], alreadyDeleted, batchSize) ==
        (if batch == [] then [] else [batch]) + Batches(names[j..], alreadyDeleted, batchSize)
  {
    var j := Min(i + batchSize, |names|);
    var rest := names[i..];
    var w := Min(batchSize, |rest|);
    assert w == j - i;
    assert rest[..w] == names[i..j] && rest[w..] == names[j..];
    var batch := Live(rest[..w], alreadyDeleted);
    assert Batches(rest, alreadyDeleted, batchSize) ==
      (if batch == [] then [] else [batch]) + Batches(rest[w..], alreadyDeleted, batchSize);
  }

  /** The batches already formed before position i are exactly the batches of `names` that precede those of `names[i..]`. */
  ghost predicate BatchedUpTo(names: seq<string>, alreadyDeleted: set<string>, batchSize: nat, i: nat, batches: seq<seq<string>>)
    requires batchSize > 0 && i <= |names|
  {
    Batches(names, alreadyDeleted, batchSize) == batches + Batches(names[i..], alreadyDeleted, batchSize)
  }

  /** Forming the batch of the window at i, when it is not empty, moves the cursor to the window's end. */
  lemma BatchedStep(names: seq<string>, alreadyDeleted: set<string>, batchSize: nat, i: nat, batches: seq<seq<string>>)
    requires batchSize > 0 && i < |names| && BatchedUpTo(names, alreadyDeleted, batchSize, i, batches)
    ensures var j := Min(i + batchSize, |names|);
      var batch := Live(names[i..j], alreadyDeleted);
      BatchedUpTo(names, alreadyDeleted, batchSize, j, if batch == [] then batches else batches + [batch])
  {
    var j := Min(i + batchSize, |names|);
    var batch := Live(names[i..j], alreadyDeleted);
    BatchesFrom(names, alreadyDeleted, batchSize, i);
    var later := Batches(names[j..], alreadyDeleted, batchSize);
    if batch != [] {
      assert batches + ([batch] + later) == (batches + [batch]) + later;
    } else {
      assert [] + later == later;
    }
  }

  /**
   * The batch-formation loop of `main`, with the cursor moved past the whole window after
   * each batch (see `AsWrittenStep` for the loop as the source writes it).
   */
  method FormBatches(names: seq<string>, alreadyDeleted: set<string>, batchSize: nat)
    returns (batches: seq<seq<string>>, log: seq<Line>)
    requires batchSize > 0
    ensures batches == Batches(names, alreadyDeleted, batchSize)
    ensures log == GoneLines(names, alreadyDeleted)
  {
    batches, log := [], [];
    var i := 0;
    assert names[0..] == names;
    while i < |names|
      invariant 0 <= i <= |names|
      invariant BatchedUpTo(names, alreadyDeleted, batchSize, i, batches)
      invariant log == GoneLines(names[..i], alreadyDeleted)
    {
      var j := Min(i + batchSize, |names|);
      var archives, gone := TakeWindow(names[i..j], alreadyDeleted);
      GoneLinesSplit(names, i, j, alreadyDeleted);
      log := log + gone;
      BatchedStep(names, alreadyDeleted, batchSize, i, batches);
      if archives != [] {
        batches := batches + [archives];
      }
      i := j;
    }
    assert names[i..] == [] && Batches([], alreadyDeleted, batchSize) == [];
    assert batches + [] == batches;
    assert names[..i] == names;
  }

  /** With no name already deleted, batch formation prints nothing and the batches are the names in order. */
  lemma {:induction false} NothingGone(names: seq<string>, alreadyDeleted: set<string>, batchSize: nat)
    requires batchSize > 0 && forall n :: n in names ==> n !in alreadyDeleted
    ensures GoneLines(names, alreadyDeleted) == []
    ensures Flatten(Batches(names, alreadyDeleted, batchSize)) == names
  {
    BatchesCover(names, alreadyDeleted, batchSize);
    LiveBounded(names, alreadyDeleted);
    if names != [] {
      var init := names[..|names| - 1];
      assert forall n :: n in init ==> n in names;
      NothingGone(init, alreadyDeleted, batchSize);
    }
  }

  // ---- the batch loop as the source writes it ----

  /**
   * One pass of the batch-formation loop as written: the window is names[i..i + batchSize],
   * but the cursor moves only once per name that enters the batch.
   */
  function AsWrittenStep(names: seq<string>, alreadyDeleted: set<string>, i: nat, batchSize: nat): (seq<string>, nat)
    requires i <= |names|
  {
    var batch := Live(names[i..Min(i + batchSize, |names|)], alreadyDeleted);
    (batch, i + |batch|)
  }

  /** With an already-deleted name in a window, the next batch starts inside it again: "b" goes out twice. */
  lemma AsWrittenResubmits()
    ensures AsWrittenStep(["a", "b", "c"], {"a"}, 0, 2) == (["b"], 1)
    ensures AsWrittenStep(["a", "b", "c"], {"a"}, 1, 2) == (["b", "c"], 3)
  {
    var names := ["a", "b", "c"];
    assert names[0..2] == ["a", "b"];
    assert ["a", "b"][..1] == ["a"];
    assert ["a"][..0] == [];
    assert Live(["a"], {"a"}) == [];
    assert Live(["a", "b"], {"a"}) == ["b"];
    assert names[1..3] == ["b", "c"];
    assert ["b", "c"][..1] == ["b"];
    assert ["b"][..0] == [];
    assert Live(["b"], {"a"}) == ["b"];
    assert Live(["b", "c"], {"a"}) == ["b", "c"];
  }

  /** With a window of already-deleted names only, the cursor does not move: the loop never ends. */
  lemma AsWrittenStalls()
    ensures AsWrittenStep(["a"], {"a"}, 0, 1) == ([], 0)
  {
    assert ["a"][0..1] == ["a"];
    assert ["a"][..0] == [];
  }

  /** When no name is already deleted, the source's loop and `Batches` take the same windows. */
  lemma AsWrittenAgrees(names: seq<string>, alreadyDeleted: set<string>, i: nat, batchSize: nat)
    requires i < |names| && batchSize > 0 && forall n :: n in names ==> n !in alreadyDeleted
    ensures var j := Min(i + batchSize, |names|);
      AsWrittenStep(names, alreadyDeleted, i, batchSize) == (names[i..j], j)
    ensures var j := Min(i + batchSize, |names|);
      Batches(names[i..], alreadyDeleted, batchSize) == [names[i..j]] + Batches(names[j..], alreadyDeleted, batchSize)
  {
    var j := Min(i + batchSize, |names|);
    var window := names[i..j];
    LiveWindow(names, alreadyDeleted, i, j);
    assert AsWrittenStep(names, alreadyDeleted, i, batchSize) == (window, j);
    BatchesFrom(names, alreadyDeleted, batchSize, i);
  }

  /**
   * The batches the source's loop hands out from cursor `i`, in order. Where the cursor
   * would stop moving (an all-deleted window), the loop would send that empty batch
   * forever; the sequence ends with one copy of it.
   */
  function AsWrittenRun(names: seq<string>, alreadyDeleted: set<string>, i: nat, batchSize: nat): seq<seq<string>>
    requires i <= |names| && batchSize > 0
    decreases |names| - i
  {
    if i == |names| then []
    else
      var step := AsWrittenStep(names, alreadyDeleted, i, batchSize);
      LiveBounded(names[i..Min(i + batchSize, |names|)], alreadyDeleted);
      if step.1 == i then [step.0]
      else [step.0] + AsWrittenRun(names, alreadyDeleted, step.1, batchSize)
  }

  /**
   * With no name already deleted, the source's loop, run to the end from cursor `i`, hands
   * out exactly the plain chunks of the remaining names, which are the corrected batches.
   */
  lemma {:induction false} AsWrittenRunChunks(names: seq<string>, alreadyDeleted: set<string>, i: nat, batchSize: nat)
    requires i <= |names| && batchSize > 0 && forall n :: n in names ==> n !in alreadyDeleted
    ensures AsWrittenRun(names, alreadyDeleted, i, batchSize) == Chunks(names[i..], batchSize)
    ensures AsWrittenRun(names, alreadyDeleted, i, batchSize) == Batches(names[i..], alreadyDeleted, batchSize)
    decreases |names| - i
  {
    assert forall n :: n in names[i..] ==> n in names;
    BatchesAreChunks(names[i..], alreadyDeleted, batchSize);
    if i < |names| {
      var j := Min(i + batchSize, |names|);
      AsWrittenAgrees(names, alreadyDeleted, i, batchSize);
      AsWrittenRunChunks(names, alreadyDeleted, j, batchSize);
      var rest := names[i..];
      assert Min(batchSize, |rest|) == j - i;
      assert rest[..j - i] == names[i..j] && rest[j - i..] == names[j..];
      assert Chunks(rest, batchSize) == [names[i..j]] + Chunks(names[j..], batchSize);
    }
  }

  lemma LiveWindow(names: seq<string>, alreadyDeleted: set<string>, i: nat, j: nat)
    requires i < j <= |names| && forall n :: n in names ==> n !in alreadyDeleted
    ensures Live(names[i..j], alreadyDeleted) == names[i..j] != []
  {
    var window := names[i..j];
    assert window[0] == names[i];
    assert forall n :: n in window ==> n in names;
    LiveBounded(window, alreadyDeleted);
  }

  // ---- the tarsnap command line ----

  /** The arguments `-d -f n1 -f n2 ...` for deleting `archives`. */
  function DeleteArgs(archives: seq<string>): seq<string>
  {
    ["-d"] + NamePairs(archives)
  }

  function NamePairs(archives: seq<string>): seq<string>
  {
    if archives == [] then [] else ["-f", archives[0]] + NamePairs(archives[1..])
  }

  lemma {:induction false} NamePairsLayout(archives: seq<string>)
    ensures |NamePairs(archives)| == 2 * |archives|
    ensures forall i :: 0 <= i < |archives| ==>
      NamePairs(archives)[2 * i] == "-f" && NamePairs(archives)[2 * i + 1] == archives[i]
  {
    if archives != [] {
      NamePairsLayout(archives[1..]);
      var rest := NamePairs(archives[1..]);
      forall i | 1 <= i < |archives|
        ensures NamePairs(archives)[2 * i] == "-f" && NamePairs(archives)[2 * i + 1] == archives[i]
      {
        assert NamePairs(archives)[2 * i] == rest[2 * (i - 1)];
        assert NamePairs(archives)[2 * i + 1] == rest[2 * (i - 1) + 1];
      }
    }
  }

  /** For n names: 2n + 1 arguments, `-d` first, then `-f` before each name. */
  lemma DeleteArgsLayout(archives: seq<string>)
    ensures var args := DeleteArgs(archives);
      |args| == 2 * |archives| + 1 && args[0] == "-d" &&
      forall i :: 0 <= i < |archives| ==> args[2 * i + 1] == "-f" && args[2 * i + 2] == archives[i]
  {
    NamePairsLayout(archives);
  }

  /** The argument-building loop of `deleteArchives`, filling a slice of length 2n + 1. */
  method BuildArgs(archives: seq<string>) returns (args: array<string>)
    ensures args.Length == 2 * |archives| + 1
    ensures args[..] == DeleteArgs(archives)
  {
    args := new string[|archives| * 2 + 1];
    args[0] := "-d";
    for i := 0 to |archives|
      invariant args[0] == "-d"
      invariant forall k :: 0 <= k < i ==> args[k * 2 + 1] == "-f" && args[k * 2 + 2] == archives[k]
    {
      args[i * 2 + 1] := "-f";
      args[i * 2 + 2] := archives[i];
    }
    DeleteArgsLayout(archives);
    var expected := DeleteArgs(archives);
    forall j | 0 <= j < args.Length ensures args[j] == expected[j] {
      if j > 0 {
        var k := (j - 1) / 2;
        assert j == k * 2 + 1 || j == k * 2 + 2;
      }
    }
  }

  /** The names at positions 2, 4, ... of an argument list: what the success loop prints. */
  function ArgNames(args: seq<string>): seq<string>
  {
    if |args| < 3 then [] else [args[2]] + ArgNames(args[2..])
  }

  lemma {:induction false} ArgNamesPairs(first: string, archives: seq<string>)
    ensures ArgNames([first] + NamePairs(archives)) == archives
    decreases |archives|
  {
    if archives != [] {
      var args := [first] + NamePairs(archives);
      assert args == [first, "-f", archives[0]] + NamePairs(archives[1..]);
      assert args[2..] == [archives[0]] + NamePairs(archives[1..]);
      ArgNamesPairs(archives[0], archives[1..]);
    }
  }

  /** Reading the names back out of the arguments gives the archives. */
  lemma ArgNamesRoundTrip(archives: seq<string>)
    ensures ArgNames(DeleteArgs(archives)) == archives
  {
    ArgNamesPairs("-d", archives);
  }

  function DeletedLines(names: seq<string>): seq<Line>
  {
    if names == [] then [] else [DeletedLine(names[0])] + DeletedLines(names[1..])
  }

  /** The success loop of `deleteArchives`: `deleted` for every argument at an even position from 2 on. */
  method ReportDeleted(args: seq<string>) returns (log: seq<Line>)
    ensures log == DeletedLines(ArgNames(args))
  {
    log := [];
    var i := 2;
    while i < |args|
      invariant 2 <= i <= |args| + 2
      invariant log + DeletedLines(ArgNames(args[i - 2..])) == DeletedLines(ArgNames(args))
      decreases |args| - i
    {
      var rest := ArgNames(args[i..]);
      assert args[i - 2..][2..] == args[i..];
      assert ArgNames(args[i - 2..]) == [args[i]] + rest;
      assert DeletedLines([args[i]] + rest) == [DeletedLine(args[i])] + DeletedLines(rest) by {
        assert ([args[i]] + rest)[1..] == rest;
      }
      log := log + [DeletedLine(args[i])];
      i := i + 2;
    }
    assert |args[i - 2..]| < 3;
  }

  // ---- running one tarsnap command ----

  /** What one run of the tarsnap command gives back: whether it failed, and its standard error. */
  datatype RunResult = RunResult(failed: bool, stderr: string)

  /** A delete either succeeds, finds an archive gone (`errAlreadyDeleted`), or fails otherwise. */
  datatype DeleteOutcome = Deleted | AlreadyDeleted | Failed(stderr: string)

  const NotExist: string := "Archive does not exist"

  /** The error classification of `deleteArchives`. */
  function Classify(r: RunResult): (o: DeleteOutcome)
    ensures o == Deleted <==> !r.failed
    ensures o == AlreadyDeleted <==> r.failed && exists i :: OccursAt(r.stderr, NotExist, i)
    ensures o.Failed? ==> o == Failed(r.stderr) && forall i :: !OccursAt(r.stderr, NotExist, i)
  {
    ContainsIff(r.stderr, NotExist);
    if !r.failed then Deleted
    else if Contains(r.stderr, NotExist) then AlreadyDeleted
    else Failed(r.stderr)
  }

  /** `deleteArchives`: build the arguments, run tarsnap, classify, and on success print the names. */
  method DeleteArchives(archives: seq<string>, tarsnap: seq<string> -> RunResult)
    returns (outcome: DeleteOutcome, log: seq<Line>)
    ensures outcome == Classify(tarsnap(DeleteArgs(archives)))
    ensures log == if outcome == Deleted then DeletedLines(archives) else []
  {
    var args := BuildArgs(archives);
    var result := tarsnap(args[..]);
    outcome := Classify(result);
    log := [];
    if outcome == Deleted {
      log := ReportDeleted(args[..]);
      ArgNamesRoundTrip(archives);
    }
  }

  // ---- running the batches ----

  /**
   * What running deletions produced: the printed lines, every argument list given to
   * tarsnap (by its names), and the error that ended the run, if one did.
   */
  datatype Run = Run(log: seq<Line>, requests: seq<seq<string>>, fatal: Option<string>)

  /** A run that follows the given lines and requests. */
  function After(log: seq<Line>, requests: seq<seq<string>>, r: Run): Run
  {
    Run(log + r.log, requests + r.requests, r.fatal)
  }

  /** Deleting names one at a time after a batch found an archive gone; another failure is fatal. */
  function Fallback(names: seq<string>, tarsnap: seq<string> -> RunResult): Run
  {
    if names == [] then Run([], [], None)
    else
      var n := names[0];
      var o := Classify(tarsnap(DeleteArgs([n])));
      if o.Failed? then Run([], [[n]], Some(o.stderr))
      else
        var rest := Fallback(names[1..], tarsnap);
        Run([if o == Deleted then DeletedLine(n) else GoneLine(n)] + rest.log, [[n]] + rest.requests, rest.fatal)
  }

  /** The goroutine body for one batch. */
  function BatchRun(batch: seq<string>, tarsnap: seq<string> -> RunResult): Run
  {
    match Classify(tarsnap(DeleteArgs(batch)))
    case Deleted => Run(DeletedLines(batch), [batch], None)
    case AlreadyDeleted =>
      var f := Fallback(batch, tarsnap);
      Run(f.log, [batch] + f.requests, f.fatal)
    case Failed(e) => Run([], [batch], Some(e))
  }

  /** All batches one after another; a fatal error stops the run. */
  function ExecuteAll(batches: seq<seq<string>>, tarsnap: seq<string> -> RunResult): Run
  {
    if batches == [] then Run([], [], None)
    else
      var first := BatchRun(batches[0], tarsnap);
      if first.fatal.Some? then first
      else
        var rest := ExecuteAll(batches[1..], tarsnap);
        Run(first.log + rest.log, first.requests + rest.requests, rest.fatal)
  }

  lemma AfterAfter(a: seq<Line>, b: seq<seq<string>>, c: seq<Line>, d: seq<seq<string>>, r: Run)
    ensures After(a, b, After(c, d, r)) == After(a + c, b + d, r)
  {
    assert a + (c + r.log) == (a + c) + r.log;
    assert b + (d + r.requests) == (b + d) + r.requests;
  }

  /** The one-by-one loop: `gone` for an archive already deleted, stop at any other failure. */
  method DeleteOneByOne(batch: seq<string>, tarsnap: seq<string> -> RunResult) returns (r: Run)
    ensures r == Fallback(batch, tarsnap)
  {
    var lines: seq<Line> := [];
    var requests: seq<seq<string>> := [];
    for i := 0 to |batch|
      invariant Fallback(batch, tarsnap) == After(lines, requests, Fallback(batch[i..], tarsnap))
    {
      assert batch[i..][1..] == batch[i + 1..];
      ghost var rest := Fallback(batch[i + 1..], tarsnap);
      var indivOutcome, indivLog := DeleteArchives([batch[i]], tarsnap);
      if indivOutcome.Failed? {
        return Run(lines, requests + [[batch[i]]], Some(indivOutcome.stderr));
      }
      var line := if indivOutcome == AlreadyDeleted then GoneLine(batch[i]) else DeletedLine(batch[i]);
      assert Fallback(batch[i..], tarsnap) == After([line], [[batch[i]]], rest);
      AfterAfter(lines, requests, [line], [[batch[i]]], rest);
      requests := requests + [[batch[i]]];
      if indivOutcome == AlreadyDeleted {
        lines := lines + [GoneLine(batch[i])];
        continue;
      }
      assert indivLog == [DeletedLine(batch[i])];
      lines := lines + indivLog;
    }
    return Run(lines, requests, None);
  }

  /** One batch: delete it whole, and fall back to one name at a time when an archive is gone. */
  method ExecuteBatch(batch: seq<string>, tarsnap: seq<string> -> RunResult) returns (r: Run)
    ensures r == BatchRun(batch, tarsnap)
  {
    var outcome, log := DeleteArchives(batch, tarsnap);
    if outcome == Deleted {
      return Run(log, [batch], None);
    }
    if outcome == AlreadyDeleted {
      var f := DeleteOneByOne(batch, tarsnap);
      return Run(f.log, [batch] + f.requests, f.fatal);
    }
    // cancel() and log.Fatal(err)
    return Run([], [batch], Some(outcome.stderr));
  }

  /** Running the batches from position i: that batch, and the rest unless it was fatal. */
  lemma ExecuteAllFrom(batches: seq<seq<string>>, i: nat, tarsnap: seq<string> -> RunResult)
    requires i < |batches|
    ensures var first := BatchRun(batches[i], tarsnap);
      ExecuteAll(batches[i..], tarsnap) ==
        if first.fatal.Some? then first else After(first.log, first.requests, ExecuteAll(batches[i + 1..], tarsnap))
  {
    assert batches[i..][1..] == batches[i + 1..];
  }

  /** The dispatch loop with one operation in flight at a time: batches run in order until one is fatal. */
  method Execute(batches: seq<seq<string>>, tarsnap: seq<string> -> RunResult) returns (r: Run)
    ensures r == ExecuteAll(batches, tarsnap)
  {
    var log: seq<Line> := [];
    var requests: seq<seq<string>> := [];
    var i := 0;
    while i < |batches|
      invariant 0 <= i <= |batches|
      invariant ExecuteAll(batches, tarsnap) == After(log, requests, ExecuteAll(batches[i..], tarsnap))
    {
      var b := ExecuteBatch(batches[i], tarsnap);
      ExecuteAllFrom(batches, i, tarsnap);
      if b.fatal.Some? {
        return After(log, requests, b);
      }
      AfterAfter(log, requests, b.log, b.requests, ExecuteAll(batches[i + 1..], tarsnap));
      log, requests := log + b.log, requests + b.requests;
      i := i + 1;
    }
    assert batches[i..] == [];
    return After(log, requests, Run([], [], None));
  }

  // ---- what the deletions report ----

  /** A line that reports what became of archive `n`: deleted now, or found already gone. */
  predicate Reports(l: Line, n: string)
  {
    l == DeletedLine(n) || l == GoneLine(n)
  }

  /** Every name sent alone is a name of `names`. */
  predicate RequestsFrom(requests: seq<seq<string>>, names: seq<string>)
  {
    forall k, n :: 0 <= k < |requests| && n in requests[k] ==> n in names
  }

  /**
   * The one-by-one loop asks about a prefix of the names, one at a time; without a fatal
   * error it reports on every name in order, and a fatal error stops it at the name that failed.
   */
  lemma {:induction false} FallbackReports(names: seq<string>, tarsnap: seq<string> -> RunResult)
    ensures var r := Fallback(names, tarsnap);
      |r.requests| <= |names| &&
      (forall k :: 0 <= k < |r.requests| ==> r.requests[k] == [names[k]]) &&
      |r.log| == (if r.fatal == None then |r.requests| else |r.requests| - 1) &&
      (forall k :: 0 <= k < |r.log| ==> Reports(r.log[k], names[k])) &&
      (r.fatal == None ==> |r.requests| == |names|)
  {
    if names != [] {
      FallbackReports(names[1..], tarsnap);
    }
  }

  /** A batch run that is not fatal reports on every name of the batch, in order. */
  lemma BatchReports(batch: seq<string>, tarsnap: seq<string> -> RunResult)
    ensures var r := BatchRun(batch, tarsnap);
      (r.fatal == None ==> |r.log| == |batch| && forall k :: 0 <= k < |batch| ==> Reports(r.log[k], batch[k])) &&
      |r.requests| >= 1 && r.requests[0] == batch && RequestsFrom(r.requests, batch)
  {
    FallbackReports(batch, tarsnap);
    var r := BatchRun(batch, tarsnap);
    if Classify(tarsnap(DeleteArgs(batch))) == Deleted {
      DeletedLinesLayout(batch);
    }
  }

  lemma {:induction false} DeletedLinesLayout(names: seq<string>)
    ensures |DeletedLines(names)| == |names|
    ensures forall k :: 0 <= k < |names| ==> DeletedLines(names)[k] == DeletedLine(names[k])
  {
    if names != [] {
      DeletedLinesLayout(names[1..]);
    }
  }

  /**
   * Running all batches without a fatal error reports on every name of every batch, in
   * order; and whatever happens, no archive outside the batches is ever named to tarsnap.
   */
  lemma {:induction false} ExecuteAllReports(batches: seq<seq<string>>, tarsnap: seq<string> -> RunResult)
    ensures var r := ExecuteAll(batches, tarsnap);
      (r.fatal == None ==>
        |r.log| == |Flatten(batches)| && forall k :: 0 <= k < |r.log| ==> Reports(r.log[k], Flatten(batches)[k])) &&
      RequestsFrom(r.requests, Flatten(batches))
  {
    if batches != [] {
      var first := BatchRun(batches[0], tarsnap);
      BatchReports(batches[0], tarsnap);
      ExecuteAllReports(batches[1..], tarsnap);
      var rest := ExecuteAll(batches[1..], tarsnap);
      var all := Flatten(batches);
      assert all == batches[0] + Flatten(batches[1..]);
      var r := ExecuteAll(batches, tarsnap);
      if first.fatal == None {
        assert r.requests == first.requests + rest.requests;
        forall k, n | 0 <= k < |r.requests| && n in r.requests[k] ensures n in all {
          if k < |first.requests| {
            assert n in batches[0];
          } else {
            assert r.requests[k] == rest.requests[k - |first.requests|];
          }
        }
        if rest.fatal == None {
          forall k | 0 <= k < |r.log| ensures Reports(r.log[k], all[k]) {
            if k >= |batches[0]| {
              assert r.log[k] == rest.log[k - |batches[0]|];
            }
          }
        }
      }
    }
  }

  // ---- deleting against an archive store ----

  /**
   * tarsnap against a fixed set of stored archives: a delete succeeds when every named
   * archive is stored, and otherwise fails with tarsnap's "does not exist" message.
   */
  function StoreTarsnap(present: set<string>): seq<string> -> RunResult
  {
    args => if forall n :: n in ArgNames(args) ==> n in present then RunResult(false, "") else RunResult(true, NotExist)
  }

  lemma StoreOutcome(present: set<string>, names: seq<string>)
    ensures Classify(StoreTarsnap(present)(DeleteArgs(names))) ==
      if forall n :: n in names ==> n in present then Deleted else AlreadyDeleted
  {
    ArgNamesRoundTrip(names);
    assert OccursAt(NotExist, NotExist, 0);
  }

  function Outcomes(names: seq<string>, present: set<string>): seq<Line>
  {
    if names == [] then []
    else [if names[0] in present then DeletedLine(names[0]) else GoneLine(names[0])] + Outcomes(names[1..], present)
  }

  lemma {:induction false} FallbackAgainstStore(names: seq<string>, present: set<string>)
    ensures Fallback(names, StoreTarsnap(present)) == Run(Outcomes(names, present), Singletons(names), None)
  {
    if names != [] {
      StoreOutcome(present, [names[0]]);
      FallbackAgainstStore(names[1..], present);
    }
  }

  function Singletons(names: seq<string>): seq<seq<string>>
  {
    if names == [] then [] else [[names[0]]] + Singletons(names[1..])
  }

  /**
   * Against a store, a batch never ends the run: when every archive in it is stored it is
   * deleted in one request, and otherwise the one-by-one pass reports each archive as
   * `deleted` or `gone` according to whether it was stored.
   */
  lemma BatchAgainstStore(batch: seq<string>, present: set<string>)
    ensures var r := BatchRun(batch, StoreTarsnap(present));
      r.fatal == None &&
      r.log == Outcomes(batch, present) &&
      r.requests == if forall n :: n in batch ==> n in present then [batch] else [batch] + Singletons(batch)
  {
    StoreOutcome(present, batch);
    FallbackAgainstStore(batch, present);
    if forall n :: n in batch ==> n in present {
      AllStoredOutcomes(batch, present);
    }
  }

  lemma {:induction false} AllStoredOutcomes(names: seq<string>, present: set<string>)
    requires forall n :: n in names ==> n in present
    ensures Outcomes(names, present) == DeletedLines(names)
  {
    if names != [] {
      AllStoredOutcomes(names[1..], present);
    }
  }
}
