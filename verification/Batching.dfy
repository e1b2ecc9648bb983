/** The argument batching of the ignore-file snapshot: contiguous, bounded and as few as possible. */
module Batching {
  import opened Bytes

  const MAX_ARGUMENT_BYTES: nat := 32 * 1024

  datatype Path = Path(text: string)

  /** Bytes that one argument takes on a command line: its UTF-8 text and a terminator. */
  function Cost(parent: Path, utf8Length: Path -> nat): nat {
    utf8Length(parent) + 1
  }

  function TotalCost(run: seq<Path>, utf8Length: Path -> nat): nat {
    if run == [] then 0 else Cost(run[0], utf8Length) + TotalCost(run[1..], utf8Length)
  }

  /** The UTF-8 bytes of all arguments together. */
  function TextBytes(run: seq<Path>, utf8Length: Path -> nat): nat {
    if run == [] then 0 else TextBytes(run[..|run| - 1], utf8Length) + utf8Length(run[|run| - 1])
  }

  /** What a run takes is its text and one terminator for each argument, and 32 KiB is the most. */
  lemma {:induction false} CostIsText(run: seq<Path>, utf8Length: Path -> nat)
    ensures TotalCost(run, utf8Length) == TextBytes(run, utf8Length) + |run|
    ensures Fits(run, utf8Length) <==> run != [] && TextBytes(run, utf8Length) + |run| <= 32 * 1024
  {
    if run != [] {
      var init, last := run[..|run| - 1], run[|run| - 1];
      CostIsText(init, utf8Length);
      CostConcat(init, [last], utf8Length);
      assert run == init + [last];
      assert TotalCost([last], utf8Length) == utf8Length(last) + 1 + TotalCost([last][1..], utf8Length);
    }
  }

  lemma {:induction false} CostConcat(a: seq<Path>, b: seq<Path>, utf8Length: Path -> nat)
    ensures TotalCost(a + b, utf8Length) == TotalCost(a, utf8Length) + TotalCost(b, utf8Length)
  {
    if a == [] {
      assert a + b == b;
    } else {
      assert (a + b)[1..] == a[1..] + b;
      CostConcat(a[1..], b, utf8Length);
    }
  }

  predicate Fits(run: seq<Path>, utf8Length: Path -> nat) {
    run != [] && TotalCost(run, utf8Length) <= MAX_ARGUMENT_BYTES
  }

  /** A way to run the whole check: consecutive non-empty batches, each within the limit. */
  predicate IsPartition(batches: seq<seq<Path>>, parents: seq<Path>, utf8Length: Path -> nat) {
    Flatten(batches) == parents && AllFit(batches, utf8Length)
  }

  /** No batch had room for the first argument of the next one. */
  predicate Greedy(batches: seq<seq<Path>>, utf8Length: Path -> nat) {
    forall i :: 0 <= i < |batches| - 1 && batches[i + 1] != [] ==>
      TotalCost(batches[i], utf8Length) + Cost(batches[i + 1][0], utf8Length) > MAX_ARGUMENT_BYTES
  }

  datatype Option<T> = None | Some(value: T)

  /** Batches closed so far, the open one, and the arguments they hold together. */
  ghost predicate Building(
    batches: seq<seq<Path>>, chunk: seq<Path>, done: seq<Path>, utf8Length: Path -> nat)
  {
    && Flatten(batches) + chunk == done && AllFit(batches, utf8Length)
    && Greedy(batches, utf8Length) && NoRoomBefore(batches, chunk, utf8Length)
    && TotalCost(chunk, utf8Length) <= MAX_ARGUMENT_BYTES
    && (done != [] ==> chunk != [])
  }

  lemma AddToChunk(
    batches: seq<seq<Path>>, chunk: seq<Path>, done: seq<Path>, parent: Path, utf8Length: Path -> nat)
    requires Building(batches, chunk, done, utf8Length)
    requires TotalCost(chunk, utf8Length) + Cost(parent, utf8Length) <= MAX_ARGUMENT_BYTES
    ensures TotalCost(chunk + [parent], utf8Length) == TotalCost(chunk, utf8Length) + Cost(parent, utf8Length)
    ensures Building(batches, chunk + [parent], done + [parent], utf8Length)
  {
    CostConcat(chunk, [parent], utf8Length);
    assert [parent][1..] == [];
    assert Flatten(batches) + (chunk + [parent]) == done + [parent];
    if batches != [] {
      FlattenNonEmpty(batches, utf8Length);
    }
  }

  lemma FlattenNonEmpty(batches: seq<seq<Path>>, utf8Length: Path -> nat)
    requires batches != [] && AllFit(batches, utf8Length)
    ensures Flatten(batches) != []
  {
    assert Fits(batches[0], utf8Length);
  }

  lemma StartChunk(
    batches: seq<seq<Path>>, chunk: seq<Path>, done: seq<Path>, parent: Path, utf8Length: Path -> nat)
    requires Building(batches, chunk, done, utf8Length) && chunk != []
    requires TotalCost(chunk, utf8Length) + Cost(parent, utf8Length) > MAX_ARGUMENT_BYTES
    requires Cost(parent, utf8Length) <= MAX_ARGUMENT_BYTES
    ensures TotalCost([parent], utf8Length) == Cost(parent, utf8Length)
    ensures Building(batches + [chunk], [parent], done + [parent], utf8Length)
  {
    CloseBatch(batches, chunk, utf8Length);
    assert [parent][1..] == [];
  }

  /** The batches git is called with: a greedy partition of the arguments, unless one is too long by itself. */
  method MakeBatches(parents: seq<Path>, utf8Length: Path -> nat) returns (r: Option<seq<seq<Path>>>)
    ensures r.None? <==> exists p :: p in parents && Cost(p, utf8Length) > MAX_ARGUMENT_BYTES
    ensures r.Some? ==> IsPartition(r.value, parents, utf8Length) && Greedy(r.value, utf8Length)
  {
    var batches: seq<seq<Path>>, chunk: seq<Path>, chunkBytes := [], [], 0;
    for i := 0 to |parents|
      invariant forall j :: 0 <= j < i ==> Cost(parents[j], utf8Length) <= MAX_ARGUMENT_BYTES
      invariant chunkBytes == TotalCost(chunk, utf8Length)
      invariant Building(batches, chunk, parents[..i], utf8Length)
    {
      if Cost(parents[i], utf8Length) > MAX_ARGUMENT_BYTES {
        return None;
      }
      assert parents[..i + 1] == parents[..i] + [parents[i]];
      batches, chunk, chunkBytes := AddArgument(batches, chunk, chunkBytes, parents[..i], parents[i], utf8Length);
    }
    assert parents[..|parents|] == parents;
    if chunk != [] {
      CloseBatch(batches, chunk, utf8Length);
      batches := batches + [chunk];
    }
    return Some(batches);
  }

  method AddArgument(
    batches: seq<seq<Path>>, chunk: seq<Path>, chunkBytes: nat, ghost done: seq<Path>, parent: Path,
    utf8Length: Path -> nat)
    returns (newBatches: seq<seq<Path>>, newChunk: seq<Path>, newBytes: nat)
    requires Building(batches, chunk, done, utf8Length) && chunkBytes == TotalCost(chunk, utf8Length)
    requires Cost(parent, utf8Length) <= MAX_ARGUMENT_BYTES
    ensures Building(newBatches, newChunk, done + [parent], utf8Length) && newBytes == TotalCost(newChunk, utf8Length)
  {
    var encodedSize := Cost(parent, utf8Length);
    if chunk != [] && chunkBytes + encodedSize > MAX_ARGUMENT_BYTES {
      StartChunk(batches, chunk, done, parent, utf8Length);
      return batches + [chunk], [parent], encodedSize;
    } else {
      AddToChunk(batches, chunk, done, parent, utf8Length);
      return batches, chunk + [parent], chunkBytes + encodedSize;
    }
  }

  datatype Checked = AllIgnored | NotIgnored | Oversized

  /** The verdict does not depend on where the batches are cut; `ignored` is git's answer for one path. */
  method CheckIgnored(parents: seq<Path>, utf8Length: Path -> nat, ignored: Path -> bool) returns (r: Checked)
    ensures r.Oversized? <==> exists p :: p in parents && Cost(p, utf8Length) > MAX_ARGUMENT_BYTES
    ensures r.Oversized? <==> exists p :: p in parents && utf8Length(p) >= 32 * 1024
    ensures r.AllIgnored? <==> forall p :: p in parents ==> utf8Length(p) < 32 * 1024 && ignored(p)
  {
    var batches := MakeBatches(parents, utf8Length);
    if batches.None? {
      return Oversized;
    }
    var matched: set<Path> := {};
    for i := 0 to |batches.value|
      invariant forall p :: p in matched <==> p in Flatten(batches.value[..i]) && ignored(p)
    {
      FlattenStep(batches.value, i);
      var records := set p | p in batches.value[i] && ignored(p);
      matched := matched + records;
    }
    assert batches.value[..|batches.value|] == batches.value;
    r := if forall p :: p in parents ==> p in matched then AllIgnored else NotIgnored;
  }

  predicate AllFit(batches: seq<seq<Path>>, utf8Length: Path -> nat) {
    forall i :: 0 <= i < |batches| ==> Fits(batches[i], utf8Length)
  }

  /** The last closed batch had no room for the first argument of the open one. */
  predicate NoRoomBefore(batches: seq<seq<Path>>, chunk: seq<Path>, utf8Length: Path -> nat) {
    batches != [] && chunk != [] ==>
      TotalCost(batches[|batches| - 1], utf8Length) + Cost(chunk[0], utf8Length) > MAX_ARGUMENT_BYTES
  }

  lemma CloseBatch(batches: seq<seq<Path>>, chunk: seq<Path>, utf8Length: Path -> nat)
    requires AllFit(batches, utf8Length) && Fits(chunk, utf8Length)
    requires Greedy(batches, utf8Length) && NoRoomBefore(batches, chunk, utf8Length)
    ensures AllFit(batches + [chunk], utf8Length) && Greedy(batches + [chunk], utf8Length)
    ensures Flatten(batches + [chunk]) == Flatten(batches) + chunk
  {
    FlattenSnoc(batches, chunk);
    var all := batches + [chunk];
    forall k | 0 <= k < |all| - 1 && all[k + 1] != []
      ensures TotalCost(all[k], utf8Length) + Cost(all[k + 1][0], utf8Length) > MAX_ARGUMENT_BYTES
    {
      assert all[k] == batches[k];
      if k + 1 < |batches| {
        assert all[k + 1] == batches[k + 1];
      }
    }
  }

  /**
   * Greedy is ahead: no sequence of fitting batches that covers the same arguments, even after some
   * earlier ones, is shorter.
   */
  lemma {:induction false} GreedyAhead(
    batches: seq<seq<Path>>, other: seq<seq<Path>>, before: seq<Path>, utf8Length: Path -> nat)
    requires Greedy(batches, utf8Length)
    requires forall i :: 0 <= i < |batches| ==> batches[i] != []
    requires forall i :: 0 <= i < |other| ==> TotalCost(other[i], utf8Length) <= MAX_ARGUMENT_BYTES
    requires Flatten(other) == before + Flatten(batches)
    ensures |batches| <= |other|
    decreases |batches|
  {
    if |batches| > 0 {
      assert other != [];
      if |batches| > 1 {
        var rest := Flatten(batches[1..]);
        var head := before + batches[0];
        assert Flatten(other) == head + rest;
        if |other[0]| > |head| {
          Overfull(other[0], before, batches[0], batches[1][0], rest, utf8Length);
        }
        var left := head[|other[0]|..];
        assert Flatten(other[1..]) == Flatten(other)[|other[0]|..] == left + rest;
        assert forall i :: 0 <= i < |batches[1..]| ==> batches[1..][i] == batches[i + 1];
        GreedyTail(batches, utf8Length);
        GreedyAhead(batches[1..], other[1..], left, utf8Length);
      }
    }
  }

  lemma GreedyTail(batches: seq<seq<Path>>, utf8Length: Path -> nat)
    requires Greedy(batches, utf8Length) && batches != []
    ensures Greedy(batches[1..], utf8Length)
  {
    forall i | 0 <= i < |batches[1..]| - 1 && batches[1..][i + 1] != []
      ensures TotalCost(batches[1..][i], utf8Length) + Cost(batches[1..][i + 1][0], utf8Length) > MAX_ARGUMENT_BYTES
    {
      assert batches[1..][i] == batches[i + 1] && batches[1..][i + 1] == batches[i + 1 + 1];
    }
  }

  /** A run that holds a whole greedy batch and the next argument is over the limit. */
  lemma Overfull(
    run: seq<Path>, before: seq<Path>, batch: seq<Path>, next: Path, rest: seq<Path>,
    utf8Length: Path -> nat)
    requires run <= before + batch + rest && |run| > |before + batch| && rest[0] == next
    requires TotalCost(batch, utf8Length) + Cost(next, utf8Length) > MAX_ARGUMENT_BYTES
    ensures TotalCost(run, utf8Length) > MAX_ARGUMENT_BYTES
  {
    var n := |before + batch|;
    assert run[n] == (before + batch + rest)[n] == next;
    assert run == before + batch + [next] + run[n + 1..];
    CostConcat(before + batch + [next], run[n + 1..], utf8Length);
    CostConcat(before + batch, [next], utf8Length);
    CostConcat(before, batch, utf8Length);
    assert [next][1..] == [];
  }

  /** The batches of the snapshot are as few as any partition into consecutive fitting runs can be. */
  lemma FewestBatches(
    batches: seq<seq<Path>>, other: seq<seq<Path>>, parents: seq<Path>, utf8Length: Path -> nat)
    requires IsPartition(batches, parents, utf8Length) && Greedy(batches, utf8Length)
    requires IsPartition(other, parents, utf8Length)
    ensures |batches| <= |other|
  {
    assert [] + Flatten(batches) == Flatten(batches);
    GreedyAhead(batches, other, [], utf8Length);
  }
}
