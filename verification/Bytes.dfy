/**
 * Byte strings, substring search and the slicing primitives that the Python sources lean on. Searching is
 * first defined the way `find` works and then shown to return the first occurrence; the lemmas about growing
 * data are what the sliding windows and the frame decoder need.
 */
module Bytes {

  type Byte = x: int | 0 <= x < 256

  type Bytes = seq<Byte>

  /** `needle` stands in `data` at offset `i`. */
  predicate OccursAt<T(==)>(needle: seq<T>, data: seq<T>, i: nat) {
    i + |needle| <= |data| && data[i..i + |needle|] == needle
  }

  /** Python's `needle in data`. */
  predicate Occurs<T(==)>(needle: seq<T>, data: seq<T>) {
    exists i :: 0 <= i <= |data| && OccursAt(needle, data, i)
  }

  /** Python's `any(needle in data for needle in needles)`. */
  predicate AnyOccurs<T(==)>(needles: seq<seq<T>>, data: seq<T>) {
    exists k :: 0 <= k < |needles| && Occurs(needles[k], data)
  }

  /** Python's `data[-k:]`, including what it does for a negative `k`. */
  function PySuffix<T>(data: seq<T>, k: int): (r: seq<T>)
    requires k != 0
    ensures k > 0 ==> |r| <= k
  {
    if k > 0 then
      if k < |data| then data[|data| - k..] else data
    else
      if -k < |data| then data[-k..] else []
  }

  function Flatten<T>(chunks: seq<seq<T>>): seq<T> {
    if chunks == [] then [] else chunks[0] + Flatten(chunks[1..])
  }

  lemma {:induction false} FlattenSnoc<T>(chunks: seq<seq<T>>, last: seq<T>)
    ensures Flatten(chunks + [last]) == Flatten(chunks) + last
  {
    if chunks == [] {
      assert chunks + [last] == [last];
    } else {
      assert (chunks + [last])[1..] == chunks[1..] + [last];
      FlattenSnoc(chunks[1..], last);
    }
  }

  /** The prefix of a chunk list grows by exactly the next chunk. */
  lemma FlattenStep<T>(chunks: seq<seq<T>>, i: nat)
    requires i < |chunks|
    ensures Flatten(chunks[..i + 1]) == Flatten(chunks[..i]) + chunks[i]
  {
    assert chunks[..i + 1] == chunks[..i] + [chunks[i]];
    FlattenSnoc(chunks[..i], chunks[i]);
  }

  lemma {:induction false} FlattenSplit<T>(chunks: seq<seq<T>>, i: nat)
    requires i <= |chunks|
    ensures Flatten(chunks) == Flatten(chunks[..i]) + Flatten(chunks[i..])
  {
    if i == 0 {
      assert chunks[i..] == chunks;
    } else {
      FlattenSplit(chunks[1..], i - 1);
      assert chunks[..i][1..] == chunks[1..][..i - 1];
      assert chunks[1..][i - 1..] == chunks[i..];
    }
  }

  lemma OccursInConcat<T>(before: seq<T>, needle: seq<T>, after: seq<T>)
    ensures Occurs(needle, before + needle + after)
  {
    var data := before + needle + after;
    assert data[|before|..|before| + |needle|] == needle;
    assert OccursAt(needle, data, |before|);
  }

  lemma OccursMonotone<T>(needle: seq<T>, part: seq<T>, before: seq<T>, after: seq<T>)
    requires Occurs(needle, part)
    ensures Occurs(needle, before + part + after)
  {
    var i :| 0 <= i <= |part| && OccursAt(needle, part, i);
    var data := before + part + after;
    assert data[|before| + i..|before| + i + |needle|] == part[i..i + |needle|];
    assert OccursAt(needle, data, |before| + i);
  }

  lemma OccursAppend<T>(needle: seq<T>, data: seq<T>, after: seq<T>)
    requires Occurs(needle, data)
    ensures Occurs(needle, data + after)
  {
    OccursMonotone(needle, data, [], after);
    assert [] + data + after == data + after;
  }

  /** Python's `data.find(needle, start)`: the first offset from `start` on, or -1. */
  function FindFrom<T(==)>(needle: seq<T>, data: seq<T>, start: nat): (i: int)
    ensures i == -1 || start <= i <= |data| - |needle|
    decreases |data| - start
  {
    if start + |needle| > |data| then -1
    else if OccursAt(needle, data, start) then start
    else FindFrom(needle, data, start + 1)
  }

  function Find<T(==)>(needle: seq<T>, data: seq<T>): (i: int)
    ensures i == -1 || 0 <= i <= |data| - |needle|
  {
    FindFrom(needle, data, 0)
  }

  ghost predicate FirstAt<T>(needle: seq<T>, data: seq<T>, start: nat, i: nat) {
    start <= i && OccursAt(needle, data, i) && forall j :: start <= j < i ==> !OccursAt(needle, data, j)
  }

  ghost predicate NowhereFrom<T>(needle: seq<T>, data: seq<T>, start: nat) {
    forall j :: start <= j ==> !OccursAt(needle, data, j)
  }

  /** `FindFrom` returns the first occurrence, and -1 only when there is none. */
  lemma {:induction false} FindFromSpec<T>(needle: seq<T>, data: seq<T>, start: nat)
    ensures var i := FindFrom(needle, data, start);
      if i >= 0 then FirstAt(needle, data, start, i) else NowhereFrom(needle, data, start)
    decreases |data| - start
  {
    if start + |needle| > |data| {
    } else if OccursAt(needle, data, start) {
    } else {
      FindFromSpec(needle, data, start + 1);
    }
  }

  lemma FindSpec<T>(needle: seq<T>, data: seq<T>)
    ensures var i := Find(needle, data);
      if i >= 0 then FirstAt(needle, data, 0, i) else NowhereFrom(needle, data, 0)
  {
    FindFromSpec(needle, data, 0);
  }

  lemma FindIs<T>(needle: seq<T>, data: seq<T>, i: nat)
    requires FirstAt(needle, data, 0, i)
    ensures Find(needle, data) == i
  {
    FindSpec(needle, data);
  }

  lemma OccursAtPrefix<T>(needle: seq<T>, data: seq<T>, after: seq<T>, i: nat)
    requires i + |needle| <= |data|
    ensures OccursAt(needle, data + after, i) <==> OccursAt(needle, data, i)
  {
    assert (data + after)[i..i + |needle|] == data[i..i + |needle|];
  }

  /** More data never moves a first occurrence, and never creates one that lies wholly in the old data. */
  lemma FindExtends<T>(needle: seq<T>, data: seq<T>, after: seq<T>)
    ensures Find(needle, data) >= 0 ==> Find(needle, data + after) == Find(needle, data)
    ensures Find(needle, data) < 0 && Find(needle, data + after) >= 0 ==>
      Find(needle, data + after) + |needle| > |data|
  {
    var i, j := Find(needle, data), Find(needle, data + after);
    FindSpec(needle, data);
    FindSpec(needle, data + after);
    if i >= 0 {
      OccursAtPrefix(needle, data, after, i);
      if 0 <= j < i {
        OccursAtPrefix(needle, data, after, j);
      }
    } else if j >= 0 && j + |needle| <= |data| {
      OccursAtPrefix(needle, data, after, j);
    }
  }
}
