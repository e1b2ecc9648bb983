/** The audit of a staging vault: its physical tree against the expected namespace. */
module StagingAudit {
  import opened Gathering
  import opened ImportModel
  import opened ImportPlans
  import opened ImportScan
  import opened StagingPlan

  predicate Agrees(expected: map<Path, StagingKind>, e: Entry) {
    && e.path in expected
    && (if expected[e.path] == StagedDirectory then e.kind.DirectoryEntry? else e.kind.FileEntry?)
  }

  function PathOf(): Entry -> multiset<Path> {
    (e: Entry) => multiset{e.path}
  }

  function Length(l: Layout): Entry -> nat {
    (e: Entry) => l.pathLength(e.path)
  }

  ghost predicate AllAgree(expected: map<Path, StagingKind>, es: seq<Entry>) {
    forall i :: 0 <= i < |es| ==> Agrees(expected, es[i])
  }

  /** The entries are the expected ones, each there once and of its kind. */
  ghost predicate Exact(expected: map<Path, StagingKind>, es: seq<Entry>) {
    && AllAgree(expected, es) && Once(Gather(es, PathOf()))
    && forall p :: p in expected ==> p in Gather(es, PathOf())
  }

  ghost predicate WithinBudget(l: Layout, es: seq<Entry>) {
    |es| <= MAX_IMPORT_ENTRIES && Sum(es, Length(l)) <= MAX_IMPORT_PATH_BYTES
  }

  /** What the walk can have found without stopping. */
  ghost predicate Walked(l: Layout, expected: map<Path, StagingKind>, es: seq<Entry>) {
    AllAgree(expected, es) && Once(Gather(es, PathOf())) && WithinBudget(l, es)
  }

  /** The counters and the set of paths seen so far. */
  ghost predicate Recorded(l: Layout, es: seq<Entry>, seen: set<Path>, entries: nat, bytes: nat) {
    && entries == |es| && bytes == Sum(es, Length(l))
    && forall p :: p in seen <==> p in Gather(es, PathOf())
  }

  predicate Passes(
    l: Layout, expected: map<Path, StagingKind>, e: Entry, seen: set<Path>, entries: nat, bytes: nat)
  {
    && entries < MAX_IMPORT_ENTRIES && bytes + l.pathLength(e.path) <= MAX_IMPORT_PATH_BYTES
    && Agrees(expected, e) && e.path !in seen
  }

  lemma PathStep(es: seq<Entry>, e: Entry)
    ensures Gather(es + [e], PathOf()) == Gather(es, PathOf()) + multiset{e.path}
    ensures Once(Gather(es + [e], PathOf())) <==> Once(Gather(es, PathOf())) && e.path !in Gather(es, PathOf())
  {
    GatherOne(es, e, PathOf());
    var before, after := Gather(es, PathOf()), Gather(es + [e], PathOf());
    if Once(after) {
      assert after[e.path] <= 1;
      forall p
        ensures before[p] <= 1
      {
        assert after[p] <= 1;
      }
    }
  }

  lemma WalkStep(
    l: Layout, expected: map<Path, StagingKind>, es: seq<Entry>, e: Entry, seen: set<Path>, entries: nat, bytes: nat)
    requires Recorded(l, es, seen, entries, bytes) && Walked(l, expected, es)
    ensures Walked(l, expected, es + [e]) <==> Passes(l, expected, e, seen, entries, bytes)
    ensures Recorded(l, es + [e], seen + {e.path}, entries + 1, bytes + l.pathLength(e.path))
  {
    PathStep(es, e);
    SumAppends(es, [e], Length(l));
    assert forall i :: 0 <= i < |es| ==> (es + [e])[i] == es[i];
    assert (es + [e])[|es|] == e;
  }

  /** A walk that stops on some of the entries cannot accept all of them. */
  lemma WalkedParts(l: Layout, expected: map<Path, StagingKind>, all: seq<Entry>, some: seq<Entry>, rest: seq<Entry>)
    requires Parts(all, some, rest) && Walked(l, expected, all)
    ensures Walked(l, expected, some)
  {
    PartsPermute(all, some, rest);
    SumPermutes(all, some + rest, Length(l));
    SumAppends(some, rest, Length(l));
    PartsLength(all, some, rest);
    GatherPermutes(all, some + rest, PathOf());
    GatherAppends(some, rest, PathOf());
    forall p
      ensures Gather(some, PathOf())[p] <= 1
    {
      assert Gather(all, PathOf())[p] <= 1;
    }
    AgreeParts(expected, all, some, rest);
  }

  lemma AgreeParts(expected: map<Path, StagingKind>, all: seq<Entry>, some: seq<Entry>, rest: seq<Entry>)
    requires multiset(all) == multiset(some + rest) && AllAgree(expected, all)
    ensures AllAgree(expected, some)
  {
    forall i | 0 <= i < |some|
      ensures Agrees(expected, some[i])
    {
      assert (some + rest)[i] == some[i];
      assert some[i] in multiset(all);
      var k :| 0 <= k < |all| && all[k] == some[i];
    }
  }

  /** The walk accepts what the order of the entries cannot change. */
  lemma WalkedPermutes(l: Layout, expected: map<Path, StagingKind>, es: seq<Entry>, fs: seq<Entry>)
    requires multiset(es) == multiset(fs)
    ensures Walked(l, expected, es) <==> Walked(l, expected, fs)
    ensures Exact(expected, es) && WithinBudget(l, es) <==> Exact(expected, fs) && WithinBudget(l, fs)
  {
    assert es + [] == es && fs + [] == fs;
    PartsBags(es, fs, []);
    PartsBags(fs, es, []);
    if Walked(l, expected, es) {
      WalkedParts(l, expected, es, fs, []);
    }
    if Walked(l, expected, fs) {
      WalkedParts(l, expected, fs, es, []);
    }
    GatherPermutes(es, fs, PathOf());
  }

  lemma SeenAll(
    l: Layout, expected: map<Path, StagingKind>, es: seq<Entry>, seen: set<Path>, entries: nat, bytes: nat)
    requires Recorded(l, es, seen, entries, bytes) && Walked(l, expected, es)
    ensures Exact(expected, es) <==> |seen| == |expected| && forall p :: p in expected ==> p in seen
  {
    forall p | p in seen
      ensures p in expected
    {
      var k := GatherFrom(es, PathOf(), p);
      assert Agrees(expected, es[k]);
    }
    if forall p :: p in expected ==> p in seen {
      assert seen == expected.Keys;
    }
  }

  // ---- The walk ----------------------------------------------------------------------------------

  class StagingWalk {
    const layout: Layout
    const expected: map<Path, StagingKind>
    var pending: seq<Pending>
    var seen: set<Path>
    var inspectedEntries: nat
    var inspectedPathBytes: nat
    ghost var taken: seq<Entry>

    constructor (layout: Layout, expected: map<Path, StagingKind>, root: seq<Child>)
      ensures this.layout == layout && this.expected == expected
      ensures pending == [Pending([], root)] && taken == [] && Sound()
    {
      this.layout, this.expected := layout, expected;
      pending, seen, inspectedEntries, inspectedPathBytes, taken := [Pending([], root)], {}, 0, 0, [];
      new;
      assert Gather([], PathOf()) == multiset{};
    }

    ghost predicate Sound()
      reads this
    {
      Recorded(layout, taken, seen, inspectedEntries, inspectedPathBytes) && Walked(layout, expected, taken)
    }

    method InspectEntry(path: Path, c: Child) returns (ok: bool)
      requires Sound()
      modifies this
      ensures ok <==> Walked(layout, expected, old(taken) + [EntryOf(path, c)])
      ensures ok ==> Sound() && taken == old(taken) + [EntryOf(path, c)]
      ensures ok ==> pending == old(pending) + Subdirectory(path, c)
    {
      var relative := path + [c.name];
      WalkStep(layout, expected, taken, EntryOf(path, c), seen, inspectedEntries, inspectedPathBytes);
      inspectedEntries := inspectedEntries + 1;
      if inspectedEntries > MAX_IMPORT_ENTRIES {
        return false;
      }
      inspectedPathBytes := inspectedPathBytes + layout.pathLength(relative);
      if inspectedPathBytes > MAX_IMPORT_PATH_BYTES {
        return false;
      }
      if relative !in expected || relative in seen {
        return false;
      }
      seen := seen + {relative};
      match (expected[relative], c.node) {
        case (StagedDirectory, Directory(inner)) =>
          pending := pending + [Pending(relative, inner)];
        case (StagedFile, File(_)) =>
        case _ =>
          return false;
      }
      taken := taken + [EntryOf(path, c)];
      return true;
    }

    /** The next entry of a directory whose listing began when `start` was taken. */
    method WalkChild(
      path: Path, children: seq<Child>, i: nat, ghost start: seq<Entry>, ghost all: seq<Entry>, ghost left: seq<Entry>)
      returns (ok: bool)
      requires Sound() && i < |children| && taken == start + Listed(path, children[..i])
      requires Parts(all, start + Listed(path, children), left)
      modifies this
      ensures ok ==> Sound() && taken == start + Listed(path, children[..i + 1])
      ensures ok ==> pending == old(pending) + Subdirectory(path, children[i])
      ensures !ok ==> !Walked(layout, expected, all)
    {
      ListedStep(path, children, i);
      ok := InspectEntry(path, children[i]);
      if !ok {
        StoppedWalk(layout, expected, all, start, left, path, children, i);
      }
    }

    method WalkDirectory(path: Path, children: seq<Child>, ghost all: seq<Entry>, ghost left: seq<Entry>)
      returns (ok: bool)
      requires Sound() && Parts(all, taken + Listed(path, children), left)
      modifies this
      ensures ok ==> Sound() && taken == old(taken) + Listed(path, children)
      ensures ok ==> pending == old(pending) + Subdirectories(path, children)
      ensures !ok ==> !Walked(layout, expected, all)
    {
      ok := true;
      for i := 0 to |children|
        invariant Sound() && taken == old(taken) + Listed(path, children[..i])
        invariant pending == old(pending) + Subdirectories(path, children[..i])
      {
        ListedStep(path, children, i);
        Associates(old(pending), Subdirectories(path, children[..i]), Subdirectory(path, children[i]));
        ok := WalkChild(path, children, i, old(taken), all, left);
        if !ok {
          return;
        }
      }
      assert children[..|children|] == children;
    }

    method WalkNext(ghost all: seq<Entry>) returns (ok: bool)
      requires pending != [] && Sound() && Parts(all, taken, InventoryAll(pending))
      modifies this
      ensures ok ==> Sound() && Parts(all, taken, InventoryAll(pending)) && Work(pending) < old(Work(pending))
      ensures !ok ==> !Walked(layout, expected, all)
    {
      var p := pending[|pending| - 1];
      ghost var rest := pending[..|pending| - 1];
      assert pending == rest + [p];
      WorkShrinks(rest, p);
      TopSplits(rest, p);
      PartsMove(all, taken, InventoryAll(pending), Listed(p.path, p.children),
        InventoryAll(rest + Subdirectories(p.path, p.children)));
      pending := pending[..|pending| - 1];
      ok := WalkDirectory(p.path, p.children, all, InventoryAll(rest + Subdirectories(p.path, p.children)));
    }

    method Run(ghost all: seq<Entry>) returns (ok: bool)
      requires Sound() && taken == [] && all == InventoryAll(pending)
      modifies this
      ensures ok <==> Exact(expected, all) && WithinBudget(layout, all)
    {
      assert forall e :: Count<Entry>([], e) == 0;
      while pending != []
        invariant Sound() && Parts(all, taken, InventoryAll(pending))
        decreases Work(pending)
      {
        ok := WalkNext(all);
        if !ok {
          return;
        }
      }
      PartsPermute(all, taken, []);
      assert taken + [] == taken;
      WalkedPermutes(layout, expected, all, taken);
      SeenAll(layout, expected, taken, seen, inspectedEntries, inspectedPathBytes);
      ok := |seen| == |expected| && forall p :: p in expected ==> p in seen;
    }
  }

  lemma StoppedWalk(
    l: Layout, expected: map<Path, StagingKind>, all: seq<Entry>, taken: seq<Entry>, left: seq<Entry>,
    path: Path, children: seq<Child>, i: nat)
    requires i < |children| && Parts(all, taken + Listed(path, children), left)
    requires !Walked(l, expected, taken + Listed(path, children[..i]) + [EntryOf(path, children[i])])
    ensures !Walked(l, expected, all)
  {
    var stopped := taken + Listed(path, children[..i]) + [EntryOf(path, children[i])];
    var later := Listed(path, children[i + 1..]);
    assert stopped + later == taken + Listed(path, children);
    if Walked(l, expected, all) {
      WalkedParts(l, expected, all, taken + Listed(path, children), left);
      PartsBags(stopped + later, stopped, later);
      WalkedParts(l, expected, stopped + later, stopped, later);
    }
  }

  /** Accepts exactly the trees whose namespace is the expected one and within the budgets. */
  method AuditStagingAllowlist(l: Layout, plan: ImportPlan, root: seq<Child>, marker: bool) returns (ok: bool)
    ensures ok <==>
      && PathsDistinct(AllEntries(l, plan, marker))
      && Exact(MapOf(AllEntries(l, plan, marker)), Inventory([], root)) && WithinBudget(l, Inventory([], root))
  {
    var expected := ExpectedStagingEntries(l, plan, marker);
    if expected.None? {
      return false;
    }
    InventoryOne(Pending([], root));
    var walk := new StagingWalk(l, expected.value, root);
    ok := walk.Run(Inventory([], root));
  }

  // ---- The dry run covers the audit --------------------------------------------------------------

  function Paths(es: seq<Entry>): seq<Path> {
    if es == [] then [] else [es[0].path] + Paths(es[1..])
  }

  lemma {:induction false} PathsTotals(l: Layout, es: seq<Entry>)
    ensures |Paths(es)| == |es| && Sum(Paths(es), l.pathLength) == Sum(es, Length(l))
    ensures multiset(Paths(es)) == Gather(es, PathOf())
  {
    if es != [] {
      PathsTotals(l, es[1..]);
      assert Paths(es)[1..] == Paths(es[1..]);
    }
  }

  lemma OnceMeansDistinct<T(!new)>(xs: seq<T>, i: nat, j: nat)
    requires Once(multiset(xs)) && i < j < |xs|
    ensures xs[i] != xs[j]
  {
    assert xs == xs[..i] + [xs[i]] + xs[i + 1..j] + [xs[j]] + xs[j + 1..];
    assert multiset(xs)[xs[i]] <= 1;
  }

  /** The paths of an exact tree are the keys of the expected namespace. */
  lemma ExactLists(l: Layout, expected: map<Path, StagingKind>, es: seq<Entry>)
    requires Exact(expected, es)
    ensures Lists(Paths(es), expected)
  {
    PathsTotals(l, es);
    forall i, j | 0 <= i < j < |Paths(es)|
      ensures Paths(es)[i] != Paths(es)[j]
    {
      OnceMeansDistinct(Paths(es), i, j);
    }
    forall p
      ensures p in Paths(es) <==> p in expected
    {
      assert p in Paths(es) <==> p in multiset(Paths(es));
      if p in Gather(es, PathOf()) {
        var k := GatherFrom(es, PathOf(), p);
        assert Agrees(expected, es[k]);
      }
    }
  }

  lemma SmallerFits(l: Layout, expected: map<Path, StagingKind>, keys: seq<Path>, p: Path, kind: StagingKind)
    requires p !in expected && FitsBudget(l, expected[p := kind]) && Lists(keys, expected)
    ensures |keys| <= MAX_IMPORT_ENTRIES && Sum(keys, l.pathLength) <= MAX_IMPORT_PATH_BYTES
  {
    var all := keys + [p];
    assert forall q :: q in all <==> q in keys || q == p;
    assert Lists(all, expected[p := kind]);
    SumAppends(keys, [p], l.pathLength);
  }

  /** After a dry run that fits, an exact tree fits too, with the marker or without it. */
  lemma DryRunCoversAudit(l: Layout, plan: ImportPlan, marker: bool, es: seq<Entry>)
    requires PathsDistinct(AllEntries(l, plan, true)) && FitsBudget(l, MapOf(AllEntries(l, plan, true)))
    requires Exact(MapOf(AllEntries(l, plan, marker)), es)
    ensures WithinBudget(l, es)
  {
    MarkerAddsOne(l, plan);
    ExactLists(l, MapOf(AllEntries(l, plan, marker)), es);
    PathsTotals(l, es);
    if !marker {
      SmallerFits(l, MapOf(AllEntries(l, plan, false)), Paths(es), MARKER, StagedFile);
    }
  }
}
