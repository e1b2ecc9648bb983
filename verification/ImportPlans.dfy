/** The finished import plan: sorted, independent of listing order, and fit for the later re-scan. */
module ImportPlans {
  import opened Gathering
  import opened ImportModel
  import opened ImportScan
  import opened Sorting

  datatype ImportPlan = ImportPlan(
    directories: seq<PlannedDirectory>, files: seq<PlannedFile>,
    inspected: nat, plaintextBytes: nat, skipped: nat, normalized: nat)

  function DirectoryKey(): PlannedDirectory -> Logical {
    (d: PlannedDirectory) => d.logical
  }

  function FileKey(): PlannedFile -> Logical {
    (f: PlannedFile) => f.logical
  }

  /** Fewer components first, then by text. */
  function Shallower(r: Rules): (Logical, Logical) -> bool {
    (a: Logical, b: Logical) =>
      r.components(a) < r.components(b) || (r.components(a) == r.components(b) && r.before(a, b))
  }

  function Finished(r: Rules, p: Progress): ImportPlan {
    ImportPlan(SortBy(p.directories, DirectoryKey(), Shallower(r)), SortBy(p.files, FileKey(), r.before),
      p.inspected, p.plaintextBytes, p.skipped, p.normalized)
  }

  /** The plan for a set of entries, with no reference to the order they come in. */
  ghost predicate PlanFor(r: Rules, es: seq<Entry>, plan: ImportPlan) {
    && multiset(plan.directories) == Gather(es, DirectoriesOf(r)) && multiset(plan.files) == Gather(es, FilesOf(r))
    && SortedBy(plan.directories, DirectoryKey(), Shallower(r)) && SortedBy(plan.files, FileKey(), r.before)
    && plan.inspected == |es| && plan.plaintextBytes == Sum(es, PlaintextBytes(r))
    && plan.skipped == Sum(es, SkippedCount(r)) && plan.normalized == Sum(es, NormalizedCount(r))
  }

  // ---- No two planned entries share a logical path -----------------------------------------------

  predicate Registered(r: Rules, p: Progress) {
    && (forall i :: 0 <= i < |p.directories| ==> r.fold(p.directories[i].logical) in p.logicalNames)
    && (forall i :: 0 <= i < |p.files| ==> r.fold(p.files[i].logical) in p.logicalNames)
  }

  predicate Apart(p: Progress) {
    DistinctKeys(p.directories, DirectoryKey()) && DistinctKeys(p.files, FileKey())
  }

  lemma StepsApart(r: Rules, p: Progress, e: Entry)
    requires Registered(r, p) && Apart(p) && Fits(r, p, e)
    ensures Registered(r, Absorbed(r, p, e)) && Apart(Absorbed(r, p, e))
  {
  }

  lemma {:induction false} AllApart(r: Rules, es: seq<Entry>)
    requires AbsorbAll(r, es).Some?
    ensures Registered(r, AbsorbAll(r, es).value) && Apart(AbsorbAll(r, es).value)
  {
    if es != [] {
      AllApart(r, es[..|es| - 1]);
      StepsApart(r, AbsorbAll(r, es[..|es| - 1]).value, es[|es| - 1]);
    }
  }

  lemma ShallowerIsStrict(r: Rules)
    requires StrictTotal(r.before)
    ensures StrictTotal(Shallower(r))
  {
  }

  lemma FinishedIsPlan(r: Rules, es: seq<Entry>, p: Progress)
    requires StrictTotal(r.before) && AbsorbAll(r, es) == Some(p)
    ensures PlanFor(r, es, Finished(r, p))
  {
    AllApart(r, es);
    AbsorbsIffAcceptable(r, es);
    ShallowerIsStrict(r);
    SortSorts(p.directories, DirectoryKey(), Shallower(r));
    SortSorts(p.files, FileKey(), r.before);
    SortBag(p.directories, DirectoryKey(), Shallower(r));
    SortBag(p.files, FileKey(), r.before);
  }

  lemma PlanPermutes(r: Rules, es: seq<Entry>, fs: seq<Entry>, plan: ImportPlan)
    requires multiset(es) == multiset(fs) && PlanFor(r, es, plan)
    ensures PlanFor(r, fs, plan)
  {
    assert |multiset(es)| == |multiset(fs)|;
    SumPermutes(es, fs, PlaintextBytes(r));
    SumPermutes(es, fs, SkippedCount(r));
    SumPermutes(es, fs, NormalizedCount(r));
    GatherPermutes(es, fs, DirectoriesOf(r));
    GatherPermutes(es, fs, FilesOf(r));
  }

  /** Two scans that see the same entries, in whatever order, make equal plans. */
  lemma PlansAgree(r: Rules, es: seq<Entry>, fs: seq<Entry>, plan: ImportPlan, other: ImportPlan)
    requires StrictTotal(r.before) && multiset(es) == multiset(fs)
    requires PlanFor(r, es, plan) && PlanFor(r, fs, other)
    ensures plan == other
  {
    PlanPermutes(r, fs, es, other);
    ShallowerIsStrict(r);
    SortedUnique(plan.directories, other.directories, DirectoryKey(), Shallower(r));
    SortedUnique(plan.files, other.files, FileKey(), r.before);
  }

  // ---- The two entry points ----------------------------------------------------------------------

  /** Succeeds exactly on the acceptable trees, with their plan. */
  method ScanResolvedSource(rules: Rules, root: seq<Child>) returns (plan: Option<ImportPlan>)
    requires StrictTotal(rules.before)
    ensures plan.Some? <==> Acceptable(rules, Inventory([], root))
    ensures plan.Some? ==> PlanFor(rules, Inventory([], root), plan.value)
    ensures plan.Some? ==>
      plan.value.inspected == |plan.value.directories| + |plan.value.files| + plan.value.skipped
  {
    InventoryOne(Pending([], root));
    var scan := new LinuxScanState(rules, root);
    var ok := scan.Run(Inventory([], root));
    if !ok {
      return None;
    }
    plan := Some(Finished(rules, scan.View()));
    FinishedIsPlan(rules, scan.taken, scan.View());
    PlanPermutes(rules, scan.taken, Inventory([], root), plan.value);
    CountsAddUp(rules, scan.taken, scan.View());
  }

  /** The scan is repeated before publication; `plan` stands if it comes out the same. */
  method EnsureSourceUnchanged(rules: Rules, root: seq<Child>, plan: ImportPlan) returns (ok: bool)
    requires StrictTotal(rules.before)
    ensures ok <==> Acceptable(rules, Inventory([], root)) && PlanFor(rules, Inventory([], root), plan)
  {
    var current := ScanResolvedSource(rules, root);
    ok := current == Some(plan);
    if current.Some? && PlanFor(rules, Inventory([], root), plan) {
      PlansAgree(rules, Inventory([], root), Inventory([], root), plan, current.value);
    }
  }

  /** A tree with the same entries has the same plan. */
  lemma SameEntriesPass(r: Rules, root: seq<Child>, other: seq<Child>, plan: ImportPlan)
    requires multiset(Inventory([], root)) == multiset(Inventory([], other))
    requires Acceptable(r, Inventory([], root)) && PlanFor(r, Inventory([], root), plan)
    ensures Acceptable(r, Inventory([], other)) && PlanFor(r, Inventory([], other), plan)
  {
    AcceptablePermutes(r, Inventory([], root), Inventory([], other));
    PlanPermutes(r, Inventory([], root), Inventory([], other), plan);
  }

  lemma {:induction false} EntriesAddUp(r: Rules, es: seq<Entry>)
    requires forall e :: e in es ==> !e.kind.OtherEntry?
    ensures |es| == Sum(es, DirectoryCount()) + Sum(es, FileCount(r)) + Sum(es, SkippedCount(r))
  {
    if es != [] {
      EntriesAddUp(r, es[1..]);
    }
  }

  lemma CountsAddUp(r: Rules, es: seq<Entry>, p: Progress)
    requires AbsorbAll(r, es) == Some(p)
    ensures p.inspected == |p.directories| + |p.files| + p.skipped
    ensures |Finished(r, p).directories| == |p.directories| && |Finished(r, p).files| == |p.files|
  {
    AbsorbsIffAcceptable(r, es);
    EntriesAddUp(r, es);
    SortBag(p.directories, DirectoryKey(), Shallower(r));
    SortBag(p.files, FileKey(), r.before);
    assert |multiset(Finished(r, p).directories)| == |multiset(p.directories)|;
    assert |multiset(Finished(r, p).files)| == |multiset(p.files)|;
  }

  // ---- Listing order -----------------------------------------------------------------------------

  lemma {:induction false} InventoryAppends(path: Path, cs: seq<Child>, ds: seq<Child>)
    ensures Inventory(path, cs + ds) == Inventory(path, cs) + Inventory(path, ds)
  {
    if cs == [] {
      assert cs + ds == ds;
    } else {
      InventoryAppends(path, cs[1..], ds);
      assert (cs + ds)[1..] == cs[1..] + ds;
      Associates([EntryOf(path, cs[0])] + Below(path, cs[0]), Inventory(path, cs[1..]), Inventory(path, ds));
    }
  }

  /** Neighbours may be listed either way round, at any depth. */
  lemma SiblingsSwap(path: Path, before: seq<Child>, x: Child, y: Child, after: seq<Child>)
    ensures multiset(Inventory(path, before + [x] + [y] + after))
      == multiset(Inventory(path, before + [y] + [x] + after))
  {
    InventoryAppends(path, before + [x] + [y], after);
    InventoryAppends(path, before + [x], [y]);
    InventoryAppends(path, before, [x]);
    InventoryAppends(path, before + [y] + [x], after);
    InventoryAppends(path, before + [y], [x]);
    InventoryAppends(path, before, [y]);
  }

  lemma SubtreeSwaps(path: Path, before: seq<Child>, name: string, inner: seq<Child>, other: seq<Child>,
                     after: seq<Child>)
    requires multiset(Inventory(path + [name], inner)) == multiset(Inventory(path + [name], other))
    ensures multiset(Inventory(path, before + [Child(name, Directory(inner))] + after))
      == multiset(Inventory(path, before + [Child(name, Directory(other))] + after))
  {
    OneDirectory(path, name, inner);
    OneDirectory(path, name, other);
    InventoryAppends(path, before + [Child(name, Directory(inner))], after);
    InventoryAppends(path, before, [Child(name, Directory(inner))]);
    InventoryAppends(path, before + [Child(name, Directory(other))], after);
    InventoryAppends(path, before, [Child(name, Directory(other))]);
  }

  lemma OneDirectory(path: Path, name: string, inner: seq<Child>)
    ensures Inventory(path, [Child(name, Directory(inner))])
      == [Entry(path + [name], DirectoryEntry)] + Inventory(path + [name], inner)
  {
    var c := Child(name, Directory(inner));
    assert Inventory(path, [c]) == [EntryOf(path, c)] + Below(path, c) + Inventory(path, [c][1..]);
  }

  /** The same directory listed again: at every level the same children in some order. */
  ghost predicate Relisted(cs: seq<Child>, ds: seq<Child>)
    decreases cs
  {
    if cs == [] then ds == []
    else exists j :: 0 <= j < |ds| && SameChild(cs[0], ds[j]) && Relisted(cs[1..], ds[..j] + ds[j + 1..])
  }

  ghost predicate SameChild(c: Child, d: Child)
    decreases c
  {
    && c.name == d.name
    && if c.node.Directory? then d.node.Directory? && Relisted(c.node.children, d.node.children) else c.node == d.node
  }

  /** However a tree is listed again, at every level, it has the same entries. */
  lemma {:induction false} RelistedInventory(path: Path, cs: seq<Child>, ds: seq<Child>)
    requires Relisted(cs, ds)
    ensures multiset(Inventory(path, cs)) == multiset(Inventory(path, ds))
    decreases cs
  {
    if cs != [] {
      var j :| 0 <= j < |ds| && SameChild(cs[0], ds[j]) && Relisted(cs[1..], ds[..j] + ds[j + 1..]);
      var c, d := cs[0], ds[j];
      if c.node.Directory? {
        RelistedInventory(path + [c.name], c.node.children, d.node.children);
      }
      assert multiset(Alone(path, c)) == multiset(Alone(path, d));
      RelistedInventory(path, cs[1..], ds[..j] + ds[j + 1..]);
      PulledOut(path, ds, j);
    }
  }

  /** One child's part of an inventory. */
  function Alone(path: Path, c: Child): seq<Entry> {
    [EntryOf(path, c)] + Below(path, c)
  }

  lemma PulledOut(path: Path, ds: seq<Child>, j: nat)
    requires j < |ds|
    ensures multiset(Inventory(path, ds))
      == multiset(Alone(path, ds[j])) + multiset(Inventory(path, ds[..j] + ds[j + 1..]))
  {
    InventoryAppends(path, ds[..j], ds[j + 1..]);
    InventoryAppends(path, ds[..j], ds[j..]);
    assert ds == ds[..j] + ds[j..];
    assert ds[j..][1..] == ds[j + 1..];
    assert Inventory(path, ds[j..]) == Alone(path, ds[j]) + Inventory(path, ds[j + 1..]);
  }

  /** A tree that did not change passes the re-scan, in whatever order it is listed the second time. */
  lemma UnchangedPasses(r: Rules, root: seq<Child>, relisted: seq<Child>, plan: ImportPlan)
    requires Relisted(root, relisted)
    requires Acceptable(r, Inventory([], root)) && PlanFor(r, Inventory([], root), plan)
    ensures Acceptable(r, Inventory([], relisted)) && PlanFor(r, Inventory([], relisted), plan)
  {
    RelistedInventory([], root, relisted);
    SameEntriesPass(r, root, relisted, plan);
  }

  // ---- Parents come first ------------------------------------------------------------------------

  function Parent(path: Path): Path
    requires path != []
  {
    path[..|path| - 1]
  }

  /** Everything listed lies directly in the directory or has its own parent listed. */
  lemma {:induction false} ParentListed(path: Path, cs: seq<Child>, e: Entry)
    requires e in Inventory(path, cs)
    ensures |e.path| > |path|
    ensures |e.path| > |path| + 1 ==> Entry(Parent(e.path), DirectoryEntry) in Inventory(path, cs)
    ensures |e.path| == |path| + 1 ==> Parent(e.path) == path
    decreases cs
  {
    if e in Inventory(path, cs[1..]) {
      ParentListed(path, cs[1..], e);
    } else if e in Below(path, cs[0]) {
      ParentListed(path + [cs[0].name], cs[0].node.children, e);
    } else {
      assert e == EntryOf(path, cs[0]);
    }
  }

  /** Normalisation works on one component at a time. */
  ghost predicate ComponentWise(r: Rules, es: seq<Entry>) {
    forall e :: e in es && e.kind.DirectoryEntry? && LogicalOf(r, e).Some? ==>
      r.components(LogicalOf(r, e).value) == |e.path|
  }

  lemma PlannedFrom(r: Rules, es: seq<Entry>, plan: ImportPlan, i: nat) returns (e: Entry)
    requires PlanFor(r, es, plan) && i < |plan.directories|
    ensures e in es && e.kind.DirectoryEntry? && LogicalOf(r, e).Some?
    ensures plan.directories[i] == PlannedDirectory(e.path, LogicalOf(r, e).value)
  {
    assert plan.directories[i] in multiset(plan.directories);
    var k := GatherFrom(es, DirectoriesOf(r), plan.directories[i]);
    e := es[k];
  }

  lemma PlannedAt(r: Rules, es: seq<Entry>, plan: ImportPlan, e: Entry) returns (j: nat)
    requires PlanFor(r, es, plan) && e in es && e.kind.DirectoryEntry? && LogicalOf(r, e).Some?
    ensures j < |plan.directories| && plan.directories[j] == PlannedDirectory(e.path, LogicalOf(r, e).value)
  {
    var k :| 0 <= k < |es| && es[k] == e;
    var d := PlannedDirectory(e.path, LogicalOf(r, e).value);
    assert DirectoriesOf(r)(e) == multiset{d};
    GatherHas(es, DirectoriesOf(r), k, d);
    assert d in multiset(plan.directories);
    j :| 0 <= j < |plan.directories| && plan.directories[j] == d;
  }

  /** Each planned directory comes after its parent, so the plan can be carried out from front to back. */
  lemma ParentsFirst(r: Rules, root: seq<Child>, plan: ImportPlan, i: nat) returns (j: nat)
    requires Acceptable(r, Inventory([], root)) && PlanFor(r, Inventory([], root), plan)
    requires ComponentWise(r, Inventory([], root))
    requires i < |plan.directories| && |plan.directories[i].source| > 1
    ensures j < i && plan.directories[j].source == Parent(plan.directories[i].source)
  {
    var es := Inventory([], root);
    var e := PlannedFrom(r, es, plan, i);
    ParentListed([], root, e);
    var parent := Entry(Parent(e.path), DirectoryEntry);
    assert LocalOk(r, parent);
    j := PlannedAt(r, es, plan, parent);
    assert r.components(DirectoryKey()(plan.directories[j])) < r.components(DirectoryKey()(plan.directories[i]));
  }
}
