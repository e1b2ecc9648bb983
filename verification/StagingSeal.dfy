/** Sealing a staging vault and checking the seal, against a file system that may change all the while. */
module StagingSeal {
  import opened Gathering
  import opened ImportModel
  import opened ImportPlans
  import opened ImportScan
  import opened Sets
  import opened StagingAudit
  import opened StagingPlan

  const MAX_SEALED_STAGING_FILE_BYTES: nat := 32 * 1024 * 1024

  /** The identity of the staging root and the tree below it. */
  datatype Snapshot = Snapshot(root: int, tree: seq<Child>)

  /** What the file system shows at each moment. */
  type World = nat -> Snapshot

  datatype Seal = Seal(root: int, digests: map<Path, string>)

  function Lookup(cs: seq<Child>, name: string): Option<Node> {
    if cs == [] then None else if cs[0].name == name then Some(cs[0].node) else Lookup(cs[1..], name)
  }

  /** Follows the path through directories to a file. */
  function FileAt(cs: seq<Child>, path: Path): Option<string>
    decreases path
  {
    if path == [] then None
    else
      match Lookup(cs, path[0])
      case Some(Directory(inner)) => FileAt(inner, path[1..])
      case Some(File(content)) => if |path| == 1 then Some(content) else None
      case _ => None
  }

  function DigestAt(digest: string -> string, cs: seq<Child>, path: Path): Option<string> {
    match FileAt(cs, path)
    case Some(content) => if |content| <= MAX_SEALED_STAGING_FILE_BYTES then Some(digest(content)) else None
    case None => None
  }

  function ExpectedFiles(expected: map<Path, StagingKind>): set<Path> {
    set p | p in expected && expected[p] == StagedFile
  }

  function Expected(l: Layout, plan: ImportPlan): map<Path, StagingKind> {
    MapOf(AllEntries(l, plan, false))
  }

  ghost predicate Audited(l: Layout, plan: ImportPlan, marker: bool, cs: seq<Child>) {
    && PathsDistinct(AllEntries(l, plan, marker))
    && Exact(MapOf(AllEntries(l, plan, marker)), Inventory([], cs)) && WithinBudget(l, Inventory([], cs))
  }

  /** The staging root is still the one opened, and its tree passes the audit. */
  ghost predicate Sound(l: Layout, plan: ImportPlan, staging: int, marker: bool, w: Snapshot) {
    w.root == staging && Audited(l, plan, marker, w.tree)
  }

  /** Each sealed digest was read off the tree at the moment noted for it, after the audit. */
  predicate ReadAt(
    digest: string -> string, world: World, start: nat, seal: map<Path, string>, moments: map<Path, nat>)
  {
    && moments.Keys == seal.Keys
    && forall p :: p in seal ==> start < moments[p] && DigestAt(digest, world(moments[p]).tree, p) == Some(seal[p])
  }

  /**
   * The audit, then one digest after the other, then a last look at the root. Sealing fails after a passed
   * audit only if a file could not be read or the root is another one at the end.
   */
  method SealStaging(l: Layout, digest: string -> string, plan: ImportPlan, staging: int, world: World, start: nat)
    returns (seal: Option<Seal>, moments: map<Path, nat>, end: nat)
    ensures seal.Some? ==> Sound(l, plan, staging, false, world(start)) && world(end).root == staging
    ensures seal.Some? ==> world(start).root == staging && Audited(l, plan, false, world(start).tree)
    ensures seal.Some? ==> seal.value.root == staging && seal.value.digests.Keys == ExpectedFiles(Expected(l, plan))
    ensures seal.Some? ==> ReadAt(digest, world, start, seal.value.digests, moments)
    ensures seal.None? && Sound(l, plan, staging, false, world(start)) ==>
      || world(end).root != staging
      || exists p, t :: p in ExpectedFiles(Expected(l, plan)) && start < t && DigestAt(digest, world(t).tree, p).None?
  {
    moments, end := map[], start;
    if world(start).root != staging {
      return None, moments, end;
    }
    var ok := AuditStagingAllowlist(l, plan, world(start).tree, false);
    if !ok {
      return None, moments, end;
    }
    var expected := ExpectedStagingEntries(l, plan, false);
    var files := ListSet(ExpectedFiles(expected.value));
    var digests: map<Path, string> := map[];
    for i := 0 to |files|
      invariant forall p :: p in digests <==> p in files[..i]
      invariant ReadAt(digest, world, start, digests, moments)
    {
      var read := DigestAt(digest, world(start + 1 + i).tree, files[i]);
      if read.None? {
        assert files[i] in ExpectedFiles(Expected(l, plan));
        assert DigestAt(digest, world(start + 1 + i).tree, files[i]).None?;
        return None, moments, end;
      }
      digests := digests[files[i] := read.value];
      moments := moments[files[i] := start + 1 + i];
    }
    assert files[..|files|] == files;
    end := start + 1 + |files|;
    if world(end).root != staging {
      return None, moments, end;
    }
    return Some(Seal(staging, digests)), moments, end;
  }

  /** Every sealed file hashes as sealed, one moment after the other from `start`. */
  predicate HashesMatch(
    digest: string -> string, world: World, start: nat, seal: map<Path, string>, order: seq<Path>)
  {
    forall i :: 0 <= i < |order| ==>
      order[i] in seal && DigestAt(digest, world(start + i).tree, order[i]) == Some(seal[order[i]])
  }

  lemma SubsetOfSameSize<T>(a: set<T>, b: set<T>)
    requires a <= b && |a| == |b|
    ensures a == b
  {
    assert |b - a| == |b| - |a|;
  }

  /** Equal sizes and no key outside: the sealed files are the expected ones. */
  predicate SameFiles(seal: map<Path, string>, files: set<Path>) {
    |seal| == |files| && forall p :: p in seal ==> p in files
  }

  lemma SameFilesMeansEqual(seal: map<Path, string>, files: set<Path>)
    ensures SameFiles(seal, files) <==> seal.Keys == files
  {
    assert |seal.Keys| == |seal|;
    if SameFiles(seal, files) {
      SubsetOfSameSize(seal.Keys, files);
    }
  }

  method HashAll(digest: string -> string, world: World, start: nat, seal: map<Path, string>, order: seq<Path>)
    returns (ok: bool)
    requires forall p :: p in order ==> p in seal
    ensures ok <==> HashesMatch(digest, world, start, seal, order)
  {
    for i := 0 to |order|
      invariant HashesMatch(digest, world, start, seal, order[..i])
    {
      if DigestAt(digest, world(start + i).tree, order[i]) != Some(seal[order[i]]) {
        return false;
      }
    }
    assert order[..|order|] == order;
    return true;
  }

  /** Compares the root, hashes all sealed files, lets other code run, and walks the namespace last. */
  method VerifyStagingSeal(
    l: Layout, digest: string -> string, plan: ImportPlan, staging: int, world: World, start: nat, seal: Seal,
    marker: bool, hookOk: bool) returns (ok: bool, order: seq<Path>)
    ensures forall p :: p in order <==> p in seal.digests
    ensures ok <==>
      && seal.root == staging
      && PathsDistinct(AllEntries(l, plan, false)) && seal.digests.Keys == ExpectedFiles(Expected(l, plan))
      && HashesMatch(digest, world, start, seal.digests, order)
      && hookOk && Sound(l, plan, staging, marker, world(start + |order|))
    ensures ok ==> world(start + |order|).root == staging && Audited(l, plan, marker, world(start + |order|).tree)
  {
    order := ListSet(seal.digests.Keys);
    if seal.root != staging {
      return false, order;
    }
    var expected := ExpectedStagingEntries(l, plan, false);
    if expected.None? {
      return false, order;
    }
    SameFilesMeansEqual(seal.digests, ExpectedFiles(expected.value));
    if !SameFiles(seal.digests, ExpectedFiles(expected.value)) {
      return false, order;
    }
    ok := HashAll(digest, world, start, seal.digests, order);
    if !ok || !hookOk || world(start + |order|).root != staging {
      return false, order;
    }
    ok := AuditStagingAllowlist(l, plan, world(start + |order|).tree, marker);
  }

  // ---- What a seal is worth ----------------------------------------------------------------------

  ghost predicate Still(world: World, from: nat, w: Snapshot) {
    forall t: nat :: from <= t ==> world(t) == w
  }

  /** A seal taken from a tree that stays as it is passes the check at any later time. */
  lemma UnchangedSealPasses(
    l: Layout, digest: string -> string, plan: ImportPlan, staging: int, world: World, start: nat, w: Snapshot,
    seal: map<Path, string>, moments: map<Path, nat>, later: nat, order: seq<Path>)
    requires Still(world, start, w) && start <= later && Sound(l, plan, staging, false, world(start))
    requires ReadAt(digest, world, start, seal, moments) && forall p :: p in order <==> p in seal
    ensures HashesMatch(digest, world, later, seal, order) && Sound(l, plan, staging, false, world(later + |order|))
  {
    forall i | 0 <= i < |order|
      ensures order[i] in seal && DigestAt(digest, world(later + i).tree, order[i]) == Some(seal[order[i]])
    {
      assert order[i] in seal;
      assert world(moments[order[i]]) == w;
    }
  }

  /** With a digest that tells contents apart, an accepted file has the content it was sealed with. */
  lemma AcceptedContentIsSealed(
    digest: string -> string, world: World, start: nat, seal: map<Path, string>, moments: map<Path, nat>,
    later: nat, order: seq<Path>, i: nat)
    requires forall a, b :: digest(a) == digest(b) ==> a == b
    requires ReadAt(digest, world, start, seal, moments) && HashesMatch(digest, world, later, seal, order)
    requires i < |order|
    ensures order[i] in moments && FileAt(world(later + i).tree, order[i]).Some?
    ensures FileAt(world(later + i).tree, order[i]) == FileAt(world(moments[order[i]]).tree, order[i])
  {
    assert order[i] in seal;
  }

  // ---- In an exact tree every expected file can be read -------------------------------------------

  /** Whatever is listed lies below one child, and that child is listed itself. */
  lemma {:induction false} UnderChild(base: Path, cs: seq<Child>, e: Entry)
    requires e in Inventory(base, cs)
    ensures |e.path| > |base| && e.path[..|base|] == base
    ensures exists f :: f in Inventory(base, cs) && f.path == base + [e.path[|base|]]
    decreases cs
  {
    if e in Inventory(base, cs[1..]) {
      UnderChild(base, cs[1..], e);
    } else if e in Below(base, cs[0]) {
      UnderChild(base + [cs[0].name], cs[0].node.children, e);
      assert EntryOf(base, cs[0]).path == base + [e.path[|base|]];
    } else {
      assert e == EntryOf(base, cs[0]);
    }
  }

  /** The paths of the first child, of what is below it, and of the rest do not mix. */
  lemma NoMixing(base: Path, cs: seq<Child>, f: Entry)
    requires cs != [] && Once(Gather(Inventory(base, cs), PathOf())) && f in Inventory(base, cs[1..])
    ensures f.path != base + [cs[0].name]
  {
    var head := [EntryOf(base, cs[0])] + Below(base, cs[0]);
    GatherAppends(head, Inventory(base, cs[1..]), PathOf());
    GatherAppends([EntryOf(base, cs[0])], Below(base, cs[0]), PathOf());
    assert PathOf()(head[0]) == multiset{base + [cs[0].name]};
    GatherHas(head, PathOf(), 0, base + [cs[0].name]);
    assert Gather(Inventory(base, cs), PathOf())[base + [cs[0].name]] <= 1;
    if f.path == base + [cs[0].name] {
      var k :| 0 <= k < |Inventory(base, cs[1..])| && Inventory(base, cs[1..])[k] == f;
      GatherHas(Inventory(base, cs[1..]), PathOf(), k, f.path);
    }
  }

  lemma OnceParts(base: Path, cs: seq<Child>)
    requires cs != [] && Once(Gather(Inventory(base, cs), PathOf()))
    ensures Once(Gather(Inventory(base, cs[1..]), PathOf())) && Once(Gather(Below(base, cs[0]), PathOf()))
  {
    var one, below, rest := [EntryOf(base, cs[0])], Below(base, cs[0]), Inventory(base, cs[1..]);
    GatherAppends(one + below, rest, PathOf());
    GatherAppends(one, below, PathOf());
    forall p
      ensures Gather(rest, PathOf())[p] <= 1 && Gather(below, PathOf())[p] <= 1
    {
      assert Gather(Inventory(base, cs), PathOf())[p] <= 1;
    }
  }

  /** The first child is not on the way to an entry of the rest. */
  lemma RestUnmixed(base: Path, cs: seq<Child>, e: Entry)
    requires cs != [] && Once(Gather(Inventory(base, cs), PathOf())) && e in Inventory(base, cs[1..])
    ensures |e.path| > |base| && cs[0].name != e.path[|base|]
  {
    UnderChild(base, cs[1..], e);
    var f :| f in Inventory(base, cs[1..]) && f.path == base + [e.path[|base|]];
    NoMixing(base, cs, f);
  }

  lemma StepsInto(cs: seq<Child>, path: Path)
    requires cs != [] && |path| > 1 && cs[0].name == path[0] && cs[0].node.Directory?
    ensures FileAt(cs, path) == FileAt(cs[0].node.children, path[1..])
  {
  }

  lemma StepsOver(cs: seq<Child>, path: Path)
    requires cs != [] && path != [] && cs[0].name != path[0]
    ensures FileAt(cs, path) == FileAt(cs[1..], path)
  {
    assert Lookup(cs, path[0]) == Lookup(cs[1..], path[0]);
  }

  lemma BelowPath(base: Path, c: Child, e: Entry)
    requires e in Below(base, c)
    ensures |e.path| > |base| + 1 && e.path[|base|..] == [c.name] + e.path[|base| + 1..]
  {
    UnderChild(base + [c.name], c.node.children, e);
    assert e.path[|base|] == e.path[..|base| + 1][|base|];
  }

  lemma {:induction false} FileFound(base: Path, cs: seq<Child>, e: Entry)
    requires Once(Gather(Inventory(base, cs), PathOf())) && e in Inventory(base, cs) && e.kind.FileEntry?
    ensures |e.path| > |base| && FileAt(cs, e.path[|base|..]) == Some(e.kind.content)
    decreases cs
  {
    OnceParts(base, cs);
    if e in Inventory(base, cs[1..]) {
      FileFound(base, cs[1..], e);
      RestUnmixed(base, cs, e);
      StepsOver(cs, e.path[|base|..]);
    } else if e in Below(base, cs[0]) {
      FileFound(base + [cs[0].name], cs[0].node.children, e);
      BelowPath(base, cs[0], e);
      StepsInto(cs, e.path[|base|..]);
    } else {
      assert e.path[|base|..] == [cs[0].name];
    }
  }

  /** Sealing an audited tree that stays as it is can only fail on a file over the size limit. */
  lemma OnlyLargeFilesFail(l: Layout, digest: string -> string, plan: ImportPlan, cs: seq<Child>, p: Path)
    requires Audited(l, plan, false, cs) && p in ExpectedFiles(Expected(l, plan))
    ensures FileAt(cs, p).Some?
    ensures DigestAt(digest, cs, p).None? <==> |FileAt(cs, p).value| > MAX_SEALED_STAGING_FILE_BYTES
  {
    var es := Inventory([], cs);
    var k := GatherFrom(es, PathOf(), p);
    assert Agrees(Expected(l, plan), es[k]);
    FileFound([], cs, es[k]);
    assert es[k].path[0..] == p;
  }
}
