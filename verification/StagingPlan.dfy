/** The namespace a staging vault must have, and the budget it must fit. */
module StagingPlan {
  import opened Gathering
  import opened ImportModel
  import opened ImportPlans
  import opened Sets

  datatype StagingKind = StagedDirectory | StagedFile

  datatype Staged = Staged(path: Path, kind: StagingKind)

  /** Path lengths, and where a logical path lies in the vault. */
  datatype Layout = Layout(pathLength: Path -> nat, directory: Logical -> Path, ciphertext: Logical -> Path)

  const VAULT_LOCAL: string := ".vault-local"

  const MARKER: Path := [VAULT_LOCAL, "import-publish-marker-v1"]

  function Required(): seq<Staged> {
    [Staged(["vault.json"], StagedFile), Staged([VAULT_LOCAL], StagedDirectory),
     Staged([VAULT_LOCAL, "mutation.lock"], StagedFile)]
  }

  function PlannedEntries(l: Layout, plan: ImportPlan): seq<Staged> {
    Required()
    + seq(|plan.directories|, i requires 0 <= i < |plan.directories| =>
            Staged(l.directory(plan.directories[i].logical), StagedDirectory))
    + seq(|plan.files|, i requires 0 <= i < |plan.files| =>
            Staged(l.ciphertext(plan.files[i].logical), StagedFile))
  }

  function AllEntries(l: Layout, plan: ImportPlan, marker: bool): seq<Staged> {
    PlannedEntries(l, plan) + if marker then [Staged(MARKER, StagedFile)] else []
  }

  predicate PathsDistinct(items: seq<Staged>) {
    forall i, j :: 0 <= i < j < |items| ==> items[i].path != items[j].path
  }

  function MapOf(items: seq<Staged>): map<Path, StagingKind> {
    if items == [] then map[]
    else MapOf(items[..|items| - 1])[items[|items| - 1].path := items[|items| - 1].kind]
  }

  /** The map holds the paths of the entries and no others. */
  lemma {:induction false} MapPaths(items: seq<Staged>)
    ensures forall i :: 0 <= i < |items| ==> items[i].path in MapOf(items)
    ensures forall p :: p in MapOf(items) ==> exists i :: 0 <= i < |items| && items[i].path == p
  {
    if items != [] {
      var init := items[..|items| - 1];
      MapPaths(init);
      forall p | p in MapOf(items)
        ensures exists i :: 0 <= i < |items| && items[i].path == p
      {
        if p in MapOf(init) {
          var i :| 0 <= i < |init| && init[i].path == p;
          assert items[i].path == p;
        } else {
          assert items[|items| - 1].path == p;
        }
      }
      assert forall i :: 0 <= i < |init| ==> items[i].path == init[i].path;
    }
  }

  /** With distinct paths every entry keeps its kind. */
  lemma {:induction false} MapKinds(items: seq<Staged>, i: nat)
    requires PathsDistinct(items) && i < |items|
    ensures items[i].path in MapOf(items) && MapOf(items)[items[i].path] == items[i].kind
  {
    if i < |items| - 1 {
      MapKinds(items[..|items| - 1], i);
    }
  }

  /** The next entry collides exactly if its path is in the map already. */
  lemma InsertStep(items: seq<Staged>, k: nat)
    requires k < |items| && PathsDistinct(items[..k])
    ensures PathsDistinct(items[..k + 1]) <==> items[k].path !in MapOf(items[..k])
    ensures MapOf(items[..k + 1]) == MapOf(items[..k])[items[k].path := items[k].kind]
    ensures PathsDistinct(items) ==> PathsDistinct(items[..k + 1])
  {
    var more := items[..k + 1];
    assert more[..k] == items[..k] && more[k] == items[k];
    MapPaths(items[..k]);
    if items[k].path in MapOf(items[..k]) {
      var i :| 0 <= i < k && items[..k][i].path == items[k].path;
      assert more[i].path == more[k].path;
    }
  }

  method InsertAll(items: seq<Staged>) returns (r: Option<map<Path, StagingKind>>)
    ensures r == if PathsDistinct(items) then Some(MapOf(items)) else None
  {
    var m: map<Path, StagingKind> := map[];
    for k := 0 to |items|
      invariant PathsDistinct(items[..k]) && m == MapOf(items[..k])
    {
      InsertStep(items, k);
      if items[k].path in m {
        return None;
      }
      m := m[items[k].path := items[k].kind];
    }
    assert items[..|items|] == items;
    return Some(m);
  }

  // Which paths the vault has: its own, a directory for each planned one, a ciphertext for each planned file.

  predicate OwnFile(p: Path, marker: bool) {
    || p == ["vault.json"] || p == [".vault-local", "mutation.lock"]
    || (marker && p == [".vault-local", "import-publish-marker-v1"])
  }

  ghost predicate FileOf(l: Layout, plan: ImportPlan, p: Path) {
    exists i :: 0 <= i < |plan.files| && p == l.ciphertext(plan.files[i].logical)
  }

  ghost predicate DirectoryOf(l: Layout, plan: ImportPlan, p: Path) {
    exists i :: 0 <= i < |plan.directories| && p == l.directory(plan.directories[i].logical)
  }

  ghost predicate HasKind(l: Layout, plan: ImportPlan, marker: bool, p: Path, kind: StagingKind) {
    match kind
    case StagedFile => OwnFile(p, marker) || FileOf(l, plan, p)
    case StagedDirectory => p == [".vault-local"] || DirectoryOf(l, plan, p)
  }

  lemma ListedHasKind(l: Layout, plan: ImportPlan, marker: bool, i: nat)
    requires i < |AllEntries(l, plan, marker)|
    ensures var item := AllEntries(l, plan, marker)[i]; HasKind(l, plan, marker, item.path, item.kind)
  {
    var n, m := |plan.directories|, |plan.files|;
    if 3 <= i < 3 + n {
      assert AllEntries(l, plan, marker)[i].path == l.directory(plan.directories[i - 3].logical);
    } else if 3 + n <= i < 3 + n + m {
      assert AllEntries(l, plan, marker)[i].path == l.ciphertext(plan.files[i - 3 - n].logical);
    }
  }

  lemma KindIsListed(l: Layout, plan: ImportPlan, marker: bool, p: Path, kind: StagingKind) returns (i: nat)
    requires HasKind(l, plan, marker, p, kind)
    ensures i < |AllEntries(l, plan, marker)| && AllEntries(l, plan, marker)[i] == Staged(p, kind)
  {
    var n, m := |plan.directories|, |plan.files|;
    if kind == StagedDirectory {
      if p == [VAULT_LOCAL] {
        i := 1;
      } else {
        var k :| 0 <= k < n && p == l.directory(plan.directories[k].logical);
        i := 3 + k;
      }
    } else if OwnFile(p, marker) {
      i := if p == ["vault.json"] then 0 else if p == [VAULT_LOCAL, "mutation.lock"] then 2 else 3 + n + m;
    } else {
      var k :| 0 <= k < m && p == l.ciphertext(plan.files[k].logical);
      i := 3 + n + k;
    }
  }

  lemma NamespaceKinds(l: Layout, plan: ImportPlan, marker: bool, p: Path, kind: StagingKind)
    requires PathsDistinct(AllEntries(l, plan, marker))
    ensures var m := MapOf(AllEntries(l, plan, marker)); p in m && m[p] == kind <==> HasKind(l, plan, marker, p, kind)
  {
    var items := AllEntries(l, plan, marker);
    if p in MapOf(items) && MapOf(items)[p] == kind {
      MapPaths(items);
      var i :| 0 <= i < |items| && items[i].path == p;
      MapKinds(items, i);
      ListedHasKind(l, plan, marker, i);
    }
    if HasKind(l, plan, marker, p, kind) {
      var i := KindIsListed(l, plan, marker, p, kind);
      MapKinds(items, i);
    }
  }

  /** The expected namespace, unless two of its paths collide: which paths are files and which directories. */
  method ExpectedStagingEntries(l: Layout, plan: ImportPlan, marker: bool) returns (r: Option<map<Path, StagingKind>>)
    ensures r ==
      if PathsDistinct(AllEntries(l, plan, marker)) then Some(MapOf(AllEntries(l, plan, marker))) else None
    ensures r.Some? ==>
      forall p, kind :: p in r.value && r.value[p] == kind <==> HasKind(l, plan, marker, p, kind)
  {
    r := InsertAll(AllEntries(l, plan, marker));
    if r.Some? {
      forall p, kind
        ensures p in r.value && r.value[p] == kind <==> HasKind(l, plan, marker, p, kind)
      {
        NamespaceKinds(l, plan, marker, p, kind);
      }
    }
  }

  lemma OneMore(items: seq<Staged>, item: Staged)
    requires PathsDistinct(items + [item])
    ensures PathsDistinct(items) && item.path !in MapOf(items)
    ensures MapOf(items + [item]) == MapOf(items)[item.path := item.kind]
  {
    var all := items + [item];
    assert all[..|items|] == items;
    MapPaths(items);
    assert forall i :: 0 <= i < |items| ==> all[i].path != all[|items|].path;
  }

  /** The marker adds one file to the namespace and nothing else. */
  lemma MarkerAddsOne(l: Layout, plan: ImportPlan)
    requires PathsDistinct(AllEntries(l, plan, true))
    ensures PathsDistinct(AllEntries(l, plan, false)) && MARKER !in MapOf(AllEntries(l, plan, false))
    ensures MapOf(AllEntries(l, plan, true)) == MapOf(AllEntries(l, plan, false))[MARKER := StagedFile]
  {
    OneMore(PlannedEntries(l, plan), Staged(MARKER, StagedFile));
    assert AllEntries(l, plan, false) == PlannedEntries(l, plan);
  }

  // ---- The budget --------------------------------------------------------------------------------

  ghost predicate Lists(keys: seq<Path>, m: map<Path, StagingKind>) {
    && (forall i, j :: 0 <= i < j < |keys| ==> keys[i] != keys[j])
    && (forall p :: p in keys <==> p in m)
  }

  /** The entries and the bytes of their paths, in whatever order the keys are listed. */
  ghost predicate FitsBudget(l: Layout, m: map<Path, StagingKind>) {
    forall keys :: Lists(keys, m) ==> |keys| <= MAX_IMPORT_ENTRIES && Sum(keys, l.pathLength) <= MAX_IMPORT_PATH_BYTES
  }

  lemma ListingsAgree(keys: seq<Path>, others: seq<Path>, m: map<Path, StagingKind>)
    requires Lists(keys, m) && Lists(others, m)
    ensures multiset(keys) == multiset(others)
  {
    forall p
      ensures multiset(keys)[p] == multiset(others)[p]
    {
      ListedOnce(keys, p);
      ListedOnce(others, p);
    }
  }

  lemma {:induction false} ListedOnce<T(!new)>(xs: seq<T>, x: T)
    requires forall i, j :: 0 <= i < j < |xs| ==> xs[i] != xs[j]
    ensures multiset(xs)[x] == if x in xs then 1 else 0
  {
    if xs != [] {
      ListedOnce(xs[1..], x);
      assert xs == [xs[0]] + xs[1..];
    }
  }

  /** The dry run checks the largest namespace: the one with the marker. */
  method ValidatePlannedStagingBudget(l: Layout, plan: ImportPlan) returns (ok: bool)
    ensures ok <==> PathsDistinct(AllEntries(l, plan, true)) && FitsBudget(l, MapOf(AllEntries(l, plan, true)))
  {
    var expected := ExpectedStagingEntries(l, plan, true);
    if expected.None? {
      return false;
    }
    var keys := ListSet(expected.value.Keys);
    ListingsDecide(l, keys, expected.value);
    ok := |keys| <= MAX_IMPORT_ENTRIES;
    if ok {
      ok := PathBytesFit(l, keys);
    }
  }

  method PathBytesFit(l: Layout, keys: seq<Path>) returns (ok: bool)
    ensures ok <==> Sum(keys, l.pathLength) <= MAX_IMPORT_PATH_BYTES
  {
    var total := 0;
    for i := 0 to |keys|
      invariant total == Sum(keys[..i], l.pathLength)
    {
      assert keys[..i + 1] == keys[..i] + [keys[i]];
      SumAppends(keys[..i], [keys[i]], l.pathLength);
      total := total + l.pathLength(keys[i]);
    }
    assert keys[..|keys|] == keys;
    return total <= MAX_IMPORT_PATH_BYTES;
  }

  lemma ListingsDecide(l: Layout, keys: seq<Path>, m: map<Path, StagingKind>)
    requires Lists(keys, m)
    ensures FitsBudget(l, m) <==> |keys| <= MAX_IMPORT_ENTRIES && Sum(keys, l.pathLength) <= MAX_IMPORT_PATH_BYTES
  {
    forall others | Lists(others, m)
      ensures |others| == |keys| && Sum(others, l.pathLength) == Sum(keys, l.pathLength)
    {
      ListingsAgree(keys, others, m);
      assert |multiset(keys)| == |multiset(others)|;
      SumPermutes(keys, others, l.pathLength);
    }
  }
}
