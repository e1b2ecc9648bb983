/** The gate that compares what the vault lists with the plan. */
module VaultListing {
  import opened ImportModel
  import opened ImportPlans
  import opened StagingPlan
  import opened Sorting

  datatype ListedKind = ListedDirectory | ListedFile | ListedAsset

  datatype Listing = Listing(kind: ListedKind, path: Logical)

  function PlannedListing(plan: ImportPlan): seq<Listing> {
    seq(|plan.directories|, i requires 0 <= i < |plan.directories| =>
      Listing(ListedDirectory, plan.directories[i].logical))
    + seq(|plan.files|, i requires 0 <= i < |plan.files| => Listing(ListedFile, plan.files[i].logical))
  }

  predicate AllPlanned(tree: seq<Listing>, plan: ImportPlan) {
    forall i :: 0 <= i < |tree| ==> tree[i] in PlannedListing(plan)
  }

  /** What is listed is planned under its kind; an asset never is. */
  predicate IsPlanned(x: Listing, plan: ImportPlan) {
    match x.kind
    case ListedDirectory => exists i :: 0 <= i < |plan.directories| && plan.directories[i].logical == x.path
    case ListedFile => exists i :: 0 <= i < |plan.files| && plan.files[i].logical == x.path
    case ListedAsset => false
  }

  lemma PlannedMeans(x: Listing, plan: ImportPlan)
    ensures x in PlannedListing(plan) <==> IsPlanned(x, plan)
  {
    var all, n := PlannedListing(plan), |plan.directories|;
    if x in all {
      var i :| 0 <= i < |all| && all[i] == x;
      if i < n {
        assert plan.directories[i].logical == x.path;
      } else {
        assert plan.files[i - n].logical == x.path;
      }
    }
    if IsPlanned(x, plan) {
      if x.kind.ListedDirectory? {
        var i :| 0 <= i < |plan.directories| && plan.directories[i].logical == x.path;
        assert all[i] == x;
      } else {
        var i :| 0 <= i < |plan.files| && plan.files[i].logical == x.path;
        assert all[n + i] == x;
      }
    }
  }

  /** Passes exactly if the sizes agree and everything listed is planned. */
  method VerifyObservedTree(tree: seq<Listing>, plan: ImportPlan) returns (ok: bool)
    ensures ok <==> |tree| == |plan.directories| + |plan.files| && AllPlanned(tree, plan)
    ensures ok <==>
      |tree| == |plan.directories| + |plan.files| && forall i :: 0 <= i < |tree| ==> IsPlanned(tree[i], plan)
  {
    forall i | 0 <= i < |tree|
      ensures tree[i] in PlannedListing(plan) <==> IsPlanned(tree[i], plan)
    {
      PlannedMeans(tree[i], plan);
    }
    if |tree| != |plan.directories| + |plan.files| {
      return false;
    }
    var directories := set d | d in plan.directories :: d.logical;
    var files := set f | f in plan.files :: f.logical;
    PlannedMembers(plan, directories, files);
    for i := 0 to |tree|
      invariant AllPlanned(tree[..i], plan)
    {
      if tree[i].kind.ListedAsset? {
        return false;
      }
      var known := if tree[i].kind.ListedDirectory? then directories else files;
      if tree[i].path !in known {
        return false;
      }
    }
    return true;
  }

  lemma PlannedMembers(plan: ImportPlan, directories: set<Logical>, files: set<Logical>)
    requires directories == set d | d in plan.directories :: d.logical
    requires files == set f | f in plan.files :: f.logical
    ensures forall p :: Listing(ListedDirectory, p) in PlannedListing(plan) <==> p in directories
    ensures forall p :: Listing(ListedFile, p) in PlannedListing(plan) <==> p in files
    ensures forall p :: Listing(ListedAsset, p) !in PlannedListing(plan)
  {
    forall p
      ensures Listing(ListedDirectory, p) in PlannedListing(plan) <==> p in directories
      ensures Listing(ListedFile, p) in PlannedListing(plan) <==> p in files
    {
      if p in directories {
        var i :| 0 <= i < |plan.directories| && plan.directories[i].logical == p;
        assert PlannedListing(plan)[i] == Listing(ListedDirectory, p);
      }
      if p in files {
        var i :| 0 <= i < |plan.files| && plan.files[i].logical == p;
        assert PlannedListing(plan)[|plan.directories| + i] == Listing(ListedFile, p);
      }
    }
  }

  predicate NoRepeats<T(==)>(xs: seq<T>) {
    forall i, j :: 0 <= i < j < |xs| ==> xs[i] != xs[j]
  }

  lemma SameSizeSameBag<T(!new)>(xs: seq<T>, ys: seq<T>)
    requires NoRepeats(xs) && NoRepeats(ys) && |xs| == |ys| && forall i :: 0 <= i < |xs| ==> xs[i] in ys
    ensures multiset(xs) == multiset(ys)
  {
    forall x
      ensures multiset(xs)[x] <= multiset(ys)[x]
    {
      ListedOnce(xs, x);
      ListedOnce(ys, x);
    }
    assert multiset(xs) <= multiset(ys);
    assert |multiset(ys) - multiset(xs)| == |multiset(ys)| - |multiset(xs)|;
    assert multiset(ys) == multiset(xs) + (multiset(ys) - multiset(xs));
  }

  /** A listing without repeats passes exactly if it is the planned one, whatever its order. */
  lemma PassesIffPlanned(tree: seq<Listing>, plan: ImportPlan)
    requires NoRepeats(tree)
    requires DistinctKeys(plan.directories, DirectoryKey()) && DistinctKeys(plan.files, FileKey())
    ensures |tree| == |plan.directories| + |plan.files| && AllPlanned(tree, plan)
      <==> multiset(tree) == multiset(PlannedListing(plan))
  {
    PlannedNoRepeats(plan);
    if |tree| == |plan.directories| + |plan.files| && AllPlanned(tree, plan) {
      SameSizeSameBag(tree, PlannedListing(plan));
    }
    if multiset(tree) == multiset(PlannedListing(plan)) {
      assert |multiset(tree)| == |multiset(PlannedListing(plan))|;
      forall i | 0 <= i < |tree|
        ensures tree[i] in PlannedListing(plan)
      {
        SameElements(tree, PlannedListing(plan), tree[i]);
      }
    }
  }

  lemma PlannedNoRepeats(plan: ImportPlan)
    requires DistinctKeys(plan.directories, DirectoryKey()) && DistinctKeys(plan.files, FileKey())
    ensures NoRepeats(PlannedListing(plan))
  {
    var all, n := PlannedListing(plan), |plan.directories|;
    forall i, j | 0 <= i < j < |all|
      ensures all[i] != all[j]
    {
      if j < n {
        assert DirectoryKey()(plan.directories[i]) != DirectoryKey()(plan.directories[j]);
      } else if i >= n {
        assert FileKey()(plan.files[i - n]) != FileKey()(plan.files[j - n]);
      }
    }
  }
}
