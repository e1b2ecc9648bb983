/** What a plan says about the tree it was made from, and what the scan before publication detects. */
module ImportRescan {
  import opened Gathering
  import opened ImportModel
  import opened ImportPlans
  import opened ImportScan
  import opened Sorting

  // ---- The plan describes the tree ---------------------------------------------------------------

  /** A planned file is a Markdown file of the tree: its path, its normalised name, its size and its digest. */
  predicate DescribesFile(r: Rules, p: PlannedFile, e: Entry) {
    && e.kind.FileEntry? && r.markdown(e.path) && r.text(e.path).Some?
    && p.source == e.path && r.parseFile(r.text(e.path).value) == Some(p.logical)
    && p.bytes == |e.kind.content| && p.digest == r.digest(e.kind.content)
  }

  predicate DescribesDirectory(r: Rules, p: PlannedDirectory, e: Entry) {
    && e.kind.DirectoryEntry? && r.text(e.path).Some?
    && p.source == e.path && r.parseDir(r.text(e.path).value) == Some(p.logical)
  }

  /** Every planned file stands for a Markdown file of the tree. */
  lemma PlannedFileIsThere(r: Rules, es: seq<Entry>, plan: ImportPlan, i: nat) returns (e: Entry)
    requires PlanFor(r, es, plan) && i < |plan.files|
    ensures e in es && DescribesFile(r, plan.files[i], e)
  {
    assert plan.files[i] in multiset(plan.files);
    var k := GatherFrom(es, FilesOf(r), plan.files[i]);
    e := es[k];
  }

  /** Every Markdown file of an acceptable tree is planned. */
  lemma MarkdownIsPlanned(r: Rules, es: seq<Entry>, plan: ImportPlan, e: Entry) returns (i: nat)
    requires Acceptable(r, es) && PlanFor(r, es, plan)
    requires e in es && e.kind.FileEntry? && r.markdown(e.path)
    ensures i < |plan.files| && DescribesFile(r, plan.files[i], e)
  {
    assert LocalOk(r, e);
    var p := PlannedFile(e.path, LogicalOf(r, e).value, |e.kind.content|, r.digest(e.kind.content));
    InGather(es, FilesOf(r), e, p);
    assert p in multiset(plan.files);
    i :| 0 <= i < |plan.files| && plan.files[i] == p;
  }

  lemma PlannedDirectoryIsThere(r: Rules, es: seq<Entry>, plan: ImportPlan, i: nat) returns (e: Entry)
    requires PlanFor(r, es, plan) && i < |plan.directories|
    ensures e in es && DescribesDirectory(r, plan.directories[i], e)
  {
    e := PlannedFrom(r, es, plan, i);
  }

  lemma DirectoryIsPlanned(r: Rules, es: seq<Entry>, plan: ImportPlan, e: Entry) returns (i: nat)
    requires Acceptable(r, es) && PlanFor(r, es, plan) && e in es && e.kind.DirectoryEntry?
    ensures i < |plan.directories| && DescribesDirectory(r, plan.directories[i], e)
  {
    assert LocalOk(r, e);
    i := PlannedAt(r, es, plan, e);
  }

  lemma InGather<U>(es: seq<Entry>, image: Entry -> multiset<U>, e: Entry, u: U)
    requires e in es && image(e) == multiset{u}
    ensures u in Gather(es, image)
  {
    var k :| 0 <= k < |es| && es[k] == e;
    GatherHas(es, image, k, u);
  }

  // ---- Two trees with one plan -------------------------------------------------------------------

  /** The entries that an import is about: directories and Markdown files. */
  predicate Concerns(r: Rules, e: Entry) {
    e.kind.DirectoryEntry? || (e.kind.FileEntry? && r.markdown(e.path))
  }

  /** How many files the import passes over. */
  function PassedOver(r: Rules, es: seq<Entry>): nat {
    if es == [] then 0
    else (if es[0].kind.FileEntry? && !r.markdown(es[0].path) then 1 else 0) + PassedOver(r, es[1..])
  }

  /** The same directories, the same Markdown files with the same contents, and as many other files. */
  ghost predicate SameSource(r: Rules, es: seq<Entry>, fs: seq<Entry>) {
    && (forall e :: Concerns(r, e) ==> (e in es <==> e in fs))
    && PassedOver(r, es) == PassedOver(r, fs)
  }

  ghost predicate TellsApart(r: Rules) {
    forall a, b :: r.digest(a) == r.digest(b) ==> a == b
  }

  lemma {:induction false} PassedOverIsSum(r: Rules, es: seq<Entry>)
    ensures PassedOver(r, es) == Sum(es, SkippedCount(r))
  {
    if es != [] {
      PassedOverIsSum(r, es[1..]);
    }
  }

  /** An entry that one plan describes for two trees is in both. */
  lemma DetectsEntry(r: Rules, es: seq<Entry>, fs: seq<Entry>, plan: ImportPlan, e: Entry)
    requires TellsApart(r) && Acceptable(r, es) && PlanFor(r, es, plan) && PlanFor(r, fs, plan)
    requires Concerns(r, e) && e in es
    ensures e in fs
  {
    if e.kind.DirectoryEntry? {
      var i := DirectoryIsPlanned(r, es, plan, e);
      var f := PlannedDirectoryIsThere(r, fs, plan, i);
      assert f == e;
    } else {
      var i := MarkdownIsPlanned(r, es, plan, e);
      var f := PlannedFileIsThere(r, fs, plan, i);
      assert r.digest(f.kind.content) == r.digest(e.kind.content);
      assert f == e;
    }
  }

  lemma SamePlanSameSource(r: Rules, es: seq<Entry>, fs: seq<Entry>, plan: ImportPlan)
    requires TellsApart(r) && Acceptable(r, es) && Acceptable(r, fs) && PlanFor(r, es, plan) && PlanFor(r, fs, plan)
    ensures SameSource(r, es, fs)
  {
    forall e | Concerns(r, e)
      ensures e in es <==> e in fs
    {
      if e in es {
        DetectsEntry(r, es, fs, plan, e);
      }
      if e in fs {
        DetectsEntry(r, fs, es, plan, e);
      }
    }
    PassedOverIsSum(r, es);
    PassedOverIsSum(r, fs);
  }

  // ---- The same source makes the same plan ---------------------------------------------------------

  function Concerning(r: Rules, es: seq<Entry>): seq<Entry> {
    if es == [] then []
    else if Concerns(r, es[0]) then [es[0]] + Concerning(r, es[1..]) else Concerning(r, es[1..])
  }

  lemma {:induction false} ConcerningCounts(r: Rules, es: seq<Entry>, e: Entry)
    ensures Count(Concerning(r, es), e) == if Concerns(r, e) then Count(es, e) else 0
  {
    if es != [] {
      var rest := Concerning(r, es[1..]);
      ConcerningCounts(r, es[1..], e);
      CountAppends([es[0]], es[1..], e);
      CountAppends([es[0]], rest, e);
      assert es == [es[0]] + es[1..];
    }
  }

  /** An entry with a key is there at most as often as its key is drawn. */
  lemma {:induction false} CountAtMostKeys<U>(es: seq<Entry>, image: Entry -> multiset<U>, e: Entry, u: U)
    requires image(e) == multiset{u}
    ensures Count(es, e) <= Gather(es, image)[u]
  {
    if es != [] {
      CountAtMostKeys(es[1..], image, e, u);
      CountAppends([es[0]], es[1..], e);
      assert es == [es[0]] + es[1..];
    }
  }

  lemma ConcerningOnce(r: Rules, es: seq<Entry>, e: Entry)
    requires Acceptable(r, es) && Concerns(r, e) && e in es
    ensures Count(es, e) == 1
  {
    assert LocalOk(r, e);
    KeysOf(r, e);
    var key := r.fold(LogicalOf(r, e).value);
    CountAtMostKeys(es, LogicalKeys(r), e, key);
    assert Gather(es, LogicalKeys(r))[key] <= 1;
  }

  lemma SameConcerns(r: Rules, es: seq<Entry>, fs: seq<Entry>)
    requires Acceptable(r, es) && Acceptable(r, fs) && SameSource(r, es, fs)
    ensures multiset(Concerning(r, es)) == multiset(Concerning(r, fs))
  {
    forall e
      ensures multiset(Concerning(r, es))[e] == multiset(Concerning(r, fs))[e]
    {
      ConcerningCounts(r, es, e);
      ConcerningCounts(r, fs, e);
      if Concerns(r, e) && e in es {
        ConcerningOnce(r, es, e);
        ConcerningOnce(r, fs, e);
      }
    }
  }

  lemma {:induction false} GatherConcerning<U>(r: Rules, es: seq<Entry>, image: Entry -> multiset<U>)
    requires forall e :: !Concerns(r, e) ==> image(e) == multiset{}
    ensures Gather(es, image) == Gather(Concerning(r, es), image)
  {
    if es != [] {
      GatherConcerning(r, es[1..], image);
      var rest := Concerning(r, es[1..]);
      assert ([es[0]] + rest)[1..] == rest;
    }
  }

  lemma {:induction false} SumConcerning(r: Rules, es: seq<Entry>, weight: Entry -> nat)
    requires forall e :: !Concerns(r, e) ==> weight(e) == 0
    ensures Sum(es, weight) == Sum(Concerning(r, es), weight)
  {
    if es != [] {
      SumConcerning(r, es[1..], weight);
      var rest := Concerning(r, es[1..]);
      assert ([es[0]] + rest)[1..] == rest;
    }
  }

  lemma SumsAgree(r: Rules, es: seq<Entry>, fs: seq<Entry>, weight: Entry -> nat)
    requires forall e :: !Concerns(r, e) ==> weight(e) == 0
    requires multiset(Concerning(r, es)) == multiset(Concerning(r, fs))
    ensures Sum(es, weight) == Sum(fs, weight)
  {
    SumConcerning(r, es, weight);
    SumConcerning(r, fs, weight);
    SumPermutes(Concerning(r, es), Concerning(r, fs), weight);
  }

  lemma BagsAgree<U>(r: Rules, es: seq<Entry>, fs: seq<Entry>, image: Entry -> multiset<U>)
    requires forall e :: !Concerns(r, e) ==> image(e) == multiset{}
    requires multiset(Concerning(r, es)) == multiset(Concerning(r, fs))
    ensures Gather(es, image) == Gather(fs, image)
  {
    GatherConcerning(r, es, image);
    GatherConcerning(r, fs, image);
    GatherPermutes(Concerning(r, es), Concerning(r, fs), image);
  }

  lemma CountsAgree(r: Rules, es: seq<Entry>, fs: seq<Entry>)
    requires Acceptable(r, es) && Acceptable(r, fs) && SameSource(r, es, fs)
    requires multiset(Concerning(r, es)) == multiset(Concerning(r, fs))
    ensures |es| == |fs|
  {
    EntriesAddUp(r, es);
    EntriesAddUp(r, fs);
    PassedOverIsSum(r, es);
    PassedOverIsSum(r, fs);
    SumsAgree(r, es, fs, DirectoryCount());
    SumsAgree(r, es, fs, FileCount(r));
  }

  lemma SameSourceSamePlan(r: Rules, es: seq<Entry>, fs: seq<Entry>, plan: ImportPlan)
    requires Acceptable(r, es) && Acceptable(r, fs) && SameSource(r, es, fs) && PlanFor(r, es, plan)
    ensures PlanFor(r, fs, plan)
  {
    SameConcerns(r, es, fs);
    CountsAgree(r, es, fs);
    PassedOverIsSum(r, es);
    PassedOverIsSum(r, fs);
    BagsAgree(r, es, fs, DirectoriesOf(r));
    BagsAgree(r, es, fs, FilesOf(r));
    SumsAgree(r, es, fs, PlaintextBytes(r));
    NormalizedConcerns(r);
    SumsAgree(r, es, fs, NormalizedCount(r));
  }

  lemma NormalizedConcerns(r: Rules)
    ensures forall e :: !Concerns(r, e) ==> NormalizedCount(r)(e) == 0
  {
  }

  /**
   * The scan before publication passes exactly if the tree can still be imported and is the same source:
   * with a digest that tells contents apart, every other change is detected.
   */
  method PlanThenRescan(rules: Rules, before: seq<Child>, after: seq<Child>)
    returns (plan: Option<ImportPlan>, ok: bool)
    requires StrictTotal(rules.before) && TellsApart(rules)
    ensures plan.Some? <==> Acceptable(rules, Inventory([], before))
    ensures ok <==>
      && Acceptable(rules, Inventory([], before)) && Acceptable(rules, Inventory([], after))
      && SameSource(rules, Inventory([], before), Inventory([], after))
  {
    plan := ScanResolvedSource(rules, before);
    if plan.None? {
      return plan, false;
    }
    ok := EnsureSourceUnchanged(rules, after, plan.value);
    if Acceptable(rules, Inventory([], after)) {
      if ok {
        SamePlanSameSource(rules, Inventory([], before), Inventory([], after), plan.value);
      } else if SameSource(rules, Inventory([], before), Inventory([], after)) {
        SameSourceSamePlan(rules, Inventory([], before), Inventory([], after), plan.value);
      }
    }
  }
}
