/** The resolved native packages of a Cargo graph, and the process-descendant census of the same shape. */
module Dependencies {
  import opened Reachability
  import Sets

  datatype Option<T> = None | Some(value: T)

  datatype Kind = DevKind | OtherKind

  datatype Kinds = KindList(kinds: seq<Kind>) | NotAList

  datatype Dependency = NotAnObject | Dependency(kinds: Kinds, pkg: Option<string>)

  datatype Node = Node(id: string, deps: seq<Dependency>)

  datatype Package = Package(id: string, name: Option<string>, source: Option<string>, manifest: Option<string>)

  /** A package the workspace must hold, with the absolute path of its manifest. */
  datatype Reviewed = Reviewed(name: string, manifest: string)

  /** Cargo's answer; an absent root or member list stands for one of the wrong shape. */
  datatype Metadata = Metadata(
    nodes: seq<Node>, packages: seq<Package>, root: Option<string>, members: Option<seq<string>>)

  predicate DevOnly(d: Dependency)
    requires d.Dependency? && d.kinds.KindList?
  {
    d.kinds.kinds != [] && forall i :: 0 <= i < |d.kinds.kinds| ==> d.kinds.kinds[i] == DevKind
  }

  /** A dependency record that the resolver refuses, whatever it points at. */
  predicate BadDependency(d: Dependency) {
    d.NotAnObject? || d.kinds.NotAList? || (!DevOnly(d) && d.pkg.None?)
  }

  predicate WellFormed(node: Node) {
    forall i :: 0 <= i < |node.deps| ==> !BadDependency(node.deps[i])
  }

  /** The packages a node leads to: the targets of its dependencies that are not dev-only. */
  function Targets(deps: seq<Dependency>): set<string> {
    set i | 0 <= i < |deps| && !BadDependency(deps[i]) && !DevOnly(deps[i]) :: deps[i].pkg.value
  }

  function Edges(nodes: map<string, Node>): string -> set<string> {
    id => if id in nodes then Targets(nodes[id].deps) else {}
  }

  ghost function Roots<T(!new)>(s: set<T>): iset<T> {
    iset r | r in s
  }

  function Elements<T>(s: seq<T>): set<T> {
    set x | x in s
  }

  ghost predicate Needed(nodes: map<string, Node>, workspace: seq<string>, id: string) {
    Reachable(Roots(Elements(workspace)), Edges(nodes), id)
  }

  /** A dependency counts unless it is for development only: its list is empty or names another kind. */
  predicate Counts(d: Dependency) {
    d.Dependency? && d.kinds.KindList?
    && (d.kinds.kinds == [] || exists k :: 0 <= k < |d.kinds.kinds| && d.kinds.kinds[k].OtherKind?)
  }

  /** An edge leads exactly to the package of a dependency that counts. */
  lemma EdgesByKinds(nodes: map<string, Node>, id: string, target: string)
    ensures target in Edges(nodes)(id) <==>
      id in nodes && exists i :: 0 <= i < |nodes[id].deps| && LeadsTo(nodes[id].deps[i], target)
  {
    if id in nodes {
      var deps := nodes[id].deps;
      forall i | 0 <= i < |deps|
        ensures LeadsTo(deps[i], target)
          <==> !BadDependency(deps[i]) && !DevOnly(deps[i]) && deps[i].pkg.value == target
      {
        LeadsToMeans(deps[i], target);
      }
    }
  }

  predicate LeadsTo(d: Dependency, target: string) {
    Counts(d) && d.pkg == Some(target)
  }

  lemma LeadsToMeans(d: Dependency, target: string)
    ensures LeadsTo(d, target) <==> !BadDependency(d) && !DevOnly(d) && d.pkg.value == target
  {
    if d.Dependency? && d.kinds.KindList? {
      CountsMeans(d);
    }
  }

  lemma CountsMeans(d: Dependency)
    requires d.Dependency? && d.kinds.KindList?
    ensures Counts(d) <==> !DevOnly(d)
  {
    if !DevOnly(d) && d.kinds.kinds != [] {
      var k :| 0 <= k < |d.kinds.kinds| && d.kinds.kinds[k] != DevKind;
      assert d.kinds.kinds[k].OtherKind?;
    }
  }

  /** A record is refused exactly if it has no shape, no list of kinds, or counts without naming a package. */
  lemma RefusedRecords(d: Dependency)
    ensures BadDependency(d) <==> d.NotAnObject? || d.kinds.NotAList? || (Counts(d) && d.pkg.None?)
  {
    if d.Dependency? && d.kinds.KindList? {
      CountsMeans(d);
    }
  }

  // ---- Indexing the metadata -------------------------------------------------------------------

  function MapOf<T>(records: seq<T>, idOf: T -> string): (index: map<string, T>)
    ensures forall id :: id in index <==> exists i :: 0 <= i < |records| && idOf(records[i]) == id
  {
    if records == [] then map[]
    else
      var init, last := records[..|records| - 1], records[|records| - 1];
      MapOf(init, idOf)[idOf(last) := last]
  }

  /** No record repeats the id of an earlier one. */
  predicate DistinctIds<T>(records: seq<T>, idOf: T -> string) {
    records == [] ||
    (DistinctIds(records[..|records| - 1], idOf)
     && idOf(records[|records| - 1]) !in MapOf(records[..|records| - 1], idOf))
  }

  lemma {:induction false} DistinctPrefix<T>(records: seq<T>, i: nat, idOf: T -> string)
    requires i <= |records| && DistinctIds(records, idOf)
    ensures DistinctIds(records[..i], idOf)
  {
    if i == |records| {
      assert records[..i] == records;
    } else {
      DistinctPrefix(records[..|records| - 1], i, idOf);
      assert records[..|records| - 1][..i] == records[..i];
    }
  }

  /** A dictionary by id; repeated ids are refused. */
  method IndexById<T>(records: seq<T>, idOf: T -> string) returns (index: Option<map<string, T>>)
    ensures index.Some? <==> DistinctIds(records, idOf)
    ensures index.Some? ==> index.value == MapOf(records, idOf)
  {
    var byId: map<string, T> := map[];
    for i := 0 to |records|
      invariant DistinctIds(records[..i], idOf)
      invariant byId == MapOf(records[..i], idOf)
    {
      assert records[..i + 1][..i] == records[..i];
      if idOf(records[i]) in byId {
        if DistinctIds(records, idOf) {
          DistinctPrefix(records, i + 1, idOf);
        }
        return None;
      }
      byId := byId[idOf(records[i]) := records[i]];
    }
    assert records[..|records|] == records;
    return Some(byId);
  }

  // ---- The closure -----------------------------------------------------------------------------

  method Expand(deps: seq<Dependency>) returns (ids: Option<seq<string>>)
    ensures ids.Some? <==> forall i :: 0 <= i < |deps| ==> !BadDependency(deps[i])
    ensures ids.Some? ==> forall id :: id in ids.value <==> id in Targets(deps)
  {
    var found: seq<string> := [];
    for i := 0 to |deps|
      invariant forall j :: 0 <= j < i ==> !BadDependency(deps[j])
      invariant forall id :: id in found <==>
        exists j :: 0 <= j < i && !DevOnly(deps[j]) && deps[j].pkg.value == id
    {
      var dependency := deps[i];
      if dependency.NotAnObject? || dependency.kinds.NotAList? {
        return None;
      }
      if DevOnly(dependency) {
        continue;
      }
      if dependency.pkg.None? {
        return None;
      }
      found := found + [dependency.pkg.value];
    }
    return Some(found);
  }

  /** Every needed package has a well-formed node. */
  ghost predicate GraphSound(nodes: map<string, Node>, workspace: seq<string>) {
    forall id :: Needed(nodes, workspace, id) ==> id in nodes && WellFormed(nodes[id])
  }

  /** The worklist ends, and with exactly the needed packages unless one of them is missing or malformed. */
  method Closure(nodes: map<string, Node>, workspace: seq<string>) returns (closure: Option<set<string>>)
    ensures closure.Some? <==> GraphSound(nodes, workspace)
    ensures closure.Some? ==> forall id :: id in closure.value <==> Needed(nodes, workspace, id)
  {
    ghost var roots, next := Roots(Elements(workspace)), Edges(nodes);
    var reachable: set<string> := {};
    var pending := workspace;
    WorklistStart(roots, next, pending);
    while pending != []
      invariant reachable <= nodes.Keys && forall id :: id in reachable ==> WellFormed(nodes[id])
      invariant Worklist(roots, next, reachable, pending)
      decreases nodes.Keys - reachable, |pending|
    {
      var packageId, rest := pending[|pending| - 1], pending[..|pending| - 1];
      LastPending(pending);
      if packageId in reachable {
        WorklistSkip(roots, next, reachable, rest, packageId);
        pending := rest;
        continue;
      }
      assert Needed(nodes, workspace, packageId);
      if packageId !in nodes {
        return None;
      }
      var targets := Expand(nodes[packageId].deps);
      if targets.None? {
        return None;
      }
      WorklistExpand(roots, next, reachable, rest, packageId, targets.value);
      reachable, pending := reachable + {packageId}, rest + targets.value;
    }
    WorklistDone(roots, next, reachable);
    return Some(reachable);
  }

  // ---- The resolved packages -------------------------------------------------------------------

  /** The needed packages outside the workspace, in the order of the metadata. */
  ghost function ThirdParty(packages: seq<Package>, nodes: map<string, Node>, workspace: seq<string>): seq<Package> {
    if packages == [] then []
    else
      var init, last := packages[..|packages| - 1], packages[|packages| - 1];
      if Needed(nodes, workspace, last.id) && last.id !in workspace
      then ThirdParty(init, nodes, workspace) + [last]
      else ThirdParty(init, nodes, workspace)
  }

  ghost predicate Described(nodes: map<string, Node>, workspace: seq<string>, packages: seq<Package>) {
    forall id :: Needed(nodes, workspace, id) ==> exists i :: 0 <= i < |packages| && packages[i].id == id
  }

  ghost predicate NoPathDependency(nodes: map<string, Node>, workspace: seq<string>, packages: seq<Package>) {
    forall i :: 0 <= i < |packages| && Needed(nodes, workspace, packages[i].id) && packages[i].id !in workspace ==>
      packages[i].source.Some?
  }

  // ---- The reviewed workspace --------------------------------------------------------------------

  predicate FirstParty(p: Package, e: Reviewed) {
    p.name == Some(e.name) && p.source.None? && p.manifest == Some(e.manifest)
  }

  predicate OnlyMatch(packages: seq<Package>, e: Reviewed, i: nat) {
    && i < |packages| && FirstParty(packages[i], e)
    && forall j :: 0 <= j < |packages| && FirstParty(packages[j], e) ==> j == i
  }

  ghost predicate MatchedOnce(packages: seq<Package>, e: Reviewed) {
    exists i: nat :: OnlyMatch(packages, e, i)
  }

  ghost predicate IsFirstParty(packages: seq<Package>, reviewed: seq<Reviewed>, id: string) {
    exists i, k :: 0 <= i < |packages| && 0 <= k < |reviewed| && MatchAt(packages, reviewed, i, k, id)
  }

  predicate MatchAt(packages: seq<Package>, reviewed: seq<Reviewed>, i: nat, k: nat, id: string)
    requires i < |packages| && k < |reviewed|
  {
    packages[i].id == id && FirstParty(packages[i], reviewed[k])
  }

  predicate NoRepeats(members: seq<string>) {
    forall i, j :: 0 <= i < j < |members| ==> members[i] != members[j]
  }

  /** Each reviewed package is there once, and the members are exactly those packages, each listed once. */
  ghost predicate WorkspaceReviewed(packages: seq<Package>, members: Option<seq<string>>, reviewed: seq<Reviewed>) {
    && (forall k :: 0 <= k < |reviewed| ==> MatchedOnce(packages, reviewed[k]))
    && members.Some? && NoRepeats(members.value)
    && forall id :: id in members.value <==> IsFirstParty(packages, reviewed, id)
  }

  lemma {:induction false} RepeatsShrink(members: seq<string>)
    ensures |Elements(members)| <= |members|
    ensures |Elements(members)| == |members| <==> NoRepeats(members)
  {
    if members != [] {
      var init, last := members[..|members| - 1], members[|members| - 1];
      RepeatsShrink(init);
      assert members == init + [last];
      assert Elements(members) == Elements(init) + {last};
      if last in init {
        assert Elements(members) == Elements(init);
        var i :| 0 <= i < |init| && init[i] == last;
        assert members[i] == members[|init|];
      } else if NoRepeats(init) {
        assert NoRepeats(members);
      }
    }
  }

  method MatchOne(packages: seq<Package>, e: Reviewed) returns (found: Option<Package>)
    ensures found.Some? <==> MatchedOnce(packages, e)
    ensures found.Some? ==> exists i: nat :: OnlyMatch(packages, e, i) && packages[i] == found.value
  {
    var matches: seq<Package> := [];
    ghost var first, second := 0, 0;
    for i := 0 to |packages|
      invariant |matches| == 0 ==> forall j :: 0 <= j < i ==> !FirstParty(packages[j], e)
      invariant |matches| == 1 ==> OnlyMatch(packages[..i], e, first) && packages[first] == matches[0]
      invariant |matches| > 1 ==>
        first < second < i && FirstParty(packages[first], e) && FirstParty(packages[second], e)
    {
      if FirstParty(packages[i], e) {
        first, second := if matches == [] then i else first, if |matches| == 1 then i else second;
        matches := matches + [packages[i]];
      }
    }
    assert packages[..|packages|] == packages;
    if |matches| != 1 {
      return None;
    }
    assert OnlyMatch(packages, e, first);
    return Some(matches[0]);
  }

  /** The ids of the reviewed packages, when each of them is there exactly once. */
  method WorkspaceIds(packages: seq<Package>, reviewed: seq<Reviewed>) returns (ids: Option<set<string>>)
    ensures ids.Some? <==> forall k :: 0 <= k < |reviewed| ==> MatchedOnce(packages, reviewed[k])
    ensures ids.Some? ==> forall id :: id in ids.value <==> IsFirstParty(packages, reviewed, id)
  {
    var expected: set<string> := {};
    for k := 0 to |reviewed|
      invariant forall l :: 0 <= l < k ==> MatchedOnce(packages, reviewed[l])
      invariant forall id :: id in expected <==> IsFirstParty(packages, reviewed[..k], id)
    {
      var found := MatchOne(packages, reviewed[k]);
      if found.None? {
        return None;
      }
      FirstPartyStep(packages, reviewed, k, found.value);
      expected := expected + {found.value.id};
    }
    assert reviewed[..|reviewed|] == reviewed;
    return Some(expected);
  }

  lemma FirstPartyStep(packages: seq<Package>, reviewed: seq<Reviewed>, k: nat, found: Package)
    requires k < |reviewed| && exists i: nat :: OnlyMatch(packages, reviewed[k], i) && packages[i] == found
    ensures forall id ::
      IsFirstParty(packages, reviewed[..k + 1], id) <==> IsFirstParty(packages, reviewed[..k], id) || id == found.id
  {
    forall id
      ensures IsFirstParty(packages, reviewed[..k + 1], id) <==>
        IsFirstParty(packages, reviewed[..k], id) || id == found.id
    {
      OneMoreFirstParty(packages, reviewed, k, found, id);
    }
  }

  lemma OneMoreFirstParty(packages: seq<Package>, reviewed: seq<Reviewed>, k: nat, found: Package, id: string)
    requires k < |reviewed| && exists i: nat :: OnlyMatch(packages, reviewed[k], i) && packages[i] == found
    ensures IsFirstParty(packages, reviewed[..k + 1], id)
      <==> IsFirstParty(packages, reviewed[..k], id) || id == found.id
  {
    var m: nat :| OnlyMatch(packages, reviewed[k], m) && packages[m] == found;
    if IsFirstParty(packages, reviewed[..k + 1], id) {
      var i: nat, l: nat :| i < |packages| && l < k + 1 && MatchAt(packages, reviewed[..k + 1], i, l, id);
      if l < k {
        assert MatchAt(packages, reviewed[..k], i, l, id);
      }
    }
    if IsFirstParty(packages, reviewed[..k], id) {
      var i: nat, l: nat :| i < |packages| && l < k && MatchAt(packages, reviewed[..k], i, l, id);
      assert MatchAt(packages, reviewed[..k + 1], i, l, id);
    }
    if id == found.id {
      assert MatchAt(packages, reviewed[..k + 1], m, k, id);
    }
  }

  /** A reviewed workspace consists of local packages under their reviewed names and manifests, none missing. */
  lemma MembersAreReviewed(packages: seq<Package>, members: Option<seq<string>>, reviewed: seq<Reviewed>, id: string)
    requires WorkspaceReviewed(packages, members, reviewed)
    ensures id in members.value <==>
      exists i, k ::
        && 0 <= i < |packages| && 0 <= k < |reviewed| && packages[i].id == id && packages[i].source == None
        && packages[i].name == Some(reviewed[k].name) && packages[i].manifest == Some(reviewed[k].manifest)
  {
    if id in members.value {
      var i: nat, k: nat :| i < |packages| && k < |reviewed| && MatchAt(packages, reviewed, i, k, id);
      assert packages[i].name == Some(reviewed[k].name);
    }
    if i: nat, k: nat :|
      && i < |packages| && k < |reviewed| && packages[i].id == id && packages[i].source == None
      && packages[i].name == Some(reviewed[k].name) && packages[i].manifest == Some(reviewed[k].manifest)
    {
      assert MatchAt(packages, reviewed, i, k, id);
    }
  }

  method WorkspaceMembers(packages: seq<Package>, members: Option<seq<string>>, reviewed: seq<Reviewed>)
    returns (workspace: Option<seq<string>>)
    ensures workspace == if WorkspaceReviewed(packages, members, reviewed) then members else None
  {
    var expected := WorkspaceIds(packages, reviewed);
    if expected.None? || members.None? {
      return None;
    }
    RepeatsShrink(members.value);
    if |members.value| != |Elements(members.value)| || Elements(members.value) != expected.value {
      return None;
    }
    return members;
  }

  // ---- The resolver ------------------------------------------------------------------------------

  /**
   * The resolver fails exactly when an id repeats, the root or the workspace is not the reviewed one, a
   * needed package has no node, a malformed dependency or no metadata, or one outside the workspace has
   * no source.
   */
  method NativeResolvedPackages(m: Metadata, root: string, reviewed: seq<Reviewed>) returns (r: Option<seq<Package>>)
    ensures r.Some? <==>
      && DistinctIds(m.nodes, NodeId) && DistinctIds(m.packages, PackageId)
      && m.root == Some(root) && WorkspaceReviewed(m.packages, m.members, reviewed)
      && Resolvable(MapOf(m.nodes, NodeId), m.packages, m.members.value)
    ensures r.Some? ==> r.value == ThirdParty(m.packages, MapOf(m.nodes, NodeId), m.members.value)
  {
    var nodeIndex := IndexById(m.nodes, NodeId);
    if nodeIndex.None? {
      return None;
    }
    var packageIndex := IndexById(m.packages, PackageId);
    if packageIndex.None? {
      return None;
    }
    if m.root != Some(root) {
      return None;
    }
    var workspace := WorkspaceMembers(m.packages, m.members, reviewed);
    if workspace.None? {
      return None;
    }
    r := ResolvePackages(nodeIndex.value, packageIndex.value, m.packages, workspace.value);
  }

  /** Every needed package can be followed and described, and comes from somewhere. */
  ghost predicate Resolvable(nodes: map<string, Node>, packages: seq<Package>, workspace: seq<string>) {
    && GraphSound(nodes, workspace) && Described(nodes, workspace, packages)
    && NoPathDependency(nodes, workspace, packages)
  }

  /** What resolving comes to: local packages and sourced ones together are exactly the needed packages. */
  lemma ResolvedExactly(nodes: map<string, Node>, packages: seq<Package>, workspace: seq<string>)
    requires Resolvable(nodes, packages, workspace)
    ensures forall p :: p in ThirdParty(packages, nodes, workspace) <==>
      p in packages && Needed(nodes, workspace, p.id) && p.id !in workspace
    ensures forall p :: p in ThirdParty(packages, nodes, workspace) ==> p.source.Some?
    ensures forall id :: Needed(nodes, workspace, id) ==>
      id in workspace || exists p :: p in ThirdParty(packages, nodes, workspace) && p.id == id
    ensures forall id :: Needed(nodes, workspace, id) ==> id in nodes && NoneRefused(nodes[id])
  {
    forall p
      ensures p in ThirdParty(packages, nodes, workspace) <==>
        p in packages && Needed(nodes, workspace, p.id) && p.id !in workspace
    {
      ThirdPartyHas(packages, nodes, workspace, p);
    }
    forall p | p in packages && Needed(nodes, workspace, p.id) && p.id !in workspace
      ensures p.source.Some?
    {
      var i :| 0 <= i < |packages| && packages[i] == p;
      assert packages[i].source.Some?;
    }
    forall id | Needed(nodes, workspace, id) && id !in workspace
      ensures exists p :: p in ThirdParty(packages, nodes, workspace) && p.id == id
    {
      var i :| 0 <= i < |packages| && packages[i].id == id;
      assert packages[i] in ThirdParty(packages, nodes, workspace);
    }
  }

  predicate NoneRefused(node: Node) {
    forall i :: 0 <= i < |node.deps| ==> !BadDependency(node.deps[i])
  }

  lemma {:induction false} ThirdPartyHas(packages: seq<Package>, nodes: map<string, Node>, workspace: seq<string>,
                                         p: Package)
    ensures p in ThirdParty(packages, nodes, workspace) <==>
      p in packages && Needed(nodes, workspace, p.id) && p.id !in workspace
  {
    if packages != [] {
      var init := packages[..|packages| - 1];
      ThirdPartyHas(init, nodes, workspace, p);
      assert packages == init + [packages[|packages| - 1]];
    }
  }

  method ResolvePackages(
    nodes: map<string, Node>, packageIndex: map<string, Package>, packages: seq<Package>, workspace: seq<string>)
    returns (r: Option<seq<Package>>)
    requires packageIndex == MapOf(packages, PackageId)
    ensures r.Some? <==> Resolvable(nodes, packages, workspace)
    ensures r.Some? ==> r.value == ThirdParty(packages, nodes, workspace)
  {
    var closure := Closure(nodes, workspace);
    if closure.None? {
      return None;
    }
    var reachable := closure.value;
    var missing := set id | id in reachable && id !in packageIndex;
    MissingMeansUndescribed(nodes, workspace, packages, reachable, missing);
    if missing != {} {
      return None;
    }
    r := ChooseThirdParty(packages, reachable, workspace, nodes);
  }

  method ChooseThirdParty(
    packages: seq<Package>, reachable: set<string>, workspace: seq<string>, ghost nodes: map<string, Node>)
    returns (r: Option<seq<Package>>)
    requires forall id :: id in reachable <==> Needed(nodes, workspace, id)
    ensures r.Some? <==> NoPathDependency(nodes, workspace, packages)
    ensures r.Some? ==> r.value == ThirdParty(packages, nodes, workspace)
  {
    var chosen: seq<Package> := [];
    for i := 0 to |packages|
      invariant chosen == ThirdParty(packages[..i], nodes, workspace)
      invariant NoPathDependency(nodes, workspace, packages[..i])
    {
      assert packages[..i + 1][..i] == packages[..i];
      var package := packages[i];
      if package.id !in reachable || package.id in workspace {
        continue;
      }
      if package.source.None? {
        return None;
      }
      chosen := chosen + [package];
    }
    assert packages[..|packages|] == packages;
    return Some(chosen);
  }

  lemma MissingMeansUndescribed(
    nodes: map<string, Node>, workspace: seq<string>, packages: seq<Package>, reachable: set<string>,
    missing: set<string>)
    requires forall id :: id in reachable <==> Needed(nodes, workspace, id)
    requires missing == set id | id in reachable && id !in MapOf(packages, PackageId)
    ensures missing == {} <==> Described(nodes, workspace, packages)
  {
    if missing == {} {
      forall id | Needed(nodes, workspace, id)
        ensures exists i :: 0 <= i < |packages| && packages[i].id == id
      {
        assert id !in missing;
        assert id in MapOf(packages, PackageId);
        var i :| 0 <= i < |packages| && PackageId(packages[i]) == id;
        assert packages[i].id == id;
      }
    } else {
      var id :| id in missing;
      assert Needed(nodes, workspace, id);
      forall i | 0 <= i < |packages|
        ensures packages[i].id != id
      {
        assert PackageId(packages[i]) in MapOf(packages, PackageId);
      }
    }
  }

  function NodeId(n: Node): string { n.id }

  function PackageId(p: Package): string { p.id }

  // ---- The process census ----------------------------------------------------------------------

  const MAX_DESCENDANT_PROCESSES: nat := 1024

  datatype Process = Process(id: nat)

  /** More processes than the ceiling allows really descend from `parent`. */
  ghost predicate TooMany(directChildren: Process -> set<Process>, parent: Process) {
    exists seen: set<Process> ::
      |seen| > MAX_DESCENDANT_PROCESSES && forall p :: p in seen ==> Descends(directChildren, parent, p)
  }

  ghost predicate Descends(directChildren: Process -> set<Process>, parent: Process, p: Process) {
    Reachable(Roots(directChildren(parent)), directChildren, p)
  }

  /**
   * With the process table held still, the census returns exactly the processes that descend from
   * `parent`, and refuses exactly when there are more of them than the ceiling.
   */
  method LinuxDescendants(directChildren: Process -> set<Process>, parent: Process) returns (r: Option<set<Process>>)
    ensures r.Some? ==> |r.value| <= MAX_DESCENDANT_PROCESSES
    ensures r.Some? ==> forall p :: p in r.value <==> Descends(directChildren, parent, p)
    ensures r.None? <==> TooMany(directChildren, parent)
  {
    ghost var roots := Roots(directChildren(parent));
    var descendants: set<Process> := {};
    var pending := Sets.ListSet(directChildren(parent));
    WorklistStart(roots, directChildren, pending);
    while pending != []
      invariant |descendants| <= MAX_DESCENDANT_PROCESSES
      invariant Worklist(roots, directChildren, descendants, pending)
      decreases MAX_DESCENDANT_PROCESSES - |descendants|, |pending|
    {
      var child, rest := pending[|pending| - 1], pending[..|pending| - 1];
      LastPending(pending);
      if child in descendants {
        WorklistSkip(roots, directChildren, descendants, rest, child);
        pending := rest;
        continue;
      }
      ghost var before := descendants;
      descendants := descendants + {child};
      if |descendants| > MAX_DESCENDANT_PROCESSES {
        SeenTooMany(directChildren, parent, descendants);
        return None;
      }
      var more := Sets.ListSet(directChildren(child) - descendants);
      WorklistExpand(roots, directChildren, before, rest, child, more);
      pending := rest + more;
    }
    WorklistDone(roots, directChildren, descendants);
    NotTooMany(directChildren, parent, descendants);
    return Some(descendants);
  }

  lemma SeenTooMany(directChildren: Process -> set<Process>, parent: Process, seen: set<Process>)
    requires |seen| > MAX_DESCENDANT_PROCESSES
    requires forall p :: p in seen ==> Reachable(Roots(directChildren(parent)), directChildren, p)
    ensures TooMany(directChildren, parent)
  {
    assert forall p :: p in seen ==> Descends(directChildren, parent, p);
  }

  lemma NotTooMany(directChildren: Process -> set<Process>, parent: Process, all: set<Process>)
    requires |all| <= MAX_DESCENDANT_PROCESSES
    requires forall p :: Descends(directChildren, parent, p) ==> p in all
    ensures !TooMany(directChildren, parent)
  {
    forall seen: set<Process> | forall p :: p in seen ==> Descends(directChildren, parent, p)
      ensures |seen| <= MAX_DESCENDANT_PROCESSES
    {
      SubsetCount(seen, all);
    }
  }

  lemma {:induction false} SubsetCount<T>(a: set<T>, b: set<T>)
    requires a <= b
    ensures |a| <= |b|
  {
    if a != {} {
      var x :| x in a;
      SubsetCount(a - {x}, b - {x});
    }
  }
}
