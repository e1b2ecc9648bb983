/** The import scan: a worklist over the source tree that keeps plans, key sets and counters. */
module ImportScan {
  import opened Gathering
  import opened ImportModel

  /** The source tree, with the children of a directory in the order the file system lists them. */
  datatype Node = Directory(children: seq<Child>) | File(content: string) | Other

  datatype Child = Child(name: string, node: Node)

  datatype Pending = Pending(path: Path, children: seq<Child>)

  function EntryOf(path: Path, c: Child): Entry {
    Entry(path + [c.name],
      match c.node
      case Directory(_) => DirectoryEntry
      case File(content) => FileEntry(content)
      case Other => OtherEntry)
  }

  /** Everything below a directory, each entry before what is below it. */
  function Inventory(path: Path, cs: seq<Child>): seq<Entry>
    decreases cs
  {
    if cs == [] then [] else [EntryOf(path, cs[0])] + Below(path, cs[0]) + Inventory(path, cs[1..])
  }

  function Below(path: Path, c: Child): seq<Entry>
    decreases c
  {
    match c.node case Directory(inner) => Inventory(path + [c.name], inner) case _ => []
  }

  function Listed(path: Path, cs: seq<Child>): seq<Entry> {
    seq(|cs|, i requires 0 <= i < |cs| => EntryOf(path, cs[i]))
  }

  function Subdirectory(path: Path, c: Child): seq<Pending> {
    if c.node.Directory? then [Pending(path + [c.name], c.node.children)] else []
  }

  function Subdirectories(path: Path, cs: seq<Child>): seq<Pending> {
    if cs == [] then [] else Subdirectory(path, cs[0]) + Subdirectories(path, cs[1..])
  }

  function InventoryAll(pending: seq<Pending>): seq<Entry> {
    if pending == [] then [] else Inventory(pending[0].path, pending[0].children) + InventoryAll(pending[1..])
  }

  /** The work left: the directories on the stack and all entries below them. */
  function Work(pending: seq<Pending>): nat {
    |pending| + |InventoryAll(pending)|
  }

  lemma Associates<T>(a: seq<T>, b: seq<T>, c: seq<T>)
    ensures a + b + c == a + (b + c)
  {
  }

  lemma {:induction false} InventoryAllAppends(ps: seq<Pending>, qs: seq<Pending>)
    ensures InventoryAll(ps + qs) == InventoryAll(ps) + InventoryAll(qs)
  {
    if ps == [] {
      assert ps + qs == qs;
    } else {
      InventoryAllAppends(ps[1..], qs);
      assert (ps + qs)[1..] == ps[1..] + qs;
      Associates(Inventory(ps[0].path, ps[0].children), InventoryAll(ps[1..]), InventoryAll(qs));
    }
  }

  lemma {:induction false} SubdirectoriesAppend(path: Path, cs: seq<Child>, ds: seq<Child>)
    ensures Subdirectories(path, cs + ds) == Subdirectories(path, cs) + Subdirectories(path, ds)
  {
    if cs == [] {
      assert cs + ds == ds;
    } else {
      SubdirectoriesAppend(path, cs[1..], ds);
      assert (cs + ds)[1..] == cs[1..] + ds;
      Associates(Subdirectory(path, cs[0]), Subdirectories(path, cs[1..]), Subdirectories(path, ds));
    }
  }

  lemma SubdirectoriesSnoc(path: Path, cs: seq<Child>, i: nat)
    requires i < |cs|
    ensures Subdirectories(path, cs[..i + 1]) == Subdirectories(path, cs[..i]) + Subdirectory(path, cs[i])
  {
    SubdirectoriesAppend(path, cs[..i], [cs[i]]);
    assert cs[..i + 1] == cs[..i] + [cs[i]];
    assert Subdirectories(path, [cs[i]]) == Subdirectory(path, cs[i]) + Subdirectories(path, [cs[i]][1..]);
  }

  lemma InventoryOne(p: Pending)
    ensures InventoryAll([p]) == Inventory(p.path, p.children)
  {
    assert InventoryAll([p]) == Inventory(p.path, p.children) + InventoryAll([p][1..]);
  }

  lemma SubdirectoryInventory(path: Path, c: Child)
    ensures InventoryAll(Subdirectory(path, c)) == Below(path, c) && |Subdirectory(path, c)| <= 1
  {
    if c.node.Directory? {
      InventoryOne(Pending(path + [c.name], c.node.children));
    }
  }

  /** A directory is its own entries and what its subdirectories hold. */
  lemma {:induction false} InventorySplits(path: Path, cs: seq<Child>)
    ensures Parts(Inventory(path, cs), Listed(path, cs), InventoryAll(Subdirectories(path, cs)))
  {
    if cs != [] {
      var one, rest := [EntryOf(path, cs[0])], cs[1..];
      InventorySplits(path, rest);
      SubdirectoryInventory(path, cs[0]);
      InventoryAllAppends(Subdirectory(path, cs[0]), Subdirectories(path, rest));
      assert Listed(path, cs) == one + Listed(path, rest);
      PartsGrow(
        one, Below(path, cs[0]), Inventory(path, rest), Listed(path, rest), InventoryAll(Subdirectories(path, rest)));
    }
  }

  lemma {:induction false} FewSubdirectories(path: Path, cs: seq<Child>)
    ensures |Subdirectories(path, cs)| <= |cs|
  {
    if cs != [] {
      FewSubdirectories(path, cs[1..]);
    }
  }

  /** Taking a directory off the stack: its own entries are taken, its subdirectories go on the stack. */
  lemma TopSplits(rest: seq<Pending>, p: Pending)
    ensures Parts(InventoryAll(rest + [p]), Listed(p.path, p.children),
      InventoryAll(rest + Subdirectories(p.path, p.children)))
  {
    InventoryAllAppends(rest, [p]);
    InventoryAllAppends(rest, Subdirectories(p.path, p.children));
    InventoryOne(p);
    InventorySplits(p.path, p.children);
    PartsUnder(InventoryAll(rest), Inventory(p.path, p.children), Listed(p.path, p.children),
      InventoryAll(Subdirectories(p.path, p.children)));
  }

  lemma WorkShrinks(rest: seq<Pending>, p: Pending)
    ensures Work(rest + Subdirectories(p.path, p.children)) < Work(rest + [p])
  {
    TopSplits(rest, p);
    FewSubdirectories(p.path, p.children);
    PartsLength(InventoryAll(rest + [p]), Listed(p.path, p.children),
      InventoryAll(rest + Subdirectories(p.path, p.children)));
  }

  // ---- The scan ----------------------------------------------------------------------------------

  lemma {:induction false} RefusedPrefix(r: Rules, es: seq<Entry>, fs: seq<Entry>)
    requires AbsorbAll(r, es).None?
    ensures AbsorbAll(r, es + fs).None?
  {
    if fs == [] {
      assert es + fs == es;
    } else {
      RefusedPrefix(r, es, fs[..|fs| - 1]);
      assert (es + fs)[..|es + fs| - 1] == es + fs[..|fs| - 1];
    }
  }

  lemma AbsorbOne(r: Rules, es: seq<Entry>, e: Entry)
    ensures AbsorbAll(r, es).None? ==> AbsorbAll(r, es + [e]).None?
    ensures AbsorbAll(r, es).Some? ==>
      AbsorbAll(r, es + [e]) ==
        if Fits(r, AbsorbAll(r, es).value, e) then Some(Absorbed(r, AbsorbAll(r, es).value, e)) else None
  {
    assert (es + [e])[..|es|] == es;
  }

  lemma ListedStep(path: Path, children: seq<Child>, i: nat)
    requires i < |children|
    ensures Listed(path, children[..i + 1]) == Listed(path, children[..i]) + [EntryOf(path, children[i])]
    ensures Subdirectories(path, children[..i + 1])
      == Subdirectories(path, children[..i]) + Subdirectory(path, children[i])
  {
    SubdirectoriesSnoc(path, children, i);
  }

  lemma RefusedEntry(r: Rules, taken: seq<Entry>, path: Path, children: seq<Child>, i: nat)
    requires i < |children|
    requires AbsorbAll(r, taken + Listed(path, children[..i]) + [EntryOf(path, children[i])]).None?
    ensures AbsorbAll(r, taken + Listed(path, children)).None?
  {
    var first := taken + Listed(path, children[..i]) + [EntryOf(path, children[i])];
    RefusedPrefix(r, first, Listed(path, children[i + 1..]));
    assert first + Listed(path, children[i + 1..]) == taken + Listed(path, children);
  }

  class LinuxScanState {
    const rules: Rules
    var pending: seq<Pending>
    var directories: seq<PlannedDirectory>
    var files: seq<PlannedFile>
    var logicalNames: set<Key>
    var physicalNames: set<Key>
    var inspectedEntries: nat
    var inspectedPathBytes: nat
    var totalPlaintextBytes: nat
    var skippedNonMarkdown: nat
    var normalizedEntries: nat
    ghost var taken: seq<Entry>

    constructor (rules: Rules, root: seq<Child>)
      ensures this.rules == rules && pending == [Pending([], root)] && taken == [] && View() == NOTHING
    {
      this.rules := rules;
      pending, directories, files := [Pending([], root)], [], [];
      logicalNames, physicalNames := {}, {};
      inspectedEntries, inspectedPathBytes, totalPlaintextBytes := 0, 0, 0;
      skippedNonMarkdown, normalizedEntries := 0, 0;
      taken := [];
    }

    function View(): Progress
      reads this
    {
      Progress(directories, files, logicalNames, physicalNames, inspectedEntries, inspectedPathBytes,
        totalPlaintextBytes, skippedNonMarkdown, normalizedEntries)
    }

    method RegisterLogical(key: Key) returns (ok: bool)
      modifies `logicalNames
      ensures ok <==> key !in old(logicalNames)
      ensures logicalNames == old(logicalNames) + {key}
    {
      ok := key !in logicalNames;
      logicalNames := logicalNames + {key};
    }

    method RegisterPhysical(path: string) returns (ok: bool)
      modifies `physicalNames
      ensures ok <==> rules.parseDir(path).Some? && rules.fold(rules.parseDir(path).value) !in old(physicalNames)
      ensures ok ==> physicalNames == old(physicalNames) + {rules.fold(rules.parseDir(path).value)}
    {
      var parsed := rules.parseDir(path);
      if parsed.None? {
        return false;
      }
      ok := rules.fold(parsed.value) !in physicalNames;
      physicalNames := physicalNames + {rules.fold(parsed.value)};
    }

    /** One directory entry: the shared limits, then what its kind asks for. */
    method InspectEntry(path: Path, c: Child) returns (ok: bool)
      modifies this
      ensures ok <==> Fits(rules, old(View()), EntryOf(path, c))
      ensures ok ==> View() == Absorbed(rules, old(View()), EntryOf(path, c))
      ensures ok ==> pending == old(pending) + Subdirectory(path, c) && taken == old(taken) + [EntryOf(path, c)]
    {
      var relative := path + [c.name];
      inspectedEntries := inspectedEntries + 1;
      if inspectedEntries > MAX_IMPORT_ENTRIES || |relative| > MAX_IMPORT_DEPTH {
        return false;
      }
      inspectedPathBytes := inspectedPathBytes + rules.pathLength(relative);
      if inspectedPathBytes > MAX_IMPORT_PATH_BYTES {
        return false;
      }
      match c.node {
        case Directory(inner) =>
          ok := InspectDirectory(relative);
          if ok {
            pending := pending + [Pending(relative, inner)];
          }
        case File(content) =>
          ok := InspectFile(relative, content);
        case Other =>
          return false;
      }
      taken := taken + [EntryOf(path, c)];
    }

    /** The shared checks are done and counted; `Before` takes the count back. */
    function Before(path: Path): Progress
      reads this
      requires inspectedEntries > 0 && inspectedPathBytes >= rules.pathLength(path)
    {
      View().(inspected := inspectedEntries - 1, pathBytes := inspectedPathBytes - rules.pathLength(path))
    }

    method InspectDirectory(relative: Path) returns (ok: bool)
      requires inspectedEntries > 0 && inspectedPathBytes >= rules.pathLength(relative)
      requires inspectedEntries <= MAX_IMPORT_ENTRIES && inspectedPathBytes <= MAX_IMPORT_PATH_BYTES
      requires |relative| <= MAX_IMPORT_DEPTH
      modifies `directories, `logicalNames, `physicalNames, `normalizedEntries
      ensures ok <==> Fits(rules, old(Before(relative)), Entry(relative, DirectoryEntry))
      ensures ok ==> View() == Absorbed(rules, old(Before(relative)), Entry(relative, DirectoryEntry))
    {
      var text := rules.text(relative);
      if text.None? {
        return false;
      }
      var logical := rules.parseDir(text.value);
      if logical.None? {
        return false;
      }
      ok := RegisterLogical(rules.fold(logical.value));
      if !ok {
        return;
      }
      ok := RegisterPhysical(logical.value.text);
      if !ok {
        return;
      }
      if logical.value.text != text.value {
        normalizedEntries := normalizedEntries + 1;
      }
      directories := directories + [PlannedDirectory(relative, logical.value)];
    }

    method InspectFile(relative: Path, content: string) returns (ok: bool)
      requires inspectedEntries > 0 && inspectedPathBytes >= rules.pathLength(relative)
      requires inspectedEntries <= MAX_IMPORT_ENTRIES && inspectedPathBytes <= MAX_IMPORT_PATH_BYTES
      requires |relative| <= MAX_IMPORT_DEPTH
      modifies `files, `logicalNames, `physicalNames, `normalizedEntries, `totalPlaintextBytes, `skippedNonMarkdown
      ensures ok <==> Fits(rules, old(Before(relative)), Entry(relative, FileEntry(content)))
      ensures ok ==> View() == Absorbed(rules, old(Before(relative)), Entry(relative, FileEntry(content)))
    {
      if !rules.markdown(relative) {
        skippedNonMarkdown := skippedNonMarkdown + 1;
        return true;
      }
      if |files| >= MAX_IMPORT_FILES {
        return false;
      }
      var text := rules.text(relative);
      if text.None? {
        return false;
      }
      var logical := rules.parseFile(text.value);
      if logical.None? {
        return false;
      }
      ok := RegisterLogical(rules.fold(logical.value));
      if !ok {
        return;
      }
      var ciphertext := rules.ciphertext(logical.value);
      if ciphertext.None? {
        return false;
      }
      ok := RegisterPhysical(ciphertext.value);
      if !ok {
        return;
      }
      if logical.value.text != text.value {
        normalizedEntries := normalizedEntries + 1;
      }
      if |content| > MAX_PLAINTEXT_LEN || !rules.utf8(content) {
        return false;
      }
      totalPlaintextBytes := totalPlaintextBytes + |content|;
      if totalPlaintextBytes > MAX_IMPORT_PLAINTEXT_BYTES {
        return false;
      }
      files := files + [PlannedFile(relative, logical.value, |content|, rules.digest(content))];
    }

    /** The entry joins those taken, or the scan cannot go on with it. */
    method TakeEntry(path: Path, c: Child) returns (ok: bool)
      requires AbsorbAll(rules, taken) == Some(View())
      modifies this
      ensures ok <==> AbsorbAll(rules, old(taken) + [EntryOf(path, c)]).Some?
      ensures ok ==> AbsorbAll(rules, taken) == Some(View()) && taken == old(taken) + [EntryOf(path, c)]
      ensures ok ==> pending == old(pending) + Subdirectory(path, c)
    {
      AbsorbOne(rules, taken, EntryOf(path, c));
      ok := InspectEntry(path, c);
    }

    /** All entries of one directory, in listing order. */
    method ScanDirectory(path: Path, children: seq<Child>) returns (ok: bool)
      requires AbsorbAll(rules, taken) == Some(View())
      modifies this
      ensures ok <==> AbsorbAll(rules, old(taken) + Listed(path, children)).Some?
      ensures ok ==> taken == old(taken) + Listed(path, children) && AbsorbAll(rules, taken) == Some(View())
      ensures ok ==> pending == old(pending) + Subdirectories(path, children)
    {
      ok := true;
      for i := 0 to |children|
        invariant taken == old(taken) + Listed(path, children[..i]) && AbsorbAll(rules, taken) == Some(View())
        invariant pending == old(pending) + Subdirectories(path, children[..i])
      {
        ListedStep(path, children, i);
        Associates(old(pending), Subdirectories(path, children[..i]), Subdirectory(path, children[i]));
        Associates(old(taken), Listed(path, children[..i]), [EntryOf(path, children[i])]);
        ok := TakeEntry(path, children[i]);
        if !ok {
          RefusedEntry(rules, old(taken), path, children, i);
          return;
        }
      }
      assert children[..|children|] == children;
    }

    /** One turn of the worklist: the directory on top of the stack. */
    method ScanNext(ghost all: seq<Entry>) returns (ok: bool)
      requires pending != [] && AbsorbAll(rules, taken) == Some(View())
      requires Parts(all, taken, InventoryAll(pending))
      modifies this
      ensures ok ==> AbsorbAll(rules, taken) == Some(View()) && Work(pending) < old(Work(pending))
      ensures ok ==> Parts(all, taken, InventoryAll(pending))
      ensures !ok ==> !Acceptable(rules, all)
    {
      var p := pending[|pending| - 1];
      ghost var rest := pending[..|pending| - 1];
      assert pending == rest + [p];
      WorkShrinks(rest, p);
      TopSplits(rest, p);
      PartsMove(all, taken, InventoryAll(pending), Listed(p.path, p.children),
        InventoryAll(rest + Subdirectories(p.path, p.children)));
      pending := pending[..|pending| - 1];
      ok := ScanDirectory(p.path, p.children);
      if !ok {
        StoppedScan(rules, all, old(taken) + Listed(p.path, p.children),
          InventoryAll(rest + Subdirectories(p.path, p.children)));
      }
    }

    /** The whole worklist: every entry of the tree is taken once, or the scan stops at a refused one. */
    method Run(ghost all: seq<Entry>) returns (ok: bool)
      requires taken == [] && View() == NOTHING && all == InventoryAll(pending)
      modifies this
      ensures ok <==> Acceptable(rules, all)
      ensures ok ==> multiset(all) == multiset(taken) && AbsorbAll(rules, taken) == Some(View())
    {
      assert forall e :: Count<Entry>([], e) == 0;
      while pending != []
        invariant AbsorbAll(rules, taken) == Some(View())
        invariant Parts(all, taken, InventoryAll(pending))
        decreases Work(pending)
      {
        ok := ScanNext(all);
        if !ok {
          return;
        }
      }
      PartsPermute(all, taken, []);
      assert taken + [] == taken;
      AbsorbsIffAcceptable(rules, taken);
      AcceptablePermutes(rules, taken, all);
      return true;
    }
  }

  lemma StoppedScan(r: Rules, all: seq<Entry>, stopped: seq<Entry>, left: seq<Entry>)
    requires Parts(all, stopped, left) && AbsorbAll(r, stopped).None?
    ensures !Acceptable(r, all)
  {
    RefusedPrefix(r, stopped, left);
    AbsorbsIffAcceptable(r, stopped + left);
    PartsPermute(all, stopped, left);
    AcceptablePermutes(r, stopped + left, all);
  }
}
