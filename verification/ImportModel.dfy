/** What the import planner reads, the order-free condition under which it accepts, and what it plans. */
module ImportModel {
  import opened Gathering

  const MAX_IMPORT_ENTRIES: nat := 100000
  const MAX_IMPORT_FILES: nat := 100000
  const MAX_IMPORT_DEPTH: nat := 128
  const MAX_IMPORT_PATH_BYTES: nat := 32 * 1024 * 1024
  const MAX_IMPORT_PLAINTEXT_BYTES: nat := 256 * 1024 * 1024
  const MAX_PLAINTEXT_LEN: nat := 16 * 1024 * 1024

  datatype Option<T> = None | Some(value: T)

  type Path = seq<string>

  /** A normalised logical path, or its case-fold key. */
  datatype Logical = Logical(text: string)

  datatype Key = Key(text: string)

  datatype Kind = DirectoryEntry | FileEntry(content: string) | OtherEntry

  datatype Entry = Entry(path: Path, kind: Kind)

  /** The parts of the planner that come from elsewhere: paths, normalisation, case folding, digests, order. */
  datatype Rules = Rules(
    pathLength: Path -> nat, text: Path -> Option<string>, markdown: Path -> bool,
    parseDir: string -> Option<Logical>, parseFile: string -> Option<Logical>, fold: Logical -> Key,
    ciphertext: Logical -> Option<string>, utf8: string -> bool, digest: string -> string,
    components: Logical -> nat, before: (Logical, Logical) -> bool)

  datatype PlannedDirectory = PlannedDirectory(source: Path, logical: Logical)

  datatype PlannedFile = PlannedFile(source: Path, logical: Logical, bytes: nat, digest: string)

  predicate Skipped(r: Rules, e: Entry) {
    e.kind.FileEntry? && !r.markdown(e.path)
  }

  predicate IsMarkdown(r: Rules, e: Entry) {
    e.kind.FileEntry? && r.markdown(e.path)
  }

  /** The normalised logical path of a directory or Markdown file. */
  function LogicalOf(r: Rules, e: Entry): Option<Logical> {
    if Skipped(r, e) || e.kind.OtherEntry? || r.text(e.path).None? then None
    else if e.kind.DirectoryEntry? then r.parseDir(r.text(e.path).value)
    else r.parseFile(r.text(e.path).value)
  }

  /** The path the entry takes in the vault: ciphertext for a file. */
  function PhysicalOf(r: Rules, e: Entry): Option<Logical> {
    var logical := LogicalOf(r, e);
    if logical.None? then None
    else if e.kind.DirectoryEntry? then r.parseDir(logical.value.text)
    else if r.ciphertext(logical.value).None? then None
    else r.parseDir(r.ciphertext(logical.value).value)
  }

  /** The checks that look at one entry alone. */
  predicate LocalOk(r: Rules, e: Entry) {
    && |e.path| <= MAX_IMPORT_DEPTH && !e.kind.OtherEntry?
    && (Skipped(r, e) || (LogicalOf(r, e).Some? && PhysicalOf(r, e).Some?))
    && (IsMarkdown(r, e) ==> |e.kind.content| <= MAX_PLAINTEXT_LEN && r.utf8(e.kind.content))
  }

  // ---- Contributions of one entry ----------------------------------------------------------------

  function FileCount(r: Rules): Entry -> nat {
    (e: Entry) => if IsMarkdown(r, e) then 1 else 0
  }

  function DirectoryCount(): Entry -> nat {
    (e: Entry) => if e.kind.DirectoryEntry? then 1 else 0
  }

  function SkippedCount(r: Rules): Entry -> nat {
    (e: Entry) => if Skipped(r, e) then 1 else 0
  }

  function PathBytes(r: Rules): Entry -> nat {
    (e: Entry) => r.pathLength(e.path)
  }

  function PlaintextBytes(r: Rules): Entry -> nat {
    (e: Entry) => if IsMarkdown(r, e) then |e.kind.content| else 0
  }

  /** Entries whose logical path differs from their source text. */
  function NormalizedCount(r: Rules): Entry -> nat {
    (e: Entry) =>
      if LogicalOf(r, e).Some? && r.text(e.path) != Some(LogicalOf(r, e).value.text) then 1 else 0
  }

  function Keyed(r: Rules, path: Option<Logical>): multiset<Key> {
    if path.Some? then multiset{r.fold(path.value)} else multiset{}
  }

  function LogicalKeys(r: Rules): Entry -> multiset<Key> {
    (e: Entry) => Keyed(r, LogicalOf(r, e))
  }

  function PhysicalKeys(r: Rules): Entry -> multiset<Key> {
    (e: Entry) => Keyed(r, PhysicalOf(r, e))
  }

  function DirectoriesOf(r: Rules): Entry -> multiset<PlannedDirectory> {
    (e: Entry) =>
      if e.kind.DirectoryEntry? && LogicalOf(r, e).Some?
      then multiset{PlannedDirectory(e.path, LogicalOf(r, e).value)} else multiset{}
  }

  function FilesOf(r: Rules): Entry -> multiset<PlannedFile> {
    (e: Entry) =>
      if IsMarkdown(r, e) && LogicalOf(r, e).Some?
      then multiset{PlannedFile(e.path, LogicalOf(r, e).value, |e.kind.content|, r.digest(e.kind.content))}
      else multiset{}
  }

  /** The totals and collisions, in terms of the entries in any order. */
  ghost predicate WithinTotals(r: Rules, es: seq<Entry>) {
    && |es| <= MAX_IMPORT_ENTRIES
    && Sum(es, PathBytes(r)) <= MAX_IMPORT_PATH_BYTES
    && Sum(es, FileCount(r)) <= MAX_IMPORT_FILES
    && Sum(es, PlaintextBytes(r)) <= MAX_IMPORT_PLAINTEXT_BYTES
    && KeysOnce(r, es)
  }

  ghost predicate Acceptable(r: Rules, es: seq<Entry>) {
    WithinTotals(r, es) && forall e :: e in es ==> LocalOk(r, e)
  }

  lemma TotalsPermute(r: Rules, es: seq<Entry>, fs: seq<Entry>)
    requires multiset(es) == multiset(fs)
    ensures WithinTotals(r, es) <==> WithinTotals(r, fs)
  {
    assert |multiset(es)| == |multiset(fs)|;
    SumPermutes(es, fs, PathBytes(r));
    SumPermutes(es, fs, FileCount(r));
    SumPermutes(es, fs, PlaintextBytes(r));
    GatherPermutes(es, fs, LogicalKeys(r));
    GatherPermutes(es, fs, PhysicalKeys(r));
  }

  lemma SameElements<T>(xs: seq<T>, ys: seq<T>, x: T)
    requires multiset(xs) == multiset(ys)
    ensures x in xs <==> x in ys
  {
    assert x in xs <==> x in multiset(xs);
    assert x in ys <==> x in multiset(ys);
  }

  /** Acceptance does not depend on the order of the entries. */
  lemma AcceptablePermutes(r: Rules, es: seq<Entry>, fs: seq<Entry>)
    requires multiset(es) == multiset(fs)
    ensures Acceptable(r, es) <==> Acceptable(r, fs)
  {
    TotalsPermute(r, es, fs);
    forall e
      ensures e in es <==> e in fs
    {
      SameElements(es, fs, e);
    }
  }

  // ---- The running state -------------------------------------------------------------------------

  datatype Progress = Progress(
    directories: seq<PlannedDirectory>, files: seq<PlannedFile>,
    logicalNames: set<Key>, physicalNames: set<Key>,
    inspected: nat, pathBytes: nat, plaintextBytes: nat, skipped: nat, normalized: nat)

  const NOTHING: Progress := Progress([], [], {}, {}, 0, 0, 0, 0, 0)

  /** What the next entry is checked against. */
  predicate Fits(r: Rules, p: Progress, e: Entry) {
    && LocalOk(r, e)
    && p.inspected < MAX_IMPORT_ENTRIES && p.pathBytes + r.pathLength(e.path) <= MAX_IMPORT_PATH_BYTES
    && KeysFit(r, p, e)
    && (IsMarkdown(r, e) ==>
          |p.files| < MAX_IMPORT_FILES && p.plaintextBytes + |e.kind.content| <= MAX_IMPORT_PLAINTEXT_BYTES)
  }

  function Counted(r: Rules, p: Progress, e: Entry): Progress {
    p.(inspected := p.inspected + 1, pathBytes := p.pathBytes + r.pathLength(e.path))
  }

  function WithKeys(r: Rules, p: Progress, e: Entry): Progress
    requires LogicalOf(r, e).Some? && PhysicalOf(r, e).Some?
  {
    p.(logicalNames := p.logicalNames + {r.fold(LogicalOf(r, e).value)},
       physicalNames := p.physicalNames + {r.fold(PhysicalOf(r, e).value)},
       normalized := p.normalized + NormalizedCount(r)(e))
  }

  function Absorbed(r: Rules, p: Progress, e: Entry): Progress
    requires LocalOk(r, e)
  {
    var q := Counted(r, p, e);
    if Skipped(r, e) then q.(skipped := q.skipped + 1)
    else
      var k := WithKeys(r, q, e);
      var logical := LogicalOf(r, e).value;
      if e.kind.DirectoryEntry? then k.(directories := k.directories + [PlannedDirectory(e.path, logical)])
      else
        k.(files := k.files + [PlannedFile(e.path, logical, |e.kind.content|, r.digest(e.kind.content))],
           plaintextBytes := k.plaintextBytes + |e.kind.content|)
  }

  /** The state after the entries in this order, unless one of them is refused. */
  function AbsorbAll(r: Rules, es: seq<Entry>): Option<Progress> {
    if es == [] then Some(NOTHING)
    else
      var before := AbsorbAll(r, es[..|es| - 1]);
      var e := es[|es| - 1];
      if before.None? || !Fits(r, before.value, e) then None else Some(Absorbed(r, before.value, e))
  }

  // ---- The state is made of the totals -----------------------------------------------------------

  predicate Tallies(r: Rules, p: Progress, es: seq<Entry>) {
    && p.inspected == |es| && p.pathBytes == Sum(es, PathBytes(r)) && p.plaintextBytes == Sum(es, PlaintextBytes(r))
    && |p.files| == Sum(es, FileCount(r)) && |p.directories| == Sum(es, DirectoryCount())
    && p.skipped == Sum(es, SkippedCount(r)) && p.normalized == Sum(es, NormalizedCount(r))
  }

  predicate Plans(r: Rules, p: Progress, es: seq<Entry>) {
    multiset(p.directories) == Gather(es, DirectoriesOf(r)) && multiset(p.files) == Gather(es, FilesOf(r))
  }

  ghost predicate SameKeys(names: set<Key>, bag: multiset<Key>) {
    forall k :: k in names <==> k in bag
  }

  ghost predicate Remembers(r: Rules, p: Progress, es: seq<Entry>) {
    SameKeys(p.logicalNames, Gather(es, LogicalKeys(r))) && SameKeys(p.physicalNames, Gather(es, PhysicalKeys(r)))
  }

  lemma TalliesStep(r: Rules, p: Progress, es: seq<Entry>, e: Entry)
    requires Tallies(r, p, es) && LocalOk(r, e)
    ensures Tallies(r, Absorbed(r, p, e), es + [e])
  {
    SumAppends(es, [e], PathBytes(r));
    SumAppends(es, [e], PlaintextBytes(r));
    SumAppends(es, [e], FileCount(r));
    SumAppends(es, [e], DirectoryCount());
    SumAppends(es, [e], SkippedCount(r));
    SumAppends(es, [e], NormalizedCount(r));
  }

  lemma GatherOne<U>(es: seq<Entry>, e: Entry, image: Entry -> multiset<U>)
    ensures Gather(es + [e], image) == Gather(es, image) + image(e)
  {
    GatherAppends(es, [e], image);
    assert Gather([e], image) == image(e) + Gather([e][1..], image);
  }

  lemma KeysOf(r: Rules, e: Entry)
    requires LocalOk(r, e)
    ensures Skipped(r, e) ==> LogicalKeys(r)(e) == multiset{}
    ensures Skipped(r, e) ==> PhysicalKeys(r)(e) == multiset{}
    ensures !Skipped(r, e) ==> LogicalOf(r, e).Some? && LogicalKeys(r)(e) == multiset{r.fold(LogicalOf(r, e).value)}
    ensures !Skipped(r, e) ==> PhysicalOf(r, e).Some? && PhysicalKeys(r)(e) == multiset{r.fold(PhysicalOf(r, e).value)}
  {
  }

  lemma ListGrows<T>(xs: seq<T>, x: T, es: seq<Entry>, e: Entry, image: Entry -> multiset<T>)
    requires multiset(xs) == Gather(es, image)
    ensures image(e) == multiset{x} ==> multiset(xs + [x]) == Gather(es + [e], image)
    ensures image(e) == multiset{} ==> multiset(xs) == Gather(es + [e], image)
  {
    GatherOne(es, e, image);
  }

  lemma PlansStep(r: Rules, p: Progress, es: seq<Entry>, e: Entry)
    requires Plans(r, p, es) && LocalOk(r, e)
    ensures Plans(r, Absorbed(r, p, e), es + [e])
  {
    if Skipped(r, e) {
      GatherOne(es, e, DirectoriesOf(r));
      GatherOne(es, e, FilesOf(r));
    } else {
      var logical := LogicalOf(r, e).value;
      ListGrows(p.directories, PlannedDirectory(e.path, logical), es, e, DirectoriesOf(r));
      if e.kind.FileEntry? {
        var file := PlannedFile(e.path, logical, |e.kind.content|, r.digest(e.kind.content));
        ListGrows(p.files, file, es, e, FilesOf(r));
      } else {
        GatherOne(es, e, FilesOf(r));
      }
    }
  }

  lemma KeyAdded(names: set<Key>, es: seq<Entry>, e: Entry, image: Entry -> multiset<Key>, k: Key)
    requires SameKeys(names, Gather(es, image)) && image(e) == multiset{k}
    ensures SameKeys(names + {k}, Gather(es + [e], image))
  {
    GatherOne(es, e, image);
  }

  lemma NamesAbsorbed(r: Rules, p: Progress, e: Entry)
    requires LocalOk(r, e)
    ensures Skipped(r, e) ==>
      Absorbed(r, p, e).logicalNames == p.logicalNames && Absorbed(r, p, e).physicalNames == p.physicalNames
    ensures !Skipped(r, e) ==>
      Absorbed(r, p, e).logicalNames == p.logicalNames + {r.fold(LogicalOf(r, e).value)}
      && Absorbed(r, p, e).physicalNames == p.physicalNames + {r.fold(PhysicalOf(r, e).value)}
  {
  }

  lemma RemembersStep(r: Rules, p: Progress, es: seq<Entry>, e: Entry)
    requires Remembers(r, p, es) && LocalOk(r, e)
    ensures Remembers(r, Absorbed(r, p, e), es + [e])
  {
    KeysOf(r, e);
    NamesAbsorbed(r, p, e);
    if Skipped(r, e) {
      GatherOne(es, e, LogicalKeys(r));
      GatherOne(es, e, PhysicalKeys(r));
    } else {
      KeyAdded(p.logicalNames, es, e, LogicalKeys(r), r.fold(LogicalOf(r, e).value));
      KeyAdded(p.physicalNames, es, e, PhysicalKeys(r), r.fold(PhysicalOf(r, e).value));
    }
  }

  lemma OnceGrows(es: seq<Entry>, e: Entry, image: Entry -> multiset<Key>, k: Key)
    requires image(e) == multiset{k}
    ensures Once(Gather(es + [e], image)) <==> Once(Gather(es, image)) && k !in Gather(es, image)
  {
    GatherOne(es, e, image);
    var before, after := Gather(es, image), Gather(es + [e], image);
    if Once(after) {
      assert after[k] <= 1;
      forall u
        ensures before[u] <= 1
      {
        assert after[u] <= 1;
      }
    }
  }

  lemma OnceStays(es: seq<Entry>, e: Entry, image: Entry -> multiset<Key>)
    requires image(e) == multiset{}
    ensures Once(Gather(es + [e], image)) <==> Once(Gather(es, image))
  {
    GatherOne(es, e, image);
    assert Gather(es + [e], image) == Gather(es, image);
  }

  /** Whether the keys of the next entry are new, and whether its sizes still fit. */
  predicate KeysFit(r: Rules, p: Progress, e: Entry) {
    && (LogicalOf(r, e).Some? ==> r.fold(LogicalOf(r, e).value) !in p.logicalNames)
    && (PhysicalOf(r, e).Some? ==> r.fold(PhysicalOf(r, e).value) !in p.physicalNames)
  }

  ghost predicate KeysOnce(r: Rules, es: seq<Entry>) {
    Once(Gather(es, LogicalKeys(r))) && Once(Gather(es, PhysicalKeys(r)))
  }

  lemma KeysStep(r: Rules, p: Progress, es: seq<Entry>, e: Entry)
    requires Remembers(r, p, es) && LocalOk(r, e)
    ensures KeysOnce(r, es + [e]) <==> KeysOnce(r, es) && KeysFit(r, p, e)
  {
    KeysOf(r, e);
    if Skipped(r, e) {
      OnceStays(es, e, LogicalKeys(r));
      OnceStays(es, e, PhysicalKeys(r));
    } else {
      OnceGrows(es, e, LogicalKeys(r), r.fold(LogicalOf(r, e).value));
      OnceGrows(es, e, PhysicalKeys(r), r.fold(PhysicalOf(r, e).value));
    }
  }

  /** One more entry is acceptable exactly if it fits the state reached so far. */
  lemma AcceptableStep(r: Rules, p: Progress, es: seq<Entry>, e: Entry)
    requires Tallies(r, p, es) && Remembers(r, p, es) && LocalOk(r, e)
    ensures WithinTotals(r, es + [e]) <==> WithinTotals(r, es) && Fits(r, p, e)
  {
    KeysStep(r, p, es, e);
    SumAppends(es, [e], PathBytes(r));
    SumAppends(es, [e], PlaintextBytes(r));
    SumAppends(es, [e], FileCount(r));
  }

  /** The entries are taken in this order without an error exactly if they are acceptable in any order. */
  lemma {:induction false} AbsorbsIffAcceptable(r: Rules, es: seq<Entry>)
    ensures AbsorbAll(r, es).Some? <==> Acceptable(r, es)
    ensures AbsorbAll(r, es).Some? ==>
      Tallies(r, AbsorbAll(r, es).value, es) && Plans(r, AbsorbAll(r, es).value, es)
      && Remembers(r, AbsorbAll(r, es).value, es)
  {
    if es != [] {
      var before, e := es[..|es| - 1], es[|es| - 1];
      assert es == before + [e];
      AbsorbsIffAcceptable(r, before);
      AcceptableSplits(r, before, e);
      if AbsorbAll(r, before).Some? && LocalOk(r, e) {
        var p := AbsorbAll(r, before).value;
        AcceptableStep(r, p, before, e);
        TalliesStep(r, p, before, e);
        PlansStep(r, p, before, e);
        RemembersStep(r, p, before, e);
      }
    }
  }

  lemma AcceptableSplits(r: Rules, es: seq<Entry>, e: Entry)
    ensures Acceptable(r, es + [e]) ==> Acceptable(r, es) && LocalOk(r, e)
    ensures Acceptable(r, es) && LocalOk(r, e) && WithinTotals(r, es + [e]) ==> Acceptable(r, es + [e])
  {
    assert forall f :: f in es + [e] <==> f in es || f == e;
    SumAppends(es, [e], PathBytes(r));
    SumAppends(es, [e], PlaintextBytes(r));
    SumAppends(es, [e], FileCount(r));
    GatherOne(es, e, LogicalKeys(r));
    GatherOne(es, e, PhysicalKeys(r));
    if WithinTotals(r, es + [e]) {
      OnceShrinks(Gather(es, LogicalKeys(r)), Gather(es + [e], LogicalKeys(r)));
      OnceShrinks(Gather(es, PhysicalKeys(r)), Gather(es + [e], PhysicalKeys(r)));
    }
  }

  lemma OnceShrinks(small: multiset<Key>, large: multiset<Key>)
    requires small <= large && Once(large)
    ensures Once(small)
  {
    forall k
      ensures small[k] <= 1
    {
      assert small[k] <= large[k] <= 1;
    }
  }
}
