/** The acceptance condition of the import planner, spelled out entry by entry and pair by pair. */
module ImportMeaning {
  import opened Gathering
  import opened ImportModel

  /** What an entry must be on its own: shallow, of a known kind, with names that parse and text that fits. */
  predicate Permitted(r: Rules, e: Entry) {
    && |e.path| <= 128
    && match e.kind
       case OtherEntry => false
       case DirectoryEntry => PathsOfDirectory(r, e.path).Some?
       case FileEntry(content) =>
         r.markdown(e.path) ==>
           PathsOfFile(r, e.path).Some? && |content| <= 16 * 1024 * 1024 && r.utf8(content)
  }

  /** The logical path and the path in the vault of a directory: the same text, parsed and parsed again. */
  function PathsOfDirectory(r: Rules, path: Path): Option<(Logical, Logical)> {
    var text := r.text(path);
    if text.None? then None
    else
      var logical := r.parseDir(text.value);
      if logical.None? then None
      else
        var physical := r.parseDir(logical.value.text);
        if physical.None? then None else Some((logical.value, physical.value))
  }

  /** The logical path of a Markdown file, and the path of its ciphertext. */
  function PathsOfFile(r: Rules, path: Path): Option<(Logical, Logical)> {
    var text := r.text(path);
    if text.None? then None
    else
      var logical := r.parseFile(text.value);
      if logical.None? then None
      else
        var ciphertext := r.ciphertext(logical.value);
        if ciphertext.None? then None
        else
          var physical := r.parseDir(ciphertext.value);
          if physical.None? then None else Some((logical.value, physical.value))
  }

  function Paths(r: Rules, e: Entry): Option<(Logical, Logical)> {
    match e.kind
    case DirectoryEntry => PathsOfDirectory(r, e.path)
    case FileEntry(_) => if r.markdown(e.path) then PathsOfFile(r, e.path) else None
    case OtherEntry => None
  }

  /** Two entries would not meet: neither their logical names nor their vault paths fold to one key. */
  predicate Apart(r: Rules, d: Entry, e: Entry) {
    Paths(r, d).Some? && Paths(r, e).Some? ==>
      && r.fold(Paths(r, d).value.0) != r.fold(Paths(r, e).value.0)
      && r.fold(Paths(r, d).value.1) != r.fold(Paths(r, e).value.1)
  }

  datatype Totals = Totals(pathBytes: nat, files: nat, plaintext: nat)

  function TotalsOf(r: Rules, es: seq<Entry>): Totals {
    if es == [] then Totals(0, 0, 0)
    else
      var rest, e := TotalsOf(r, es[1..]), es[0];
      var paths := rest.pathBytes + r.pathLength(e.path);
      if e.kind.FileEntry? && r.markdown(e.path)
      then Totals(paths, rest.files + 1, rest.plaintext + |e.kind.content|)
      else rest.(pathBytes := paths)
  }

  predicate WithinLimits(r: Rules, es: seq<Entry>) {
    var totals := TotalsOf(r, es);
    && |es| <= 100_000 && totals.files <= 100_000
    && totals.pathBytes <= 32 * 1024 * 1024 && totals.plaintext <= 256 * 1024 * 1024
  }

  lemma {:induction false} TotalsAreSums(r: Rules, es: seq<Entry>)
    ensures TotalsOf(r, es) ==
      Totals(Sum(es, PathBytes(r)), Sum(es, FileCount(r)), Sum(es, PlaintextBytes(r)))
  {
    if es != [] {
      TotalsAreSums(r, es[1..]);
    }
  }

  // ---- Keys drawn once ---------------------------------------------------------------------------

  ghost predicate NoneShared(es: seq<Entry>, image: Entry -> multiset<Key>) {
    forall i, j :: 0 <= i < j < |es| ==> Disjoint(image(es[i]), image(es[j]))
  }

  ghost predicate Disjoint(a: multiset<Key>, b: multiset<Key>) {
    forall k :: k in a ==> k !in b
  }

  lemma {:induction false} OnceMeansNoneShared(es: seq<Entry>, image: Entry -> multiset<Key>)
    requires forall e :: Once(image(e))
    ensures Once(Gather(es, image)) <==> NoneShared(es, image)
  {
    if es != [] {
      var rest := es[1..];
      OnceMeansNoneShared(rest, image);
      HeadShared(es, image);
      assert NoneShared(es, image) <==> NoneShared(rest, image) && HeadApart(es, image) by {
        assert forall i :: 0 < i < |es| ==> es[i] == rest[i - 1];
      }
    }
  }

  ghost predicate HeadApart(es: seq<Entry>, image: Entry -> multiset<Key>)
    requires es != []
  {
    forall j :: 0 < j < |es| ==> Disjoint(image(es[0]), image(es[j]))
  }

  lemma LaterImage(es: seq<Entry>, image: Entry -> multiset<Key>, k: Key)
    requires es != []
    ensures k in Gather(es[1..], image) ==> exists j :: 0 < j < |es| && k in image(es[j])
  {
    if k in Gather(es[1..], image) {
      var j := GatherFrom(es[1..], image, k);
      assert k in image(es[j + 1]);
    }
  }

  lemma HeadShared(es: seq<Entry>, image: Entry -> multiset<Key>)
    requires es != [] && forall e :: Once(image(e))
    ensures Once(Gather(es, image)) <==> Once(Gather(es[1..], image)) && HeadApart(es, image)
  {
    var head, rest, all := image(es[0]), Gather(es[1..], image), Gather(es, image);
    assert all == head + rest;
    if Once(all) {
      forall k
        ensures rest[k] <= 1
      {
        assert all[k] <= 1;
      }
      forall j, k | 0 < j < |es| && k in head
        ensures k !in image(es[j])
      {
        assert all[k] <= 1;
        if k in image(es[j]) {
          GatherHas(es[1..], image, j - 1, k);
        }
      }
    }
    if Once(rest) && HeadApart(es, image) {
      forall k
        ensures all[k] <= 1
      {
        assert head[k] <= 1 && rest[k] <= 1;
        LaterImage(es, image, k);
      }
    }
  }

  lemma PathsAgree(r: Rules, e: Entry)
    ensures Permitted(r, e) <==> LocalOk(r, e)
    ensures Permitted(r, e) && Paths(r, e).Some? ==>
      LogicalOf(r, e) == Some(Paths(r, e).value.0) && PhysicalOf(r, e) == Some(Paths(r, e).value.1)
    ensures Permitted(r, e) && Paths(r, e).None? ==> LogicalOf(r, e).None? && PhysicalOf(r, e).None?
  {
  }

  lemma ApartMeansDisjoint(r: Rules, d: Entry, e: Entry)
    requires Permitted(r, d) && Permitted(r, e)
    ensures Apart(r, d, e) <==>
      Disjoint(LogicalKeys(r)(d), LogicalKeys(r)(e)) && Disjoint(PhysicalKeys(r)(d), PhysicalKeys(r)(e))
  {
    PathsAgree(r, d);
    PathsAgree(r, e);
    if Paths(r, d).Some? && Paths(r, e).Some? {
      assert r.fold(Paths(r, d).value.0) in LogicalKeys(r)(d) && r.fold(Paths(r, d).value.1) in PhysicalKeys(r)(d);
    }
  }

  ghost predicate AllApart(r: Rules, es: seq<Entry>) {
    forall i, j :: 0 <= i < j < |es| ==> Apart(r, es[i], es[j])
  }

  lemma KeysApart(r: Rules, es: seq<Entry>)
    requires forall e :: e in es ==> Permitted(r, e)
    ensures KeysOnce(r, es) <==> AllApart(r, es)
  {
    OnceMeansNoneShared(es, LogicalKeys(r));
    OnceMeansNoneShared(es, PhysicalKeys(r));
    forall i, j | 0 <= i < j < |es|
      ensures Apart(r, es[i], es[j]) <==>
        && Disjoint(LogicalKeys(r)(es[i]), LogicalKeys(r)(es[j]))
        && Disjoint(PhysicalKeys(r)(es[i]), PhysicalKeys(r)(es[j]))
    {
      ApartMeansDisjoint(r, es[i], es[j]);
    }
  }

  /** A tree is accepted exactly if each entry is permitted, no two meet in the vault, and the totals fit. */
  lemma AcceptableMeans(r: Rules, es: seq<Entry>)
    ensures Acceptable(r, es) <==> (forall e :: e in es ==> Permitted(r, e)) && AllApart(r, es) && WithinLimits(r, es)
  {
    forall e | e in es
      ensures Permitted(r, e) <==> LocalOk(r, e)
    {
      PathsAgree(r, e);
    }
    TotalsAreSums(r, es);
    if forall e :: e in es ==> Permitted(r, e) {
      KeysApart(r, es);
    }
  }
}
