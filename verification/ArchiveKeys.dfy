/** Portable archive paths: member keys, the collision index, and the HEAD-tree collision check. */
module ArchiveKeys {
  import opened Strings

  datatype Option<T> = None | Some(value: T)

  // ---- Portable keys -------------------------------------------------------------------------

  const RESERVED: set<string> := {
    "aux", "con", "conin$", "conout$", "nul", "prn",
    "com1", "com2", "com3", "com4", "com5", "com6", "com7", "com8", "com9",
    "lpt1", "lpt2", "lpt3", "lpt4", "lpt5", "lpt6", "lpt7", "lpt8", "lpt9",
    "com\U{00B9}", "com\U{00B2}", "com\U{00B3}", "lpt\U{00B9}", "lpt\U{00B2}", "lpt\U{00B3}"
  }

  const FORBIDDEN: set<char> := {'<', '>', '\"', '|', '?', '*'}

  /** The components of a relative POSIX path; the path "." has none. */
  function Components(name: string): seq<string> {
    if name == "." then [] else Split(name, '/')
  }

  predicate SafeComponent(c: string) {
    && c != "" && c != "." && c != ".."
    && forall i :: 0 <= i < |c| ==> c[i] != ':' && c[i] as int >= 0x20 && c[i] as int != 0x7F
  }

  predicate SafeName(name: string) {
    && name != "" && '\\' !in name && name[0] != '/'
    && forall i :: 0 <= i < |Components(name)| ==> SafeComponent(Components(name)[i])
  }

  /** `fold` stands for Unicode NFC normalisation followed by case folding. */
  predicate PortableComponent(c: string, fold: string -> string) {
    && c != "" && c[|c| - 1] !in {' ', '.'}
    && (forall i :: 0 <= i < |c| ==> c[i] !in FORBIDDEN)
    && Split(fold(c), '.')[0] !in RESERVED
  }

  function FoldAll(components: seq<string>, fold: string -> string): (folded: seq<string>)
    ensures |folded| == |components|
  {
    seq(|components|, i requires 0 <= i < |components| => fold(components[i]))
  }

  predicate Portable(name: string, fold: string -> string) {
    && SafeName(name)
    && forall i :: 0 <= i < |Components(name)| ==> PortableComponent(Components(name)[i], fold)
  }

  function JoinOrEmpty(components: seq<string>): string {
    if components == [] then "" else Join(components, '/')
  }

  function PortableKey(name: string, fold: string -> string): Option<string> {
    if Portable(name, fold) then Some(JoinOrEmpty(FoldAll(Components(name), fold))) else None
  }

  // ---- Which names have a key --------------------------------------------------------------------

  /** No control character, and none that Windows keeps for itself. */
  predicate PermittedChar(c: char) {
    c as int >= 0x20 && c as int != 0x7F && c !in {':', '\\', '<', '>', '\"', '|', '?', '*'}
  }

  predicate AllPermitted(s: string) {
    forall i :: 0 <= i < |s| ==> PermittedChar(s[i])
  }

  predicate PermittedParts(parts: seq<string>) {
    forall i :: 0 <= i < |parts| ==> AllPermitted(parts[i])
  }

  /** Not the directory itself or its parent, no trailing blank or dot, no device name before the first dot. */
  predicate PermittedPart(part: string, fold: string -> string) {
    && part !in {"", ".", ".."} && part[|part| - 1] !in {' ', '.'}
    && Split(fold(part), '.')[0] !in RESERVED
  }

  lemma {:induction false} PermittedSplits(s: string)
    ensures AllPermitted(s) <==> PermittedParts(Split(s, '/'))
  {
    if s != [] {
      var rest := Split(s[1..], '/');
      PermittedSplits(s[1..]);
      assert s == [s[0]] + s[1..];
      assert AllPermitted(s) <==> PermittedChar(s[0]) && AllPermitted(s[1..]) by {
        assert forall i :: 0 < i < |s| ==> s[i] == s[1..][i - 1];
      }
      if s[0] == '/' {
        PartsCons([], rest);
      } else {
        PartsCons([s[0]] + rest[0], rest[1..]);
        PartsCons(rest[0], rest[1..]);
        assert rest == [rest[0]] + rest[1..];
        CharCons(s[0], rest[0]);
      }
    }
  }

  lemma PartsCons(part: string, rest: seq<string>)
    ensures PermittedParts([part] + rest) <==> AllPermitted(part) && PermittedParts(rest)
  {
    var all := [part] + rest;
    assert all[0] == part && forall i :: 0 <= i < |rest| ==> all[i + 1] == rest[i];
  }

  lemma CharCons(c: char, s: string)
    ensures AllPermitted([c] + s) <==> PermittedChar(c) && AllPermitted(s)
  {
    var all := [c] + s;
    assert all[0] == c && forall i :: 0 <= i < |s| ==> all[i + 1] == s[i];
  }

  /** A name other than "." is keyed exactly if all its characters and all its parts are permitted. */
  lemma KeyedExactly(name: string, fold: string -> string)
    requires name != "."
    ensures PortableKey(name, fold).Some? <==>
      && AllPermitted(name)
      && forall i :: 0 <= i < |Split(name, '/')| ==> PermittedPart(Split(name, '/')[i], fold)
  {
    var parts := Split(name, '/');
    PermittedSplits(name);
    SplitParts(name, '/');
    if PortableKey(name, fold).Some? {
      forall i | 0 <= i < |parts|
        ensures AllPermitted(parts[i]) && PermittedPart(parts[i], fold)
      {
        NoBackslash(name, parts, i);
        PartFromSafe(parts[i], fold);
      }
    }
    if AllPermitted(name) && forall i :: 0 <= i < |parts| ==> PermittedPart(parts[i], fold) {
      PlainStart(name);
      forall i | 0 <= i < |parts|
        ensures SafeComponent(parts[i]) && PortableComponent(parts[i], fold)
      {
        SafeFromPart(parts[i], fold);
      }
    }
  }

  lemma PlainStart(name: string)
    requires AllPermitted(name) && forall i :: 0 <= i < |Split(name, '/')| ==> Split(name, '/')[i] != ""
    ensures name != "" && name[0] != '/' && '\\' !in name
  {
    assert Split(name, '/')[0] != "";
  }

  lemma NoBackslash(name: string, parts: seq<string>, i: nat)
    requires parts == Split(name, '/') && i < |parts| && '\\' !in name
    ensures '\\' !in parts[i]
  {
    CharsFrom(name, i);
  }

  /** The characters of a part are characters of the text. */
  lemma {:induction false} CharsFrom(s: string, i: nat)
    requires i < |Split(s, '/')|
    ensures forall c :: c in Split(s, '/')[i] ==> c in s
  {
    if s != [] {
      var rest := Split(s[1..], '/');
      assert s == [s[0]] + s[1..];
      if s[0] == '/' {
        if i > 0 {
          CharsFrom(s[1..], i - 1);
          assert Split(s, '/')[i] == rest[i - 1];
        }
      } else {
        CharsFrom(s[1..], i);
        if i > 0 {
          assert Split(s, '/')[i] == rest[i];
        }
      }
    }
  }

  lemma PartFromSafe(part: string, fold: string -> string)
    requires SafeComponent(part) && PortableComponent(part, fold) && '\\' !in part
    ensures AllPermitted(part) && PermittedPart(part, fold)
  {
  }

  lemma SafeFromPart(part: string, fold: string -> string)
    requires AllPermitted(part) && PermittedPart(part, fold)
    ensures SafeComponent(part) && PortableComponent(part, fold)
  {
  }

  // ---- The pairwise rule ---------------------------------------------------------------------

  datatype Member = Member(key: string, isDirectory: bool)

  /** `a` is a proper path ancestor of `b`, as the string-prefix test sees it. */
  predicate IsAncestor(a: string, b: string) {
    StopsBefore(a, b, '/')
  }

  /** Two members can live in one extracted tree. */
  predicate Compatible(m: Member, n: Member) {
    && m.key != n.key
    && (IsAncestor(m.key, n.key) ==> m.isDirectory)
    && (IsAncestor(n.key, m.key) ==> n.isDirectory)
  }

  predicate PairwiseCompatible(members: seq<Member>) {
    forall i, j :: 0 <= i < j < |members| ==> Compatible(members[i], members[j])
  }

  lemma PairwiseSnoc(members: seq<Member>, m: Member)
    ensures PairwiseCompatible(members + [m]) <==>
      PairwiseCompatible(members) && forall i :: 0 <= i < |members| ==> Compatible(members[i], m)
  {
    var all := members + [m];
    if PairwiseCompatible(all) {
      forall i, j | 0 <= i < j < |members|
        ensures Compatible(members[i], members[j])
      {
        assert members[i] == all[i] && members[j] == all[j];
      }
      forall i | 0 <= i < |members|
        ensures Compatible(members[i], m)
      {
        assert members[i] == all[i] && m == all[|members|];
      }
    }
  }

  // ---- The registered index --------------------------------------------------------------------

  /** The `seen` dictionary, changed in place one member at a time. */
  class ArchiveIndex {
    const keyOf: string -> Option<string>
    var seen: map<string, (string, bool)>

    constructor (keyOf: string -> Option<string>)
      ensures this.keyOf == keyOf && seen == map[]
    {
      this.keyOf := keyOf;
      seen := map[];
    }

    /** Accepts a member exactly when it has a key and fits every member before it. */
    method Register(name: string, isDirectory: bool) returns (accepted: bool)
      modifies this
      ensures accepted <==> keyOf(name).Some? && FitsIndex(old(seen), Member(keyOf(name).value, isDirectory))
      ensures seen == if accepted then old(seen)[keyOf(name).value := (name, isDirectory)] else old(seen)
    {
      var keyed := keyOf(name);
      if keyed.None? {
        return false;
      }
      var key := keyed.value;
      if key in seen {
        return false;
      }
      var left := seen.Keys;
      while left != {}
        invariant left <= seen.Keys && seen == old(seen)
        invariant forall k :: k in seen && k !in left ==> Compatible(Member(k, seen[k].1), Member(key, isDirectory))
      {
        var existing :| existing in left;
        left := left - {existing};
        if key + "/" <= existing && !isDirectory {
          return false;
        }
        if existing + "/" <= key && !seen[existing].1 {
          return false;
        }
      }
      seen := seen[key := (name, isDirectory)];
      return true;
    }
  }

  ghost predicate FitsIndex(seen: map<string, (string, bool)>, m: Member) {
    forall k :: k in seen ==> Compatible(Member(k, seen[k].1), m)
  }

  datatype Listed = Listed(name: string, isDirectory: bool)

  predicate AllKeyed(listed: seq<Listed>, keyOf: string -> Option<string>) {
    forall i :: 0 <= i < |listed| ==> keyOf(listed[i].name).Some?
  }

  function Members(listed: seq<Listed>, keyOf: string -> Option<string>): (members: seq<Member>)
    requires AllKeyed(listed, keyOf)
    ensures |members| == |listed|
  {
    seq(|listed|, i requires 0 <= i < |listed| => Member(keyOf(listed[i].name).value, listed[i].isDirectory))
  }

  /** The index holds exactly the members registered so far. */
  ghost predicate Holds(seen: map<string, (string, bool)>, members: seq<Member>) {
    && (forall i :: 0 <= i < |members| ==> members[i].key in seen && seen[members[i].key].1 == members[i].isDirectory)
    && (forall k :: k in seen ==> exists i :: 0 <= i < |members| && members[i] == Member(k, seen[k].1))
  }

  lemma HoldsFits(seen: map<string, (string, bool)>, members: seq<Member>, m: Member)
    requires Holds(seen, members)
    ensures FitsIndex(seen, m) <==> forall i :: 0 <= i < |members| ==> Compatible(members[i], m)
  {
    if FitsIndex(seen, m) {
      forall i | 0 <= i < |members|
        ensures Compatible(members[i], m)
      {
        assert members[i] == Member(members[i].key, seen[members[i].key].1);
      }
    }
  }

  lemma RegisteredStep(seen: map<string, (string, bool)>, members: seq<Member>, m: Member, name: string)
    requires Holds(seen, members) && FitsIndex(seen, m) && PairwiseCompatible(members)
    ensures m.key !in seen && PairwiseCompatible(members + [m])
    ensures Holds(seen[m.key := (name, m.isDirectory)], members + [m])
  {
    HoldsFits(seen, members, m);
    PairwiseSnoc(members, m);
    assert m.key !in seen;
    HoldsSnoc(seen, members, m, name);
  }

  lemma MembersStep(listed: seq<Listed>, keyOf: string -> Option<string>, i: nat)
    requires i < |listed| && AllKeyed(listed[..i], keyOf) && keyOf(listed[i].name).Some?
    ensures AllKeyed(listed[..i + 1], keyOf)
    ensures Members(listed[..i + 1], keyOf) ==
      Members(listed[..i], keyOf) + [Member(keyOf(listed[i].name).value, listed[i].isDirectory)]
  {
  }

  /** A whole member sequence is accepted exactly when every pair in it is compatible. */
  method RegisterAll(listed: seq<Listed>, keyOf: string -> Option<string>) returns (accepted: bool)
    ensures accepted <==> AllKeyed(listed, keyOf) && PairwiseCompatible(Members(listed, keyOf))
  {
    var index := new ArchiveIndex(keyOf);
    ghost var members: seq<Member> := [];
    for i := 0 to |listed|
      invariant index.keyOf == keyOf && fresh(index)
      invariant AllKeyed(listed[..i], keyOf) && members == Members(listed[..i], keyOf)
      invariant PairwiseCompatible(members) && Holds(index.seen, members)
    {
      ghost var before := index.seen;
      var ok := index.Register(listed[i].name, listed[i].isDirectory);
      if !ok {
        if AllKeyed(listed, keyOf) {
          ghost var m := Member(keyOf(listed[i].name).value, listed[i].isDirectory);
          HoldsFits(before, members, m);
          RejectedPair(listed, keyOf, members, i);
        }
        return false;
      }
      ghost var m := Member(keyOf(listed[i].name).value, listed[i].isDirectory);
      RegisteredStep(before, members, m, listed[i].name);
      MembersStep(listed, keyOf, i);
      members := members + [m];
    }
    assert listed[..|listed|] == listed;
    return true;
  }

  lemma RejectedPair(listed: seq<Listed>, keyOf: string -> Option<string>, members: seq<Member>, i: nat)
    requires i < |listed| && AllKeyed(listed, keyOf)
    requires AllKeyed(listed[..i], keyOf) && members == Members(listed[..i], keyOf)
    requires exists j :: 0 <= j < i && !Compatible(members[j], Members(listed, keyOf)[i])
    ensures !PairwiseCompatible(Members(listed, keyOf))
  {
    var j :| 0 <= j < i && !Compatible(members[j], Members(listed, keyOf)[i]);
    assert Members(listed, keyOf)[j] == members[j];
  }

  lemma HoldsSnoc(seen: map<string, (string, bool)>, members: seq<Member>, m: Member, name: string)
    requires Holds(seen, members) && m.key !in seen
    ensures Holds(seen[m.key := (name, m.isDirectory)], members + [m])
  {
    var grown, all := seen[m.key := (name, m.isDirectory)], members + [m];
    forall k | k in grown
      ensures exists i :: 0 <= i < |all| && all[i] == Member(k, grown[k].1)
    {
      if k == m.key {
        assert all[|members|] == Member(k, grown[k].1);
      } else {
        var i :| 0 <= i < |members| && members[i] == Member(k, seen[k].1);
        assert all[i] == Member(k, grown[k].1);
      }
    }
  }

  // ---- Order does not matter -------------------------------------------------------------------

  /** Each member appears once, and any two different ones are compatible: no order in sight. */
  ghost predicate CompatibleBag(bag: multiset<Member>) {
    && (forall m :: m in bag ==> bag[m] == 1)
    && (forall m, n :: m in bag && n in bag && m != n ==> Compatible(m, n))
  }

  lemma {:induction false} PairwiseIsBag(members: seq<Member>)
    ensures PairwiseCompatible(members) <==> CompatibleBag(multiset(members))
  {
    if members == [] {
    } else {
      var init, last := members[..|members| - 1], members[|members| - 1];
      assert members == init + [last];
      PairwiseIsBag(init);
      PairwiseSnoc(init, last);
      var bag, all := multiset(init), multiset(members);
      assert all == bag + multiset{last};
      BagGrows(bag, last);
      assert (forall m :: m in bag ==> Compatible(m, last)) <==>
        forall i :: 0 <= i < |init| ==> Compatible(init[i], last) by {
        assert forall i :: 0 <= i < |init| ==> init[i] in bag;
      }
    }
  }

  lemma BagGrows(bag: multiset<Member>, last: Member)
    ensures CompatibleBag(bag + multiset{last}) <==> CompatibleBag(bag) && forall m :: m in bag ==> Compatible(m, last)
  {
    var all := bag + multiset{last};
    if CompatibleBag(all) {
      forall m | m in bag
        ensures bag[m] == 1 && Compatible(m, last)
      {
        assert m in all && last in all;
        assert all[m] == 1;
        assert m != last;
      }
    }
    if CompatibleBag(bag) && forall m :: m in bag ==> Compatible(m, last) {
      forall m | m in all
        ensures all[m] == 1
      {
        assert !Compatible(last, last);
        assert last !in bag;
      }
      forall m, n | m in all && n in all && m != n
        ensures Compatible(m, n)
      {
        if n == last {
          assert m in bag;
        } else if m == last {
          assert n in bag && Compatible(n, last);
        } else {
          assert m in bag && n in bag;
        }
      }
    }
  }

  /** Acceptance is invariant under permutation. */
  lemma PermutationInvariant(a: seq<Member>, b: seq<Member>)
    requires multiset(a) == multiset(b)
    ensures PairwiseCompatible(a) <==> PairwiseCompatible(b)
  {
    PairwiseIsBag(a);
    PairwiseIsBag(b);
  }

  // ---- The HEAD-tree check ---------------------------------------------------------------------

  const MAX_SOURCE_TRACKED_FILES: nat := 16 * 1024

  /** The joined proper prefixes of a key's parts, as the verifier lists them. */
  function Parents(key: string): set<string> {
    var parts := Split(key, '/');
    set i | 1 <= i < |parts| :: Join(parts[..i], '/')
  }

  lemma ParentsAreAncestors(key: string, p: string)
    ensures p in Parents(key) <==> IsAncestor(p, key)
  {
    var parts := Split(key, '/');
    if p in Parents(key) {
      var i :| 1 <= i < |parts| && p == Join(parts[..i], '/');
      PrefixJoinStops(key, '/', i);
    }
    if IsAncestor(p, key) {
      var i := StopIsPrefixJoin(p, key, '/');
      assert p == Join(parts[..i], '/');
    }
  }

  function FileMembers(keys: seq<string>): (members: seq<Member>)
    ensures |members| == |keys|
  {
    seq(|keys|, i requires 0 <= i < |keys| => Member(keys[i], false))
  }

  function KeysOf(paths: seq<string>, keyOf: string -> Option<string>): (keys: seq<string>)
    requires Keyed(paths, keyOf)
    ensures |keys| == |paths|
  {
    seq(|paths|, i requires 0 <= i < |paths| => keyOf(paths[i]).value)
  }

  /** The two portable sets after some keys: the keys themselves and all their parents. */
  ghost predicate TreeSets(keys: seq<string>, files: set<string>, directories: set<string>) {
    && (forall k :: k in files <==> k in keys)
    && (forall d :: d in directories <==> exists i :: 0 <= i < |keys| && IsAncestor(d, keys[i]))
  }

  lemma TreeStep(keys: seq<string>, files: set<string>, directories: set<string>, key: string)
    requires TreeSets(keys, files, directories) && PairwiseCompatible(FileMembers(keys))
    ensures TreeSets(keys + [key], files + {key}, directories + Parents(key))
    ensures (key !in files && key !in directories && Parents(key) !! files)
      <==> PairwiseCompatible(FileMembers(keys + [key]))
  {
    var all := keys + [key];
    forall d
      ensures d in directories + Parents(key) <==> exists i :: 0 <= i < |all| && IsAncestor(d, all[i])
    {
      ParentsAreAncestors(key, d);
      if d in directories {
        var i :| 0 <= i < |keys| && IsAncestor(d, keys[i]);
        assert all[i] == keys[i];
      }
      if IsAncestor(d, key) {
        assert all[|keys|] == key;
      }
    }
    assert FileMembers(all) == FileMembers(keys) + [Member(key, false)];
    PairwiseSnoc(FileMembers(keys), Member(key, false));
    TreeClash(keys, files, directories, key);
  }

  lemma TreeClash(keys: seq<string>, files: set<string>, directories: set<string>, key: string)
    requires TreeSets(keys, files, directories)
    ensures (key !in files && key !in directories && Parents(key) !! files)
      <==> forall i :: 0 <= i < |keys| ==> Compatible(FileMembers(keys)[i], Member(key, false))
  {
    if key !in files && key !in directories && Parents(key) !! files {
      forall i | 0 <= i < |keys|
        ensures Compatible(FileMembers(keys)[i], Member(key, false))
      {
        ParentsAreAncestors(key, keys[i]);
        assert keys[i] in files;
      }
    }
    if p: string :| p in Parents(key) && p in files {
      ParentsAreAncestors(key, p);
      var i :| 0 <= i < |keys| && keys[i] == p;
      assert !Compatible(FileMembers(keys)[i], Member(key, false));
    } else if key in files {
      var i :| 0 <= i < |keys| && keys[i] == key;
      assert !Compatible(FileMembers(keys)[i], Member(key, false));
    } else if key in directories {
      var i :| 0 <= i < |keys| && IsAncestor(key, keys[i]);
      assert !Compatible(FileMembers(keys)[i], Member(key, false));
    }
  }

  /** The name of the root itself, which has no components. */
  predicate IsRoot(name: string) {
    name == "."
  }

  predicate NoRoot(paths: seq<string>) {
    forall i :: 0 <= i < |paths| ==> !IsRoot(paths[i])
  }

  predicate Keyed(paths: seq<string>, keyOf: string -> Option<string>) {
    forall i :: 0 <= i < |paths| ==> keyOf(paths[i]).Some?
  }

  /** The file lists of a clean tree: a bounded number, keys that can live together, and not the root itself. */
  predicate TreeAccepted(paths: seq<string>, keyOf: string -> Option<string>) {
    && 1 <= |paths| <= MAX_SOURCE_TRACKED_FILES && NoRoot(paths)
    && Keyed(paths, keyOf) && PairwiseCompatible(FileMembers(KeysOf(paths, keyOf)))
  }

  /** What the loop has built after `i` paths: clean so far, with the sets that describe it. */
  ghost predicate Scanned(paths: seq<string>, keyOf: string -> Option<string>, i: nat,
                          treePaths: set<string>, files: set<string>, directories: set<string>) {
    && i <= |paths| && Keyed(paths[..i], keyOf) && NoRoot(paths[..i])
    && (forall p :: p in treePaths ==> keyOf(p).Some? && keyOf(p).value in files)
    && TreeSets(KeysOf(paths[..i], keyOf), files, directories)
    && PairwiseCompatible(FileMembers(KeysOf(paths[..i], keyOf)))
  }

  predicate Clashes(key: string, files: set<string>, directories: set<string>) {
    key in files || key in directories || !(Parents(key) !! files)
  }

  lemma CleanStep(paths: seq<string>, keyOf: string -> Option<string>, i: nat,
                  treePaths: set<string>, files: set<string>, directories: set<string>)
    requires i < |paths| && Scanned(paths, keyOf, i, treePaths, files, directories) && keyOf(paths[i]).Some?
    requires !IsRoot(paths[i]) && !Clashes(keyOf(paths[i]).value, files, directories)
    ensures var key := keyOf(paths[i]).value;
      Scanned(paths, keyOf, i + 1, treePaths + {paths[i]}, files + {key}, directories + Parents(key))
  {
    TreeStep(KeysOf(paths[..i], keyOf), files, directories, keyOf(paths[i]).value);
    KeysStep(paths, keyOf, i);
    NoRootStep(paths, i);
  }

  lemma NoRootStep(paths: seq<string>, i: nat)
    requires i < |paths| && NoRoot(paths[..i]) && !IsRoot(paths[i])
    ensures NoRoot(paths[..i + 1])
  {
  }

  lemma ClashRefused(paths: seq<string>, keyOf: string -> Option<string>, i: nat,
                     treePaths: set<string>, files: set<string>, directories: set<string>)
    requires i < |paths| && Scanned(paths, keyOf, i, treePaths, files, directories) && keyOf(paths[i]).Some?
    requires paths[i] in treePaths || Clashes(keyOf(paths[i]).value, files, directories)
    ensures !TreeAccepted(paths, keyOf)
  {
    TreeStep(KeysOf(paths[..i], keyOf), files, directories, keyOf(paths[i]).value);
    KeysStep(paths, keyOf, i);
    PrefixIncompatible(paths, keyOf, i + 1);
  }

  lemma RootRefused(paths: seq<string>, keyOf: string -> Option<string>, i: nat)
    requires i < |paths| && (IsRoot(paths[i]) || keyOf(paths[i]).None?)
    ensures !TreeAccepted(paths, keyOf)
  {
  }

  lemma ScannedAll(paths: seq<string>, keyOf: string -> Option<string>,
                   treePaths: set<string>, files: set<string>, directories: set<string>)
    requires 1 <= |paths| <= MAX_SOURCE_TRACKED_FILES
    requires Scanned(paths, keyOf, |paths|, treePaths, files, directories)
    ensures TreeAccepted(paths, keyOf)
  {
    assert paths[..|paths|] == paths;
  }

  /** The set-based check accepts exactly the file lists that the pairwise rule accepts, "." apart. */
  method CheckTreePaths(paths: seq<string>, keyOf: string -> Option<string>) returns (accepted: bool)
    ensures accepted <==> TreeAccepted(paths, keyOf)
  {
    if paths == [] || |paths| > MAX_SOURCE_TRACKED_FILES {
      return false;
    }
    var treePaths: set<string>, files: set<string>, directories: set<string> := {}, {}, {};
    for i := 0 to |paths|
      invariant Scanned(paths, keyOf, i, treePaths, files, directories)
    {
      var path := paths[i];
      var keyed := keyOf(path);
      NoComponents(path);
      if keyed.None? || Components(path) == [] {
        RootRefused(paths, keyOf, i);
        return false;
      }
      var key := keyed.value;
      if path in treePaths || Clashes(key, files, directories) {
        ClashRefused(paths, keyOf, i, treePaths, files, directories);
        return false;
      }
      CleanStep(paths, keyOf, i, treePaths, files, directories);
      treePaths, files, directories := treePaths + {path}, files + {key}, directories + Parents(key);
    }
    ScannedAll(paths, keyOf, treePaths, files, directories);
    return true;
  }

  /** Only "." is a path without components. */
  lemma NoComponents(name: string)
    ensures Components(name) == [] <==> IsRoot(name)
  {
  }

  function AsFiles(paths: seq<string>): (listed: seq<Listed>)
    ensures |listed| == |paths|
  {
    seq(|paths|, i requires 0 <= i < |paths| => Listed(paths[i], false))
  }

  /** On lists of files the tree check and the archive index agree, but for "." and the number of entries. */
  lemma TreeAgreesWithArchive(paths: seq<string>, fold: string -> string)
    ensures var keyOf := (n: string) => PortableKey(n, fold);
      TreeAccepted(paths, keyOf) <==>
        && 1 <= |paths| <= MAX_SOURCE_TRACKED_FILES && NoRoot(paths)
        && AllKeyed(AsFiles(paths), keyOf) && PairwiseCompatible(Members(AsFiles(paths), keyOf))
  {
    var keyOf := (n: string) => PortableKey(n, fold);
    assert Keyed(paths, keyOf) <==> AllKeyed(AsFiles(paths), keyOf) by {
      assert forall i :: 0 <= i < |paths| ==> AsFiles(paths)[i].name == paths[i];
    }
    if Keyed(paths, keyOf) {
      assert Members(AsFiles(paths), keyOf) == FileMembers(KeysOf(paths, keyOf));
    }
  }

  /** The archive index takes "." as a member with the empty key, where the tree check refuses it. */
  lemma DotDiffers(fold: string -> string)
    ensures var keyOf := (n: string) => PortableKey(n, fold);
      && keyOf(".") == Some("") && !TreeAccepted(["."], keyOf)
      && AllKeyed(AsFiles(["."]), keyOf) && PairwiseCompatible(Members(AsFiles(["."]), keyOf))
  {
    assert IsRoot(["."][0]);
  }

  lemma KeysStep(paths: seq<string>, keyOf: string -> Option<string>, i: nat)
    requires i < |paths| && Keyed(paths[..i], keyOf) && keyOf(paths[i]).Some?
    ensures Keyed(paths[..i + 1], keyOf)
    ensures KeysOf(paths[..i + 1], keyOf) == KeysOf(paths[..i], keyOf) + [keyOf(paths[i]).value]
  {
  }

  lemma PrefixIncompatible(paths: seq<string>, keyOf: string -> Option<string>, n: nat)
    requires n <= |paths| && Keyed(paths[..n], keyOf)
    requires !PairwiseCompatible(FileMembers(KeysOf(paths[..n], keyOf)))
    ensures Keyed(paths, keyOf) ==> !PairwiseCompatible(FileMembers(KeysOf(paths, keyOf)))
  {
    if Keyed(paths, keyOf) {
      var part, all := FileMembers(KeysOf(paths[..n], keyOf)), FileMembers(KeysOf(paths, keyOf));
      var i, j :| 0 <= i < j < |part| && !Compatible(part[i], part[j]);
      assert all[i] == part[i] && all[j] == part[j];
    }
  }

  // ---- What equal and nested keys mean ---------------------------------------------------------

  /** Folding neither introduces a separator nor empties a component. */
  ghost predicate KeepsComponents(fold: string -> string) {
    forall c :: c != "" && '/' !in c ==> fold(c) != "" && '/' !in fold(c)
  }

  lemma FoldedParts(name: string, fold: string -> string)
    requires KeepsComponents(fold) && Portable(name, fold)
    ensures var folded := FoldAll(Components(name), fold);
      forall i :: 0 <= i < |folded| ==> folded[i] != "" && '/' !in folded[i]
  {
    SplitParts(name, '/');
    forall i | 0 <= i < |Components(name)|
      ensures fold(Components(name)[i]) != "" && '/' !in fold(Components(name)[i])
    {
      var c := Components(name)[i];
      assert PortableComponent(c, fold);
    }
  }

  /** Two portable names share a key exactly when their folded components agree one by one. */
  lemma SameKey(a: string, b: string, fold: string -> string)
    requires KeepsComponents(fold) && Portable(a, fold) && Portable(b, fold)
    ensures PortableKey(a, fold) == PortableKey(b, fold)
      <==> FoldAll(Components(a), fold) == FoldAll(Components(b), fold)
  {
    var x, y := FoldAll(Components(a), fold), FoldAll(Components(b), fold);
    FoldedParts(a, fold);
    FoldedParts(b, fold);
    if JoinOrEmpty(x) == JoinOrEmpty(y) {
      JoinInjective(x, y);
    }
  }

  lemma JoinNonEmpty(parts: seq<string>)
    requires |parts| >= 1 && parts[0] != ""
    ensures Join(parts, '/') != "" && Join(parts, '/')[0] == parts[0][0]
  {
  }

  lemma JoinInjective(x: seq<string>, y: seq<string>)
    requires forall i :: 0 <= i < |x| ==> x[i] != "" && '/' !in x[i]
    requires forall i :: 0 <= i < |y| ==> y[i] != "" && '/' !in y[i]
    requires JoinOrEmpty(x) == JoinOrEmpty(y)
    ensures x == y
  {
    if x == [] {
      if y != [] {
        JoinNonEmpty(y);
      }
    } else {
      JoinNonEmpty(x);
      assert y != [];
      SplitJoin(x, '/');
      SplitJoin(y, '/');
    }
  }

  /** The string-prefix test on keys is the proper-prefix relation on folded components. */
  lemma AncestorMeansComponents(x: seq<string>, y: seq<string>)
    requires |x| >= 1 && |y| >= 1
    requires forall i :: 0 <= i < |x| ==> '/' !in x[i]
    requires forall i :: 0 <= i < |y| ==> '/' !in y[i]
    ensures IsAncestor(Join(x, '/'), Join(y, '/')) <==> |x| < |y| && x == y[..|x|]
  {
    var a, b := Join(x, '/'), Join(y, '/');
    SplitJoin(x, '/');
    SplitJoin(y, '/');
    if IsAncestor(a, b) {
      var i := StopIsPrefixJoin(a, b, '/');
      SplitJoin(y[..i], '/');
    }
    if |x| < |y| && x == y[..|x|] {
      PrefixJoinStops(b, '/', |x|);
    }
  }
}
