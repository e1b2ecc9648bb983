/**
 * Splitting text at a separator and joining it again, as Python's `split` and `join` do. The two are inverse
 * to each other on parts that hold no separator, and the prefixes of a text that stop before a separator are
 * the joins of its first parts.
 */
module Strings {

  function Split(s: string, sep: char): (parts: seq<string>)
    ensures |parts| >= 1
  {
    if s == [] then [[]]
    else
      var rest := Split(s[1..], sep);
      if s[0] == sep then [[]] + rest else [[s[0]] + rest[0]] + rest[1..]
  }

  function Join(parts: seq<string>, sep: char): string
    requires |parts| >= 1
  {
    if |parts| == 1 then parts[0] else parts[0] + [sep] + Join(parts[1..], sep)
  }

  lemma {:induction false} JoinSplit(s: string, sep: char)
    ensures Join(Split(s, sep), sep) == s
  {
    if s != [] {
      JoinSplit(s[1..], sep);
      var rest := Split(s[1..], sep);
      assert ([[]] + rest)[1..] == rest;
      assert ([[s[0]] + rest[0]] + rest[1..])[1..] == rest[1..];
      assert s == [s[0]] + s[1..];
    }
  }

  lemma {:induction false} SplitPlain(s: string, sep: char)
    requires sep !in s
    ensures Split(s, sep) == [s]
  {
    if s != [] {
      SplitPlain(s[1..], sep);
      assert s == [s[0]] + s[1..];
    }
  }

  lemma {:induction false} SplitAtFirst(head: string, tail: string, sep: char)
    requires sep !in head
    ensures Split(head + [sep] + tail, sep) == [head] + Split(tail, sep)
  {
    var s := head + [sep] + tail;
    if head == [] {
      assert s[1..] == tail;
    } else {
      assert s[1..] == head[1..] + [sep] + tail;
      SplitAtFirst(head[1..], tail, sep);
      assert head == [head[0]] + head[1..];
      assert ([head[1..]] + Split(tail, sep))[1..] == Split(tail, sep);
    }
  }

  lemma {:induction false} SplitJoin(parts: seq<string>, sep: char)
    requires |parts| >= 1 && forall i :: 0 <= i < |parts| ==> sep !in parts[i]
    ensures Split(Join(parts, sep), sep) == parts
  {
    if |parts| == 1 {
      SplitPlain(parts[0], sep);
      assert parts == [parts[0]];
    } else {
      SplitAtFirst(parts[0], Join(parts[1..], sep), sep);
      SplitJoin(parts[1..], sep);
      assert parts == [parts[0]] + parts[1..];
    }
  }

  lemma {:induction false} SplitParts(s: string, sep: char)
    ensures forall i :: 0 <= i < |Split(s, sep)| ==> sep !in Split(s, sep)[i]
  {
    if s != [] {
      SplitParts(s[1..], sep);
    }
  }

  /** The text before each separator of `s`: the joins of the proper non-empty prefixes of its parts. */
  predicate StopsBefore(p: string, s: string, sep: char) {
    p + [sep] <= s
  }

  lemma {:induction false} PrefixJoinStops(s: string, sep: char, i: nat)
    requires 1 <= i < |Split(s, sep)|
    ensures StopsBefore(Join(Split(s, sep)[..i], sep), s, sep)
  {
    var parts, rest := Split(s, sep), Split(s[1..], sep);
    if s[0] == sep {
      assert parts[..i] == [[]] + rest[..i - 1];
      if i == 1 {
        assert Join(parts[..i], sep) == [];
      } else {
        PrefixJoinStops(s[1..], sep, i - 1);
        assert parts[..i][1..] == rest[..i - 1];
        assert Join(parts[..i], sep) == [sep] + Join(rest[..i - 1], sep);
      }
    } else {
      PrefixJoinStops(s[1..], sep, i);
      JoinConsChar(s[0], rest, i, sep);
      assert parts[..i] == [[s[0]] + rest[0]] + rest[1..i];
    }
  }

  lemma JoinConsChar(c: char, rest: seq<string>, i: nat, sep: char)
    requires 1 <= i <= |rest|
    ensures Join([[c] + rest[0]] + rest[1..i], sep) == [c] + Join(rest[..i], sep)
  {
    var left := [[c] + rest[0]] + rest[1..i];
    assert left[1..] == rest[1..i] == rest[..i][1..];
  }

  lemma {:induction false} StopIsPrefixJoin(p: string, s: string, sep: char) returns (i: nat)
    requires StopsBefore(p, s, sep)
    ensures 1 <= i < |Split(s, sep)| && Join(Split(s, sep)[..i], sep) == p
  {
    var parts, rest := Split(s, sep), Split(s[1..], sep);
    if p == [] {
      i := 1;
      assert s[0] == (p + [sep])[0] == sep;
      assert parts[..1] == [[]];
    } else {
      assert s[0] == p[0];
      assert p[1..] + [sep] <= s[1..] by {
        assert p + [sep] == [p[0]] + (p[1..] + [sep]);
      }
      var j := StopIsPrefixJoin(p[1..], s[1..], sep);
      assert p == [p[0]] + p[1..];
      if s[0] == sep {
        i := j + 1;
        assert parts[..i] == [[]] + rest[..j];
        assert parts[..i][1..] == rest[..j];
      } else {
        i := j;
        JoinConsChar(s[0], rest, j, sep);
        assert parts[..i] == [[s[0]] + rest[0]] + rest[1..j];
      }
    }
  }
}
