/** Reachability by paths, the specification that the worklist closures are proved against. */
module Reachability {

  ghost predicate IsPath<T(!new)>(roots: iset<T>, next: T -> set<T>, path: seq<T>) {
    && path != [] && path[0] in roots
    && forall i :: 0 <= i < |path| - 1 ==> path[i + 1] in next(path[i])
  }

  ghost predicate Reachable<T(!new)>(roots: iset<T>, next: T -> set<T>, x: T) {
    exists path: seq<T> :: IsPath(roots, next, path) && path[|path| - 1] == x
  }

  lemma RootReachable<T(!new)>(roots: iset<T>, next: T -> set<T>, x: T)
    requires x in roots
    ensures Reachable(roots, next, x)
  {
    assert IsPath(roots, next, [x]);
  }

  lemma StepReachable<T(!new)>(roots: iset<T>, next: T -> set<T>, x: T, y: T)
    requires Reachable(roots, next, x) && y in next(x)
    ensures Reachable(roots, next, y)
  {
    var path: seq<T> :| IsPath(roots, next, path) && path[|path| - 1] == x;
    assert IsPath(roots, next, path + [y]);
    assert (path + [y])[|path + [y]| - 1] == y;
  }

  /** A set that holds the roots and is closed under `next` holds everything reachable. */
  lemma ClosedCovers<T(!new)>(roots: iset<T>, next: T -> set<T>, closed: set<T>)
    requires forall r :: r in roots ==> r in closed
    requires forall x :: x in closed ==> next(x) <= closed
    ensures forall x :: Reachable(roots, next, x) ==> x in closed
  {
    forall x | Reachable(roots, next, x)
      ensures x in closed
    {
      var path: seq<T> :| IsPath(roots, next, path) && path[|path| - 1] == x;
      PathStays(roots, next, closed, path, |path| - 1);
    }
  }

  lemma {:induction false} PathStays<T(!new)>(roots: iset<T>, next: T -> set<T>, closed: set<T>, path: seq<T>, i: nat)
    requires forall r :: r in roots ==> r in closed
    requires forall x :: x in closed ==> next(x) <= closed
    requires IsPath(roots, next, path) && i < |path|
    ensures path[i] in closed
  {
    if i > 0 {
      PathStays(roots, next, closed, path, i - 1);
      assert path[i - 1 + 1] in next(path[i - 1]);
    }
  }

  // ---- Worklists -------------------------------------------------------------------------------

  /** A worklist run part of the way: `done` is expanded, `pending` is known but not yet expanded. */
  ghost predicate Worklist<T(!new)>(roots: iset<T>, next: T -> set<T>, done: set<T>, pending: seq<T>) {
    && (forall x :: x in done || x in pending ==> Reachable(roots, next, x))
    && (forall r :: r in roots ==> r in done || r in pending)
    && (forall x, y :: x in done && y in next(x) ==> y in done || y in pending)
  }

  lemma LastPending<T>(pending: seq<T>)
    requires pending != []
    ensures pending == pending[..|pending| - 1] + [pending[|pending| - 1]]
    ensures pending[|pending| - 1] in pending
  {
  }

  lemma WorklistStart<T(!new)>(roots: iset<T>, next: T -> set<T>, pending: seq<T>)
    requires forall x :: x in pending <==> x in roots
    ensures Worklist(roots, next, {}, pending)
  {
    forall x | x in pending
      ensures Reachable(roots, next, x)
    {
      RootReachable(roots, next, x);
    }
  }

  lemma WorklistSkip<T(!new)>(roots: iset<T>, next: T -> set<T>, done: set<T>, rest: seq<T>, x: T)
    requires Worklist(roots, next, done, rest + [x]) && x in done
    ensures Worklist(roots, next, done, rest)
  {
    assert forall y :: y in rest + [x] <==> y in rest || y == x;
  }

  lemma WorklistExpand<T(!new)>(
    roots: iset<T>, next: T -> set<T>, done: set<T>, rest: seq<T>, x: T, more: seq<T>)
    requires Worklist(roots, next, done, rest + [x])
    requires forall y :: y in more ==> y in next(x)
    requires forall y :: y in next(x) ==> y in more || y in done || y == x
    ensures Worklist(roots, next, done + {x}, rest + more)
  {
    assert forall y :: y in rest + [x] <==> y in rest || y == x;
    assert forall y :: y in rest + more <==> y in rest || y in more;
    forall y | y in more
      ensures Reachable(roots, next, y)
    {
      StepReachable(roots, next, x, y);
    }
  }

  /** When nothing is pending, the expanded set is exactly the reachable set. */
  lemma WorklistDone<T(!new)>(roots: iset<T>, next: T -> set<T>, done: set<T>)
    requires Worklist(roots, next, done, [])
    ensures forall x :: x in done <==> Reachable(roots, next, x)
  {
    forall x | x in done
      ensures next(x) <= done
    {
    }
    ClosedCovers(roots, next, done);
  }
}
