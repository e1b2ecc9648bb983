/** What the RPC client promises over every interleaving. */
module RpcGuarantees {
  import opened RpcCalls
  import opened RpcRuns

  lemma {:induction false} RunConsistent(run: seq<Action>)
    ensures Consistent(After(run))
  {
    if run != [] {
      RunConsistent(run[..|run| - 1]);
      NextKeeps(After(run[..|run| - 1]), run[|run| - 1]);
    }
  }

  /** At most 128 calls are pending, and every entry is that of the call that drew the id. */
  lemma PendingBounded(run: seq<Action>)
    ensures |After(run).table.pending| <= MAX_PENDING_CALLS
    ensures forall id :: id in After(run).table.pending ==>
      var c := After(run).table.pending[id];
      c in After(run).calls && HasId(After(run).calls[c].phase) && After(run).calls[c].phase.id == id
  {
    RunConsistent(run);
  }

  /** A call that waits is pending, in the reader's hand, in the failing thread's, or already woken. */
  lemma NobodyForgotten(run: seq<Action>, c: nat)
    requires c in After(run).calls && After(run).calls[c].phase.Waiting?
    ensures InTable(After(run), c) || WithReader(After(run), c) || WithFailure(After(run), c)
      || After(run).calls[c].slot.signalled
    ensures After(run).calls[c].slot.signalled ==>
      After(run).calls[c].slot.response.Some? != After(run).calls[c].slot.error.Some?
  {
    RunConsistent(run);
    assert CallFits(After(run), c);
  }

  /** A finished call never reports a missing response, and a fatal error means the client has ended. */
  lemma FatalErrorsEndTheClient(run: seq<Action>, c: nat)
    requires c in After(run).calls && After(run).calls[c].phase.Done? && After(run).calls[c].phase.outcome.Raised?
    ensures After(run).calls[c].phase.outcome.error != Unavailable
    ensures Fatal(After(run).calls[c].phase.outcome.error) ==> After(run).table.terminal.Some?
  {
    RunConsistent(run);
    assert CallFits(After(run), c);
  }

  /** A call is refused for room exactly when 128 are pending, and for ids exactly past 2^53 - 1. */
  lemma RefusedExactly(run: seq<Action>, c: nat)
    requires c in After(run).calls && After(run).calls[c].phase == Checked
    ensures var s, t := After(run), Next(After(run), Register(c));
      && (t.calls[c].phase == Refused(CallLimit) <==> |s.table.pending| == 128)
      && (t.calls[c].phase == Refused(IdsExhausted) <==>
            |s.table.pending| < 128 && s.table.nextId == 0x20_0000_0000_0000)
      && (t.calls[c].phase == Phase.Registered(s.table.nextId) <==>
            |s.table.pending| < 128 && s.table.nextId <= 0x1F_FFFF_FFFF_FFFF)
      && (t.calls[c].phase.Registered? ==> t.table.pending == s.table.pending[s.table.nextId := c])
      && (!t.calls[c].phase.Registered? ==> t.table == s.table)
  {
    RunConsistent(run);
  }

  // ---- What never goes back ----------------------------------------------------------------------

  predicate TableLater(t: Table<nat>, u: Table<nat>) {
    && t.nextId <= u.nextId
    && (t.terminal.Some? ==> u.terminal == t.terminal)
    && (forall id :: id in u.pending ==> id in t.pending || t.nextId <= id)
  }

  predicate Finished(phase: Phase) {
    phase.Done? || phase.Refused?
  }

  predicate CallsLater(s: State, t: State) {
    forall c :: c in s.calls ==> c in t.calls && (Finished(s.calls[c].phase) ==> t.calls[c].phase == s.calls[c].phase)
  }

  predicate Later(s: State, t: State) {
    TableLater(s.table, t.table) && CallsLater(s, t)
  }

  lemma NextLater(s: State, a: Action, t: State)
    requires t == Next(s, a)
    ensures Later(s, t)
  {
  }

  lemma LaterTransitive(s: State, t: State, u: State)
    requires Later(s, t) && Later(t, u)
    ensures Later(s, u)
  {
  }

  lemma StepAt(run: seq<Action>, k: nat)
    requires k < |run|
    ensures After(run[..k + 1]) == Next(After(run[..k]), run[k])
  {
    assert run[..k + 1][..k] == run[..k];
  }

  lemma {:induction false} LaterAlong(run: seq<Action>, i: nat, j: nat)
    requires i <= j <= |run|
    ensures Later(After(run[..i]), After(run[..j]))
    decreases j
  {
    if i < j {
      LaterAlong(run, i, j - 1);
      StepAt(run, j - 1);
      NextLater(After(run[..j - 1]), run[j - 1], After(run[..j]));
      LaterTransitive(After(run[..i]), After(run[..j - 1]), After(run[..j]));
    }
  }

  predicate Issues(s: State, a: Action, id: nat) {
    s.table.nextId == id && Next(s, a).table.nextId == id + 1
  }

  /** Ids grow strictly, so none is used twice, and all are positive safe integers. */
  lemma IdsNeverReused(run: seq<Action>, i: nat, j: nat, x: nat, y: nat)
    requires i < j < |run| && Issues(After(run[..i]), run[i], x) && Issues(After(run[..j]), run[j], y)
    ensures 1 <= x < y <= MAX_REQUEST_ID
  {
    LaterAlong(run, 0, i);
    LaterAlong(run, i + 1, j);
    StepAt(run, i);
    StepAt(run, j);
    RunConsistent(run[..j + 1]);
  }

  predicate Leaves(s: State, a: Action, id: nat) {
    id in s.table.pending && id !in Next(s, a).table.pending
  }

  /** An entry leaves with its response, with the failure of the client, or with its own encoding error. */
  lemma HowEntriesLeave(s: State, a: Action, id: nat)
    requires Consistent(s) && Leaves(s, a, id)
    ensures a == EncodeFails(s.table.pending[id])
      || (a.Receive? && Answers(a.response, id))
      || (a.ClearPending? && s.table.terminal.Some?)
  {
    if a.EncodeFails? && a.c in s.calls && s.calls[a.c].phase.Registered? {
      assert CallFits(s, a.c);
    }
  }

  /** Each pending entry leaves the map at most once. */
  lemma LeavesOnce(run: seq<Action>, i: nat, j: nat, id: nat)
    requires i < j < |run| && Leaves(After(run[..i]), run[i], id)
    ensures !Leaves(After(run[..j]), run[j], id)
  {
    RunConsistent(run[..i]);
    StepAt(run, i);
    LaterAlong(run, i, i + 1);
    LaterAlong(run, i + 1, j);
  }

  /** The first terminal error is never replaced. */
  lemma FirstErrorStands(run: seq<Action>, i: nat, j: nat)
    requires i <= j <= |run| && After(run[..i]).table.terminal.Some?
    ensures After(run[..j]).table.terminal == After(run[..i]).table.terminal
  {
    LaterAlong(run, i, j);
  }

  /** A call begun after the client has ended raises the first error and never returns a value. */
  lemma LateCallsRefused(run: seq<Action>, i: nat, j: nat, c: nat)
    requires i < j <= |run| && run[i] == Begin(c) && c !in After(run[..i]).calls
    requires After(run[..i]).table.terminal.Some?
    ensures c in After(run[..j]).calls
    ensures After(run[..j]).calls[c].phase == Refused(After(run[..i]).table.terminal.value)
  {
    StepAt(run, i);
    LaterAlong(run, i + 1, j);
  }

  // ---- A returned value is the answer to that call's id ------------------------------------------

  /** Some step of the run received `response` while `id` was pending for call `c`. */
  predicate Came(run: seq<Action>, c: nat, id: nat, response: Response) {
    exists k :: 0 <= k < |run| && CameAt(run, k, c, id, response)
  }

  predicate CameAt(run: seq<Action>, k: nat, c: nat, id: nat, response: Response)
    requires k < |run|
  {
    && run[k] == Receive(response) && Answers(response, id)
    && id in After(run[..k]).table.pending && After(run[..k]).table.pending[id] == c
  }

  lemma CameBefore(run: seq<Action>, c: nat, id: nat, response: Response)
    requires run != [] && Came(run[..|run| - 1], c, id, response)
    ensures Came(run, c, id, response)
  {
    var k :| 0 <= k < |run| - 1 && CameAt(run[..|run| - 1], k, c, id, response);
    assert run[..|run| - 1][..k] == run[..k];
    assert CameAt(run, k, c, id, response);
  }

  predicate Sourced(run: seq<Action>, s: State, c: nat)
    requires c in s.calls
  {
    var call := s.calls[c];
    && (call.slot.response.Some? ==> HasId(call.phase))
    && (HasId(call.phase) && call.slot.response.Some? ==> Came(run, c, call.phase.id, call.slot.response.value))
    && (HasId(call.phase) && s.reader.Holding? && s.reader.call == c ==> Came(run, c, call.phase.id, s.reader.response))
    && (call.phase.Done? && call.phase.outcome.Returned? ==>
          Came(run, c, call.phase.id, Response(NumberId(call.phase.id), Result(call.phase.outcome.value))))
  }

  lemma SourcedBefore(run: seq<Action>, s: State, c: nat)
    requires run != [] && c in s.calls && Sourced(run[..|run| - 1], s, c)
    ensures Sourced(run, s, c)
  {
    var call := s.calls[c];
    var before := run[..|run| - 1];
    if HasId(call.phase) {
      if call.slot.response.Some? {
        CameBefore(run, c, call.phase.id, call.slot.response.value);
      }
      if s.reader.Holding? && s.reader.call == c {
        CameBefore(run, c, call.phase.id, s.reader.response);
      }
      if call.phase.Done? && call.phase.outcome.Returned? {
        CameBefore(run, c, call.phase.id, Response(NumberId(call.phase.id), Result(call.phase.outcome.value)));
      }
    }
  }

  lemma NewCall(s: State, a: Action, t: State, c: nat)
    requires t == Next(s, a) && c !in s.calls && c in t.calls
    ensures !HasId(t.calls[c].phase) && t.calls[c].slot == EMPTY
  {
  }

  lemma {:induction false} RunSourced(run: seq<Action>, c: nat)
    requires c in After(run).calls
    ensures Sourced(run, After(run), c)
  {
    if run != [] {
      var before, a := run[..|run| - 1], run[|run| - 1];
      var s := After(before);
      RunConsistent(before);
      if c in s.calls {
        RunSourced(before, c);
        SourcedBefore(run, s, c);
        StepSourced(run, s, a, Next(s, a), c);
      } else {
        NewCall(s, a, Next(s, a), c);
      }
    }
  }

  lemma StepIds(s: State, a: Action, t: State, c: nat)
    requires c in s.calls && t == Next(s, a) && HasId(s.calls[c].phase)
    ensures c in t.calls && HasId(t.calls[c].phase) && t.calls[c].phase.id == s.calls[c].phase.id
  {
  }

  /** A response enters a slot from the reader's hand. */
  lemma StepSlots(s: State, a: Action, t: State, c: nat)
    requires c in s.calls && t == Next(s, a)
    ensures c in t.calls
    ensures t.calls[c].slot.response != s.calls[c].slot.response ==>
      s.reader.Holding? && s.reader.call == c && t.calls[c].slot.response == Some(s.reader.response)
  {
  }

  /** The reader takes up a response for the call that waits for its id. */
  lemma StepReader(s: State, a: Action, t: State)
    requires t == Next(s, a) && t.reader.Holding? && t.reader != s.reader
    ensures a == Receive(t.reader.response) && Knows(s.table, a.response.id)
    ensures s.table.pending[a.response.id.n] == t.reader.call
  {
  }

  /** A call returns what its slot holds. */
  lemma StepReturns(s: State, a: Action, t: State, c: nat)
    requires c in s.calls && t == Next(s, a) && c in t.calls && t.calls[c].phase != s.calls[c].phase
    requires t.calls[c].phase.Done? && t.calls[c].phase.outcome.Returned?
    ensures HasId(s.calls[c].phase) && s.calls[c].slot.response.Some?
    ensures s.calls[c].slot.response.value.body == Result(t.calls[c].phase.outcome.value)
  {
  }

  lemma ResponseSourced(run: seq<Action>, s: State, a: Action, t: State, c: nat)
    requires run != [] && s == After(run[..|run| - 1]) && a == run[|run| - 1] && t == Next(s, a) && Consistent(s)
    requires c in s.calls && Sourced(run, s, c)
    requires t.reader.Holding? && t.reader.call == c && t.reader != s.reader
    ensures c in t.calls && HasId(t.calls[c].phase) && Came(run, c, t.calls[c].phase.id, t.reader.response)
  {
    StepReader(s, a, t);
    var id: nat := a.response.id.n;
    StepIds(s, a, t, c);
    assert CameAt(run, |run| - 1, c, id, t.reader.response);
  }

  lemma StepSourced(run: seq<Action>, s: State, a: Action, t: State, c: nat)
    requires run != [] && s == After(run[..|run| - 1]) && a == run[|run| - 1] && t == Next(s, a) && Consistent(s)
    requires c in s.calls && Sourced(run, s, c)
    ensures c in t.calls && Sourced(run, t, c)
  {
    StepSlots(s, a, t, c);
    assert CallFits(s, c);
    if HasId(s.calls[c].phase) {
      StepIds(s, a, t, c);
    }
    if t.calls[c].phase != s.calls[c].phase && t.calls[c].phase.Done? && t.calls[c].phase.outcome.Returned? {
      StepReturns(s, a, t, c);
    }
    if t.reader.Holding? && t.reader.call == c && t.reader != s.reader {
      ResponseSourced(run, s, a, t, c);
    }
  }

  /** The value a call returns came in a response carrying the id that call drew. */
  lemma ReturnedValueIsTheAnswer(run: seq<Action>, c: nat)
    requires c in After(run).calls && After(run).calls[c].phase.Done? && After(run).calls[c].phase.outcome.Returned?
    ensures
      var phase := After(run).calls[c].phase;
      Came(run, c, phase.id, Response(NumberId(phase.id), Result(phase.outcome.value)))
  {
    RunSourced(run, c);
  }

  // ---- Prefixes of a run -------------------------------------------------------------------------

  lemma PrefixAgrees(run: seq<Action>, n: nat, k: nat)
    requires k <= n <= |run|
    ensures After(run[..n][..k]) == After(run[..k])
  {
    assert run[..n][..k] == run[..k];
  }

  lemma AfterOne(run: seq<Action>, a: Action)
    ensures After(run + [a]) == Next(After(run), a)
  {
    assert (run + [a])[..|run|] == run;
  }

  // ---- Calls pending after the end ---------------------------------------------------------------

  /** Step `k` gave out the id when the pending map had been cleared already. */
  predicate IssuedLate(run: seq<Action>, k: nat, id: nat)
    requires k < |run|
  {
    After(run[..k]).failure.Telling? && Issues(After(run[..k]), run[k], id)
  }

  /** No step after `k` takes the entry out. */
  predicate StaysFrom(run: seq<Action>, k: nat, id: nat) {
    forall m :: k < m < |run| ==> !LeavesAt(run, m, id)
  }

  predicate LeavesAt(run: seq<Action>, m: nat, id: nat)
    requires m < |run|
  {
    Leaves(After(run[..m]), run[m], id)
  }

  predicate PendingLate(run: seq<Action>, id: nat) {
    exists k :: 0 <= k < |run| && IssuedLate(run, k, id) && StaysFrom(run, k, id)
  }

  lemma IssueEnters(s: State, a: Action, t: State, id: nat)
    requires t == Next(s, a) && Issues(s, a, id)
    ensures id in t.table.pending
  {
  }

  lemma NotLeft(s: State, a: Action, t: State, id: nat)
    requires t == Next(s, a) && id in s.table.pending && !Leaves(s, a, id)
    ensures id in t.table.pending
  {
  }

  /** How an id can be pending once the map is cleared: it was before, or it was issued in this step. */
  lemma StepPending(s: State, a: Action, t: State, id: nat)
    requires t == Next(s, a) && t.failure.Telling? && id in t.table.pending
    ensures s.failure.Telling? && (id in s.table.pending || Issues(s, a, id))
  {
  }

  lemma StillStays(run: seq<Action>, k: nat, id: nat)
    requires run != [] && k < |run| - 1 && StaysFrom(run[..|run| - 1], k, id) && id in After(run).table.pending
    ensures StaysFrom(run, k, id)
  {
    forall m | k < m < |run|
      ensures !LeavesAt(run, m, id)
    {
      StillStaysAt(run, k, id, m);
    }
  }

  lemma StillStaysAt(run: seq<Action>, k: nat, id: nat, m: nat)
    requires k < m < |run| && StaysFrom(run[..|run| - 1], k, id) && id in After(run).table.pending
    ensures !LeavesAt(run, m, id)
  {
    if m < |run| - 1 {
      LeavesAtPrefix(run, m, id);
    } else {
      StaysNow(run, id);
    }
  }

  lemma LeavesAtPrefix(run: seq<Action>, m: nat, id: nat)
    requires m < |run| - 1
    ensures LeavesAt(run[..|run| - 1], m, id) <==> LeavesAt(run, m, id)
  {
    PrefixAgrees(run, |run| - 1, m);
  }

  lemma StaysNow(run: seq<Action>, id: nat)
    requires run != [] && id in After(run).table.pending
    ensures !LeavesAt(run, |run| - 1, id)
  {
  }

  lemma {:induction false} LatePending(run: seq<Action>, id: nat)
    requires After(run).failure.Telling? && id in After(run).table.pending
    ensures PendingLate(run, id)
  {
    var n := |run| - 1;
    var s := After(run[..n]);
    StepPending(s, run[n], After(run), id);
    if id in s.table.pending {
      LatePending(run[..n], id);
      var k :| 0 <= k < n && IssuedLate(run[..n], k, id) && StaysFrom(run[..n], k, id);
      PrefixAgrees(run, n, k);
      assert IssuedLate(run, k, id);
      StillStays(run, k, id);
    } else {
      assert IssuedLate(run, n, id);
    }
  }

  lemma IssuedAt(run: seq<Action>, k: nat, id: nat)
    requires k < |run| && IssuedLate(run, k, id)
    ensures id in After(run[..k + 1]).table.pending
  {
    StepAt(run, k);
    IssueEnters(After(run[..k]), run[k], After(run[..k + 1]), id);
  }

  lemma NotLeftAt(run: seq<Action>, m: nat, id: nat)
    requires m < |run| && id in After(run[..m]).table.pending && !LeavesAt(run, m, id)
    ensures id in After(run[..m + 1]).table.pending
  {
    StepAt(run, m);
    NotLeft(After(run[..m]), run[m], After(run[..m + 1]), id);
  }

  lemma {:induction false} Stays(run: seq<Action>, k: nat, id: nat, m: nat)
    requires k <= m < |run| && IssuedLate(run, k, id) && StaysFrom(run, k, id)
    ensures id in After(run[..m + 1]).table.pending
    decreases m
  {
    if m == k {
      IssuedAt(run, k, id);
    } else {
      Stays(run, k, id, m - 1);
      NotLeftAt(run, m, id);
    }
  }

  lemma WholeRun(run: seq<Action>, n: nat)
    requires n + 1 == |run|
    ensures run[..n + 1] == run
  {
  }

  lemma StaysToTheEnd(run: seq<Action>, k: nat, id: nat, n: nat)
    requires k <= n && n + 1 == |run| && IssuedLate(run, k, id) && StaysFrom(run, k, id)
    ensures id in After(run).table.pending
  {
    WholeRun(run, n);
    Stays(run, k, id, n);
  }

  lemma LateStays(run: seq<Action>, id: nat)
    requires PendingLate(run, id)
    ensures id in After(run).table.pending
  {
    var k :| 0 <= k < |run| && IssuedLate(run, k, id) && StaysFrom(run, k, id);
    StaysToTheEnd(run, k, id, |run| - 1);
  }

  /** After the end has cleared the map, the pending ids are those issued since then that have not left. */
  lemma PendingAfterTheEnd(run: seq<Action>, id: nat)
    requires After(run).failure.Telling?
    ensures id in After(run).table.pending <==> PendingLate(run, id)
  {
    if PendingLate(run, id) {
      LateStays(run, id);
    } else if id in After(run).table.pending {
      LatePending(run, id);
    }
  }

  /** Such a run exists: a call passes its check, the client ends and clears the map, the call registers. */
  lemma LateCall(text: string)
    ensures
      var s := After([Begin(0), Terminate(text, true)] + [ClearPending([])] + [Register(0)]);
      s.failure == Telling([], false) && s.table.pending == map[1 := 0]
  {
    CheckedThenEnded(text);
    AfterOne([Begin(0), Terminate(text, true)], ClearPending([]));
    AfterOne([Begin(0), Terminate(text, true)] + [ClearPending([])], Register(0));
  }

  lemma CheckedThenEnded(text: string)
    ensures After([Begin(0), Terminate(text, true)]) ==
      INITIAL.(table := Terminated(EmptyTable(), Outside(text)), calls := map[0 := Call(Checked, EMPTY)],
               failure := Taken)
  {
    AfterOne([], Begin(0));
    assert [] + [Begin(0)] == [Begin(0)];
    AfterOne([Begin(0)], Terminate(text, true));
    assert [Begin(0)] + [Terminate(text, true)] == [Begin(0), Terminate(text, true)];
  }

  // ---- Sessions ----------------------------------------------------------------------------------

  predicate Installs(s: State, a: Action) {
    a.Install? && CanInstall(s, a.c)
  }

  lemma StepInstalls(s: State, a: Action, t: State)
    requires t == Next(s, a)
    ensures |t.installed| == |s.installed| + if Installs(s, a) then 1 else 0
  {
  }

  lemma StepOwed(s: State, a: Action, t: State)
    requires t == Next(s, a)
    ensures t.notified + t.owed + Owed(t.table.session)
      <= s.notified + s.owed + Owed(s.table.session) + if Installs(s, a) then 1 else 0
  {
  }

  /** Every loss that is or will be reported used up its own installed session. */
  lemma {:induction false} LossesNeverExceedSessions(run: seq<Action>)
    ensures After(run).notified + After(run).owed + Owed(After(run).table.session) <= |After(run).installed|
  {
    if run != [] {
      LossesNeverExceedSessions(run[..|run| - 1]);
      StepInstalls(After(run[..|run| - 1]), run[|run| - 1], After(run));
      StepOwed(After(run[..|run| - 1]), run[|run| - 1], After(run));
    }
  }

  predicate Drops(s: State, a: Action) {
    s.table.session.Some? && Next(s, a).table.session.None?
  }

  /** After the end a session goes only when it is dropped or a call finds it invalid. */
  lemma HowSessionsGo(s: State, a: Action)
    requires s.table.terminal.Some? && Drops(s, a)
    ensures a.DropSession? || (a.CallLosesSession? && a.c in s.calls && s.calls[a.c].phase.Losing?)
  {
  }

  /** Step `k` installs a session in a client that has ended. */
  predicate InstalledLate(run: seq<Action>, k: nat)
    requires k < |run|
  {
    After(run[..k]).table.terminal.Some? && Installs(After(run[..k]), run[k])
  }

  predicate DropsAt(run: seq<Action>, m: nat)
    requires m < |run|
  {
    Drops(After(run[..m]), run[m])
  }

  predicate KeptFrom(run: seq<Action>, k: nat) {
    forall m :: k < m < |run| ==> !DropsAt(run, m)
  }

  predicate SessionLate(run: seq<Action>) {
    exists k :: 0 <= k < |run| && InstalledLate(run, k) && KeptFrom(run, k)
  }

  lemma StepSession(s: State, a: Action, t: State)
    requires t == Next(s, a) && t.table.terminal.Some? && t.table.session.Some?
    ensures s.table.terminal.Some? && (Installs(s, a) || s.table.session.Some?)
  {
  }

  lemma InstallEnters(s: State, a: Action)
    requires Installs(s, a)
    ensures Next(s, a).table.session.Some?
  {
  }

  lemma {:induction false} LateSession(run: seq<Action>)
    requires After(run).table.terminal.Some? && After(run).table.session.Some?
    ensures SessionLate(run)
  {
    var n := |run| - 1;
    var s := After(run[..n]);
    StepSession(s, run[n], After(run));
    if Installs(s, run[n]) {
      assert InstalledLate(run, n);
    } else {
      LateSession(run[..n]);
      var k :| 0 <= k < n && InstalledLate(run[..n], k) && KeptFrom(run[..n], k);
      PrefixAgrees(run, n, k);
      assert InstalledLate(run, k);
      forall m | k < m < |run|
        ensures !DropsAt(run, m)
      {
        if m < n {
          PrefixAgrees(run, n, m);
          assert !DropsAt(run[..n], m);
        }
      }
    }
  }

  lemma {:induction false} Kept(run: seq<Action>, k: nat, j: nat)
    requires k < j <= |run| && InstalledLate(run, k) && KeptFrom(run, k)
    ensures After(run[..j]).table.session.Some?
    decreases j
  {
    StepAt(run, j - 1);
    if j == k + 1 {
      InstallEnters(After(run[..k]), run[k]);
    } else {
      Kept(run, k, j - 1);
      assert !DropsAt(run, j - 1);
    }
  }

  /** An ended client holds a session exactly if an unlock installed one after the end and nothing took it since. */
  lemma SessionAfterTheEnd(run: seq<Action>)
    requires After(run).table.terminal.Some?
    ensures After(run).table.session.Some? <==> SessionLate(run)
  {
    if After(run).table.session.Some? {
      LateSession(run);
    }
    if SessionLate(run) {
      var k :| 0 <= k < |run| && InstalledLate(run, k) && KeptFrom(run, k);
      Kept(run, k, |run|);
      assert run[..|run|] == run;
    }
  }

  /** Such a run exists: the unlock call returns, the client ends, and only then is the session installed. */
  lemma LateUnlock(value: string, text: string, token: string)
    ensures
      var s := After(Answered(value) + [Wakes(0)] + [Terminate(text, true)] + [Install(0, token)]);
      s.table.terminal.Some? && s.table.session == Some(token)
  {
    CallAnswered(value);
    AfterOne(Answered(value), Wakes(0));
    AfterOne(Answered(value) + [Wakes(0)], Terminate(text, true));
    AfterOne(Answered(value) + [Wakes(0)] + [Terminate(text, true)], Install(0, token));
  }

  function Answer(value: string): Response {
    Response(NumberId(1), Result(value))
  }

  /** A call begins, registers and is written; its response is received, stored and signalled. */
  function Answered(value: string): seq<Action> {
    [] + [Begin(0)] + [Register(0)] + [Write(0)] + [Receive(Answer(value))] + [StoreResponse] + [SignalResponse]
  }

  lemma CallWritten()
    ensures After([] + [Begin(0)] + [Register(0)] + [Write(0)]) ==
      INITIAL.(table := EmptyTable().(nextId := 2, pending := map[1 := 0]), calls := map[0 := Call(Waiting(1), EMPTY)])
  {
    AfterOne([], Begin(0));
    AfterOne([] + [Begin(0)], Register(0));
    AfterOne([] + [Begin(0)] + [Register(0)], Write(0));
  }

  lemma CallAnswered(value: string)
    ensures After(Answered(value)) ==
      INITIAL.(table := EmptyTable().(nextId := 2),
               calls := map[0 := Call(Waiting(1), Slot(Some(Answer(value)), None, true))])
  {
    CallWritten();
    var written := [] + [Begin(0)] + [Register(0)] + [Write(0)];
    AfterOne(written, Receive(Answer(value)));
    AfterOne(written + [Receive(Answer(value))], StoreResponse);
    AfterOne(written + [Receive(Answer(value))] + [StoreResponse], SignalResponse);
  }
}
