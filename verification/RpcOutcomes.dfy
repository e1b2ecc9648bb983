/** What each response leads to: how calls end over every interleaving, and why. */
module RpcOutcomes {
  import opened RpcCalls
  import opened RpcRuns
  import opened RpcGuarantees

  // ---- One step, seen from one call --------------------------------------------------------------

  /** The session is gone after the step, and its loss is owed a report if there was one. */
  predicate SessionTaken(s: State, t: State) {
    t.table.session.None? && t.owed == s.owed + Owed(s.table.session)
  }

  predicate BodyIs(slot: Slot, body: Body) {
    slot.response.Some? && slot.response.value.body == body
  }

  /** What a call that wakes up with this slot does next. */
  predicate WakesTo(id: nat, slot: Slot, phase: Phase) {
    if slot.error.Some? then phase == Done(id, Raised(slot.error.value))
    else if slot.response.None? then phase == Done(id, Raised(Unavailable))
    else
      match slot.response.value.body
      case Result(value) => phase == Done(id, Returned(value))
      case SessionInvalid => phase == Losing(id)
      case OtherRemote(name) => phase == Done(id, Raised(Remote(OtherRemote(name))))
      case BrokenContract => phase == Failing(id, Protocol)
  }

  /** How one step can move a call on towards its end. */
  predicate MovesBy(s: State, a: Action, t: State, c: nat)
    requires c in s.calls && c in t.calls
  {
    var p, q := s.calls[c].phase, t.calls[c].phase;
    match a
    case EncodeFails(d) => d == c && p.Registered? && q == Done(p.id, Raised(Error.EncodingFailed))
    case WriteFails(d) => d == c && p.Registered? && q == Failing(p.id, WriteFailed)
    case TimesOut(d) => d == c && p.Waiting? && q == Failing(p.id, Error.TimedOut)
    case Wakes(d) =>
      d == c && p.Waiting? && t.table == s.table && t.owed == s.owed && WakesTo(p.id, s.calls[c].slot, q)
    case CallTerminates(d) =>
      d == c && p.Failing? && q == Done(p.id, Raised(p.error)) && t.table.terminal.Some?
    case CallLosesSession(d) =>
      d == c && p.Losing? && q == Done(p.id, Raised(Remote(SessionInvalid))) && SessionTaken(s, t)
    case _ => !q.Done? && !q.Failing? && !q.Losing?
  }

  lemma CallMoves(s: State, a: Action, t: State, c: nat)
    requires t == Next(s, a) && c in s.calls
    ensures c in t.calls
    ensures t.calls[c].phase != s.calls[c].phase ==> MovesBy(s, a, t, c)
  {
  }

  /** An error enters a slot from the failing thread. */
  lemma StepErrors(s: State, a: Action, t: State, c: nat)
    requires t == Next(s, a) && c in s.calls
    ensures c in t.calls
    ensures t.calls[c].slot.error != s.calls[c].slot.error ==> WithFailure(s, c) && !s.failure.marked
  {
  }

  lemma NothingYet(s: State, c: nat)
    requires c in s.calls && CallFits(s, c)
    ensures s.reader.Holding? && s.reader.call == c ==> s.calls[c].slot.response.None?
    ensures WithFailure(s, c) && !s.failure.marked ==> s.calls[c].slot.error.None?
  {
  }

  /** What a slot holds it keeps: a response and an error come in once. */
  lemma SlotKeeps(s: State, a: Action, t: State, c: nat)
    requires t == Next(s, a) && Consistent(s) && c in s.calls
    ensures c in t.calls
    ensures s.calls[c].slot.response.Some? ==> t.calls[c].slot.response == s.calls[c].slot.response
    ensures s.calls[c].slot.error.Some? ==> t.calls[c].slot.error == s.calls[c].slot.error
  {
    StepSlots(s, a, t, c);
    StepErrors(s, a, t, c);
    NothingYet(s, c);
  }

  // ---- Why a call ended --------------------------------------------------------------------------

  /** Some step of the run took the session away for call `c`. */
  predicate LostFor(run: seq<Action>, c: nat) {
    exists k :: 0 <= k < |run| && LosesAt(run, k, c)
  }

  predicate LosesAt(run: seq<Action>, k: nat, c: nat)
    requires k < |run|
  {
    run[k] == CallLosesSession(c) && SessionTaken(After(run[..k]), After(run[..k + 1]))
  }

  /** An error that the call ran into by itself, with the step that did it. */
  predicate OwnFailure(run: seq<Action>, c: nat, e: Error) {
    (e == WriteFailed && WriteFails(c) in run) || (e == Error.TimedOut && TimesOut(c) in run)
  }

  predicate Explained(run: seq<Action>, s: State, c: nat)
    requires c in s.calls
  {
    var slot := s.calls[c].slot;
    match s.calls[c].phase
    case Failing(_, e) => OwnFailure(run, c, e) || (e == Protocol && BodyIs(slot, BrokenContract))
    case Losing(_) => BodyIs(slot, SessionInvalid)
    case Done(_, Returned(value)) => BodyIs(slot, Result(value))
    case Done(_, Raised(e)) =>
      || (e == Error.EncodingFailed && EncodeFails(c) in run)
      || (OwnFailure(run, c, e) && s.table.terminal.Some?)
      || (e == Protocol && BodyIs(slot, BrokenContract) && s.table.terminal.Some?)
      || (e.Remote? && e.body.OtherRemote? && BodyIs(slot, e.body))
      || (e == Remote(SessionInvalid) && BodyIs(slot, SessionInvalid) && LostFor(run, c))
      || (e != Unavailable && slot.error == Some(e))
    case _ => true
  }

  lemma LostEarlier(run: seq<Action>, c: nat)
    requires run != [] && LostFor(run[..|run| - 1], c)
    ensures LostFor(run, c)
  {
    var k :| 0 <= k < |run| - 1 && LosesAt(run[..|run| - 1], k, c);
    PrefixAgrees(run, |run| - 1, k);
    PrefixAgrees(run, |run| - 1, k + 1);
    assert LosesAt(run, k, c);
  }

  lemma LostNow(run: seq<Action>, c: nat)
    requires run != [] && run[|run| - 1] == CallLosesSession(c)
    requires SessionTaken(After(run[..|run| - 1]), After(run))
    ensures LostFor(run, c)
  {
    assert run[..|run| - 1 + 1] == run;
    assert LosesAt(run, |run| - 1, c);
  }

  lemma ExplainedEarlier(run: seq<Action>, s: State, c: nat)
    requires run != [] && c in s.calls && Explained(run[..|run| - 1], s, c)
    ensures Explained(run, s, c)
  {
    if LostFor(run[..|run| - 1], c) {
      LostEarlier(run, c);
    }
  }

  /** A terminal error stays, and what a phase relied on in its slot stays. */
  lemma ExplainedKeeps(run: seq<Action>, s: State, a: Action, t: State, c: nat)
    requires t == Next(s, a) && Consistent(s) && c in s.calls && Explained(run, s, c)
    requires c in t.calls && t.calls[c].phase == s.calls[c].phase
    ensures Explained(run, t, c)
  {
    SlotKeeps(s, a, t, c);
    NextLater(s, a, t);
  }

  lemma WakingExplained(run: seq<Action>, s: State, t: State, c: nat)
    requires c in s.calls && c in t.calls && s.calls[c].phase.Waiting? && t.calls[c].slot == s.calls[c].slot
    requires Consistent(s) && s.calls[c].slot.signalled
    requires WakesTo(s.calls[c].phase.id, s.calls[c].slot, t.calls[c].phase)
    ensures Explained(run, t, c)
  {
    assert CallFits(s, c);
  }

  lemma WokenSlot(s: State, c: nat)
    requires c in s.calls && Next(s, Wakes(c)) != s
    ensures s.calls[c].phase.Waiting? && s.calls[c].slot.signalled
    ensures c in Next(s, Wakes(c)).calls && Next(s, Wakes(c)).calls[c].slot == s.calls[c].slot
  {
  }

  lemma MoveExplained(run: seq<Action>, s: State, a: Action, t: State, c: nat)
    requires run != [] && s == After(run[..|run| - 1]) && a == run[|run| - 1] && t == Next(s, a) && Consistent(s)
    requires c in s.calls && c in t.calls && Explained(run, s, c) && t.calls[c].phase != s.calls[c].phase
    ensures Explained(run, t, c)
  {
    CallMoves(s, a, t, c);
    SlotKeeps(s, a, t, c);
    if a == Wakes(c) {
      WokenSlot(s, c);
      WakingExplained(run, s, t, c);
    } else if a == CallLosesSession(c) {
      LostNow(run, c);
    }
  }

  lemma NewUnexplained(s: State, a: Action, t: State, c: nat)
    requires t == Next(s, a) && c !in s.calls && c in t.calls
    ensures t.calls[c].phase.Checked? || t.calls[c].phase.Refused?
  {
  }

  lemma {:induction false} RunExplained(run: seq<Action>, c: nat)
    requires c in After(run).calls
    ensures Explained(run, After(run), c)
  {
    if run != [] {
      var before, a := run[..|run| - 1], run[|run| - 1];
      var s, t := After(before), After(run);
      RunConsistent(before);
      if c in s.calls {
        RunExplained(before, c);
        ExplainedEarlier(run, s, c);
        if t.calls[c].phase == s.calls[c].phase {
          ExplainedKeeps(run, s, a, t, c);
        } else {
          MoveExplained(run, s, a, t, c);
        }
      } else {
        NewUnexplained(s, a, t, c);
      }
    }
  }

  // ---- The response that came --------------------------------------------------------------------

  /** The response is in the reader's hand or in the slot, and its id is used up. */
  predicate Arrived(s: State, c: nat, id: nat, response: Response) {
    && c in s.calls && HasId(s.calls[c].phase) && s.calls[c].phase.id == id && Answers(response, id)
    && id < s.table.nextId && id !in s.table.pending
    && (s.reader == Holding(c, response) || s.calls[c].slot.response == Some(response))
  }

  lemma ArrivesNow(s: State, t: State, c: nat, id: nat, response: Response)
    requires t == Next(s, Receive(response)) && Consistent(s) && Answers(response, id)
    requires id in s.table.pending && s.table.pending[id] == c
    ensures s.reader == Idle ==> Arrived(t, c, id, response)
    ensures s.reader != Idle ==> t == s
  {
  }

  /** The reader lets go of a response only into the slot of its call. */
  lemma ReaderKeeps(s: State, a: Action, t: State, c: nat, response: Response)
    requires t == Next(s, a) && c in s.calls && s.reader == Holding(c, response)
    ensures c in t.calls && (t.reader == Holding(c, response) || t.calls[c].slot.response == Some(response))
  {
  }

  lemma ArrivedKeeps(s: State, a: Action, t: State, c: nat, id: nat, response: Response)
    requires t == Next(s, a) && Consistent(s) && Arrived(s, c, id, response)
    ensures Arrived(t, c, id, response)
  {
    StepIds(s, a, t, c);
    SlotKeeps(s, a, t, c);
    NextLater(s, a, t);
    if s.reader == Holding(c, response) {
      ReaderKeeps(s, a, t, c, response);
    }
  }

  lemma {:induction false} ArrivedLater(run: seq<Action>, k: nat, m: nat, c: nat, id: nat, response: Response)
    requires k <= m <= |run| && Arrived(After(run[..k]), c, id, response)
    ensures Arrived(After(run[..m]), c, id, response)
    decreases m
  {
    if k < m {
      ArrivedLater(run, k, m - 1, c, id, response);
      StepAt(run, m - 1);
      RunConsistent(run[..m - 1]);
      ArrivedKeeps(After(run[..m - 1]), run[m - 1], After(run[..m]), c, id, response);
    }
  }

  /** The reader was free to take the response up, and its entry was pending for the call. */
  predicate TakenUp(run: seq<Action>, c: nat, id: nat, response: Response) {
    exists k :: 0 <= k < |run| && CameAt(run, k, c, id, response) && After(run[..k]).reader == Idle
  }

  lemma TakenUpArrives(run: seq<Action>, c: nat, id: nat, response: Response)
    requires TakenUp(run, c, id, response)
    ensures Arrived(After(run), c, id, response)
  {
    var k :| 0 <= k < |run| && CameAt(run, k, c, id, response) && After(run[..k]).reader == Idle;
    StepAt(run, k);
    RunConsistent(run[..k]);
    ArrivesNow(After(run[..k]), After(run[..k + 1]), c, id, response);
    ArrivedLater(run, k + 1, |run|, c, id, response);
    assert run[..|run|] == run;
  }

  lemma NoErrorBeside(s: State, c: nat, id: nat, response: Response)
    requires Consistent(s) && Arrived(s, c, id, response)
    ensures s.calls[c].slot.error.None?
    ensures s.calls[c].slot.response.Some? ==> s.calls[c].slot.response == Some(response)
  {
    assert CallFits(s, c);
  }

  /** The call ended by an error of its own before it could look at its slot. */
  predicate CutShort(run: seq<Action>, c: nat, outcome: Outcome) {
    && outcome.Raised?
    && ((outcome.error == Error.EncodingFailed && EncodeFails(c) in run)
        || (OwnFailure(run, c, outcome.error) && After(run).table.terminal.Some?))
  }

  /**
   * What a response leads to, in every run: its value is returned; a lost session is taken away and owed a
   * report; another remote error is raised; a broken contract ends the client. The only other way for such
   * a call to end is an error of its own.
   */
  lemma OutcomeFollowsResponse(run: seq<Action>, c: nat, id: nat, response: Response)
    requires TakenUp(run, c, id, response) && c in After(run).calls && After(run).calls[c].phase.Done?
    ensures var outcome := After(run).calls[c].phase.outcome;
      CutShort(run, c, outcome) ||
      match response.body
      case Result(value) => outcome == Returned(value)
      case SessionInvalid => outcome == Raised(Remote(SessionInvalid)) && LostFor(run, c)
      case OtherRemote(name) => outcome == Raised(Remote(OtherRemote(name)))
      case BrokenContract => outcome == Raised(Protocol) && After(run).table.terminal.Some?
  {
    TakenUpArrives(run, c, id, response);
    RunConsistent(run);
    RunExplained(run, c);
    NoErrorBeside(After(run), c, id, response);
  }

  lemma ReportedLoss(run: seq<Action>, s: State, c: nat)
    requires Consistent(s) && c in s.calls && Explained(run, s, c)
    requires s.calls[c].phase.Done? && s.calls[c].phase.outcome == Raised(Remote(SessionInvalid))
    ensures LostFor(run, c)
    ensures s.calls[c].slot.response == Some(Response(NumberId(s.calls[c].phase.id), SessionInvalid))
  {
    assert CallFits(s, c);
    if s.calls[c].slot.error.Some? {
      ErrorIsFatal(s, c);
    }
  }

  lemma SlotCame(run: seq<Action>, s: State, c: nat, response: Response)
    requires c in s.calls && HasId(s.calls[c].phase) && Sourced(run, s, c) && s.calls[c].slot.response == Some(response)
    ensures Came(run, c, s.calls[c].phase.id, response)
  {
  }

  /** A call that reports a lost session had that answer, and a step of the run took the session for it. */
  lemma SessionLossIsReported(run: seq<Action>, c: nat)
    requires c in After(run).calls && After(run).calls[c].phase.Done?
    requires After(run).calls[c].phase.outcome == Raised(Remote(SessionInvalid))
    ensures LostFor(run, c)
    ensures var id := After(run).calls[c].phase.id; Came(run, c, id, Response(NumberId(id), SessionInvalid))
  {
    RunExplained(run, c);
    RunConsistent(run);
    RunSourced(run, c);
    ReportedLoss(run, After(run), c);
    SlotCame(run, After(run), c, Response(NumberId(After(run).calls[c].phase.id), SessionInvalid));
  }

  lemma ErrorIsFatal(s: State, c: nat)
    requires Consistent(s) && c in s.calls && s.calls[c].slot.error.Some? && HasId(s.calls[c].phase)
    ensures Fatal(s.calls[c].slot.error.value)
  {
    assert CallFits(s, c);
  }

  /** A call that wakes up changes nothing but its own phase: another remote error leaves session and client alone. */
  lemma WakingIsPrivate(s: State, c: nat)
    requires c in s.calls
    ensures var t := Next(s, Wakes(c));
      && c in t.calls && t == s.(calls := s.calls[c := Call(t.calls[c].phase, s.calls[c].slot)])
  {
  }

  /** A session is installed only for a call that was answered with a value, and once for each. */
  lemma InstallHasAnAnswer(run: seq<Action>, c: nat, token: string)
    requires Next(After(run), Install(c, token)) != After(run)
    ensures var s, t := After(run), Next(After(run), Install(c, token));
      && c in s.calls && s.calls[c].phase.Done? && s.calls[c].phase.outcome.Returned? && c !in s.installed
      && t == s.(table := s.table.(session := Some(token)), installed := s.installed + {c})
      && var phase := s.calls[c].phase;
        Came(run, c, phase.id, Response(NumberId(phase.id), Result(phase.outcome.value)))
  {
    ReturnedValueIsTheAnswer(run, c);
  }

  // ---- A call that is answered ends --------------------------------------------------------------

  /** The steps from a response on the wire to the call that waits for it. */
  function Delivery(c: nat, response: Response): seq<Action> {
    [Receive(response), StoreResponse, SignalResponse, Wakes(c)]
  }

  /** The state after some more steps. */
  function Onwards(s: State, actions: seq<Action>): State
    decreases |actions|
  {
    if actions == [] then s else Onwards(Next(s, actions[0]), actions[1..])
  }

  lemma {:induction false} OnwardsIsRun(run: seq<Action>, actions: seq<Action>)
    ensures After(run + actions) == Onwards(After(run), actions)
    decreases |actions|
  {
    if actions == [] {
      assert run + actions == run;
    } else {
      AfterOne(run, actions[0]);
      OnwardsIsRun(run + [actions[0]], actions[1..]);
      assert run + [actions[0]] + actions[1..] == run + actions;
    }
  }

  lemma OnwardsFour(s: State, a: Action, b: Action, c: Action, d: Action)
    ensures Onwards(s, [a, b, c, d]) == Next(Next(Next(Next(s, a), b), c), d)
  {
    assert [a, b, c, d][1..] == [b, c, d] && [b, c, d][1..] == [c, d] && [c, d][1..] == [d] && [d][1..] == [];
    var t := Next(Next(s, a), b);
    assert Onwards(s, [a, b, c, d]) == Onwards(Next(s, a), [b, c, d]) == Onwards(t, [c, d]);
    assert Onwards(t, [c, d]) == Onwards(Next(t, c), [d]) == Onwards(Next(Next(t, c), d), []);
  }

  /** What a waiting call comes to when its response is delivered. */
  predicate Answered(s: State, t: State, c: nat, id: nat, body: Body) {
    && c in t.calls && t.table == s.table.(pending := s.table.pending - {id}) && t.reader == Idle
    && t.failure == s.failure && t.owed == s.owed
    && match body
       case Result(value) => t.calls[c].phase == Done(id, Returned(value))
       case SessionInvalid => t.calls[c].phase == Losing(id)
       case OtherRemote(name) => t.calls[c].phase == Done(id, Raised(Remote(OtherRemote(name))))
       case BrokenContract => t.calls[c].phase == Failing(id, Protocol)
  }

  lemma DeliverySteps(s: State, c: nat, id: nat, body: Body)
    requires Consistent(s) && c in s.calls && s.calls[c].phase == Waiting(id) && InTable(s, c) && s.reader == Idle
    ensures var response := Response(NumberId(id), body);
      Answered(s, Next(Next(Next(Next(s, Receive(response)), StoreResponse), SignalResponse), Wakes(c)), c, id, body)
  {
    assert CallFits(s, c);
    var response := Response(NumberId(id), body);
    var held := Next(s, Receive(response));
    assert held == s.(table := Popped(s.table, id), reader := Holding(c, response));
    var stored := Next(held, StoreResponse);
    assert stored.reader == Stored(c) && stored.calls[c].slot == Slot(Some(response), None, false);
    var signalled := Next(stored, SignalResponse);
    assert signalled.calls[c].slot == Slot(Some(response), None, true);
  }

  /** From any state of any run, a waiting call whose response is delivered ends as the response says. */
  lemma DeliveryAnswers(run: seq<Action>, c: nat, id: nat, body: Body)
    requires c in After(run).calls && After(run).calls[c].phase == Waiting(id)
    requires InTable(After(run), c) && After(run).reader == Idle
    ensures Answered(After(run), After(run + Delivery(c, Response(NumberId(id), body))), c, id, body)
  {
    var response := Response(NumberId(id), body);
    RunConsistent(run);
    DeliverySteps(After(run), c, id, body);
    OnwardsIsRun(run, Delivery(c, response));
    OnwardsFour(After(run), Receive(response), StoreResponse, SignalResponse, Wakes(c));
  }

  /** The last step of a call whose answer costs the session, or the client. */
  lemma LastStep(s: State, c: nat)
    requires c in s.calls
    ensures s.calls[c].phase.Losing? ==>
      var t := Next(s, CallLosesSession(c));
      SessionTaken(s, t) && t.calls[c].phase == Done(s.calls[c].phase.id, Raised(Remote(SessionInvalid)))
    ensures s.calls[c].phase.Failing? ==>
      var t := Next(s, CallTerminates(c));
      && t.calls[c].phase == Done(s.calls[c].phase.id, Raised(s.calls[c].phase.error))
      && t.table.terminal == (if s.table.terminal.Some? then s.table.terminal else Some(s.calls[c].phase.error))
      && (s.table.terminal.None? ==> t.table.session.None? && t.owed == s.owed + Owed(s.table.session))
  {
  }

  /** The step that ends the client takes the session, owing its loss unless told to keep quiet. */
  lemma TheEndTakesTheSession(s: State, a: Action)
    requires s.table.terminal.None? && Next(s, a).table.terminal.Some?
    ensures var t := Next(s, a);
      && t.failure == Taken && t.table.session.None? && t.table.pending == s.table.pending
      && t.owed == s.owed + (if a.Terminate? && !a.notify then 0 else Owed(s.table.session))
    ensures a.CallTerminates? || a.ReaderTerminates? || a.Terminate?
    ensures a.Terminate? ==> Next(s, a).table.terminal == Some(Outside(a.text))
    ensures a.ReaderTerminates? ==> s.reader.Giving? && Next(s, a).table.terminal == Some(s.reader.error)
  {
  }

  /** A response that nobody waits for makes the reader end the client, with the error that fits its id. */
  lemma UnknownResponseEnds(s: State, response: Response)
    requires s.reader == Idle && s.table.terminal.None?
    requires response.id.NumberId? ==> response.id.n < 0 || response.id.n !in s.table.pending
    ensures var t := Next(Next(s, Receive(response)), ReaderTerminates);
      && t.table.terminal == Some(if response.id == NullId then Uncorrelated else UnknownId)
      && t.table.session.None? && t.table.pending == s.table.pending && t.calls == s.calls && t.reader == Idle
  {
  }

  // ---- The end reaches everybody -----------------------------------------------------------------

  /** The failing thread marks and signals one waiting object after the other. */
  function Tell(n: nat): seq<Action> {
    if n == 0 then [] else [MarkVictim, SignalVictim] + Tell(n - 1)
  }

  lemma TellOne(s: State, rest: seq<Action>)
    ensures Onwards(s, [MarkVictim, SignalVictim] + rest) == Onwards(Next(Next(s, MarkVictim), SignalVictim), rest)
  {
    var all := [MarkVictim, SignalVictim] + rest;
    assert all[1..] == [SignalVictim] + rest && ([SignalVictim] + rest)[1..] == rest;
    assert Onwards(s, all) == Onwards(Next(s, MarkVictim), [SignalVictim] + rest);
  }

  predicate Told(s: State, t: State, c: nat) {
    && c in s.calls && c in t.calls && t.calls[c].phase == s.calls[c].phase
    && t.calls[c].slot.signalled && t.calls[c].slot.error == s.table.terminal
  }

  /** All victims are told, nobody else is touched, and the failing thread is done. */
  predicate AllTold(s: State, t: State, victims: seq<nat>) {
    && t.failure == Telling([], false) && t.table == s.table && t.calls.Keys == s.calls.Keys
    && (forall c :: c in victims ==> Told(s, t, c))
    && (forall c :: c in s.calls && c !in victims ==> t.calls[c] == s.calls[c])
  }

  predicate FirstTold(s: State, t: State, c: nat, rest: seq<nat>) {
    && t.failure == Telling(rest, false) && t.table == s.table && Told(s, t, c)
    && t.calls.Keys == s.calls.Keys && forall d :: d in s.calls && d != c ==> t.calls[d] == s.calls[d]
  }

  lemma TellStep(s: State)
    requires Consistent(s) && s.failure.Telling? && !s.failure.marked && s.failure.victims != []
    ensures FirstTold(s, Next(Next(s, MarkVictim), SignalVictim), s.failure.victims[0], s.failure.victims[1..])
  {
  }

  lemma TellChain(s: State, u: State, t: State, victims: seq<nat>)
    requires victims != [] && Distinct(victims) && forall c :: c in victims ==> c in s.calls
    requires FirstTold(s, u, victims[0], victims[1..]) && AllTold(u, t, victims[1..])
    ensures AllTold(s, t, victims)
  {
    TailDistinct(victims);
  }

  lemma TellKeeps(s: State)
    requires Consistent(s)
    ensures Consistent(Next(Next(s, MarkVictim), SignalVictim))
  {
    NextKeeps(s, MarkVictim);
    NextKeeps(Next(s, MarkVictim), SignalVictim);
  }

  /** The state after `n` victims have been marked and signalled. */
  function TellAll(s: State, n: nat): State
    decreases n
  {
    if n == 0 then s else TellAll(TellNext(s), n - 1)
  }

  function TellNext(s: State): State {
    Next(Next(s, MarkVictim), SignalVictim)
  }

  lemma {:induction false} TellIsOnwards(s: State, n: nat)
    ensures Onwards(s, Tell(n)) == TellAll(s, n)
    decreases n
  {
    if n > 0 {
      TellOne(s, Tell(n - 1));
      TellIsOnwards(TellNext(s), n - 1);
    }
  }

  /** The first two steps of telling: one victim is told, and the rest are told from there. */
  lemma TellFirst(s: State, victims: seq<nat>) returns (u: State)
    requires Consistent(s) && s.failure == Telling(victims, false) && victims != []
    ensures u == TellNext(s)
    ensures Consistent(u) && u.failure == Telling(victims[1..], false) && FirstTold(s, u, victims[0], victims[1..])
  {
    u := TellNext(s);
    TellStep(s);
    TellKeeps(s);
  }

  lemma VictimsDistinct(s: State)
    requires Consistent(s) && s.failure.Telling?
    ensures Distinct(s.failure.victims) && forall c :: c in s.failure.victims ==> c in s.calls
  {
  }

  /** With the failing thread alone, everyone it has to tell is told the first error. */
  lemma {:induction false} TellingReachesAll(s: State, victims: seq<nat>, n: nat)
    requires Consistent(s) && s.failure == Telling(victims, false) && n == |victims|
    ensures AllTold(s, TellAll(s, n), victims)
    decreases n
  {
    if n > 0 {
      var u := TellFirst(s, victims);
      TellingReachesAll(u, victims[1..], n - 1);
      VictimsDistinct(s);
      TellChain(s, u, TellAll(u, n - 1), victims);
    }
  }

  /**
   * Whenever a run has set the terminal error, the failing thread can go on alone: it clears the map and
   * wakes every call that was pending, each with that error.
   */
  lemma TheEndReachesAll(run: seq<Action>, order: seq<nat>)
    requires After(run).failure == Taken && Lists(order, After(run).table.pending)
    ensures var t := After(run + ([ClearPending(order)] + Tell(|order|)));
      && t.table.pending == map[] && t.failure == Telling([], false)
      && forall id :: id in After(run).table.pending ==> Told(After(run), t, After(run).table.pending[id])
  {
    var s := After(run);
    var cleared := Next(s, ClearPending(order));
    RunConsistent(run);
    NextKeeps(s, ClearPending(order));
    var t := TellAll(cleared, |order|);
    TellingReachesAll(cleared, order, |order|);
    TellIsOnwards(cleared, |order|);
    OnwardsIsRun(run, [ClearPending(order)] + Tell(|order|));
    assert ([ClearPending(order)] + Tell(|order|))[1..] == Tell(|order|);
    forall id | id in s.table.pending
      ensures Told(s, t, s.table.pending[id])
    {
      ToldFromClear(s, cleared, t, s.table.pending[id]);
    }
  }

  /** The snapshot that the failing thread takes lists every pending call once, in some order. */
  lemma {:induction false} SomeOrder(values: set<nat>) returns (order: seq<nat>)
    ensures Distinct(order) && forall c :: c in order <==> c in values
    decreases |values|
  {
    order := [];
    if values != {} {
      var c :| c in values;
      var rest := SomeOrder(values - {c});
      order := [c] + rest;
    }
  }

  /** So from every run that set the terminal error, everyone pending can be told. */
  lemma TheEndCanReachAll(run: seq<Action>) returns (more: seq<Action>)
    requires After(run).failure == Taken
    ensures var t := After(run + more);
      && t.table.pending == map[] && t.failure == Telling([], false)
      && forall id :: id in After(run).table.pending ==> Told(After(run), t, After(run).table.pending[id])
  {
    var order := SomeOrder(After(run).table.pending.Values);
    more := [ClearPending(order)] + Tell(|order|);
    TheEndReachesAll(run, order);
  }

  lemma ToldFromClear(s: State, cleared: State, t: State, c: nat)
    requires cleared.calls == s.calls && cleared.table.terminal == s.table.terminal && Told(cleared, t, c)
    ensures Told(s, t, c)
  {
  }
}
