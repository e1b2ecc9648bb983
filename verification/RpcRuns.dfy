/** Runs of the RPC client: any number of calling threads, the reader and one failing thread, interleaved. */
module RpcRuns {
  import opened RpcCalls

  /** The waiting object of one call. */
  datatype Slot = Slot(response: Option<Response>, error: Option<Error>, signalled: bool)

  const EMPTY: Slot := Slot(None, None, false)

  datatype Outcome = Returned(value: string) | Raised(error: Error)

  /** How far a calling thread has come; `Failing` and `Losing` lie just before the state lock is taken. */
  datatype Phase =
    | Checked
    | Registered(id: nat)
    | Waiting(id: nat)
    | Failing(id: nat, error: Error)
    | Losing(id: nat)
    | Refused(error: Error)
    | Done(id: nat, outcome: Outcome)

  datatype Call = Call(phase: Phase, slot: Slot)

  /** The stdout thread: between pop and store, between store and signal, or about to end the client. */
  datatype Reader = Idle | Holding(call: nat, response: Response) | Stored(call: nat) | Giving(error: Error)

  /** The one thread that got past the terminal check. */
  datatype Failure = NoFailure | Taken | Telling(victims: seq<nat>, marked: bool)

  datatype State = State(
    table: Table<nat>, calls: map<nat, Call>, reader: Reader, failure: Failure, owed: nat, notified: nat,
    installed: set<nat>)

  datatype Action =
    | Begin(c: nat)
    | Register(c: nat)
    | EncodeFails(c: nat)
    | Write(c: nat)
    | WriteFails(c: nat)
    | TimesOut(c: nat)
    | Wakes(c: nat)
    | CallTerminates(c: nat)
    | CallLosesSession(c: nat)
    | Receive(response: Response)
    | StoreResponse
    | SignalResponse
    | ReaderTerminates
    | Terminate(text: string, notify: bool)
    | ClearPending(order: seq<nat>)
    | MarkVictim
    | SignalVictim
    | Notify
    | Install(c: nat, token: string)
    | DropSession

  const INITIAL: State := State(EmptyTable(), map[], Idle, NoFailure, 0, 0, {})

  function Owed(session: Option<string>): nat {
    if session.Some? then 1 else 0
  }

  function WithPhase(s: State, c: nat, phase: Phase): State
    requires c in s.calls
  {
    s.(calls := s.calls[c := s.calls[c].(phase := phase)])
  }

  function WithSlot(s: State, c: nat, slot: Slot): State
    requires c in s.calls
  {
    s.(calls := s.calls[c := s.calls[c].(slot := slot)])
  }

  /** The terminal check that opens a call. */
  function Begun(s: State, c: nat): State {
    if c in s.calls then s
    else if s.table.terminal.Some? then s.(calls := s.calls[c := Call(Refused(s.table.terminal.value), EMPTY)])
    else s.(calls := s.calls[c := Call(Checked, EMPTY)])
  }

  function CallRegistered(s: State, c: nat): State {
    if c !in s.calls || s.calls[c].phase != Checked then s
    else if Refusal(s.table).Some? then WithPhase(s, c, Refused(Refusal(s.table).value))
    else WithPhase(s, c, Phase.Registered(s.table.nextId)).(table := RpcCalls.Registered(s.table, c))
  }

  function EncodingFailed(s: State, c: nat): State {
    if c !in s.calls || !s.calls[c].phase.Registered? then s
    else
      var id := s.calls[c].phase.id;
      WithPhase(s, c, Done(id, Raised(Error.EncodingFailed))).(table := RpcCalls.Popped(s.table, id))
  }

  function Written(s: State, c: nat, ok: bool): State {
    if c !in s.calls || !s.calls[c].phase.Registered? then s
    else if ok then WithPhase(s, c, Waiting(s.calls[c].phase.id))
    else WithPhase(s, c, Failing(s.calls[c].phase.id, WriteFailed))
  }

  function GaveUp(s: State, c: nat): State {
    if c !in s.calls || !s.calls[c].phase.Waiting? || s.calls[c].slot.signalled then s
    else WithPhase(s, c, Failing(s.calls[c].phase.id, Error.TimedOut))
  }

  /** What a woken call makes of its slot. */
  function Verdict(id: nat, slot: Slot): Phase {
    if slot.error.Some? then Done(id, Raised(slot.error.value))
    else if slot.response.None? then Done(id, Raised(Unavailable))
    else
      match slot.response.value.body
      case Result(value) => Done(id, Returned(value))
      case SessionInvalid => Losing(id)
      case OtherRemote(name) => Done(id, Raised(Remote(OtherRemote(name))))
      case BrokenContract => Failing(id, Protocol)
  }

  function Woken(s: State, c: nat): State {
    if c !in s.calls || !s.calls[c].phase.Waiting? || !s.calls[c].slot.signalled then s
    else WithPhase(s, c, Verdict(s.calls[c].phase.id, s.calls[c].slot))
  }

  /** The state-lock section of a failure. */
  function TerminatedBy(s: State, error: Error, notify: bool): State {
    if s.table.terminal.Some? then s
    else
      s.(table := Terminated(s.table, error), failure := Taken,
         owed := s.owed + if notify then Owed(s.table.session) else 0)
  }

  function CallTerminated(s: State, c: nat): State {
    if c !in s.calls || !s.calls[c].phase.Failing? then s
    else
      var phase := s.calls[c].phase;
      WithPhase(TerminatedBy(s, phase.error, true), c, Done(phase.id, Raised(phase.error)))
  }

  function SessionLost(s: State, c: nat): State {
    if c !in s.calls || !s.calls[c].phase.Losing? then s
    else
      WithPhase(s, c, Done(s.calls[c].phase.id, Raised(Remote(SessionInvalid))))
        .(table := s.table.(session := None), owed := s.owed + Owed(s.table.session))
  }

  function Received(s: State, response: Response): State {
    if s.reader != Idle then s
    else if response.id.NullId? then s.(reader := Giving(Uncorrelated))
    else if !Knows(s.table, response.id) then s.(reader := Giving(UnknownId))
    else
      var entry := s.table.pending[response.id.n];
      s.(table := RpcCalls.Popped(s.table, response.id.n), reader := Holding(entry, response))
  }

  function ResponseStored(s: State): State {
    if !s.reader.Holding? || s.reader.call !in s.calls then s
    else
      var c := s.reader.call;
      WithSlot(s, c, s.calls[c].slot.(response := Some(s.reader.response))).(reader := Stored(c))
  }

  function ResponseSignalled(s: State): State {
    if !s.reader.Stored? || s.reader.call !in s.calls then s
    else
      var c := s.reader.call;
      WithSlot(s, c, s.calls[c].slot.(signalled := true)).(reader := Idle)
  }

  function ReaderTerminated(s: State): State {
    if !s.reader.Giving? then s else TerminatedBy(s, s.reader.error, true).(reader := Idle)
  }

  predicate Distinct(order: seq<nat>) {
    forall i, j :: 0 <= i < j < |order| ==> order[i] != order[j]
  }

  /** `order` lists the waiting objects in the order of the snapshot. */
  predicate Lists(order: seq<nat>, pending: map<nat, nat>) {
    && Distinct(order)
    && (forall i :: 0 <= i < |order| ==> order[i] in pending.Values)
    && (forall id :: id in pending ==> pending[id] in order)
  }

  function PendingCleared(s: State, order: seq<nat>): State {
    if s.failure != Taken || !Lists(order, s.table.pending) then s
    else s.(table := s.table.(pending := map[]), failure := Telling(order, false))
  }

  function VictimMarked(s: State): State {
    if !s.failure.Telling? || s.failure.victims == [] || s.failure.marked || s.failure.victims[0] !in s.calls
      || s.table.terminal.None?
    then s
    else
      var c := s.failure.victims[0];
      WithSlot(s, c, s.calls[c].slot.(error := s.table.terminal)).(failure := s.failure.(marked := true))
  }

  function VictimSignalled(s: State): State {
    if !s.failure.Telling? || s.failure.victims == [] || !s.failure.marked || s.failure.victims[0] !in s.calls then s
    else
      var c := s.failure.victims[0];
      WithSlot(s, c, s.calls[c].slot.(signalled := true)).(failure := Telling(s.failure.victims[1..], false))
  }

  /** An unlock whose call returned a value installs the session it was given, once. */
  predicate CanInstall(s: State, c: nat) {
    c in s.calls && s.calls[c].phase.Done? && s.calls[c].phase.outcome.Returned? && c !in s.installed
  }

  function SessionInstalled(s: State, c: nat, token: string): State {
    if !CanInstall(s, c) then s
    else s.(table := s.table.(session := Some(token)), installed := s.installed + {c})
  }

  function Next(s: State, a: Action): State {
    match a
    case Begin(c) => Begun(s, c)
    case Register(c) => CallRegistered(s, c)
    case EncodeFails(c) => EncodingFailed(s, c)
    case Write(c) => Written(s, c, true)
    case WriteFails(c) => Written(s, c, false)
    case TimesOut(c) => GaveUp(s, c)
    case Wakes(c) => Woken(s, c)
    case CallTerminates(c) => CallTerminated(s, c)
    case CallLosesSession(c) => SessionLost(s, c)
    case Receive(response) => Received(s, response)
    case StoreResponse => ResponseStored(s)
    case SignalResponse => ResponseSignalled(s)
    case ReaderTerminates => ReaderTerminated(s)
    case Terminate(text, notify) => TerminatedBy(s, Outside(text), notify)
    case ClearPending(order) => PendingCleared(s, order)
    case MarkVictim => VictimMarked(s)
    case SignalVictim => VictimSignalled(s)
    case Notify => if s.owed == 0 then s else s.(owed := s.owed - 1, notified := s.notified + 1)
    case Install(c, token) => SessionInstalled(s, c, token)
    case DropSession => s.(table := s.table.(session := None))
  }

  /** The state after a run; an action that cannot happen changes nothing. */
  function After(run: seq<Action>): State {
    if run == [] then INITIAL else Next(After(run[..|run| - 1]), run[|run| - 1])
  }

  // ---- Where the waiting object of a call is -----------------------------------------------------

  predicate HasId(phase: Phase) {
    !phase.Checked? && !phase.Refused?
  }

  predicate InTable(s: State, c: nat)
    requires c in s.calls
  {
    HasId(s.calls[c].phase) && s.calls[c].phase.id in s.table.pending
  }

  predicate WithReader(s: State, c: nat) {
    (s.reader.Holding? || s.reader.Stored?) && s.reader.call == c
  }

  predicate WithFailure(s: State, c: nat) {
    s.failure.Telling? && c in s.failure.victims
  }

  /** A request that could not be encoded has nobody waiting for it. */
  predicate Dropped(phase: Phase) {
    phase.Done? && phase.outcome == Raised(Error.EncodingFailed)
  }

  /** The waiting object is in the table, with the reader, with the failing thread, or signalled: one of them. */
  predicate InOnePlace(table: bool, reader: bool, failure: bool, signalled: bool, dropped: bool) {
    && !(table && reader) && !(table && failure) && !(table && signalled)
    && !(reader && failure) && !(reader && signalled) && !(failure && signalled)
    && (dropped || table || reader || failure || signalled)
  }

  predicate Answers(response: Response, id: nat) {
    response.id == NumberId(id)
  }

  /** What the slot holds in each place. */
  predicate SlotFits(s: State, slot: Slot, id: nat, c: nat) {
    && (slot.response.Some? ==> Answers(slot.response.value, id))
    && (s.reader.Holding? && s.reader.call == c ==> Answers(s.reader.response, id))
    && (slot.error.Some? ==> slot.error == s.table.terminal)
    && (if slot.signalled then slot.response.Some? != slot.error.Some?
        else if s.reader == Stored(c) then slot.response.Some? && slot.error.None?
        else if s.failure.Telling? && s.failure.marked && s.failure.victims != [] && s.failure.victims[0] == c then
          slot.response.None? && slot.error.Some?
        else slot == EMPTY)
  }

  /** An error a call can end with while the client lives on. */
  predicate Local(e: Error) {
    e.CallLimit? || e.IdsExhausted? || e.EncodingFailed? || e.Remote?
  }

  /** An error that ends the client. */
  predicate Fatal(e: Error) {
    !Local(e) && !e.Unavailable?
  }

  predicate OutcomeFits(s: State, phase: Phase) {
    && (phase.Refused? && !Local(phase.error) ==> s.table.terminal == Some(phase.error))
    && (phase.Done? && phase.outcome.Raised? && !Local(phase.outcome.error) ==>
          s.table.terminal.Some? && !phase.outcome.error.Unavailable?)
    && (phase.Failing? ==> Fatal(phase.error))
  }

  predicate CallFits(s: State, c: nat)
    requires c in s.calls
  {
    var call := s.calls[c];
    && (HasId(call.phase) ==>
          && call.phase.id < s.table.nextId
          && (InTable(s, c) ==> s.table.pending[call.phase.id] == c)
          && InOnePlace(InTable(s, c), WithReader(s, c), WithFailure(s, c), call.slot.signalled, Dropped(call.phase))
          && SlotFits(s, call.slot, call.phase.id, c))
    && (!HasId(call.phase) ==> call.slot == EMPTY && !WithReader(s, c) && !WithFailure(s, c))
    && OutcomeFits(s, call.phase)
  }

  predicate TableFits(s: State) {
    && |s.table.pending| <= MAX_PENDING_CALLS && s.table.nextId <= MAX_REQUEST_ID + 1
    && (forall id :: id in s.table.pending ==>
          s.table.pending[id] in s.calls && HasId(s.calls[s.table.pending[id]].phase)
          && s.calls[s.table.pending[id]].phase.id == id)
    && (s.failure != NoFailure <==> s.table.terminal.Some?)
    && (s.table.terminal.Some? ==> Fatal(s.table.terminal.value))
  }

  predicate HandsFit(s: State) {
    && (s.reader.Holding? || s.reader.Stored? ==> s.reader.call in s.calls)
    && (s.reader.Giving? ==> Fatal(s.reader.error))
    && (s.failure.Telling? ==> Distinct(s.failure.victims) && forall c :: c in s.failure.victims ==> c in s.calls)
  }

  predicate SameId(p: Phase, q: Phase) {
    HasId(p) && HasId(q) && p.id == q.id
  }

  predicate IdsUnique(s: State) {
    forall c, d :: c in s.calls && d in s.calls && SameId(s.calls[c].phase, s.calls[d].phase) ==> c == d
  }

  predicate Consistent(s: State) {
    TableFits(s) && HandsFit(s) && IdsUnique(s) && forall c :: c in s.calls ==> CallFits(s, c)
  }

  // ---- Every step keeps the invariant ------------------------------------------------------------

  predicate HeadMarked(s: State, c: nat) {
    s.failure.Telling? && s.failure.marked && s.failure.victims != [] && s.failure.victims[0] == c
  }

  /** Nothing about call `c` differs between the two states. */
  predicate SameFor(s: State, t: State, c: nat)
    requires c in s.calls
  {
    && c in t.calls && t.calls[c] == s.calls[c]
    && s.table.nextId <= t.table.nextId
    && (InTable(s, c) <==> InTable(t, c))
    && (InTable(s, c) ==> t.table.pending[s.calls[c].phase.id] == s.table.pending[s.calls[c].phase.id])
    && (WithReader(s, c) || WithReader(t, c) ==> s.reader == t.reader)
    && (WithFailure(s, c) <==> WithFailure(t, c)) && (HeadMarked(s, c) <==> HeadMarked(t, c))
    && (s.table.terminal.Some? ==> t.table.terminal == s.table.terminal)
  }

  lemma Untouched(s: State, t: State, c: nat)
    requires c in s.calls && CallFits(s, c) && SameFor(s, t, c)
    ensures CallFits(t, c)
  {
  }

  lemma PhaseMoves(s: State, c: nat, phase: Phase)
    requires Consistent(s) && c in s.calls && HasId(s.calls[c].phase) && HasId(phase)
    requires phase.id == s.calls[c].phase.id && OutcomeFits(s, phase)
    requires Dropped(s.calls[c].phase) ==> Dropped(phase)
    ensures Consistent(WithPhase(s, c, phase))
  {
    var t := WithPhase(s, c, phase);
    forall d | d in t.calls
      ensures CallFits(t, d)
    {
      if d != c {
        Untouched(s, t, d);
      }
    }
  }

  lemma BeginKeeps(s: State, c: nat)
    requires Consistent(s)
    ensures Consistent(Begun(s, c))
  {
    var t := Begun(s, c);
    forall d | d in t.calls
      ensures CallFits(t, d)
    {
      if d in s.calls {
        Untouched(s, t, d);
      }
    }
  }

  lemma RegisterKeeps(s: State, c: nat)
    requires Consistent(s)
    ensures Consistent(CallRegistered(s, c))
  {
    if c in s.calls && s.calls[c].phase == Checked {
      if Refusal(s.table).Some? {
        RefusedKeeps(s, c);
      } else {
        IssueKeepsTable(s, c);
        IssueKeepsCalls(s, c);
      }
    }
  }

  lemma RefusedKeeps(s: State, c: nat)
    requires Consistent(s) && c in s.calls && s.calls[c].phase == Checked && Refusal(s.table).Some?
    ensures Consistent(CallRegistered(s, c))
  {
    var t := CallRegistered(s, c);
    forall d | d in t.calls
      ensures CallFits(t, d)
    {
      if d != c {
        Untouched(s, t, d);
      }
    }
  }

  lemma IssueKeepsTable(s: State, c: nat)
    requires Consistent(s) && c in s.calls && s.calls[c].phase == Checked && Refusal(s.table).None?
    ensures TableFits(CallRegistered(s, c)) && HandsFit(CallRegistered(s, c))
  {
  }

  lemma IssueKeepsCalls(s: State, c: nat)
    requires Consistent(s) && c in s.calls && s.calls[c].phase == Checked && Refusal(s.table).None?
    ensures IdsUnique(CallRegistered(s, c))
    ensures forall d :: d in CallRegistered(s, c).calls ==> CallFits(CallRegistered(s, c), d)
  {
    var t := CallRegistered(s, c);
    forall d | d in t.calls
      ensures CallFits(t, d) && (SameId(t.calls[d].phase, t.calls[c].phase) ==> d == c)
    {
      if d != c {
        Untouched(s, t, d);
      }
    }
  }

  lemma EncodeFailsKeeps(s: State, c: nat)
    requires Consistent(s)
    ensures Consistent(EncodingFailed(s, c))
  {
    if c in s.calls && s.calls[c].phase.Registered? {
      var id := s.calls[c].phase.id;
      PhaseMoves(s, c, Done(id, Raised(Error.EncodingFailed)));
      DroppedLeaves(WithPhase(s, c, Done(id, Raised(Error.EncodingFailed))), c);
    }
  }

  lemma DroppedLeaves(s: State, c: nat)
    requires Consistent(s) && c in s.calls && Dropped(s.calls[c].phase)
    ensures Consistent(s.(table := RpcCalls.Popped(s.table, s.calls[c].phase.id)))
  {
    var t := s.(table := RpcCalls.Popped(s.table, s.calls[c].phase.id));
    forall d | d in t.calls
      ensures CallFits(t, d)
    {
      if d != c {
        Untouched(s, t, d);
      }
    }
  }

  lemma TerminateKeeps(s: State, error: Error, notify: bool)
    requires Consistent(s) && Fatal(error)
    ensures Consistent(TerminatedBy(s, error, notify))
    ensures TerminatedBy(s, error, notify).table.terminal.Some?
  {
    var t := TerminatedBy(s, error, notify);
    forall d | d in t.calls
      ensures CallFits(t, d)
    {
      Untouched(s, t, d);
    }
  }

  lemma SameButSession(s: State, t: State)
    requires Consistent(s) && t.table == s.table.(session := t.table.session)
    requires t.calls == s.calls && t.reader == s.reader && t.failure == s.failure
    ensures Consistent(t)
  {
    forall d | d in t.calls
      ensures CallFits(t, d)
    {
      Untouched(s, t, d);
    }
  }

  lemma ReceiveKeeps(s: State, response: Response)
    requires Consistent(s)
    ensures Consistent(Received(s, response))
  {
    if s.reader == Idle {
      if Knows(s.table, response.id) {
        PoppedKeeps(s, response);
      } else {
        RejectedKeeps(s, Received(s, response).reader);
      }
    }
  }

  lemma RejectedKeeps(s: State, reader: Reader)
    requires Consistent(s) && s.reader == Idle && reader.Giving? && Fatal(reader.error)
    ensures Consistent(s.(reader := reader))
  {
    forall d | d in s.calls
      ensures CallFits(s.(reader := reader), d)
    {
      Untouched(s, s.(reader := reader), d);
    }
  }

  lemma PoppedKeeps(s: State, response: Response)
    requires Consistent(s) && s.reader == Idle && Knows(s.table, response.id)
    ensures Consistent(Received(s, response))
  {
    var t := Received(s, response);
    var c := s.table.pending[response.id.n];
    assert s.calls[c].phase.id == response.id.n;
    forall d | d in t.calls
      ensures CallFits(t, d)
    {
      if d != c {
        Untouched(s, t, d);
      }
    }
  }

  lemma StoreKeeps(s: State)
    requires Consistent(s)
    ensures Consistent(ResponseStored(s))
  {
    var t := ResponseStored(s);
    forall d | d in t.calls
      ensures CallFits(t, d)
    {
      if !WithReader(s, d) {
        Untouched(s, t, d);
      }
    }
  }

  lemma SignalKeeps(s: State)
    requires Consistent(s)
    ensures Consistent(ResponseSignalled(s))
  {
    var t := ResponseSignalled(s);
    forall d | d in t.calls
      ensures CallFits(t, d)
    {
      if !WithReader(s, d) {
        Untouched(s, t, d);
      }
    }
  }

  lemma ReaderTerminatesKeeps(s: State)
    requires Consistent(s)
    ensures Consistent(ReaderTerminated(s))
  {
    if s.reader.Giving? {
      TerminateKeeps(s, s.reader.error, true);
      var m := TerminatedBy(s, s.reader.error, true);
      forall d | d in s.calls
        ensures CallFits(ReaderTerminated(s), d)
      {
        Untouched(m, ReaderTerminated(s), d);
      }
    }
  }

  lemma ClearKeeps(s: State, order: seq<nat>)
    requires Consistent(s)
    ensures Consistent(PendingCleared(s, order))
  {
    var t := PendingCleared(s, order);
    forall d | d in t.calls
      ensures CallFits(t, d)
    {
      if s.failure == Taken && Lists(order, s.table.pending) {
        assert d in order ==> InTable(s, d);
        assert InTable(s, d) ==> d in order;
      }
    }
  }

  lemma MarkKeeps(s: State)
    requires Consistent(s)
    ensures Consistent(VictimMarked(s))
  {
    var t := VictimMarked(s);
    forall d | d in t.calls
      ensures CallFits(t, d)
    {
      if t == s || d != s.failure.victims[0] {
        Untouched(s, t, d);
      }
    }
  }

  lemma TailDistinct(order: seq<nat>)
    requires Distinct(order) && order != []
    ensures Distinct(order[1..])
    ensures forall c :: c in order[1..] <==> c in order && c != order[0]
  {
  }

  lemma SignalVictimKeeps(s: State)
    requires Consistent(s)
    ensures Consistent(VictimSignalled(s))
  {
    var t := VictimSignalled(s);
    if t != s {
      TailDistinct(s.failure.victims);
    }
    forall d | d in t.calls
      ensures CallFits(t, d)
    {
      if t == s || d != s.failure.victims[0] {
        Untouched(s, t, d);
      }
    }
  }

  lemma WrittenKeeps(s: State, c: nat, ok: bool)
    requires Consistent(s)
    ensures Consistent(Written(s, c, ok))
  {
    if c in s.calls && s.calls[c].phase.Registered? {
      PhaseMoves(s, c, Written(s, c, ok).calls[c].phase);
    }
  }

  lemma GaveUpKeeps(s: State, c: nat)
    requires Consistent(s)
    ensures Consistent(GaveUp(s, c))
  {
    if GaveUp(s, c) != s {
      PhaseMoves(s, c, GaveUp(s, c).calls[c].phase);
    }
  }

  lemma WakesKeeps(s: State, c: nat)
    requires Consistent(s)
    ensures Consistent(Woken(s, c))
  {
    if Woken(s, c) != s {
      assert CallFits(s, c);
      PhaseMoves(s, c, Verdict(s.calls[c].phase.id, s.calls[c].slot));
    }
  }

  lemma CallTerminatesKeeps(s: State, c: nat)
    requires Consistent(s)
    ensures Consistent(CallTerminated(s, c))
  {
    if c in s.calls && s.calls[c].phase.Failing? {
      var phase := s.calls[c].phase;
      TerminateKeeps(s, phase.error, true);
      PhaseMoves(TerminatedBy(s, phase.error, true), c, Done(phase.id, Raised(phase.error)));
    }
  }

  lemma SessionLostKeeps(s: State, c: nat)
    requires Consistent(s)
    ensures Consistent(SessionLost(s, c))
  {
    if c in s.calls && s.calls[c].phase.Losing? {
      PhaseMoves(s, c, Done(s.calls[c].phase.id, Raised(Remote(SessionInvalid))));
      SameButSession(WithPhase(s, c, Done(s.calls[c].phase.id, Raised(Remote(SessionInvalid)))), SessionLost(s, c));
    }
  }

  predicate IsCallStep(a: Action) {
    || a.Begin? || a.Register? || a.EncodeFails? || a.Write? || a.WriteFails? || a.TimesOut? || a.Wakes?
    || a.CallTerminates? || a.CallLosesSession?
  }

  lemma CallStepKeeps(s: State, a: Action)
    requires Consistent(s) && IsCallStep(a)
    ensures Consistent(Next(s, a))
  {
    match a
    case Begin(c) => BeginKeeps(s, c);
    case Register(c) => RegisterKeeps(s, c);
    case EncodeFails(c) => EncodeFailsKeeps(s, c);
    case Write(c) => WrittenKeeps(s, c, true);
    case WriteFails(c) => WrittenKeeps(s, c, false);
    case TimesOut(c) => GaveUpKeeps(s, c);
    case Wakes(c) => WakesKeeps(s, c);
    case CallTerminates(c) => CallTerminatesKeeps(s, c);
    case CallLosesSession(c) => SessionLostKeeps(s, c);
  }

  predicate IsSessionStep(a: Action) {
    a.Notify? || a.Install? || a.DropSession?
  }

  lemma SessionStepKeeps(s: State, a: Action)
    requires Consistent(s) && IsSessionStep(a)
    ensures Consistent(Next(s, a))
  {
    match a
    case Notify => SameButSession(s, Next(s, a));
    case Install(_, _) => SameButSession(s, Next(s, a));
    case DropSession => SameButSession(s, Next(s, a));
  }

  lemma SharedStepKeeps(s: State, a: Action)
    requires Consistent(s) && !IsCallStep(a) && !IsSessionStep(a)
    ensures Consistent(Next(s, a))
  {
    match a
    case Receive(response) => ReceiveKeeps(s, response);
    case StoreResponse => StoreKeeps(s);
    case SignalResponse => SignalKeeps(s);
    case ReaderTerminates => ReaderTerminatesKeeps(s);
    case Terminate(text, notify) => TerminateKeeps(s, Outside(text), notify);
    case ClearPending(order) => ClearKeeps(s, order);
    case MarkVictim => MarkKeeps(s);
    case SignalVictim => SignalVictimKeeps(s);
  }

  /** Every step of every thread keeps the invariant. */
  lemma NextKeeps(s: State, a: Action)
    requires Consistent(s)
    ensures Consistent(Next(s, a))
  {
    if IsCallStep(a) {
      CallStepKeeps(s, a);
    } else if IsSessionStep(a) {
      SessionStepKeeps(s, a);
    } else {
      SharedStepKeeps(s, a);
    }
  }
}
