/** Call correlation in the RPC client: its critical sections interleaved in every order by any number of threads. */
module RpcCalls {

  const MAX_PENDING_CALLS: nat := 128

  const MAX_REQUEST_ID: nat := 0x1F_FFFF_FFFF_FFFF

  datatype Option<T> = None | Some(value: T)

  datatype ResponseId = NullId | NumberId(n: int) | TextId(text: string)

  /** What a well-formed response says once its error contract is checked. */
  datatype Body = Result(value: string) | SessionInvalid | OtherRemote(name: string) | BrokenContract

  datatype Response = Response(id: ResponseId, body: Body)

  datatype Error =
    | CallLimit
    | IdsExhausted
    | EncodingFailed
    | WriteFailed
    | TimedOut
    | Unavailable
    | Remote(body: Body)
    | Protocol
    | Uncorrelated
    | UnknownId
    | Outside(text: string)

  // ---- The fields behind the two locks, shared by the class and the state machine ----------------

  /** `C` stands for the object that waits for the response. */
  datatype Table<C> = Table(nextId: nat, pending: map<nat, C>, terminal: Option<Error>, session: Option<string>)

  function EmptyTable<C>(): Table<C> {
    Table(1, map[], None, None)
  }

  /** Why no id is given out, if none is. */
  function Refusal<C>(t: Table<C>): Option<Error> {
    if |t.pending| >= MAX_PENDING_CALLS then Some(CallLimit)
    else if t.nextId > MAX_REQUEST_ID then Some(IdsExhausted)
    else None
  }

  function Registered<C>(t: Table<C>, c: C): Table<C> {
    if Refusal(t).Some? then t
    else t.(nextId := t.nextId + 1, pending := t.pending[t.nextId := c])
  }

  function Popped<C>(t: Table<C>, id: nat): Table<C> {
    t.(pending := t.pending - {id})
  }

  /** The first failure wins; it also takes the session away. */
  function Terminated<C>(t: Table<C>, error: Error): Table<C> {
    if t.terminal.Some? then t else t.(terminal := Some(error), session := None)
  }

  predicate Knows<C>(t: Table<C>, id: ResponseId) {
    id.NumberId? && id.n >= 0 && id.n in t.pending
  }

  // ---- The client object -------------------------------------------------------------------------

  class Pending {
    var response: Option<Response>
    var error: Option<Error>
    var signalled: bool

    constructor ()
      ensures response == None && error == None && !signalled
    {
      response, error, signalled := None, None, false;
    }
  }

  class InexRpcClient {
    var nextId: nat
    var pending: map<nat, Pending>
    var terminalError: Option<Error>
    var session: Option<string>

    constructor ()
      ensures Shared() == EmptyTable()
    {
      nextId, pending, terminalError, session := 1, map[], None, None;
    }

    function Shared(): Table<Pending>
      reads this
    {
      Table(nextId, pending, terminalError, session)
    }

    /** The critical section that gives a call its id. */
    method Register() returns (r: Option<Pending>, id: nat)
      modifies this
      ensures r.None? <==> Refusal(old(Shared())).Some?
      ensures r.None? <==> |old(pending)| >= 128 || old(nextId) > 0x1F_FFFF_FFFF_FFFF
      ensures r.None? ==> Shared() == old(Shared())
      ensures r.Some? ==> fresh(r.value) && !r.value.signalled && r.value.response == None && r.value.error == None
      ensures r.Some? ==> id == old(nextId) && Shared() == Registered(old(Shared()), r.value)
    {
      if |pending| >= MAX_PENDING_CALLS || nextId > MAX_REQUEST_ID {
        return None, 0;
      }
      id := nextId;
      nextId := nextId + 1;
      var entry := new Pending();
      pending := pending[id := entry];
      r := Some(entry);
    }

    /** A request that cannot be encoded gives its entry back. */
    method Forget(id: nat)
      modifies this
      ensures Shared() == Popped(old(Shared()), id)
    {
      pending := pending - {id};
    }

    /** Ends the client once; answers whether the session-lost callback is due. */
    method FailTerminal(error: Error, notify: bool) returns (told: bool)
      modifies this, pending.Values
      ensures old(terminalError).Some? ==> Shared() == old(Shared()) && !told
      ensures old(terminalError).Some? ==> forall p :: p in old(pending).Values ==> unchanged(p)
      ensures old(terminalError).None? ==> Shared() == Terminated(old(Shared()), error).(pending := map[])
      ensures old(terminalError).None? ==> terminalError == Some(error) && session == None && pending == map[]
      ensures old(terminalError).None? ==> (told <==> notify && old(session).Some?)
      ensures old(terminalError).None? ==>
        forall p :: p in old(pending).Values ==>
          p.error == Some(error) && p.signalled && p.response == old(p.response)
    {
      if terminalError.Some? {
        return false;
      }
      terminalError := Some(error);
      told := notify && session.Some?;
      session := None;
      var values := pending.Values;
      pending := map[];
      SignalAll(values, error);
    }

    static method SignalAll(values: set<Pending>, error: Error)
      modifies values
      ensures forall p :: p in values ==> p.error == Some(error) && p.signalled && p.response == old(p.response)
    {
      var left := values;
      while left != {}
        invariant left <= values
        invariant forall p :: p in values ==> p.response == old(p.response)
        invariant forall p :: p in values - left ==> p.error == Some(error) && p.signalled
      {
        var p :| p in left;
        p.error := Some(error);
        p.signalled := true;
        left := left - {p};
      }
    }

    /** Matches a response with the call that waits for it; anything else ends the client. */
    method AcceptResponse(response: Response) returns (told: bool)
      modifies this, pending.Values
      ensures Knows(old(Shared()), response.id) ==> Shared() == Popped(old(Shared()), response.id.n) && !told
      ensures Knows(old(Shared()), response.id) ==>
        var p := old(pending)[response.id.n];
        p.response == Some(response) && p.signalled && p.error == old(p.error)
      ensures Knows(old(Shared()), response.id) ==>
        forall p :: p in old(pending).Values && p != old(pending)[response.id.n] ==> unchanged(p)
      ensures !Knows(old(Shared()), response.id) && old(terminalError).None? ==>
        var error := if response.id.NullId? then Uncorrelated else UnknownId;
        Shared() == Terminated(old(Shared()), error).(pending := map[])
      ensures !Knows(old(Shared()), response.id) && old(terminalError).None? ==> (told <==> old(session).Some?)
      ensures !Knows(old(Shared()), response.id) && old(terminalError).None? ==>
        var error := if response.id.NullId? then Uncorrelated else UnknownId;
        forall p :: p in old(pending).Values ==>
          p.error == Some(error) && p.signalled && p.response == old(p.response)
      ensures !Knows(old(Shared()), response.id) && old(terminalError).Some? ==> Shared() == old(Shared()) && !told
      ensures !Knows(old(Shared()), response.id) && old(terminalError).Some? ==>
        forall p :: p in old(pending).Values ==> unchanged(p)
    {
      if response.id.NullId? {
        told := FailTerminal(Uncorrelated, true);
        return;
      }
      if !Knows(Shared(), response.id) {
        told := FailTerminal(UnknownId, true);
        return;
      }
      var entry := pending[response.id.n];
      pending := pending - {response.id.n as nat};
      entry.response := Some(response);
      entry.signalled := true;
      told := false;
    }

    method LoseSession() returns (told: bool)
      modifies this
      ensures Shared() == old(Shared()).(session := None) && (told <==> old(session).Some?)
    {
      told := session.Some?;
      session := None;
    }

    method InstallSession(token: string)
      modifies this
      ensures Shared() == old(Shared()).(session := Some(token))
    {
      session := Some(token);
    }
  }
}
