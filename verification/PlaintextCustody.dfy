/** Ownership of plaintext buffers across the registries and the open documents. */
module PlaintextCustody {
  import opened Bytes
  import opened DocumentModel
  import opened ManagedDocuments

  /** Wipes several buffers in place. */
  method WipeAll(buffers: set<array<Byte>>)
    modifies buffers
    ensures forall b :: b in buffers ==> IsZero(b[..])
  {
    var left := buffers;
    while left != {}
      invariant left <= buffers
      invariant forall b :: b in buffers && b !in left ==> IsZero(b[..])
    {
      var b :| b in left;
      Wipe(b);
      left := left - {b};
    }
  }

  class PlaintextHandoffRegistry {
    var values: map<string, array<Byte>>

    constructor ()
      ensures values == map[]
    {
      values := map[];
    }

    /** `token` is the random token drawn until it was unused. */
    method Put(value: array<Byte>, token: string) returns (ok: bool)
      requires token !in values
      modifies this, value
      ensures ok <==> value.Length <= MAX_DOCUMENT_BYTES
      ensures ok ==> values == old(values)[token := value] && value[..] == old(value[..])
      ensures !ok ==> values == old(values) && IsZero(value[..])
    {
      if value.Length > MAX_DOCUMENT_BYTES {
        Wipe(value);
        return false;
      }
      values := values[token := value];
      return true;
    }

    method Take(token: string) returns (r: Option<array<Byte>>)
      modifies this
      ensures values == old(values) - {token}
      ensures r == if token in old(values) then Some(old(values)[token]) else None
    {
      if token !in values {
        return None;
      }
      r := Some(values[token]);
      values := values - {token};
    }

    method Discard(token: string)
      modifies this, if token in values then {values[token]} else {}
      ensures values == old(values) - {token}
      ensures token in old(values) ==> IsZero(old(values)[token][..])
    {
      if token in values {
        var value := values[token];
        values := values - {token};
        Wipe(value);
      }
    }

    method Clear()
      modifies this, values.Values
      ensures values == map[]
      ensures forall b :: b in old(values).Values ==> IsZero(b[..])
    {
      var buffers := values.Values;
      values := map[];
      WipeAll(buffers);
    }
  }

  datatype Owner = Owner(handle: string, buffers: seq<array<Byte>>)

  function WithBuffer(owners: map<string, Owner>, token: string, value: array<Byte>): map<string, Owner>
    requires token in owners
  {
    owners[token := Owner(owners[token].handle, owners[token].buffers + [value])]
  }

  class PendingPlaintextRegistry {
    var owners: map<string, Owner>

    constructor ()
      ensures owners == map[]
    {
      owners := map[];
    }

    method Add(handle: string, value: array<Byte>, token: string) returns (ok: bool)
      requires token !in owners
      modifies this, value
      ensures ok <==> value.Length <= MAX_DOCUMENT_BYTES
      ensures ok ==> owners == old(owners)[token := Owner(handle, [value])] && value[..] == old(value[..])
      ensures !ok ==> owners == old(owners) && IsZero(value[..])
    {
      if value.Length > MAX_DOCUMENT_BYTES {
        Wipe(value);
        return false;
      }
      owners := owners[token := Owner(handle, [value])];
      return true;
    }

    method AddBuffer(token: string, value: array<Byte>) returns (ok: bool)
      modifies this, value
      ensures ok <==> token in old(owners)
      ensures ok ==> value[..] == old(value[..]) && owners == WithBuffer(old(owners), token, value)
      ensures !ok ==> owners == old(owners) && IsZero(value[..])
    {
      if token in owners {
        owners := WithBuffer(owners, token, value);
        return true;
      }
      Wipe(value);
      return false;
    }

    method Take(token: string) returns (r: Option<Owner>)
      modifies this
      ensures owners == old(owners) - {token}
      ensures r == if token in old(owners) then Some(old(owners)[token]) else None
    {
      if token !in owners {
        return None;
      }
      r := Some(owners[token]);
      owners := owners - {token};
    }

    method Drain() returns (drained: map<string, Owner>)
      modifies this
      ensures drained == old(owners) && owners == map[]
    {
      drained := owners;
      owners := map[];
    }
  }

  /** The open documents by view. */
  class DocumentRegistry {
    var documents: map<int, ManagedDocument>

    constructor ()
      ensures documents == map[]
    {
      documents := map[];
    }

    /** Refuses a view that is managed already. */
    method Add(document: ManagedDocument) returns (ok: bool)
      modifies this
      ensures ok <==> document.viewId !in old(documents)
      ensures documents == if ok then old(documents)[document.viewId := document] else old(documents)
    {
      if document.viewId in documents {
        return false;
      }
      documents := documents[document.viewId := document];
      return true;
    }

    method Remove(viewId: int) returns (r: Option<ManagedDocument>)
      modifies this
      ensures documents == old(documents) - {viewId}
      ensures r == if viewId in old(documents) then Some(old(documents)[viewId]) else None
    {
      if viewId !in documents {
        return None;
      }
      r := Some(documents[viewId]);
      documents := documents - {viewId};
    }

    /** Closes every document, then forgets them. */
    method Clear()
      modifies this, documents.Values, OpenBuffers(documents.Values)
      ensures documents == map[]
      ensures forall d :: d in old(documents).Values ==> d.closed
      ensures forall d :: d in old(documents).Values && !old(d.closed) ==> IsZero(old(d.content)[..])
    {
      var left := documents.Values;
      while left != {}
        invariant left <= documents.Values && documents == old(documents)
        invariant forall d :: d in left ==> d.closed == old(d.closed) && d.content == old(d.content)
        invariant forall d :: d in documents.Values && d !in left ==> d.closed
        invariant forall d :: d in documents.Values && d !in left && !old(d.closed) ==> IsZero(old(d.content)[..])
      {
        var d :| d in left;
        d.Close();
        left := left - {d};
      }
      documents := map[];
    }
  }

  function OpenBuffers(documents: set<ManagedDocument>): set<array<Byte>>
    reads documents
  {
    set d | d in documents && !d.closed :: d.content
  }

  // ---- Who holds what ----------------------------------------------------------------------------

  predicate Injective<K, V(==)>(values: map<K, V>) {
    forall s, t :: s in values && t in values && s != t ==> values[s] != values[t]
  }

  predicate Distinct(buffers: seq<array<Byte>>) {
    forall i, j :: 0 <= i < j < |buffers| ==> buffers[i] != buffers[j]
  }

  predicate OwnersInjective(owners: map<string, Owner>) {
    && (forall s :: s in owners ==> Distinct(owners[s].buffers))
    && (forall s, t :: s in owners && t in owners && s != t ==> OwnedBy(owners[s]) !! OwnedBy(owners[t]))
  }

  function OwnedBy(owner: Owner): set<array<Byte>> {
    set i | 0 <= i < |owner.buffers| :: owner.buffers[i]
  }

  function OwnerBuffers(owners: map<string, Owner>): set<array<Byte>> {
    set s, b | s in owners && b in OwnedBy(owners[s]) :: b
  }

  /** Where the buffers are: three kinds of holder, out with the callers, or wiped; and all that ever came in. */
  datatype Accounts = Accounts(
    handoffs: set<array<Byte>>, pending: set<array<Byte>>, documents: set<array<Byte>>,
    handedOut: set<array<Byte>>, wiped: set<array<Byte>>, handedIn: set<array<Byte>>)

  /** Every buffer that came in is in exactly one place, and nothing else is anywhere. */
  predicate Balanced(a: Accounts) {
    && a.handoffs !! a.pending && (a.handoffs + a.pending) !! a.documents
    && (a.handoffs + a.pending + a.documents) !! a.handedOut
    && (a.handoffs + a.pending + a.documents + a.handedOut) !! a.wiped
    && a.handedIn == a.handoffs + a.pending + a.documents + a.handedOut + a.wiped
  }

  /** A caller can bring a buffer that was never here, or one that was handed out before. */
  predicate Free(a: Accounts, x: array<Byte>) {
    x !in a.handedIn || x in a.handedOut
  }

  function Arrived(a: Accounts, x: array<Byte>): Accounts {
    a.(handedIn := a.handedIn + {x}, handedOut := a.handedOut - {x})
  }

  function IntoHandoffs(a: Accounts, x: array<Byte>): Accounts {
    Arrived(a, x).(handoffs := a.handoffs + {x})
  }

  function IntoPending(a: Accounts, x: array<Byte>): Accounts {
    Arrived(a, x).(pending := a.pending + {x})
  }

  function IntoDocument(a: Accounts, x: array<Byte>): Accounts {
    Arrived(a, x).(documents := a.documents + {x})
  }

  function Refused(a: Accounts, x: array<Byte>): Accounts {
    Arrived(a, x).(wiped := a.wiped + {x})
  }

  lemma Entered(a: Accounts, x: array<Byte>)
    requires Balanced(a) && Free(a, x)
    ensures x !in a.handoffs && x !in a.pending && x !in a.documents && x !in a.wiped
    ensures Balanced(IntoHandoffs(a, x)) && Balanced(IntoPending(a, x)) && Balanced(IntoDocument(a, x))
    ensures Balanced(Refused(a, x))
  {
  }

  /** A new copy goes straight to the caller. */
  lemma CopiedOut(a: Accounts, x: array<Byte>)
    requires Balanced(a) && x !in a.handedIn
    ensures Balanced(a.(handedIn := a.handedIn + {x}, handedOut := a.handedOut + {x}))
  {
  }

  lemma HandedOut(a: Accounts, xs: set<array<Byte>>)
    requires Balanced(a)
    ensures xs <= a.handoffs + a.pending ==> xs !! a.handedOut
    ensures xs <= a.handoffs ==> Balanced(a.(handoffs := a.handoffs - xs, handedOut := a.handedOut + xs))
    ensures xs <= a.pending ==> Balanced(a.(pending := a.pending - xs, handedOut := a.handedOut + xs))
  {
  }

  lemma WipedOut(a: Accounts, xs: set<array<Byte>>)
    requires Balanced(a)
    ensures xs <= a.handoffs ==> Balanced(a.(handoffs := a.handoffs - xs, wiped := a.wiped + xs))
    ensures xs <= a.pending ==> Balanced(a.(pending := a.pending - xs, wiped := a.wiped + xs))
    ensures xs <= a.documents ==> Balanced(a.(documents := a.documents - xs, wiped := a.wiped + xs))
    ensures xs <= a.handedOut ==> Balanced(a.(handedOut := a.handedOut - xs, wiped := a.wiped + xs))
  {
  }

  /** A document trades the buffer `y` for `x`, and `y` is wiped; refused, `x` is wiped. */
  function Traded(a: Accounts, x: array<Byte>, y: array<Byte>, accepted: bool): Accounts {
    if accepted then Arrived(a, x).(documents := a.documents - {y} + {x}, wiped := a.wiped + {y})
    else Refused(a, x)
  }

  /** Buffers leave their documents and are wiped. */
  function Scrubbed(a: Accounts, leaving: set<array<Byte>>): Accounts {
    a.(documents := a.documents - leaving, wiped := a.wiped + leaving)
  }

  lemma TradedBalances(a: Accounts, x: array<Byte>, y: array<Byte>, accepted: bool)
    requires Balanced(a) && Free(a, x) && (accepted ==> y in a.documents)
    ensures Balanced(Traded(a, x, y, accepted))
  {
  }

  // ---- What the three ways to give a document a buffer have in common ----------------------------

  method OfferContent(document: ManagedDocument, buffer: array<Byte>)
    returns (ok: bool)
    requires buffer != document.content
    modifies document, document.content, buffer
    ensures document.closed == old(document.closed) && (ok ==> !document.closed)
    ensures document.content == if ok then buffer else old(document.content)
    ensures IsZero((if ok then old(document.content) else buffer)[..])
    ensures !ok ==> document.content[..] == old(document.content[..])
  {
    ok := document.Replace(buffer);
  }

  method OfferProjection(document: ManagedDocument, buffer: array<Byte>, etag: string, renderMap: MapState)
    returns (ok: bool)
    requires buffer != document.content
    modifies document, document.content, buffer
    ensures document.closed == old(document.closed) && (ok ==> !document.closed)
    ensures document.content == if ok then buffer else old(document.content)
    ensures IsZero((if ok then old(document.content) else buffer)[..])
    ensures !ok ==> document.content[..] == old(document.content[..])
  {
    ok := document.ReplaceUmbraProjection(buffer, etag, renderMap);
  }

  method OfferTransition(document: ManagedDocument, buffer: array<Byte>, etag: string, renderMap: MapState)
    returns (r: Option<string>)
    requires buffer != document.content
    modifies document, document.content, buffer
    ensures document.closed == old(document.closed) && (r.Some? ==> !document.closed)
    ensures document.content == if r.Some? then buffer else old(document.content)
    ensures IsZero((if r.Some? then old(document.content) else buffer)[..])
    ensures r.None? ==> document.content[..] == old(document.content[..])
    ensures r.None? ==> document.View() == old(document.View())
  {
    r := document.TransitionToUmbra(buffer, etag, renderMap);
  }

  /** Every buffer handed in is held once, out with a caller, or all zeros; none is out while it is held. */
  class PlaintextLedger {
    const handoffs: PlaintextHandoffRegistry
    const pending: PendingPlaintextRegistry
    const registry: DocumentRegistry
    ghost var handedIn: set<array<Byte>>
    ghost var handedOut: set<array<Byte>>
    ghost var wiped: set<array<Byte>>

    constructor ()
      ensures fresh(handoffs) && fresh(pending) && fresh(registry)
      ensures Conserved() && Books() == Accounts({}, {}, {}, {}, {}, {})
    {
      handoffs := new PlaintextHandoffRegistry();
      pending := new PendingPlaintextRegistry();
      registry := new DocumentRegistry();
      handedIn, handedOut, wiped := {}, {}, {};
    }

    ghost function Documents(): set<ManagedDocument>
      reads registry
    {
      registry.documents.Values
    }

    ghost function InDocuments(): set<array<Byte>>
      reads registry, Documents()
    {
      OpenBuffers(Documents())
    }

    ghost function Books(): Accounts
      reads this, handoffs, pending, registry, Documents()
    {
      Accounts(handoffs.values.Values, OwnerBuffers(pending.owners), InDocuments(), handedOut, wiped, handedIn)
    }

    /** No two open documents share a buffer. */
    ghost predicate DocumentsApart()
      reads registry, Documents()
    {
      forall d, e :: d in Documents() && e in Documents() && d != e && !d.closed && !e.closed ==> d.content != e.content
    }

    /** Each document is registered under its own view. */
    ghost predicate ViewsMatch()
      reads registry
    {
      forall v :: v in registry.documents ==> registry.documents[v].viewId == v
    }

    ghost predicate Conserved()
      reads this, handoffs, pending, registry, Documents(), wiped
    {
      && Injective(handoffs.values) && OwnersInjective(pending.owners) && ViewsMatch() && DocumentsApart()
      && Balanced(Books())
      && forall b :: b in wiped ==> IsZero(b[..])
    }

    method PutHandoff(value: array<Byte>, token: string) returns (ok: bool)
      requires Conserved() && Free(Books(), value) && token !in handoffs.values
      modifies this, handoffs, value
      ensures Conserved()
      ensures ok <==> value.Length <= MAX_DOCUMENT_BYTES
      ensures ok ==> value[..] == old(value[..])
      ensures Books() == if ok then IntoHandoffs(old(Books()), value) else Refused(old(Books()), value)
      ensures handoffs.values == if ok then old(handoffs.values)[token := value] else old(handoffs.values)
    {
      Entered(Books(), value);
      ok := handoffs.Put(value, token);
      handedIn, handedOut := handedIn + {value}, handedOut - {value};
      if ok {
        AddedValue(old(handoffs.values), token, value);
      } else {
        wiped := wiped + {value};
      }
      assert Books() == if ok then IntoHandoffs(old(Books()), value) else Refused(old(Books()), value);
    }

    method TakeHandoff(token: string) returns (r: Option<array<Byte>>)
      requires Conserved()
      modifies this, handoffs
      ensures Conserved() && handedIn == old(handedIn) && wiped == old(wiped)
      ensures r == if token in old(handoffs.values) then Some(old(handoffs.values)[token]) else None
      ensures r.None? ==> Books() == old(Books())
      ensures r.Some? ==> r.value in old(Books()).handoffs && r.value !in old(handedOut)
      ensures r.Some? ==> Books() == old(Books()).(
        handoffs := old(Books()).handoffs - {r.value}, handedOut := old(handedOut) + {r.value})
    {
      r := handoffs.Take(token);
      if r.Some? {
        HandedOut(old(Books()), {r.value});
        RemovedValue(old(handoffs.values), token);
        assert r.value in {r.value};
        handedOut := handedOut + {r.value};
        assert Books() == old(Books()).(handoffs := old(Books()).handoffs - {r.value}, handedOut := handedOut);
      } else {
        assert handoffs.values == old(handoffs.values);
      }
    }

    method DiscardHandoff(token: string)
      requires Conserved()
      modifies this, handoffs, if token in handoffs.values then {handoffs.values[token]} else {}
      ensures Conserved() && handoffs.values == old(handoffs.values) - {token}
      ensures token !in old(handoffs.values) ==> Books() == old(Books())
      ensures token in old(handoffs.values) ==>
        var value := old(handoffs.values)[token];
        Books() == old(Books()).(handoffs := old(Books()).handoffs - {value}, wiped := old(wiped) + {value})
    {
      handoffs.Discard(token);
      if token in old(handoffs.values) {
        ghost var value := old(handoffs.values)[token];
        WipedOut(old(Books()), {value});
        RemovedValue(old(handoffs.values), token);
        wiped := wiped + {value};
        assert Books() == old(Books()).(handoffs := old(Books()).handoffs - {value}, wiped := wiped);
      } else {
        assert handoffs.values == old(handoffs.values);
      }
    }

    method ClearHandoffs()
      requires Conserved()
      modifies this, handoffs, handoffs.values.Values
      ensures Conserved() && handoffs.values == map[]
      ensures Books() == old(Books()).(handoffs := {}, wiped := old(wiped) + old(handoffs.values.Values))
    {
      ghost var leaving := handoffs.values.Values;
      WipedOut(Books(), leaving);
      wiped := wiped + leaving;
      handoffs.Clear();
      assert old(Books()).handoffs - leaving == {};
      assert Books() == old(Books()).(handoffs := old(Books()).handoffs - leaving, wiped := wiped);
    }

    method AddPending(handle: string, value: array<Byte>, token: string) returns (ok: bool)
      requires Conserved() && Free(Books(), value) && token !in pending.owners
      modifies this, pending, value
      ensures Conserved()
      ensures ok <==> value.Length <= MAX_DOCUMENT_BYTES
      ensures ok ==> value[..] == old(value[..])
      ensures Books() == if ok then IntoPending(old(Books()), value) else Refused(old(Books()), value)
      ensures pending.owners == if ok then old(pending.owners)[token := Owner(handle, [value])] else old(pending.owners)
    {
      Entered(Books(), value);
      ok := pending.Add(handle, value, token);
      handedIn, handedOut := handedIn + {value}, handedOut - {value};
      if ok {
        AddedOwner(old(pending.owners), token, handle, value);
      } else {
        wiped := wiped + {value};
      }
      assert Books() == if ok then IntoPending(old(Books()), value) else Refused(old(Books()), value);
    }

    method AddPendingBuffer(token: string, value: array<Byte>) returns (ok: bool)
      requires Conserved() && Free(Books(), value)
      modifies this, pending, value
      ensures Conserved() && (ok <==> token in old(pending.owners))
      ensures Books() == if ok then IntoPending(old(Books()), value) else Refused(old(Books()), value)
      ensures ok ==> pending.owners == WithBuffer(old(pending.owners), token, value)
      ensures !ok ==> pending.owners == old(pending.owners)
    {
      Entered(Books(), value);
      ok := pending.AddBuffer(token, value);
      handedIn, handedOut := handedIn + {value}, handedOut - {value};
      if ok {
        AddedBuffer(old(pending.owners), token, value);
      } else {
        wiped := wiped + {value};
      }
      assert Books() == if ok then IntoPending(old(Books()), value) else Refused(old(Books()), value);
    }

    method TakePending(token: string) returns (r: Option<Owner>)
      requires Conserved()
      modifies this, pending
      ensures Conserved() && handedIn == old(handedIn) && wiped == old(wiped)
      ensures pending.owners == old(pending.owners) - {token}
      ensures r == if token in old(pending.owners) then Some(old(pending.owners)[token]) else None
      ensures r.None? ==> Books() == old(Books())
      ensures r.Some? ==> OwnedBy(r.value) <= old(Books()).pending && OwnedBy(r.value) !! old(handedOut)
      ensures r.Some? ==> Distinct(r.value.buffers)
      ensures r.Some? ==> Books() == old(Books()).(
        pending := old(Books()).pending - OwnedBy(r.value), handedOut := old(handedOut) + OwnedBy(r.value))
    {
      r := pending.Take(token);
      if r.Some? {
        ghost var leaving := OwnedBy(r.value);
        RemovedOwner(old(pending.owners), token);
        HandedOut(old(Books()), leaving);
        handedOut := handedOut + leaving;
        assert Books() == old(Books()).(pending := old(Books()).pending - leaving, handedOut := handedOut);
      } else {
        assert pending.owners == old(pending.owners);
      }
    }

    /** A caller wipes buffers it was handed. */
    method WipeTaken(buffers: set<array<Byte>>)
      requires Conserved() && buffers <= handedOut
      modifies this, buffers
      ensures Conserved()
      ensures Books() == old(Books()).(handedOut := old(handedOut) - buffers, wiped := old(wiped) + buffers)
      ensures forall b, i :: b in buffers && 0 <= i < b.Length ==> b[i] == 0
    {
      WipedOut(Books(), buffers);
      WipeAll(buffers);
      handedOut, wiped := handedOut - buffers, wiped + buffers;
      assert Books() == old(Books()).(handedOut := handedOut, wiped := wiped);
    }

    /** A cancelled operation takes its owner out and wipes every buffer it held. */
    method CancelPending(token: string)
      requires Conserved()
      modifies this, pending, if token in pending.owners then OwnedBy(pending.owners[token]) else {}
      ensures Conserved() && pending.owners == old(pending.owners) - {token}
      ensures token !in old(pending.owners) ==> Books() == old(Books())
      ensures token in old(pending.owners) ==>
        var held := OwnedBy(old(pending.owners)[token]);
        && Books() == old(Books()).(pending := old(Books()).pending - held, wiped := old(wiped) + held)
        && forall b, i :: b in held && 0 <= i < b.Length ==> b[i] == 0
    {
      var owner := TakePending(token);
      if owner.Some? {
        WipeTaken(OwnedBy(owner.value));
        assert handedOut == old(handedOut);
      }
    }

    method DrainPending() returns (drained: map<string, Owner>)
      requires Conserved()
      modifies this, pending
      ensures Conserved() && drained == old(pending.owners) && pending.owners == map[]
      ensures OwnerBuffers(drained) !! old(handedOut)
      ensures Books() == old(Books()).(pending := {}, handedOut := old(handedOut) + OwnerBuffers(drained))
    {
      ghost var leaving := OwnerBuffers(pending.owners);
      HandedOut(Books(), leaving);
      handedOut := handedOut + leaving;
      drained := pending.Drain();
      assert old(Books()).pending - leaving == {};
      assert Books() == old(Books()).(pending := old(Books()).pending - leaving, handedOut := handedOut);
    }

    /** A document over a new buffer, or over one that was handed out, as when a pending open is finished. */
    method AddDocument(document: ManagedDocument) returns (ok: bool)
      requires Conserved() && document !in Documents() && !document.closed && Free(Books(), document.content)
      modifies this, registry
      ensures Conserved() && (ok <==> document.viewId !in old(registry.documents))
      ensures registry.documents ==
        if ok then old(registry.documents)[document.viewId := document] else old(registry.documents)
      ensures Books() == if ok then IntoDocument(old(Books()), document.content) else old(Books())
    {
      ok := registry.Add(document);
      if ok {
        Entered(old(Books()), document.content);
        AddedKey(old(registry.documents), document.viewId, document);
        handedIn, handedOut := handedIn + {document.content}, handedOut - {document.content};
        assert Books() == IntoDocument(old(Books()), document.content);
      }
    }

    /** Copies are new buffers that go straight to the caller. */
    method SnapshotDocument(document: ManagedDocument) returns (r: Option<(nat, array<Byte>)>)
      requires Conserved() && document in Documents()
      modifies this
      ensures Conserved() && (r.Some? <==> !document.closed)
      ensures r.None? ==> Books() == old(Books())
      ensures r.Some? ==> r.value.1 !in old(handedIn)
      ensures r.Some? ==> Books() == old(Books()).(
        handedIn := old(handedIn) + {r.value.1}, handedOut := old(handedOut) + {r.value.1})
    {
      r := document.Snapshot();
      if r.Some? {
        CopiedOut(Books(), r.value.1);
        handedIn, handedOut := handedIn + {r.value.1}, handedOut + {r.value.1};
        assert Books() == old(Books()).(handedIn := handedIn, handedOut := handedOut);
      }
    }

    lemma BeforeTrade(document: ManagedDocument, buffer: array<Byte>, accepted: bool)
      requires Conserved() && document in Documents() && Free(Books(), buffer) && (accepted ==> !document.closed)
      ensures buffer !in InDocuments() && buffer !in wiped
      ensures Balanced(Traded(Books(), buffer, document.content, accepted))
    {
      TradedBalances(Books(), buffer, document.content, accepted);
      Entered(Books(), buffer);
    }

    /** Books a trade that has taken place. */
    ghost method Settle(before: Accounts, previous: array<Byte>, buffer: array<Byte>, accepted: bool)
      requires Injective(handoffs.values) && OwnersInjective(pending.owners) && ViewsMatch() && DocumentsApart()
      requires Balanced(Traded(before, buffer, previous, accepted))
      requires Books() == before.(documents := Traded(before, buffer, previous, accepted).documents)
      requires IsZero((if accepted then previous else buffer)[..]) && forall b :: b in wiped ==> IsZero(b[..])
      modifies `handedIn, `handedOut, `wiped
      ensures Conserved() && Books() == Traded(before, buffer, previous, accepted)
    {
      handedIn, handedOut := handedIn + {buffer}, handedOut - {buffer};
      wiped := wiped + {if accepted then previous else buffer};
    }

    method ReplaceContent(document: ManagedDocument, buffer: array<Byte>)
      returns (ok: bool)
      requires Conserved() && document in Documents() && Free(Books(), buffer) && buffer != document.content
      modifies this, document, document.content, buffer
      ensures Conserved() && Books() == Traded(old(Books()), buffer, old(document.content), ok)
      ensures Documents() == old(Documents()) && (ok ==> document.content == buffer)
    {
      BeforeTrade(document, buffer, false);
      if !document.closed {
        BeforeTrade(document, buffer, true);
      }
      ok := OfferContent(document, buffer);
      Settle(old(Books()), old(document.content), buffer, ok);
    }

    method ReplaceProjection(document: ManagedDocument, buffer: array<Byte>, etag: string, renderMap: MapState)
      returns (ok: bool)
      requires Conserved() && document in Documents() && Free(Books(), buffer) && buffer != document.content
      modifies this, document, document.content, buffer
      ensures Conserved() && Books() == Traded(old(Books()), buffer, old(document.content), ok)
      ensures Documents() == old(Documents()) && (ok ==> document.content == buffer)
    {
      BeforeTrade(document, buffer, false);
      if !document.closed {
        BeforeTrade(document, buffer, true);
      }
      ok := OfferProjection(document, buffer, etag, renderMap);
      Settle(old(Books()), old(document.content), buffer, ok);
    }

    method EnterUmbra(document: ManagedDocument, buffer: array<Byte>, etag: string, renderMap: MapState)
      returns (r: Option<string>)
      requires Conserved() && document in Documents() && Free(Books(), buffer) && buffer != document.content
      modifies this, document, document.content, buffer
      ensures Conserved() && Books() == Traded(old(Books()), buffer, old(document.content), r.Some?)
      ensures Documents() == old(Documents()) && (r.Some? ==> document.content == buffer)
      ensures r.None? ==> document.View() == old(document.View())
    {
      BeforeTrade(document, buffer, false);
      if !document.closed {
        BeforeTrade(document, buffer, true);
      }
      r := OfferTransition(document, buffer, etag, renderMap);
      Settle(old(Books()), old(document.content), buffer, r.Some?);
    }

    ghost function Held(viewId: int): set<ManagedDocument>
      reads registry
    {
      if viewId in registry.documents then {registry.documents[viewId]} else {}
    }

    ghost method SettleScrub(before: Accounts, leaving: set<array<Byte>>)
      requires Injective(handoffs.values) && OwnersInjective(pending.owners) && ViewsMatch() && DocumentsApart()
      requires Balanced(Scrubbed(before, leaving)) && Books() == before.(documents := before.documents - leaving)
      requires forall b :: b in wiped + leaving ==> IsZero(b[..])
      modifies `wiped
      ensures Conserved() && Books() == Scrubbed(before, leaving)
    {
      wiped := wiped + leaving;
    }

    /** Scrubbing a view drops its document and wipes the buffer it owned. */
    method ScrubThenRemove(viewId: int) returns (r: Option<string>)
      requires Conserved()
      modifies this, registry, Held(viewId), OpenBuffers(Held(viewId))
      ensures Conserved() && registry.documents == old(registry.documents) - {viewId}
      ensures r.None? <==> viewId !in old(registry.documents)
      ensures r.Some? ==> r.value == old(registry.documents[viewId].handle) && old(registry.documents)[viewId].closed
      ensures Books() == Scrubbed(old(Books()), old(OpenBuffers(Held(viewId))))
    {
      if viewId !in registry.documents {
        return None;
      }
      var document := registry.documents[viewId];
      r := Some(document.handle);
      Drop(document);
    }

    method Drop(document: ManagedDocument)
      requires Conserved() && document in Documents()
      modifies this, registry, document, OpenBuffers({document})
      ensures Conserved() && registry.documents == old(registry.documents) - {document.viewId}
      ensures document.closed && Books() == Scrubbed(old(Books()), old(OpenBuffers({document})))
    {
      ghost var leaving := OpenBuffers({document});
      assert leaving == if document.closed then {} else {document.content};
      ghost var v := KeyOf(registry.documents, document);
      assert v == document.viewId && Injective(registry.documents);
      RemovedKey(registry.documents, v);
      WipedOut(Books(), leaving);
      var removed := registry.Remove(document.viewId);
      assert InDocuments() == old(InDocuments()) - leaving;
      document.Close();
      assert InDocuments() == old(InDocuments()) - leaving;
      SettleScrub(old(Books()), leaving);
    }

    /** Locking the plugin closes every document. */
    method ClearDocuments()
      requires Conserved()
      modifies this, registry, Documents(), InDocuments()
      ensures Conserved() && registry.documents == map[]
      ensures Books() == Scrubbed(old(Books()), old(InDocuments()))
    {
      ghost var leaving := InDocuments();
      WipedOut(Books(), leaving);
      registry.Clear();
      assert InDocuments() == old(InDocuments()) - leaving;
      SettleScrub(old(Books()), leaving);
    }
  }

  lemma RemovedValue(values: map<string, array<Byte>>, token: string)
    requires token in values && Injective(values)
    ensures Injective(values - {token})
    ensures (values - {token}).Values == values.Values - {values[token]}
  {
    RemovedKey(values, token);
  }

  lemma AddedValue(values: map<string, array<Byte>>, token: string, value: array<Byte>)
    requires token !in values && Injective(values) && value !in values.Values
    ensures Injective(values[token := value])
    ensures values[token := value].Values == values.Values + {value}
  {
    AddedKey(values, token, value);
  }

  lemma KeyOf<K, V>(values: map<K, V>, value: V) returns (key: K)
    requires value in values.Values
    ensures key in values && values[key] == value
  {
    key :| key in values && values[key] == value;
  }

  lemma RemovedKey<K, V>(values: map<K, V>, key: K)
    requires key in values && Injective(values)
    ensures (values - {key}).Values == values.Values - {values[key]}
  {
    var rest := values - {key};
    forall v | v in values.Values - {values[key]}
      ensures v in rest.Values
    {
      var k :| k in values && values[k] == v;
      assert rest[k] == v;
    }
  }

  lemma AddedKey<K, V>(values: map<K, V>, key: K, value: V)
    requires key !in values
    ensures values[key := value].Values == values.Values + {value}
  {
    var grown := values[key := value];
    assert grown[key] == value;
    forall v | v in values.Values
      ensures v in grown.Values
    {
      var k :| k in values && values[k] == v;
      assert grown[k] == v;
    }
  }

  lemma AddedOwner(owners: map<string, Owner>, token: string, handle: string, value: array<Byte>)
    requires token !in owners && OwnersInjective(owners) && value !in OwnerBuffers(owners)
    ensures OwnersInjective(owners[token := Owner(handle, [value])])
    ensures OwnerBuffers(owners[token := Owner(handle, [value])]) == OwnerBuffers(owners) + {value}
  {
    var grown := owners[token := Owner(handle, [value])];
    assert OwnedBy(grown[token]) == {value} by {
      assert [value][0] == value;
    }
    forall b | b in OwnerBuffers(owners)
      ensures b in OwnerBuffers(grown)
    {
      var t :| t in owners && b in OwnedBy(owners[t]);
      assert t in grown && grown[t] == owners[t];
    }
  }

  lemma AddedBuffer(owners: map<string, Owner>, token: string, value: array<Byte>)
    requires token in owners && OwnersInjective(owners) && value !in OwnerBuffers(owners)
    ensures OwnersInjective(WithBuffer(owners, token, value))
    ensures OwnerBuffers(WithBuffer(owners, token, value)) == OwnerBuffers(owners) + {value}
  {
    var grown := WithBuffer(owners, token, value);
    OwnedSnoc(owners[token], value);
    assert forall t :: t in grown && t != token ==> grown[t] == owners[t];
    assert OwnedBy(grown[token]) == OwnedBy(owners[token]) + {value};
    forall b | b in OwnerBuffers(owners)
      ensures b in OwnerBuffers(grown)
    {
      var t :| t in owners && b in OwnedBy(owners[t]);
      assert t in grown && b in OwnedBy(grown[t]);
    }
    assert value in OwnedBy(grown[token]);
  }

  lemma OwnedSnoc(owner: Owner, value: array<Byte>)
    requires Distinct(owner.buffers) && value !in OwnedBy(owner)
    ensures Distinct(owner.buffers + [value])
    ensures OwnedBy(Owner(owner.handle, owner.buffers + [value])) == OwnedBy(owner) + {value}
  {
    var all := owner.buffers + [value];
    forall b | b in OwnedBy(owner) + {value}
      ensures b in OwnedBy(Owner(owner.handle, all))
    {
      if b == value {
        assert all[|owner.buffers|] == b;
      } else {
        var i :| 0 <= i < |owner.buffers| && owner.buffers[i] == b;
        assert all[i] == b;
      }
    }
  }

  lemma RemovedOwner(owners: map<string, Owner>, token: string)
    requires token in owners && OwnersInjective(owners)
    ensures OwnersInjective(owners - {token})
    ensures OwnerBuffers(owners - {token}) == OwnerBuffers(owners) - OwnedBy(owners[token])
  {
    var rest := owners - {token};
    forall b | b in OwnerBuffers(owners) - OwnedBy(owners[token])
      ensures b in OwnerBuffers(rest)
    {
      var t :| t in owners && b in OwnedBy(owners[t]);
      assert t in rest && b in OwnedBy(rest[t]);
    }
    forall b | b in OwnerBuffers(rest)
      ensures b in OwnerBuffers(owners) - OwnedBy(owners[token])
    {
      var t :| t in rest && b in OwnedBy(rest[t]);
      assert t != token && OwnedBy(owners[t]) !! OwnedBy(owners[token]);
    }
  }
}
