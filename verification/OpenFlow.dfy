/** How a document is opened: its buffer waits in the pending registry, is claimed, and becomes the content. */
module OpenFlow {
  import opened Bytes
  import opened DocumentModel
  import opened ManagedDocuments
  import opened PlaintextCustody

  /** One buffer of a claimed owner becomes a document's content and the others are wiped. */
  function Claimed(a: Accounts, held: set<array<Byte>>, content: array<Byte>): Accounts {
    a.(pending := a.pending - held, documents := a.documents + {content}, wiped := a.wiped + (held - {content}))
  }

  /** All buffers of a claimed owner are wiped. */
  function Abandoned(a: Accounts, held: set<array<Byte>>): Accounts {
    a.(pending := a.pending - held, wiped := a.wiped + held)
  }

  /** A document opened under a free view comes to hold the buffer. */
  predicate Opens(rules: OpenRules, o: Opening, length: nat, views: set<int>) {
    CanOpen(rules, o, length) && o.viewId !in views
  }

  /**
   * Builds, registers and shows the document over a buffer just taken from the pending registry. `ready` says
   * that session and settings still allow it, `shown` that the view took the text. Every failure wipes.
   */
  method FinishOpen(
    ledger: PlaintextLedger, rules: OpenRules, o: Opening, content: array<Byte>, ready: bool, shown: bool)
    returns (r: Option<ManagedDocument>)
    requires ledger.Conserved() && content in ledger.handedOut
    modifies ledger, ledger.registry, content
    ensures ledger.Conserved()
    ensures r.Some? <==>
      ready && Opens(rules, o, content.Length, old(ledger.registry.documents).Keys) && shown
    ensures r.Some? ==> r.value.content == content && r.value.View() == Opened(o, old(content[..]))
    ensures ledger.registry.documents ==
      if r.Some? then old(ledger.registry.documents)[o.viewId := r.value] else old(ledger.registry.documents)
    ensures ledger.Books() ==
      if r.Some? then IntoDocument(old(ledger.Books()), content) else Refused(old(ledger.Books()), content)
  {
    if !ready {
      RefuseTaken(ledger, content);
      return None;
    }
    var document := ManagedDocument.Open(rules, o, content);
    if document.None? {
      RefuseTaken(ledger, content);
      return None;
    }
    assert document.value !in ledger.Documents();
    var added := ledger.AddDocument(document.value);
    if !added {
      RefuseTaken(ledger, content);
      return None;
    }
    if !shown {
      TakeBack(ledger, document.value);
      ScrubbedIsRefused(old(ledger.Books()), content);
      return None;
    }
    return document;
  }

  /** A document that could not be shown is wiped at once and leaves the registry with its view. */
  method TakeBack(ledger: PlaintextLedger, document: ManagedDocument)
    requires ledger.Conserved() && document in ledger.Documents() && !document.closed
    modifies ledger, ledger.registry, document, document.content
    ensures ledger.Conserved() && ledger.registry.documents == old(ledger.registry.documents) - {document.viewId}
    ensures ledger.Books() == Scrubbed(old(ledger.Books()), {old(document.content)})
  {
    ghost var v := KeyOf(ledger.registry.documents, document);
    Wipe(document.content);
    assert OpenBuffers(ledger.Held(document.viewId)) == {document.content};
    var handle := ledger.ScrubThenRemove(document.viewId);
  }

  lemma ScrubbedIsRefused(a: Accounts, x: array<Byte>)
    requires Balanced(a) && Free(a, x)
    ensures Scrubbed(IntoDocument(a, x), {x}) == Refused(a, x)
  {
    Entered(a, x);
  }

  method RefuseTaken(ledger: PlaintextLedger, content: array<Byte>)
    requires ledger.Conserved() && content in ledger.handedOut
    modifies ledger, content
    ensures ledger.Conserved() && ledger.Books() == Refused(old(ledger.Books()), content)
  {
    ledger.WipeTaken({content});
  }

  function OwnedUnder(owners: map<string, Owner>, token: string): set<array<Byte>> {
    if token in owners then OwnedBy(owners[token]) else {}
  }

  lemma ClaimedBooks(a: Accounts, held: set<array<Byte>>, content: array<Byte>)
    requires Balanced(a) && held <= a.pending && content in held
    ensures
      var out := a.(pending := a.pending - held, handedOut := a.handedOut + held);
      var one := out.(handedOut := out.handedOut - (held - {content}), wiped := out.wiped + (held - {content}));
      IntoDocument(one, content) == Claimed(a, held, content) && Refused(one, content) == Abandoned(a, held)
  {
  }

  lemma AbandonedBooks(a: Accounts, held: set<array<Byte>>)
    requires Balanced(a) && held <= a.pending
    ensures
      var out := a.(pending := a.pending - held, handedOut := a.handedOut + held);
      out.(handedOut := out.handedOut - held, wiped := out.wiped + held) == Abandoned(a, held)
  {
  }

  /** Takes an owner's buffers, keeps one of them for the document and wipes the others. */
  method FinishWith(
    ledger: PlaintextLedger, rules: OpenRules, o: Opening, owner: Owner, chosen: nat, ready: bool, shown: bool,
    ghost a: Accounts) returns (r: Option<ManagedDocument>)
    requires ledger.Conserved() && Balanced(a) && OwnedBy(owner) <= a.pending && chosen < |owner.buffers|
    requires ledger.Books() == a.(pending := a.pending - OwnedBy(owner), handedOut := a.handedOut + OwnedBy(owner))
    modifies ledger, ledger.registry, OwnedBy(owner)
    ensures ledger.Conserved()
    ensures r.Some? <==>
      ready && shown
      && Opens(rules, o, owner.buffers[chosen].Length, old(ledger.registry.documents).Keys)
    ensures r.Some? ==> r.value.content == owner.buffers[chosen]
    ensures r.Some? ==> r.value.View() == Opened(o, old(owner.buffers[chosen][..]))
    ensures ledger.registry.documents ==
      if r.Some? then old(ledger.registry.documents)[o.viewId := r.value] else old(ledger.registry.documents)
    ensures ledger.Books() ==
      if r.Some? then Claimed(a, OwnedBy(owner), owner.buffers[chosen]) else Abandoned(a, OwnedBy(owner))
  {
    var content := owner.buffers[chosen];
    assert content in OwnedBy(owner);
    ClaimedBooks(a, OwnedBy(owner), content);
    ledger.WipeTaken(OwnedBy(owner) - {content});
    r := FinishOpen(ledger, rules, o, content, ready, shown);
  }

  method Abandon(ledger: PlaintextLedger, owner: Owner, ghost a: Accounts)
    requires ledger.Conserved() && Balanced(a) && OwnedBy(owner) <= a.pending
    requires ledger.Books() == a.(pending := a.pending - OwnedBy(owner), handedOut := a.handedOut + OwnedBy(owner))
    modifies ledger, OwnedBy(owner)
    ensures ledger.Conserved() && ledger.Books() == Abandoned(a, OwnedBy(owner))
  {
    AbandonedBooks(a, OwnedBy(owner));
    ledger.WipeTaken(OwnedBy(owner));
  }

  /**
   * The callback of an open without a draft: claims the owner and opens its one buffer. Nothing is left
   * behind: each buffer of the owner ends up in the document or all zeros.
   */
  method FinishPendingOpen(
    ledger: PlaintextLedger, rules: OpenRules, token: string, o: Opening, sameClient: bool, ready: bool, shown: bool)
    returns (r: Option<ManagedDocument>)
    requires ledger.Conserved()
    modifies ledger, ledger.pending, ledger.registry, OwnedUnder(ledger.pending.owners, token)
    ensures ledger.Conserved() && ledger.pending.owners == old(ledger.pending.owners) - {token}
    ensures token !in old(ledger.pending.owners) ==> r.None? && ledger.Books() == old(ledger.Books())
    ensures token in old(ledger.pending.owners) ==>
      var owner := old(ledger.pending.owners)[token];
      && (r.Some? <==>
            sameClient && |owner.buffers| == 1 && ready && shown
            && Opens(rules, o.(handle := owner.handle), owner.buffers[0].Length, old(ledger.registry.documents).Keys))
      && ledger.Books() ==
        if r.Some? then Claimed(old(ledger.Books()), OwnedBy(owner), owner.buffers[0])
        else Abandoned(old(ledger.Books()), OwnedBy(owner))
    ensures r.Some? ==>
      var owner := old(ledger.pending.owners)[token];
      r.value.content == owner.buffers[0]
      && r.value.View() == Opened(o.(handle := owner.handle), old(ledger.pending.owners[token].buffers[0][..]))
  {
    var owner := ledger.TakePending(token);
    if owner.None? {
      return None;
    }
    if !sameClient || |owner.value.buffers| != 1 {
      Abandon(ledger, owner.value, old(ledger.Books()));
      return None;
    }
    r := FinishWith(ledger, rules, o.(handle := owner.value.handle), owner.value, 0, ready, shown, old(ledger.Books()));
  }

  datatype Choice = Restore | Discard(draftRemoved: bool) | Cancel

  /** The document as the choice opens it: recovered and dirty, or as it was saved. */
  function ChosenOpening(o: Opening, handle: string, choice: Choice, baseEtag: Option<string>): Opening {
    if choice.Restore? then
      o.(handle := handle, recovered := true, staleRecovery := baseEtag != Some(o.etag), recoveryBaseEtag := baseEtag)
    else
      o.(handle := handle, recovered := false, staleRecovery := false, recoveryBaseEtag := Some(o.etag))
  }

  predicate ChoosesBuffer(choice: Choice) {
    choice.Restore? || (choice.Discard? && choice.draftRemoved)
  }

  function ChosenBuffer(choice: Choice): nat {
    if choice.Restore? then 1 else 0
  }

  /** The answer to the recovery prompt: one of the two buffers is opened and the other wiped, or both are wiped. */
  method FinishRecovery(
    ledger: PlaintextLedger, rules: OpenRules, token: string, o: Opening, baseEtag: Option<string>, choice: Choice,
    sameClient: bool, ready: bool, shown: bool) returns (r: Option<ManagedDocument>)
    requires ledger.Conserved()
    modifies ledger, ledger.pending, ledger.registry, OwnedUnder(ledger.pending.owners, token)
    ensures ledger.Conserved() && ledger.pending.owners == old(ledger.pending.owners) - {token}
    ensures token !in old(ledger.pending.owners) ==> r.None? && ledger.Books() == old(ledger.Books())
    ensures token in old(ledger.pending.owners) ==>
      var owner := old(ledger.pending.owners)[token];
      (r.Some? <==>
        sameClient && |owner.buffers| == 2 && ChoosesBuffer(choice) && ready && shown
        && Opens(rules, ChosenOpening(o, owner.handle, choice, baseEtag), owner.buffers[ChosenBuffer(choice)].Length,
          old(ledger.registry.documents).Keys))
    ensures token in old(ledger.pending.owners) ==>
      var owner := old(ledger.pending.owners)[token];
      if r.Some? then
        ledger.Books() == Claimed(old(ledger.Books()), OwnedBy(owner), owner.buffers[ChosenBuffer(choice)])
        && r.value.content == owner.buffers[ChosenBuffer(choice)]
      else ledger.Books() == Abandoned(old(ledger.Books()), OwnedBy(owner))
    ensures r.Some? ==>
      var owner := old(ledger.pending.owners)[token];
      r.value.View() == Opened(ChosenOpening(o, owner.handle, choice, baseEtag),
        old(ledger.pending.owners[token].buffers[ChosenBuffer(choice)][..]))
    ensures choice.Cancel? || choice == Discard(false) ==> r.None?
    ensures r.Some? ==>
      var owner, d := old(ledger.pending.owners)[token], r.value.View();
      && d.path == o.path && d.handle == owner.handle && d.umbraMap == o.umbraMap && d.etag == o.etag
      && if choice.Restore? then
           && r.value.content == owner.buffers[1] && d.Dirty() && d.draftBaseEtag == baseEtag
           && (d.confirmOverwrite <==> baseEtag != Some(o.etag))
         else
           && r.value.content == owner.buffers[0] && !d.Dirty() && d.draftBaseEtag == Some(o.etag)
           && !d.confirmOverwrite
  {
    var owner := ledger.TakePending(token);
    if owner.None? {
      return None;
    }
    if !sameClient || |owner.value.buffers| != 2 || !ChoosesBuffer(choice) {
      Abandon(ledger, owner.value, old(ledger.Books()));
      return None;
    }
    r := FinishWith(ledger, rules, ChosenOpening(o, owner.value.handle, choice, baseEtag), owner.value,
      ChosenBuffer(choice), ready, shown, old(ledger.Books()));
  }

  /** A whole undisturbed open: the buffer read from the vault waits, is claimed, and becomes the document's. */
  method OpenDocument(
    ledger: PlaintextLedger, rules: OpenRules, token: string, o: Opening, content: array<Byte>, ready: bool,
    shown: bool)
    returns (r: Option<ManagedDocument>)
    requires ledger.Conserved() && Free(ledger.Books(), content) && token !in ledger.pending.owners
    modifies ledger, ledger.pending, ledger.registry, content
    ensures ledger.Conserved() && ledger.pending.owners == old(ledger.pending.owners)
    ensures r.Some? <==>
      ready && shown && Opens(rules, o, content.Length, old(ledger.registry.documents).Keys)
    ensures r.Some? ==> r.value.content == content && r.value.View() == Opened(o, old(content[..]))
    ensures ledger.Books() ==
      if r.Some? then IntoDocument(old(ledger.Books()), content) else Refused(old(ledger.Books()), content)
  {
    Entered(ledger.Books(), content);
    var added := ledger.AddPending(o.handle, content, token);
    if !added {
      return None;
    }
    assert OwnedBy(Owner(o.handle, [content])) == {content};
    r := FinishPendingOpen(ledger, rules, token, o, true, ready, shown);
    WaitedBooks(old(ledger.Books()), content);
  }

  lemma WaitedBooks(a: Accounts, x: array<Byte>)
    requires Balanced(a) && Free(a, x)
    ensures Claimed(IntoPending(a, x), {x}, x) == IntoDocument(a, x)
    ensures Abandoned(IntoPending(a, x), {x}) == Refused(a, x)
  {
    Entered(a, x);
  }
}
