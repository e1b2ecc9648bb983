/** Saving over all interleavings of edits, saves, renames, other writers and late completions. */
module SaveProtocol {
  import opened Bytes
  import opened DocumentModel

  datatype Request = SaveOf(version: nat, snapshot: Bytes) | RenameTo(source: string, path: string)

  /** A request is under way, its write is in the store, or it failed without effect. */
  datatype Phase = Sent | Stored(etag: string) | Failed

  datatype Flight = Flight(request: Request, baseEtag: string, generation: nat, phase: Phase)

  /** `history` maps every etag the store ever issued for this document to the plaintext under it. */
  datatype World = World(
    doc: Doc, registered: bool, generation: nat,
    history: map<string, Bytes>, current: string, flights: map<nat, Flight>)

  datatype Step =
    | Edit(text: Bytes)
    | BeginSave(id: nat, viewText: Bytes)
    | BeginRename(id: nat, path: string)
    | Commit(id: nat, newEtag: string)
    | Refuse(id: nat)
    | ExternalWrite(text: Bytes, newEtag: string)
    | Deliver(id: nat)
    | Forget(id: nat)
    | EnterUmbra(text: Bytes, etag: string, renderMap: MapState)
    | LockDocument
    | EndSession
    | CloseDocument

  predicate Fresh(w: World, etag: string) {
    ValidEtag(etag) && etag !in w.history
  }

  // ---- Steps -------------------------------------------------------------------------------------

  /** The modification hook: a refused buffer leaves the document read-only. */
  function Edited(d: Doc, text: Bytes): Doc {
    if CanReplace(d, text) then Replaced(d, text) else d.(readOnly := true)
  }

  /** Capturing the view takes over its text when the document does not have it yet. */
  function Captured(d: Doc, viewText: Bytes): Doc {
    if viewText == d.content then d else Replaced(d, viewText)
  }

  predicate CaptureWorks(d: Doc, viewText: Bytes) {
    !d.closed && (viewText == d.content || CanReplace(d, viewText))
  }

  function SaveBegun(w: World, id: nat, viewText: Bytes): World {
    var doc := Captured(w.doc, viewText);
    if !CaptureWorks(w.doc, viewText) then w.(doc := doc)
    else
      w.(doc := doc,
         flights := w.flights[id := Flight(SaveOf(doc.version, doc.content), doc.etag, w.generation, Sent)])
  }

  /** The plaintext that a request leaves in the store. */
  function Plaintext(w: World, f: Flight): Bytes
    requires w.current in w.history
  {
    if f.request.SaveOf? then f.request.snapshot else w.history[w.current]
  }

  /** The store's compare-and-swap. */
  function Committed(w: World, id: nat, newEtag: string): World
    requires id in w.flights && w.current in w.history
  {
    var f := w.flights[id];
    if f.baseEtag != w.current then w.(flights := w.flights[id := f.(phase := Failed)])
    else
      w.(history := w.history[newEtag := Plaintext(w, f)], current := newEtag,
         flights := w.flights[id := f.(phase := Stored(newEtag))])
  }

  /** What a completion that is still current does to the document. */
  function Completed(d: Doc, f: Flight): Doc {
    if !f.phase.Stored? then d
    else
      match f.request
      case SaveOf(version, _) => MarkedDrafted(MarkedSaved(d, version, f.phase.etag), version)
      case RenameTo(source, path) =>
        if d.path != source || d.etag != f.baseEtag || d.Dirty() then d
        else Renamed(d, path, f.phase.etag, _ => true)
  }

  function Delivered(w: World, id: nat): World
    requires id in w.flights
  {
    var f := w.flights[id];
    var doc := if w.registered && f.generation == w.generation then Completed(w.doc, f) else w.doc;
    w.(doc := doc, flights := w.flights - {id})
  }

  predicate Enabled(w: World, step: Step) {
    match step
    case Edit(_) => w.registered
    case BeginSave(id, _) => w.registered && id !in w.flights
    case BeginRename(id, _) => w.registered && id !in w.flights && !w.doc.Dirty() && Writable(w.doc)
    case Commit(id, newEtag) =>
      id in w.flights && w.flights[id].phase == Sent && Fresh(w, newEtag) && w.current in w.history
    case Refuse(id) => id in w.flights && w.flights[id].phase == Sent
    case ExternalWrite(_, newEtag) => Fresh(w, newEtag)
    case Deliver(id) => id in w.flights && w.flights[id].phase != Sent
    case Forget(id) => id in w.flights
    case EnterUmbra(_, _, _) => w.registered
    case LockDocument => w.registered
    case EndSession => true
    case CloseDocument => w.registered
  }

  function After(w: World, step: Step): World
    requires Enabled(w, step)
  {
    match step
    case Edit(text) => w.(doc := Edited(w.doc, text))
    case BeginSave(id, viewText) => SaveBegun(w, id, viewText)
    case BeginRename(id, path) =>
      w.(doc := w.doc.(debounceGeneration := w.doc.debounceGeneration + 1, draftEpoch := w.doc.draftEpoch + 1),
         flights := w.flights[id := Flight(RenameTo(w.doc.path, path), w.doc.etag, w.generation, Sent)])
    case Commit(id, newEtag) => Committed(w, id, newEtag)
    case Refuse(id) => w.(flights := w.flights[id := w.flights[id].(phase := Failed)])
    case ExternalWrite(text, newEtag) => w.(history := w.history[newEtag := text], current := newEtag)
    case Deliver(id) => Delivered(w, id)
    case Forget(id) => w.(flights := w.flights - {id})
    case EnterUmbra(text, etag, renderMap) => w.(doc := EnteredUmbra(w.doc, text, etag, renderMap))
    case LockDocument => w.(doc := w.doc.(readOnly := true))
    case EndSession => w.(generation := w.generation + 1)
    case CloseDocument => w.(doc := Closed(w.doc), registered := false)
  }

  // ---- The invariant -----------------------------------------------------------------------------

  /** A normal document that the plugin still manages. */
  predicate Normal(w: World) {
    w.registered && !w.doc.IsUmbra()
  }

  /** The safety property: what looks saved is what the store holds under the recorded etag. */
  predicate CleanMatchesStore(w: World) {
    Normal(w) && !w.doc.Dirty() ==> w.doc.etag in w.history && w.doc.content == w.history[w.doc.etag]
  }

  ghost predicate Known(w: World) {
    && w.current in w.history && w.doc.etag in w.history
    && (forall id :: id in w.flights ==> w.flights[id].baseEtag in w.history)
    && w.doc.savedVersion <= w.doc.version
  }

  predicate IsStored(w: World, id: nat) {
    id in w.flights && w.flights[id].phase.Stored?
  }

  /** A stored write still under way was made against the document's etag, which is stale from then on. */
  ghost predicate StoredFits(w: World, id: nat)
    requires Known(w) && IsStored(w, id)
  {
    var f := w.flights[id];
    && f.baseEtag == w.doc.etag && w.doc.etag != w.current
    && f.phase.etag in w.history && ValidEtag(f.phase.etag)
    && w.history[f.phase.etag] == (if f.request.SaveOf? then f.request.snapshot else w.history[f.baseEtag])
    && forall other :: other in w.flights ==> w.flights[other].baseEtag != f.phase.etag
  }

  ghost predicate SaveFits(w: World, id: nat)
    requires id in w.flights && w.flights[id].request.SaveOf?
  {
    var save := w.flights[id].request;
    && save.version <= w.doc.version
    && (save.version == w.doc.version ==> save.snapshot == w.doc.content)
    && (!w.doc.Dirty() && w.flights[id].baseEtag == w.doc.etag ==> save.version == w.doc.version)
  }

  ghost predicate Core(w: World) {
    && Known(w) && CleanMatchesStore(w)
    && (forall id :: IsStored(w, id) ==> StoredFits(w, id))
    && (forall a, b :: IsStored(w, a) && IsStored(w, b) ==> a == b)
    && (forall id :: id in w.flights && w.flights[id].phase == Sent && w.flights[id].baseEtag == w.current ==>
      w.flights[id].baseEtag == w.doc.etag)
    && (forall id :: id in w.flights && w.flights[id].request.SaveOf? ==> SaveFits(w, id))
  }

  ghost predicate Inv(w: World) {
    Normal(w) ==> Core(w)
  }

  /** A document just opened, clean under its etag, or recovered and dirty. */
  ghost predicate Init(w: World) {
    && w.registered && !w.doc.IsUmbra() && w.flights == map[]
    && w.current in w.history && w.doc.etag in w.history
    && w.doc.savedVersion <= w.doc.version
    && (!w.doc.Dirty() ==> w.doc.content == w.history[w.doc.etag])
  }

  lemma InitHolds(w: World)
    requires Init(w)
    ensures Inv(w)
  {
  }

  lemma EditKeeps(w: World, text: Bytes)
    requires Core(w) && Normal(w)
    ensures Core(w.(doc := Edited(w.doc, text)))
  {
    var v := w.(doc := Edited(w.doc, text));
    assert forall id :: IsStored(v, id) ==> IsStored(w, id) && StoredFits(w, id);
    forall id | id in v.flights && v.flights[id].request.SaveOf?
      ensures SaveFits(v, id)
    {
      assert SaveFits(w, id);
    }
  }

  lemma SaveBegunKeeps(w: World, id: nat, viewText: Bytes)
    requires Core(w) && Normal(w) && id !in w.flights
    ensures Core(SaveBegun(w, id, viewText))
  {
    var v := SaveBegun(w, id, viewText);
    forall other | IsStored(v, other)
      ensures IsStored(w, other) && StoredFits(v, other)
    {
      assert StoredFits(w, other);
    }
    forall other | other in v.flights && v.flights[other].request.SaveOf?
      ensures SaveFits(v, other)
    {
      if other in w.flights {
        assert SaveFits(w, other);
      }
    }
  }

  lemma RenameBegunKeeps(w: World, id: nat, path: string)
    requires Core(w) && Normal(w) && Enabled(w, BeginRename(id, path))
    ensures Core(After(w, BeginRename(id, path)))
  {
    var v := After(w, BeginRename(id, path));
    forall other | IsStored(v, other)
      ensures IsStored(w, other) && StoredFits(v, other)
    {
      assert StoredFits(w, other);
    }
    forall other | other in v.flights && v.flights[other].request.SaveOf?
      ensures SaveFits(v, other)
    {
      assert SaveFits(w, other);
    }
  }

  lemma CommitKeeps(w: World, id: nat, newEtag: string)
    requires Core(w) && Normal(w) && Enabled(w, Commit(id, newEtag))
    ensures Core(Committed(w, id, newEtag))
  {
    if w.flights[id].baseEtag != w.current {
      FewerFlightsKeep(w, Committed(w, id, newEtag));
    } else {
      WriteKeeps(w, id, newEtag);
    }
  }

  lemma StoredMeansStale(w: World, id: nat)
    requires Core(w) && IsStored(w, id)
    ensures w.doc.etag != w.current
  {
    assert StoredFits(w, id);
  }

  /** A write that goes through finds no other stored write under way: the document's etag was still current. */
  lemma WriteKeeps(w: World, id: nat, newEtag: string)
    requires Core(w) && Normal(w) && Enabled(w, Commit(id, newEtag)) && w.flights[id].baseEtag == w.current
    ensures Core(Committed(w, id, newEtag))
  {
    var v := Committed(w, id, newEtag);
    assert w.doc.etag == w.current;
    forall other
      ensures !IsStored(w, other)
    {
      if IsStored(w, other) {
        StoredMeansStale(w, other);
        assert false;
      }
    }
    assert forall other :: IsStored(v, other) ==> other == id || IsStored(w, other);
    assert StoredFits(v, id) by {
      assert forall other :: other in v.flights ==> v.flights[other].baseEtag == w.flights[other].baseEtag;
    }
    forall other | other in v.flights && v.flights[other].request.SaveOf?
      ensures SaveFits(v, other)
    {
      assert SaveFits(w, other);
    }
  }

  lemma ExternalKeeps(w: World, text: Bytes, newEtag: string)
    requires Core(w) && Normal(w) && Fresh(w, newEtag)
    ensures Core(w.(history := w.history[newEtag := text], current := newEtag))
  {
    var v := w.(history := w.history[newEtag := text], current := newEtag);
    forall other | IsStored(v, other)
      ensures StoredFits(v, other)
    {
      assert IsStored(w, other) && StoredFits(w, other);
      var f := w.flights[other];
      assert f.baseEtag != newEtag && f.phase.etag != newEtag && w.doc.etag != newEtag;
      assert v.history[f.phase.etag] == w.history[f.phase.etag] && v.history[f.baseEtag] == w.history[f.baseEtag];
    }
    forall a, b | IsStored(v, a) && IsStored(v, b)
      ensures a == b
    {
      assert IsStored(w, a) && IsStored(w, b);
    }
    forall other | other in v.flights && v.flights[other].request.SaveOf?
      ensures SaveFits(v, other)
    {
      assert SaveFits(w, other);
    }
  }

  /** Taking one request off the table, or marking it failed, loses nothing the invariant needs. */
  lemma FewerFlightsKeep(w: World, v: World)
    requires Core(w) && Normal(w)
    requires v == w.(flights := v.flights, generation := v.generation)
    requires v.flights.Keys <= w.flights.Keys
    requires forall id :: id in v.flights ==>
      v.flights[id] == w.flights[id] || v.flights[id] == w.flights[id].(phase := Failed)
    ensures Core(v)
  {
    forall other | IsStored(v, other)
      ensures IsStored(w, other) && StoredFits(v, other)
    {
      assert StoredFits(w, other);
    }
    forall other | other in v.flights && v.flights[other].request.SaveOf?
      ensures SaveFits(v, other)
    {
      assert SaveFits(w, other);
    }
  }

  /** The write of an older version finds the document dirty: a clean one never loses its etag to it. */
  lemma NoOlderWriteOverClean(w: World, id: nat)
    requires Core(w) && IsStored(w, id) && w.flights[id].request.SaveOf? && !w.doc.Dirty()
    ensures w.flights[id].request.version == w.doc.version
  {
    assert StoredFits(w, id) && SaveFits(w, id);
  }

  lemma DeliverKeeps(w: World, id: nat)
    requires Core(w) && Normal(w) && id in w.flights
    ensures Core(Delivered(w, id))
  {
    var f := w.flights[id];
    var v := Delivered(w, id);
    if v.doc == w.doc {
      FewerFlightsKeep(w, v);
    } else {
      assert IsStored(w, id) && StoredFits(w, id);
      DeliveredDocument(w, id);
      forall other | other in v.flights
        ensures !IsStored(v, other) && v.flights[other].baseEtag != v.doc.etag
      {
        assert other in w.flights;
        assert !IsStored(w, other);
      }
      forall other | other in v.flights && v.flights[other].phase == Sent
        ensures v.flights[other].baseEtag != v.current
      {
        assert w.flights[other].baseEtag == w.current ==> w.flights[other].baseEtag == w.doc.etag;
      }
      forall other | other in v.flights && v.flights[other].request.SaveOf?
        ensures SaveFits(v, other)
      {
        assert SaveFits(w, other);
      }
    }
  }

  /** What a delivered write changes: the etag moves to the new ciphertext, and clean means it matches. */
  lemma DeliveredDocument(w: World, id: nat)
    requires Core(w) && Normal(w) && IsStored(w, id) && Delivered(w, id).doc != w.doc
    ensures var v, e := Delivered(w, id).doc, w.flights[id].phase.etag;
      && v.etag == e && v.version == w.doc.version && v.content == w.doc.content
      && v.umbraMap == w.doc.umbraMap && v.savedVersion <= v.version
      && (!v.Dirty() ==> v.content == w.history[e])
  {
    assert StoredFits(w, id);
    if w.flights[id].request.SaveOf? {
      assert SaveFits(w, id);
      if !w.doc.Dirty() {
        NoOlderWriteOverClean(w, id);
      }
    }
  }

  /** One step of any kind keeps the invariant. */
  lemma StepKeeps(w: World, step: Step)
    requires Inv(w) && Enabled(w, step)
    ensures Inv(After(w, step))
  {
    if Normal(w) {
      match step
      case Edit(text) => EditKeeps(w, text);
      case BeginSave(id, viewText) => SaveBegunKeeps(w, id, viewText);
      case BeginRename(id, path) => RenameBegunKeeps(w, id, path);
      case Commit(id, newEtag) => CommitKeeps(w, id, newEtag);
      case Refuse(id) => FewerFlightsKeep(w, After(w, step));
      case ExternalWrite(text, newEtag) => ExternalKeeps(w, text, newEtag);
      case Deliver(id) => DeliverKeeps(w, id);
      case Forget(id) => FewerFlightsKeep(w, After(w, step));
      case EnterUmbra(text, etag, renderMap) => UmbraKeeps(w, text, etag, renderMap);
      case LockDocument => LockKeeps(w);
      case EndSession => FewerFlightsKeep(w, After(w, step));
      case CloseDocument =>
    } else {
      StaysOutside(w, step);
    }
  }

  lemma LockKeeps(w: World)
    requires Core(w) && Normal(w)
    ensures Core(w.(doc := w.doc.(readOnly := true)))
  {
    var v := w.(doc := w.doc.(readOnly := true));
    forall other | IsStored(v, other)
      ensures IsStored(w, other) && StoredFits(v, other)
    {
      assert StoredFits(w, other);
    }
    forall other | other in v.flights && v.flights[other].request.SaveOf?
      ensures SaveFits(v, other)
    {
      assert SaveFits(w, other);
    }
  }

  lemma UmbraKeeps(w: World, text: Bytes, etag: string, renderMap: MapState)
    requires Core(w) && Normal(w)
    ensures Inv(w.(doc := EnteredUmbra(w.doc, text, etag, renderMap)))
  {
    if CanEnterUmbra(w.doc, text, etag, renderMap) {
      assert EnteredUmbra(w.doc, text, etag, renderMap).IsUmbra();
    }
  }

  /** An Umbra or dropped document never becomes a managed normal one again. */
  lemma StaysOutside(w: World, step: Step)
    requires !Normal(w) && Enabled(w, step)
    ensures !Normal(After(w, step))
  {
    if step.Deliver? && w.doc.IsUmbra() {
      CompletedKeepsMap(w.doc, w.flights[step.id]);
    }
  }

  lemma CompletedKeepsMap(d: Doc, f: Flight)
    ensures Completed(d, f).umbraMap == d.umbraMap
  {
  }

  // ---- Runs --------------------------------------------------------------------------------------

  /** The world after a sequence of steps, or None when one of them was not possible. */
  function Run(w: World, steps: seq<Step>): Option<World> {
    if steps == [] then Some(w)
    else
      var before := Run(w, steps[..|steps| - 1]);
      if before.None? || !Enabled(before.value, steps[|steps| - 1]) then None
      else Some(After(before.value, steps[|steps| - 1]))
  }

  lemma {:induction false} RunKeeps(w: World, steps: seq<Step>)
    requires Init(w) && Run(w, steps).Some?
    ensures Inv(Run(w, steps).value)
  {
    if steps == [] {
      InitHolds(w);
    } else {
      RunKeeps(w, steps[..|steps| - 1]);
      StepKeeps(Run(w, steps[..|steps| - 1]).value, steps[|steps| - 1]);
    }
  }

  /**
   * After any run, a normal managed document that is not dirty has exactly the plaintext that the store
   * holds under the etag it recorded.
   */
  lemma SavedMeansStored(w: World, steps: seq<Step>)
    requires Init(w) && Run(w, steps).Some?
    ensures CleanMatchesStore(Run(w, steps).value)
  {
    RunKeeps(w, steps);
  }

  /**
   * After any run, delivering the completion of an older version leaves a newer clean document exactly
   * as it is.
   */
  lemma LateCompletionHarmless(w: World, steps: seq<Step>, id: nat)
    requires Init(w) && Run(w, steps).Some?
    requires var v := Run(w, steps).value;
      Normal(v) && !v.doc.Dirty() && id in v.flights
      && v.flights[id].request.SaveOf? && v.flights[id].request.version < v.doc.version
    ensures var v := Run(w, steps).value; Delivered(v, id).doc == v.doc
  {
    RunKeeps(w, steps);
    var v := Run(w, steps).value;
    if IsStored(v, id) {
      NoOlderWriteOverClean(v, id);
    }
  }

  /** A write never replaces ciphertext that the document had not seen: the etag it moves from is its own. */
  lemma NoLostUpdate(w: World, steps: seq<Step>, id: nat, newEtag: string)
    requires Init(w) && Run(w, steps).Some? && Normal(Run(w, steps).value)
    requires Enabled(Run(w, steps).value, Commit(id, newEtag))
    ensures var v := Run(w, steps).value;
      Committed(v, id, newEtag).current != v.current ==> v.current == v.doc.etag
  {
    RunKeeps(w, steps);
  }

  // ---- What each step achieves -------------------------------------------------------------------

  /** An edit shows in the document at once and makes it dirty; text that cannot be held locks it instead. */
  lemma EditTakesText(w: World, steps: seq<Step>, text: Bytes)
    requires Init(w) && Run(w, steps).Some? && Normal(Run(w, steps).value)
    ensures var v := Run(w, steps).value; var d := After(v, Edit(text)).doc;
      if !v.doc.closed && !v.doc.readOnly && |text| <= MAX_DOCUMENT_BYTES
      then d.content == text && d.Dirty() && d.etag == v.doc.etag && d.version == v.doc.version + 1
      else d == v.doc.(readOnly := true)
  {
    RunKeeps(w, steps);
  }

  /** What a save sends is the text that the view showed when it began, as the current version. */
  lemma BegunSaveIsTheView(w: World, id: nat, viewText: Bytes)
    requires Enabled(w, BeginSave(id, viewText))
    ensures var v := After(w, BeginSave(id, viewText));
      && (id in v.flights <==>
            !w.doc.closed && (viewText == w.doc.content || (!w.doc.readOnly && |viewText| <= MAX_DOCUMENT_BYTES)))
      && (id in v.flights ==>
            v.doc.content == viewText
            && v.flights[id] == Flight(SaveOf(v.doc.version, viewText), w.doc.etag, w.generation, Sent))
      && forall other :: other in w.flights ==> other in v.flights && v.flights[other] == w.flights[other]
  {
  }

  /** A stored save whose session is still the current one. */
  predicate SaveArrives(w: World, id: nat) {
    Normal(w) && IsStored(w, id) && w.flights[id].request.SaveOf? && w.flights[id].generation == w.generation
  }

  /**
   * After any run, delivering a stored save records its etag. If the document was not edited since, it is
   * clean and the store holds its text under that etag; if it was, it is dirty.
   */
  lemma DeliveredSave(w: World, steps: seq<Step>, id: nat)
    requires Init(w) && Run(w, steps).Some? && SaveArrives(Run(w, steps).value, id)
    ensures var v := Run(w, steps).value; var u, save := After(v, Deliver(id)), v.flights[id].request;
      && u.doc.etag == v.flights[id].phase.etag && u.doc.content == v.doc.content && id !in u.flights
      && u.doc.draftBaseEtag == Some(u.doc.etag) && u.doc.draftVersion >= save.version
      && save.version <= v.doc.version && (u.doc.Dirty() <==> save.version < v.doc.version)
      && (save.version == v.doc.version ==>
            u.doc.etag in u.history && u.doc.content == u.history[u.doc.etag] && !u.doc.confirmOverwrite)
  {
    RunKeeps(w, steps);
    var v := Run(w, steps).value;
    assert StoredFits(v, id) && SaveFits(v, id);
    if !v.doc.Dirty() {
      NoOlderWriteOverClean(v, id);
    }
  }

  /** A completion that failed, or that comes from an earlier session, leaves the document as it is. */
  lemma StaleDeliveryHarmless(w: World, id: nat)
    requires Enabled(w, Deliver(id))
    requires w.flights[id].phase == Failed || w.flights[id].generation != w.generation || !w.registered
    ensures After(w, Deliver(id)) == w.(flights := w.flights - {id})
  {
  }

  /** A stored rename moves a document that is still the one it was sent for, and no other. */
  lemma DeliveredRename(w: World, id: nat)
    requires Enabled(w, Deliver(id)) && IsStored(w, id) && w.flights[id].request.RenameTo? && Normal(w)
    requires w.flights[id].generation == w.generation && ValidEtag(w.flights[id].phase.etag) && !w.doc.closed
    ensures var d, f := After(w, Deliver(id)).doc, w.flights[id];
      if w.doc.path == f.request.source && w.doc.etag == f.baseEtag && !w.doc.Dirty()
      then d.path == f.request.path && d.etag == f.phase.etag && d.content == w.doc.content && !d.Dirty()
      else d == w.doc
  {
  }

  /** Closing lets go of the text for good; a new session leaves the document but no completion of the old one. */
  lemma ClosingAndEnding(w: World)
    requires w.registered
    ensures var v := After(w, CloseDocument);
      && !v.registered && v.doc.closed && (!w.doc.closed ==> v.doc.content == []) && v.history == w.history
      && v.current == w.current && v.flights == w.flights
    ensures var v := After(w, EndSession); v.generation > w.generation && v == w.(generation := v.generation)
  {
  }

  /** A rename is sent only for a clean document that can be written, with its path and etag of that moment. */
  lemma BegunRename(w: World, id: nat, path: string)
    requires w.registered && id !in w.flights
    ensures Enabled(w, BeginRename(id, path)) <==>
      w.doc.version == w.doc.savedVersion && !w.doc.closed && !w.doc.readOnly
    ensures Enabled(w, BeginRename(id, path)) ==>
      var v := After(w, BeginRename(id, path));
      && v.flights == w.flights[id := Flight(RenameTo(w.doc.path, path), w.doc.etag, w.generation, Sent)]
      && v.doc.content == w.doc.content && v.doc.path == w.doc.path && v.doc.etag == w.doc.etag && !v.doc.Dirty()
  {
  }

  /** The store takes a request exactly when its etag is current, and then holds what the request carries. */
  lemma CommitIsCompareAndSwap(w: World, id: nat, newEtag: string)
    requires Enabled(w, Commit(id, newEtag))
    ensures var v, f := After(w, Commit(id, newEtag)), w.flights[id];
      && v.doc == w.doc && v.flights.Keys == w.flights.Keys
      && if f.baseEtag == w.current
         then v.current == newEtag && v.flights[id].phase == Stored(newEtag) && newEtag in v.history
              && v.history[newEtag] == (if f.request.SaveOf? then f.request.snapshot else w.history[w.current])
         else v.current == w.current && v.history == w.history && v.flights[id].phase == Failed
  {
  }

  function WholeSave(id: nat, text: Bytes, newEtag: string): seq<Step> {
    [BeginSave(id, text)] + [Commit(id, newEtag)] + [Deliver(id)]
  }

  lemma RunThree(w: World, a: Step, b: Step, c: Step)
    requires Enabled(w, a) && Enabled(After(w, a), b) && Enabled(After(After(w, a), b), c)
    ensures Run(w, [a] + [b] + [c]) == Some(After(After(After(w, a), b), c))
  {
    assert ([a] + [b] + [c])[..2] == [a] + [b] && ([a] + [b])[..1] == [a];
    assert Run(w, []) == Some(w) && [a][..0] == [];
    assert Run(w, [a]) == Some(After(w, a));
    assert Run(w, [a] + [b]) == Some(After(After(w, a), b));
  }

  /** An undisturbed save, from any state a run can reach, ends with the view's text clean in the store. */
  lemma UndisturbedSave(w: World, steps: seq<Step>, id: nat, text: Bytes, newEtag: string)
    requires Init(w) && Run(w, steps).Some?
    requires var v := Run(w, steps).value;
      && Normal(v) && Writable(v.doc) && |text| <= MAX_DOCUMENT_BYTES && v.doc.etag == v.current
      && id !in v.flights && Fresh(v, newEtag)
    ensures var r := Run(Run(w, steps).value, WholeSave(id, text, newEtag));
      && r.Some? && !r.value.doc.Dirty() && r.value.doc.content == text && r.value.doc.etag == newEtag
      && r.value.current == newEtag && newEtag in r.value.history && r.value.history[newEtag] == text
  {
    RunKeeps(w, steps);
    var v := Run(w, steps).value;
    var begun := After(v, BeginSave(id, text));
    BegunSaveIsTheView(v, id, text);
    CommitIsCompareAndSwap(begun, id, newEtag);
    RunThree(v, BeginSave(id, text), Commit(id, newEtag), Deliver(id));
  }
}
