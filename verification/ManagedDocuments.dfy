/** The plugin's document object over a real plaintext buffer, proved against the value model. */
module ManagedDocuments {
  import opened Bytes
  import opened DocumentModel

  predicate IsZero(s: Bytes) {
    forall i :: 0 <= i < |s| ==> s[i] == 0
  }

  /** Overwrites a plaintext buffer in place. */
  method Wipe(buffer: array<Byte>)
    modifies buffer
    ensures IsZero(buffer[..]) && forall i :: 0 <= i < buffer.Length ==> buffer[i] == 0
  {
    for i := 0 to buffer.Length
      invariant forall k :: 0 <= k < i ==> buffer[k] == 0
    {
      buffer[i] := 0;
    }
  }

  /** What the constructor is called with, apart from the buffer. */
  datatype Opening = Opening(
    viewId: int, path: string, handle: string, etag: string, umbraMap: MapState,
    recovered: bool, staleRecovery: bool, recoveryBaseEtag: Option<string>)

  /** The path rules, and whether a handle fits its 4096 bytes of UTF-8. */
  datatype OpenRules = OpenRules(pathOk: string -> bool, handleFits: string -> bool)

  predicate CanOpen(rules: OpenRules, o: Opening, length: nat) {
    && o.viewId > 0 && rules.pathOk(o.path) && rules.handleFits(o.handle)
    && (o.umbraMap == NoMap <==> o.handle != "")
    && ValidEtag(o.etag) && length <= MAX_DOCUMENT_BYTES
    && (o.recoveryBaseEtag.Some? ==> ValidEtag(o.recoveryBaseEtag.value))
  }

  /** A freshly opened document, or one recovered from a draft, which starts dirty. */
  function Opened(o: Opening, content: Bytes): Doc {
    Doc(o.path, o.handle, o.umbraMap, o.etag, if o.recovered then o.recoveryBaseEtag else Some(o.etag), content,
      if o.recovered then 1 else 0, 0, if o.recovered then 1 else -1, o.staleRecovery, false, false, 0, 0)
  }

  /** What every opened document starts with. */
  lemma OpenedIsSound(rules: OpenRules, o: Opening, content: Bytes)
    requires CanOpen(rules, o, |content|)
    ensures Sound(Opened(o, content)) && o.viewId > 0 && rules.pathOk(o.path)
  {
  }

  class ManagedDocument {
    const viewId: int
    const pathOk: string -> bool
    var logicalPath: string
    var handle: string
    var umbraMap: MapState
    var etag: string
    var draftBaseEtag: Option<string>
    var content: array<Byte>
    var version: nat
    var savedVersion: nat
    var draftVersion: int
    var requiresOverwriteConfirmation: bool
    var readOnly: bool
    var closed: bool
    var debounceGeneration: nat
    var draftEpoch: nat

    function View(): Doc
      reads this, content
    {
      Doc(logicalPath, handle, umbraMap, etag, draftBaseEtag, content[..], version, savedVersion, draftVersion,
        requiresOverwriteConfirmation, readOnly, closed, debounceGeneration, draftEpoch)
    }

    /** The checks on opening; a refused buffer stays with the caller, unwiped. */
    static method Open(rules: OpenRules, o: Opening, content: array<Byte>) returns (r: Option<ManagedDocument>)
      ensures r.Some? <==> CanOpen(rules, o, content.Length)
      ensures r.Some? ==> fresh(r.value) && r.value.content == content && r.value.viewId == o.viewId
      ensures r.Some? ==> r.value.View() == Opened(o, content[..]) && r.value.View().Dirty() == o.recovered
      ensures r.Some? ==>
        var d := r.value;
        && d.logicalPath == o.path && d.handle == o.handle && d.umbraMap == o.umbraMap && d.etag == o.etag
        && d.draftBaseEtag == (if o.recovered then o.recoveryBaseEtag else Some(o.etag))
        && d.requiresOverwriteConfirmation == o.staleRecovery && !d.readOnly && !d.closed
    {
      if o.viewId <= 0 || !rules.pathOk(o.path) || !rules.handleFits(o.handle) {
        return None;
      }
      if (o.umbraMap == NoMap && o.handle == "") || (o.umbraMap != NoMap && o.handle != "") {
        return None;
      }
      if !ValidEtag(o.etag) || content.Length > MAX_DOCUMENT_BYTES {
        return None;
      }
      if o.recoveryBaseEtag.Some? && !ValidEtag(o.recoveryBaseEtag.value) {
        return None;
      }
      var document := new ManagedDocument(rules, o, content);
      return Some(document);
    }

    constructor (rules: OpenRules, o: Opening, content: array<Byte>)
      requires CanOpen(rules, o, content.Length)
      ensures viewId == o.viewId && pathOk == rules.pathOk && this.content == content
      ensures View() == Opened(o, content[..])
    {
      viewId, pathOk, logicalPath, handle, etag := o.viewId, rules.pathOk, o.path, o.handle, o.etag;
      umbraMap, this.content := o.umbraMap, content;
      draftBaseEtag := if o.recovered then o.recoveryBaseEtag else Some(o.etag);
      version, savedVersion := if o.recovered then 1 else 0, 0;
      draftVersion := if o.recovered then 1 else -1;
      requiresOverwriteConfirmation, readOnly, closed := o.staleRecovery, false, false;
      debounceGeneration, draftEpoch := 0, 0;
    }

    /** The new buffer takes the place of the old one, which is wiped. */
    method AdoptBuffer(buffer: array<Byte>)
      requires buffer != content
      modifies this`content, content
      ensures content == buffer && buffer[..] == old(buffer[..]) && IsZero(old(content)[..])
    {
      var previous := content;
      content := buffer;
      Wipe(previous);
    }

    /** Takes over `buffer` and wipes the old one, or refuses and wipes `buffer`. */
    method Replace(buffer: array<Byte>) returns (ok: bool)
      requires buffer != content
      modifies this, content, buffer
      ensures View() == Replaced(old(View()), old(buffer[..]))
      ensures ok <==> CanReplace(old(View()), old(buffer[..]))
      ensures content == if ok then buffer else old(content)
      ensures ok ==> IsZero(old(content)[..])
      ensures !ok ==> IsZero(buffer[..])
    {
      if closed || readOnly {
        Wipe(buffer);
        return false;
      }
      if buffer.Length > MAX_DOCUMENT_BYTES {
        Wipe(buffer);
        readOnly := true;
        return false;
      }
      AdoptBuffer(buffer);
      version, debounceGeneration := version + 1, debounceGeneration + 1;
      return true;
    }

    /** The version and a private copy of the content. */
    method Snapshot() returns (r: Option<(nat, array<Byte>)>)
      ensures r.Some? <==> !closed
      ensures r.Some? ==> r.value.0 == version && fresh(r.value.1) && r.value.1[..] == content[..]
    {
      if closed {
        return None;
      }
      var copy := new Byte[content.Length](i requires 0 <= i < content.Length reads this, content => content[i]);
      return Some((version, copy));
    }

    method MarkSaved(version: nat, etag: string)
      modifies this
      ensures View() == MarkedSaved(old(View()), version, etag) && content == old(content)
    {
      if !ValidEtag(etag) {
        return;
      }
      this.etag, draftBaseEtag := etag, Some(etag);
      if version == this.version {
        savedVersion, requiresOverwriteConfirmation := version, false;
      }
    }

    method MarkDrafted(version: nat)
      modifies this
      ensures View() == MarkedDrafted(old(View()), version) && content == old(content)
    {
      if version <= this.version {
        draftVersion := if draftVersion < version then version else draftVersion;
      }
    }

    method ReplaceUmbraProjection(buffer: array<Byte>, etag: string, renderMap: MapState) returns (ok: bool)
      requires buffer != content
      modifies this, content, buffer
      ensures ok <==> CanReplaceProjection(old(View()), old(buffer[..]), etag, renderMap)
      ensures View() == ReplacedProjection(old(View()), old(buffer[..]), etag, renderMap)
      ensures content == if ok then buffer else old(content)
      ensures ok ==> IsZero(old(content)[..])
      ensures !ok ==> IsZero(buffer[..])
    {
      ok := umbraMap != NoMap && !closed && !readOnly
        && buffer.Length <= MAX_DOCUMENT_BYTES && ValidEtag(etag) && renderMap.RenderMap?;
      assert ok == CanReplaceProjection(View(), buffer[..], etag, renderMap);
      if !ok {
        Wipe(buffer);
        return;
      }
      AdoptProjection(buffer, etag, renderMap);
    }

    method AdoptProjection(buffer: array<Byte>, etag: string, renderMap: MapState)
      requires buffer != content
      modifies this, content
      ensures View() == old(View()).(
        content := buffer[..], etag := etag, draftBaseEtag := Some(etag), umbraMap := renderMap,
        version := old(version) + 1, savedVersion := old(version) + 1, draftVersion := old(version) + 1,
        confirmOverwrite := false)
      ensures content == buffer && IsZero(old(content)[..])
    {
      AdoptBuffer(buffer);
      this.etag, draftBaseEtag, umbraMap := etag, Some(etag), renderMap;
      version := version + 1;
      savedVersion, draftVersion := version, version;
      requiresOverwriteConfirmation := false;
    }

    /** Marks the document pending, tries the projection, and puts handle and map back when it is refused. */
    method TransitionToUmbra(buffer: array<Byte>, etag: string, renderMap: MapState) returns (r: Option<string>)
      requires buffer != content
      modifies this, content, buffer
      ensures r == if CanEnterUmbra(old(View()), old(buffer[..]), etag, renderMap) then Some(old(handle)) else None
      ensures View() == EnteredUmbra(old(View()), old(buffer[..]), etag, renderMap)
      ensures content == if r.Some? then buffer else old(content)
      ensures r.Some? ==> IsZero(old(content)[..])
      ensures r.None? ==> IsZero(buffer[..])
    {
      if umbraMap != NoMap || closed || readOnly || version != savedVersion {
        Wipe(buffer);
        return None;
      }
      var oldHandle := handle;
      if oldHandle == "" {
        Wipe(buffer);
        return None;
      }
      handle, umbraMap := "", PendingMap;
      var ok := ReplaceUmbraProjection(buffer, etag, renderMap);
      if !ok {
        handle, umbraMap := oldHandle, NoMap;
        return None;
      }
      return Some(oldHandle);
    }

    method InvalidateDrafts() returns (r: Option<nat>)
      modifies this
      ensures r.None? <==> old(closed)
      ensures View() == if old(closed) then old(View()) else old(View()).(
        debounceGeneration := old(debounceGeneration) + 1, draftEpoch := old(draftEpoch) + 1)
      ensures r.Some? ==> r.value == draftEpoch
      ensures content == old(content)
    {
      if closed {
        return None;
      }
      debounceGeneration, draftEpoch := debounceGeneration + 1, draftEpoch + 1;
      return Some(draftEpoch);
    }

    method RenameClean(path: string, etag: string) returns (r: Option<string>)
      modifies this
      ensures r == if CanRename(old(View()), path, etag, pathOk) then Some(old(logicalPath)) else None
      ensures View() == Renamed(old(View()), path, etag, pathOk) && content == old(content)
    {
      if closed || version != savedVersion {
        return None;
      }
      if !pathOk(path) || !ValidEtag(etag) {
        return None;
      }
      var source := logicalPath;
      logicalPath, this.etag, draftBaseEtag := path, etag, Some(etag);
      draftEpoch, requiresOverwriteConfirmation := draftEpoch + 1, false;
      return Some(source);
    }

    method Lock()
      modifies this
      ensures View() == old(View()).(readOnly := true) && content == old(content)
    {
      readOnly := true;
    }

    /** Wipes the buffer and lets go of it; closing twice does nothing. */
    method Close()
      modifies this, if closed then {} else {content}
      ensures View() == DocumentModel.Closed(old(View()))
      ensures !old(closed) ==> IsZero(old(content)[..]) && fresh(content) && content.Length == 0
      ensures old(closed) ==> content == old(content)
    {
      if closed {
        return;
      }
      closed, readOnly := true, true;
      draftEpoch := draftEpoch + 1;
      Wipe(content);
      content := new Byte[0];
      handle, umbraMap := "", NoMap;
    }
  }
}
