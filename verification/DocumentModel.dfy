/** The state of one managed document as a value, and what each operation makes of it. */
module DocumentModel {
  import opened Bytes

  const MAX_DOCUMENT_BYTES: nat := 16 * 1024 * 1024

  datatype Option<T> = None | Some(value: T)

  /** The render map of an Umbra document; a transition marks it as pending before the real one is in. */
  datatype MapState = NoMap | PendingMap | RenderMap(generation: string)

  datatype Doc = Doc(
    path: string, handle: string, umbraMap: MapState, etag: string, draftBaseEtag: Option<string>,
    content: Bytes, version: nat, savedVersion: nat, draftVersion: int, confirmOverwrite: bool,
    readOnly: bool, closed: bool, debounceGeneration: nat, draftEpoch: nat)
  {
    predicate Dirty() { version != savedVersion }

    predicate IsUmbra() { umbraMap != NoMap }
  }

  /** sha256: and 64 lower-case hexadecimal digits. */
  predicate ValidEtag(s: string) {
    && |s| == 71 && s[..7] == "sha256:"
    && forall i :: 7 <= i < 71 ==> '0' <= s[i] <= '9' || 'a' <= s[i] <= 'f'
  }

  predicate Writable(d: Doc) { !d.closed && !d.readOnly }

  predicate CanReplace(d: Doc, text: Bytes) { Writable(d) && |text| <= MAX_DOCUMENT_BYTES }

  /** A new buffer: accepted, refused, or refused with the document turned read-only. */
  function Replaced(d: Doc, text: Bytes): Doc {
    if !Writable(d) then d
    else if |text| > MAX_DOCUMENT_BYTES then d.(readOnly := true)
    else d.(content := text, version := d.version + 1, debounceGeneration := d.debounceGeneration + 1)
  }

  function MarkedSaved(d: Doc, version: nat, etag: string): Doc {
    if !ValidEtag(etag) then d
    else
      var saved := d.(etag := etag, draftBaseEtag := Some(etag));
      if version == d.version then saved.(savedVersion := version, confirmOverwrite := false) else saved
  }

  function MarkedDrafted(d: Doc, version: nat): Doc {
    if version <= d.version then d.(draftVersion := if d.draftVersion < version then version else d.draftVersion)
    else d
  }

  predicate CanReplaceProjection(d: Doc, text: Bytes, etag: string, renderMap: MapState) {
    d.IsUmbra() && Writable(d) && |text| <= MAX_DOCUMENT_BYTES && ValidEtag(etag) && renderMap.RenderMap?
  }

  function ReplacedProjection(d: Doc, text: Bytes, etag: string, renderMap: MapState): Doc {
    if !CanReplaceProjection(d, text, etag, renderMap) then d
    else
      d.(content := text, etag := etag, draftBaseEtag := Some(etag), umbraMap := renderMap,
         version := d.version + 1, savedVersion := d.version + 1, draftVersion := d.version + 1,
         confirmOverwrite := false)
  }

  predicate CanEnterUmbra(d: Doc, text: Bytes, etag: string, renderMap: MapState) {
    && !d.IsUmbra() && Writable(d) && !d.Dirty() && d.handle != ""
    && |text| <= MAX_DOCUMENT_BYTES && ValidEtag(etag) && renderMap.RenderMap?
  }

  /** All or nothing: a refused transition leaves every field as it was. */
  function EnteredUmbra(d: Doc, text: Bytes, etag: string, renderMap: MapState): Doc {
    if !CanEnterUmbra(d, text, etag, renderMap) then d
    else ReplacedProjection(d.(handle := "", umbraMap := PendingMap), text, etag, renderMap)
  }

  predicate CanRename(d: Doc, path: string, etag: string, pathOk: string -> bool) {
    !d.closed && !d.Dirty() && pathOk(path) && ValidEtag(etag)
  }

  function Renamed(d: Doc, path: string, etag: string, pathOk: string -> bool): Doc {
    if !CanRename(d, path, etag, pathOk) then d
    else
      d.(path := path, etag := etag, draftBaseEtag := Some(etag), draftEpoch := d.draftEpoch + 1,
         confirmOverwrite := false)
  }

  function Closed(d: Doc): Doc {
    if d.closed then d
    else
      d.(closed := true, readOnly := true, draftEpoch := d.draftEpoch + 1, content := [], handle := "",
         umbraMap := NoMap)
  }

  // ---- What every operation keeps ----------------------------------------------------------------

  /**
   * A valid etag, text within 16 MiB, nothing saved or drafted ahead of the version, and, until it closes,
   * either a handle or a render map.
   */
  predicate Sound(d: Doc) {
    && ValidEtag(d.etag) && (d.draftBaseEtag.Some? ==> ValidEtag(d.draftBaseEtag.value))
    && |d.content| <= 16 * 1024 * 1024 && d.savedVersion <= d.version && d.draftVersion <= d.version
    && (!d.closed ==> (d.umbraMap == NoMap <==> d.handle != ""))
  }

  lemma OperationsKeep(
    d: Doc, text: Bytes, version: nat, etag: string, renderMap: MapState, path: string, pathOk: string -> bool)
    requires Sound(d)
    ensures Sound(Replaced(d, text)) && Sound(MarkedSaved(d, version, etag)) && Sound(MarkedDrafted(d, version))
    ensures Sound(ReplacedProjection(d, text, etag, renderMap)) && Sound(EnteredUmbra(d, text, etag, renderMap))
    ensures Sound(Renamed(d, path, etag, pathOk)) && Sound(Closed(d))
  {
  }

  // ---- What the operations come to ---------------------------------------------------------------

  /** An Umbra document takes a projection as saved, under its etag and map, or stays as it is. */
  lemma ProjectionIsSaved(d: Doc, text: Bytes, etag: string, renderMap: MapState)
    ensures var e := ReplacedProjection(d, text, etag, renderMap);
      if d.umbraMap != NoMap && !d.closed && !d.readOnly && |text| <= MAX_DOCUMENT_BYTES && ValidEtag(etag)
        && renderMap.RenderMap?
      then
        && e.content == text && e.etag == etag && e.draftBaseEtag == Some(etag) && e.umbraMap == renderMap
        && e.version > d.version && !e.Dirty() && !e.confirmOverwrite && e.handle == d.handle && e.path == d.path
      else e == d
  {
  }

  /** A clean normal document becomes an Umbra one, its handle given up; otherwise nothing changes. */
  lemma UmbraEntry(d: Doc, text: Bytes, etag: string, renderMap: MapState)
    ensures var e := EnteredUmbra(d, text, etag, renderMap);
      if d.umbraMap == NoMap && !d.closed && !d.readOnly && d.version == d.savedVersion && d.handle != ""
        && |text| <= MAX_DOCUMENT_BYTES && ValidEtag(etag) && renderMap.RenderMap?
      then
        && e.handle == "" && e.umbraMap == renderMap && e.content == text && e.etag == etag
        && e.version > d.version && !e.Dirty() && !e.confirmOverwrite && e.path == d.path
      else e == d
  {
    ProjectionIsSaved(d.(handle := "", umbraMap := PendingMap), text, etag, renderMap);
  }

  /** A clean open document is renamed, under its new etag, and its drafts are out of date; no other changes. */
  lemma RenameMoves(d: Doc, path: string, etag: string, pathOk: string -> bool)
    ensures var e := Renamed(d, path, etag, pathOk);
      if !d.closed && d.version == d.savedVersion && pathOk(path) && ValidEtag(etag)
      then
        && e.path == path && e.etag == etag && e.draftBaseEtag == Some(etag) && e.draftEpoch > d.draftEpoch
        && e.content == d.content && !e.Dirty() && !e.confirmOverwrite && e.handle == d.handle
      else e == d
  {
  }

  /** Closing leaves no text, handle or map behind, and what is closed takes no text, map or name again. */
  lemma ClosedIsFinal(d: Doc, text: Bytes, path: string, etag: string, renderMap: MapState, pathOk: string -> bool)
    ensures Closed(d).closed && Closed(Closed(d)) == Closed(d)
    ensures !d.closed ==>
      && Closed(d).content == [] && Closed(d).handle == "" && Closed(d).umbraMap == NoMap && Closed(d).readOnly
      && Closed(d).draftEpoch > d.draftEpoch
    ensures Replaced(Closed(d), text) == Closed(d) && ReplacedProjection(Closed(d), text, etag, renderMap) == Closed(d)
    ensures EnteredUmbra(Closed(d), text, etag, renderMap) == Closed(d)
    ensures Renamed(Closed(d), path, etag, pathOk) == Closed(d)
  {
  }
}
