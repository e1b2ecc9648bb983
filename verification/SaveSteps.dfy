/** The editor callbacks around one document, over its real buffers, proved against the protocol's steps. */
module SaveSteps {
  import opened Bytes
  import opened DocumentModel
  import opened ManagedDocuments
  import opened SaveProtocol

  /** Reads the view's text into the document and takes a private snapshot; refused text is wiped. */
  method CaptureView(document: ManagedDocument, viewText: array<Byte>) returns (r: Option<(nat, array<Byte>)>)
    requires viewText != document.content
    modifies document, document.content, viewText
    ensures document.View() == Captured(old(document.View()), old(viewText[..]))
    ensures r.Some? <==> CaptureWorks(old(document.View()), old(viewText[..]))
    ensures r.Some? ==> fresh(r.value.1) && r.value == (document.version, r.value.1)
    ensures r.Some? ==> r.value.1[..] == document.content[..] == old(viewText[..])
  {
    if viewText[..] != document.content[..] {
      var ok := document.Replace(viewText);
      if !ok {
        return None;
      }
    } else {
      Wipe(viewText);
    }
    r := document.Snapshot();
  }

  /** The modification hook: refused text also locks the document. */
  method OnModified(document: ManagedDocument, viewText: array<Byte>)
    requires viewText != document.content
    modifies document, document.content, viewText
    ensures document.View() == Edited(old(document.View()), old(viewText[..]))
  {
    var ok := document.Replace(viewText);
    if !ok {
      document.Lock();
    }
  }

  /** The completion of a save that is still current. */
  method OnSaved(document: ManagedDocument, version: nat, newEtag: string, ghost flight: Flight)
    requires flight.request.SaveOf? && flight.request.version == version && flight.phase == Stored(newEtag)
    modifies document
    ensures document.View() == Completed(old(document.View()), flight)
  {
    document.MarkSaved(version, newEtag);
    document.MarkDrafted(version);
  }

  /** The completion of a rename, with the checks made just before it is applied. */
  method OnRenamed(
    document: ManagedDocument, source: string, destination: string, sourceEtag: string, newEtag: string,
    ghost flight: Flight)
    requires flight.request == RenameTo(source, destination) && flight.baseEtag == sourceEtag
    requires flight.phase == Stored(newEtag) && document.pathOk(destination)
    modifies document
    ensures document.View() == Completed(old(document.View()), flight)
  {
    if document.logicalPath != source || document.etag != sourceEtag || document.version != document.savedVersion {
      return;
    }
    var renamed := document.RenameClean(destination, newEtag);
  }
}
