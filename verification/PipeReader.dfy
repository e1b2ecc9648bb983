/** The bounded pipe reader of the lifecycle drill: one pass that captures, caps and scans a stream. */
module PipeReader {
  import opened Bytes
  import opened ResidueScan

  datatype Finished = Output(data: Bytes) | OutputCeiling | SensitiveData

  function Prefix(stream: Bytes, limit: nat): Bytes {
    if |stream| <= limit then stream else stream[..limit]
  }

  class BoundedPipeReader {
    const needles: seq<Bytes>
    var data: Bytes
    var overflow: bool
    var sensitive: bool

    constructor (needles: seq<Bytes>)
      ensures this.needles == needles && HasRead([])
    {
      this.needles := needles;
      data, overflow, sensitive := [], false, false;
    }

    /** The fields say everything about the stream that the reader is allowed to keep. */
    ghost predicate HasRead(stream: Bytes)
      reads this
    {
      && data == Prefix(stream, MAX_PROCESS_OUTPUT_BYTES)
      && (overflow <==> |stream| > MAX_PROCESS_OUTPUT_BYTES)
      && (sensitive <==> FoundIn(needles, stream))
    }

    /** The reader thread: `chunks` are its successive non-empty reads up to end of file. */
    method Read(chunks: seq<Bytes>)
      requires HasRead([]) && [] !in chunks
      modifies this
      ensures HasRead(Flatten(chunks))
    {
      var overlapSize := OverlapSize(needles);
      var overlap: Bytes := [];
      for next := 0 to |chunks|
        invariant HasRead(Flatten(chunks[..next]))
        invariant next > 0 && overlapSize < 0 ==> sensitive
        invariant overlapSize >= 0 ==> Window(overlap, Flatten(chunks[..next]), overlapSize)
      {
        var chunk := chunks[next];
        assert chunk in chunks;
        ghost var done := Flatten(chunks[..next]);
        FlattenStep(chunks, next);
        var combined := overlap + chunk;
        ScanStep(needles, overlap, done, chunk);
        if exists k :: 0 <= k < |needles| && Occurs(needles[k], combined) {
          sensitive := true;
        }
        overlap := NextOverlap(combined, overlapSize);
        var remaining := MAX_PROCESS_OUTPUT_BYTES - |data|;
        if remaining > 0 {
          data := data + (if remaining < |chunk| then chunk[..remaining] else chunk);
        }
        if |chunk| > remaining {
          overflow := true;
        }
        PrefixGrows(done, chunk, MAX_PROCESS_OUTPUT_BYTES);
      }
      assert chunks[..|chunks|] == chunks;
    }

    /**
     * The overflow report comes first; otherwise the output is released exactly when no needle occurs
     * anywhere in the stream.
     */
    method Finish(ghost stream: Bytes) returns (r: Finished)
      requires HasRead(stream)
      ensures r.OutputCeiling? <==> |stream| > MAX_PROCESS_OUTPUT_BYTES
      ensures r.SensitiveData? <==> |stream| <= MAX_PROCESS_OUTPUT_BYTES && AnyOccurs(needles, stream)
      ensures r.Output? ==> r.data == stream
    {
      if overflow {
        return OutputCeiling;
      }
      if sensitive || exists k :: 0 <= k < |needles| && Occurs(needles[k], data) {
        return SensitiveData;
      }
      return Output(data);
    }
  }

  lemma PrefixGrows(done: Bytes, chunk: Bytes, limit: nat)
    ensures var remaining := limit - |Prefix(done, limit)|;
      Prefix(done + chunk, limit)
        == Prefix(done, limit) + (if remaining < |chunk| then chunk[..remaining] else chunk)
  {
    if |done| <= limit < |done| + |chunk| {
      assert (done + chunk)[..limit] == done + chunk[..limit - |done|];
    } else if limit < |done| {
      assert (done + chunk)[..limit] == done[..limit] + chunk[..0];
    }
  }

  /** What one pass of the read loop learns, whatever the sign of the overlap. */
  lemma ScanStep(needles: seq<Bytes>, overlap: Bytes, done: Bytes, chunk: Bytes)
    requires chunk != []
    requires OverlapSize(needles) >= 0 ==> Window(overlap, done, OverlapSize(needles))
    ensures OverlapSize(needles) >= 0 ==>
      Window(NextOverlap(overlap + chunk, OverlapSize(needles)), done + chunk, OverlapSize(needles))
    ensures OverlapSize(needles) < 0 ==> AnyOccurs(needles, overlap + chunk)
    ensures FoundIn(needles, done + chunk) <==> FoundIn(needles, done) || AnyOccurs(needles, overlap + chunk)
  {
    if OverlapSize(needles) < 0 {
      NegativeOverlap(needles, overlap + chunk);
      NegativeOverlap(needles, done + chunk);
    } else {
      WindowAdvances(overlap, done, chunk, OverlapSize(needles));
      AnyWindow(needles, overlap, done, chunk);
      if done == [] {
        assert overlap + chunk == done + chunk;
      }
    }
  }

  /**
   * The re-check in `finish` changes nothing, except for an empty stream met by an empty needle, which
   * the reading loop never looks at.
   */
  lemma RecheckIsRedundant(needles: seq<Bytes>, stream: Bytes)
    ensures (FoundIn(needles, stream) || AnyOccurs(needles, stream)) == FoundIn(needles, stream)
      <==> !(stream == [] && [] in needles)
  {
    if stream == [] {
      forall k | 0 <= k < |needles|
        ensures Occurs(needles[k], stream) <==> needles[k] == []
      {
        if needles[k] == [] {
          EmptyNeedleOccurs(stream);
        }
      }
    }
  }
}
