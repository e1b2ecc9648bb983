/** The Umbra render map: validation of what the daemon sends, and the normal form that comes out. */
module UmbraMap {
  import Base64

  const MAX_DOCUMENT_BYTES: int := 16 * 1024 * 1024

  const MAX_UMBRA_MAP_ENTRIES: int := 100000

  datatype Option<T> = None | Some(value: T)

  // ---- Values as they arrive -------------------------------------------------------------------

  /** One JSON member; Python counts booleans as integers, and the validator has to exclude them. */
  datatype Field = IntField(n: int) | BoolField(b: bool) | FloatField(x: real) | TextField(text: string) | OtherField

  datatype Listing<T> = Items(items: seq<T>) | NotAList

  datatype RawSlot = RawSlot(slotId: Field, startByte: Field, endByte: Field) | BadSlot

  datatype RawSegment =
    | RawSegment(projectionStart: Field, projectionEnd: Field, outerStart: Field, outerEnd: Field)
    | BadSegment

  datatype RawMap =
    | RawMap(
        generation: Field, projectionBytes: Field, privateSlots: Listing<RawSlot>, outerSegments: Listing<RawSegment>)
    | BadMap

  /** Python's `==` between a JSON value and an integer. */
  predicate PyEqualsInt(f: Field, n: int) {
    match f
    case IntField(m) => m == n
    case BoolField(b) => (if b then 1 else 0) == n
    case FloatField(x) => x == n as real
    case _ => false
  }

  /** A boolean counts as 0 or 1 and a float by its value, as Python compares them; nothing else is a length. */
  lemma LengthSpellings(n: int, b: bool, x: real, text: string)
    ensures PyEqualsInt(IntField(n), n) && !PyEqualsInt(TextField(text), n)
    ensures PyEqualsInt(BoolField(true), n) <==> n == 1
    ensures PyEqualsInt(BoolField(false), n) <==> n == 0
    ensures PyEqualsInt(FloatField(x), n) <==> x == n as real
  {
  }

  // ---- The normal form -------------------------------------------------------------------------

  datatype Slot = Slot(slotId: string, startByte: nat, endByte: nat)

  datatype Segment = Segment(projectionStart: nat, projectionEnd: nat, outerStart: nat, outerEnd: nat)

  datatype RenderMap = RenderMap(generation: string, projectionBytes: nat, slots: seq<Slot>, segments: seq<Segment>)

  /** `utf8Length` is None for text that UTF-8 cannot encode. */
  predicate BoundedText(f: Field, maximum: nat, utf8Length: string -> Option<nat>) {
    f.TextField? && f.text != "" && utf8Length(f.text).Some? && utf8Length(f.text).value <= maximum
  }

  /** A non-empty byte range inside the first `maximum` bytes. */
  predicate IsRange(start: Field, end: Field, maximum: int) {
    start.IntField? && end.IntField? && 0 <= start.n < end.n <= maximum
  }

  predicate SlotReadable(raw: RawSlot, maximum: int, utf8Length: string -> Option<nat>) {
    raw.RawSlot? && BoundedText(raw.slotId, 64, utf8Length) && IsRange(raw.startByte, raw.endByte, maximum)
  }

  function ReadSlot(raw: RawSlot): Slot
    requires raw.RawSlot? && raw.slotId.TextField? && raw.startByte.IntField? && raw.endByte.IntField?
    requires raw.startByte.n >= 0 && raw.endByte.n >= 0
  {
    Slot(raw.slotId.text, raw.startByte.n, raw.endByte.n)
  }

  predicate SegmentReadable(raw: RawSegment, maximum: int) {
    && raw.RawSegment? && IsRange(raw.projectionStart, raw.projectionEnd, maximum)
    && raw.outerStart.IntField? && raw.outerEnd.IntField? && 0 <= raw.outerStart.n <= raw.outerEnd.n
  }

  function ReadSegment(raw: RawSegment): Segment
    requires exists maximum :: SegmentReadable(raw, maximum)
  {
    Segment(raw.projectionStart.n, raw.projectionEnd.n, raw.outerStart.n, raw.outerEnd.n)
  }

  /** Slots lie one after the other, any two of them, and no id is used twice. */
  ghost predicate SlotsDisjoint(slots: seq<Slot>) {
    forall i, j :: 0 <= i < j < |slots| ==>
      slots[i].endByte <= slots[j].startByte && slots[i].slotId != slots[j].slotId
  }

  /** Segments advance in both coordinates at once. */
  ghost predicate SegmentsMonotone(segments: seq<Segment>) {
    forall i, j :: 0 <= i < j < |segments| ==>
      segments[i].projectionEnd <= segments[j].projectionStart && segments[i].outerEnd <= segments[j].outerStart
  }

  predicate SlotInside(s: Slot, maximum: int, utf8Length: string -> Option<nat>) {
    && s.startByte < s.endByte <= maximum
    && BoundedText(TextField(s.slotId), 64, utf8Length)
  }

  predicate SegmentInside(s: Segment, maximum: int) {
    s.projectionStart < s.projectionEnd <= maximum && s.outerStart <= s.outerEnd
  }

  predicate Generation(text: string) {
    var decoded := Base64.DecodeBase64url(text, 32);
    decoded.Accepted? && |decoded.value| == 32
  }

  /** The generations are exactly the encodings of 32 bytes. */
  lemma GenerationsAreEncodings(text: string)
    ensures Generation(text) <==> exists b :: |b| == 32 && text == Base64.UrlText(b)
  {
    if Generation(text) {
      var b := Base64.DecodeBase64url(text, 32).value;
      Base64.EncodeAfterDecode(text, 32);
      assert |b| == 32 && text == Base64.UrlText(b);
    }
    if b :| |b| == 32 && text == Base64.UrlText(b) {
      Base64.DecodeAfterEncode(b, 32);
    }
  }

  /** What an accepted map guarantees. */
  ghost predicate WellFormedMap(m: RenderMap, utf8Length: string -> Option<nat>) {
    && m.projectionBytes <= MAX_DOCUMENT_BYTES && Generation(m.generation)
    && |m.slots| <= MAX_UMBRA_MAP_ENTRIES && |m.segments| <= MAX_UMBRA_MAP_ENTRIES
    && (forall i :: 0 <= i < |m.slots| ==> SlotInside(m.slots[i], m.projectionBytes, utf8Length))
    && SlotsDisjoint(m.slots)
    && (forall i :: 0 <= i < |m.segments| ==> SegmentInside(m.segments[i], m.projectionBytes))
    && SegmentsMonotone(m.segments)
  }

  function RawOfSlot(s: Slot): RawSlot {
    RawSlot(TextField(s.slotId), IntField(s.startByte), IntField(s.endByte))
  }

  function RawOfSegment(s: Segment): RawSegment {
    RawSegment(
      IntField(s.projectionStart), IntField(s.projectionEnd), IntField(s.outerStart), IntField(s.outerEnd))
  }

  /** `raw` denotes `m`: the only freedom left is how the projection length is spelled. */
  ghost predicate Denotes(raw: RawMap, m: RenderMap) {
    && raw.RawMap? && raw.generation == TextField(m.generation) && PyEqualsInt(raw.projectionBytes, m.projectionBytes)
    && raw.privateSlots.Items? && |raw.privateSlots.items| == |m.slots|
    && (forall i :: 0 <= i < |m.slots| ==> raw.privateSlots.items[i] == RawOfSlot(m.slots[i]))
    && raw.outerSegments.Items? && |raw.outerSegments.items| == |m.segments|
    && (forall i :: 0 <= i < |m.segments| ==> raw.outerSegments.items[i] == RawOfSegment(m.segments[i]))
  }

  // ---- The validator ---------------------------------------------------------------------------

  method ParseSlots(items: seq<RawSlot>, maximum: int, utf8Length: string -> Option<nat>)
    returns (r: Option<seq<Slot>>)
    ensures r.Some? ==> SlotsSpelled(items, r.value, maximum, utf8Length) && SlotsDisjoint(r.value)
    ensures r.None? ==> !SlotsAcceptable(items, maximum, utf8Length)
  {
    var slots: seq<Slot> := [];
    var seen: set<string> := {};
    var previousEnd := 0;
    for i := 0 to |items|
      invariant SlotsSpelled(items[..i], slots, maximum, utf8Length) && SlotsDisjoint(slots)
      invariant Tracked(slots, seen, previousEnd)
    {
      var raw := items[i];
      if !SlotReadable(raw, maximum, utf8Length) {
        UnreadableSlot(items, maximum, utf8Length, i);
        return None;
      }
      var slot := ReadSlot(raw);
      if slot.slotId in seen || slot.startByte < previousEnd {
        ghost var k := ClashingSlot(slots, seen, previousEnd, slot);
        SlotRejected(items, maximum, utf8Length, slots, i, k);
        return None;
      }
      TrackedSnoc(slots, seen, previousEnd, slot);
      SpelledSnoc(items, slots, maximum, utf8Length, i);
      seen, previousEnd := seen + {slot.slotId}, slot.endByte;
      slots := slots + [slot];
    }
    assert items[..|items|] == items;
    return Some(slots);
  }

  /** The loop's memory of the slots so far: their ids and where the last one ends. */
  ghost predicate Tracked(slots: seq<Slot>, seen: set<string>, previousEnd: nat) {
    && (forall k :: 0 <= k < |slots| ==> slots[k].slotId in seen)
    && (forall id :: id in seen ==> exists k :: 0 <= k < |slots| && slots[k].slotId == id)
    && (forall k :: 0 <= k < |slots| ==> slots[k].endByte <= previousEnd)
    && previousEnd == if slots == [] then 0 else slots[|slots| - 1].endByte
  }

  lemma TrackedSnoc(slots: seq<Slot>, seen: set<string>, previousEnd: nat, slot: Slot)
    requires Tracked(slots, seen, previousEnd) && slot.startByte < slot.endByte
    requires slot.slotId !in seen && previousEnd <= slot.startByte
    requires SlotsDisjoint(slots)
    ensures Tracked(slots + [slot], seen + {slot.slotId}, slot.endByte) && SlotsDisjoint(slots + [slot])
  {
    var all := slots + [slot];
    forall id | id in seen + {slot.slotId}
      ensures exists k :: 0 <= k < |all| && all[k].slotId == id
    {
      if id in seen {
        var k :| 0 <= k < |slots| && slots[k].slotId == id;
        assert all[k].slotId == id;
      } else {
        assert all[|slots|].slotId == id;
      }
    }
  }

  lemma ClashingSlot(slots: seq<Slot>, seen: set<string>, previousEnd: nat, slot: Slot) returns (k: nat)
    requires Tracked(slots, seen, previousEnd)
    requires slot.slotId in seen || slot.startByte < previousEnd
    ensures k < |slots| && Clashes(slots[k], slot)
  {
    if slot.slotId in seen {
      k :| 0 <= k < |slots| && slots[k].slotId == slot.slotId;
    } else {
      k := |slots| - 1;
    }
  }

  /** Each item spells the slot at its place. */
  ghost predicate SlotsSpelled(
    items: seq<RawSlot>, slots: seq<Slot>, maximum: int, utf8Length: string -> Option<nat>)
  {
    && |slots| == |items|
    && forall i :: 0 <= i < |items| ==> items[i] == RawOfSlot(slots[i]) && SlotInside(slots[i], maximum, utf8Length)
  }

  /** Some disjoint, readable slot list is spelled by these items. */
  ghost predicate SlotsAcceptable(items: seq<RawSlot>, maximum: int, utf8Length: string -> Option<nat>) {
    && (forall i :: 0 <= i < |items| ==> SlotReadable(items[i], maximum, utf8Length))
    && forall i, j :: 0 <= i < j < |items| ==>
      items[i].endByte.n <= items[j].startByte.n && items[i].slotId.text != items[j].slotId.text
  }

  lemma UnreadableSlot(items: seq<RawSlot>, maximum: int, utf8Length: string -> Option<nat>, i: nat)
    requires i < |items| && !SlotReadable(items[i], maximum, utf8Length)
    ensures !SlotsAcceptable(items, maximum, utf8Length)
  {
  }

  lemma SpelledSnoc(
    items: seq<RawSlot>, slots: seq<Slot>, maximum: int, utf8Length: string -> Option<nat>, i: nat)
    requires i < |items| && SlotReadable(items[i], maximum, utf8Length)
    requires SlotsSpelled(items[..i], slots, maximum, utf8Length)
    ensures SlotsSpelled(items[..i + 1], slots + [ReadSlot(items[i])], maximum, utf8Length)
  {
  }

  lemma SlotRejected(
    items: seq<RawSlot>, maximum: int, utf8Length: string -> Option<nat>, slots: seq<Slot>, i: nat, k: nat)
    requires i < |items| && SlotReadable(items[i], maximum, utf8Length)
    requires SlotsSpelled(items[..i], slots, maximum, utf8Length)
    requires k < i && Clashes(slots[k], ReadSlot(items[i]))
    ensures !SlotsAcceptable(items, maximum, utf8Length)
  {
    assert items[k] == items[..i][k] == RawOfSlot(slots[k]);
  }

  predicate Clashes(earlier: Slot, later: Slot) {
    earlier.slotId == later.slotId || later.startByte < earlier.endByte
  }

  method ParseSegments(items: seq<RawSegment>, maximum: int) returns (r: Option<seq<Segment>>)
    ensures r.Some? ==> SegmentsSpelled(items, r.value, maximum) && SegmentsMonotone(r.value)
    ensures r.None? ==> !SegmentsAcceptable(items, maximum)
  {
    var segments: seq<Segment> := [];
    var previousProjectionEnd, previousOuterEnd := 0, 0;
    for i := 0 to |items|
      invariant SegmentsSpelled(items[..i], segments, maximum) && SegmentsMonotone(segments)
      invariant forall k :: 0 <= k < i ==>
        segments[k].projectionEnd <= previousProjectionEnd && segments[k].outerEnd <= previousOuterEnd
      invariant previousProjectionEnd == if i == 0 then 0 else segments[i - 1].projectionEnd
      invariant previousOuterEnd == if i == 0 then 0 else segments[i - 1].outerEnd
    {
      var raw := items[i];
      if !SegmentReadable(raw, maximum) {
        return None;
      }
      var segment := ReadSegment(raw);
      if segment.projectionStart < previousProjectionEnd || segment.outerStart < previousOuterEnd {
        assert items[i - 1] == items[..i][i - 1] == RawOfSegment(segments[i - 1]);
        return None;
      }
      previousProjectionEnd, previousOuterEnd := segment.projectionEnd, segment.outerEnd;
      segments := segments + [segment];
    }
    assert items[..|items|] == items;
    return Some(segments);
  }

  ghost predicate SegmentsSpelled(items: seq<RawSegment>, segments: seq<Segment>, maximum: int) {
    && |segments| == |items|
    && forall i :: 0 <= i < |items| ==> items[i] == RawOfSegment(segments[i]) && SegmentInside(segments[i], maximum)
  }

  ghost predicate SegmentsAcceptable(items: seq<RawSegment>, maximum: int) {
    && (forall i :: 0 <= i < |items| ==> SegmentReadable(items[i], maximum))
    && forall i, j :: 0 <= i < j < |items| ==>
      && items[i].projectionEnd.n <= items[j].projectionStart.n
      && items[i].outerEnd.n <= items[j].outerStart.n
  }

  /** No well-formed map of this projection is spelled by `raw`. */
  ghost predicate SpellsNothing(raw: RawMap, projectionBytes: int, utf8Length: string -> Option<nat>) {
    forall m: RenderMap :: m.projectionBytes == projectionBytes && WellFormedMap(m, utf8Length) ==> !Denotes(raw, m)
  }

  /** Accepts exactly the raw maps that denote a well-formed map of this projection, and returns that map. */
  method ParseUmbraRenderMap(raw: RawMap, projectionBytes: int, utf8Length: string -> Option<nat>)
    returns (r: Option<RenderMap>)
    ensures r.Some? ==> r.value.projectionBytes == projectionBytes
    ensures r.Some? ==> WellFormedMap(r.value, utf8Length) && Denotes(raw, r.value)
    ensures r.None? ==> SpellsNothing(raw, projectionBytes, utf8Length)
  {
    if projectionBytes < 0 || projectionBytes > MAX_DOCUMENT_BYTES {
      return None;
    }
    if raw.BadMap? || !PyEqualsInt(raw.projectionBytes, projectionBytes) {
      return None;
    }
    if !raw.generation.TextField? || !Generation(raw.generation.text) {
      return None;
    }
    if raw.privateSlots.NotAList? || raw.outerSegments.NotAList?
      || |raw.privateSlots.items| > MAX_UMBRA_MAP_ENTRIES || |raw.outerSegments.items| > MAX_UMBRA_MAP_ENTRIES
    {
      return None;
    }
    var slots := ParseSlots(raw.privateSlots.items, projectionBytes, utf8Length);
    if slots.None? {
      forall m: RenderMap | m.projectionBytes == projectionBytes && WellFormedMap(m, utf8Length)
        ensures !Denotes(raw, m)
      {
        SlotsOfMap(raw, m, utf8Length);
      }
      return None;
    }
    var segments := ParseSegments(raw.outerSegments.items, projectionBytes);
    if segments.None? {
      forall m: RenderMap | m.projectionBytes == projectionBytes && WellFormedMap(m, utf8Length)
        ensures !Denotes(raw, m)
      {
        SegmentsOfMap(raw, m, utf8Length);
      }
      return None;
    }
    return Some(RenderMap(raw.generation.text, projectionBytes, slots.value, segments.value));
  }

  lemma SlotsOfMap(raw: RawMap, m: RenderMap, utf8Length: string -> Option<nat>)
    requires WellFormedMap(m, utf8Length)
    ensures Denotes(raw, m) ==> SlotsAcceptable(raw.privateSlots.items, m.projectionBytes, utf8Length)
  {
  }

  lemma SegmentsOfMap(raw: RawMap, m: RenderMap, utf8Length: string -> Option<nat>)
    requires WellFormedMap(m, utf8Length)
    ensures Denotes(raw, m) ==> SegmentsAcceptable(raw.outerSegments.items, m.projectionBytes)
  {
  }

  predicate Covers(s: Segment, position: nat) {
    s.projectionStart <= position < s.projectionEnd
  }

  /** Segments map positions in order: each position has one segment, and later ones lie further out. */
  lemma SegmentsInOrder(
    m: RenderMap, utf8Length: string -> Option<nat>, i: nat, j: nat, p: nat, q: nat)
    requires WellFormedMap(m, utf8Length) && i < |m.segments| && j < |m.segments|
    requires Covers(m.segments[i], p) && Covers(m.segments[j], q) && p <= q
    ensures q < m.projectionBytes && (p == q ==> i == j)
    ensures i != j ==> m.segments[i].outerStart <= m.segments[i].outerEnd <= m.segments[j].outerStart
  {
    assert SegmentInside(m.segments[i], m.projectionBytes) && SegmentInside(m.segments[j], m.projectionBytes);
  }

  /** The normal form as the client sends it back. */
  function RawOfMap(m: RenderMap): RawMap {
    RawMap(
      TextField(m.generation), IntField(m.projectionBytes),
      Items(seq(|m.slots|, i requires 0 <= i < |m.slots| => RawOfSlot(m.slots[i]))),
      Items(seq(|m.segments|, i requires 0 <= i < |m.segments| => RawOfSegment(m.segments[i]))))
  }

  /** A raw map denotes at most one map, so re-validating a normal form can only return it unchanged. */
  lemma RevalidationIsIdentity(m: RenderMap, n: RenderMap)
    ensures Denotes(RawOfMap(m), m)
    ensures Denotes(RawOfMap(m), n) && n.projectionBytes == m.projectionBytes ==> n == m
  {
    if Denotes(RawOfMap(m), n) && n.projectionBytes == m.projectionBytes {
      forall i | 0 <= i < |m.slots|
        ensures n.slots[i] == m.slots[i]
      {
        assert RawOfSlot(n.slots[i]) == RawOfSlot(m.slots[i]);
      }
      assert n.slots == m.slots;
      forall i | 0 <= i < |m.segments|
        ensures n.segments[i] == m.segments[i]
      {
        assert RawOfSegment(n.segments[i]) == RawOfSegment(m.segments[i]);
      }
      assert n.segments == m.segments;
    }
  }

  /** Validating a normal form again, as the client does before it sends the map back, returns it unchanged. */
  method Revalidate(m: RenderMap, utf8Length: string -> Option<nat>) returns (r: Option<RenderMap>)
    requires WellFormedMap(m, utf8Length)
    ensures r == Some(m)
  {
    RevalidationIsIdentity(m, m);
    r := ParseUmbraRenderMap(RawOfMap(m), m.projectionBytes, utf8Length);
    if r.Some? {
      RevalidationIsIdentity(m, r.value);
    }
  }
}
