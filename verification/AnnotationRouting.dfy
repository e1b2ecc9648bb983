/** Routing of the comment-like toggle command over an accepted render map. */
module AnnotationRouting {
  import opened UmbraMap

  const MAX_SELECTIONS: nat := 64

  /** A selected byte range of the projection; a caret is an empty one. */
  datatype Selection = Selection(startByte: nat, endByte: nat)

  datatype Route = Remove | Edit | Apply | Refuse(reason: Refusal)

  datatype Refusal = BadSelectionCount | MixedSelections | EmptySelection

  predicate Proper(s: Selection) { s.startByte <= s.endByte }

  predicate IsCaret(s: Selection) { s.startByte == s.endByte }

  predicate Equals(s: Selection, slot: Slot) {
    s.startByte == slot.startByte && s.endByte == slot.endByte
  }

  predicate Within(s: Selection, slot: Slot) {
    slot.startByte <= s.startByte && s.endByte <= slot.endByte
  }

  predicate Overlaps(s: Selection, slot: Slot) {
    s.startByte < slot.endByte && s.endByte > slot.startByte
  }

  predicate EqualsSome(s: Selection, slots: seq<Slot>) {
    exists i :: 0 <= i < |slots| && Equals(s, slots[i])
  }

  predicate WithinSome(s: Selection, slots: seq<Slot>) {
    exists i :: 0 <= i < |slots| && Within(s, slots[i])
  }

  predicate OverlapsSome(s: Selection, slots: seq<Slot>) {
    exists i :: 0 <= i < |slots| && Overlaps(s, slots[i])
  }

  /** The command's decision, loop by loop. */
  method Toggle(selections: seq<Selection>, slots: seq<Slot>) returns (route: Route)
    ensures route == RouteOf(selections, slots)
  {
    if selections == [] || |selections| > MAX_SELECTIONS {
      return Refuse(BadSelectionCount);
    }
    var complete := true;
    for i := 0 to |selections|
      invariant complete <==> forall j :: 0 <= j < i ==> EqualsSome(selections[j], slots)
    {
      var found := false;
      for k := 0 to |slots|
        invariant found <==> exists l :: 0 <= l < k && Equals(selections[i], slots[l])
      {
        found := found || Equals(selections[i], slots[k]);
      }
      assert found <==> EqualsSome(selections[i], slots);
      complete := complete && found;
    }
    if complete {
      return Remove;
    }
    if |selections| == 1 && WithinSome(selections[0], slots) {
      return Edit;
    }
    for i := 0 to |selections|
      invariant forall j :: 0 <= j < i ==> !OverlapsSome(selections[j], slots)
    {
      for k := 0 to |slots|
        invariant forall l :: 0 <= l < k ==> !Overlaps(selections[i], slots[l])
      {
        if Overlaps(selections[i], slots[k]) {
          return Refuse(MixedSelections);
        }
      }
    }
    for i := 0 to |selections|
      invariant forall j :: 0 <= j < i ==> !IsCaret(selections[j])
    {
      if IsCaret(selections[i]) {
        return Refuse(EmptySelection);
      }
    }
    return Apply;
  }

  function RouteOf(selections: seq<Selection>, slots: seq<Slot>): Route {
    if selections == [] || |selections| > MAX_SELECTIONS then Refuse(BadSelectionCount)
    else if forall i :: 0 <= i < |selections| ==> EqualsSome(selections[i], slots) then Remove
    else if |selections| == 1 && WithinSome(selections[0], slots) then Edit
    else if exists i :: 0 <= i < |selections| && OverlapsSome(selections[i], slots) then Refuse(MixedSelections)
    else if exists i :: 0 <= i < |selections| && IsCaret(selections[i]) then Refuse(EmptySelection)
    else Apply
  }

  // ---- What the routes mean, byte by byte -----------------------------------------------------

  predicate InRange(b: int, start: nat, end: nat) { start <= b < end }

  /** The bytes a selection covers. */
  function Covered(s: Selection): set<int> {
    set b | 0 <= b < s.endByte && InRange(b, s.startByte, s.endByte)
  }

  function Private(slot: Slot): set<int> {
    set b | 0 <= b < slot.endByte && InRange(b, slot.startByte, slot.endByte)
  }

  /** The slots of an accepted map. */
  ghost predicate AcceptedSlots(slots: seq<Slot>) {
    SlotsDisjoint(slots) && forall i :: 0 <= i < |slots| ==> slots[i].startByte < slots[i].endByte
  }

  /** A slot id: some text of at most 64 bytes. */
  predicate NamesSlot(id: string, utf8Length: string -> UmbraMap.Option<nat>) {
    id != "" && utf8Length(id).Some? && utf8Length(id).value <= 64
  }

  /** The slots of an accepted map: each has a name and bytes, all of them in the projection and none in two slots. */
  lemma AcceptedMapSlots(m: RenderMap, utf8Length: string -> Option<nat>)
    requires WellFormedMap(m, utf8Length)
    ensures AcceptedSlots(m.slots)
    ensures forall k :: 0 <= k < |m.slots| ==> Private(m.slots[k]) != {}
    ensures forall k, b :: 0 <= k < |m.slots| && b in Private(m.slots[k]) ==> b < m.projectionBytes
    ensures forall j, k :: 0 <= j < k < |m.slots| ==> Private(m.slots[j]) !! Private(m.slots[k])
    ensures forall k :: 0 <= k < |m.slots| ==> NamesSlot(m.slots[k].slotId, utf8Length)
  {
    forall k | 0 <= k < |m.slots|
      ensures NamesSlot(m.slots[k].slotId, utf8Length)
      ensures m.slots[k].startByte < m.slots[k].endByte <= m.projectionBytes
      ensures m.slots[k].startByte in Private(m.slots[k])
    {
      assert SlotInside(m.slots[k], m.projectionBytes, utf8Length);
    }
  }

  /** Apply touches no private byte, and only with selections that cover something. */
  lemma ApplyIsOutside(selections: seq<Selection>, slots: seq<Slot>, i: nat, k: nat)
    requires AcceptedSlots(slots) && forall j :: 0 <= j < |selections| ==> Proper(selections[j])
    requires RouteOf(selections, slots) == Apply && i < |selections| && k < |slots|
    ensures Covered(selections[i]) != {} && Covered(selections[i]) !! Private(slots[k])
  {
    assert !OverlapsSome(selections[i], slots) && !IsCaret(selections[i]);
    assert !Overlaps(selections[i], slots[k]);
    assert selections[i].startByte in Covered(selections[i]);
  }

  /** Remove unwraps whole slots: each selection is exactly one slot, and no other shares a byte with it. */
  lemma RemoveIsWholeSlots(selections: seq<Selection>, slots: seq<Slot>, i: nat) returns (k: nat)
    requires AcceptedSlots(slots) && RouteOf(selections, slots) == Remove && i < |selections|
    ensures k < |slots| && Covered(selections[i]) == Private(slots[k]) && !IsCaret(selections[i])
    ensures forall l :: 0 <= l < |slots| && l != k ==> Covered(selections[i]) !! Private(slots[l])
  {
    assert EqualsSome(selections[i], slots);
    k :| 0 <= k < |slots| && Equals(selections[i], slots[k]);
  }

  /** Edit is for one selection strictly smaller than the slot that holds it. */
  lemma EditIsInside(selections: seq<Selection>, slots: seq<Slot>) returns (k: nat)
    requires AcceptedSlots(slots) && forall j :: 0 <= j < |selections| ==> Proper(selections[j])
    requires RouteOf(selections, slots) == Edit
    ensures |selections| == 1 && k < |slots| && Within(selections[0], slots[k])
    ensures Covered(selections[0]) < Private(slots[k])
  {
    k :| 0 <= k < |slots| && Within(selections[0], slots[k]);
    assert !Equals(selections[0], slots[k]);
    var b := if slots[k].startByte < selections[0].startByte then slots[k].startByte else slots[k].endByte - 1;
    assert b in Private(slots[k]) && b !in Covered(selections[0]);
  }

  /** A private byte is selected, or a caret stands between two private bytes of one slot. */
  predicate Touches(s: Selection, slot: Slot) {
    Covered(s) * Private(slot) != {} || (IsCaret(s) && slot.startByte < s.startByte < slot.endByte)
  }

  lemma OverlapTouches(s: Selection, slot: Slot)
    requires Proper(s) && slot.startByte < slot.endByte
    ensures Overlaps(s, slot) <==> Touches(s, slot)
  {
    if Overlaps(s, slot) && !IsCaret(s) {
      var b := if s.startByte < slot.startByte then slot.startByte else s.startByte;
      assert b in Covered(s) * Private(slot);
    }
    if b: int :| b in Covered(s) * Private(slot) {
      assert s.startByte <= b < s.endByte && slot.startByte <= b < slot.endByte;
    }
  }

  /** A refusal for mixing is always about some slot that a selection touches, and applying never is. */
  lemma MixedTouchesPrivate(selections: seq<Selection>, slots: seq<Slot>)
    requires AcceptedSlots(slots) && forall j :: 0 <= j < |selections| ==> Proper(selections[j])
    ensures RouteOf(selections, slots) == Refuse(MixedSelections) ==> TouchesSome(selections, slots)
    ensures RouteOf(selections, slots) == Apply || RouteOf(selections, slots) == Refuse(EmptySelection) ==>
      !TouchesSome(selections, slots)
  {
    forall i, k | 0 <= i < |selections| && 0 <= k < |slots|
      ensures Overlaps(selections[i], slots[k]) <==> Touches(selections[i], slots[k])
    {
      OverlapTouches(selections[i], slots[k]);
    }
    if RouteOf(selections, slots) == Refuse(MixedSelections) {
      var i :| 0 <= i < |selections| && OverlapsSome(selections[i], slots);
      var k :| 0 <= k < |slots| && Overlaps(selections[i], slots[k]);
      assert Touches(selections[i], slots[k]);
    }
  }

  predicate TouchesSome(selections: seq<Selection>, slots: seq<Slot>) {
    exists i, k :: 0 <= i < |selections| && 0 <= k < |slots| && Touches(selections[i], slots[k])
  }

  // ---- Each route, exactly ---------------------------------------------------------------------

  predicate WholeSome(s: Selection, slots: seq<Slot>) {
    exists k :: 0 <= k < |slots| && Covered(s) == Private(slots[k])
  }

  /** All selected bytes are the slot's; a caret stands at one of its bytes or right behind one. */
  predicate Inside(s: Selection, slot: Slot) {
    && Covered(s) <= Private(slot)
    && (IsCaret(s) ==> s.startByte in Private(slot) || s.startByte - 1 in Private(slot))
  }

  predicate InsideSome(s: Selection, slots: seq<Slot>) {
    exists k :: 0 <= k < |slots| && Inside(s, slots[k])
  }

  lemma WholeIsEqual(s: Selection, slot: Slot)
    requires Proper(s) && slot.startByte < slot.endByte
    ensures Covered(s) == Private(slot) <==> Equals(s, slot)
  {
    if Covered(s) == Private(slot) {
      assert slot.startByte in Covered(s) && slot.endByte - 1 in Covered(s);
      assert s.startByte in Private(slot) && s.endByte - 1 in Private(slot);
    }
  }

  lemma InsideIsWithin(s: Selection, slot: Slot)
    requires Proper(s) && slot.startByte < slot.endByte
    ensures Inside(s, slot) <==> Within(s, slot)
  {
    if Inside(s, slot) && !IsCaret(s) {
      assert s.startByte in Covered(s) && s.endByte - 1 in Covered(s);
    }
  }

  lemma SomeByBytes(s: Selection, slots: seq<Slot>)
    requires AcceptedSlots(slots) && Proper(s)
    ensures WholeSome(s, slots) <==> EqualsSome(s, slots)
    ensures InsideSome(s, slots) <==> WithinSome(s, slots)
  {
    forall k | 0 <= k < |slots|
      ensures Covered(s) == Private(slots[k]) <==> Equals(s, slots[k])
      ensures Inside(s, slots[k]) <==> Within(s, slots[k])
    {
      WholeIsEqual(s, slots[k]);
      InsideIsWithin(s, slots[k]);
    }
  }

  lemma TouchesByBytes(selections: seq<Selection>, slots: seq<Slot>)
    requires AcceptedSlots(slots) && forall j :: 0 <= j < |selections| ==> Proper(selections[j])
    ensures TouchesSome(selections, slots) <==>
      exists i :: 0 <= i < |selections| && OverlapsSome(selections[i], slots)
  {
    forall i, k | 0 <= i < |selections| && 0 <= k < |slots|
      ensures Overlaps(selections[i], slots[k]) <==> Touches(selections[i], slots[k])
    {
      OverlapTouches(selections[i], slots[k]);
    }
    if i :| 0 <= i < |selections| && OverlapsSome(selections[i], slots) {
      var k :| 0 <= k < |slots| && Overlaps(selections[i], slots[k]);
      assert Touches(selections[i], slots[k]);
    }
  }

  /** A whole slot, or a part of one with content, is touched. */
  lemma InsideTouches(s: Selection, slots: seq<Slot>)
    requires AcceptedSlots(slots) && Proper(s)
    ensures EqualsSome(s, slots) ==> OverlapsSome(s, slots)
    ensures WithinSome(s, slots) && !IsCaret(s) ==> OverlapsSome(s, slots)
  {
    if EqualsSome(s, slots) {
      var k :| 0 <= k < |slots| && Equals(s, slots[k]);
      assert Overlaps(s, slots[k]);
    }
    if WithinSome(s, slots) && !IsCaret(s) {
      var k :| 0 <= k < |slots| && Within(s, slots[k]);
      assert Overlaps(s, slots[k]);
    }
  }

  predicate AllWhole(selections: seq<Selection>, slots: seq<Slot>) {
    forall i :: 0 <= i < |selections| ==> WholeSome(selections[i], slots)
  }

  predicate AllEqual(selections: seq<Selection>, slots: seq<Slot>) {
    forall i :: 0 <= i < |selections| ==> EqualsSome(selections[i], slots)
  }

  predicate OverlapsAny(selections: seq<Selection>, slots: seq<Slot>) {
    exists i :: 0 <= i < |selections| && OverlapsSome(selections[i], slots)
  }

  predicate HasCaret(selections: seq<Selection>) {
    exists i :: 0 <= i < |selections| && IsCaret(selections[i])
  }

  lemma WholesByBytes(selections: seq<Selection>, slots: seq<Slot>)
    requires AcceptedSlots(slots) && forall j :: 0 <= j < |selections| ==> Proper(selections[j])
    ensures AllWhole(selections, slots) <==> AllEqual(selections, slots)
  {
    forall i | 0 <= i < |selections|
      ensures WholeSome(selections[i], slots) <==> EqualsSome(selections[i], slots)
    {
      SomeByBytes(selections[i], slots);
    }
  }

  lemma FirstTouches(selections: seq<Selection>, slots: seq<Slot>)
    requires AcceptedSlots(slots) && forall j :: 0 <= j < |selections| ==> Proper(selections[j])
    requires selections != []
    ensures AllEqual(selections, slots) ==> OverlapsAny(selections, slots)
    ensures WithinSome(selections[0], slots) && !IsCaret(selections[0]) ==> OverlapsAny(selections, slots)
  {
    InsideTouches(selections[0], slots);
    assert EqualsSome(selections[0], slots) || !AllEqual(selections, slots);
  }

  lemma RouteCases(selections: seq<Selection>, slots: seq<Slot>)
    requires selections != [] && (AllEqual(selections, slots) ==> OverlapsAny(selections, slots))
    requires WithinSome(selections[0], slots) && !IsCaret(selections[0]) ==> OverlapsAny(selections, slots)
    ensures var route, counted := RouteOf(selections, slots), |selections| <= 64;
      var one := |selections| == 1 && WithinSome(selections[0], slots);
      var whole, touched, carets := AllEqual(selections, slots), OverlapsAny(selections, slots), HasCaret(selections);
      && (route == Refuse(BadSelectionCount) <==> !counted)
      && (route == Remove <==> counted && whole)
      && (route == Edit <==> one && !whole)
      && (route == Apply <==> counted && !touched && !carets)
      && (route == Refuse(EmptySelection) <==> counted && !touched && carets && !one)
      && (route == Refuse(MixedSelections) <==> counted && touched && !whole && !one)
  {
  }

  /** When the toggle takes which route, in terms of the bytes that selections and slots cover. */
  lemma RoutesByBytes(selections: seq<Selection>, slots: seq<Slot>)
    requires AcceptedSlots(slots) && forall j :: 0 <= j < |selections| ==> Proper(selections[j])
    ensures var route, counted := RouteOf(selections, slots), 1 <= |selections| <= 64;
      var one := |selections| == 1 && InsideSome(selections[0], slots);
      var whole, touched := AllWhole(selections, slots), TouchesSome(selections, slots);
      var carets := HasCaret(selections);
      && (route == Refuse(BadSelectionCount) <==> !counted)
      && (route == Remove <==> counted && whole)
      && (route == Edit <==> one && !whole)
      && (route == Apply <==> counted && !touched && !carets)
      && (route == Refuse(EmptySelection) <==> counted && !touched && carets && !one)
      && (route == Refuse(MixedSelections) <==> counted && touched && !whole && !one)
  {
    WholesByBytes(selections, slots);
    TouchesByBytes(selections, slots);
    if selections != [] {
      SomeByBytes(selections[0], slots);
      FirstTouches(selections, slots);
      RouteCases(selections, slots);
    }
  }

  // ---- The range an edit submits ---------------------------------------------------------------

  predicate Editable(s: Selection, slot: Slot) {
    Within(s, slot) && !Equals(s, slot)
  }

  datatype EditTarget = Target(index: nat, range: Selection) | NoSlot | BadSlotRange

  /** The first slot that holds the selection without being equal to it, and the range sent for it. */
  method FindEditTarget(s: Selection, slots: seq<Slot>) returns (r: EditTarget)
    requires Proper(s)
    ensures r.NoSlot? <==> forall k :: 0 <= k < |slots| ==> !Editable(s, slots[k])
    ensures r.Target? ==> r.index < |slots| && Editable(s, slots[r.index])
    ensures r.Target? ==> forall k :: 0 <= k < r.index ==> !Editable(s, slots[k])
    ensures r.Target? ==> Covered(r.range) != {} && Covered(r.range) <= Private(slots[r.index])
    ensures r.Target? && !IsCaret(s) ==> r.range == s
    ensures r.BadSlotRange? ==>
      exists k :: 0 <= k < |slots| && Editable(s, slots[k]) && slots[k].endByte - slots[k].startByte < 2
  {
    for k := 0 to |slots|
      invariant forall l :: 0 <= l < k ==> !Editable(s, slots[l])
    {
      if Editable(s, slots[k]) {
        var slotStart, slotEnd := slots[k].startByte, slots[k].endByte;
        if slotEnd - slotStart < 2 {
          return BadSlotRange;
        }
        var range := if IsCaret(s) then Selection(slotStart + 1, slotStart + 2) else s;
        assert range.startByte in Covered(range);
        return Target(k, range);
      }
    }
    return NoSlot;
  }

  /** A selection with content lies inside at most one slot, so the slot an edit goes to is determined. */
  lemma EditSlotUnique(s: Selection, slots: seq<Slot>, k: nat, l: nat)
    requires AcceptedSlots(slots) && s.startByte < s.endByte
    requires k < |slots| && l < |slots| && Within(s, slots[k]) && Within(s, slots[l])
    ensures k == l
  {
  }

  /** A caret has a choice of slot only where two of them meet, and the earlier one is taken. */
  lemma CaretBetweenSlots(s: Selection, slots: seq<Slot>, k: nat, l: nat)
    requires AcceptedSlots(slots) && IsCaret(s) && k < l < |slots|
    requires Within(s, slots[k]) && Within(s, slots[l])
    ensures slots[k].endByte == s.startByte == slots[l].startByte
    ensures l == k + 1
  {
    if k + 1 < l {
      SlotsApart(slots, k, l);
      assert false;
    }
  }

  lemma SlotsApart(slots: seq<Slot>, k: nat, l: nat)
    requires AcceptedSlots(slots) && k + 1 < l < |slots|
    ensures slots[k].endByte < slots[l].startByte
  {
    assert slots[k].endByte <= slots[k + 1].startByte < slots[k + 1].endByte <= slots[l].startByte;
  }

  /** Whenever the toggle routes to edit, the edit command finds a slot. */
  lemma RoutedEditHasSlot(selections: seq<Selection>, slots: seq<Slot>)
    requires RouteOf(selections, slots) == Edit
    ensures exists k :: 0 <= k < |slots| && Editable(selections[0], slots[k])
  {
    var k :| 0 <= k < |slots| && Within(selections[0], slots[k]);
    assert !EqualsSome(selections[0], slots);
    assert Editable(selections[0], slots[k]);
  }
}
