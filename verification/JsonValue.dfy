/** The RPC client's bound on JSON values: an explicit worklist over the finite value tree. */
module JsonValue {

  const MAX_DEPTH: int := 64

  const MAX_NODES: int := 100000

  const MAX_SAFE_INTEGER: int := 0x1F_FFFF_FFFF_FFFF

  datatype Number = Finite(value: real) | NotFinite

  datatype Key = TextKey | OtherKey

  /** A Python value as the validator sees it; text is a sequence of code points. */
  datatype Value =
    | Null
    | Boolean(b: bool)
    | Text(codePoints: seq<int>)
    | Integer(n: int)
    | Float(number: Number)
    | Array(items: seq<Value>)
    | Object(keys: seq<Key>, values: seq<Value>)
    | Foreign

  /** UTF-8 encodes every code point but the surrogates. */
  predicate Encodable(codePoints: seq<int>) {
    forall i :: 0 <= i < |codePoints| ==> !(0xD800 <= codePoints[i] <= 0xDFFF)
  }

  /** What one node must satisfy on its own. */
  predicate NodeValid(v: Value) {
    match v
    case Null => true
    case Boolean(_) => true
    case Text(codePoints) => Encodable(codePoints)
    case Integer(n) => -MAX_SAFE_INTEGER <= n <= MAX_SAFE_INTEGER
    case Float(number) => number.Finite?
    case Array(_) => true
    case Object(keys, _) => forall i :: 0 <= i < |keys| ==> keys[i].TextKey?
    case Foreign => false
  }

  function Children(v: Value): seq<Value> {
    match v
    case Array(items) => items
    case Object(_, values) => values
    case _ => []
  }

  // ---- The recursive definition ----------------------------------------------------------------

  predicate Valid(v: Value) {
    NodeValid(v) && forall c :: c in Children(v) ==> Valid(c)
  }

  /** The number of edges on the longest path down from `v`. */
  function Height(v: Value): nat {
    match v
    case Array(items) => HeightAbove(items)
    case Object(_, values) => HeightAbove(values)
    case _ => 0
  }

  function HeightAbove(vs: seq<Value>): nat {
    if vs == [] then 0
    else
      var init, last := HeightAbove(vs[..|vs| - 1]), 1 + Height(vs[|vs| - 1]);
      if init > last then init else last
  }

  /** The number of nodes of `v`. */
  function Size(v: Value): nat {
    match v
    case Array(items) => 1 + SizeAll(items)
    case Object(_, values) => 1 + SizeAll(values)
    case _ => 1
  }

  function SizeAll(vs: seq<Value>): nat {
    if vs == [] then 0 else SizeAll(vs[..|vs| - 1]) + Size(vs[|vs| - 1])
  }

  /** The bound on a value, with no reference to any traversal. */
  predicate WithinBounds(v: Value) {
    Valid(v) && Height(v) <= MAX_DEPTH && Size(v) <= MAX_NODES
  }

  lemma {:induction false} HeightAboveBound(vs: seq<Value>, bound: nat)
    ensures HeightAbove(vs) <= bound <==> forall i :: 0 <= i < |vs| ==> 1 + Height(vs[i]) <= bound
  {
    if vs != [] {
      HeightAboveBound(vs[..|vs| - 1], bound);
    }
  }

  lemma NodeSplits(v: Value)
    ensures Size(v) == 1 + SizeAll(Children(v))
    ensures Height(v) == HeightAbove(Children(v))
  {
  }

  // ---- The worklist ----------------------------------------------------------------------------

  datatype Pending = Pending(item: Value, depth: nat)

  function PendingSize(pending: seq<Pending>): nat {
    if pending == [] then 0 else PendingSize(pending[..|pending| - 1]) + Size(pending[|pending| - 1].item)
  }

  /** What has to hold of one worklist entry for the whole value to be acceptable. */
  predicate EntryGood(p: Pending) {
    Valid(p.item) && p.depth + Height(p.item) <= MAX_DEPTH
  }

  predicate AllGood(pending: seq<Pending>) {
    forall i :: 0 <= i < |pending| ==> EntryGood(pending[i])
  }

  lemma {:induction false} EntryExpands(p: Pending)
    ensures EntryGood(p) <==>
      && NodeValid(p.item) && p.depth <= MAX_DEPTH
      && ChildrenGood(Children(p.item), p.depth + 1)
  {
    var children := Children(p.item);
    NodeSplits(p.item);
    if p.depth <= MAX_DEPTH {
      HeightAboveBound(children, MAX_DEPTH - p.depth);
      forall i | 0 <= i < |children|
        ensures EntryGood(Pending(children[i], p.depth + 1))
          <==> Valid(children[i]) && 1 + Height(children[i]) <= MAX_DEPTH - p.depth
      {
      }
    }
  }

  predicate ChildrenGood(children: seq<Value>, depth: nat) {
    forall i :: 0 <= i < |children| ==> EntryGood(Pending(children[i], depth))
  }

  function Without(pending: seq<Pending>, k: nat): (others: seq<Pending>)
    requires k < |pending|
    ensures |others| == |pending| - 1
  {
    pending[..k] + pending[k + 1..]
  }

  /** An order of work: which entry of a worklist comes next. */
  ghost predicate Picks(pick: seq<Pending> -> nat) {
    forall pending :: pending != [] ==> pick(pending) < |pending|
  }

  function LastEntry(pending: seq<Pending>): nat {
    if pending == [] then 0 else |pending| - 1
  }

  /** The validator's loop, which takes nodes from the end of the worklist. */
  method IsJsonValue(value: Value) returns (valid: bool)
    ensures valid <==> WithinBounds(value)
  {
    valid := IsJsonValueInOrder(value, LastEntry);
  }

  /**
   * The same loop with any order of work: it stops at the first bad node or exceeded limit, and its answer
   * is the recursive definition's whatever entry it takes next.
   */
  method IsJsonValueInOrder(value: Value, pick: seq<Pending> -> nat) returns (valid: bool)
    requires Picks(pick)
    ensures valid <==> WithinBounds(value)
  {
    var pending := [Pending(value, 0)];
    var visited := 0;
    while pending != []
      invariant visited + PendingSize(pending) == Size(value)
      invariant 0 <= visited <= MAX_NODES
      invariant AllGood(pending) <==> Valid(value) && Height(value) <= MAX_DEPTH
      decreases PendingSize(pending)
    {
      var k := pick(pending);
      var next := pending[k];
      var item, depth := next.item, next.depth;
      NodeSplits(item);
      EntryExpands(next);
      TakeOut(pending, k);
      pending := Without(pending, k);
      visited := visited + 1;
      if depth > MAX_DEPTH || visited > MAX_NODES {
        return false;
      }
      if !NodeValid(item) {
        return false;
      }
      pending := AppendChildren(pending, Children(item), depth + 1);
    }
    return true;
  }

  /** Taking one entry out takes its nodes and its condition out. */
  lemma {:induction false} TakeOut(pending: seq<Pending>, k: nat)
    requires k < |pending|
    ensures PendingSize(pending) == PendingSize(Without(pending, k)) + Size(pending[k].item)
    ensures AllGood(pending) <==> AllGood(Without(pending, k)) && EntryGood(pending[k])
  {
    var init, last := pending[..|pending| - 1], pending[|pending| - 1];
    assert pending == init + [last];
    if k == |init| {
      assert Without(pending, k) == init;
      AllGoodSnoc(init, last);
    } else {
      TakeOut(init, k);
      assert Without(pending, k) == Without(init, k) + [last];
      AllGoodSnoc(Without(init, k), last);
      AllGoodSnoc(init, last);
      PendingSizeSnoc(Without(init, k), last);
    }
  }

  method AppendChildren(start: seq<Pending>, children: seq<Value>, depth: nat) returns (pending: seq<Pending>)
    ensures PendingSize(pending) == PendingSize(start) + SizeAll(children)
    ensures AllGood(pending) <==> AllGood(start) && ChildrenGood(children, depth)
  {
    pending := start;
    for i := 0 to |children|
      invariant PendingSize(pending) == PendingSize(start) + SizeAll(children[..i])
      invariant AllGood(pending) <==> AllGood(start) && ChildrenGood(children[..i], depth)
    {
      var child := Pending(children[i], depth);
      AllGoodSnoc(pending, child);
      PendingSizeSnoc(pending, child);
      assert children[..i + 1] == children[..i] + [children[i]];
      assert children[..i + 1][..i] == children[..i];
      ChildrenGoodSnoc(children[..i], children[i], depth);
      pending := pending + [child];
    }
    assert children[..|children|] == children;
  }

  lemma ChildrenGoodSnoc(children: seq<Value>, c: Value, depth: nat)
    ensures ChildrenGood(children + [c], depth) <==> ChildrenGood(children, depth) && EntryGood(Pending(c, depth))
  {
    assert forall i :: 0 <= i < |children| ==> (children + [c])[i] == children[i];
    assert (children + [c])[|children|] == c;
  }

  lemma AllGoodSnoc(pending: seq<Pending>, p: Pending)
    ensures AllGood(pending + [p]) <==> AllGood(pending) && EntryGood(p)
  {
    assert forall i :: 0 <= i < |pending| ==> (pending + [p])[i] == pending[i];
    assert (pending + [p])[|pending|] == p;
  }

  lemma PendingSizeSnoc(pending: seq<Pending>, p: Pending)
    ensures PendingSize(pending + [p]) == PendingSize(pending) + Size(p.item)
  {
    assert (pending + [p])[..|pending|] == pending;
  }

  // ---- Where the bounds lie ----------------------------------------------------------------------

  /** A value inside `k` arrays. */
  function Nested(v: Value, k: nat): Value {
    if k == 0 then v else Array([Nested(v, k - 1)])
  }

  lemma Single(v: Value)
    ensures SizeAll([v]) == Size(v) && HeightAbove([v]) == 1 + Height(v)
  {
    assert [v][..0] == [];
    assert SizeAll([v]) == SizeAll([v][..0]) + Size(v);
  }

  lemma {:induction false} NestedMeasures(k: nat)
    ensures Valid(Nested(Null, k)) && Height(Nested(Null, k)) == k && Size(Nested(Null, k)) == k + 1
  {
    if k > 0 {
      var inner := Nested(Null, k - 1);
      NestedMeasures(k - 1);
      assert Children(Nested(Null, k)) == [inner];
      Single(inner);
    }
  }

  /** Arrays in arrays are accepted exactly to depth 64. */
  lemma NestedLimit(k: nat)
    ensures WithinBounds(Nested(Null, k)) <==> k <= 64
  {
    NestedMeasures(k);
  }

  function Nulls(n: nat): (vs: seq<Value>)
    ensures |vs| == n
  {
    seq(n, _ => Null)
  }

  lemma {:induction false} NullsMeasure(n: nat)
    ensures SizeAll(Nulls(n)) == n && HeightAbove(Nulls(n)) == if n == 0 then 0 else 1
  {
    if n > 0 {
      NullsMeasure(n - 1);
      assert Nulls(n)[..n - 1] == Nulls(n - 1);
    }
  }

  /** A list and its elements are accepted exactly up to 100000 nodes together. */
  lemma WideLimit(n: nat)
    ensures WithinBounds(Array(Nulls(n))) <==> n < 100_000
  {
    var v := Array(Nulls(n));
    NullsMeasure(n);
    NodeSplits(v);
    assert Children(v) == Nulls(n);
    assert Valid(v) by {
      assert Valid(Null);
      assert forall c :: c in Children(v) ==> c == Null;
    }
    assert Size(v) == n + 1;
    assert Height(v) <= 1;
  }

  /** Safe integers, finite numbers, text without surrogates, and text keys. */
  lemma LeafLimits(n: int, codePoint: int, x: real)
    ensures WithinBounds(Integer(n)) <==> -0x1F_FFFF_FFFF_FFFF <= n <= 0x1F_FFFF_FFFF_FFFF
    ensures WithinBounds(Text([codePoint])) <==> codePoint < 0xD800 || codePoint > 0xDFFF
    ensures WithinBounds(Float(Finite(x))) && !WithinBounds(Float(NotFinite)) && !WithinBounds(Foreign)
    ensures WithinBounds(Object([TextKey], [Null])) && !WithinBounds(Object([OtherKey], [Null]))
  {
    Single(Null);
    assert Text([codePoint]).codePoints[0] == codePoint;
    assert [OtherKey][0] == OtherKey;
  }
}
