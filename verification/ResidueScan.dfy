/** The residue scanner: the needles made from each secret, and the chunked scan of one file. */
module ResidueScan {
  import opened Bytes
  import opened Base64
  import Sets

  const MAX_PROCESS_OUTPUT_BYTES: int := 2 * 1024 * 1024

  const EQUALS: Byte := 61

  // ---- Needles -------------------------------------------------------------------------------

  datatype Alphabet = Standard | UrlSafe

  function DigitByte(d: Sextet, alphabet: Alphabet): (b: Byte)
    ensures b != EQUALS
  {
    if alphabet == Standard then StdChar(d) as int else UrlChar(d) as int
  }

  function DigitText(digits: seq<Sextet>, alphabet: Alphabet): (t: Bytes)
    ensures |t| == |digits|
  {
    seq(|digits|, i requires 0 <= i < |digits| => DigitByte(digits[i], alphabet))
  }

  function Padding(n: nat): Bytes {
    seq((3 - n % 3) % 3, _ => EQUALS)
  }

  /** Python's `b64encode` and `urlsafe_b64encode`. */
  function Base64Text(value: Bytes, alphabet: Alphabet): Bytes {
    DigitText(Sextets(value), alphabet) + Padding(|value|)
  }

  /** Python's `rstrip(b"=")`. */
  function StripPadding(text: Bytes): Bytes {
    if text != [] && text[|text| - 1] == EQUALS then StripPadding(text[..|text| - 1]) else text
  }

  function HexDigit(d: int, upper: bool): Byte
    requires 0 <= d < 16
  {
    if d < 10 then 48 + d else if upper then 55 + d else 87 + d
  }

  function HexText(value: Bytes, upper: bool): (t: Bytes)
    ensures |t| == 2 * |value|
  {
    if value == [] then []
    else [HexDigit(value[0] / 16, upper), HexDigit(value[0] % 16, upper)] + HexText(value[1..], upper)
  }

  /** The complete three-byte groups of `value` when `preceding` bytes share its first quartet. */
  function InternalRun(value: Bytes, preceding: int): (run: Bytes)
    requires 0 <= preceding < 3
    ensures |run| % 3 == 0
  {
    var skipped := (3 - preceding) % 3;
    var internal := if skipped <= |value| then value[skipped..] else [];
    internal[..|internal| - |internal| % 3]
  }

  function AlignmentNeedles(value: Bytes, preceding: int): set<Bytes>
    requires 0 <= preceding < 3
  {
    var run := InternalRun(value, preceding);
    if |run| >= 12 then {Base64Text(run, Standard), Base64Text(run, UrlSafe)} else {}
  }

  /** The shortest secret with a needle at this alignment. */
  function AlignmentBound(preceding: int): nat
    requires 0 <= preceding < 3
  {
    if preceding == 0 then 12 else if preceding == 1 then 14 else 13
  }

  /** An alignment has needles exactly from its bound on: 12, 14 and 13 bytes. */
  lemma AlignmentBoundExact(value: Bytes, preceding: int)
    requires 0 <= preceding < 3
    ensures |InternalRun(value, preceding)| >= 12 <==> |value| >= AlignmentBound(preceding)
    ensures AlignmentNeedles(value, preceding) != {} <==> |value| >= AlignmentBound(preceding)
  {
    if |InternalRun(value, preceding)| >= 12 {
      assert Base64Text(InternalRun(value, preceding), Standard) in AlignmentNeedles(value, preceding);
    }
  }

  function WholeNeedles(value: Bytes): set<Bytes> {
    var std, url := Base64Text(value, Standard), Base64Text(value, UrlSafe);
    {value, std, StripPadding(std), url, StripPadding(url)}
  }

  /**
   * Every needle made from one secret. `textForms` stands for the JSON-escaped and UTF-16 spellings,
   * empty when the secret is not UTF-8.
   */
  function VariantSet(value: Bytes, textForms: Bytes -> set<Bytes>): set<Bytes> {
    WholeNeedles(value) + Aligned(value) + (HexNeedles(value) + textForms(value))
  }

  function Aligned(value: Bytes): set<Bytes> {
    AlignmentNeedles(value, 0) + AlignmentNeedles(value, 1) + AlignmentNeedles(value, 2)
  }

  function HexNeedles(value: Bytes): set<Bytes> {
    {HexText(value, false), HexText(value, true)}
  }

  function UnionOf(values: seq<Bytes>, needlesOf: Bytes -> set<Bytes>): (all: set<Bytes>)
    ensures forall v :: v in values ==> needlesOf(v) <= all
    ensures forall n :: n in all ==> exists v :: v in values && n in needlesOf(v)
  {
    if values == [] then {}
    else
      var init, last := values[..|values| - 1], values[|values| - 1];
      assert forall v :: v in values ==> v in init || v == last;
      UnionOf(init, needlesOf) + needlesOf(last)
  }

  function VariantUnion(values: seq<Bytes>, textForms: Bytes -> set<Bytes>): set<Bytes> {
    UnionOf(values, NeedlesOf(textForms))
  }

  function NeedlesOf(textForms: Bytes -> set<Bytes>): Bytes -> set<Bytes> {
    v => VariantSet(v, textForms)
  }

  lemma UnionOfStep(values: seq<Bytes>, i: nat, needlesOf: Bytes -> set<Bytes>)
    requires i < |values|
    ensures UnionOf(values[..i + 1], needlesOf) == UnionOf(values[..i], needlesOf) + needlesOf(values[i])
  {
    var more := values[..i + 1];
    assert more[..|more| - 1] == values[..i] && more[|more| - 1] == values[i];
  }

  lemma UnionStep(values: seq<Bytes>, i: nat, textForms: Bytes -> set<Bytes>)
    requires i < |values|
    ensures VariantUnion(values[..i + 1], textForms)
      == VariantUnion(values[..i], textForms) + VariantSet(values[i], textForms)
  {
    UnionOfStep(values, i, NeedlesOf(textForms));
  }

  lemma NeedleOrder(earlier: set<Bytes>, value: Bytes, textForms: Bytes -> set<Bytes>)
    ensures earlier + WholeNeedles(value) + Aligned(value) + HexNeedles(value) + textForms(value)
      == earlier + VariantSet(value, textForms)
  {
  }

  datatype Needles = Built(needles: seq<Bytes>) | EmptySecret

  /** Fails exactly on an empty secret; otherwise the needles are those of every secret, each once. */
  method SensitiveVariants(values: seq<Bytes>, textForms: Bytes -> set<Bytes>) returns (r: Needles)
    ensures r.EmptySecret? <==> [] in values
    ensures r.Built? ==> forall n :: n in r.needles <==> n in VariantUnion(values, textForms)
    ensures r.Built? ==> forall i, j :: 0 <= i < j < |r.needles| ==> r.needles[i] != r.needles[j]
  {
    var variants: set<Bytes> := {};
    for i := 0 to |values|
      invariant [] !in values[..i]
      invariant variants == VariantUnion(values[..i], textForms)
    {
      var value := values[i];
      if value == [] {
        return EmptySecret;
      }
      ghost var earlier := variants;
      var aligned := AddAlignmentNeedles(variants + WholeNeedles(value), value);
      variants := aligned + HexNeedles(value) + textForms(value);
      NeedleOrder(earlier, value, textForms);
      UnionStep(values, i, textForms);
    }
    assert values[..|values|] == values;
    var listed := Sets.ListSet(variants);
    r := Built(listed);
  }

  method AddAlignmentNeedles(start: set<Bytes>, value: Bytes) returns (variants: set<Bytes>)
    ensures variants == start + Aligned(value)
  {
    variants := start;
    for preceding := 0 to 3
      invariant preceding == 0 ==> variants == start
      invariant preceding == 1 ==> variants == start + AlignmentNeedles(value, 0)
      invariant preceding == 2 ==> variants == start + AlignmentNeedles(value, 0) + AlignmentNeedles(value, 1)
      invariant preceding == 3 ==>
        variants == start + AlignmentNeedles(value, 0) + AlignmentNeedles(value, 1) + AlignmentNeedles(value, 2)
    {
      var internal := InternalRun(value, preceding);
      if |internal| >= 12 {
        variants := variants + {Base64Text(internal, Standard), Base64Text(internal, UrlSafe)};
      }
    }
  }

  // ---- The sliding window --------------------------------------------------------------------

  function MaxLength(needles: seq<Bytes>): (m: nat)
    ensures forall k :: 0 <= k < |needles| ==> |needles[k]| <= m
    ensures needles != [] ==> exists k :: 0 <= k < |needles| && |needles[k]| == m
  {
    if needles == [] then 0
    else
      var rest := MaxLength(needles[1..]);
      assert forall k :: 1 <= k < |needles| ==> needles[k] == needles[1..][k - 1];
      if |needles[0]| >= rest then |needles[0]| else rest
  }

  /** Python's `max(map(len, needles), default=1) - 1`; it is -1 when every needle is empty. */
  function OverlapSize(needles: seq<Bytes>): int {
    if needles == [] then 0 else MaxLength(needles) - 1
  }

  function NextOverlap(data: Bytes, size: int): Bytes {
    if size != 0 then PySuffix(data, size) else []
  }

  /** The window kept after reading `done` holds every place where a needle could still be completed. */
  ghost predicate Window(overlap: Bytes, done: Bytes, size: int) {
    && |overlap| <= |done| && overlap == done[|done| - |overlap|..]
    && (|overlap| == |done| || |overlap| >= size)
  }

  lemma WindowAdvances(overlap: Bytes, done: Bytes, chunk: Bytes, size: int)
    requires size >= 0 && Window(overlap, done, size)
    ensures Window(NextOverlap(overlap + chunk, size), done + chunk, size)
  {
    var data, all := overlap + chunk, done + chunk;
    assert data == all[|all| - |data|..];
    var next := NextOverlap(data, size);
    assert next == data[|data| - |next|..] == all[|all| - |next|..];
  }

  /** A needle that is new in `done + chunk` shows up in `overlap + chunk`, and conversely. */
  lemma WindowSuffices(needle: Bytes, overlap: Bytes, done: Bytes, chunk: Bytes, size: int)
    requires Window(overlap, done, size) && |needle| <= size + 1
    ensures Occurs(needle, overlap + chunk) ==> Occurs(needle, done + chunk)
    ensures Occurs(needle, done + chunk) ==> Occurs(needle, done) || Occurs(needle, overlap + chunk)
  {
    var cut := |done| - |overlap|;
    var data, all := overlap + chunk, done + chunk;
    assert data == all[cut..];
    if Occurs(needle, data) {
      assert all == all[..cut] + data + [];
      OccursMonotone(needle, data, all[..cut], []);
    }
    if Occurs(needle, all) {
      var i :| 0 <= i <= |all| && OccursAt(needle, all, i);
      if i + |needle| <= |done| {
        assert done[i..i + |needle|] == all[i..i + |needle|];
        assert OccursAt(needle, done, i);
      } else {
        assert data[i - cut..i - cut + |needle|] == all[i..i + |needle|];
        assert OccursAt(needle, data, i - cut);
      }
    }
  }

  lemma AnyWindow(needles: seq<Bytes>, overlap: Bytes, done: Bytes, chunk: Bytes)
    requires Window(overlap, done, OverlapSize(needles))
    ensures AnyOccurs(needles, done + chunk) <==> AnyOccurs(needles, done) || AnyOccurs(needles, overlap + chunk)
  {
    forall k | 0 <= k < |needles|
      ensures Occurs(needles[k], done + chunk) <==>
        Occurs(needles[k], done) || Occurs(needles[k], overlap + chunk)
    {
      WindowSuffices(needles[k], overlap, done, chunk, OverlapSize(needles));
      if Occurs(needles[k], done) {
        OccursMonotone(needles[k], done, [], chunk);
        assert [] + done + chunk == done + chunk;
      }
    }
  }

  lemma EmptyNeedleOccurs(data: Bytes)
    ensures Occurs([], data)
  {
    assert OccursAt([], data, 0);
  }

  /** Only an all-empty needle list has a negative overlap, and then the first chunk already matches. */
  lemma NegativeOverlap(needles: seq<Bytes>, data: Bytes)
    requires OverlapSize(needles) < 0
    ensures AnyOccurs(needles, data)
  {
    EmptyNeedleOccurs(data);
    assert needles[0] == [];
  }

  // ---- The file scan -------------------------------------------------------------------------

  /** The answer the scan gives for a whole file: nothing is ever found in an empty one. */
  ghost predicate FoundIn(needles: seq<Bytes>, contents: Bytes) {
    contents != [] && AnyOccurs(needles, contents)
  }

  /** `chunks` are the successive non-empty reads of one file, in any split. */
  method FileContainsAny(chunks: seq<Bytes>, needles: seq<Bytes>) returns (found: bool)
    requires [] !in chunks
    ensures found <==> FoundIn(needles, Flatten(chunks))
  {
    var overlapSize := OverlapSize(needles);
    var overlap: Bytes := [];
    found := false;
    var next := 0;
    while next < |chunks|
      invariant 0 <= next <= |chunks| && !found
      invariant next > 0 ==> overlapSize >= 0 && !AnyOccurs(needles, Flatten(chunks[..next]))
      invariant Window(overlap, Flatten(chunks[..next]), overlapSize)
    {
      var chunk := chunks[next];
      assert chunk in chunks;
      ghost var done := Flatten(chunks[..next]);
      FlattenStep(chunks, next);
      AnyWindow(needles, overlap, done, chunk);
      var data := overlap + chunk;
      next := next + 1;
      if exists k :: 0 <= k < |needles| && Occurs(needles[k], data) {
        found := true;
        AnyOccursExtends(needles, chunks, next);
        break;
      }
      if overlapSize < 0 {
        NegativeOverlap(needles, data);
      }
      WindowAdvances(overlap, done, chunk, overlapSize);
      overlap := NextOverlap(data, overlapSize);
    }
    if !found {
      assert chunks[..|chunks|] == chunks;
    }
  }

  lemma AnyOccursExtends(needles: seq<Bytes>, chunks: seq<Bytes>, i: nat)
    requires i <= |chunks| && FoundIn(needles, Flatten(chunks[..i]))
    ensures FoundIn(needles, Flatten(chunks))
  {
    FlattenSplit(chunks, i);
    AnyMonotone(needles, Flatten(chunks[..i]), Flatten(chunks[i..]));
  }

  lemma AnyMonotone(needles: seq<Bytes>, data: Bytes, after: Bytes)
    requires AnyOccurs(needles, data)
    ensures AnyOccurs(needles, data + after)
  {
    var k :| 0 <= k < |needles| && Occurs(needles[k], data);
    OccursAppend(needles[k], data, after);
  }

  // ---- Completeness --------------------------------------------------------------------------

  /** The ways a secret can be written inside a larger text. */
  datatype Embedding =
    | Raw | Hex(upper: bool) | Base64Alone(alphabet: Alphabet, padded: bool)
    | Base64Stream(alphabet: Alphabet, padded: bool)

  /**
   * `value` between the bytes `left` and `right`: all of it written in one encoding, or the base64 of
   * `value` alone between bytes that are what they are.
   */
  function EmbeddedText(how: Embedding, left: Bytes, value: Bytes, right: Bytes): Bytes {
    var whole := left + value + right;
    match how
    case Raw => whole
    case Hex(upper) => HexText(whole, upper)
    case Base64Alone(alphabet, padded) => left + EncodedAlone(value, alphabet, padded) + right
    case Base64Stream(alphabet, padded) =>
      DigitText(Sextets(whole), alphabet) + Tail(|whole|, padded)
  }

  /** The base64 text of exactly this secret, with or without its padding. */
  function EncodedAlone(value: Bytes, alphabet: Alphabet, padded: bool): Bytes {
    DigitText(Sextets(value), alphabet) + Tail(|value|, padded)
  }

  /** A secret the scanner undertakes to find: not empty, and inside a base64 stream long enough to align. */
  predicate Findable(how: Embedding, left: Bytes, value: Bytes) {
    value != [] && (how.Base64Stream? ==> |value| >= AlignmentBound(|left| % 3))
  }

  function Tail(n: nat, padded: bool): Bytes {
    if padded then Padding(n) else []
  }

  lemma {:induction false} HexConcat(a: Bytes, b: Bytes, upper: bool)
    ensures HexText(a + b, upper) == HexText(a, upper) + HexText(b, upper)
  {
    if a == [] {
      assert a + b == b;
    } else {
      assert (a + b)[1..] == a[1..] + b;
      HexConcat(a[1..], b, upper);
    }
  }

  lemma DigitConcat(a: seq<Sextet>, b: seq<Sextet>, alphabet: Alphabet)
    ensures DigitText(a + b, alphabet) == DigitText(a, alphabet) + DigitText(b, alphabet)
  {
  }

  lemma DigitConcat3(b: seq<Sextet>, r: seq<Sextet>, a: seq<Sextet>, alphabet: Alphabet)
    ensures DigitText(b + r + a, alphabet) == DigitText(b, alphabet) + DigitText(r, alphabet) + DigitText(a, alphabet)
  {
    DigitConcat(b + r, a, alphabet);
    DigitConcat(b, r, alphabet);
  }

  /** The alignment run splits its surroundings on a group border. */
  lemma RunAligned(value: Bytes, left: Bytes, right: Bytes) returns (before: Bytes, after: Bytes)
    requires |value| >= AlignmentBound(|left| % 3)
    ensures |InternalRun(value, |left| % 3)| >= 12
    ensures left + value + right == before + InternalRun(value, |left| % 3) + after
    ensures |before| % 3 == 0
  {
    var preceding := |left| % 3;
    var skipped := (3 - preceding) % 3;
    var run := InternalRun(value, preceding);
    var internal := value[skipped..];
    before, after := left + value[..skipped], internal[|run|..] + right;
    CutAround(left, value, right, skipped, |run|);
  }

  lemma CutAround(left: Bytes, value: Bytes, right: Bytes, skipped: nat, n: nat)
    requires skipped <= |value| && n <= |value[skipped..]|
    ensures left + value + right
      == (left + value[..skipped]) + value[skipped..][..n] + (value[skipped..][n..] + right)
  {
    assert value == value[..skipped] + value[skipped..];
    assert value[skipped..] == value[skipped..][..n] + value[skipped..][n..];
  }

  /** From the bound of its alignment on, a needle stands in the base64 text of any surrounding bytes. */
  lemma AlignmentNeedleOccurs(value: Bytes, left: Bytes, right: Bytes, alphabet: Alphabet)
    returns (needle: Bytes)
    requires |value| >= AlignmentBound(|left| % 3)
    ensures needle in AlignmentNeedles(value, |left| % 3)
    ensures Occurs(needle, DigitText(Sextets(left + value + right), alphabet))
  {
    var before, after := RunAligned(value, left, right);
    var run := InternalRun(value, |left| % 3);
    needle := Base64Text(run, alphabet);
    UnpaddedText(run, alphabet);
    AlignedSextetsOccur(before, run, after);
    var b, r, a := Sextets(before), Sextets(run), Sextets(after);
    DigitConcat3(b, r, a, alphabet);
    OccursInConcat(DigitText(b, alphabet), DigitText(r, alphabet), DigitText(a, alphabet));
  }

  lemma UnpaddedText(run: Bytes, alphabet: Alphabet)
    requires |run| % 3 == 0
    ensures Base64Text(run, alphabet) == DigitText(Sextets(run), alphabet)
  {
    NoPadding(|run|);
    AddNothing(DigitText(Sextets(run), alphabet), Padding(|run|));
  }

  lemma NoPadding(n: nat)
    requires n % 3 == 0
    ensures Padding(n) == []
  {
    assert |Padding(n)| == (3 - n % 3) % 3 == 0;
  }

  lemma AddNothing(t: Bytes, nothing: Bytes)
    requires nothing == []
    ensures t + nothing == t
  {
  }

  lemma AlignmentIsVariant(needle: Bytes, value: Bytes, preceding: int, textForms: Bytes -> set<Bytes>)
    requires 0 <= preceding < 3 && needle in AlignmentNeedles(value, preceding)
    ensures needle in VariantSet(value, textForms)
  {
    AlignmentIsAligned(needle, value, preceding);
    InSecondPart(needle, WholeNeedles(value), Aligned(value), HexNeedles(value) + textForms(value));
  }

  lemma AlignmentIsAligned(needle: Bytes, value: Bytes, preceding: int)
    requires 0 <= preceding < 3 && needle in AlignmentNeedles(value, preceding)
    ensures needle in Aligned(value)
  {
    InAnyPart(needle, AlignmentNeedles(value, 0), AlignmentNeedles(value, 1), AlignmentNeedles(value, 2));
  }

  lemma InAnyPart<T>(x: T, a: set<T>, b: set<T>, c: set<T>)
    ensures x in a || x in b || x in c ==> x in a + b + c
  {
  }

  lemma InSecondPart<T>(x: T, a: set<T>, b: set<T>, c: set<T>)
    ensures x in b ==> x in a + b + c
  {
  }

  /** Whatever its length, the base64 of a secret alone is one of its needles. */
  lemma AloneIsVariant(value: Bytes, alphabet: Alphabet, padded: bool, textForms: Bytes -> set<Bytes>)
    ensures EncodedAlone(value, alphabet, padded) in VariantSet(value, textForms)
  {
    if !padded {
      StripDigits(Sextets(value), alphabet, (3 - |value| % 3) % 3);
      assert Padding(|value|) == seq((3 - |value| % 3) % 3, _ => EQUALS);
      AddNothing(DigitText(Sextets(value), alphabet), Tail(|value|, padded));
    }
    assert EncodedAlone(value, alphabet, padded) in WholeNeedles(value);
  }

  lemma EmbeddedNeedle(
    how: Embedding, left: Bytes, value: Bytes, right: Bytes, textForms: Bytes -> set<Bytes>)
    returns (needle: Bytes)
    requires Findable(how, left, value)
    ensures needle in VariantSet(value, textForms)
    ensures Occurs(needle, EmbeddedText(how, left, value, right))
  {
    match how
    case Raw =>
      needle := value;
      OccursInConcat(left, value, right);
    case Hex(upper) =>
      needle := HexText(value, upper);
      HexConcat(left + value, right, upper);
      HexConcat(left, value, upper);
      OccursInConcat(HexText(left, upper), needle, HexText(right, upper));
    case Base64Alone(alphabet, padded) =>
      needle := EncodedAlone(value, alphabet, padded);
      AloneIsVariant(value, alphabet, padded, textForms);
      OccursInConcat(left, needle, right);
    case Base64Stream(alphabet, padded) =>
      needle := AlignmentNeedleOccurs(value, left, right, alphabet);
      AlignmentIsVariant(needle, value, |left| % 3, textForms);
      var whole := left + value + right;
      OccursAppend(needle, DigitText(Sextets(whole), alphabet), Tail(|whole|, padded));
  }

  lemma NeedlesApply(value: Bytes, textForms: Bytes -> set<Bytes>)
    ensures NeedlesOf(textForms)(value) == VariantSet(value, textForms)
  {
  }

  lemma UnionCovers(needle: Bytes, value: Bytes, values: seq<Bytes>, needlesOf: Bytes -> set<Bytes>)
    requires value in values && needle in needlesOf(value)
    ensures needle in UnionOf(values, needlesOf)
  {
  }

  lemma NeedleIndex(
    needle: Bytes, value: Bytes, values: seq<Bytes>, needlesOf: Bytes -> set<Bytes>, needles: seq<Bytes>)
    returns (k: nat)
    requires value in values && needle in needlesOf(value)
    requires forall n :: n in UnionOf(values, needlesOf) ==> n in needles
    ensures k < |needles| && needles[k] == needle
  {
    UnionCovers(needle, value, values, needlesOf);
    k :| 0 <= k < |needles| && needles[k] == needle;
  }

  /** The contents hold a secret, written somewhere in one of the encodings with any bytes around it. */
  ghost predicate HoldsEncoded(values: seq<Bytes>, contents: Bytes) {
    exists how, left, value, right, before, after ::
      value in values && Findable(how, left, value) && Surrounds(contents, before, how, left, value, right, after)
  }

  /** The contents hold one of the spellings that a secret has as a text. */
  ghost predicate HoldsSpelling(values: seq<Bytes>, textForms: Bytes -> set<Bytes>, contents: Bytes) {
    exists value, spelling :: value in values && SpelledIn(value, textForms, spelling, contents)
  }

  ghost predicate SpelledIn(value: Bytes, textForms: Bytes -> set<Bytes>, spelling: Bytes, contents: Bytes) {
    spelling in textForms(value) && spelling != [] && Occurs(spelling, contents)
  }

  ghost predicate HoldsSecret(values: seq<Bytes>, textForms: Bytes -> set<Bytes>, contents: Bytes) {
    HoldsEncoded(values, contents) || HoldsSpelling(values, textForms, contents)
  }

  predicate Surrounds(
    contents: Bytes, before: Bytes, how: Embedding, left: Bytes, value: Bytes, right: Bytes, after: Bytes)
  {
    contents == before + EmbeddedText(how, left, value, right) + after
  }

  /**
   * A file holding any of the given secrets, raw, in hex, as base64 or base64url of the secret alone, in one
   * of its spellings as a text, or (from the bound of its alignment on) inside a base64 stream, is reported.
   */
  lemma ResidueScanComplete(
    values: seq<Bytes>, textForms: Bytes -> set<Bytes>, needles: seq<Bytes>, contents: Bytes)
    requires HoldsSecret(values, textForms, contents)
    requires forall n :: n in VariantUnion(values, textForms) ==> n in needles
    ensures FoundIn(needles, contents)
  {
    if HoldsEncoded(values, contents) {
      EncodedFound(values, textForms, needles, contents);
    } else {
      SpellingFound(values, textForms, needles, contents);
    }
  }

  lemma EncodedFound(values: seq<Bytes>, textForms: Bytes -> set<Bytes>, needles: seq<Bytes>, contents: Bytes)
    requires HoldsEncoded(values, contents)
    requires forall n :: n in VariantUnion(values, textForms) ==> n in needles
    ensures FoundIn(needles, contents)
  {
    var how, left, value, right, before, after :|
      value in values && Findable(how, left, value) && Surrounds(contents, before, how, left, value, right, after);
    var needle := EmbeddedNeedle(how, left, value, right, textForms);
    NeedlesApply(value, textForms);
    var k := NeedleIndex(needle, value, values, NeedlesOf(textForms), needles);
    OccursMonotone(needle, EmbeddedText(how, left, value, right), before, after);
    assert Occurs(needles[k], contents);
    EmbeddedNonEmpty(how, left, value, right);
  }

  lemma SpellingFound(values: seq<Bytes>, textForms: Bytes -> set<Bytes>, needles: seq<Bytes>, contents: Bytes)
    requires HoldsSpelling(values, textForms, contents)
    requires forall n :: n in VariantUnion(values, textForms) ==> n in needles
    ensures FoundIn(needles, contents)
  {
    var value, spelling :| value in values && SpelledIn(value, textForms, spelling, contents);
    SpellingIsVariant(value, textForms, spelling);
    var k := NeedleIndex(spelling, value, values, NeedlesOf(textForms), needles);
    assert Occurs(needles[k], contents);
    OccursSomewhere(spelling, contents);
  }

  lemma SpellingIsVariant(value: Bytes, textForms: Bytes -> set<Bytes>, spelling: Bytes)
    requires spelling in textForms(value)
    ensures spelling in NeedlesOf(textForms)(value)
  {
  }

  lemma OccursSomewhere(needle: Bytes, contents: Bytes)
    requires needle != [] && Occurs(needle, contents)
    ensures contents != []
  {
  }

  ghost predicate HoldsNeedle(values: seq<Bytes>, textForms: Bytes -> set<Bytes>, contents: Bytes) {
    exists n :: n in VariantUnion(values, textForms) && Occurs(n, contents)
  }

  lemma ScanMeans(values: seq<Bytes>, textForms: Bytes -> set<Bytes>, needles: seq<Bytes>, contents: Bytes)
    requires forall n :: n in needles <==> n in VariantUnion(values, textForms)
    ensures HoldsSecret(values, textForms, contents) ==> FoundIn(needles, contents)
    ensures FoundIn(needles, contents) ==> HoldsNeedle(values, textForms, contents)
  {
    if HoldsSecret(values, textForms, contents) {
      ResidueScanComplete(values, textForms, needles, contents);
    }
    if FoundIn(needles, contents) {
      var k :| 0 <= k < |needles| && Occurs(needles[k], contents);
      assert needles[k] in needles;
    }
  }

  datatype Scan = Scanned(found: bool) | NothingToFind

  /** The needles are made and one file is scanned: every findable secret in it is reported, in any split. */
  method ScanForSecrets(values: seq<Bytes>, textForms: Bytes -> set<Bytes>, chunks: seq<Bytes>) returns (r: Scan)
    requires [] !in chunks
    ensures r.NothingToFind? <==> [] in values
    ensures r.Scanned? && HoldsSecret(values, textForms, Flatten(chunks)) ==> r.found
    ensures r.Scanned? && r.found ==> HoldsNeedle(values, textForms, Flatten(chunks))
  {
    var built := SensitiveVariants(values, textForms);
    if built.EmptySecret? {
      return NothingToFind;
    }
    var found := FileContainsAny(chunks, built.needles);
    ScanMeans(values, textForms, built.needles, Flatten(chunks));
    return Scanned(found);
  }

  lemma EmbeddedNonEmpty(how: Embedding, left: Bytes, value: Bytes, right: Bytes)
    requires value != []
    ensures EmbeddedText(how, left, value, right) != []
  {
    assert |left + value + right| > 0 && |Sextets(value)| > 0;
  }

  /** The two alphabets differ in the last two digits: + and / against - and _. */
  lemma AlphabetsDiffer(d: Sextet)
    ensures DigitByte(62, Standard) == 43 && DigitByte(63, Standard) == 47
    ensures DigitByte(62, UrlSafe) == 45 && DigitByte(63, UrlSafe) == 95
    ensures d < 62 ==> DigitByte(d, Standard) == DigitByte(d, UrlSafe)
    ensures d < 26 ==> DigitByte(d, Standard) == 65 + d
    ensures 26 <= d < 52 ==> DigitByte(d, Standard) == 97 + (d - 26)
    ensures 52 <= d < 62 ==> DigitByte(d, Standard) == 48 + (d - 52)
  {
  }

  /** Both hexadecimal spellings of two bytes: 0f a5 and 0F A5. */
  lemma HexSpelling()
    ensures HexText([0x0F, 0xA5], false) == [48, 102, 97, 53] && HexText([0x0F, 0xA5], true) == [48, 70, 65, 53]
  {
    HexPair(0x0F, 0xA5, false);
    HexPair(0x0F, 0xA5, true);
  }

  lemma HexPair(x: Byte, y: Byte, upper: bool)
    ensures HexText([x, y], upper) ==
      [HexDigit(x / 16, upper), HexDigit(x % 16, upper), HexDigit(y / 16, upper), HexDigit(y % 16, upper)]
  {
    assert [x, y][1..] == [y] && [y][1..] == [];
    assert HexText([y], upper) == [HexDigit(y / 16, upper), HexDigit(y % 16, upper)] + HexText([], upper);
  }

  function ThirteenBytes(): Bytes {
    [255, 1, 2, 3, 4, 5, 6, 7, 8, 9, 10, 11, 12]
  }

  /** An unpadded base64 text around the secret, one other byte before it. */
  function MissedText(alphabet: Alphabet): Bytes {
    DigitText(Sextets([4] + ThirteenBytes()), alphabet)
  }

  lemma MissedTextHead(alphabet: Alphabet)
    ensures var t := MissedText(alphabet);
      && |t| == 19 && t[..4] == [66, 80, 56, 66] && forall i :: 0 <= i < |t| ==> t[i] < 128
  {
    var d := Sextets([4] + ThirteenBytes());
    assert d[..4] == Group(4, 255, 1) == [1, 15, 60, 1];
    forall i | 0 <= i < 4
      ensures MissedText(alphabet)[i] == DigitByte([1, 15, 60, 1][i], alphabet)
    {
      assert d[i] == d[..4][i];
    }
  }

  lemma {:induction false} StripDigits(digits: seq<Sextet>, alphabet: Alphabet, k: nat)
    ensures StripPadding(DigitText(digits, alphabet) + seq(k, _ => EQUALS)) == DigitText(digits, alphabet)
  {
    var t := DigitText(digits, alphabet);
    var text := t + seq(k, _ => EQUALS);
    if k == 0 {
      assert text == t;
    } else {
      assert text[..|text| - 1] == t + seq(k - 1, _ => EQUALS);
      StripDigits(digits, alphabet, k - 1);
    }
  }

  /** Every needle of the 13-byte secret is too long for the text or starts with a byte foreign to its head. */
  lemma MissedNeedleHeads(n: Bytes, textForms: Bytes -> set<Bytes>)
    requires textForms(ThirteenBytes()) == {}
    requires n in VariantSet(ThirteenBytes(), textForms)
    ensures Foreign(n)
  {
    var v := ThirteenBytes();
    VariantCases(n, v, textForms);
    if n in Aligned(v) {
      AlignedHeads(n);
    } else if n in HexNeedles(v) {
      HexLong(n, v);
    } else {
      WholeHeads(v, n);
    }
  }

  lemma VariantCases(n: Bytes, value: Bytes, textForms: Bytes -> set<Bytes>)
    ensures n in VariantSet(value, textForms) ==>
      n in WholeNeedles(value) || n in Aligned(value) || n in HexNeedles(value) || n in textForms(value)
  {
  }

  lemma HexLong(n: Bytes, value: Bytes)
    requires n in HexNeedles(value)
    ensures |n| == 2 * |value|
  {
  }

  predicate Foreign(n: Bytes) {
    |n| >= 20 || (|n| >= 1 && n[0] == 255) || (|n| >= 16 && n[0] in {65, 47, 95})
  }

  lemma AlignedHeads(n: Bytes)
    requires n in Aligned(ThirteenBytes())
    ensures Foreign(n)
  {
    var v := ThirteenBytes();
    if n in AlignmentNeedles(v, 0) {
      AlignmentHead(v, 0, n);
    } else if n in AlignmentNeedles(v, 1) {
      AlignmentHead(v, 1, n);
    } else {
      AlignmentHead(v, 2, n);
    }
  }

  lemma AlignmentHead(v: Bytes, preceding: int, n: Bytes)
    requires 0 <= preceding < 3 && |v| == 13 && v[0] == 255 && v[1] == 1
    requires n in AlignmentNeedles(v, preceding)
    ensures Foreign(n)
  {
    RunHead(InternalRun(v, preceding), n);
  }

  lemma WholeHeads(v: Bytes, n: Bytes)
    requires |v| == 13 && v[0] == 255 && n in WholeNeedles(v)
    ensures Foreign(n)
  {
    if n != v {
      EncodedHead(v, Standard);
      EncodedHead(v, UrlSafe);
    }
  }

  lemma EncodedHead(v: Bytes, alphabet: Alphabet)
    requires |v| == 13 && v[0] == 255
    ensures |Base64Text(v, alphabet)| == 20
    ensures |StripPadding(Base64Text(v, alphabet))| == 18
    ensures StripPadding(Base64Text(v, alphabet))[0] in {47, 95}
  {
    var d := Sextets(v);
    StripDigits(d, alphabet, 2);
    assert Padding(|v|) == seq(2, _ => EQUALS);
    assert d[0] == Group(v[0], v[1], v[2])[0] == 63;
  }

  lemma RunHead(run: Bytes, n: Bytes)
    requires |run| == 12 && (run[0] == 255 || run[0] == 1)
    requires n in {Base64Text(run, Standard), Base64Text(run, UrlSafe)}
    ensures Foreign(n)
  {
    var d := Sextets(run);
    assert d[..4] == Group(run[0], run[1], run[2]);
    assert d[0] == d[..4][0] == run[0] / 4;
  }

  lemma ForeignNeverOccurs(n: Bytes, t: Bytes)
    requires Foreign(n)
    requires |t| == 19 && t[..4] == [66, 80, 56, 66] && forall i :: 0 <= i < |t| ==> t[i] < 128
    ensures !Occurs(n, t)
  {
    forall i | 0 <= i <= |t|
      ensures !OccursAt(n, t, i)
    {
      if i + |n| <= |t| {
        assert t[i..i + |n|][0] == t[i];
        assert i < 4 ==> t[i] == t[..4][i];
      }
    }
  }

  /**
   * After one other byte the bound of fourteen is sharp: this 13-byte secret, which is not UTF-8, leaves no
   * needle in the base64 text that holds it.
   */
  lemma ThirteenBytesCanBeMissed(alphabet: Alphabet, textForms: Bytes -> set<Bytes>, n: Bytes)
    requires textForms(ThirteenBytes()) == {}
    requires n in VariantSet(ThirteenBytes(), textForms)
    ensures !Occurs(n, EmbeddedText(Base64Stream(alphabet, false), [4], ThirteenBytes(), []))
  {
    MissedTextHead(alphabet);
    MissedNeedleHeads(n, textForms);
    ForeignNeverOccurs(n, MissedText(alphabet));
    MissedIsEmbedded(alphabet);
  }

  lemma MissedIsEmbedded(alphabet: Alphabet)
    ensures EmbeddedText(Base64Stream(alphabet, false), [4], ThirteenBytes(), []) == MissedText(alphabet)
  {
    assert [4] + ThirteenBytes() + [] == [4] + ThirteenBytes();
  }
}
