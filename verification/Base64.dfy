/** Base64 over six-bit digits, and the canonical base64url of the RPC client (RFC 4648, sections 4, 5). */
module Base64 {
  import opened Bytes

  type Sextet = x: int | 0 <= x < 64

  /** The six-bit digits of a byte string, before padding. */
  function Sextets(b: Bytes): (r: seq<Sextet>)
    ensures |r| == (4 * |b| + 2) / 3
  {
    if |b| == 0 then []
    else if |b| == 1 then Group(b[0], 0, 0)[..2]
    else if |b| == 2 then Group(b[0], b[1], 0)[..3]
    else Group(b[0], b[1], b[2]) + Sextets(b[3..])
  }

  function Group(x: Byte, y: Byte, z: Byte): (r: seq<Sextet>)
    ensures |r| == 4
  {
    [x / 4, x % 4 * 16 + y / 16, y % 16 * 4 + z / 64, z % 64]
  }

  /** Whole three-byte groups encode independently of whatever follows them. */
  lemma {:induction false} SextetsConcat(a: Bytes, b: Bytes)
    requires |a| % 3 == 0
    ensures Sextets(a + b) == Sextets(a) + Sextets(b)
  {
    if a == [] {
      assert a + b == b;
    } else {
      assert (a + b)[3..] == a[3..] + b;
      SextetsConcat(a[3..], b);
    }
  }

  /**
   * The digits of an aligned run of whole groups stand verbatim in the digits of any larger string,
   * provided the run starts on a group border.
   */
  lemma AlignedSextetsOccur(before: Bytes, run: Bytes, after: Bytes)
    requires |before| % 3 == 0 && |run| % 3 == 0
    ensures Sextets(before + run + after) == Sextets(before) + Sextets(run) + Sextets(after)
  {
    var rest := run + after;
    assert before + run + after == before + rest;
    SextetsConcat(before, rest);
    SextetsConcat(run, after);
    assert Sextets(before) + (Sextets(run) + Sextets(after)) == Sextets(before) + Sextets(run) + Sextets(after);
  }

  // ---- Alphabets -----------------------------------------------------------------------------

  function UrlChar(d: Sextet): (c: char) {
    if d < 26 then (d + 65) as char
    else if d < 52 then (d + 71) as char
    else if d < 62 then (d - 4) as char
    else if d == 62 then '-' else '_'
  }

  function StdChar(d: Sextet): (c: char) {
    if d == 62 then '+' else if d == 63 then '/' else UrlChar(d)
  }

  predicate IsUrlChar(c: char) {
    'A' <= c <= 'Z' || 'a' <= c <= 'z' || '0' <= c <= '9' || c == '-' || c == '_'
  }

  function UrlDigit(c: char): (d: Sextet)
    requires IsUrlChar(c)
    ensures UrlChar(d) == c
  {
    if 'A' <= c <= 'Z' then c as int - 65
    else if 'a' <= c <= 'z' then c as int - 71
    else if '0' <= c <= '9' then c as int + 4
    else if c == '-' then 62 else 63
  }

  lemma UrlCharDigit(d: Sextet)
    ensures IsUrlChar(UrlChar(d)) && UrlDigit(UrlChar(d)) == d
  {
  }

  /** The alphabets of RFC 4648: A to Z, a to z, 0 to 9 in order, then the two characters they differ in. */
  lemma AlphabetsAreRfc(d: Sextet)
    ensures StdChar(0) == 'A' && StdChar(25) == 'Z' && StdChar(26) == 'a' && StdChar(51) == 'z'
    ensures StdChar(52) == '0' && StdChar(61) == '9' && StdChar(62) == '+' && StdChar(63) == '/'
    ensures UrlChar(62) == '-' && UrlChar(63) == '_' && (d < 62 ==> UrlChar(d) == StdChar(d))
    ensures d + 1 < 62 && d !in {25, 51} ==> StdChar(d + 1) as int == StdChar(d) as int + 1
  {
  }

  /** The bits of a group in order: three bytes are four digits of the same number. */
  lemma GroupIsNumber(x: Byte, y: Byte, z: Byte)
    ensures var g := Group(x, y, z); var p: int, q: int, r: int, t: int := g[0], g[1], g[2], g[3];
      0x40000 * p + 0x1000 * q + 0x40 * r + t == 0x10000 * x as int + 0x100 * y as int + z as int
  {
  }

  // ---- The client's base64url codec --------------------------------------------------------

  datatype CodecError = ExceedsLimit | InvalidField | NotCanonical

  datatype Decoded = Accepted(value: Bytes) | Rejected(error: CodecError)

  datatype Encoded = Text(text: string) | Refused(error: CodecError)

  function UrlText(b: Bytes): (s: string)
    ensures |s| == (4 * |b| + 2) / 3
  {
    var digits := Sextets(b);
    seq(|digits|, i requires 0 <= i < |digits| => UrlChar(digits[i]))
  }

  function EncodeBase64url(value: Bytes, maximum: int): Encoded {
    if |value| > maximum then Refused(ExceedsLimit) else Text(UrlText(value))
  }

  /** The lenient byte decoding underneath: trailing bits of a final partial group are dropped. */
  function Unpack(digits: seq<Sextet>): (b: Bytes)
    requires |digits| % 4 != 1
    ensures |b| == 3 * |digits| / 4
  {
    if |digits| == 0 then []
    else if |digits| == 2 then Ungroup(digits[0], digits[1], 0, 0)[..1]
    else if |digits| == 3 then Ungroup(digits[0], digits[1], digits[2], 0)[..2]
    else
      FourFewer(|digits|);
      Ungroup(digits[0], digits[1], digits[2], digits[3]) + Unpack(digits[4..])
  }

  lemma FourFewer(n: nat)
    requires n > 3
    ensures (n - 4) % 4 == n % 4 && 3 + 3 * (n - 4) / 4 == 3 * n / 4
  {
    var m := n - 4;
    QuotientMoves(m, m / 4, m % 4, 1);
    QuotientMoves(3 * m, 3 * m / 4, 3 * m % 4, 3);
  }

  lemma QuotientMoves(m: nat, q: nat, r: nat, k: nat)
    requires m == 4 * q + r && r < 4
    ensures (m + 4 * k) / 4 == q + k && (m + 4 * k) % 4 == r
  {
    assert m + 4 * k == 4 * (q + k) + r;
  }

  function Ungroup(p: Sextet, q: Sextet, r: Sextet, s: Sextet): (b: Bytes)
    ensures |b| == 3
  {
    var x: Byte := p * 4 + q / 16;
    var y: Byte := q % 16 * 16 + r / 4;
    var z: Byte := r % 4 * 64 + s;
    [x, y, z]
  }

  lemma UngroupGroup(x: Byte, y: Byte, z: Byte)
    ensures var g := Group(x, y, z); Ungroup(g[0], g[1], g[2], g[3]) == [x, y, z]
  {
    var g := Group(x, y, z);
    var b := Ungroup(g[0], g[1], g[2], g[3]);
    assert b[0] == x && b[1] == y && b[2] == z;
  }

  lemma GroupUngroup(p: Sextet, q: Sextet, r: Sextet, s: Sextet)
    ensures var b := Ungroup(p, q, r, s); Group(b[0], b[1], b[2]) == [p, q, r, s]
  {
    var b := Ungroup(p, q, r, s);
    assert b[0] / 4 == p;
    assert b[0] % 4 * 16 + b[1] / 16 == q;
    assert b[1] % 16 * 4 + b[2] / 64 == r;
    assert b[2] % 64 == s;
  }

  predicate IsUrlText(s: string) {
    forall i :: 0 <= i < |s| ==> IsUrlChar(s[i])
  }

  function UrlDigits(s: string): (d: seq<Sextet>)
    requires IsUrlText(s)
    ensures |d| == |s|
  {
    seq(|s|, i requires 0 <= i < |s| => UrlDigit(s[i]))
  }

  function DecodeBase64url(value: string, maximum: int): Decoded {
    if !IsUrlText(value) then Rejected(InvalidField)
    else if |value| > (maximum + 2) / 3 * 4 then Rejected(ExceedsLimit)
    else if |value| % 4 == 1 then Rejected(InvalidField)
    else
      var decoded := Unpack(UrlDigits(value));
      if |decoded| > maximum || EncodeBase64url(decoded, maximum) != Text(value) then Rejected(NotCanonical)
      else Accepted(decoded)
  }

  /** The trailing bits of a final partial group are zero (section 3.5 of RFC 4648). */
  predicate ZeroTail(digits: seq<Sextet>) {
    && (|digits| % 4 == 2 ==> digits[|digits| - 1] % 16 == 0)
    && (|digits| % 4 == 3 ==> digits[|digits| - 1] % 4 == 0)
  }

  lemma {:induction false} UnpackSextets(b: Bytes)
    ensures |Sextets(b)| % 4 != 1 && ZeroTail(Sextets(b))
    ensures Unpack(Sextets(b)) == b
  {
    if |b| == 0 {
    } else if |b| == 1 {
      UngroupGroup(b[0], 0, 0);
    } else if |b| == 2 {
      UngroupGroup(b[0], b[1], 0);
    } else {
      var rest := Sextets(b[3..]);
      UnpackSextets(b[3..]);
      UngroupGroup(b[0], b[1], b[2]);
      GroupPrepend(Group(b[0], b[1], b[2]), rest);
      assert b == [b[0], b[1], b[2]] + b[3..];
    }
  }

  lemma GroupPrepend(g: seq<Sextet>, rest: seq<Sextet>)
    requires |g| == 4 && |rest| % 4 != 1
    ensures |g + rest| % 4 != 1
    ensures Unpack(g + rest) == Ungroup(g[0], g[1], g[2], g[3]) + Unpack(rest)
    ensures ZeroTail(g + rest) <==> ZeroTail(rest)
  {
    var d := g + rest;
    assert |d| % 4 == |rest| % 4;
    assert d[4..] == rest;
    ZeroTailPrepend(g, rest);
  }

  lemma ZeroTailPrepend(g: seq<Sextet>, rest: seq<Sextet>)
    requires |g| == 4
    ensures ZeroTail(g + rest) <==> ZeroTail(rest)
  {
    AddFour(|rest|);
    if rest != [] {
      LastOfSum(g, rest);
    }
  }

  lemma AddFour(n: nat)
    ensures (4 + n) % 4 == n % 4
  {
  }

  lemma LastOfSum(g: seq<Sextet>, rest: seq<Sextet>)
    requires rest != []
    ensures (g + rest)[|g + rest| - 1] == rest[|rest| - 1]
  {
  }

  /** A digit string is the image of some byte string exactly when its tail bits vanish. */
  lemma {:induction false} SextetsUnpack(d: seq<Sextet>)
    requires |d| % 4 != 1
    ensures Sextets(Unpack(d)) == d <==> ZeroTail(d)
  {
    if |d| == 0 {
    } else if |d| == 2 {
      PartialTwo(d[0], d[1]);
      assert d == [d[0], d[1]];
    } else if |d| == 3 {
      PartialThree(d[0], d[1], d[2]);
      assert d == [d[0], d[1], d[2]];
    } else {
      SextetsUnpack(d[4..]);
      assert d == d[..4] + d[4..];
      WholeGroup(d[..4], d[4..]);
      GroupPrepend(d[..4], d[4..]);
    }
  }

  lemma WholeGroup(g: seq<Sextet>, rest: seq<Sextet>)
    requires |g| == 4 && |rest| % 4 != 1
    ensures |g + rest| % 4 != 1
    ensures Sextets(Unpack(g + rest)) == g + rest <==> Sextets(Unpack(rest)) == rest
  {
    var head, tail := Ungroup(g[0], g[1], g[2], g[3]), Unpack(rest);
    GroupPrepend(g, rest);
    GroupUngroup(g[0], g[1], g[2], g[3]);
    SextetsConcat(head, tail);
    assert head[3..] == [];
    assert Sextets(head) == g;
    assert (g + Sextets(tail))[4..] == Sextets(tail);
    assert (g + rest)[4..] == rest;
  }

  lemma PartialTwo(p: Sextet, q: Sextet)
    ensures var x := Ungroup(p, q, 0, 0)[0]; Group(x, 0, 0)[..2] == [p, q - q % 16]
  {
    var x := Ungroup(p, q, 0, 0)[0];
    SplitHigh(p, q, x);
    var g := Group(x, 0, 0);
    assert g[0] == p;
    assert g[1] == x % 4 * 16;
  }

  lemma SplitHigh(p: int, q: int, x: int)
    requires 0 <= p < 64 && 0 <= q < 64 && x == p * 4 + q / 16
    ensures x / 4 == p && x % 4 * 16 == q - q % 16
  {
  }

  lemma PartialThree(p: Sextet, q: Sextet, r: Sextet)
    ensures var b := Ungroup(p, q, r, 0); Group(b[0], b[1], 0)[..3] == [p, q, r - r % 4]
  {
    var b := Ungroup(p, q, r, 0);
    var x: int, y: int := b[0], b[1];
    SplitMiddle(q, r, y);
    SplitHigh(p, q, x);
    var g := Group(b[0], b[1], 0);
    assert g[0] == p;
    assert g[1] == x % 4 * 16 + y / 16;
    assert g[2] == y % 16 * 4;
  }

  lemma SplitMiddle(q: int, r: int, y: int)
    requires 0 <= q < 64 && 0 <= r < 64 && y == q % 16 * 16 + r / 4
    ensures y / 16 == q % 16 && y % 16 * 4 == r - r % 4
  {
  }

  lemma UrlTextDigits(b: Bytes)
    ensures IsUrlText(UrlText(b)) && UrlDigits(UrlText(b)) == Sextets(b)
  {
    var d := Sextets(b);
    forall i | 0 <= i < |d|
      ensures IsUrlChar(UrlText(b)[i]) && UrlDigit(UrlText(b)[i]) == d[i]
    {
      UrlCharDigit(d[i]);
    }
  }

  lemma DigitsUrlText(s: string, b: Bytes)
    requires IsUrlText(s)
    ensures UrlText(b) == s <==> Sextets(b) == UrlDigits(s)
  {
    if UrlText(b) == s {
      UrlTextDigits(b);
    }
  }

  /** decode(encode(b)) == b for every byte string within the bound. */
  lemma DecodeAfterEncode(b: Bytes, maximum: int)
    requires |b| <= maximum
    ensures EncodeBase64url(b, maximum) == Text(UrlText(b))
    ensures DecodeBase64url(UrlText(b), maximum) == Accepted(b)
  {
    UrlTextDigits(b);
    UnpackSextets(b);
  }

  /** encode(decode(s)) == s for every accepted text. */
  lemma EncodeAfterDecode(s: string, maximum: int)
    requires DecodeBase64url(s, maximum).Accepted?
    ensures EncodeBase64url(DecodeBase64url(s, maximum).value, maximum) == Text(s)
  {
    DecodeAccepts(s, maximum);
    DigitsUrlText(s, Unpack(UrlDigits(s)));
  }

  /**
   * The accepted texts, written as conditions a sender can check: alphabet, length class, zero
   * trailing bits and the bound on the decoded length. The early length test rejects nothing else.
   */
  lemma DecodeAccepts(s: string, maximum: int)
    ensures DecodeBase64url(s, maximum).Accepted? <==>
      IsUrlText(s) && |s| % 4 != 1 && ZeroTail(UrlDigits(s)) && 3 * |s| / 4 <= maximum
  {
    if IsUrlText(s) && |s| % 4 != 1 {
      var d := UrlDigits(s);
      SextetsUnpack(d);
      DigitsUrlText(s, Unpack(d));
    }
  }

  /** The accepted set is exactly the encodings of the byte strings up to the maximum. */
  lemma AcceptedAreEncodings(s: string, maximum: int)
    ensures DecodeBase64url(s, maximum).Accepted? <==> exists b: Bytes :: |b| <= maximum && UrlText(b) == s
  {
    if DecodeBase64url(s, maximum).Accepted? {
      EncodeAfterDecode(s, maximum);
      assert UrlText(DecodeBase64url(s, maximum).value) == s;
    }
    forall b: Bytes | |b| <= maximum && UrlText(b) == s
      ensures DecodeBase64url(s, maximum).Accepted?
    {
      DecodeAfterEncode(b, maximum);
    }
  }
}
