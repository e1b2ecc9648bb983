/** Little-endian fields and zero-terminated strings in a byte string. */
module Binary {
  import opened Bytes

  datatype Option<T> = None | Some(value: T)

  function U16(data: Bytes, at: nat): nat
    requires at + 2 <= |data|
  {
    (data[at] as int) + 256 * (data[at + 1] as int)
  }

  function U32(data: Bytes, at: nat): nat
    requires at + 4 <= |data|
  {
    U16(data, at) + 0x1_0000 * U16(data, at + 2)
  }

  function U64(data: Bytes, at: nat): nat
    requires at + 8 <= |data|
  {
    U32(data, at) + 0x1_0000_0000 * U32(data, at + 4)
  }

  /** The bytes of a number, least significant first. */
  function LittleEndian(n: nat, width: nat): (b: Bytes)
    ensures |b| == width
  {
    if width == 0 then [] else [n % 256] + LittleEndian(n / 256, width - 1)
  }

  predicate Holds(data: Bytes, at: nat, part: Bytes) {
    at + |part| <= |data| && data[at..at + |part|] == part
  }

  lemma HoldsParts(data: Bytes, at: nat, a: Bytes, b: Bytes)
    ensures Holds(data, at, a + b) <==> Holds(data, at, a) && Holds(data, at + |a|, b)
  {
    if Holds(data, at, a + b) {
      assert data[at..at + |a|] == data[at..at + |a + b|][..|a|] == a;
      assert data[at + |a|..at + |a| + |b|] == data[at..at + |a + b|][|a|..] == b;
    }
    if Holds(data, at, a) && Holds(data, at + |a|, b) {
      assert data[at..at + |a + b|] == data[at..at + |a|] + data[at + |a|..at + |a| + |b|];
    }
  }

  lemma TwoBytes(n: nat)
    requires n < 0x1_0000
    ensures LittleEndian(n, 2) == [n % 256, n / 256]
  {
    assert LittleEndian(n / 256, 1) == [n / 256 % 256] + LittleEndian(n / 256 / 256, 0);
  }

  lemma {:induction false} Divides(n: nat, k: nat)
    requires k > 0
    ensures n / 256 / k == n / (256 * k)
  {
    var q, r := n / 256, n % 256;
    var p, t := q / k, q % k;
    assert n == 256 * (k * p + t) + r;
    assert n == (256 * k) * p + (256 * t + r) by {
      assert 256 * (k * p) == (256 * k) * p;
    }
    QuotientIs(n, 256 * k, p, 256 * t + r);
  }

  lemma Larger(d: nat, a: nat, b: nat)
    ensures a < b ==> d * a + d <= d * b
  {
    if a < b {
      assert d * a + d == d * (a + 1);
    }
  }

  lemma QuotientIs(n: nat, d: nat, q: nat, r: nat)
    requires d > 0 && n == d * q + r && r < d
    ensures n / d == q && n % d == r
  {
    var a, b := n / d, n % d;
    assert n == d * a + b;
    Larger(d, a, q);
    Larger(d, q, a);
  }

  function Power256(k: nat): (p: nat)
    ensures p > 0
  {
    if k == 0 then 1 else 256 * Power256(k - 1)
  }

  /** What is left of a number without its low bytes. */
  function Upper(n: nat, k: nat): nat {
    if k == 0 then n else Upper(n / 256, k - 1)
  }

  /** A layout is the layout of its low bytes followed by that of the rest. */
  lemma {:induction false} LayoutSplits(n: nat, k: nat, width: nat)
    ensures LittleEndian(n, k + width) == LittleEndian(n, k) + LittleEndian(Upper(n, k), width)
  {
    if k > 0 {
      LayoutSplits(n / 256, k - 1, width);
    }
  }

  lemma {:induction false} UpperIs(n: nat, k: nat)
    ensures Upper(n, k) == n / Power256(k)
  {
    if k > 0 {
      UpperIs(n / 256, k - 1);
      Divides(n, Power256(k - 1));
    }
  }

  lemma LowByte(n: nat, p: nat)
    requires p > 0
    ensures n % (256 * p) % 256 == n % 256 && n % (256 * p) / 256 == n / 256 % p
  {
    var q, s := n / 256 / p, n / 256 % p;
    var r := 256 * s + n % 256;
    assert n / 256 == p * q + s;
    assert n == 256 * (n / 256) + n % 256;
    assert 256 * (p * q) == (256 * p) * q;
    QuotientIs(n, 256 * p, q, r);
    QuotientIs(r, 256, s, n % 256);
  }

  /** The low bytes of a number are the layout of its remainder. */
  lemma {:induction false} LayoutOfRemainder(n: nat, k: nat)
    ensures LittleEndian(n % Power256(k), k) == LittleEndian(n, k)
  {
    if k > 0 {
      LowByte(n, Power256(k - 1));
      LayoutOfRemainder(n / 256, k - 1);
    }
  }

  lemma Halves(n: nat, k: nat)
    ensures LittleEndian(n, 2 * k) == LittleEndian(n % Power256(k), k) + LittleEndian(Upper(n, k), k)
  {
    LayoutSplits(n, k, k);
    LayoutOfRemainder(n, k);
  }

  /** A two-byte field reads as the number whose little-endian layout stands there. */
  lemma ReadsTwo(data: Bytes, at: nat, n: nat)
    requires n < 0x1_0000 && at + 2 <= |data|
    ensures U16(data, at) == n <==> Holds(data, at, LittleEndian(n, 2))
  {
    TwoBytes(n);
    var part := data[at..at + 2];
    assert part[0] == data[at] && part[1] == data[at + 1];
    if U16(data, at) == n {
      QuotientIs(n, 256, data[at + 1], data[at]);
      assert part == LittleEndian(n, 2);
    }
  }

  lemma ReadsFour(data: Bytes, at: nat, n: nat)
    requires n < 0x1_0000_0000 && at + 4 <= |data|
    ensures U32(data, at) == n <==> Holds(data, at, LittleEndian(n, 4))
  {
    var low, high := n % 0x1_0000, n / 0x1_0000;
    assert Power256(2) == 0x1_0000;
    Halves(n, 2);
    UpperIs(n, 2);
    HoldsParts(data, at, LittleEndian(low, 2), LittleEndian(high, 2));
    ReadsTwo(data, at, low);
    ReadsTwo(data, at + 2, high);
    if U32(data, at) == n {
      QuotientIs(n, 0x1_0000, U16(data, at + 2), U16(data, at));
    }
  }

  lemma ReadsEight(data: Bytes, at: nat, n: nat)
    requires n < 0x1_0000_0000_0000_0000 && at + 8 <= |data|
    ensures U64(data, at) == n <==> Holds(data, at, LittleEndian(n, 8))
  {
    var low, high := n % 0x1_0000_0000, n / 0x1_0000_0000;
    assert Power256(4) == 0x1_0000_0000;
    Halves(n, 4);
    UpperIs(n, 4);
    HoldsParts(data, at, LittleEndian(low, 4), LittleEndian(high, 4));
    ReadsFour(data, at, low);
    ReadsFour(data, at + 4, high);
    if U64(data, at) == n {
      QuotientIs(n, 0x1_0000_0000, U32(data, at + 4), U32(data, at));
    }
  }

  /** Whether the bit worth `weight` is set. */
  predicate Bit(value: nat, weight: nat)
    requires weight > 0
  {
    (value / weight) % 2 == 1
  }

  function Ascii(s: string): Bytes {
    seq(|s|, i requires 0 <= i < |s| => (s[i] as int) % 256)
  }

  /** Python's `data.find(b"\\0", from, limit)`: the first zero byte before the limit, or -1. */
  method FindZero(data: Bytes, from: nat, limit: nat) returns (end: int)
    requires limit <= |data|
    ensures end == -1 || from <= end < limit
    ensures end >= 0 ==> data[end] == 0 && forall i :: from <= i < end ==> data[i] != 0
    ensures end < 0 ==> forall i :: from <= i < limit ==> data[i] != 0
  {
    end := from;
    while end < limit
      invariant from <= end && (from <= limit ==> end <= limit)
      invariant forall i :: from <= i < end && i < limit ==> data[i] != 0
    {
      if data[end] == 0 {
        return;
      }
      end := end + 1;
    }
    end := -1;
  }

  predicate FirstZeroAt(data: Bytes, from: nat, end: nat) {
    from <= end < |data| && data[end] == 0 && forall i :: from <= i < end ==> data[i] != 0
  }

  /** The bytes from `from` up to the first zero byte before `limit`. */
  predicate IsTerminated(data: Bytes, from: nat, limit: nat, text: Bytes) {
    && from + |text| < limit <= |data| && text == data[from..from + |text|]
    && FirstZeroAt(data, from, from + |text|)
  }

  /** There is at most one such text. */
  lemma TerminatedUnique(data: Bytes, from: nat, limit: nat, text: Bytes, other: Bytes)
    requires IsTerminated(data, from, limit, text) && IsTerminated(data, from, limit, other)
    ensures text == other
  {
  }

  method ReadTerminated(data: Bytes, from: nat, limit: nat) returns (r: Option<Bytes>)
    requires limit <= |data|
    ensures r.Some? ==> IsTerminated(data, from, limit, r.value)
    ensures r.None? ==> forall text :: !IsTerminated(data, from, limit, text)
  {
    var end := FindZero(data, from, limit);
    if end < 0 {
      return None;
    }
    r := Some(data[from..end]);
  }
}
