/** Bytes, big-endian 32-bit integers, powers of two and the "high bit" runs
    that the pack format uses for its self-terminating varints. */
module Bytes {

  /** An unsigned 8-bit value. The bit operations of `transform` on bytes are written as the
      equivalent arithmetic: `b >> k` is `b / 2^k`, `b & (2^k - 1)` is `b % 2^k`. */
  type byte = x: int | 0 <= x < 256

  datatype Option<T> = None | Some(value: T)

  const U32: nat := 0x1_0000_0000
  const U64: nat := 0x1_0000_0000_0000_0000

  function Min(a: nat, b: nat): nat { if a <= b then a else b }

  /** The value of four bytes read most significant first (`read_u32::<BigEndian>`). */
  function FromBE32(s: seq<byte>): (v: nat)
    requires |s| == 4
    ensures v < U32
  {
    ((s[0] as int * 256 + s[1]) * 256 + s[2]) * 256 + s[3]
  }

  /** The four bytes of a 32-bit value, most significant first (`write_u32::<BigEndian>`). */
  function ToBE32(v: nat): (s: seq<byte>)
    requires v < U32
    ensures |s| == 4
  {
    [v / 256 / 256 / 256, v / 256 / 256 % 256, v / 256 % 256, v % 256]
  }

  /** The base-256 digits of a 32-bit value. */
  lemma Digits(v: nat)
    requires v < U32
    ensures v / 256 / 256 / 256 < 256
    ensures v == ((v / 256 / 256 / 256 * 256 + v / 256 / 256 % 256) * 256 + v / 256 % 256) * 256 + v % 256
  {
    var x1 := v / 256;
    var x2 := x1 / 256;
  }

  /** A value assembled from four digits has those digits. */
  lemma DigitsOf(v: nat, a: nat, b: nat, c: nat, d: nat)
    requires a < 256 && b < 256 && c < 256 && d < 256
    requires v == ((a * 256 + b) * 256 + c) * 256 + d
    ensures v / 256 / 256 / 256 == a && v / 256 / 256 % 256 == b && v / 256 % 256 == c && v % 256 == d
  {
    var x2 := a * 256 + b;
    var x1 := x2 * 256 + c;
    assert v / 256 == x1;
    assert x1 / 256 == x2;
    assert x2 / 256 == a;
  }

  /** Writing a value and reading it back gives the value. */
  lemma BE32RoundTrip(v: nat)
    requires v < U32
    ensures FromBE32(ToBE32(v)) == v
  {
    Digits(v);
  }

  /** Reading four bytes and writing the value back gives the same four bytes. */
  lemma BE32Canonical(s: seq<byte>)
    requires |s| == 4
    ensures ToBE32(FromBE32(s)) == s
  {
    DigitsOf(FromBE32(s), s[0], s[1], s[2], s[3]);
  }

  function Pow2(n: nat): (r: nat)
    ensures r >= 1
  {
    if n == 0 then 1 else 2 * Pow2(n - 1)
  }

  lemma {:induction false} Pow2Add(a: nat, b: nat)
    ensures Pow2(a + b) == Pow2(a) * Pow2(b)
  {
    if b > 0 {
      Pow2Add(a, b - 1);
      assert Pow2(a + b) == 2 * Pow2(a + b - 1);
    }
  }

  /** `x << k` on unbounded integers. */
  function Shl(x: nat, k: nat): nat {
    if k == 0 then x else 2 * Shl(x, k - 1)
  }

  lemma {:induction false} ShlMul(x: nat, k: nat)
    ensures Shl(x, k) == x * Pow2(k)
  {
    if k > 0 {
      ShlMul(x, k - 1);
    }
  }

  lemma {:induction false} Pow2Monotone(a: nat, b: nat)
    requires a <= b
    ensures Pow2(a) <= Pow2(b)
  {
    if a < b {
      Pow2Monotone(a, b - 1);
    }
  }

  /** Bit 7 of a byte (`b >> 7 == 1`, `b & 0x80 != 0`): "more bytes follow" in every
      varint of the pack format. */
  predicate HighBit(b: byte) {
    b >= 0x80
  }

  /** The index of the first byte of `s` whose high bit is clear, or |s| if there is none:
      a varint that starts at s[0] ends at that index. */
  function FirstClear(s: seq<byte>): (r: nat)
    ensures r <= |s|
  {
    if s == [] || !HighBit(s[0]) then 0 else 1 + FirstClear(s[1..])
  }

  /** Every byte before FirstClear(s) has its high bit set, and the byte at it does not. */
  lemma {:induction false} FirstClearSpec(s: seq<byte>)
    ensures forall j :: 0 <= j < FirstClear(s) ==> HighBit(s[j])
    ensures FirstClear(s) < |s| ==> !HighBit(s[FirstClear(s)])
  {
    if s != [] && HighBit(s[0]) {
      FirstClearSpec(s[1..]);
      forall j | 0 <= j < FirstClear(s)
        ensures HighBit(s[j])
      {
        if j > 0 {
          assert s[j] == s[1..][j - 1];
        }
      }
    }
  }

  /** The two properties of FirstClear determine it. */
  lemma {:induction false} FirstClearIs(s: seq<byte>, m: nat)
    requires m <= |s|
    requires forall j :: 0 <= j < m ==> HighBit(s[j])
    requires m < |s| ==> !HighBit(s[m])
    ensures FirstClear(s) == m
  {
    if m > 0 {
      FirstClearIs(s[1..], m - 1);
    }
  }

  /** A run of m high-bit bytes at the front puts the first clear byte at m or later. */
  lemma {:induction false} FirstClearAtLeast(s: seq<byte>, m: nat)
    requires m <= |s|
    requires forall j :: 0 <= j < m ==> HighBit(s[j])
    ensures FirstClear(s) >= m
  {
    if m > 0 {
      FirstClearAtLeast(s[1..], m - 1);
    }
  }

  /** Bytes after the first clear byte do not move it. */
  lemma FirstClearExtend(s: seq<byte>, t: seq<byte>)
    requires FirstClear(s) < |s|
    ensures FirstClear(s + t) == FirstClear(s)
  {
    var m := FirstClear(s);
    FirstClearSpec(s);
    assert forall j :: 0 <= j <= m ==> (s + t)[j] == s[j];
    FirstClearIs(s + t, m);
  }
}
