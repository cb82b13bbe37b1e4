/** Bytes, fixed-width arithmetic and the little/big-endian readers every walker is built on.
    Machine words are integers in their width's range: `x >> k & (2^w - 1)` is written
    `x / 2^k % 2^w`, and `|` is the function BitOr. */
module Bytes {
  datatype Option<+T> = None | Some(value: T) {
    predicate IsFailure() {
      None?
    }

    function PropagateFailure<U>(): Option<U>
      requires None?
    {
      None
    }

    function Extract(): T
      requires Some?
    {
      value
    }
  }

  const U32: int := 0x1_0000_0000
  const U63: int := 0x8000_0000_0000_0000
  const U64: int := 0x1_0000_0000_0000_0000

  type byte = b: int | 0 <= b < 0x100
  type u16 = n: int | 0 <= n < 0x1_0000
  type u32 = n: int | 0 <= n < 0x1_0000_0000
  type u64 = n: int | 0 <= n < 0x1_0000_0000_0000_0000
  type i32 = n: int | -0x8000_0000 <= n < 0x8000_0000
  type i64 = n: int | -0x8000_0000_0000_0000 <= n < 0x8000_0000_0000_0000

  // ----- u64 and i64 arithmetic -----

  function CheckedAdd(a: nat, b: nat): Option<u64> {
    if a + b < U64 then Some(a + b) else None
  }

  /** x modulo 2^64. */
  function Wrap64(x: nat): u64 {
    x % 0x1_0000_0000_0000_0000
  }

  function CheckedMul(a: nat, b: nat): Option<u64> {
    if a * b < U64 then Some(a * b) else None
  }

  function SatAdd(a: u64, b: u64): u64 {
    if a + b < U64 then a + b else U64 - 1
  }

  function SatMul(a: nat, b: nat): u64 {
    if a * b < U64 then a * b else U64 - 1
  }

  function SatAddSigned(a: i64, b: i64): i64 {
    if a + b >= U63 then U63 - 1 else if a + b < -U63 then -U63 else a + b
  }

  /** The i64 with the given two's-complement bit pattern. */
  function ToI64(bits: u64): i64 {
    if bits < U63 then bits else bits - U64
  }

  /** The next multiple of four. */
  function RoundUp4(n: nat): nat {
    (n + 3) / 4 * 4
  }

  // ----- sequences -----

  lemma {:induction false} Assoc<T>(a: seq<T>, b: seq<T>, c: seq<T>)
    ensures a + b + c == a + (b + c)
    ensures a + b + [] == a + b
  {
  }

  // ----- powers of two and bitwise or -----

  function Pow2(k: nat): (p: nat)
    ensures p > 0
  {
    if k == 0 then 1 else 2 * Pow2(k - 1)
  }

  lemma {:induction false} Pow2Add(a: nat, b: nat)
    ensures Pow2(a + b) == Pow2(a) * Pow2(b)
  {
    if a > 0 {
      Pow2Add(a - 1, b);
      assert Pow2(a + b) == 2 * Pow2((a - 1) + b);
    }
  }

  lemma {:induction false} Pow2Mono(a: nat, b: nat)
    requires a <= b
    ensures Pow2(a) <= Pow2(b)
  {
    if a < b {
      Pow2Mono(a, b - 1);
    }
  }

  lemma {:induction false} MulLe(a: nat, b: nat, p: nat)
    requires a <= b
    ensures a * p <= b * p
  {
  }

  lemma {:induction false} DivUnique(x: nat, d: nat, q: nat, r: nat)
    requires r < d && x == r + d * q
    ensures x / d == q && x % d == r
  {
    var k, m := x / d, x % d;
    DivModSum(x, d);
    if k > q {
      MulLe(q + 1, k, d);
    } else if k < q {
      MulLe(k + 1, q, d);
    }
  }

  lemma {:induction false} DivModSum(x: nat, d: nat)
    requires d > 0
    ensures x == d * (x / d) + x % d && x % d < d
  {
  }

  /** A word of three parts, cut at two units. */
  lemma {:induction false} Cut(slot: nat, low: nat, mid: nat, high: nat, unit: nat, size: nat)
    requires low < unit && mid < size && slot == low + unit * (mid + size * high)
    ensures slot % unit == low
    ensures slot / unit % size == mid
  {
    var rest := mid + size * high;
    assert slot / unit == rest && slot % unit == low by {
      DivUnique(slot, unit, rest, low);
    }
    DivUnique(rest, size, high, mid);
  }

  lemma {:induction false} Pow2Double(k: nat, p: nat)
    requires Pow2(k) == p
    ensures Pow2(k + k) == p * p
  {
    Pow2Add(k, k);
  }

  lemma {:induction false} Pow2Small(k: nat)
    requires k <= 8
    ensures k == 6 ==> Pow2(k) == 0x40
    ensures k == 7 ==> Pow2(k) == 0x80
    ensures k == 8 ==> Pow2(k) == 0x100
  {
  }

  lemma {:induction false} Pow2Next(k: nat)
    ensures Pow2(k + 1) == 2 * Pow2(k)
  {
  }

  /** The powers the word widths need. */
  lemma {:induction false} Pow2Is(k: nat)
    ensures k == 6 ==> Pow2(k) == 0x40
    ensures k == 7 ==> Pow2(k) == 0x80
    ensures k == 8 ==> Pow2(k) == 0x100
    ensures k == 16 ==> Pow2(k) == 0x1_0000
    ensures k == 32 ==> Pow2(k) == 0x1_0000_0000
    ensures k == 63 ==> Pow2(k) == 0x8000_0000_0000_0000
    ensures k == 64 ==> Pow2(k) == 0x1_0000_0000_0000_0000
  {
    hide *;
    if k <= 8 {
      Pow2Small(k);
    } else {
      Pow2Small(8);
      Pow2Double(8, 0x100);
      Pow2Double(16, 0x1_0000);
      Pow2Double(32, 0x1_0000_0000);
      Pow2Next(63);
    }
  }

  function BitOr(a: nat, b: nat): nat
    decreases a + b
  {
    if a == 0 then b
    else if b == 0 then a
    else (if a % 2 == 1 || b % 2 == 1 then 1 else 0) + 2 * BitOr(a / 2, b / 2)
  }

  /** Or-ing a chunk above the bits already present adds it. */
  lemma {:induction false} BitOrDisjoint(low: nat, high: nat, k: nat)
    requires low < Pow2(k)
    ensures BitOr(low, high * Pow2(k)) == low + high * Pow2(k)
  {
    if low != 0 && high * Pow2(k) != 0 {
      assert high * Pow2(k) == 2 * (high * Pow2(k - 1)) by {
        assert Pow2(k) == 2 * Pow2(k - 1);
      }
      BitOrDisjoint(low / 2, high, k - 1);
    }
  }

  // ----- byte order -----

  function LeNat(bs: seq<byte>): nat {
    if bs == [] then 0 else bs[0] + 256 * LeNat(bs[1..])
  }

  function BeNat(bs: seq<byte>): nat {
    if bs == [] then 0 else 256 * BeNat(bs[..|bs| - 1]) + bs[|bs| - 1]
  }

  function LeBytes(v: nat, n: nat): (bs: seq<byte>)
    ensures |bs| == n
  {
    if n == 0 then [] else [v % 256] + LeBytes(v / 256, n - 1)
  }

  function BeBytes(v: nat, n: nat): (bs: seq<byte>)
    ensures |bs| == n
  {
    if n == 0 then [] else BeBytes(v / 256, n - 1) + [v % 256]
  }

  lemma {:induction false} LeNatBound(bs: seq<byte>)
    ensures LeNat(bs) < Pow2(8 * |bs|)
  {
    if bs != [] {
      LeNatBound(bs[1..]);
      Pow2Add(8, 8 * |bs[1..]|);
      Pow2Is(8);
    }
  }

  lemma {:induction false} BeNatBound(bs: seq<byte>)
    ensures BeNat(bs) < Pow2(8 * |bs|)
  {
    if bs != [] {
      BeNatBound(bs[..|bs| - 1]);
      Pow2Add(8, 8 * (|bs| - 1));
      Pow2Is(8);
    }
  }

  lemma {:induction false} LeRoundTrip(v: nat, n: nat)
    requires v < Pow2(8 * n)
    ensures LeNat(LeBytes(v, n)) == v
  {
    if n > 0 {
      Pow2Add(8, 8 * (n - 1));
      Pow2Is(8);
      LeRoundTrip(v / 256, n - 1);
    }
  }

  lemma {:induction false} BeRoundTrip(v: nat, n: nat)
    requires v < Pow2(8 * n)
    ensures BeNat(BeBytes(v, n)) == v
  {
    if n > 0 {
      Pow2Add(8, 8 * (n - 1));
      Pow2Is(8);
      BeRoundTrip(v / 256, n - 1);
      var bs := BeBytes(v, n);
      assert bs[..n - 1] == BeBytes(v / 256, n - 1);
    }
  }

  // A slice is at most isize::MAX bytes long, so an offset whose end overflows usize is past the
  // end of `data` as well: `off + n <= |data|` decides both.

  function ReadU16Le(data: seq<byte>, off: nat): Option<u16> {
    if off + 2 <= |data| then
      LeNatBound(data[off..off + 2]);
      Pow2Is(8 * |data[off..off + 2]|);
      Some(LeNat(data[off..off + 2]))
    else None
  }

  function ReadU32Le(data: seq<byte>, off: nat): Option<u32> {
    if off + 4 <= |data| then
      LeNatBound(data[off..off + 4]);
      Pow2Is(8 * |data[off..off + 4]|);
      Some(LeNat(data[off..off + 4]))
    else None
  }

  function ReadU64Le(data: seq<byte>, off: nat): Option<u64> {
    if off + 8 <= |data| then
      LeNatBound(data[off..off + 8]);
      Pow2Is(8 * |data[off..off + 8]|);
      Some(LeNat(data[off..off + 8]))
    else None
  }

  function ReadU32Be(data: seq<byte>, off: nat): Option<u32> {
    if off + 4 <= |data| then
      BeNatBound(data[off..off + 4]);
      Pow2Is(8 * |data[off..off + 4]|);
      Some(BeNat(data[off..off + 4]))
    else None
  }
}
