/**
 * Fixed-width machine integers as bounded mathematical integers, their
 * little-endian byte layout, and the bitwise OR the pixel packer uses.
 */
module Bytes {

  type byte = x: int | 0 <= x < 0x100
  type u16 = x: int | 0 <= x < 0x1_0000
  type u32 = x: int | 0 <= x < 0x1_0000_0000
  type i32 = x: int | -0x8000_0000 <= x < 0x8000_0000

  function Zeros(n: nat): (z: seq<byte>)
    ensures |z| == n
    ensures forall i | 0 <= i < n :: z[i] == 0
  {
    seq(n, _ => 0)
  }

  function Pow2(k: nat): (p: nat)
    ensures p > 0
  {
    if k == 0 then 1 else 2 * Pow2(k - 1)
  }

  lemma {:induction false} Pow2Add(j: nat, k: nat)
    ensures Pow2(j + k) == Pow2(j) * Pow2(k)
  {
    if k > 0 {
      Pow2Add(j, k - 1);
      assert Pow2(j + k) == 2 * Pow2(j + k - 1);
    }
  }

  /** Division and remainder are determined by any quotient and in-range remainder. */
  lemma {:induction false} DivModOf(x: int, m: int, q: int, r: int)
    requires 0 < m && 0 <= r < m && x == q * m + r
    ensures x / m == q && x % m == r
  {
    var q', r' := x / m, x % m;
    if q' > q {
      MulGap(q', q, m);
      assert false;
    } else if q' < q {
      MulGap(q, q', m);
      assert false;
    }
  }

  /** Products by `m` of different integers are at least `m` apart. */
  lemma {:induction false} MulGap(a: int, b: int, m: int)
    requires a > b && m > 0
    ensures a * m - b * m >= m
  {
    MulAtLeast(a - b, m);
  }

  /** Scaling `b` by a fraction `a / m` of at most one does not exceed `b`. */
  lemma {:induction false} MulDivLe(a: nat, b: nat, m: nat)
    requires 0 < m && a <= m
    ensures a * b / m <= b
  {
    var q, r := a * b / m, a * b % m;
    assert a * b == q * m + r;
    if q > b {
      MulLe(b + 1, q, m);
      MulLe(a, m, b);
    }
  }

  lemma {:induction false} MulLe(x: nat, y: nat, m: nat)
    requires x <= y
    ensures x * m <= y * m
  {
  }

  lemma {:induction false} MulAtLeast(a: int, m: int)
    requires a >= 1 && m > 0
    ensures a * m >= m
  {
  }

  lemma {:induction false} AppendAssoc<T>(a: seq<T>, b: seq<T>, c: seq<T>)
    ensures (a + b) + c == a + (b + c)
  {
  }

  /** A prefix of `b` stays a prefix of `b + c`. */
  lemma {:induction false} AppendLast<T>(s: seq<T>, x: T)
    ensures |s + [x]| == |s| + 1 && (s + [x])[..|s|] == s && (s + [x])[|s|] == x
  {
  }

  lemma {:induction false} TakeNext<T>(s: seq<T>, k: nat)
    requires k < |s|
    ensures s[..k + 1] == s[..k] + [s[k]]
  {
  }

  lemma {:induction false} TakeAll<T>(s: seq<T>)
    ensures s[..|s|] == s
  {
  }

  /** Splitting off the last element of the second of two sequences. */
  lemma {:induction false} ConcatLast<T>(a: seq<T>, b: seq<T>)
    requires b != []
    ensures a + b == (a + b[..|b| - 1]) + [b[|b| - 1]]
  {
    assert b == b[..|b| - 1] + [b[|b| - 1]];
  }

  lemma {:induction false} ConcatEmpty<T>(a: seq<T>, b: seq<T>)
    requires b == []
    ensures a + b == a
  {
  }

  lemma {:induction false} PrefixAppend<T>(a: seq<T>, b: seq<T>, c: seq<T>)
    requires a <= b
    ensures a <= b + c
  {
    assert (b + c)[..|a|] == b[..|a|];
  }

  /** A slice inside a prefix is the same slice of the whole. */
  lemma {:induction false} PrefixSlice<T>(a: seq<T>, b: seq<T>, x: nat, y: nat)
    requires a <= b && x <= y <= |a|
    ensures b[x .. y] == a[x .. y]
  {
    assert a == b[..|a|];
  }

  /** A slice inside the left part of a concatenation. */
  lemma {:induction false} SliceLeft<T>(a: seq<T>, b: seq<T>, x: nat, y: nat)
    requires x <= y <= |a|
    ensures (a + b)[x .. y] == a[x .. y]
  {
  }

  /** A slice of a run that `b` holds at `at` is the matching slice of `b`. */
  lemma {:induction false} SliceWithin<T>(b: seq<T>, at: nat, s: seq<T>, x: nat, y: nat)
    requires at + |s| <= |b| && b[at .. at + |s|] == s && x <= y <= |s|
    ensures b[at + x .. at + y] == s[x .. y]
  {
    forall j | 0 <= j < y - x
      ensures b[at + x .. at + y][j] == s[x .. y][j]
    {
      assert b[at + x + j] == b[at .. at + |s|][x + j];
    }
  }

  lemma {:induction false} SliceAll<T>(s: seq<T>)
    ensures s[0 .. |s|] == s
  {
  }

  /** The right part of a concatenation, sliced back out. */
  lemma {:induction false} SliceRightAll<T>(a: seq<T>, b: seq<T>)
    ensures (a + b)[|a| .. |a| + |b|] == b
  {
  }

  /** A slice inside the right part of a concatenation. */
  lemma {:induction false} SliceRight<T>(a: seq<T>, b: seq<T>, x: nat, y: nat)
    requires |a| <= x <= y <= |a| + |b|
    ensures (a + b)[x .. y] == b[x - |a| .. y - |a|]
  {
  }

  /** A slice of the second part, seen from the start of the whole. */
  lemma {:induction false} SliceAfter<T>(a: seq<T>, b: seq<T>, lo: nat, hi: nat, x: nat, y: nat, c: seq<T>)
    requires lo <= hi <= |b| && b[lo .. hi] == c && x == |a| + lo && y == |a| + hi
    ensures y <= |a + b| && (a + b)[x .. y] == c
  {
    SliceRight(a, b, x, y);
  }

  /** A slice of the middle part of `a + b + c`, seen from the start of the whole. */
  lemma {:induction false} SliceMiddle<T>(a: seq<T>, b: seq<T>, c: seq<T>, lo: nat, hi: nat, x: nat, y: nat, d: seq<T>)
    requires lo <= hi <= |b| && b[lo .. hi] == d && x == |a| + lo && y == |a| + hi
    ensures y <= |a + b + c| && (a + b + c)[x .. y] == d
  {
    SliceAfter(a, b, lo, hi, x, y, d);
    SliceLeft(a + b, c, x, y);
  }

  // ---------------------------------------------------------------------------
  // Little-endian layout of 16- and 32-bit integers
  // ---------------------------------------------------------------------------

  /** The 16-bit word whose low byte is `lo` and high byte is `hi`. */
  function DecodeU16(lo: byte, hi: byte): u16
  {
    lo as int + 0x100 * hi as int
  }

  /** `u16::write_le`: low byte first. */
  function EncodeU16(w: u16): (b: seq<byte>)
    ensures |b| == 2
  {
    [w % 0x100, w / 0x100]
  }

  /** The two bytes of a word read back as that word. */
  lemma {:induction false} DecodeEncodeU16(w: u16)
    ensures DecodeU16(EncodeU16(w)[0], EncodeU16(w)[1]) == w
  {
  }

  lemma {:induction false} EncodeDecodeU16(lo: byte, hi: byte)
    ensures EncodeU16(DecodeU16(lo, hi)) == [lo, hi]
  {
  }

  function DecodeU32(b: seq<byte>): u32
    requires |b| == 4
  {
    b[0] as int + 0x100 * b[1] as int + 0x1_0000 * b[2] as int + 0x100_0000 * b[3] as int
  }

  /** `u32::write_le`: least significant byte first. */
  function EncodeU32(x: u32): (b: seq<byte>)
    ensures |b| == 4
  {
    var q1 := x / 0x100;
    var q2 := q1 / 0x100;
    var q3 := q2 / 0x100;
    [x % 0x100, q1 % 0x100, q2 % 0x100, q3]
  }

  /** The four bytes of an integer read back as that integer. */
  lemma {:induction false} DecodeEncodeU32(x: u32)
    ensures DecodeU32(EncodeU32(x)) == x
  {
    var q1 := x / 0x100;
    var q2 := q1 / 0x100;
    var q3 := q2 / 0x100;
    DivModOf(x, 0x100, q1, x % 0x100);
    DivModOf(q1, 0x100, q2, q1 % 0x100);
    DivModOf(q2, 0x100, q3, q2 % 0x100);
  }

  /** Every four bytes are the encoding of the integer they decode to. */
  lemma {:induction false} EncodeDecodeU32(b: seq<byte>)
    requires |b| == 4
    ensures EncodeU32(DecodeU32(b)) == b
  {
    var x := DecodeU32(b);
    var q1, q2 := b[1] as int + 0x100 * b[2] as int + 0x1_0000 * b[3] as int, b[2] as int + 0x100 * b[3] as int;
    DivModOf(x, 0x100, q1, b[0]);
    DivModOf(q1, 0x100, q2, b[1]);
    DivModOf(q2, 0x100, b[3], b[2]);
  }

  /** `i32::read_le`: the u32 reinterpreted in two's complement. */
  function DecodeI32(b: seq<byte>): i32
    requires |b| == 4
  {
    var u := DecodeU32(b);
    if u < 0x8000_0000 then u else u - 0x1_0000_0000
  }

  /** `i32::write_le`: the two's complement bit pattern, least significant byte first. */
  function EncodeI32(x: i32): (b: seq<byte>)
    ensures |b| == 4
  {
    EncodeU32(if x >= 0 then x else x + 0x1_0000_0000)
  }

  lemma {:induction false} DecodeEncodeI32(x: i32)
    ensures DecodeI32(EncodeI32(x)) == x
  {
    DecodeEncodeU32(if x >= 0 then x else x + 0x1_0000_0000);
  }

  lemma {:induction false} EncodeDecodeI32(b: seq<byte>)
    requires |b| == 4
    ensures EncodeI32(DecodeI32(b)) == b
  {
    EncodeDecodeU32(b);
  }

  // ---------------------------------------------------------------------------
  // Bitwise OR
  // ---------------------------------------------------------------------------

  /** `x | y` on non-negative integers, bit by bit from the least significant end. */
  function Or(x: nat, y: nat): (r: nat)
    ensures x <= r && y <= r && r <= x + y
    decreases x + y
  {
    if x == 0 then y
    else if y == 0 then x
    else 2 * Or(x / 2, y / 2) + (if x % 2 == 1 || y % 2 == 1 then 1 else 0)
  }

  /** The powers of two the pixel packer shifts by. */
  lemma {:induction false} Pow2Shifts()
    ensures Pow2(1) == 0x2 && Pow2(4) == 0x10 && Pow2(5) == 0x20 && Pow2(6) == 0x40
    ensures Pow2(8) == 0x100 && Pow2(11) == 0x800 && Pow2(12) == 0x1000
  {
    assert Pow2(4) == 0x10;
    assert Pow2(6) == 0x40;
    Pow2Add(4, 4);
    Pow2Add(6, 5);
    Pow2Add(8, 4);
  }

  /**
   * OR-ing a value shifted left by `k` (multiplied by `m`, which is `2^k`)
   * with a value of fewer than `k` bits sets disjoint bits, so it is plain
   * addition.
   */
  lemma {:induction false} OrDisjoint(x: nat, y: nat, k: nat, m: nat)
    requires m == Pow2(k) && y < m
    ensures Or(x * m, y) == x * m + y
  {
    if k == 0 || x == 0 || y == 0 {
    } else {
      var h := Pow2(k - 1);
      var a := x * m;
      assert a == 2 * (x * h);
      assert a / 2 == x * h && a % 2 == 0;
      assert y / 2 < h;
      OrDisjoint(x, y / 2, k - 1, h);
      assert Or(a, y) == 2 * (x * h + y / 2) + y % 2;
    }
  }
}
