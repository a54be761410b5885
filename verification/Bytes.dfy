/** Machine words as the Go code sees them: bytes, little-endian integers, fixed-width wrap-around,
    bit operations, and writes into a buffer at an offset. */
module Bytes {

  type byte = x: int | 0 <= x < 256
  type Bytes = seq<byte>

  datatype Option<+T> = None | Some(value: T)
  datatype Result<+T> = Ok(value: T) | Err

  /** How a Go call ends: with a value, with an error, or with a run-time panic. */
  datatype Outcome<+T> = Done(value: T) | Failed | Panics {
    predicate IsFailure() { !Done? }
    function PropagateFailure<U>(): Outcome<U>
      requires IsFailure()
    {
      if Failed? then Failed else Panics
    }
    function Extract(): T
      requires Done?
    {
      value
    }
  }

  const TWO16 := 0x1_0000
  const TWO32 := 0x1_0000_0000
  const TWO63 := 0x8000_0000_0000_0000
  const TWO64 := 0x1_0000_0000_0000_0000

  /** uint64(x) */
  function ToUint64(x: int): nat { x % TWO64 }

  /** int64(x): two's complement */
  function ToInt64(x: int): int {
    if -TWO63 <= x < TWO63 then x
    else
      var u := x % TWO64;
      if u < TWO63 then u else u - TWO64
  }

  lemma ToInt64Small(x: int)
    requires -TWO63 <= x < TWO63
    ensures ToInt64(x) == x
  {
  }

  lemma ToInt64Fixed(x: int)
    ensures -TWO63 <= ToInt64(x) < TWO63 && (ToInt64(x) == x <==> -TWO63 <= x < TWO63)
  {
  }

  lemma ToInt64Injective(x: nat, y: nat)
    requires x < TWO64 && y < TWO64
    ensures ToInt64(x) == ToInt64(y) <==> x == y
  {
  }

  /** The sum of two non-negative int64 values wraps to a negative number when it does not fit. */
  lemma ToInt64Wraps(x: int)
    requires TWO63 <= x < TWO64
    ensures ToInt64(x) == x - TWO64 < 0
  {
  }

  // ----- little-endian integers; the encoders truncate, as uint16(x) and uint32(x) do -----

  function LE16(v: nat): (b: Bytes)
    ensures |b| == 2
  {
    [v % 256, v / 256 % 256]
  }

  function LE32(v: nat): (b: Bytes)
    ensures |b| == 4
  {
    LE16(v % TWO16) + LE16(v / TWO16)
  }

  function U16(s: Bytes, off: nat): (v: nat)
    requires off + 2 <= |s|
    ensures v < TWO16
  {
    var lo: int, hi: int := s[off], s[off + 1];
    lo + 256 * hi
  }

  function U32(s: Bytes, off: nat): (v: nat)
    requires off + 4 <= |s|
    ensures v < TWO32
  {
    U16(s, off) + TWO16 * U16(s, off + 2)
  }

  function Zeros(n: nat): (b: Bytes)
    ensures |b| == n
    ensures forall i :: 0 <= i < n ==> b[i] == 0
  {
    seq(n, _ => 0)
  }

  // ----- what stands where in a buffer -----

  /** The bytes t stand at offset off of s. */
  predicate At(s: Bytes, off: nat, t: Bytes) {
    off + |t| <= |s| && s[off..off + |t|] == t
  }

  /** s with the bytes at off overwritten by t. */
  function Splice(s: Bytes, off: nat, t: Bytes): (r: Bytes)
    requires off + |t| <= |s|
    ensures |r| == |s|
  {
    s[..off] + t + s[off + |t|..]
  }

  /** Two adjacent writes are one. */
  lemma SpliceMore(b: Bytes, off: nat, t: Bytes, u: Bytes)
    requires off + |t| + |u| <= |b|
    ensures Splice(Splice(b, off, t), off + |t|, u) == Splice(b, off, t + u)
  {
  }

  lemma SpliceSame(b: Bytes, lo: nat, hi: nat)
    requires lo <= hi <= |b|
    ensures Splice(b, lo, b[lo..hi]) == b
  {
  }

  lemma SpliceThere(b: Bytes, lo: nat, hi: nat, t: Bytes, r: Bytes)
    requires lo <= hi <= |b| && |t| == hi - lo && r == Splice(b, lo, t)
    ensures r[lo..hi] == t
  {
  }

  /** Bytes left alone behind a write can be counted as written. */
  lemma SpliceKept(b: Bytes, start: nat, t: Bytes, kept: Bytes)
    requires start + |t| + |kept| <= |b| && kept == b[start + |t|..start + |t| + |kept|]
    ensures Splice(b, start, t) == Splice(b, start, t + kept)
  {
    assert Splice(b, start + |t|, kept) == b;
    SpliceMore(b, start, t, kept);
  }

  lemma SpliceNothing(b: Bytes, start: nat)
    requires start <= |b|
    ensures Splice(b, start, []) == b
  {
  }

  lemma SubSlice(b: Bytes, lo: nat, hi: nat, i: nat, j: nat)
    requires lo <= hi <= |b| && i <= j <= hi - lo
    ensures b[lo..hi][i..j] == b[lo + i..lo + j]
  {
    var x, y := b[lo..hi][i..j], b[lo + i..lo + j];
    forall k | 0 <= k < |x| ensures x[k] == y[k] { assert x[k] == b[lo..hi][i + k]; }
  }

  lemma HeadAndTail(b: Bytes, off: nat, h: Bytes, t: Bytes)
    requires At(b, off, h + t)
    ensures off + |h| + |t| <= |b| && b[off..off + |h|] == h && At(b, off, h) && At(b, off + |h|, t)
  {
    var x := h + t;
    assert b[off..off + |x|] == x;
    SubSlice(b, off, off + |x|, 0, |h|);
    SubSlice(b, off, off + |x|, |h|, |x|);
    assert x[0..|h|] == h && x[|h|..|x|] == t;
  }

  lemma PartOf(b: Bytes, off: nat, x: Bytes, i: nat, t: Bytes)
    requires At(b, off, x) && At(x, i, t)
    ensures At(b, off + i, t)
  {
    SubSlice(b, off, off + |x|, i, i + |t|);
  }

  /** The parts of what stands somewhere stand one behind the other. */
  lemma InsideOf(c: Bytes, base: nat, x: Bytes, y: Bytes, z: Bytes)
    requires At(c, base, x + y + z)
    ensures At(c, base, x) && At(c, base + |x|, y) && At(c, base + |x| + |y|, z)
  {
    var w := x + y + z;
    SubSlice(c, base, base + |w|, 0, |x|);
    SubSlice(c, base, base + |w|, |x|, |x| + |y|);
    SubSlice(c, base, base + |w|, |x| + |y|, |w|);
    assert w[..|x|] == x && w[|x|..|x| + |y|] == y && w[|x| + |y|..] == z;
  }

  lemma AtEnds(c: Bytes, offset: nat, t: Bytes)
    requires At(c, offset, t)
    ensures offset + |t| <= |c|
  {
  }

  lemma PrefixAt(c: Bytes, base: nat, t: Bytes, s: Bytes)
    requires At(c, base, t) && s <= t
    ensures At(c, base, s)
  {
    assert c[base..base + |t|][..|s|] == c[base..base + |s|];
  }

  /** A write just in front of another. */
  lemma SpliceBefore(b: Bytes, off: nat, t: Bytes, u: Bytes)
    requires off + |t| + |u| <= |b|
    ensures Splice(Splice(b, off + |t|, u), off, t) == Splice(b, off, t + u)
  {
  }

  /** Reading back a 16-bit or 32-bit integer gives the integer modulo the width. */
  lemma ReadLE16(s: Bytes, off: nat, v: nat)
    requires At(s, off, LE16(v))
    ensures U16(s, off) == v % TWO16
  {
    assert s[off..off + 2][0] == LE16(v)[0] && s[off..off + 2][1] == LE16(v)[1];
  }

  lemma ReadLE32(s: Bytes, off: nat, v: nat)
    requires At(s, off, LE32(v))
    ensures U32(s, off) == v % TWO32
  {
    var lo, hi := LE16(v % TWO16), LE16(v / TWO16);
    assert s[off..off + 2] == s[off..off + 4][..2] == (lo + hi)[..2] == lo;
    assert s[off + 2..off + 4] == s[off..off + 4][2..] == (lo + hi)[2..] == hi;
    ReadLE16(s, off, v % TWO16);
    ReadLE16(s, off + 2, v / TWO16);
    WordFromHalves(v);
  }

  /** Values that fit are read back as they are. */
  lemma ReadWord16(s: Bytes, off: nat, v: nat)
    requires At(s, off, LE16(v)) && v < TWO16
    ensures U16(s, off) == v
  {
    ReadLE16(s, off, v);
  }

  lemma ReadWord32(s: Bytes, off: nat, v: nat)
    requires At(s, off, LE32(v)) && v < TWO32
    ensures U32(s, off) == v
  {
    ReadLE32(s, off, v);
  }

  lemma WordFromHalves(v: nat)
    ensures v % TWO16 % TWO16 + TWO16 * (v / TWO16 % TWO16) == v % TWO32
  {
  }

  /** Equal bytes at a range give equal integers. */
  lemma SameBytesSameWord(s: Bytes, t: Bytes, off: nat)
    requires off + 4 <= |s| && off + 4 <= |t|
    requires s[off..off + 4] == t[off..off + 4]
    ensures U32(s, off) == U32(t, off) && U16(s, off) == U16(t, off)
  {
    var a, b := s[off..off + 4], t[off..off + 4];
    assert a[0] == b[0] && a[1] == b[1] && a[2] == b[2] && a[3] == b[3];
  }

  /** The buffer write every encoder uses: copy(b[off:], t). */
  method Put(b: array<byte>, off: nat, t: Bytes)
    requires off + |t| <= b.Length
    modifies b
    ensures b[..] == Splice(old(b[..]), off, t)
  {
    var i := 0;
    while i < |t|
      invariant 0 <= i <= |t|
      invariant b[..] == Splice(old(b[..]), off, t[..i])
    {
      b[off + i] := t[i];
      i := i + 1;
    }
    assert t[..|t|] == t;
  }

  // ----- bit operations, one bit at a time -----

  /** Bit k of a, the test a & (1 << k) != 0. */
  predicate Bit(a: nat, k: nat) {
    if k == 0 then a % 2 == 1 else Bit(a / 2, k - 1)
  }

  function Xor(a: nat, b: nat): nat
    decreases a + b
  {
    if a == 0 && b == 0 then 0 else (a % 2 + b % 2) % 2 + 2 * Xor(a / 2, b / 2)
  }

  function And(a: nat, b: nat): nat {
    if a == 0 then 0 else (a % 2) * (b % 2) + 2 * And(a / 2, b / 2)
  }

  function Or(a: nat, b: nat): nat
    decreases a + b
  {
    if a == 0 && b == 0 then 0 else (if a % 2 == 1 || b % 2 == 1 then 1 else 0) + 2 * Or(a / 2, b / 2)
  }

  function Pow2(n: nat): (p: nat)
    ensures p > 0
  {
    if n == 0 then 1 else 2 * Pow2(n - 1)
  }

  lemma {:induction false} XorBound(a: nat, b: nat, n: nat)
    requires a < Pow2(n) && b < Pow2(n)
    ensures Xor(a, b) < Pow2(n)
    decreases n
  {
    if n > 0 && (a > 0 || b > 0) { XorBound(a / 2, b / 2, n - 1); }
  }

  lemma {:induction false} OrBound(a: nat, b: nat, n: nat)
    requires a < Pow2(n) && b < Pow2(n)
    ensures Or(a, b) < Pow2(n)
    decreases n
  {
    if n > 0 && (a > 0 || b > 0) { OrBound(a / 2, b / 2, n - 1); }
  }

  lemma {:induction false} Pow2Add(m: nat, n: nat)
    ensures Pow2(m + n) == Pow2(m) * Pow2(n)
  {
    if m > 0 { Pow2Add(m - 1, n); }
  }

  /** The widths in use. */
  lemma Widths()
    ensures Pow2(8) == 256 && Pow2(16) == TWO16 && Pow2(32) == TWO32
  {
    assert Pow2(4) == 16;
    Pow2Add(4, 4);
    Pow2Add(8, 8);
    Pow2Add(16, 16);
  }

  function XorByte(a: byte, b: byte): byte {
    assert Pow2(8) == 256 by { assert Pow2(4) == 16; }
    XorBound(a, b, 8);
    Xor(a, b)
  }

  lemma {:induction false} BitZero(k: nat)
    ensures !Bit(0, k)
  {
    if k > 0 { BitZero(k - 1); }
  }

  lemma {:induction false} BitAnd(a: nat, b: nat, k: nat)
    ensures Bit(And(a, b), k) <==> Bit(a, k) && Bit(b, k)
    decreases k
  {
    if a == 0 {
      BitZero(k);
    } else if k > 0 {
      BitAnd(a / 2, b / 2, k - 1);
    }
  }

  lemma {:induction false} BitOr(a: nat, b: nat, k: nat)
    ensures Bit(Or(a, b), k) <==> Bit(a, k) || Bit(b, k)
    decreases k
  {
    hide Or;
    OrStep(a, b);
    if k > 0 { BitOr(a / 2, b / 2, k - 1); }
  }

  lemma OrStep(a: nat, b: nat)
    ensures (Or(a, b) % 2 == 1 <==> a % 2 == 1 || b % 2 == 1) && Or(a, b) / 2 == Or(a / 2, b / 2)
  {
    hide Or;
    OrUnfolds(a, b);
    LowDigit(if a % 2 == 1 || b % 2 == 1 then 1 else 0, Or(a / 2, b / 2));
  }

  lemma OrUnfolds(a: nat, b: nat)
    ensures Or(a, b) == (if a % 2 == 1 || b % 2 == 1 then 1 else 0) + 2 * Or(a / 2, b / 2)
  {
  }

  /** A number is determined by its bits. */
  lemma {:induction false} SameBits(a: nat, b: nat)
    requires forall k: nat :: Bit(a, k) == Bit(b, k)
    ensures a == b
    decreases a + b
  {
    assert Bit(a, 0) == Bit(b, 0);
    if a > 0 || b > 0 {
      forall k: nat ensures Bit(a / 2, k) == Bit(b / 2, k) {
        assert Bit(a, k + 1) == Bit(b, k + 1);
      }
      SameBits(a / 2, b / 2);
    }
  }

  lemma {:induction false} BitXor(a: nat, b: nat, k: nat)
    ensures Bit(Xor(a, b), k) <==> Bit(a, k) != Bit(b, k)
    decreases k
  {
    hide Xor;
    XorStep(a, b);
    if k > 0 { BitXor(a / 2, b / 2, k - 1); }
  }

  lemma XorStep(a: nat, b: nat)
    ensures (Xor(a, b) % 2 == 1 <==> (a % 2 == 1) != (b % 2 == 1)) && Xor(a, b) / 2 == Xor(a / 2, b / 2)
  {
    hide Xor;
    XorUnfolds(a, b);
    LowDigit((a % 2 + b % 2) % 2, Xor(a / 2, b / 2));
  }

  lemma XorUnfolds(a: nat, b: nat)
    ensures Xor(a, b) == (a % 2 + b % 2) % 2 + 2 * Xor(a / 2, b / 2)
  {
  }

  lemma LowDigit(d: nat, n: nat)
    requires d < 2
    ensures (d + 2 * n) % 2 == d && (d + 2 * n) / 2 == n
  {
  }

  /** Exclusive or with the same operand twice is the identity. */
  lemma XorTwice(a: nat, b: nat)
    ensures Xor(Xor(a, b), b) == a
  {
    forall k: nat ensures Bit(Xor(Xor(a, b), b), k) == Bit(a, k) {
      BitXor(Xor(a, b), b, k);
      BitXor(a, b, k);
    }
    SameBits(Xor(Xor(a, b), b), a);
  }

  lemma AndSelf(a: nat)
    ensures And(a, a) == a
  {
    forall k: nat ensures Bit(And(a, a), k) == Bit(a, k) { BitAnd(a, a, k); }
    SameBits(And(a, a), a);
  }

  lemma OrSubset(a: nat, b: nat)
    requires forall k: nat :: Bit(b, k) ==> Bit(a, k)
    ensures Or(a, b) == a
  {
    forall k: nat ensures Bit(Or(a, b), k) == Bit(a, k) { BitOr(a, b, k); }
    SameBits(Or(a, b), a);
  }

  lemma OrNothing(a: nat)
    ensures Or(a, 0) == a && Or(0, a) == a
  {
    hide Or;
    forall k: nat ensures Bit(Or(a, 0), k) == Bit(a, k) && Bit(Or(0, a), k) == Bit(a, k) {
      BitOr(a, 0, k);
      BitOr(0, a, k);
      BitZero(k);
    }
    SameBits(Or(a, 0), a);
    SameBits(Or(0, a), a);
  }

  /** A number below 2^n has no bit n or higher. */
  lemma {:induction false} NoHighBits(a: nat, n: nat, k: nat)
    requires a < Pow2(n) && n <= k
    ensures !Bit(a, k)
    decreases k
  {
    if n == 0 { BitZero(k); } else { NoHighBits(a / 2, n - 1, k - 1); }
  }

  /** A multiple of 2^n has none of the low n bits; 2^n - 1 has them all. */
  lemma {:induction false} LowBits(m: nat, n: nat, k: nat)
    requires k < n
    ensures !Bit(m * Pow2(n), k) && Bit(Pow2(n) - 1, k)
    decreases n
  {
    var half := m * Pow2(n - 1);
    assert m * Pow2(n) == 2 * half;
    if k > 0 { LowBits(m, n - 1, k - 1); }
  }

  // ----- Align and roundup, for the two alignments in use: (n + a - 1) &^ (a - 1) -----

  function Align4(n: nat): (r: nat)
    ensures n <= r < n + 4
  {
    (n + 3) / 4 * 4
  }

  function Align8(n: nat): (r: nat)
    ensures n <= r < n + 8
  {
    (n + 7) / 8 * 8
  }
}
