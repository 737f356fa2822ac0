/** Machine integers, byte strings and the few sequence helpers every other module uses. */
module Prelude {

  datatype Option<+T> = None | Some(value: T)

  datatype Result<+T, +E> = Ok(value: T) | Err(error: E)

  /** The ways a read, seek or decryption can fail. */
  datatype Error =
    | MissingEntry(name: string)
    | IndexOffsetOverflow
    | IndexTooSmall(slot: nat)
    | BoundsOverflow
    | BoundsExceedBevy(start: nat, end: nat, size: nat)
    | DecodeFailed
    | SeekBeforeStart
    | EmptySegmentIndex
    | ChunkIdOverflow
    | SegmentOverflow

  const TWO_32: int := 0x1_0000_0000
  const TWO_63: int := 0x8000_0000_0000_0000
  const TWO_64: int := 0x1_0000_0000_0000_0000

  type Byte = x: int | 0 <= x < 256
  type u32 = x: int | 0 <= x < TWO_32
  type u64 = x: int | 0 <= x < TWO_64
  type i64 = x: int | -TWO_63 <= x < TWO_63
  type Positive64 = x: int | 0 < x < TWO_64 witness 1

  /** What a single 64-bit add or subtract leaves in the register of a release build. */
  function Wrap64(x: int): u64
    requires -TWO_64 <= x < 2 * TWO_64
  {
    if x < 0 then x + TWO_64 else if x < TWO_64 then x else x - TWO_64
  }

  /** The signed reading of a 64-bit word (`as i64`). */
  function AsI64(x: u64): i64 {
    if x < TWO_63 then x else x - TWO_64
  }

  function Min(a: int, b: int): int {
    if a < b then a else b
  }

  function Max(a: int, b: int): int {
    if a < b then b else a
  }

  function Fill(n: nat, b: Byte): (s: seq<Byte>)
    ensures |s| == n && forall i :: 0 <= i < n ==> s[i] == b
  {
    seq(n, _ => b)
  }

  /** Flattening, in order. */
  function Concat(parts: seq<seq<Byte>>): seq<Byte> {
    if parts == [] then [] else parts[0] + Concat(parts[1..])
  }

  lemma {:induction false} ConcatAppend(a: seq<seq<Byte>>, b: seq<seq<Byte>>)
    ensures Concat(a + b) == Concat(a) + Concat(b)
  {
    if a == [] {
      assert a + b == b;
    } else {
      assert (a + b)[1..] == a[1..] + b;
      ConcatAppend(a[1..], b);
    }
  }

  lemma ConcatSnoc(a: seq<seq<Byte>>, x: seq<Byte>)
    ensures Concat(a + [x]) == Concat(a) + x
  {
    ConcatAppend(a, [x]);
    assert Concat([x]) == x + Concat([]);
  }

  lemma SliceShift(a: seq<Byte>, b: seq<Byte>, i: nat, n: nat)
    requires i + n <= |b|
    ensures (a + b)[|a| + i..|a| + i + n] == b[i..i + n]
  {
  }

  lemma SliceOfSlice(s: seq<Byte>, from: nat, n: nat, i: nat, m: nat)
    requires from + n <= |s| && i + m <= n
    ensures s[from + i..from + i + m] == s[from..from + n][i..i + m]
  {
    var inner := s[from..from + n];
    var a, b := s[from + i..from + i + m], inner[i..i + m];
    forall k | 0 <= k < m
      ensures a[k] == b[k]
    {
      assert b[k] == inner[i + k] == s[from + (i + k)];
    }
  }

  /** `s` with `b` written over it from position `lo` on. */
  function Spliced(s: seq<Byte>, lo: nat, b: seq<Byte>): (r: seq<Byte>)
    requires lo + |b| <= |s|
    ensures |r| == |s|
  {
    s[..lo] + b + s[lo + |b|..]
  }

  /** Splicing puts `b` at `lo` and leaves the rest alone. */
  lemma SplicedParts(s: seq<Byte>, lo: nat, b: seq<Byte>)
    requires lo + |b| <= |s|
    ensures var r := Spliced(s, lo, b);
            r[lo..lo + |b|] == b && r[..lo] == s[..lo] && r[lo + |b|..] == s[lo + |b|..]
  {
  }

  // ---- little-endian words ----

  function Pow256(n: nat): nat {
    if n == 0 then 1 else 256 * Pow256(n - 1)
  }

  function FromLE(s: seq<Byte>): nat {
    if s == [] then 0 else s[0] + 256 * FromLE(s[1..])
  }

  function ToLE(x: nat, n: nat): (s: seq<Byte>)
    ensures |s| == n
  {
    if n == 0 then [] else [x % 256] + ToLE(x / 256, n - 1)
  }

  lemma {:induction false} FromLEBound(s: seq<Byte>)
    ensures FromLE(s) < Pow256(|s|)
  {
    if s != [] {
      FromLEBound(s[1..]);
    }
  }

  lemma {:induction false} LERoundTrip(x: nat, n: nat)
    requires x < Pow256(n)
    ensures FromLE(ToLE(x, n)) == x
  {
    if n > 0 {
      LERoundTrip(x / 256, n - 1);
      assert ToLE(x, n)[1..] == ToLE(x / 256, n - 1);
    }
  }

  lemma WordWidths()
    ensures Pow256(4) == TWO_32 && Pow256(8) == TWO_64
  {
    assert Pow256(2) == 256 * Pow256(1) == 65536;
    assert Pow256(4) == 256 * Pow256(3) == 65536 * Pow256(2);
    assert Pow256(6) == 256 * Pow256(5) == 65536 * Pow256(4);
    assert Pow256(8) == 256 * Pow256(7) == 65536 * Pow256(6);
  }

  function LE64(s: seq<Byte>): u64
    requires |s| == 8
  {
    FromLEBound(s);
    WordWidths();
    FromLE(s)
  }

  function LE32(s: seq<Byte>): u32
    requires |s| == 4
  {
    FromLEBound(s);
    WordWidths();
    FromLE(s)
  }

  /** The words byte by byte, the least significant first. */
  lemma WordsSpelled(s: seq<Byte>)
    ensures |s| == 4 ==>
              var b: seq<int> := s;
              LE32(s) == b[0] + 0x100 * b[1] + 0x1_0000 * b[2] + 0x100_0000 * b[3]
    ensures |s| == 8 ==> LE64(s) == LE32(s[..4]) + 0x1_0000_0000 * LE32(s[4..])
  {
    if |s| == 4 {
      FourBytes(s);
    }
    if |s| == 8 {
      FourBytes(s[..4]);
      FourBytes(s[4..]);
      FourMore(s, s[4..]);
    }
  }

  lemma FourMore(s: seq<Byte>, rest: seq<Byte>)
    requires |s| >= 4 && rest == s[4..]
    ensures var b: seq<int> := s;
            FromLE(s)
            == b[0] + 0x100 * b[1] + 0x1_0000 * b[2] + 0x100_0000 * b[3] + 0x1_0000_0000 * FromLE(rest)
  {
    assert s[1..][1..] == s[2..] && s[2..][1..] == s[3..] && s[3..][1..] == rest;
    assert FromLE(s[3..]) == s[3] + 256 * FromLE(rest);
    assert FromLE(s[2..]) == s[2] + 256 * FromLE(s[3..]);
    assert FromLE(s[1..]) == s[1] + 256 * FromLE(s[2..]);
  }

  lemma FourBytes(s: seq<Byte>)
    requires |s| == 4
    ensures var b: seq<int> := s;
            FromLE(s) == b[0] + 0x100 * b[1] + 0x1_0000 * b[2] + 0x100_0000 * b[3]
  {
    FourMore(s, s[4..]);
  }

  lemma LE64RoundTrip(x: u64)
    ensures LE64(ToLE(x, 8)) == x
  {
    WordWidths();
    LERoundTrip(x, 8);
  }

  lemma LE32RoundTrip(x: u32)
    ensures LE32(ToLE(x, 4)) == x
  {
    WordWidths();
    LERoundTrip(x, 4);
  }

  // ---- cutting a length into pieces of `d` ----
  //
  // Proofs hide the four functions below and use the lemmas after them, which keeps products and
  // quotients of variables away from everything else.

  /** The piece holding position `x`. */
  function PieceOf(x: nat, d: nat): (q: nat)
    requires d > 0
    ensures q <= x
  {
    QuotientBound(x, d);
    x / d
  }

  /** How far into its piece position `x` lies. */
  function Within(x: nat, d: nat): (r: nat)
    requires d > 0
    ensures r < d
  {
    x % d
  }

  function PieceStart(i: nat, d: nat): nat {
    i * d
  }

  /** How many pieces cover `x` (`div_ceil`). */
  function Pieces(x: nat, d: nat): nat
    requires d > 0
  {
    (x + d - 1) / d
  }

  lemma QuotientBound(x: nat, d: nat)
    requires d > 0
    ensures 0 <= x / d <= x
  {
    var q := x / d;
    assert x == q * d + x % d;
    if q < 0 {
      MulMonotone(q, -1, d);
    } else {
      MulMonotone(1, d, q);
    }
  }

  lemma MulMonotone(a: int, b: int, d: int)
    requires a <= b && d >= 0
    ensures a * d <= b * d
  {
  }

  lemma PieceLocate(x: nat, d: nat)
    requires d > 0
    ensures x == PieceStart(PieceOf(x, d), d) + Within(x, d)
  {
  }

  lemma OneDecomposition(d: nat, q: nat, r: nat, i: nat, o: nat)
    requires r < d && o < d && q * d + r == i * d + o
    ensures q == i && r == o
  {
    if q < i {
      MulGap(q, i, d);
    } else if i < q {
      MulGap(i, q, d);
    }
  }

  lemma MulGap(a: int, b: int, d: nat)
    requires a < b
    ensures a * d + d <= b * d
  {
    MulMonotone(a + 1, b, d);
    assert (a + 1) * d == a * d + d;
  }

  /** A piece and an offset inside it determine, and are determined by, the position. */
  lemma PieceUnique(x: nat, d: nat, i: nat, o: nat)
    requires d > 0 && o < d
    ensures x == PieceStart(i, d) + o <==> PieceOf(x, d) == i && Within(x, d) == o
  {
    hide PieceOf, Within;
    PieceLocate(x, d);
    if x == PieceStart(i, d) + o {
      OneDecomposition(d, PieceOf(x, d), Within(x, d), i, o);
    }
  }

  lemma PieceNext(i: nat, d: nat)
    ensures PieceStart(0, d) == 0 && PieceStart(i + 1, d) == PieceStart(i, d) + d
    ensures d > 0 ==> i <= PieceStart(i, d)
  {
    if d > 0 {
      MulMonotone(1, d, i);
    }
  }

  lemma PieceOrder(i: nat, j: nat, d: nat)
    requires i <= j
    ensures PieceStart(i, d) <= PieceStart(j, d)
  {
    MulMonotone(i, j, d);
  }

  lemma PieceMonotone(x: nat, y: nat, d: nat)
    requires d > 0 && x <= y
    ensures PieceOf(x, d) <= PieceOf(y, d)
  {
    hide PieceOf, Within, PieceStart;
    PieceLocate(x, d);
    PieceLocate(y, d);
    if PieceOf(y, d) < PieceOf(x, d) {
      PieceOrder(PieceOf(y, d) + 1, PieceOf(x, d), d);
      PieceNext(PieceOf(y, d), d);
    }
  }

  /** `i` is one of the pieces covering `x` exactly when it starts before `x`. */
  lemma PieceCount(x: nat, d: nat, i: nat)
    requires d > 0
    ensures i < Pieces(x, d) <==> PieceStart(i, d) < x
  {
    var n := Pieces(x, d);
    assert x + d - 1 == n * d + (x + d - 1) % d;
    if i < n {
      MulMonotone(i + 1, n, d);
    } else {
      MulMonotone(n, i, d);
    }
  }
}
