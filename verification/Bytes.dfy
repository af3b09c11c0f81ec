/** Bytes, byte buffers and the little-endian codec that every layer stores its words with. */
module Bytes {

  type byte = x: int | 0 <= x < 256
  type Page = seq<byte>

  datatype Option<+T> = None | Some(value: T)
  datatype Result<+T, +E> = Ok(value: T) | Err(error: E)

  function Zeros(n: nat): (z: seq<byte>)
    ensures |z| == n && forall i :: 0 <= i < n ==> z[i] == 0
  {
    seq(n, _ => 0)
  }

  /** `p` with the bytes from `at` on overwritten by `b`. */
  function Splice(p: seq<byte>, at: nat, b: seq<byte>): (r: seq<byte>)
    requires at + |b| <= |p|
    ensures |r| == |p|
  {
    seq(|p|, i requires 0 <= i < |p| => if at <= i < at + |b| then b[i - at] else p[i])
  }

  /** What a reader of `[lo, lo + len)` sees after a splice: the new bytes when the ranges coincide,
      the old ones when they are disjoint. */
  lemma SpliceRead(p: seq<byte>, at: nat, b: seq<byte>, lo: nat, len: nat)
    requires at + |b| <= |p| && lo + len <= |p|
    ensures lo == at && len == |b| ==> Splice(p, at, b)[lo..lo + len] == b
    ensures lo + len <= at || at + |b| <= lo ==> Splice(p, at, b)[lo..lo + len] == p[lo..lo + len]
  {
    var part := Splice(p, at, b)[lo..lo + len];
    assert forall i :: 0 <= i < len ==> part[i] == Splice(p, at, b)[lo + i];
    if lo == at && len == |b| {
      assert part == b;
    }
    if lo + len <= at || at + |b| <= lo {
      assert part == p[lo..lo + len];
    }
  }

  lemma SpliceParts(p: seq<byte>, at: nat, b: seq<byte>)
    requires at + |b| <= |p|
    ensures Splice(p, at, b) == p[..at] + b + p[at + |b|..]
  {
  }

  /** Two adjacent splices are one. */
  lemma SpliceSplice(p: seq<byte>, at: nat, a: seq<byte>, b: seq<byte>)
    requires at + |a| + |b| <= |p|
    ensures Splice(Splice(p, at, a), at + |a|, b) == Splice(p, at, a + b)
  {
  }

  lemma PrefixSlice(a: seq<byte>, b: seq<byte>, whole: seq<byte>)
    requires a + b <= whole
    ensures whole[|a|..|a| + |b|] == b
  {
    assert whole[..|a| + |b|] == a + b;
  }

  lemma MulLe(a: nat, b: nat, d: nat)
    requires a <= b
    ensures a * d <= b * d
  {
  }

  lemma DivModUnique(x: int, d: nat, q: int, r: nat)
    requires d > 0 && r < d && x == q * d + r
    ensures x / d == q && x % d == r
  {
    var q' := x / d;
    assert x == q' * d + x % d;
    if q' < q {
      MulMonotone(q', q, d);
    } else if q < q' {
      MulMonotone(q, q', d);
    }
  }

  lemma {:induction false} MulMonotone(a: int, b: int, d: nat)
    requires a < b
    ensures a * d + d <= b * d
    decreases b - a
  {
    assert b * d == (b - 1) * d + d;
    if a + 1 < b {
      MulMonotone(a, b - 1, d);
    }
  }

  lemma Distribute(q: nat, p: nat, r: nat, d: nat)
    ensures (q * p + r) * d == q * (d * p) + r * d && (r + 1) * d == r * d + d
  {
  }

  lemma QuotientAndRest(v: nat, d: nat)
    requires d > 0
    ensures v == v / d * d + v % d && 0 <= v % d < d
  {
  }

  lemma DivideTwice(v: nat, d: nat, p: nat)
    requires d > 0 && p > 0
    ensures d * p > 0 && v / d / p == v / (d * p)
  {
    var u := v / d;
    var q, r := u / p, u % p;
    QuotientAndRest(v, d);
    QuotientAndRest(u, p);
    Distribute(q, p, r, d);
    MulLe(r + 1, p, d);
    var whole, rest := d * p, r * d + v % d;
    assert whole == p * d && v == q * whole + rest && rest < whole;
    DivModUnique(v, whole, q, rest);
  }

  /** Elements one after the other. */
  function Concat(elements: seq<seq<byte>>): seq<byte> {
    if elements == [] then [] else Concat(elements[..|elements| - 1]) + elements[|elements| - 1]
  }

  lemma {:induction false} ConcatSize(elements: seq<seq<byte>>, width: nat)
    requires forall i :: 0 <= i < |elements| ==> |elements[i]| == width
    ensures |Concat(elements)| == |elements| * width
  {
    if elements != [] {
      ConcatSize(elements[..|elements| - 1], width);
      assert |elements| * width == (|elements| - 1) * width + width;
    }
  }

  lemma SliceOfSum(a: seq<byte>, b: seq<byte>, lo: nat, hi: nat)
    requires lo <= hi
    ensures hi <= |a| ==> (a + b)[lo..hi] == a[lo..hi]
    ensures lo == |a| && hi == |a| + |b| ==> (a + b)[lo..hi] == b
  {
  }

  /** Element i of equal ones starts at i times their width. */
  lemma {:induction false} ConcatPlaces(elements: seq<seq<byte>>, width: nat, i: nat) returns (at: nat)
    requires i < |elements| && forall j :: 0 <= j < |elements| ==> |elements[j]| == width
    ensures at == i * width && at + width <= |Concat(elements)| && Concat(elements)[at..at + width] == elements[i]
    decreases |elements|
  {
    var front, last := elements[..|elements| - 1], elements[|elements| - 1];
    if i == |front| {
      ConcatSize(front, width);
      at := |Concat(front)|;
    } else {
      at := ConcatPlaces(front, width, i);
      assert front[i] == elements[i];
    }
    SliceOfSum(Concat(front), last, at, at + width);
  }

  /** A multi-byte store or a `memcpy`: the bytes of `src` land at `at`, no other byte changes. */
  method CopyInto(dest: array<byte>, at: nat, src: seq<byte>)
    requires at + |src| <= dest.Length
    modifies dest
    ensures dest[..] == Splice(old(dest[..]), at, src)
  {
    forall i | 0 <= i < |src| {
      dest[at + i] := src[i];
    }
  }

  // ---------------------------------------------------------------- little-endian words

  function Pow256(n: nat): (r: nat)
    ensures r > 0
  {
    if n == 0 then 1 else 256 * Pow256(n - 1)
  }

  function EncodeLE(v: nat, width: nat): (b: seq<byte>)
    ensures |b| == width
  {
    if width == 0 then [] else [v % 256] + EncodeLE(v / 256, width - 1)
  }

  function DecodeLE(b: seq<byte>): (v: nat)
    ensures v < Pow256(|b|)
  {
    if b == [] then 0 else b[0] + 256 * DecodeLE(b[1..])
  }

  lemma {:induction false} LittleEndianRoundTrip(v: nat, width: nat)
    requires v < Pow256(width)
    ensures DecodeLE(EncodeLE(v, width)) == v
  {
    if width > 0 {
      LittleEndianRoundTrip(v / 256, width - 1);
      assert EncodeLE(v, width)[1..] == EncodeLE(v / 256, width - 1);
    }
  }

  lemma {:induction false} LittleEndianRoundTripBack(b: seq<byte>)
    ensures EncodeLE(DecodeLE(b), |b|) == b
  {
    if b != [] {
      LittleEndianRoundTripBack(b[1..]);
      assert b == [b[0]] + b[1..];
    }
  }

  /** Byte i of a stored number has weight 256 to the i. */
  lemma {:induction false} LittleEndianByte(v: nat, width: nat, i: nat)
    requires i < width
    ensures EncodeLE(v, width)[i] == v / Pow256(i) % 256
  {
    if i > 0 {
      LittleEndianByte(v / 256, width - 1, i - 1);
      DivideTwice(v, 256, Pow256(i - 1));
    }
  }

  // ---------------------------------------------------------------- signed 32-bit link words

  type int32 = x: int | -0x8000_0000 <= x < 0x8000_0000

  function EncodeInt32(v: int32): (b: seq<byte>)
    ensures |b| == 4
  {
    EncodeLE(if v < 0 then v + 0x1_0000_0000 else v, 4)
  }

  lemma TwoBytes(u: nat)
    ensures EncodeLE(u, 2) == [u % 256, u / 0x100 % 256]
  {
    assert Pow256(1) == 0x100;
    LittleEndianByte(u, 2, 0);
    LittleEndianByte(u, 2, 1);
  }

  lemma FourBytes(u: nat)
    ensures EncodeLE(u, 4) == [u % 256, u / 0x100 % 256, u / 0x1_0000 % 256, u / 0x100_0000 % 256]
  {
    assert Pow256(1) == 0x100 && Pow256(2) == 0x1_0000 && Pow256(3) == 0x100_0000;
    LittleEndianByte(u, 4, 0);
    LittleEndianByte(u, 4, 1);
    LittleEndianByte(u, 4, 2);
    LittleEndianByte(u, 4, 3);
  }

  /** Adding a multiple of 256 * w does not change the digit of weight w. */
  lemma SameDigit(v: int, w: nat, m: int)
    requires w > 0
    ensures (v + 256 * m * w) / w % 256 == v / w % 256
  {
    var q, r := v / w, v % w;
    assert v + 256 * m * w == (q + 256 * m) * w + r;
    DivModUnique(v + 256 * m * w, w, q + 256 * m, r);
    DivModUnique(q + 256 * m, 256, q / 256 + m, q % 256);
  }

  /** A link word in memory: the least significant byte first, negative numbers in two's complement. */
  lemma Int32Bytes(v: int32)
    ensures EncodeInt32(v) == [v % 256, v / 0x100 % 256, v / 0x1_0000 % 256, v / 0x100_0000 % 256]
  {
    var u := if v < 0 then v + 0x1_0000_0000 else v;
    FourBytes(u);
    if v < 0 {
      SameDigit(v, 1, 0x100_0000);
      SameDigit(v, 0x100, 0x1_0000);
      SameDigit(v, 0x1_0000, 0x100);
      SameDigit(v, 0x100_0000, 1);
    }
  }

  function DecodeInt32(b: seq<byte>): int32
    requires |b| == 4
  {
    assert Pow256(4) == 0x1_0000_0000;
    var u := DecodeLE(b);
    if u >= 0x8000_0000 then u - 0x1_0000_0000 else u
  }

  /** The 4-byte word a page holds at a byte offset. */
  function Word(p: Page, at: nat): int32
    requires at + 4 <= |p|
  {
    DecodeInt32(p[at..at + 4])
  }

  /** Storing a word that was loaded stores its four bytes. */
  lemma WordCopied(p: Page, at: nat)
    requires at + 4 <= |p|
    ensures EncodeInt32(Word(p, at)) == p[at..at + 4]
  {
    assert Pow256(4) == 0x1_0000_0000;
    LittleEndianRoundTripBack(p[at..at + 4]);
  }

  function PutWord(p: Page, at: nat, v: int32): (r: Page)
    requires at + 4 <= |p|
    ensures |r| == |p|
  {
    Splice(p, at, EncodeInt32(v))
  }

  lemma WordAfterPut(p: Page, at: nat, v: int32, lo: nat)
    requires at + 4 <= |p| && lo + 4 <= |p|
    ensures lo == at ==> Word(PutWord(p, at, v), lo) == v
    ensures lo + 4 <= at || at + 4 <= lo ==> Word(PutWord(p, at, v), lo) == Word(p, lo)
  {
    SpliceRead(p, at, EncodeInt32(v), lo, 4);
    assert Pow256(4) == 0x1_0000_0000;
    LittleEndianRoundTrip(if v < 0 then v + 0x1_0000_0000 else v, 4);
  }

  /** A page of zeros reads as link 0 everywhere, which is why a new page must have its links set. */
  lemma ZeroPageReadsZero(n: nat, at: nat)
    requires at + 4 <= n
    ensures Word(Zeros(n), at) == 0
  {
    var b := Zeros(n)[at..at + 4];
    assert b == [0, 0, 0, 0];
    assert b[1..] == [0, 0, 0] && b[1..][1..] == [0, 0] && b[1..][1..][1..] == [0];
    assert DecodeLE([0]) == 0 && DecodeLE([0, 0]) == 0 && DecodeLE([0, 0, 0]) == 0;
  }
}
