/** The packed bitmap of library/src/bitmap.cpp: bit i lives in byte i / 8 at position i % 8. */
module BitmapSpec {
  import opened Bytes

  function Ceil8(n: nat): nat {
    (n + 7) / 8
  }

  /** The least number of bytes with room for the bits. */
  lemma Ceil8Least(n: nat)
    ensures n <= 8 * Ceil8(n) < n + 8
  {
  }

  // ---------------------------------------------------------------- one byte

  function Bit(b: nat, i: nat): bool {
    if i == 0 then b % 2 == 1 else Bit(b / 2, i - 1)
  }

  function WithBit(b: nat, i: nat, v: bool): nat {
    if i == 0 then b - b % 2 + (if v then 1 else 0) else b % 2 + 2 * WithBit(b / 2, i - 1, v)
  }

  lemma {:induction false} WithBitRead(b: nat, i: nat, v: bool, j: nat)
    ensures Bit(WithBit(b, i, v), j) == if i == j then v else Bit(b, j)
  {
    if i == 0 {
      assert WithBit(b, i, v) / 2 == b / 2;
    } else {
      var rest := WithBit(b / 2, i - 1, v);
      assert WithBit(b, i, v) / 2 == rest && WithBit(b, i, v) % 2 == b % 2;
      if j > 0 {
        WithBitRead(b / 2, i - 1, v, j - 1);
      }
    }
  }

  function Pow2(n: nat): (p: nat)
    ensures p > 0
  {
    if n == 0 then 1 else 2 * Pow2(n - 1)
  }

  lemma {:induction false} WithBitRange(b: nat, i: nat, v: bool, w: nat)
    requires b < Pow2(w) && i < w
    ensures WithBit(b, i, v) < Pow2(w)
  {
    if i > 0 {
      WithBitRange(b / 2, i - 1, v, w - 1);
      assert WithBit(b / 2, i - 1, v) + 1 <= Pow2(w - 1);
    }
  }

  /** Bit i is the one of weight 2 to the i: the least significant bit is bit 0. */
  lemma {:induction false} BitWeight(b: nat, i: nat)
    ensures Bit(b, i) <==> b / Pow2(i) % 2 == 1
  {
    if i > 0 {
      BitWeight(b / 2, i - 1);
      DivideTwice(b, 2, Pow2(i - 1));
    }
  }

  /** Setting a bit adds or takes its weight, or changes nothing. */
  lemma {:induction false} WithBitWeight(b: nat, i: nat, v: bool)
    ensures WithBit(b, i, v) == if v == Bit(b, i) then b else if v then b + Pow2(i) else b - Pow2(i)
  {
    if i > 0 {
      WithBitWeight(b / 2, i - 1, v);
    }
  }

  function SetBitOfByte(b: byte, i: nat, v: bool): byte
    requires i < 8
  {
    WithBitRange(b, i, v, 8);
    assert Pow2(8) == 256 by { assert Pow2(4) == 16; }
    WithBit(b, i, v)
  }

  // ---------------------------------------------------------------- a run of bytes as booleans

  function BitAt(bytes: seq<byte>, i: nat): bool
    requires i < 8 * |bytes|
  {
    Bit(bytes[i / 8], i % 8)
  }

  function Bits(bytes: seq<byte>, n: nat): (bits: seq<bool>)
    requires n <= 8 * |bytes|
    ensures |bits| == n && forall i :: 0 <= i < n ==> bits[i] == BitAt(bytes, i)
  {
    seq(n, i requires 0 <= i < n => BitAt(bytes, i))
  }

  function SetBit(bytes: seq<byte>, i: nat, v: bool): (r: seq<byte>)
    requires i < 8 * |bytes|
    ensures |r| == |bytes|
  {
    bytes[i / 8 := SetBitOfByte(bytes[i / 8], i % 8, v)]
  }

  /** A set changes exactly the addressed bit: its neighbours in the same byte and every other byte
      read as before. */
  lemma SetBitRefines(bytes: seq<byte>, n: nat, i: nat, v: bool)
    requires i < n <= 8 * |bytes|
    ensures Bits(SetBit(bytes, i, v), n) == Bits(bytes, n)[i := v]
    ensures forall b :: 0 <= b < |bytes| && b != i / 8 ==> SetBit(bytes, i, v)[b] == bytes[b]
  {
    forall j | 0 <= j < n
      ensures BitAt(SetBit(bytes, i, v), j) == if i == j then v else BitAt(bytes, j)
    {
      WithBitRead(bytes[i / 8], i % 8, v, j % 8);
    }
  }

  /** Where bit i is in memory: in byte i / 8, with weight 2 to the i % 8. */
  lemma BitPosition(bytes: seq<byte>, i: nat)
    requires i < 8 * |bytes|
    ensures BitAt(bytes, i) <==> bytes[i / 8] / Pow2(i % 8) % 2 == 1
  {
    BitWeight(bytes[i / 8], i % 8);
  }

  /** What a set stores: the byte gains or loses the bit's weight, if the bit changes. */
  lemma SetBitStores(bytes: seq<byte>, i: nat, v: bool)
    requires i < 8 * |bytes|
    ensures SetBit(bytes, i, v)[i / 8]
            == if v == (bytes[i / 8] / Pow2(i % 8) % 2 == 1) then bytes[i / 8]
               else if v then bytes[i / 8] + Pow2(i % 8) else bytes[i / 8] - Pow2(i % 8)
  {
    BitWeight(bytes[i / 8], i % 8);
    WithBitWeight(bytes[i / 8], i % 8, v);
  }

  // ---------------------------------------------------------------- counting and searching

  function CountFree(bits: seq<bool>): nat {
    if bits == [] then 0 else CountFree(bits[..|bits| - 1]) + (if bits[|bits| - 1] then 0 else 1)
  }

  function CountTaken(bits: seq<bool>): nat {
    if bits == [] then 0 else CountTaken(bits[..|bits| - 1]) + (if bits[|bits| - 1] then 1 else 0)
  }

  lemma {:induction false} FreePlusTaken(bits: seq<bool>)
    ensures CountFree(bits) + CountTaken(bits) == |bits|
  {
    if bits != [] {
      FreePlusTaken(bits[..|bits| - 1]);
    }
  }

  /** The free count is how often `false` occurs. */
  lemma {:induction false} CountFreeOccurrences(bits: seq<bool>)
    ensures CountFree(bits) == multiset(bits)[false]
  {
    if bits != [] {
      CountFreeOccurrences(bits[..|bits| - 1]);
      assert bits == bits[..|bits| - 1] + [bits[|bits| - 1]];
    }
  }

  /** The free count moves by one exactly when the bit flips. */
  lemma {:induction false} CountFreeSet(bits: seq<bool>, i: nat, v: bool)
    requires i < |bits|
    ensures CountFree(bits[i := v]) == CountFree(bits) + (if bits[i] then 1 else 0) - (if v then 1 else 0)
  {
    var n := |bits| - 1;
    if i == n {
      assert bits[i := v][..n] == bits[..n];
    } else {
      CountFreeSet(bits[..n], i, v);
      assert bits[i := v][..n] == bits[..n][i := v];
    }
  }

  predicate IsFirstFree(bits: seq<bool>, r: Option<nat>) {
    match r
    case Some(i) => i < |bits| && !bits[i] && forall j :: 0 <= j < i ==> bits[j]
    case None => forall j :: 0 <= j < |bits| ==> bits[j]
  }

  function FirstFree(bits: seq<bool>): (r: Option<nat>)
    ensures IsFirstFree(bits, r)
  {
    FirstFreeFrom(bits, 0)
  }

  function FirstFreeFrom(bits: seq<bool>, i: nat): (r: Option<nat>)
    requires i <= |bits| && forall j :: 0 <= j < i ==> bits[j]
    ensures IsFirstFree(bits, r)
    decreases |bits| - i
  {
    if i == |bits| then None else if !bits[i] then Some(i) else FirstFreeFrom(bits, i + 1)
  }

  lemma FirstFreeUnique(bits: seq<bool>, r: Option<nat>)
    requires IsFirstFree(bits, r)
    ensures r == FirstFree(bits)
  {
    var f := FirstFree(bits);
    assert r.Some? && f.Some? ==> !(r.value < f.value) && !(f.value < r.value);
  }

  /** The search finds nothing exactly when the free count is zero. */
  lemma {:induction false} FirstFreeNoneIffFull(bits: seq<bool>)
    ensures FirstFree(bits).None? <==> CountFree(bits) == 0
  {
    if bits != [] {
      var front := bits[..|bits| - 1];
      FirstFreeNoneIffFull(front);
      assert forall j :: 0 <= j < |front| ==> front[j] == bits[j];
    }
  }

  /** The count of a prefix, one bit further. */
  lemma CountFreeStep(bits: seq<bool>, i: nat)
    requires i < |bits|
    ensures CountFree(bits[..i + 1]) == CountFree(bits[..i]) + (if bits[i] then 0 else 1)
  {
    assert bits[..i + 1][..i] == bits[..i];
  }

  lemma {:induction false} AllClearCount(bits: seq<bool>)
    requires forall i :: 0 <= i < |bits| ==> !bits[i]
    ensures CountFree(bits) == |bits|
  {
    if bits != [] {
      AllClearCount(bits[..|bits| - 1]);
    }
  }

  lemma {:induction false} BitOfZero(i: nat)
    ensures !Bit(0, i)
  {
    if i > 0 {
      BitOfZero(i - 1);
    }
  }

  /** A zeroed bitmap has every bit clear, so a page of zeros has every slot free. */
  lemma ZeroBytesAllClear(bytes: seq<byte>, n: nat)
    requires n <= 8 * |bytes| && forall i :: 0 <= i < |bytes| ==> bytes[i] == 0
    ensures forall i :: 0 <= i < n ==> !Bits(bytes, n)[i]
    ensures CountFree(Bits(bytes, n)) == n
  {
    forall i | 0 <= i < n
      ensures !Bits(bytes, n)[i]
    {
      BitOfZero(i % 8);
    }
    AllClearCount(Bits(bytes, n));
  }
}

module Bitmaps {
  import opened Bytes
  import opened BitmapSpec

  class Bitmap {
    const numBits: nat
    const numBytes: nat
    const bitmap: array<byte>

    ghost predicate Valid() {
      numBytes == Ceil8(numBits) && bitmap.Length == numBytes
    }

    ghost function Contents(): (bits: seq<bool>)
      requires Valid()
      reads bitmap
      ensures |bits| == numBits
    {
      Bits(bitmap[..], numBits)
    }

    constructor (numBits: nat)
      ensures Valid() && fresh(bitmap) && this.numBits == numBits
      ensures forall i :: 0 <= i < numBits ==> !Contents()[i]
    {
      this.numBits := numBits;
      var bytes := numBits / 8;
      if numBits % 8 != 0 {
        bytes := bytes + 1;
      }
      this.numBytes := bytes;
      this.bitmap := new byte[bytes](_ => 0);
      new;
      ZeroBytesAllClear(bitmap[..], numBits);
    }

    method Serialize(dest: array<byte>, at: nat)
      requires Valid() && at + numBytes <= dest.Length && dest != bitmap
      modifies dest
      ensures dest[..] == Splice(old(dest[..]), at, bitmap[..])
    {
      CopyInto(dest, at, bitmap[..]);
    }

    method Deserialize(src: array<byte>, at: nat)
      requires Valid() && at + numBytes <= src.Length && src != bitmap
      modifies bitmap
      ensures bitmap[..] == src[at..at + numBytes]
    {
      CopyInto(bitmap, 0, src[at..at + numBytes]);
    }

    method GetNumFreeBits() returns (freeBits: nat)
      requires Valid()
      ensures freeBits == CountFree(Contents())
    {
      freeBits := 0;
      for i := 0 to numBits
        invariant freeBits == CountFree(Contents()[..i])
      {
        CountFreeStep(Contents(), i);
        if !Bit(bitmap[i / 8], i % 8) {
          freeBits := freeBits + 1;
        }
      }
      assert Contents()[..numBits] == Contents();
    }

    method GetNumTakenBits() returns (takenBits: nat)
      requires Valid()
      ensures takenBits == CountTaken(Contents())
    {
      FreePlusTaken(Contents());
      var freeBits := GetNumFreeBits();
      takenBits := numBits - freeBits;
    }

    method GetFirstFreeBit() returns (r: Option<nat>)
      requires Valid()
      ensures r == FirstFree(Contents())
    {
      for i := 0 to numBits
        invariant forall j :: 0 <= j < i ==> Contents()[j]
      {
        if !Bit(bitmap[i / 8], i % 8) {
          FirstFreeUnique(Contents(), Some(i));
          return Some(i);
        }
      }
      FirstFreeUnique(Contents(), None);
      return None;
    }

    method GetBitVal(bit: nat) returns (v: bool)
      requires Valid() && bit < numBits
      ensures v == Contents()[bit]
      ensures v <==> bitmap[bit / 8] / Pow2(bit % 8) % 2 == 1
    {
      BitPosition(bitmap[..], bit);
      v := Bit(bitmap[bit / 8], bit % 8);
    }

    method SetBitVal(bit: nat, val: bool)
      requires Valid() && bit < numBits
      modifies bitmap
      ensures Contents() == old(Contents())[bit := val]
      ensures bitmap[..] == SetBit(old(bitmap[..]), bit, val)
      ensures bitmap[bit / 8] / Pow2(bit % 8) % 2 == if val then 1 else 0
    {
      SetBitRefines(bitmap[..], numBits, bit, val);
      bitmap[bit / 8] := SetBitOfByte(bitmap[bit / 8], bit % 8, val);
      assert bitmap[..] == SetBit(old(bitmap[..]), bit, val);
      assert Contents()[bit] == val;
      BitPosition(bitmap[..], bit);
    }
  }

  /** Writing a bitmap into a buffer and reading it back into another of the same size gives every
      bit back, whatever the second one held, and touches no other byte of the buffer. */
  method SerializeThenDeserialize(a: Bitmap, b: Bitmap, buffer: array<byte>, at: nat)
    requires a.Valid() && b.Valid() && a.numBits == b.numBits && a.bitmap != b.bitmap
    requires buffer != a.bitmap && buffer != b.bitmap && at + a.numBytes <= buffer.Length
    modifies buffer, b.bitmap
    ensures b.Contents() == old(a.Contents()) == a.Contents()
    ensures buffer[..at] == old(buffer[..at])
    ensures buffer[at + a.numBytes..] == old(buffer[at + a.numBytes..])
  {
    a.Serialize(buffer, at);
    SpliceRead(old(buffer[..]), at, a.bitmap[..], at, a.numBytes);
    assert buffer[at..at + a.numBytes] == buffer[..][at..at + a.numBytes];
    b.Deserialize(buffer, at);
  }
}
