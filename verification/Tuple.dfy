/** Fixed-width cells and the tuples made of them (organizers/src/tuple.cpp, organizers/src/types). */
module TupleSpec {
  import opened Bytes

  datatype CellType = UInt8 | UInt16 | UInt32 {
    function Size(): nat {
      match this
      case UInt8 => 1
      case UInt16 => 2
      case UInt32 => 4
    }
  }

  type uint16 = x: int | 0 <= x < 0x1_0000
  type uint32 = x: int | 0 <= x < 0x1_0000_0000

  datatype Cell = U8(v8: byte) | U16(v16: uint16) | U32(v32: uint32) {
    function Type(): CellType {
      match this
      case U8(_) => UInt8
      case U16(_) => UInt16
      case U32(_) => UInt32
    }

    function Size(): nat {
      Type().Size()
    }

    /** The bytes a cell's store leaves at its destination. */
    function Encoded(): (b: seq<byte>)
      ensures |b| == Size()
    {
      EncodeLE(Value(), Size())
    }

    function Value(): nat {
      match this
      case U8(v) => v
      case U16(v) => v
      case U32(v) => v
    }
  }

  lemma CellWidths()
    ensures Pow256(1) == 0x100 && Pow256(2) == 0x1_0000 && Pow256(4) == 0x1_0000_0000
  {
    assert Pow256(3) == 0x100_0000;
  }

  function DecodeCell(ty: CellType, b: seq<byte>): (c: Cell)
    requires |b| == ty.Size()
    ensures c.Type() == ty
  {
    CellWidths();
    match ty
    case UInt8 => U8(DecodeLE(b))
    case UInt16 => U16(DecodeLE(b))
    case UInt32 => U32(DecodeLE(b))
  }

  lemma CellRoundTrip(c: Cell)
    ensures DecodeCell(c.Type(), c.Encoded()) == c
  {
    CellWidths();
    match c
    case U8(v) => LittleEndianRoundTrip(v, 1);
    case U16(v) => LittleEndianRoundTrip(v, 2);
    case U32(v) => LittleEndianRoundTrip(v, 4);
  }

  /** A cell in memory: one, two or four bytes, the least significant first. */
  lemma CellBytes(c: Cell)
    ensures c.U8? ==> c.Encoded() == [c.v8]
    ensures c.U16? ==> c.Encoded() == [c.v16 % 0x100, c.v16 / 0x100]
    ensures c.U32? ==> c.Encoded() == [c.v32 % 0x100, c.v32 / 0x100 % 0x100, c.v32 / 0x1_0000 % 0x100, c.v32 / 0x100_0000]
  {
    match c
    case U8(v) => LittleEndianByte(v, 1, 0);
    case U16(v) =>
      TwoBytes(v);
      TopDigit(v, 0x100);
    case U32(v) =>
      FourBytes(v);
      TopDigit(v, 0x100_0000);
  }

  lemma TopDigit(v: nat, w: nat)
    requires w > 0 && v < 0x100 * w
    ensures v / w % 0x100 == v / w
  {
    QuotientAndRest(v, w);
    if v / w >= 0x100 {
      MulLe(0x100, v / w, w);
    }
  }

  lemma CellRoundTripBack(ty: CellType, b: seq<byte>)
    requires |b| == ty.Size()
    ensures DecodeCell(ty, b).Encoded() == b
  {
    LittleEndianRoundTripBack(b);
  }

  // ---------------------------------------------------------------- whole tuples

  function TypesOf(cells: seq<Cell>): (tys: seq<CellType>)
    ensures |tys| == |cells|
  {
    seq(|cells|, i requires 0 <= i < |cells| => cells[i].Type())
  }

  function TotalSize(tys: seq<CellType>): nat {
    if tys == [] then 0 else TotalSize(tys[..|tys| - 1]) + tys[|tys| - 1].Size()
  }

  /** Cell i starts at the sum of the sizes of the cells before it. */
  function CellOffset(tys: seq<CellType>, i: nat): nat
    requires i <= |tys|
  {
    TotalSize(tys[..i])
  }

  function Encode(cells: seq<Cell>): seq<byte> {
    if cells == [] then [] else Encode(cells[..|cells| - 1]) + cells[|cells| - 1].Encoded()
  }

  lemma {:induction false} EncodeSize(cells: seq<Cell>)
    ensures |Encode(cells)| == TotalSize(TypesOf(cells))
  {
    if cells != [] {
      EncodeSize(cells[..|cells| - 1]);
      assert TypesOf(cells)[..|cells| - 1] == TypesOf(cells[..|cells| - 1]);
    }
  }

  lemma EncodeSnoc(cells: seq<Cell>, c: Cell, longer: seq<Cell>)
    requires longer == cells + [c]
    ensures Encode(longer) == Encode(cells) + c.Encoded()
  {
    assert longer[..|longer| - 1] == cells;
  }

  /** A tuple in memory is its cells, in order, with nothing between them. */
  lemma {:induction false} EncodeAppend(a: seq<Cell>, b: seq<Cell>)
    ensures Encode(a + b) == Encode(a) + Encode(b)
    decreases |b|
  {
    if b == [] {
      assert a + b == a;
    } else {
      var front, c := b[..|b| - 1], b[|b| - 1];
      assert b == front + [c] && a + b == (a + front) + [c];
      EncodeAppend(a, front);
      EncodeSnoc(front, c, b);
      EncodeSnoc(a + front, c, a + b);
    }
  }

  /** Reading cells back with the same advancing cursor. */
  function Decode(tys: seq<CellType>, b: seq<byte>): (cells: seq<Cell>)
    requires |b| == TotalSize(tys)
    ensures TypesOf(cells) == tys
  {
    if tys == [] then []
    else
      var n := |tys| - 1;
      var at := TotalSize(tys[..n]);
      var cells := Decode(tys[..n], b[..at]) + [DecodeCell(tys[n], b[at..])];
      assert TypesOf(cells) == tys[..n] + [tys[n]];
      cells
  }

  lemma {:induction false} TupleRoundTrip(cells: seq<Cell>)
    ensures |Encode(cells)| == TotalSize(TypesOf(cells))
    ensures Decode(TypesOf(cells), Encode(cells)) == cells
  {
    EncodeSize(cells);
    if cells != [] {
      var n := |cells| - 1;
      var tys := TypesOf(cells);
      assert tys[..n] == TypesOf(cells[..n]);
      var at := TotalSize(tys[..n]);
      TupleRoundTrip(cells[..n]);
      CellRoundTrip(cells[n]);
      assert Encode(cells)[..at] == Encode(cells[..n]);
      assert Encode(cells)[at..] == cells[n].Encoded();
      assert cells == cells[..n] + [cells[n]];
    }
  }

  /** And bytes decode to the one tuple that is stored as them. */
  lemma {:induction false} TupleRoundTripBack(tys: seq<CellType>, b: seq<byte>)
    requires |b| == TotalSize(tys)
    ensures Encode(Decode(tys, b)) == b
    decreases |tys|
  {
    if tys != [] {
      var n := |tys| - 1;
      var at := TotalSize(tys[..n]);
      var front, last := Decode(tys[..n], b[..at]), DecodeCell(tys[n], b[at..]);
      TupleRoundTripBack(tys[..n], b[..at]);
      CellRoundTripBack(tys[n], b[at..]);
      EncodeSnoc(front, last, Decode(tys, b));
      assert b == b[..at] + b[at..];
    }
  }

  /** For one list of column types, different tuples have different bytes. */
  lemma EncodeInjective(a: seq<Cell>, b: seq<Cell>)
    requires TypesOf(a) == TypesOf(b) && Encode(a) == Encode(b)
    ensures a == b
  {
    TupleRoundTrip(a);
    TupleRoundTrip(b);
  }

  /** The type list matters: without it the bytes do not determine the cells. */
  lemma EncodeNotInjectiveAcrossTypes()
    ensures Encode([U8(1), U8(0)]) == Encode([U16(1)])
  {
    CellBytes(U8(1));
    CellBytes(U8(0));
    CellBytes(U16(1));
    EncodeSnoc([], U8(1), [U8(1)]);
    EncodeSnoc([U8(1)], U8(0), [U8(1), U8(0)]);
    EncodeSnoc([], U16(1), [U16(1)]);
  }

  /** What has been written for the first i cells is final: the later cells only append. */
  lemma {:induction false} EncodeOfPrefix(cells: seq<Cell>, i: nat)
    requires i <= |cells|
    ensures Encode(cells[..i]) <= Encode(cells)
    decreases |cells|
  {
    if i == |cells| {
      assert cells[..i] == cells;
    } else {
      var front := cells[..|cells| - 1];
      assert front[..i] == cells[..i];
      EncodeOfPrefix(front, i);
    }
  }

  lemma EncodeOneMore(cells: seq<Cell>, i: nat)
    requires i < |cells|
    ensures Encode(cells[..i + 1]) == Encode(cells[..i]) + cells[i].Encoded()
    ensures Encode(cells[..i + 1]) <= Encode(cells)
  {
    assert cells[..i + 1][..i] == cells[..i];
    EncodeOfPrefix(cells, i + 1);
  }

  /** Each cell's bytes stand at its own offset. */
  lemma EncodePlacesCell(cells: seq<Cell>, i: nat)
    requires i < |cells|
    ensures CellOffset(TypesOf(cells), i) + cells[i].Size() <= |Encode(cells)| == TotalSize(TypesOf(cells))
    ensures var at := CellOffset(TypesOf(cells), i);
            Encode(cells)[at..at + cells[i].Size()] == cells[i].Encoded()
  {
    EncodeOneMore(cells, i);
    EncodeSize(cells);
    EncodeSize(cells[..i]);
    assert TypesOf(cells)[..i] == TypesOf(cells[..i]);
    PrefixSlice(Encode(cells[..i]), cells[i].Encoded(), Encode(cells));
  }
}

module Tuples {
  import opened Bytes
  import opened TupleSpec

  /** The buffer after one more cell, at the cursor the earlier cells left. */
  lemma SerializeStep(before: seq<byte>, at: nat, cells: seq<Cell>, i: nat)
    requires i < |cells| && at + |Encode(cells)| <= |before|
    ensures |Encode(cells[..i + 1])| == |Encode(cells[..i])| + cells[i].Size() <= |Encode(cells)|
    ensures |cells[i].Encoded()| == cells[i].Size()
    ensures Splice(Splice(before, at, Encode(cells[..i])), at + |Encode(cells[..i])|, cells[i].Encoded())
            == Splice(before, at, Encode(cells[..i + 1]))
  {
    EncodeOneMore(cells, i);
    SpliceSplice(before, at, Encode(cells[..i]), cells[i].Encoded());
  }

  class Tuple {
    const cells: seq<Cell>

    constructor (cells: seq<Cell>)
      ensures this.cells == cells
    {
      this.cells := cells;
    }

    method Serialize(dest: array<byte>, at: nat)
      requires at + |Encode(cells)| <= dest.Length
      modifies dest
      ensures dest[..] == Splice(old(dest[..]), at, Encode(cells))
    {
      ghost var before := dest[..];
      var cursor := at;
      assert dest[..] == Splice(before, at, []);
      for i := 0 to |cells|
        invariant cursor == at + |Encode(cells[..i])| <= dest.Length
        invariant dest[..] == Splice(before, at, Encode(cells[..i]))
      {
        SerializeStep(before, at, cells, i);
        var bytes := cells[i].Encoded();
        CopyInto(dest, cursor, bytes);
        cursor := cursor + cells[i].Size();
      }
      assert cells[..|cells|] == cells;
    }

    method Size() returns (size: nat)
      ensures size == |Encode(cells)| == TotalSize(TypesOf(cells))
    {
      size := 0;
      for i := 0 to |cells|
        invariant size == |Encode(cells[..i])|
      {
        EncodeOneMore(cells, i);
        size := size + cells[i].Size();
      }
      assert cells[..|cells|] == cells;
      EncodeSize(cells);
    }
  }
}
