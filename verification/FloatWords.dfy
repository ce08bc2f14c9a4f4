/** 32-bit floats as the words they are stored in, and those words as four buffer cells.
    What the float operations compute is left to a record of functions: the proofs hold for
    every choice, IEEE single precision included. */
module FloatWords {
  import opened Bytes

  /** The float operations the layers use; every operand and result is a float word unless its name
      says otherwise. */
  datatype FloatOps = FloatOps(
    /** (int32_t)(1.0/ws/in_s) */
    sumScale: (uint32, uint32) -> int,
    /** (int32_t)((1<<8)/out_s) */
    outScale: uint32 -> int,
    /** the float of an int */
    ofInt: int -> uint32,
    plus: (uint32, uint32) -> uint32,
    minus: (uint32, uint32) -> uint32,
    times: (uint32, uint32) -> uint32,
    over: (uint32, uint32) -> uint32,
    exp: uint32 -> uint32,
    /** (int8_t) of a float */
    toInt8: uint32 -> int8,
    /** x > y */
    above: (uint32, uint32) -> bool,
    zero: uint32,
    /** -FLT_MAX */
    lowest: uint32,
    /** 0.000001f */
    epsilon: uint32)

  /** TML_DEQUANT and TM_DEQUANT, the zero point already subtracted: n*s. */
  function Dequant(ops: FloatOps, n: int, s: uint32): uint32 {
    (ops.times)((ops.ofInt)(n), s)
  }

  /** The requantizing casts: (int8_t)(f/s + zp). */
  function Quant(ops: FloatOps, f: uint32, s: uint32, zp: int): int8 {
    (ops.toInt8)((ops.plus)((ops.over)(f, s), (ops.ofInt)(zp)))
  }

  /** The signed and the unsigned reading of eight bits. */
  function AsCell(b: byte): (c: int8)
    ensures (c - b) % 256 == 0
  {
    if b < 0x80 then b else b - 0x100
  }

  function AsByte(c: int8): (b: byte)
    ensures (c - b) % 256 == 0
  {
    if c >= 0 then c else c + 0x100
  }

  /** The four cells of a word. */
  function Cells(f: uint32): (r: seq<int8>)
    ensures |r| == 4
  {
    var b := Le32Bytes(f);
    [AsCell(b[0]), AsCell(b[1]), AsCell(b[2]), AsCell(b[3])]
  }

  /** The low byte first. */
  lemma CellsAreBytes(f: uint32)
    ensures var c := Cells(f);
            && (c[0] - f) % 256 == 0 && (c[1] - f / 256) % 256 == 0
            && (c[2] - f / 65536) % 256 == 0 && (c[3] - f / 16777216) % 256 == 0
  {
    LowEight(f);
    LowEight(f / 256);
    LowEight(f / 65536);
    LowEight(f / 16777216);
  }

  lemma LowEight(n: nat)
    ensures (AsCell(n % 0x100) - n) % 256 == 0
  {
  }

  /** The word in four cells. */
  function Word(c0: int8, c1: int8, c2: int8, c3: int8): uint32 {
    Le32([AsByte(c0), AsByte(c1), AsByte(c2), AsByte(c3)], 0)
  }

  lemma WordOfCells(f: uint32)
    ensures var c := Cells(f); Word(c[0], c[1], c[2], c[3]) == f
  {
    var b, c := Le32Bytes(f), Cells(f);
    assert [AsByte(c[0]), AsByte(c[1]), AsByte(c[2]), AsByte(c[3])] == b;
    Le32OfBytes(f);
  }

  lemma CellsOfWord(c0: int8, c1: int8, c2: int8, c3: int8)
    ensures Cells(Word(c0, c1, c2, c3)) == [c0, c1, c2, c3]
  {
    BytesOfLe32([AsByte(c0), AsByte(c1), AsByte(c2), AsByte(c3)]);
  }

  /** The float at offset off of a buffer. */
  function FloatAt(buf: array<int8>, off: nat): uint32
    requires off + 4 <= buf.Length
    reads buf
  {
    Word(buf[off], buf[off + 1], buf[off + 2], buf[off + 3])
  }

  /** Float number i of a row that starts at off. */
  function Item(buf: array<int8>, off: nat, i: nat): uint32
    requires off + 4 * i + 4 <= buf.Length
    reads buf
  {
    FloatAt(buf, off + 4 * i)
  }

  /** Storing a float of a row writes its four cells and nothing else. */
  method StoreItem(buf: array<int8>, off: nat, i: nat, f: uint32)
    requires off + 4 * i + 4 <= buf.Length
    modifies buf
    ensures Item(buf, off, i) == f
    ensures forall k: nat :: off + 4 * k + 4 <= buf.Length && k != i ==> Item(buf, off, k) == old(Item(buf, off, k))
    ensures forall j :: 0 <= j < buf.Length && !(off + 4 * i <= j < off + 4 * i + 4) ==> buf[j] == old(buf[j])
  {
    WordOfCells(f);
    var c, at := Cells(f), off + 4 * i;
    buf[at], buf[at + 1], buf[at + 2], buf[at + 3] := c[0], c[1], c[2], c[3];
  }

  /** A row of floats lies in the buffer from off on. */
  ghost predicate Floats(buf: array<int8>, off: nat, fs: seq<uint32>)
    requires off + 4 * |fs| <= buf.Length
    reads buf
  {
    forall i :: 0 <= i < |fs| ==> Item(buf, off, i) == fs[i]
  }

  /** The cells of a row of floats. */
  function FloatCells(fs: seq<uint32>): (r: seq<int8>)
    ensures |r| == 4 * |fs|
  {
    if fs == [] then [] else FloatCells(fs[..|fs| - 1]) + Cells(fs[|fs| - 1])
  }

  lemma {:induction false} FloatCellAt(fs: seq<uint32>, i: nat, k: nat)
    requires i < |fs| && k < 4
    ensures FloatCells(fs)[4 * i + k] == Cells(fs[i])[k]
  {
    if i < |fs| - 1 {
      FloatCellAt(fs[..|fs| - 1], i, k);
    }
  }

  /** A buffer range that holds the floats is cell for cell their encoding. */
  lemma FloatsAreCells(buf: array<int8>, off: nat, fs: seq<uint32>, j: nat)
    requires off + 4 * |fs| <= buf.Length && Floats(buf, off, fs) && j < 4 * |fs|
    ensures buf[off + j] == FloatCells(fs)[j]
  {
    hide Cells, FloatCells, Word;
    var i, k := j / 4, j % 4;
    var at := off + 4 * i;
    assert Item(buf, off, i) == fs[i];
    CellsOfWord(buf[at], buf[at + 1], buf[at + 2], buf[at + 3]);
    FloatCellAt(fs, i, k);
  }
}
