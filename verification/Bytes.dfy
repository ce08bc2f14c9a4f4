/** Machine bytes and words, as the C and Python sources lay them out (little endian). */
module Bytes {

  type byte = x: int | 0 <= x < 0x100
  type int8 = x: int | -0x80 <= x < 0x80
  type uint32 = x: int | 0 <= x < 0x1_0000_0000
  type int32 = x: int | -0x8000_0000 <= x < 0x8000_0000

  /** The int8 a C cast keeps of an int: the low eight bits, read in two's complement. */
  function ToInt8(x: int): (r: int8)
    ensures (x - r) % 0x100 == 0
  {
    (x + 0x80) % 0x100 - 0x80
  }

  /** The int32 with the same 32 bits. */
  function ToInt32(x: int): (r: int32)
    ensures (x - r) % 0x1_0000_0000 == 0
  {
    (x + 0x8000_0000) % 0x1_0000_0000 - 0x8000_0000
  }

  /** The 32 bits of a signed word. */
  function ToUint32(x: int32): (r: uint32)
    ensures ToInt32(r) == x
  {
    if x < 0 then x + 0x1_0000_0000 else x
  }

  /** The unsigned 16-bit word at offset off. */
  function Le16(b: seq<byte>, off: nat): (r: nat)
    requires off + 2 <= |b|
    ensures r < 0x1_0000
  {
    b[off] + 0x100 * (b[off + 1] as int)
  }

  /** The unsigned 32-bit word at offset off. */
  function Le32(b: seq<byte>, off: nat): (r: uint32)
    requires off + 4 <= |b|
  {
    b[off] + 0x100 * (b[off + 1] as int) + 0x1_0000 * (b[off + 2] as int) + 0x100_0000 * (b[off + 3] as int)
  }

  /** The four bytes of a 32-bit word. */
  function Le32Bytes(n: uint32): (r: seq<byte>)
    ensures |r| == 4
  {
    [n % 0x100, n / 0x100 % 0x100, n / 0x1_0000 % 0x100, n / 0x100_0000]
  }

  lemma Le32OfBytes(n: uint32)
    ensures Le32(Le32Bytes(n), 0) == n
  {
    var a, b, c := n / 0x100, n / 0x1_0000, n / 0x100_0000;
    assert n == 0x100 * a + n % 0x100;
    assert b == a / 0x100 && a == 0x100 * b + a % 0x100;
    assert c == b / 0x100 && b == 0x100 * c + b % 0x100;
  }

  lemma BytesOfLe32(b: seq<byte>)
    requires |b| == 4
    ensures Le32Bytes(Le32(b, 0)) == b
  {
    var b0: int, b1: int, b2: int, c: int := b[0], b[1], b[2], b[3];
    var m := b2 + 0x100 * c;
    var a := b1 + 0x100 * m;
    var n := b0 + 0x100 * a;
    assert n == Le32(b, 0);
    LowByte(a, b0);
    LowByte(m, b1);
    LowByte(c, b2);
    HighBytes(n, b0, b1, b2, c);
  }

  lemma LowByte(q: int, r: int)
    requires 0 <= r < 0x100
    ensures (r + 0x100 * q) % 0x100 == r && (r + 0x100 * q) / 0x100 == q
  {
  }

  lemma HighBytes(n: int, b0: int, b1: int, b2: int, c: int)
    requires 0 <= b0 < 0x100 && 0 <= b1 < 0x100 && 0 <= b2 < 0x100
    requires n == b0 + 0x100 * (b1 + 0x100 * (b2 + 0x100 * c))
    ensures n / 0x1_0000 == b2 + 0x100 * c && n / 0x100_0000 == c
  {
  }

  /** A word read inside a longer buffer is the word of that slice. */
  lemma Le32Slice(b: seq<byte>, off: nat)
    requires off + 4 <= |b|
    ensures Le32(b, off) == Le32(b[off..off + 4], 0)
  {
  }

  /** n copies of b. */
  function Repeat(b: byte, n: nat): (r: seq<byte>)
    ensures |r| == n && forall i :: 0 <= i < n ==> r[i] == b
  {
    if n == 0 then [] else Repeat(b, n - 1) + [b]
  }

  /** mem with the cells from off on replaced by data. */
  function Splice<T>(mem: seq<T>, off: nat, data: seq<T>): (r: seq<T>)
    requires off + |data| <= |mem|
    ensures |r| == |mem|
  {
    mem[..off] + data + mem[off + |data|..]
  }

  /** A memory that has data at off and is otherwise unchanged is that splice. */
  lemma IsSplice<T>(before: seq<T>, after: seq<T>, off: nat, data: seq<T>)
    requires off + |data| <= |before| == |after|
    requires forall j :: 0 <= j < |data| ==> after[off + j] == data[j]
    requires forall j :: 0 <= j < |after| && !(off <= j < off + |data|) ==> after[j] == before[j]
    ensures after == Splice(before, off, data)
  {
    var r := Splice(before, off, data);
    forall j | 0 <= j < |after| ensures after[j] == r[j] {
      if off <= j < off + |data| {
        assert after[off + (j - off)] == data[j - off];
      }
    }
  }
}
