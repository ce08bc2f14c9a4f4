/** parse_output of tinymaix_inference.c: the class with the largest positive score. */
module Scores {
  import opened Bytes
  import opened FloatWords

  const CLASSES := 10

  /** The n floats from off on. */
  function WordsAt(mem: seq<int8>, off: nat, n: nat): (r: seq<uint32>)
    requires off + 4 * n <= |mem|
    ensures |r| == n
    ensures forall i :: 0 <= i < n ==> r[i] == WordAt(mem, off + 4 * i)
  {
    if n == 0 then [] else WordsAt(mem, off, n - 1) + [WordAt(mem, off + 4 * (n - 1))]
  }

  function WordAt(mem: seq<int8>, at: int): uint32 {
    if 0 <= at && at + 4 <= |mem| then Word(mem[at], mem[at + 1], mem[at + 2], mem[at + 3]) else 0
  }

  /** maxi and maxp after the first n scores. */
  function Winner(ops: FloatOps, f: seq<uint32>, n: nat): (r: (int, uint32))
    requires n <= |f|
    ensures -1 <= r.0 < n
  {
    if n == 0 then (-1, ops.zero) else
    var w := Winner(ops, f, n - 1);
    if (ops.above)(f[n - 1], w.1) then (n - 1, f[n - 1]) else w
  }

  /** parse_output on the floats at off. */
  method ParseOutput(ops: FloatOps, buf: array<int8>, off: nat) returns (maxi: int)
    requires off + 4 * CLASSES <= buf.Length
    ensures maxi == Winner(ops, WordsAt(buf[..], off, CLASSES), CLASSES).0
  {
    hide Word;
    var maxp := ops.zero;
    maxi := -1;
    ghost var f := WordsAt(buf[..], off, CLASSES);
    for i := 0 to CLASSES
      invariant (maxi, maxp) == Winner(ops, f, i)
    {
      assert f[i] == WordAt(buf[..], off + 4 * i) == Item(buf, off, i);
      if (ops.above)(Item(buf, off, i), maxp) {
        maxi, maxp := i, Item(buf, off, i);
      }
    }
  }

  /** The comparison orders zero and the scores like the values key gives them; for IEEE floats this
      holds when none of them is a NaN. */
  ghost predicate Ordered(ops: FloatOps, f: seq<uint32>, key: uint32 -> real) {
    && (forall i :: 0 <= i < |f| ==> ((ops.above)(f[i], ops.zero) <==> key(f[i]) > key(ops.zero)))
    && (forall i, j :: 0 <= i < |f| && 0 <= j < |f| ==> ((ops.above)(f[i], f[j]) <==> key(f[i]) > key(f[j])))
  }

  /** The answer is the first of the largest scores if that is positive, and -1 if none is. */
  lemma {:induction false} WinnerIsFirstLargest(ops: FloatOps, f: seq<uint32>, n: nat, key: uint32 -> real)
    requires n <= |f| && Ordered(ops, f, key)
    ensures var (i, p) := Winner(ops, f, n);
            && (i == -1 ==> p == ops.zero && forall j :: 0 <= j < n ==> key(f[j]) <= key(ops.zero))
            && (i >= 0 ==>
                  && p == f[i] && key(f[i]) > key(ops.zero)
                  && (forall j :: 0 <= j < n ==> key(f[j]) <= key(f[i]))
                  && (forall j :: 0 <= j < i ==> key(f[j]) < key(f[i])))
  {
    if n > 0 { WinnerIsFirstLargest(ops, f, n - 1, key); }
  }

  /** Ten floats stored as cells are read back as they were. */
  lemma WordsOfCells(mem: seq<int8>, off: nat, fs: seq<uint32>, n: nat)
    requires n <= |fs| && off + 4 * |fs| <= |mem| && mem[off..off + 4 * |fs|] == FloatCells(fs)
    ensures WordsAt(mem, off, n) == fs[..n]
  {
    hide Cells, FloatCells, Word;
    forall i | 0 <= i < n ensures WordAt(mem, off + 4 * i) == fs[i] {
      FloatCellAt(fs, i, 0);
      FloatCellAt(fs, i, 1);
      FloatCellAt(fs, i, 2);
      FloatCellAt(fs, i, 3);
      var cells := mem[off..off + 4 * |fs|];
      assert mem[off + 4 * i] == cells[4 * i] && mem[off + 4 * i + 1] == cells[4 * i + 1];
      assert mem[off + 4 * i + 2] == cells[4 * i + 2] && mem[off + 4 * i + 3] == cells[4 * i + 3];
      WordOfCells(fs[i]);
    }
  }
}
