/**
 * The bit-sliced source-layer cache.  For every matrix key it remembers the layer
 * the key was pressed on, one bit plane per layer bit, eight keys to a byte.  It
 * is proved to behave like a plain map from keys to layers.
 */
module SourceLayers {
  import opened KeyEvents

  /** The byte 1 << n. */
  function Bit(n: nat): (b: bv8)
    requires n < 8
    ensures b != 0
  {
    if n == 0 then 1 else if n == 1 then 2 else if n == 2 then 4 else if n == 3 then 8
    else if n == 4 then 16 else if n == 5 then 32 else if n == 6 then 64 else 128
  }

  /** The byte (1 << n) - 1. */
  function Low(n: nat): bv8
    requires n <= 8
  {
    if n == 0 then 0 else if n == 1 then 1 else if n == 2 then 3 else if n == 3 then 7
    else if n == 4 then 15 else if n == 5 then 31 else if n == 6 then 63 else if n == 7 then 127 else 255
  }

  lemma {:induction false} BitsDisjoint(i: nat, j: nat)
    requires i < 8 && j < 8 && i != j
    ensures Bit(i) & Bit(j) == 0
  {
  }

  predicate TestBit(c: bv8, n: nat)
    requires n < 8
  {
    c & Bit(n) != 0
  }

  /** A byte after bit `n` was set or cleared: c ^= (-on ^ c) & (1 << n). */
  function AssignBit(c: bv8, on: bool, n: nat): (c': bv8)
    requires n < 8
    ensures TestBit(c', n) == on
  {
    c ^ (((if on then 0xFF else 0) ^ c) & Bit(n))
  }

  lemma {:induction false} XorKeepsOther(c: bv8, b: bv8, other: bv8)
    requires b & other == 0
    ensures (c ^ ((0xFF ^ c) & b)) & other == c & other
    ensures (c ^ ((0 ^ c) & b)) & other == c & other
  {
  }

  lemma {:induction false} AssignKeepsOthers(c: bv8, on: bool, n: nat, m: nat)
    requires n < 8 && m < 8 && m != n
    ensures TestBit(AssignBit(c, on, n), m) == TestBit(c, m)
  {
    BitsDisjoint(n, m);
    XorKeepsOther(c, Bit(n), Bit(m));
  }

  lemma {:induction false} LowGrows(x: bv8, n: nat)
    requires n < 8
    ensures (x & Low(n)) | (if TestBit(x, n) then Bit(n) else 0) == x & Low(n + 1)
  {
  }

  /** The number whose lowest `n` bits are given. */
  function Gather(flags: seq<bool>, n: nat): bv8
    requires n <= |flags| && n <= 8
  {
    if n == 0 then 0 else Gather(flags, n - 1) | (if flags[n - 1] then Bit(n - 1) else 0)
  }

  /** Collecting the bits of a number gives the number back, cut to as many bits. */
  lemma {:induction false} GatherBits(flags: seq<bool>, layer: bv8, n: nat)
    requires n <= |flags| && n <= 8
    requires forall b :: 0 <= b < n ==> flags[b] == TestBit(layer, b)
    ensures Gather(flags, n) == layer & Low(n)
  {
    if n > 0 {
      GatherBits(flags, layer, n - 1);
      LowGrows(layer, n - 1);
    } else {
      assert layer & 0 == 0;
    }
  }

  lemma {:induction false} ZeroBits(n: nat)
    requires n <= 8
    ensures (0 as bv8) & Low(n) == 0 && forall b :: 0 <= b < 8 ==> !TestBit(0, b)
  {
  }

  /** Row-major numbering stays below rows * cols and gives different cells different numbers. */
  lemma {:induction false} RowMajorBound(rows: nat, cols: nat, row: nat, col: nat)
    requires row < rows && col < cols
    ensures row * cols + col < rows * cols
  {
    assert (row + 1) * cols <= rows * cols;
  }

  lemma {:induction false} RowsApart(cols: nat, r: nat, c: nat, r': nat)
    requires c < cols && r < r'
    ensures r * cols + c < r' * cols
  {
    assert (r + 1) * cols <= r' * cols;
  }

  lemma {:induction false} RowMajorInjective(cols: nat, r: nat, c: nat, r': nat, c': nat)
    requires c < cols && c' < cols && r * cols + c == r' * cols + c'
    ensures r == r' && c == c'
  {
    if r < r' {
      RowsApart(cols, r, c, r');
    } else if r' < r {
      RowsApart(cols, r', c', r);
    }
  }

  /** The number of a matrix key, row by row. */
  function EntryNumber(rows: nat, cols: nat, key: KeyPos): (e: nat)
    requires key.row < rows && key.col < cols
    ensures e < rows * cols
  {
    RowMajorBound(rows, cols, key.row, key.col);
    key.row * cols + key.col
  }

  class LayerCache {
    const rows: nat
    const cols: nat
    const bits: nat
    const cells: array2<bv8>

    ghost predicate Valid() {
      && 0 < bits <= 8
      && cells.Length0 * 8 >= rows * cols
      && cells.Length1 == bits
    }

    predicate InMatrix(key: KeyPos) { key.row < rows && key.col < cols }

    ghost predicate InCache(entry: int) { 0 <= entry && entry / 8 < cells.Length0 }

    /** The bits stored for an entry number, one from each plane. */
    ghost function Flags(entry: nat): (f: seq<bool>)
      requires Valid() && InCache(entry)
      reads cells
      ensures |f| == bits
      ensures forall b :: 0 <= b < bits ==> f[b] == TestBit(cells[entry / 8, b], entry % 8)
    {
      seq(bits, b requires 0 <= b < bits reads cells => TestBit(cells[entry / 8, b], entry % 8))
    }

    /** The layer stored for an entry number. */
    ghost function At(entry: nat): bv8
      requires Valid() && InCache(entry)
      reads cells
    {
      Gather(Flags(entry), bits)
    }

    /** The layer remembered for a key: the plain map this cache stands for. */
    ghost function LayerOf(key: KeyPos): bv8
      requires Valid()
      reads cells
    {
      if InMatrix(key) then At(EntryNumber(rows, cols, key)) else 0
    }

    constructor (rows: nat, cols: nat, bits: nat)
      requires 0 < bits <= 8
      ensures Valid() && fresh(cells)
      ensures this.rows == rows && this.cols == cols && this.bits == bits
      ensures forall k :: LayerOf(k) == 0
    {
      this.rows, this.cols, this.bits := rows, cols, bits;
      cells := new bv8[(rows * cols + 7) / 8, bits]((_, _) => 0);
      new;
      forall k | InMatrix(k)
        ensures LayerOf(k) == 0
      {
        ZeroBits(bits);
        GatherBits(Flags(EntryNumber(rows, cols, k)), 0, bits);
      }
    }

    method AssignCell(idx: nat, b: nat, on: bool, pos: nat)
      requires idx < cells.Length0 && b < cells.Length1 && pos < 8
      modifies cells
      ensures forall i, j :: 0 <= i < cells.Length0 && 0 <= j < cells.Length1 && (i != idx || j != b) ==>
        cells[i, j] == old(cells[i, j])
      ensures TestBit(cells[idx, b], pos) == on
      ensures forall p :: 0 <= p < 8 && p != pos ==> TestBit(cells[idx, b], p) == TestBit(old(cells[idx, b]), p)
    {
      forall p | 0 <= p < 8 && p != pos
        ensures TestBit(AssignBit(cells[idx, b], on, pos), p) == TestBit(cells[idx, b], p)
      {
        AssignKeepsOthers(cells[idx, b], on, pos, p);
      }
      cells[idx, b] := AssignBit(cells[idx, b], on, pos);
    }

    method UpdateEntry(entry: nat, layer: bv8)
      requires Valid() && InCache(entry)
      modifies cells
      ensures At(entry) == layer & Low(bits)
      ensures forall e: nat :: InCache(e) && e != entry ==> At(e) == old(At(e))
    {
      var idx, pos := entry / 8, entry % 8;
      var b := 0;
      while b < bits
        invariant 0 <= b <= bits
        invariant forall i, j :: 0 <= i < cells.Length0 && 0 <= j < cells.Length1 && (i != idx || j >= b) ==>
          cells[i, j] == old(cells[i, j])
        invariant forall j :: 0 <= j < b ==> TestBit(cells[idx, j], pos) == TestBit(layer, j)
        invariant forall j, p :: 0 <= j < b && 0 <= p < 8 && p != pos ==>
          TestBit(cells[idx, j], p) == TestBit(old(cells[idx, j]), p)
      {
        AssignCell(idx, b, TestBit(layer, b), pos);
        b := b + 1;
      }
      GatherBits(Flags(entry), layer, bits);
      forall e: nat | InCache(e) && e != entry
        ensures At(e) == old(At(e))
      {
        assert Flags(e) == old(Flags(e));
      }
    }

    method ReadEntry(entry: nat) returns (layer: bv8)
      requires Valid() && InCache(entry)
      ensures layer == At(entry)
    {
      layer := 0;
      var b := 0;
      while b < bits
        invariant 0 <= b <= bits
        invariant layer == Gather(Flags(entry), b)
      {
        layer := layer | (if TestBit(cells[entry / 8, b], entry % 8) then Bit(b) else 0);
        b := b + 1;
      }
    }

    /** Remembers `layer`, cut to the planes there are, for this key and no other. */
    method Update(key: KeyPos, layer: bv8)
      requires Valid()
      modifies cells
      ensures LayerOf(key) == if InMatrix(key) then layer & Low(bits) else 0
      ensures forall k :: k != key ==> LayerOf(k) == old(LayerOf(k))
    {
      if key.row < rows && key.col < cols {
        UpdateEntry(EntryNumber(rows, cols, key), layer);
        forall k | k != key && InMatrix(k)
          ensures LayerOf(k) == old(LayerOf(k))
        {
          if EntryNumber(rows, cols, k) == EntryNumber(rows, cols, key) {
            RowMajorInjective(cols, k.row, k.col, key.row, key.col);
          }
        }
      }
    }

    /** The layer remembered for this key; 0 for a position outside the matrix. */
    method Read(key: KeyPos) returns (layer: bv8)
      requires Valid()
      ensures layer == LayerOf(key)
    {
      if key.row < rows && key.col < cols {
        layer := ReadEntry(EntryNumber(rows, cols, key));
      } else {
        layer := 0;
      }
    }
  }
}
