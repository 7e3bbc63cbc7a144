/**
 * The persistent keymap: where each key, encoder and macro byte lives, reading and
 * writing single keycodes, and reading and writing the key area in bulk.
 */
module KeymapStore {
  import opened Eeprom
  import opened SourceLayers

  type Keycode = k: int | 0 <= k < 0x1_0000

  const KC_NO: Keycode := 0

  /** The configured sizes and start addresses. */
  datatype Layout = Layout(
    layers: nat, rows: nat, cols: nat, encoders: nat, keys: nat, encoderKeys: nat,
    magicAddr: nat, optionsAddr: nat, optionsSize: nat,
    keyAddr: nat, macroAddr: nat, macroSize: nat, total: nat)
  {
    /** Encoders start right after the keys. */
    function EncoderAddr(): nat { keyAddr + 2 * keys }

    predicate CountsKeys() { keys == layers * rows * cols && encoderKeys == layers * encoders }

    /**
     * The areas follow each other without overlap: magic, layout options, custom
     * configuration, keys, encoders, macros.
     */
    predicate InOrder() {
      && magicAddr + 3 <= optionsAddr
      && optionsAddr + optionsSize <= keyAddr
      && EncoderAddr() + 4 * encoderKeys <= macroAddr
      && macroAddr + macroSize <= total
    }

    predicate Valid() { CountsKeys() && InOrder() }
  }

  datatype KeyId = KeyId(layer: nat, row: nat, col: nat)

  datatype EncoderId = EncoderId(layer: nat, encoder: nat, clockwise: bool)

  predicate HasKey(y: Layout, k: KeyId) { k.layer < y.layers && k.row < y.rows && k.col < y.cols }

  predicate HasEncoder(y: Layout, e: EncoderId) { e.layer < y.layers && e.encoder < y.encoders }

  // ---------------------------------------------------------------- addresses

  /** The place of column `j` of row `i` in rows of length `n`: i * n + j. */
  function Place(n: nat, i: nat, j: nat): nat {
    if i == 0 then j else n + Place(n, i - 1, j)
  }

  lemma {:induction false} PlaceIs(n: nat, i: nat, j: nat)
    ensures Place(n, i, j) == i * n + j
  {
    if i > 0 {
      PlaceIs(n, i - 1, j);
      assert i * n == (i - 1) * n + n;
    }
  }

  lemma {:induction false} PlaceBound(rows: nat, n: nat, i: nat, j: nat)
    requires i < rows && j < n
    ensures Place(n, i, j) < rows * n
  {
    PlaceIs(n, i, j);
    RowMajorBound(rows, n, i, j);
  }

  lemma {:induction false} PlaceInjective(n: nat, i: nat, j: nat, k: nat, l: nat)
    requires j < n && l < n && Place(n, i, j) == Place(n, k, l)
    ensures i == k && j == l
  {
    PlaceIs(n, i, j);
    PlaceIs(n, k, l);
    RowMajorInjective(n, i, j, k, l);
  }

  /** The number of a key, in the order layer, row, column. */
  function KeyIndex(y: Layout, k: KeyId): nat { Place(y.cols, Place(y.rows, k.layer, k.row), k.col) }

  function EncoderIndex(y: Layout, e: EncoderId): nat {
    2 * Place(y.encoders, e.layer, e.encoder) + (if e.clockwise then 0 else 1)
  }

  lemma {:induction false} KeyIndexBound(y: Layout, k: KeyId)
    requires HasKey(y, k) && y.CountsKeys()
    ensures KeyIndex(y, k) < y.keys
  {
    PlaceBound(y.layers, y.rows, k.layer, k.row);
    PlaceBound(y.layers * y.rows, y.cols, Place(y.rows, k.layer, k.row), k.col);
  }

  lemma {:induction false} EncoderIndexBound(y: Layout, e: EncoderId)
    requires HasEncoder(y, e) && y.CountsKeys()
    ensures EncoderIndex(y, e) < 2 * y.encoderKeys
  {
    PlaceBound(y.layers, y.encoders, e.layer, e.encoder);
  }

  lemma {:induction false} KeyIndexInjective(y: Layout, k: KeyId, l: KeyId)
    requires HasKey(y, k) && HasKey(y, l) && KeyIndex(y, k) == KeyIndex(y, l)
    ensures k == l
  {
    PlaceInjective(y.cols, Place(y.rows, k.layer, k.row), k.col, Place(y.rows, l.layer, l.row), l.col);
    PlaceInjective(y.rows, k.layer, k.row, l.layer, l.row);
  }

  lemma {:induction false} EncoderIndexInjective(y: Layout, e: EncoderId, f: EncoderId)
    requires HasEncoder(y, e) && HasEncoder(y, f) && EncoderIndex(y, e) == EncoderIndex(y, f)
    ensures e == f
  {
    PlaceInjective(y.encoders, e.layer, e.encoder, f.layer, f.encoder);
  }

  function KeyAddress(y: Layout, k: KeyId): nat { y.keyAddr + 2 * KeyIndex(y, k) }

  /** The address as the firmware computes it, field by field. */
  lemma {:induction false} KeyAddressFormula(y: Layout, k: KeyId)
    ensures KeyAddress(y, k)
            == y.keyAddr + k.layer * y.rows * y.cols * 2 + k.row * y.cols * 2 + k.col * 2
  {
    PlaceIs(y.rows, k.layer, k.row);
    PlaceIs(y.cols, Place(y.rows, k.layer, k.row), k.col);
    Distribute(k.layer * y.rows, k.row, y.cols);
  }

  lemma {:induction false} Distribute(a: nat, b: nat, c: nat)
    ensures (a + b) * c == a * c + b * c
  {
  }

  function EncoderAddress(y: Layout, e: EncoderId): nat { y.EncoderAddr() + 2 * EncoderIndex(y, e) }

  /** Encoders lie behind all keys, four bytes each, clockwise first. */
  lemma {:induction false} EncoderAddressFormula(y: Layout, e: EncoderId)
    ensures EncoderAddress(y, e)
            == y.keyAddr + y.keys * 2 + e.layer * y.encoders * 4 + e.encoder * 4 + (if e.clockwise then 0 else 2)
  {
    PlaceIs(y.encoders, e.layer, e.encoder);
  }

  /** A key's or encoder's two-byte cell. */
  datatype Cell = KeyCell(key: KeyId) | EncoderCell(encoder: EncoderId)

  predicate HasCell(y: Layout, c: Cell) {
    match c
    case KeyCell(k) => HasKey(y, k)
    case EncoderCell(e) => HasEncoder(y, e)
  }

  function Address(y: Layout, c: Cell): nat {
    match c
    case KeyCell(k) => KeyAddress(y, k)
    case EncoderCell(e) => EncoderAddress(y, e)
  }

  /** Every cell lies in its own area. */
  lemma {:induction false} CellInArea(y: Layout, c: Cell)
    requires HasCell(y, c) && y.CountsKeys()
    ensures c.KeyCell? ==> y.keyAddr <= Address(y, c) <= y.EncoderAddr() - 2
    ensures c.EncoderCell? ==>
      y.EncoderAddr() <= Address(y, c) <= y.EncoderAddr() + 4 * y.encoderKeys - 2
  {
    match c
    case KeyCell(k) => KeyIndexBound(y, k);
    case EncoderCell(e) => EncoderIndexBound(y, e);
  }

  /** Different cells do not overlap. */
  lemma {:induction false} CellsDisjoint(y: Layout, c: Cell, d: Cell)
    requires HasCell(y, c) && HasCell(y, d) && c != d && y.CountsKeys()
    ensures Address(y, c) + 2 <= Address(y, d) || Address(y, d) + 2 <= Address(y, c)
  {
    CellInArea(y, c);
    CellInArea(y, d);
    if c.KeyCell? && d.KeyCell? && KeyIndex(y, c.key) == KeyIndex(y, d.key) {
      KeyIndexInjective(y, c.key, d.key);
    }
    if c.EncoderCell? && d.EncoderCell? && EncoderIndex(y, c.encoder) == EncoderIndex(y, d.encoder) {
      EncoderIndexInjective(y, c.encoder, d.encoder);
    }
  }

  // ---------------------------------------------------------------- single keycodes

  /** The keycode stored in a cell, big endian; KC_NO for a cell there is not. */
  function GetCell(y: Layout, m: Memory, c: Cell): Keycode
    requires y.Valid() && |m| == y.total
  {
    if HasCell(y, c) then
      CellInArea(y, c);
      WordAt(m, Address(y, c))
    else KC_NO
  }

  /** The writes that store a keycode; none for a cell there is not. */
  function SetCell(y: Layout, c: Cell, code: Keycode): seq<Write> {
    if HasCell(y, c) then [Write(Address(y, c), code / 256), Write(Address(y, c) + 1, code % 256)] else []
  }

  lemma {:induction false} SetCellFits(y: Layout, c: Cell, code: Keycode)
    requires y.Valid()
    ensures Fits(y.total, SetCell(y, c, code))
  {
    if HasCell(y, c) {
      CellInArea(y, c);
    }
  }

  lemma {:induction false} ApplyTwo(m: Memory, a: Write, b: Write)
    requires a.addr < |m| && b.addr < |m|
    ensures Apply(m, [a, b]) == m[a.addr := a.value][b.addr := b.value]
  {
    assert [a, b][..1] == [a] && [a][..0] == [];
    assert Apply(m, [a]) == Apply(m, [])[a.addr := a.value];
  }

  /** Two bytes as one big-endian number. */
  function WordAt(m: Memory, a: nat): Keycode
    requires a + 1 < |m|
  {
    var hi: int, lo: int := m[a], m[a + 1];
    hi * 256 + lo
  }

  lemma {:induction false} PutWord(m: Memory, a: nat, code: Keycode, b: nat)
    requires a + 1 < |m| && b + 1 < |m| && (b == a || b + 2 <= a || a + 2 <= b)
    ensures WordAt(Apply(m, [Write(a, code / 256), Write(a + 1, code % 256)]), b)
            == if b == a then code else WordAt(m, b)
  {
    ApplyTwo(m, Write(a, code / 256), Write(a + 1, code % 256));
  }

  /** Reading back what was written: this cell has the new keycode, every other its old one. */
  lemma {:induction false} SetThenGet(y: Layout, m: Memory, c: Cell, code: Keycode, d: Cell)
    requires y.Valid() && |m| == y.total && HasCell(y, c) && Fits(|m|, SetCell(y, c, code))
    ensures GetCell(y, Apply(m, SetCell(y, c, code)), d) == if d == c then code else GetCell(y, m, d)
  {
    CellInArea(y, c);
    if HasCell(y, d) {
      CellInArea(y, d);
      if d != c {
        CellsDisjoint(y, c, d);
      }
      PutWord(m, Address(y, c), code, Address(y, d));
    }
  }

  // ---------------------------------------------------------------- bulk access

  /** The key a position of the key area belongs to. */
  lemma {:induction false} KeyAtIndex(y: Layout, index: nat) returns (k: KeyId)
    requires y.CountsKeys() && index < y.keys
    ensures HasKey(y, k) && KeyIndex(y, k) == index
  {
    PositiveFactors(y.layers, y.rows, y.cols);
    var q := index / y.cols;
    DivSmall(index, y.cols, y.layers * y.rows);
    DivSmall(q, y.rows, y.layers);
    k := KeyId(q / y.rows, q % y.rows, index % y.cols);
    PlaceIs(y.rows, k.layer, k.row);
    PlaceIs(y.cols, q, k.col);
  }

  ghost function KeyAt(y: Layout, index: nat): (k: KeyId)
    requires y.CountsKeys() && index < y.keys
    ensures HasKey(y, k) && KeyIndex(y, k) == index
  {
    assert exists k :: HasKey(y, k) && KeyIndex(y, k) == index by {
      var k := KeyAtIndex(y, index);
    }
    var k :| HasKey(y, k) && KeyIndex(y, k) == index;
    k
  }

  lemma {:induction false} DivSmall(x: nat, d: nat, n: nat)
    requires d > 0 && x < n * d
    ensures x / d < n && x / d * d + x % d == x
  {
    if x / d >= n {
      MulGrows(n, x / d, d);
    }
  }

  lemma {:induction false} MulGrows(n: nat, q: nat, d: nat)
    requires n <= q
    ensures n * d <= q * d
  {
  }

  lemma {:induction false} PositiveFactors(a: nat, b: nat, c: nat)
    requires a * b * c > 0
    ensures b > 0 && c > 0
  {
  }

  /** A byte of the stream of keycodes, each as two bytes, high byte first. */
  ghost function StreamByte(y: Layout, m: Memory, p: nat): byte
    requires y.Valid() && |m| == y.total && p < 2 * y.keys
  {
    var code := GetCell(y, m, KeyCell(KeyAt(y, p / 2)));
    if p % 2 == 0 then code / 256 else code % 256
  }

  /** Bytes of an area of `limit` bytes at `start`, zeros beyond it. */
  function ReadArea(m: Memory, start: nat, limit: nat, offset: nat, size: nat): (data: seq<byte>)
    requires start + limit <= |m|
    ensures |data| == size
  {
    seq(size, i requires 0 <= i < size => if offset + i < limit then m[start + offset + i] else 0)
  }

  /** dynamic_keymap_get_buffer. */
  function GetBuffer(y: Layout, m: Memory, offset: nat, size: nat): (data: seq<byte>)
    requires y.InOrder() && |m| == y.total
    ensures |data| == size
  {
    ReadArea(m, y.keyAddr, 2 * y.keys, offset, size)
  }

  lemma {:induction false} StreamByteIs(y: Layout, m: Memory, p: nat)
    requires y.Valid() && |m| == y.total && p < 2 * y.keys
    ensures StreamByte(y, m, p) == m[y.keyAddr + p]
  {
    var k := KeyAt(y, p / 2);
    assert KeyAddress(y, k) == y.keyAddr + 2 * (p / 2);
  }

  /** Bulk reading gives the stream of keycodes, padded with zeros. */
  lemma {:induction false} BulkReadsKeycodes(y: Layout, m: Memory, offset: nat, size: nat, i: nat)
    requires y.Valid() && |m| == y.total && i < size
    ensures GetBuffer(y, m, offset, size)[i]
            == if offset + i < 2 * y.keys then StreamByte(y, m, offset + i) else 0
  {
    if offset + i < 2 * y.keys {
      StreamByteIs(y, m, offset + i);
    }
  }

  /** Writes the bytes that fall inside an area of `limit` bytes at `start`. */
  function AreaWrites(start: nat, limit: nat, offset: nat, data: seq<byte>): seq<Write> {
    if data == [] then []
    else
      var n := |data| - 1;
      AreaWrites(start, limit, offset, data[..n])
      + (if offset + n < limit then [Write(start + offset + n, data[n])] else [])
  }

  lemma {:induction false} AreaWritesFit(size: nat, start: nat, limit: nat, offset: nat, data: seq<byte>)
    requires start + limit <= size
    ensures Fits(size, AreaWrites(start, limit, offset, data))
  {
    if data != [] {
      AreaWritesFit(size, start, limit, offset, data[..|data| - 1]);
    }
  }

  /** Bytes inside the area and the given range take the data, all others keep their value. */
  lemma {:induction false} AreaWritesConfined(m: Memory, start: nat, limit: nat, offset: nat, data: seq<byte>, a: nat)
    requires start + limit <= |m| && a < |m| && Fits(|m|, AreaWrites(start, limit, offset, data))
    ensures Apply(m, AreaWrites(start, limit, offset, data))[a]
            == if offset <= a - start < offset + |data| && a - start < limit then data[a - start - offset] else m[a]
  {
    if data != [] {
      var n := |data| - 1;
      var ws := AreaWrites(start, limit, offset, data[..n]);
      AreaWritesFit(|m|, start, limit, offset, data[..n]);
      AreaWritesConfined(m, start, limit, offset, data[..n], a);
      if offset + n < limit {
        assert (ws + [Write(start + offset + n, data[n])])[..|ws|] == ws;
      } else {
        assert ws + [] == ws;
      }
    }
  }

  /** dynamic_keymap_set_buffer. */
  function SetBuffer(y: Layout, offset: nat, data: seq<byte>): seq<Write> {
    AreaWrites(y.keyAddr, 2 * y.keys, offset, data)
  }

  /** Bulk writing leaves every encoder, macro and configuration byte alone. */
  lemma {:induction false} BulkWriteIsConfined(y: Layout, m: Memory, offset: nat, data: seq<byte>, a: nat)
    requires y.InOrder() && |m| == y.total && a < |m|
    ensures Fits(|m|, SetBuffer(y, offset, data))
    ensures a < y.keyAddr || a >= y.EncoderAddr() ==> Apply(m, SetBuffer(y, offset, data))[a] == m[a]
  {
    AreaWritesFit(|m|, y.keyAddr, 2 * y.keys, offset, data);
    if a < y.keyAddr || a >= y.EncoderAddr() {
      AreaWritesConfined(m, y.keyAddr, 2 * y.keys, offset, data, a);
    }
  }

  /** Reading an area gives back what was written, as far as the area reaches. */
  lemma {:induction false} AreaWriteThenRead(m: Memory, start: nat, limit: nat, offset: nat, data: seq<byte>, i: nat)
    requires start + limit <= |m| && i < |data| && Fits(|m|, AreaWrites(start, limit, offset, data))
    ensures ReadArea(Apply(m, AreaWrites(start, limit, offset, data)), start, limit, offset, |data|)[i]
            == if offset + i < limit then data[i] else 0
  {
    if offset + i < limit {
      AreaWritesConfined(m, start, limit, offset, data, start + offset + i);
    }
  }

  /** Bulk reading gives back what bulk writing wrote, as far as the key area reaches. */
  lemma {:induction false} BulkWriteThenRead(y: Layout, m: Memory, offset: nat, data: seq<byte>, i: nat)
    requires y.InOrder() && |m| == y.total && i < |data| && Fits(|m|, SetBuffer(y, offset, data))
    ensures GetBuffer(y, Apply(m, SetBuffer(y, offset, data)), offset, |data|)[i]
            == if offset + i < 2 * y.keys then data[i] else 0
  {
    AreaWriteThenRead(m, y.keyAddr, 2 * y.keys, offset, data, i);
  }
}
