/**
 * Initialising the persistent keymap so that it survives interruption.  The magic
 * bytes are invalidated first and written last, so that whenever they are valid
 * the store is either untouched since it last was or completely reset.
 */
module Via {
  import opened Eeprom
  import opened KeymapStore
  import opened Arith
  import opened BigEndian

  /** The build's magic bytes, and what the firmware image holds for a reset. */
  datatype Image = Image(magic: seq<byte>, options: nat, code: Cell -> Keycode) {
    /** Three bytes of two decimal digits each, so none of them is 0xFF. */
    predicate Valid() { |magic| == 3 && forall i :: 0 <= i < 3 ==> magic[i] != 0xFF }
  }

  const NO_MAGIC: seq<byte> := [0xFF, 0xFF, 0xFF]

  // ---------------------------------------------------------------- the writes of an initialisation

  function MagicWrites(y: Layout, magic: seq<byte>): seq<Write>
    requires |magic| == 3
  {
    [Write(y.magicAddr, magic[0]), Write(y.magicAddr + 1, magic[1]), Write(y.magicAddr + 2, magic[2])]
  }

  /** The cells of one matrix row on one layer. */
  function RowCells(layer: nat, row: nat, n: nat): seq<Cell> {
    if n == 0 then [] else RowCells(layer, row, n - 1) + [KeyCell(KeyId(layer, row, n - 1))]
  }

  function LayerCells(y: Layout, layer: nat, n: nat): seq<Cell> {
    if n == 0 then [] else LayerCells(y, layer, n - 1) + RowCells(layer, n - 1, y.cols)
  }

  function EncoderCells(layer: nat, n: nat): seq<Cell> {
    if n == 0 then []
    else EncoderCells(layer, n - 1)
         + [EncoderCell(EncoderId(layer, n - 1, true)), EncoderCell(EncoderId(layer, n - 1, false))]
  }

  /** All cells in the order they are reset: per layer the keys, then the encoders. */
  function AllCells(y: Layout, n: nat): seq<Cell> {
    if n == 0 then []
    else AllCells(y, n - 1) + LayerCells(y, n - 1, y.rows) + EncoderCells(n - 1, y.encoders)
  }

  function CellWrites(y: Layout, cells: seq<Cell>, code: Cell -> Keycode): seq<Write> {
    if cells == [] then []
    else CellWrites(y, cells[..|cells| - 1], code) + SetCell(y, cells[|cells| - 1], code(cells[|cells| - 1]))
  }

  function MacroWrites(y: Layout): seq<Write> { AreaWrites(y.macroAddr, y.macroSize, 0, Zeros(y.macroSize)) }

  /** The data written between the two times the magic is written. */
  function DataWrites(y: Layout, d: Image): seq<Write> {
    NumberWrites(y.optionsAddr, y.optionsSize, d.options) + CellWrites(y, AllCells(y, y.layers), d.code)
    + MacroWrites(y)
  }

  function InitWrites(y: Layout, d: Image): seq<Write>
    requires d.Valid()
  {
    MagicWrites(y, NO_MAGIC) + DataWrites(y, d) + MagicWrites(y, d.magic)
  }

  // ---------------------------------------------------------------- where the writes go

  lemma {:induction false} CellsWithin(y: Layout, cells: seq<Cell>, code: Cell -> Keycode)
    requires y.CountsKeys()
    ensures Within(CellWrites(y, cells, code), y.keyAddr, y.EncoderAddr() + 4 * y.encoderKeys)
  {
    if cells != [] {
      var c := cells[|cells| - 1];
      CellsWithin(y, cells[..|cells| - 1], code);
      if HasCell(y, c) {
        CellInArea(y, c);
      }
    }
  }

  lemma {:induction false} AreaWithin(start: nat, limit: nat, offset: nat, data: seq<byte>)
    ensures Within(AreaWrites(start, limit, offset, data), start, start + limit)
  {
    if data != [] {
      AreaWithin(start, limit, offset, data[..|data| - 1]);
    }
  }

  lemma {:induction false} DataWithin(y: Layout, d: Image)
    requires y.Valid()
    ensures Within(DataWrites(y, d), y.optionsAddr, y.total)
  {
    NumberWithin(y.optionsAddr, y.optionsSize, d.options);
    CellsWithin(y, AllCells(y, y.layers), d.code);
    AreaWithin(y.macroAddr, y.macroSize, 0, Zeros(y.macroSize));
  }

  lemma {:induction false} InitFits(y: Layout, d: Image)
    requires y.Valid() && d.Valid()
    ensures Fits(y.total, InitWrites(y, d)) && |InitWrites(y, d)| == 6 + |DataWrites(y, d)|
  {
    DataWithin(y, d);
  }

  // ---------------------------------------------------------------- interruption

  /** via_eeprom_is_valid. */
  predicate IsValid(y: Layout, d: Image, m: Memory)
    requires y.Valid() && d.Valid() && |m| == y.total
  {
    m[y.magicAddr] == d.magic[0] && m[y.magicAddr + 1] == d.magic[1] && m[y.magicAddr + 2] == d.magic[2]
  }

  /** The i-th write of an initialisation, as far as the magic bytes are concerned. */
  lemma {:induction false} InitAt(y: Layout, d: Image, i: nat)
    requires y.Valid() && d.Valid() && i < |InitWrites(y, d)|
    ensures var w, n := InitWrites(y, d)[i], |DataWrites(y, d)|;
      if i < 3 then w == Write(y.magicAddr + i, 0xFF)
      else if i < 3 + n then w.addr >= y.optionsAddr
      else w.addr == y.magicAddr + i - 3 - n
  {
    var a, b, c := MagicWrites(y, NO_MAGIC), DataWrites(y, d), MagicWrites(y, d.magic);
    DataWithin(y, d);
    if i < 3 {
      assert InitWrites(y, d)[i] == a[i];
    } else if i < 3 + |b| {
      assert InitWrites(y, d)[i] == b[i - 3];
    } else {
      assert InitWrites(y, d)[i] == c[i - 3 - |b|];
    }
  }

  /** Up to the final magic bytes, the first magic byte stays invalid once anything was written. */
  lemma {:induction false} InvalidUntilMagic(y: Layout, d: Image, m: Memory, n: nat)
    requires y.Valid() && d.Valid() && |m| == y.total && Fits(|m|, InitWrites(y, d))
    requires 0 < n <= 3 + |DataWrites(y, d)| <= |InitWrites(y, d)|
    ensures Apply(m, InitWrites(y, d)[..n])[y.magicAddr] == 0xFF
  {
    var ws := InitWrites(y, d)[..n];
    InitAt(y, d, 0);
    assert ws[0] == Write(y.magicAddr, 0xFF);
    forall i | 0 <= i < |ws| && ws[i].addr == y.magicAddr
      ensures ws[i].value == 0xFF
    {
      InitAt(y, d, i);
    }
    Settled(m, ws, y.magicAddr, 0xFF);
  }

  /** The last magic byte is written last. */
  lemma {:induction false} InvalidUntilLast(y: Layout, d: Image, m: Memory, n: nat)
    requires y.Valid() && d.Valid() && |m| == y.total && Fits(|m|, InitWrites(y, d))
    requires 3 + |DataWrites(y, d)| < n < |InitWrites(y, d)| == 6 + |DataWrites(y, d)|
    ensures Apply(m, InitWrites(y, d)[..n])[y.magicAddr + 2] == 0xFF
  {
    var ws := InitWrites(y, d)[..n];
    InitAt(y, d, 2);
    assert ws[2] == Write(y.magicAddr + 2, 0xFF);
    forall i | 0 <= i < |ws| && ws[i].addr == y.magicAddr + 2
      ensures ws[i].value == 0xFF
    {
      InitAt(y, d, i);
    }
    Settled(m, ws, y.magicAddr + 2, 0xFF);
  }

  /** After any prefix of the writes, the store is valid only if nothing or everything was written. */
  lemma {:induction false} ValidOnlyAtEnds(y: Layout, d: Image, m: Memory, n: nat)
    requires y.Valid() && d.Valid() && |m| == y.total && n <= |InitWrites(y, d)|
    ensures Fits(|m|, InitWrites(y, d)[..n])
    ensures IsValid(y, d, Apply(m, InitWrites(y, d)[..n])) ==> n == 0 || n == |InitWrites(y, d)|
  {
    InitFits(y, d);
    if 0 < n <= 3 + |DataWrites(y, d)| {
      InvalidUntilMagic(y, d, m, n);
    } else if n > 0 && n < |InitWrites(y, d)| {
      InvalidUntilLast(y, d, m, n);
    }
  }

  // ---------------------------------------------------------------- what a complete initialisation leaves

  lemma {:induction false} CellAgrees(y: Layout, m: Memory, m': Memory, c: Cell)
    requires y.Valid() && |m| == |m'| == y.total
    requires forall a :: y.keyAddr <= a < y.EncoderAddr() + 4 * y.encoderKeys ==> m[a] == m'[a]
    ensures GetCell(y, m, c) == GetCell(y, m', c)
  {
    if HasCell(y, c) {
      CellInArea(y, c);
    }
  }

  /** Writing a list of cells leaves each of them with its keycode. */
  lemma {:induction false} CellsWritten(y: Layout, m: Memory, cells: seq<Cell>, code: Cell -> Keycode, c: Cell)
    requires y.Valid() && |m| == y.total && Fits(|m|, CellWrites(y, cells, code))
    requires forall i :: 0 <= i < |cells| ==> HasCell(y, cells[i])
    ensures c in cells ==> GetCell(y, Apply(m, CellWrites(y, cells, code)), c) == code(c)
  {
    if cells != [] {
      var before, last := cells[..|cells| - 1], cells[|cells| - 1];
      var a, b := CellWrites(y, before, code), SetCell(y, last, code(last));
      CellsWithin(y, before, code);
      SetCellFits(y, last, code(last));
      CellsWritten(y, m, before, code, c);
      ApplyConcat(m, a, b);
      SetThenGet(y, Apply(m, a), last, code(last), c);
    }
  }

  lemma {:induction false} RowCellsAre(layer: nat, row: nat, n: nat, c: Cell)
    ensures c in RowCells(layer, row, n) <==> c.KeyCell? && c.key.layer == layer && c.key.row == row && c.key.col < n
  {
    if n > 0 {
      RowCellsAre(layer, row, n - 1, c);
      assert c == KeyCell(KeyId(layer, row, n - 1)) <==>
        c.KeyCell? && c.key.layer == layer && c.key.row == row && c.key.col == n - 1;
    }
  }

  lemma {:induction false} LayerCellsAre(y: Layout, layer: nat, n: nat, c: Cell)
    ensures c in LayerCells(y, layer, n) <==>
      c.KeyCell? && c.key.layer == layer && c.key.row < n && c.key.col < y.cols
  {
    if n > 0 {
      LayerCellsAre(y, layer, n - 1, c);
      RowCellsAre(layer, n - 1, y.cols, c);
    }
  }

  lemma {:induction false} EncoderCellsAre(layer: nat, n: nat, c: Cell)
    ensures c in EncoderCells(layer, n) <==>
      c.EncoderCell? && c.encoder.layer == layer && c.encoder.encoder < n
  {
    if n > 0 {
      EncoderCellsAre(layer, n - 1, c);
      assert c == EncoderCell(EncoderId(layer, n - 1, true)) || c == EncoderCell(EncoderId(layer, n - 1, false)) <==>
        c.EncoderCell? && c.encoder.layer == layer && c.encoder.encoder == n - 1;
    }
  }

  lemma {:induction false} InEither<T>(a: seq<T>, b: seq<T>, c: seq<T>, x: T)
    ensures x in a + b + c <==> x in a || x in b || x in c
  {
  }

  /** The reset loops reach every cell and nothing else. */
  lemma {:induction false} AllCellsAre(y: Layout, n: nat, c: Cell)
    requires n <= y.layers
    ensures c in AllCells(y, n) <==>
      HasCell(y, c) && (if c.KeyCell? then c.key.layer < n else c.encoder.layer < n)
  {
    if n > 0 {
      AllCellsAre(y, n - 1, c);
      LayerCellsAre(y, n - 1, y.rows, c);
      EncoderCellsAre(n - 1, y.encoders, c);
      InEither(AllCells(y, n - 1), LayerCells(y, n - 1, y.rows), EncoderCells(n - 1, y.encoders), c);
    }
  }

  /** Magic valid, layout options at their default, every key and encoder as in the image, macros empty. */
  ghost predicate FullyReset(y: Layout, d: Image, m: Memory)
    requires y.Valid() && d.Valid() && |m| == y.total
  {
    && IsValid(y, d, m)
    && NumberAt(m, y.optionsAddr, y.optionsSize) == d.options % Power256(y.optionsSize)
    && (forall c :: HasCell(y, c) ==> GetCell(y, m, c) == d.code(c))
    && (forall a :: y.macroAddr <= a < y.macroAddr + y.macroSize ==> m[a] == 0)
  }

  lemma {:induction false} CellsReset(y: Layout, d: Image, m: Memory)
    requires y.Valid() && |m| == y.total
    ensures Fits(|m|, CellWrites(y, AllCells(y, y.layers), d.code))
    ensures forall c :: HasCell(y, c) ==>
      GetCell(y, Apply(m, CellWrites(y, AllCells(y, y.layers), d.code)), c) == d.code(c)
  {
    var cells := AllCells(y, y.layers);
    CellsWithin(y, cells, d.code);
    forall i | 0 <= i < |cells|
      ensures HasCell(y, cells[i])
    {
      AllCellsAre(y, y.layers, cells[i]);
    }
    forall c | HasCell(y, c)
      ensures GetCell(y, Apply(m, CellWrites(y, cells, d.code)), c) == d.code(c)
    {
      AllCellsAre(y, y.layers, c);
      CellsWritten(y, m, cells, d.code, c);
    }
  }

  /** What the data writes leave, whatever the store held before. */
  lemma {:induction false} DataReset(y: Layout, d: Image, m: Memory)
    requires y.Valid() && |m| == y.total
    ensures Fits(|m|, DataWrites(y, d))
    ensures var m' := Apply(m, DataWrites(y, d));
      && NumberAt(m', y.optionsAddr, y.optionsSize) == d.options % Power256(y.optionsSize)
      && (forall c :: HasCell(y, c) ==> GetCell(y, m', c) == d.code(c))
      && (forall a :: y.macroAddr <= a < y.macroAddr + y.macroSize ==> m'[a] == 0)
  {
    var a := NumberWrites(y.optionsAddr, y.optionsSize, d.options);
    var b := CellWrites(y, AllCells(y, y.layers), d.code);
    var c := MacroWrites(y);
    DataWithin(y, d);
    NumberWithin(y.optionsAddr, y.optionsSize, d.options);
    CellsWithin(y, AllCells(y, y.layers), d.code);
    AreaWithin(y.macroAddr, y.macroSize, 0, Zeros(y.macroSize));
    ApplyConcat(m, a, b);
    ApplyConcat(m, a + b, c);
    DataParts(y, d, m, a, b, c);
  }

  lemma {:induction false} DataParts(y: Layout, d: Image, m: Memory, a: seq<Write>, b: seq<Write>, c: seq<Write>)
    requires y.Valid() && |m| == y.total
    requires a == NumberWrites(y.optionsAddr, y.optionsSize, d.options)
    requires Within(a, y.optionsAddr, y.optionsAddr + y.optionsSize)
    requires b == CellWrites(y, AllCells(y, y.layers), d.code)
    requires Within(b, y.keyAddr, y.EncoderAddr() + 4 * y.encoderKeys)
    requires c == MacroWrites(y) && Within(c, y.macroAddr, y.macroAddr + y.macroSize)
    ensures Fits(|m|, a) && Fits(|m|, b) && Fits(|m|, c)
    ensures var m' := Apply(Apply(Apply(m, a), b), c);
      && NumberAt(m', y.optionsAddr, y.optionsSize) == d.options % Power256(y.optionsSize)
      && (forall x :: HasCell(y, x) ==> GetCell(y, m', x) == d.code(x))
      && (forall i :: y.macroAddr <= i < y.macroAddr + y.macroSize ==> m'[i] == 0)
  {
    var m1 := Apply(m, a);
    var m2 := Apply(m1, b);
    var m3 := Apply(m2, c);
    NumberRoundTrip(m, y.optionsAddr, y.optionsSize, d.options);
    forall i | y.optionsAddr <= i < y.optionsAddr + y.optionsSize
      ensures m3[i] == m1[i]
    {
      OutsideKeeps(m1, b, y.keyAddr, y.EncoderAddr() + 4 * y.encoderKeys, i);
      OutsideKeeps(m2, c, y.macroAddr, y.macroAddr + y.macroSize, i);
    }
    NumberAgrees(m1, m3, y.optionsAddr, y.optionsSize);
    CellsReset(y, d, m1);
    forall i | y.keyAddr <= i < y.EncoderAddr() + 4 * y.encoderKeys
      ensures m3[i] == m2[i]
    {
      OutsideKeeps(m2, c, y.macroAddr, y.macroAddr + y.macroSize, i);
    }
    forall x | HasCell(y, x)
      ensures GetCell(y, m3, x) == d.code(x)
    {
      CellAgrees(y, m2, m3, x);
    }
    forall i | y.macroAddr <= i < y.macroAddr + y.macroSize
      ensures m3[i] == 0
    {
      AreaWritesConfined(m2, y.macroAddr, y.macroSize, 0, Zeros(y.macroSize), i);
    }
  }

  /** The three magic bytes after they were written, with nothing else changed. */
  lemma {:induction false} MagicWritten(y: Layout, m: Memory, magic: seq<byte>)
    requires y.InOrder() && |m| == y.total && |magic| == 3
    ensures Fits(|m|, MagicWrites(y, magic))
    ensures Apply(m, MagicWrites(y, magic))
            == m[y.magicAddr := magic[0]][y.magicAddr + 1 := magic[1]][y.magicAddr + 2 := magic[2]]
  {
    var ws := MagicWrites(y, magic);
    assert ws[..2] == [ws[0], ws[1]];
    ApplyTwo(m, ws[0], ws[1]);
  }

  /** A complete initialisation resets the store, whatever it held. */
  lemma {:induction false} InitResets(y: Layout, d: Image, m: Memory)
    requires y.Valid() && d.Valid() && |m| == y.total
    ensures Fits(|m|, InitWrites(y, d)) && FullyReset(y, d, Apply(m, InitWrites(y, d)))
  {
    InitFits(y, d);
    var a, b, c := MagicWrites(y, NO_MAGIC), DataWrites(y, d), MagicWrites(y, d.magic);
    MagicWritten(y, m, NO_MAGIC);
    var m1 := Apply(m, a);
    DataReset(y, d, m1);
    var m2 := Apply(m1, b);
    ApplyConcat(m, a, b);
    MagicWritten(y, m2, d.magic);
    ApplyConcat(m, a + b, c);
    MagicLast(y, d, m2);
  }

  lemma {:induction false} MagicLast(y: Layout, d: Image, m: Memory)
    requires y.Valid() && d.Valid() && |m| == y.total
    requires NumberAt(m, y.optionsAddr, y.optionsSize) == d.options % Power256(y.optionsSize)
    requires forall c :: HasCell(y, c) ==> GetCell(y, m, c) == d.code(c)
    requires forall a :: y.macroAddr <= a < y.macroAddr + y.macroSize ==> m[a] == 0
    ensures Fits(|m|, MagicWrites(y, d.magic)) && FullyReset(y, d, Apply(m, MagicWrites(y, d.magic)))
  {
    MagicWritten(y, m, d.magic);
    var m' := Apply(m, MagicWrites(y, d.magic));
    NumberAgrees(m, m', y.optionsAddr, y.optionsSize);
    forall c | HasCell(y, c)
      ensures GetCell(y, m', c) == d.code(c)
    {
      CellAgrees(y, m, m', c);
    }
  }

  // ---------------------------------------------------------------- any number of interrupted boots

  /**
   * What can happen to the store: a boot, or an explicit reset, each cut off after
   * some number of changes; or edits outside the magic bytes.
   */
  datatype Step = Boot(power: nat) | Reset(power: nat) | Edit(writes: seq<Write>)

  predicate IsStep(y: Layout, s: Step) {
    s.Edit? ==> Within(s.writes, y.optionsAddr, y.total)
  }

  /** The store after a step: a boot initialises only a store that is not valid. */
  function After(y: Layout, d: Image, m: Memory, s: Step): (m': Memory)
    requires y.Valid() && d.Valid() && |m| == y.total && IsStep(y, s)
    ensures |m'| == |m|
  {
    InitFits(y, d);
    match s
    case Boot(power) =>
      if IsValid(y, d, m) then m else UpdateAll(Device(m, power), InitWrites(y, d)).mem
    case Reset(power) => UpdateAll(Device(m, power), InitWrites(y, d)).mem
    case Edit(writes) => Apply(m, writes)
  }

  predicate AreSteps(y: Layout, steps: seq<Step>) {
    forall i :: 0 <= i < |steps| ==> IsStep(y, steps[i])
  }

  function AfterAll(y: Layout, d: Image, m: Memory, steps: seq<Step>): (m': Memory)
    requires y.Valid() && d.Valid() && |m| == y.total && AreSteps(y, steps)
    ensures |m'| == |m|
  {
    if steps == [] then m else After(y, d, AfterAll(y, d, m, steps[..|steps| - 1]), steps[|steps| - 1])
  }

  /** The store if only the edits among the steps had happened. */
  function EditsOnly(y: Layout, m: Memory, steps: seq<Step>): (m': Memory)
    requires y.InOrder() && |m| == y.total && AreSteps(y, steps)
    ensures |m'| == |m|
  {
    if steps == [] then m
    else
      var before, s := EditsOnly(y, m, steps[..|steps| - 1]), steps[|steps| - 1];
      if s.Edit? then Apply(before, s.writes) else before
  }

  /** An interrupted initialisation that ends valid changed nothing or did everything. */
  lemma {:induction false} InitIsAllOrNothing(y: Layout, d: Image, m: Memory, power: nat)
    requires y.Valid() && d.Valid() && |m| == y.total && Fits(|m|, InitWrites(y, d))
    requires IsValid(y, d, UpdateAll(Device(m, power), InitWrites(y, d)).mem)
    ensures var m' := UpdateAll(Device(m, power), InitWrites(y, d)).mem; m' == m || FullyReset(y, d, m')
  {
    var ws := InitWrites(y, d);
    var n := SomePrefix(Device(m, power), ws);
    ValidOnlyAtEnds(y, d, m, n);
    InitResets(y, d, m);
    assert ws[..0] == [] && ws[..|ws|] == ws;
  }

  /** From step `j` on only edits changed the store, and there it was as found or fully reset. */
  ghost predicate TrustedSince(y: Layout, d: Image, m: Memory, steps: seq<Step>, j: nat)
    requires y.Valid() && d.Valid() && |m| == y.total && AreSteps(y, steps) && j <= |steps|
  {
    var base := AfterAll(y, d, m, steps[..j]);
    && (j == 0 || FullyReset(y, d, base)) && IsValid(y, d, base)
    && AfterAll(y, d, m, steps) == EditsOnly(y, base, steps[j..])
  }

  lemma {:induction false} TrustExtends(y: Layout, d: Image, m: Memory, steps: seq<Step>, j: nat)
    requires y.Valid() && d.Valid() && |m| == y.total && steps != [] && AreSteps(y, steps) && j < |steps|
    requires TrustedSince(y, d, m, steps[..|steps| - 1], j)
    requires var before, s := AfterAll(y, d, m, steps[..|steps| - 1]), steps[|steps| - 1];
      s.Edit? || After(y, d, before, s) == before
    ensures TrustedSince(y, d, m, steps, j)
  {
    var n := |steps| - 1;
    assert steps[..n][..j] == steps[..j];
    assert steps[j..][..|steps[j..]| - 1] == steps[..n][j..];
  }

  lemma {:induction false} TrustStarts(y: Layout, d: Image, m: Memory, steps: seq<Step>)
    requires y.Valid() && d.Valid() && |m| == y.total && AreSteps(y, steps)
    requires IsValid(y, d, AfterAll(y, d, m, steps))
    requires steps == [] || FullyReset(y, d, AfterAll(y, d, m, steps))
    ensures TrustedSince(y, d, m, steps, |steps|)
  {
    assert steps[..|steps|] == steps && steps[|steps|..] == [];
  }

  lemma {:induction false} EditKeepsMagic(y: Layout, d: Image, m: Memory, ws: seq<Write>)
    requires y.Valid() && d.Valid() && |m| == y.total && Within(ws, y.optionsAddr, y.total)
    ensures Fits(|m|, ws) && (IsValid(y, d, Apply(m, ws)) <==> IsValid(y, d, m))
  {
    OutsideKeeps(m, ws, y.optionsAddr, y.total, y.magicAddr);
    OutsideKeeps(m, ws, y.optionsAddr, y.total, y.magicAddr + 1);
    OutsideKeeps(m, ws, y.optionsAddr, y.total, y.magicAddr + 2);
  }

  /**
   * Crash consistency: from any contents, through any number of boots and resets,
   * each interrupted anywhere, a valid store is one that was valid from the start
   * or fully reset at some step, with nothing but edits since.
   */
  lemma {:induction false} ValidMeansTrusted(y: Layout, d: Image, m: Memory, steps: seq<Step>) returns (j: nat)
    requires y.Valid() && d.Valid() && |m| == y.total && AreSteps(y, steps)
    requires IsValid(y, d, AfterAll(y, d, m, steps))
    ensures j <= |steps| && TrustedSince(y, d, m, steps, j)
  {
    if steps == [] {
      j := 0;
      TrustStarts(y, d, m, steps);
    } else {
      var n := |steps| - 1;
      var before, s := AfterAll(y, d, m, steps[..n]), steps[n];
      var after := After(y, d, before, s);
      if s.Edit? {
        EditKeepsMagic(y, d, before, s.writes);
      } else {
        InitFits(y, d);
        if !(s.Boot? && IsValid(y, d, before)) {
          InitIsAllOrNothing(y, d, before, s.power);
        }
      }
      if s.Edit? || after == before {
        j := ValidMeansTrusted(y, d, m, steps[..n]);
        TrustExtends(y, d, m, steps, j);
      } else {
        j := |steps|;
        TrustStarts(y, d, m, steps);
      }
    }
  }

  // ---------------------------------------------------------------- a boot that is not cut off

  /** With enough power a boot resets a store that is not valid, whatever it held; a valid one is left alone. */
  lemma {:induction false} BootResets(y: Layout, d: Image, m: Memory, power: nat)
    requires y.Valid() && d.Valid() && |m| == y.total
    ensures !IsValid(y, d, m) && |InitWrites(y, d)| <= power ==> FullyReset(y, d, After(y, d, m, Boot(power)))
    ensures IsValid(y, d, m) ==> After(y, d, m, Boot(power)) == m
  {
    InitResets(y, d, m);
    if |InitWrites(y, d)| <= power {
      EnoughPower(Device(m, power), InitWrites(y, d));
    }
  }

  /** With enough power an explicit reset resets any store. */
  lemma {:induction false} ResetResets(y: Layout, d: Image, m: Memory, power: nat)
    requires y.Valid() && d.Valid() && |m| == y.total && |InitWrites(y, d)| <= power
    ensures FullyReset(y, d, After(y, d, m, Reset(power)))
  {
    InitResets(y, d, m);
    EnoughPower(Device(m, power), InitWrites(y, d));
  }

  /**
   * However often boots, resets and edits went before and were cut off, one boot with
   * enough power ends with a valid store: the one before if it was valid, else a fully
   * reset one.
   */
  lemma {:induction false} BootRecovers(y: Layout, d: Image, m: Memory, steps: seq<Step>, power: nat)
    requires y.Valid() && d.Valid() && |m| == y.total && AreSteps(y, steps) && |InitWrites(y, d)| <= power
    ensures AreSteps(y, steps + [Boot(power)])
    ensures var before, after := AfterAll(y, d, m, steps), AfterAll(y, d, m, steps + [Boot(power)]);
      && IsValid(y, d, after)
      && (if IsValid(y, d, before) then after == before else FullyReset(y, d, after))
  {
    assert (steps + [Boot(power)])[..|steps|] == steps;
    BootResets(y, d, AfterAll(y, d, m, steps), power);
  }
}
