/**
 * The persistent keymap as the firmware runs it: byte updates on a memory chip
 * that may lose power, issued by nested loops and moving pointers.  Every method
 * is proved to issue exactly the writes that KeymapStore and Via describe.
 */
module ViaStore {
  import opened Eeprom
  import opened KeymapStore
  import opened Via
  import opened BigEndian

  lemma {:induction false} OneMore(d: Device, ws: seq<Write>, w: Write)
    requires Fits(|d.mem|, ws) && w.addr < |d.mem|
    ensures Fits(|d.mem|, ws + [w]) && UpdateAll(d, ws + [w]) == Update(UpdateAll(d, ws), w)
  {
    assert (ws + [w])[..|ws|] == ws;
  }

  lemma {:induction false} CellWritesConcat(y: Layout, a: seq<Cell>, b: seq<Cell>, code: Cell -> Keycode)
    ensures CellWrites(y, a + b, code) == CellWrites(y, a, code) + CellWrites(y, b, code)
  {
    if b == [] {
      assert a + b == a;
    } else {
      assert (a + b)[..|a + b| - 1] == a + b[..|b| - 1];
      CellWritesConcat(y, a, b[..|b| - 1], code);
    }
  }

  lemma {:induction false} OneCell(y: Layout, c: Cell, code: Cell -> Keycode)
    ensures CellWrites(y, [c], code) == SetCell(y, c, code(c))
  {
    var cells := [c];
    assert cells[..|cells| - 1] == [];
    assert CellWrites(y, [], code) == [];
  }

  lemma {:induction false} AreaStep(start: nat, limit: nat, offset: nat, data: seq<byte>, more: seq<byte>, v: byte)
    requires more == data + [v]
    ensures AreaWrites(start, limit, offset, more) == AreaWrites(start, limit, offset, data)
      + if offset + |data| < limit then [Write(start + offset + |data|, v)] else []
  {
    assert more[..|more| - 1] == data;
  }

  /** One more byte of a bulk write: one more update, unless it falls behind the area. */
  lemma {:induction false} AreaUpdate(
      was: Device, start: nat, limit: nat, offset: nat, data: seq<byte>, more: seq<byte>, v: byte)
    requires start + limit <= |was.mem| && more == data + [v]
    requires Fits(|was.mem|, AreaWrites(start, limit, offset, data))
    ensures Fits(|was.mem|, AreaWrites(start, limit, offset, more))
    ensures UpdateAll(was, AreaWrites(start, limit, offset, more))
            == var d := UpdateAll(was, AreaWrites(start, limit, offset, data));
               if offset + |data| < limit then Update(d, Write(start + offset + |data|, v)) else d
  {
    AreaStep(start, limit, offset, data, more, v);
    if offset + |data| < limit {
      OneMore(was, AreaWrites(start, limit, offset, data), Write(start + offset + |data|, v));
    } else {
      assert AreaWrites(start, limit, offset, data) + [] == AreaWrites(start, limit, offset, data);
    }
  }

  class Store {
    const y: Layout
    const d: Image
    const chip: Chip

    ghost predicate Valid() { y.Valid() && d.Valid() && chip.cells.Length == y.total }

    constructor (y: Layout, d: Image, chip: Chip)
      requires y.Valid() && d.Valid() && chip.cells.Length == y.total
      ensures Valid() && this.y == y && this.d == d && this.chip == chip
    {
      this.y, this.d, this.chip := y, d, chip;
    }

    method IsStoreValid() returns (valid: bool)
      requires Valid()
      ensures valid == IsValid(y, d, chip.cells[..])
    {
      valid := && chip.cells[y.magicAddr] == d.magic[0]
               && chip.cells[y.magicAddr + 1] == d.magic[1]
               && chip.cells[y.magicAddr + 2] == d.magic[2];
    }

    method SetValid(valid: bool)
      requires Valid()
      modifies chip, chip.cells
      ensures Fits(y.total, MagicWrites(y, if valid then d.magic else NO_MAGIC))
      ensures chip.Abs() == UpdateAll(old(chip.Abs()), MagicWrites(y, if valid then d.magic else NO_MAGIC))
    {
      var magic := if valid then d.magic else NO_MAGIC;
      ghost var ws, was := MagicWrites(y, magic), chip.Abs();
      assert ws[..2] == [ws[0], ws[1]] && ws[..2][..1] == [ws[0]] && [ws[0]][..0] == [];
      chip.UpdateByte(y.magicAddr, magic[0]);
      assert chip.Abs() == UpdateAll(was, [ws[0]]);
      chip.UpdateByte(y.magicAddr + 1, magic[1]);
      assert chip.Abs() == UpdateAll(was, ws[..2]);
      chip.UpdateByte(y.magicAddr + 2, magic[2]);
    }

    method GetLayoutOptions() returns (value: nat)
      requires Valid()
      ensures value == NumberAt(chip.cells[..], y.optionsAddr, y.optionsSize)
    {
      value := 0;
      for i := 0 to y.optionsSize
        invariant value == NumberAt(chip.cells[..], y.optionsAddr, i)
      {
        value := 256 * value + chip.cells[y.optionsAddr + i];
      }
    }

    /** Writes the least significant byte first, moving down. */
    method SetLayoutOptions(value: nat)
      requires Valid()
      modifies chip, chip.cells
      ensures Fits(y.total, NumberWrites(y.optionsAddr, y.optionsSize, value))
      ensures chip.Abs() == UpdateAll(old(chip.Abs()), NumberWrites(y.optionsAddr, y.optionsSize, value))
    {
      ghost var was, all := chip.Abs(), NumberWrites(y.optionsAddr, y.optionsSize, value);
      NumberWithin(y.optionsAddr, y.optionsSize, value);
      var i, rest := 0, value;
      ghost var done: seq<Write> := [];
      while i < y.optionsSize
        invariant 0 <= i <= y.optionsSize && chip.cells.Length == y.total
        invariant Fits(y.total, done) && chip.Abs() == UpdateAll(was, done)
        invariant all == done + NumberWrites(y.optionsAddr, y.optionsSize - i, rest)
      {
        var addr := y.optionsAddr + y.optionsSize - 1 - i;
        OneMore(was, done, Write(addr, rest % 256));
        chip.UpdateByte(addr, rest % 256);
        done := done + [Write(addr, rest % 256)];
        i, rest := i + 1, rest / 256;
      }
      assert all == done;
    }

    method GetKeycode(c: Cell) returns (code: Keycode)
      requires Valid()
      ensures code == GetCell(y, chip.cells[..], c)
    {
      if !HasCell(y, c) {
        return KC_NO;
      }
      CellInArea(y, c);
      var a := Address(y, c);
      var hi: int, lo: int := chip.cells[a], chip.cells[a + 1];
      code := hi * 256 + lo;
    }

    method SetKeycode(c: Cell, code: Keycode)
      requires Valid()
      modifies chip, chip.cells
      ensures Fits(y.total, SetCell(y, c, code))
      ensures chip.Abs() == UpdateAll(old(chip.Abs()), SetCell(y, c, code))
    {
      SetCellFits(y, c, code);
      if !HasCell(y, c) {
        return;
      }
      CellInArea(y, c);
      var a := Address(y, c);
      ghost var ws := SetCell(y, c, code);
      assert ws[..1] == [ws[0]] && [ws[0]][..0] == [];
      chip.UpdateByte(a, code / 256);
      assert chip.Abs() == UpdateAll(old(chip.Abs()), [ws[0]]);
      chip.UpdateByte(a + 1, code % 256);
    }

    /** The loop of dynamic_keymap_get_buffer and dynamic_keymap_macro_get_buffer. */
    method GetAreaBytes(start: nat, limit: nat, offset: nat, size: nat) returns (data: seq<byte>)
      requires start + limit <= chip.cells.Length
      ensures data == ReadArea(chip.cells[..], start, limit, offset, size)
    {
      data := [];
      var source := start + offset;
      for i := 0 to size
        invariant source == start + offset + i && |data| == i
        invariant forall k :: 0 <= k < i ==>
          data[k] == if offset + k < limit then chip.cells[start + offset + k] else 0
      {
        data := data + [if offset + i < limit then chip.cells[source] else 0];
        source := source + 1;
      }
    }

    /** The loop of dynamic_keymap_set_buffer and dynamic_keymap_macro_set_buffer. */
    method SetAreaBytes(start: nat, limit: nat, offset: nat, data: seq<byte>)
      requires start + limit <= chip.cells.Length
      modifies chip, chip.cells
      ensures Fits(chip.cells.Length, AreaWrites(start, limit, offset, data))
      ensures chip.Abs() == UpdateAll(old(chip.Abs()), AreaWrites(start, limit, offset, data))
    {
      ghost var was := chip.Abs();
      var target := start + offset;
      for i := 0 to |data|
        invariant target == start + offset + i
        invariant Fits(chip.cells.Length, AreaWrites(start, limit, offset, data[..i]))
        invariant chip.Abs() == UpdateAll(was, AreaWrites(start, limit, offset, data[..i]))
      {
        assert data[..i + 1] == data[..i] + [data[i]];
        AreaUpdate(was, start, limit, offset, data[..i], data[..i + 1], data[i]);
        if offset + i < limit {
          chip.UpdateByte(target, data[i]);
        }
        target := target + 1;
      }
      assert data[..|data|] == data;
    }

    ghost function CellsReset(cells: seq<Cell>): seq<Write> { CellWrites(y, cells, d.code) }

    /** Resetting one list of cells and then another is resetting both. */
    lemma {:induction false} ThenReset(was: Device, a: seq<Cell>, b: seq<Cell>)
      requires Valid() && |was.mem| == y.total
      ensures Fits(y.total, CellsReset(a)) && Fits(y.total, CellsReset(b)) && Fits(y.total, CellsReset(a + b))
      ensures UpdateAll(UpdateAll(was, CellsReset(a)), CellsReset(b)) == UpdateAll(was, CellsReset(a + b))
    {
      CellsWithin(y, a, d.code);
      CellsWithin(y, b, d.code);
      CellWritesConcat(y, a, b, d.code);
      UpdateConcat(was, CellsReset(a), CellsReset(b));
    }

    method ResetCell(c: Cell)
      requires Valid()
      modifies chip, chip.cells
      ensures Fits(y.total, CellsReset([c])) && chip.Abs() == UpdateAll(old(chip.Abs()), CellsReset([c]))
    {
      SetKeycode(c, d.code(c));
      OneCell(y, c, d.code);
    }

    method ResetRow(layer: nat, row: nat)
      requires Valid()
      modifies chip, chip.cells
      ensures Fits(y.total, CellsReset(RowCells(layer, row, y.cols)))
      ensures chip.Abs() == UpdateAll(old(chip.Abs()), CellsReset(RowCells(layer, row, y.cols)))
    {
      ghost var was := chip.Abs();
      for col := 0 to y.cols
        invariant Fits(y.total, CellsReset(RowCells(layer, row, col)))
        invariant chip.Abs() == UpdateAll(was, CellsReset(RowCells(layer, row, col)))
      {
        ThenReset(was, RowCells(layer, row, col), [KeyCell(KeyId(layer, row, col))]);
        ResetCell(KeyCell(KeyId(layer, row, col)));
      }
    }

    method ResetKeys(layer: nat)
      requires Valid()
      modifies chip, chip.cells
      ensures Fits(y.total, CellsReset(LayerCells(y, layer, y.rows)))
      ensures chip.Abs() == UpdateAll(old(chip.Abs()), CellsReset(LayerCells(y, layer, y.rows)))
    {
      ghost var was := chip.Abs();
      for row := 0 to y.rows
        invariant Fits(y.total, CellsReset(LayerCells(y, layer, row)))
        invariant chip.Abs() == UpdateAll(was, CellsReset(LayerCells(y, layer, row)))
      {
        ThenReset(was, LayerCells(y, layer, row), RowCells(layer, row, y.cols));
        ResetRow(layer, row);
      }
    }

    method ResetEncoders(layer: nat)
      requires Valid()
      modifies chip, chip.cells
      ensures Fits(y.total, CellsReset(EncoderCells(layer, y.encoders)))
      ensures chip.Abs() == UpdateAll(old(chip.Abs()), CellsReset(EncoderCells(layer, y.encoders)))
    {
      ghost var was := chip.Abs();
      for encoder := 0 to y.encoders
        invariant Fits(y.total, CellsReset(EncoderCells(layer, encoder)))
        invariant chip.Abs() == UpdateAll(was, CellsReset(EncoderCells(layer, encoder)))
      {
        ResetEncoder(was, layer, encoder);
      }
    }

    method ResetEncoder(ghost was: Device, layer: nat, encoder: nat)
      requires Valid() && |was.mem| == y.total && Fits(y.total, CellsReset(EncoderCells(layer, encoder)))
      requires chip.Abs() == UpdateAll(was, CellsReset(EncoderCells(layer, encoder)))
      modifies chip, chip.cells
      ensures Fits(y.total, CellsReset(EncoderCells(layer, encoder + 1)))
      ensures chip.Abs() == UpdateAll(was, CellsReset(EncoderCells(layer, encoder + 1)))
    {
      var cw, ccw := EncoderCell(EncoderId(layer, encoder, true)), EncoderCell(EncoderId(layer, encoder, false));
      ghost var cells := EncoderCells(layer, encoder);
      ThenReset(was, cells, [cw]);
      ThenReset(was, cells + [cw], [ccw]);
      ResetCell(cw);
      ResetCell(ccw);
      assert cells + [cw] + [ccw] == EncoderCells(layer, encoder + 1);
    }

    /** dynamic_keymap_reset: per layer all keys, row by row, then all encoders. */
    method KeymapReset()
      requires Valid()
      modifies chip, chip.cells
      ensures Fits(y.total, CellsReset(AllCells(y, y.layers)))
      ensures chip.Abs() == UpdateAll(old(chip.Abs()), CellsReset(AllCells(y, y.layers)))
    {
      ghost var was := chip.Abs();
      for layer := 0 to y.layers
        invariant Fits(y.total, CellsReset(AllCells(y, layer)))
        invariant chip.Abs() == UpdateAll(was, CellsReset(AllCells(y, layer)))
      {
        ghost var keys, encoders := LayerCells(y, layer, y.rows), EncoderCells(layer, y.encoders);
        ThenReset(was, AllCells(y, layer), keys);
        ThenReset(was, AllCells(y, layer) + keys, encoders);
        ResetKeys(layer);
        ResetEncoders(layer);
      }
    }

    /** dynamic_keymap_macro_reset: zeros from the start of the macro area to its end. */
    method MacroReset()
      requires Valid()
      modifies chip, chip.cells
      ensures Fits(y.total, MacroWrites(y)) && chip.Abs() == UpdateAll(old(chip.Abs()), MacroWrites(y))
    {
      ghost var was := chip.Abs();
      var p, end := y.macroAddr, y.macroAddr + y.macroSize;
      ghost var done: seq<byte> := [];
      while p != end
        invariant |done| <= y.macroSize && p == y.macroAddr + |done|
        invariant forall i :: 0 <= i < |done| ==> done[i] == 0
        invariant Fits(y.total, AreaWrites(y.macroAddr, y.macroSize, 0, done))
        invariant chip.Abs() == UpdateAll(was, AreaWrites(y.macroAddr, y.macroSize, 0, done))
        decreases end - p
      {
        AreaUpdate(was, y.macroAddr, y.macroSize, 0, done, done + [0], 0);
        chip.UpdateByte(p, 0);
        p, done := p + 1, done + [0];
      }
      assert done == Zeros(y.macroSize);
    }

    /** Resets the store, magic invalid first and valid last. */
    method EeconfigInitVia()
      requires Valid()
      modifies chip, chip.cells
      ensures Fits(y.total, InitWrites(y, d)) && chip.Abs() == UpdateAll(old(chip.Abs()), InitWrites(y, d))
    {
      ghost var was := chip.Abs();
      SetValid(false);
      SetLayoutOptions(d.options);
      KeymapReset();
      MacroReset();
      SetValid(true);
      InitFits(y, d);
      ghost var a, o, k, m, z := MagicWrites(y, NO_MAGIC), NumberWrites(y.optionsAddr, y.optionsSize, d.options),
        CellWrites(y, AllCells(y, y.layers), d.code), MacroWrites(y), MagicWrites(y, d.magic);
      Chain(was, a, o, k, m, z);
    }

    /** via_init: initialise only a store whose magic is not this build's. */
    method ViaInit()
      requires Valid()
      modifies chip, chip.cells
      ensures chip.cells[..] == After(y, d, old(chip.cells[..]), Boot(old(chip.power)))
    {
      InitFits(y, d);
      var valid := IsStoreValid();
      if !valid {
        EeconfigInitVia();
      }
    }
  }

  lemma {:induction false} Chain(was: Device, a: seq<Write>, o: seq<Write>, k: seq<Write>, m: seq<Write>, z: seq<Write>)
    requires Fits(|was.mem|, a) && Fits(|was.mem|, o) && Fits(|was.mem|, k) && Fits(|was.mem|, m) && Fits(|was.mem|, z)
    ensures Fits(|was.mem|, a + (o + k + m) + z)
    ensures UpdateAll(was, a + (o + k + m) + z)
            == UpdateAll(UpdateAll(UpdateAll(UpdateAll(UpdateAll(was, a), o), k), m), z)
  {
    var d := UpdateAll(was, a);
    UpdateConcat(d, o, k);
    UpdateConcat(d, o + k, m);
    UpdateConcat(was, a, o + k + m);
    UpdateConcat(was, a + (o + k + m), z);
  }
}
