/** Numbers stored in memory most significant byte first, and written last byte first. */
module BigEndian {
  import opened Arith
  import opened Eeprom

  /** The writes of a number, least significant byte first, from the last address downwards. */
  function NumberWrites(addr: nat, size: nat, value: nat): (ws: seq<Write>)
    ensures |ws| == size
    decreases size
  {
    if size == 0 then []
    else [Write(addr + size - 1, value % 256)] + NumberWrites(addr, size - 1, value / 256)
  }

  /** All writes go to addresses from `lo` on and below `hi`. */
  predicate Within(ws: seq<Write>, lo: nat, hi: nat) {
    forall i :: 0 <= i < |ws| ==> lo <= ws[i].addr < hi
  }

  lemma {:induction false} NumberWithin(addr: nat, size: nat, value: nat)
    ensures Within(NumberWrites(addr, size, value), addr, addr + size)
    decreases size
  {
    if size > 0 {
      NumberWithin(addr, size - 1, value / 256);
    }
  }

  lemma {:induction false} OutsideKeeps(m: Memory, ws: seq<Write>, lo: nat, hi: nat, a: nat)
    requires Fits(|m|, ws) && Within(ws, lo, hi) && a < |m| && !(lo <= a < hi)
    ensures Apply(m, ws)[a] == m[a]
  {
    Untouched(m, ws, a);
  }

  /** The number stored in `size` bytes, most significant byte first. */
  function NumberAt(m: Memory, addr: nat, size: nat): nat
    requires addr + size <= |m|
    decreases size
  {
    if size == 0 then 0 else 256 * NumberAt(m, addr, size - 1) + m[addr + size - 1]
  }

  /** The number in terms of its first byte, which counts most. */
  lemma {:induction false} FirstByteCountsMost(m: Memory, addr: nat, size: nat)
    requires 0 < size && addr + size <= |m|
    ensures NumberAt(m, addr, size) == m[addr] * Power256(size - 1) + NumberAt(m, addr + 1, size - 1)
    decreases size
  {
    if size == 1 {
      assert NumberAt(m, addr, 0) == 0 && Power256(0) == 1;
    } else {
      FirstByteCountsMost(m, addr, size - 1);
      ScaleFirst(m[addr], Power256(size - 2), NumberAt(m, addr + 1, size - 2));
    }
  }

  lemma {:induction false} ScaleFirst(x: nat, p: nat, rest: nat)
    ensures 256 * (x * p + rest) == x * (256 * p) + 256 * rest
  {
  }

  lemma {:induction false} NumberAgrees(m: Memory, m': Memory, addr: nat, size: nat)
    requires addr + size <= |m| == |m'| && forall a :: addr <= a < addr + size ==> m[a] == m'[a]
    ensures NumberAt(m, addr, size) == NumberAt(m', addr, size)
    decreases size
  {
    if size > 0 {
      NumberAgrees(m, m', addr, size - 1);
    }
  }

  /** A number is read back as written, cut to the bytes there are. */
  lemma {:induction false} NumberRoundTrip(m: Memory, addr: nat, size: nat, value: nat)
    requires addr + size <= |m| && Fits(|m|, NumberWrites(addr, size, value))
    ensures NumberAt(Apply(m, NumberWrites(addr, size, value)), addr, size) == value % Power256(size)
    decreases size
  {
    if size > 0 {
      var first, rest := [Write(addr + size - 1, value % 256)], NumberWrites(addr, size - 1, value / 256);
      NumberWithin(addr, size - 1, value / 256);
      var m1 := Apply(m, first);
      ApplyConcat(m, first, rest);
      NumberRoundTrip(m1, addr, size - 1, value / 256);
      OutsideKeeps(m1, rest, addr, addr + size - 1, addr + size - 1);
      assert first[..0] == [];
      assert m1 == m[addr + size - 1 := value % 256];
      ModStep(value, Power256(size - 1));
    }
  }
}
