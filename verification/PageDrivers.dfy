/**
 * The block writers of the EEPROM and flash drivers, on a chip that takes an
 * address followed by bytes and programs one page at a time.
 */
module PageDrivers {
  import opened Arith
  import opened Eeprom
  import opened BigEndian
  import opened PageWrites

  class PagedChip {
    const g: Geometry
    const addressSize: nat
    const clears: bool
    const cells: array<byte>

    ghost predicate Valid() {
      g.Valid() && cells.Length == g.size && g.window == Power256(addressSize)
    }

    ghost function F(): Cell { if clears then CLEAR else OVERWRITE }

    constructor (g: Geometry, addressSize: nat, clears: bool, contents: Memory)
      requires g.Valid() && |contents| == g.size && g.window == Power256(addressSize)
      ensures Valid() && fresh(cells) && cells[..] == contents
      ensures this.g == g && this.clears == clears
    {
      this.g, this.addressSize, this.clears := g, addressSize, clears;
      cells := new byte[|contents|](i requires 0 <= i < |contents| => contents[i]);
      new;
      assert cells[..] == contents;
    }

    /** What the chip does with bytes sent after an address: its counter wraps inside the page. */
    method ProgramPage(loc: nat, bytes: seq<byte>)
      requires Valid() && loc < g.size
      modifies cells
      ensures cells[..] == Program(old(cells[..]), g.page, loc, bytes, F())
    {
      for k := 0 to |bytes|
        invariant cells[..] == Program(old(cells[..]), g.page, loc, bytes[..k], F())
      {
        var a := Landing(g.page, loc, k);
        LandingInside(g.page, loc, k, g.size);
        ProgramOneMore(old(cells[..]), g.page, loc, bytes[..k], bytes[k], F(), a);
        assert bytes[..k] + [bytes[k]] == bytes[..k + 1];
        cells[a] := if clears then AndByte(cells[a], bytes[k]) else bytes[k];
      }
      assert bytes[..|bytes|] == bytes;
    }

    /** fill_target_address: the address into the front of a packet, last byte first. */
    method FillTargetAddress(packet: array<byte>, addr: nat)
      requires addressSize <= packet.Length
      modifies packet
      ensures NumberAt(packet[..], 0, addressSize) == addr % Power256(addressSize)
    {
      ghost var was, all := packet[..], NumberWrites(0, addressSize, addr);
      NumberWithin(0, addressSize, addr);
      var i, p := 0, addr;
      ghost var done: seq<Write> := [];
      while i < addressSize
        invariant 0 <= i <= addressSize && Fits(|was|, done) && packet[..] == Apply(was, done)
        invariant all == done + NumberWrites(0, addressSize - i, p)
      {
        var at := addressSize - 1 - i;
        ghost var w := Write(at, p % 256);
        assert (done + [w])[..|done|] == done;
        packet[at] := p % 256;
        done := done + [w];
        i, p := i + 1, p / 256;
      }
      assert all == done;
      NumberRoundTrip(was, 0, addressSize, addr);
    }

    /** Sends a packet of address and bytes, to the window the bus address picks. */
    method SendChunk(base: nat, target: nat, bytes: seq<byte>)
      requires Valid() && IsBase(g, base) && target < g.size
      modifies cells
      ensures Location(g, base, target) < g.size
      ensures cells[..] == Program(old(cells[..]), g.page, Location(g, base, target), bytes, F())
    {
      var packet := new byte[addressSize];
      FillTargetAddress(packet, target);
      LocationInside(g, base, target);
      ProgramPage(base + NumberAt(packet[..], 0, addressSize), bytes);
    }

    // ------------------------------------------------------------ I2C EEPROM

    /**
     * Copies a chunk behind the address in a packet.  The index is one byte wide: where
     * the method returns false it is back at zero, and the loop goes round for ever.
     */
    method CopyChunk(packet: array<byte>, bytes: seq<byte>) returns (ok: bool)
      requires addressSize + |bytes| <= packet.Length
      modifies packet
      ensures ok <==> Copies(|bytes|)
      ensures packet[..addressSize] == old(packet[..addressSize])
      ensures ok ==> packet[addressSize..addressSize + |bytes|] == bytes
    {
      var i := 0;
      while i < |bytes|
        invariant 0 <= i <= |bytes| && i < 256
        invariant packet[..addressSize] == old(packet[..addressSize])
        invariant packet[addressSize..addressSize + i] == bytes[..i]
        decreases 256 - i
      {
        packet[addressSize + i] := bytes[i];
        i := (i + 1) % 256;
        if i == 0 {
          return false;
        }
      }
      ok := true;
    }

    /** Fills the packet with address and chunk and sends it to the window of the block. */
    method SendPacket(packet: array<byte>, base: nat, target: nat, bytes: seq<byte>) returns (ok: bool)
      requires Valid() && IsBase(g, base) && target < g.size
      requires packet != cells && packet.Length == addressSize + g.page && |bytes| <= g.page
      modifies cells, packet
      ensures ok <==> Copies(|bytes|)
      ensures Location(g, base, target) < g.size
      ensures cells[..] ==
        if ok then Program(old(cells[..]), g.page, Location(g, base, target), bytes, F()) else old(cells[..])
    {
      LocationInside(g, base, target);
      FillTargetAddress(packet, target);
      ghost var filled := packet[..];
      ok := CopyChunk(packet, bytes);
      if ok {
        assert forall a :: 0 <= a < addressSize ==> packet[..addressSize][a] == filled[..addressSize][a];
        NumberAgrees(filled, packet[..], 0, addressSize);
        ProgramPage(base + NumberAt(packet[..], 0, addressSize), packet[addressSize..addressSize + |bytes|]);
      }
    }

    /**
     * eeprom_write_block over I2C: the bus address is that of the start of the block.
     * It does not come to an end when a chunk is too long to be copied.
     */
    method WriteBlock(data: seq<byte>, addr: nat) returns (ok: bool)
      requires Valid() && !clears && addr + |data| <= g.size
      modifies cells
      ensures ok <==> IsSent(g.page, addr, |data|)
      ensures cells[..] == BlockWrite(old(cells[..]), g, addr, data)
    {
      if data == [] {
        return true;
      }
      var packet := new byte[addressSize + g.page];
      var base := BaseOf(g, addr);
      BaseOfIsBase(g, addr);
      ghost var all, sent := BlockWrite(cells[..], g, addr, data), IsSent(g.page, addr, |data|);
      var target: nat, rest := addr, data;
      while |rest| > 0
        invariant target + |rest| <= g.size && all == WriteFrom(cells[..], g, OVERWRITE, base, target, rest)
        invariant sent == IsSent(g.page, target, |rest|)
        decreases |rest|
      {
        var n := Chunk(g.page, target, |rest|);
        WriteStep(cells[..], g, OVERWRITE, base, target, rest, n);
        ok := SendPacket(packet, base, target, rest[..n]);
        if !ok {
          return;
        }
        target, rest := target + n, rest[n..];
      }
      ok := true;
    }

    /** eeprom_update_block: reads the block back and writes it only where it differs. */
    method UpdateBlock(data: seq<byte>, addr: nat) returns (ok: bool)
      requires Valid() && !clears && addr + |data| <= g.size
      modifies cells
      ensures ok <==> old(cells[..])[addr..addr + |data|] == data || IsSent(g.page, addr, |data|)
      ensures cells[..] ==
        if old(cells[..])[addr..addr + |data|] == data then old(cells[..])
        else BlockWrite(old(cells[..]), g, addr, data)
      ensures ok && addr % g.window + |data| <= g.window ==> cells[..] == Put(old(cells[..]), addr, data, OVERWRITE)
    {
      ghost var was := cells[..];
      var same, i := true, 0;
      while i < |data| && same
        invariant 0 <= i <= |data|
        invariant same == (forall k :: 0 <= k < i ==> was[addr..addr + |data|][k] == data[k])
      {
        same := cells[addr + i] == data[i];
        i := i + 1;
      }
      ok := true;
      if !same {
        ok := WriteBlock(data, addr);
      }
      if ok && addr % g.window + |data| <= g.window {
        if same {
          assert was == Put(was, addr, data, OVERWRITE);
        } else {
          BlockWriteInside(was, g, addr, data);
        }
      }
    }

    /**
     * eeprom_driver_erase: zeros, page by page, right in every window of the chip; but
     * not a single one when a page is too long to be copied.
     */
    method Erase() returns (ok: bool)
      requires Valid() && !clears
      modifies cells
      ensures ok <==> g.page < 256 || g.size == 0
      ensures if ok then forall i :: 0 <= i < cells.Length ==> cells[i] == 0 else cells[..] == old(cells[..])
    {
      var zeros: seq<byte> := seq(g.page, _ => 0);
      var addr := 0;
      while addr < g.size
        invariant 0 <= addr <= g.size && addr % g.page == 0
        invariant forall i :: 0 <= i < addr ==> cells[i] == 0
        invariant addr > 0 ==> g.page < 256
        invariant addr == 0 ==> cells[..] == old(cells[..])
        decreases g.size - addr
      {
        PageInWindow(g, addr);
        SentExactly(g.page, addr, g.page);
        BaseOfIsBase(g, addr);
        ghost var was := cells[..];
        ok := WriteBlock(zeros, addr);
        if !ok {
          return;
        }
        BlockWriteInside(was, g, addr, zeros);
        AddUpTo(addr, g.page, g.page);
        addr := addr + g.page;
      }
      ok := true;
    }

    // ------------------------------------------------------------ SPI EEPROM

    /**
     * eeprom_write_block over SPI.  Each page needs the chip to become ready and two
     * bus starts; `left` of these succeed, and the first that does not ends the write.
     */
    method SpiWriteBlock(data: seq<byte>, addr: nat, starts: nat)
      requires Valid() && g.size <= g.window && addr + |data| <= g.size
      modifies cells
      ensures cells[..] == Put(old(cells[..]), addr, data[..Reached(g.page, addr, |data|, starts / 3)], F())
    {
      ghost var was, reached := cells[..], Reached(g.page, addr, |data|, starts / 3);
      var done, left := 0, starts;
      assert was == Put(was, addr, data[..0], F());
      while done < |data|
        invariant 0 <= done <= |data| && cells[..] == Put(was, addr, data[..done], F())
        invariant reached == done + Reached(g.page, addr + done, |data| - done, left / 3)
      {
        var n := Chunk(g.page, addr + done, |data| - done);
        if left == 0 {
          return;
        }
        left := left - 1;
        if left == 0 {
          return;
        }
        left := left - 1;
        if left == 0 {
          return;
        }
        left := left - 1;
        SpiChunk(was, data, addr, done, n);
        done := done + n;
      }
    }

    /** Sends one chunk of a block, the chunks before it being in place. */
    method SpiChunk(ghost was: Memory, data: seq<byte>, addr: nat, done: nat, n: nat)
      requires Valid() && g.size <= g.window && |was| == g.size && addr + |data| <= g.size && done < |data|
      requires n <= Chunk(g.page, addr + done, |data| - done) && cells[..] == Put(was, addr, data[..done], F())
      modifies cells
      ensures done + n <= |data| && cells[..] == Put(was, addr, data[..done + n], F())
    {
      var target := addr + done;
      ChunkFits(g.page, target, |data| - done);
      Small(0, g.window);
      InWindow(g, 0, target);
      ghost var m := cells[..];
      SendChunk(0, target, data[done..done + n]);
      ProgramInPage(m, g.page, target, data[done..done + n], F());
      assert data[..done + n][..done] == data[..done] && data[..done + n][done..] == data[done..done + n];
      PutParts(was, addr, data[..done + n], done, F());
    }

    // ------------------------------------------------------------ SPI flash

    /**
     * flash_write_block.  Each page needs three bus operations and then one per byte,
     * two more end the write; `budget` of all these succeed.
     */
    method FlashWriteBlock(addr: nat, data: seq<byte>, budget: nat) returns (ok: bool)
      requires Valid() && clears && g.size <= g.window && addr + |data| <= g.size
      modifies cells
      ensures cells[..] == Put(old(cells[..]), addr, data[..Flashed(g.page, addr, |data|, budget)], CLEAR)
      ensures ok <==> FlashCost(g.page, addr, |data|) + 2 <= budget
    {
      ghost var was, flashed, cost := cells[..], Flashed(g.page, addr, |data|, budget), FlashCost(g.page, addr, |data|);
      var done: nat, left: nat := 0, budget;
      assert was == Put(was, addr, data[..0], CLEAR);
      while done < |data|
        invariant done <= |data| && left <= budget && cells[..] == Put(was, addr, data[..done], CLEAR)
        invariant flashed == done + Flashed(g.page, addr + done, |data| - done, left)
        invariant cost - budget == FlashCost(g.page, addr + done, |data| - done) - left
        decreases |data| - done
      {
        var whole, n := FlashPage(was, data, addr, done, left);
        if !whole {
          return false;
        }
        left, done := left - 3 - n, done + n;
      }
      ok := left >= 2;
    }

    /** One round of the flash loop: wait, enable, address, and as many bytes as get through. */
    method FlashPage(ghost was: Memory, data: seq<byte>, addr: nat, done: nat, left: nat) returns (whole: bool, n: nat)
      requires Valid() && clears && g.size <= g.window && |was| == g.size && addr + |data| <= g.size && done < |data|
      requires cells[..] == Put(was, addr, data[..done], CLEAR)
      modifies cells
      ensures var page, target, len := g.page, addr + done, |data| - done;
        if whole then
          && 0 < n <= len && n + 3 <= left && cells[..] == Put(was, addr, data[..done + n], CLEAR)
          && Flashed(page, target, len, left) == n + Flashed(page, target + n, len - n, left - 3 - n)
          && FlashCost(page, target, len) == 3 + n + FlashCost(page, target + n, len - n)
        else
          && cells[..] == Put(was, addr, data[..done + Flashed(page, target, len, left)], CLEAR)
          && FlashCost(page, target, len) > left
    {
      n := Chunk(g.page, addr + done, |data| - done);
      FlashStep(g.page, addr + done, |data| - done, left, n);
      if left < 3 {
        return false, n;
      }
      var sent := if left - 3 < n then left - 3 else n;
      SpiChunk(was, data, addr, done, sent);
      whole := sent == n;
    }
  }

  lemma {:induction false} PageInWindow(g: Geometry, addr: nat)
    requires g.Valid() && addr < g.size && addr % g.page == 0
    ensures addr + g.page <= g.size && addr % g.window + g.page <= g.window
  {
    BelowMultiple(addr, g.page, g.size);
    ModMod(addr, g.window, g.page);
    BelowMultiple(addr % g.window, g.page, g.window);
  }

  // ---------------------------------------------------------------- how far a flash write gets

  /** Bytes of a block that reach the chip when `budget` bus operations succeed. */
  function Flashed(page: nat, target: nat, len: nat, budget: nat): (n: nat)
    requires page > 0
    ensures n <= len
    decreases len
  {
    if len == 0 || budget < 3 then 0
    else
      ChunkFits(page, target, len);
      var n := Chunk(page, target, len);
      if budget - 3 < n then budget - 3 else n + Flashed(page, target + n, len - n, budget - 3 - n)
  }

  /** Bus operations that programming a block takes. */
  function FlashCost(page: nat, target: nat, len: nat): nat
    requires page > 0
    decreases len
  {
    if len == 0 then 0
    else
      ChunkFits(page, target, len);
      var n := Chunk(page, target, len);
      3 + n + FlashCost(page, target + n, len - n)
  }

  lemma {:induction false} FlashStep(page: nat, target: nat, len: nat, budget: nat, n: nat)
    requires page > 0 && len > 0 && n == Chunk(page, target, len)
    ensures 0 < n <= len && FlashCost(page, target, len) == 3 + n + FlashCost(page, target + n, len - n)
    ensures budget < 3 ==> Flashed(page, target, len, budget) == 0
    ensures 0 <= budget - 3 < n ==> Flashed(page, target, len, budget) == budget - 3
    ensures n <= budget - 3 ==>
      Flashed(page, target, len, budget) == n + Flashed(page, target + n, len - n, budget - 3 - n)
  {
    ChunkFits(page, target, len);
  }

  /** All bytes reach the chip exactly when there are enough operations for all of them. */
  lemma {:induction false} FlashedAll(page: nat, target: nat, len: nat, budget: nat)
    requires page > 0
    ensures Flashed(page, target, len, budget) == len <==> FlashCost(page, target, len) <= budget
    decreases len
  {
    if len > 0 && budget >= 3 {
      ChunkFits(page, target, len);
      var n := Chunk(page, target, len);
      if budget - 3 >= n {
        FlashedAll(page, target + n, len - n, budget - 3 - n);
      }
    }
  }

  /**
   * A flash write that reports success over erased memory reads back as written;
   * one that failed anywhere leaves the memory such that repeating it succeeds
   * exactly as the first attempt would have.
   */
  lemma {:induction false} FlashWriteMeans(m: Memory, page: nat, addr: nat, data: seq<byte>, budget: nat)
    requires page > 0 && addr + |data| <= |m| && forall i :: addr <= i < addr + |data| ==> m[i] == 0xFF
    ensures var m' := Put(m, addr, data[..Flashed(page, addr, |data|, budget)], CLEAR);
      && (FlashCost(page, addr, |data|) <= budget ==> m'[addr..addr + |data|] == data)
      && Put(m', addr, data, CLEAR)[addr..addr + |data|] == data
  {
    FlashedAll(page, addr, |data|, budget);
    var n := Flashed(page, addr, |data|, budget);
    RepeatCompletes(m, addr, data, n);
    ErasedTakesData(m, addr, data);
    assert n == |data| ==> data[..n] == data;
  }

  /** Pages that a block touches. */
  function PagesOf(page: nat, target: nat, len: nat): nat
    requires page > 0
  {
    if len == 0 then 0 else (target % page + len + page - 1) / page
  }

  /** A flash write takes one operation per byte, and three for every page it touches. */
  lemma {:induction false} CostIs(page: nat, target: nat, len: nat)
    requires page > 0
    ensures FlashCost(page, target, len) == len + 3 * PagesOf(page, target, len)
    decreases len
  {
    if len > 0 {
      ChunkFits(page, target, len);
      var n := Chunk(page, target, len);
      CostIs(page, target + n, len - n);
      if n == len {
        OnePage(page, target % page + len);
      } else {
        OneMorePage(page, len - n);
      }
    }
  }

  lemma {:induction false} OnePage(page: nat, n: nat)
    requires 0 < n <= page
    ensures (n + page - 1) / page == 1
  {
    UniqueQuotient(n + page - 1, page, 1);
  }

  lemma {:induction false} UniqueQuotient(x: nat, page: nat, q: nat)
    requires page > 0 && q * page <= x < q * page + page
    ensures x / page == q
  {
    UniqueRemainder(x, page, q, x - q * page);
  }

  lemma {:induction false} OneMorePage(page: nat, n: nat)
    requires page > 0
    ensures (page + n + page - 1) / page == 1 + (n + page - 1) / page
  {
    var q := (n + page - 1) / page;
    assert (q + 1) * page == q * page + page;
    UniqueQuotient(page + n + page - 1, page, q + 1);
  }
}
