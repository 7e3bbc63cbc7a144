/**
 * Memory chips that are programmed page by page.  A chip that is sent more bytes
 * than fit behind the given address in its page wraps to the start of the page;
 * the drivers split a block at page ends so that this never shows.
 */
module PageWrites {
  import opened Arith
  import opened Eeprom
  import opened MatrixBits

  /** What a cell holds after a byte is programmed over its old contents. */
  type Cell = (byte, byte) -> byte

  /**
   * Page size; the number of bytes the transmitted address can tell apart; and the
   * size of the chip, which may be several such windows picked by the bus address.
   */
  datatype Geometry = Geometry(page: nat, window: nat, size: nat) {
    predicate Valid() {
      && page > 0 && window > 0 && window % page == 0 && size % page == 0
      && (size <= window || size % window == 0)
    }
  }

  /** The block laid over the memory byte for byte. */
  function Put(m: Memory, a: nat, data: seq<byte>, f: Cell): (m': Memory)
    requires a + |data| <= |m|
    ensures |m'| == |m|
  {
    seq(|m|, i requires 0 <= i < |m| => if a <= i < a + |data| then f(m[i], data[i - a]) else m[i])
  }

  /** Overwriting memory, as an EEPROM does. */
  const OVERWRITE: Cell := (old_, new_) => new_

  // ---------------------------------------------------------------- the chip

  /** Where the k-th byte sent lands: the address counter wraps inside the page. */
  function Landing(page: nat, loc: nat, k: nat): nat
    requires page > 0
  {
    loc - loc % page + (loc % page + k) % page
  }

  /** The chip's page programming. */
  function Program(m: Memory, page: nat, loc: nat, data: seq<byte>, f: Cell): (m': Memory)
    requires page > 0 && |m| % page == 0 && loc < |m|
    ensures |m'| == |m|
  {
    if data == [] then m
    else
      var n := |data| - 1;
      LandingInside(page, loc, n, |m|);
      var a := Landing(page, loc, n);
      var before := Program(m, page, loc, data[..n], f);
      before[a := f(before[a], data[n])]
  }

  lemma {:induction false} LandingInside(page: nat, loc: nat, k: nat, size: nat)
    requires page > 0 && size % page == 0 && loc < size
    ensures Landing(page, loc, k) < size
  {
    BelowMultiple(loc, page, size);
  }

  lemma {:induction false} ProgramOneMore(m: Memory, page: nat, loc: nat, data: seq<byte>, x: byte, f: Cell, a: nat)
    requires page > 0 && |m| % page == 0 && loc < |m| && a == Landing(page, loc, |data|) < |m|
    ensures var before := Program(m, page, loc, data, f);
      Program(m, page, loc, data + [x], f) == before[a := f(before[a], x)]
  {
    assert (data + [x])[..|data|] == data;
  }

  lemma {:induction false} PutOneMore(m: Memory, a: nat, data: seq<byte>, x: byte, f: Cell)
    requires a + |data| < |m|
    ensures var before := Put(m, a, data, f); Put(m, a, data + [x], f) == before[a + |data| := f(before[a + |data|], x)]
  {
  }

  lemma {:induction false} PutPut(m: Memory, a: nat, data: seq<byte>, more: seq<byte>, f: Cell)
    requires a + |data| + |more| <= |m|
    ensures Put(Put(m, a, data, f), a + |data|, more, f) == Put(m, a, data + more, f)
  {
  }

  lemma {:induction false} PutParts(m: Memory, a: nat, data: seq<byte>, n: nat, f: Cell)
    requires a + |data| <= |m| && n <= |data|
    ensures Put(Put(m, a, data[..n], f), a + n, data[n..], f) == Put(m, a, data, f)
  {
    PutPut(m, a, data[..n], data[n..], f);
    assert data[..n] + data[n..] == data;
  }

  lemma {:induction false} LandingInPage(page: nat, loc: nat, k: nat)
    requires page > 0 && loc % page + k < page
    ensures Landing(page, loc, k) == loc + k
  {
    Small(loc % page + k, page);
  }

  lemma {:induction false} PutByByte(m: Memory, a: nat, data: seq<byte>, f: Cell, before: Memory)
    requires data != [] && a + |data| <= |m| && before == Put(m, a, data[..|data| - 1], f)
    ensures var n := |data| - 1; Put(m, a, data, f) == before[a + n := f(before[a + n], data[n])]
  {
    var n := |data| - 1;
    assert data[..n] + [data[n]] == data;
    PutOneMore(m, a, data[..n], data[n], f);
  }

  /** What stays inside one page does not wrap. */
  lemma {:induction false} ProgramInPage(m: Memory, page: nat, loc: nat, data: seq<byte>, f: Cell)
    requires page > 0 && |m| % page == 0 && loc < |m| && loc % page + |data| <= page && loc + |data| <= |m|
    ensures Program(m, page, loc, data, f) == Put(m, loc, data, f)
  {
    if data == [] {
      assert Put(m, loc, data, f) == m;
    } else {
      var n := |data| - 1;
      ProgramInPage(m, page, loc, data[..n], f);
      PutByByte(m, loc, data, f, Program(m, page, loc, data[..n], f));
      LandingInPage(page, loc, n);
    }
  }

  // ---------------------------------------------------------------- splitting at page ends

  /** The part of a block that is sent at once: up to the end of the page. */
  function Chunk(page: nat, target: nat, len: nat): nat
    requires page > 0
  {
    if page - target % page > len then len else page - target % page
  }

  /** A chunk stays in its page, and all but the last end at a page end. */
  lemma {:induction false} ChunkFits(page: nat, target: nat, len: nat)
    requires page > 0 && len > 0
    ensures var n := Chunk(page, target, len);
      0 < n <= len && target % page + n <= page && (n < len ==> (target + n) % page == 0)
  {
    if page - target % page < len {
      AddUpTo(target, page, page - target % page);
    }
  }

  /** The I2C driver copies a chunk with an index of one byte: a longer chunk never comes to an end. */
  predicate Copies(n: nat) { n < 256 }

  /** All chunks of a block come to be sent. */
  predicate IsSent(page: nat, target: nat, len: nat)
    requires page > 0
    decreases len
  {
    len == 0 ||
      (ChunkFits(page, target, len);
       var n := Chunk(page, target, len);
       Copies(n) && IsSent(page, target + n, len - n))
  }

  /** The pages are short, or neither the first chunk nor what follows it is long. */
  predicate IsShort(page: nat, target: nat, len: nat)
    requires page > 0
  {
    page < 256 || (Chunk(page, target, len) < 256 && len - Chunk(page, target, len) < 256)
  }

  lemma {:induction false} SentExactly(page: nat, target: nat, len: nat)
    requires page > 0
    ensures IsSent(page, target, len) <==> IsShort(page, target, len)
    decreases len
  {
    if len > 0 {
      ChunkFits(page, target, len);
      var n := Chunk(page, target, len);
      SentExactly(page, target + n, len - n);
    }
  }

  /** Where the chip looks: the window picked by the bus address, then the transmitted address. */
  function Location(g: Geometry, base: nat, target: nat): nat
    requires g.window > 0
  {
    base + target % g.window
  }

  /** `base` is the start of a window of the chip. */
  predicate IsBase(g: Geometry, base: nat)
    requires g.Valid()
  {
    base % g.window == 0 && base < g.size
  }

  lemma {:induction false} BaseInside(g: Geometry, base: nat)
    requires g.Valid() && IsBase(g, base)
    ensures if g.size <= g.window then base == 0 else base + g.window <= g.size
  {
    if g.size <= g.window {
      if base != 0 {
        BelowMultiple(0, g.window, base);
      }
    } else {
      BelowMultiple(base, g.window, g.size);
    }
  }

  lemma {:induction false} LocationInPage(g: Geometry, base: nat, target: nat)
    requires g.Valid() && base % g.window == 0
    ensures Location(g, base, target) % g.page == target % g.page
  {
    MultipleOfMultiple(base, g.window, g.page);
    ModMod(target, g.window, g.page);
    SumMod(base, target % g.window, g.page);
  }

  lemma {:induction false} LocationInside(g: Geometry, base: nat, target: nat)
    requires g.Valid() && IsBase(g, base) && target < g.size
    ensures var loc := Location(g, base, target);
      loc < g.size && loc % g.page == target % g.page && (loc < base + g.window <= g.size || g.size <= g.window)
  {
    BaseInside(g, base);
    LocationInPage(g, base, target);
    if g.size <= g.window {
      Small(target, g.window);
    }
  }

  /**
   * The write loop, the window having been picked once for the whole block.  What it
   * leaves when it gets stuck are the chunks before.
   */
  function WriteFrom(m: Memory, g: Geometry, f: Cell, base: nat, target: nat, data: seq<byte>): (m': Memory)
    requires g.Valid() && |m| == g.size && IsBase(g, base) && target + |data| <= g.size
    ensures |m'| == |m|
    decreases |data|
  {
    if data == [] || !Copies(Chunk(g.page, target, |data|)) then m
    else
      ChunkFits(g.page, target, |data|);
      LocationInside(g, base, target);
      var n := Chunk(g.page, target, |data|);
      WriteFrom(Program(m, g.page, Location(g, base, target), data[..n], f), g, f, base, target + n, data[n..])
  }

  /** One round of the loop: it gets stuck, or its chunk is programmed and the rest follows. */
  lemma {:induction false} WriteStep(m: Memory, g: Geometry, f: Cell, base: nat, target: nat, data: seq<byte>, n: nat)
    requires g.Valid() && |m| == g.size && IsBase(g, base) && target + |data| <= g.size
    requires data != [] && n == Chunk(g.page, target, |data|)
    ensures 0 < n <= |data| && n <= g.page && Location(g, base, target) < g.size
    ensures IsSent(g.page, target, |data|) <==> Copies(n) && IsSent(g.page, target + n, |data| - n)
    ensures WriteFrom(m, g, f, base, target, data)
            == if !Copies(n) then m
               else WriteFrom(Program(m, g.page, Location(g, base, target), data[..n], f),
                              g, f, base, target + n, data[n..])
  {
    ChunkFits(g.page, target, |data|);
    LocationInside(g, base, target);
  }

  /** What one round of the loop does: its chunk laid over the memory where the chip looks. */
  lemma {:induction false} ChunkPut(m: Memory, g: Geometry, f: Cell, base: nat, target: nat, data: seq<byte>, n: nat)
    requires g.Valid() && |m| == g.size && IsBase(g, base) && target + |data| <= g.size
    requires data != [] && n == Chunk(g.page, target, |data|) && Copies(n)
    ensures 0 < n <= |data| && Location(g, base, target) + n <= g.size
    ensures WriteFrom(m, g, f, base, target, data)
            == WriteFrom(Put(m, Location(g, base, target), data[..n], f), g, f, base, target + n, data[n..])
  {
    ChunkFits(g.page, target, |data|);
    LocationInside(g, base, target);
    BelowMultiple(Location(g, base, target), g.page, |m|);
    ProgramInPage(m, g.page, Location(g, base, target), data[..n], f);
  }

  /** A block inside one window is laid over the memory exactly, however many pages it spans. */
  lemma {:induction false} InsideWindow(m: Memory, g: Geometry, f: Cell, base: nat, target: nat, data: seq<byte>)
    requires g.Valid() && |m| == g.size && IsBase(g, base) && target + |data| <= g.size
    requires data != [] ==> base <= target && target + |data| <= base + g.window
    requires IsSent(g.page, target, |data|)
    ensures WriteFrom(m, g, f, base, target, data) == Put(m, target, data, f)
    decreases |data|
  {
    if data == [] {
      assert Put(m, target, data, f) == m;
    } else {
      var n := Chunk(g.page, target, |data|);
      InWindow(g, base, target);
      ChunkPut(m, g, f, base, target, data, n);
      InsideWindow(Put(m, target, data[..n], f), g, f, base, target + n, data[n..]);
      PutParts(m, target, data, n, f);
    }
  }

  lemma {:induction false} InWindow(g: Geometry, base: nat, target: nat)
    requires g.Valid() && base % g.window == 0 && base <= target < base + g.window
    ensures Location(g, base, target) == target
  {
    SumMod(base, target - base, g.window);
    Small(target - base, g.window);
  }

  /** Nothing outside the window is ever written. */
  lemma {:induction false} WindowOnly(m: Memory, g: Geometry, f: Cell, base: nat, target: nat, data: seq<byte>, a: nat)
    requires g.Valid() && |m| == g.size && IsBase(g, base) && target + |data| <= g.size
    requires g.window < g.size && base + g.window <= a < g.size
    ensures WriteFrom(m, g, f, base, target, data)[a] == m[a]
    decreases |data|
  {
    var n := Chunk(g.page, target, |data|);
    if data != [] && Copies(n) {
      var loc := Location(g, base, target);
      LocationInside(g, base, target);
      ChunkFits(g.page, target, |data|);
      ChunkPut(m, g, f, base, target, data, n);
      MultipleOfMultiple(base, g.window, g.page);
      SumMod(base, g.window, g.page);
      BelowMultiple(loc, g.page, base + g.window);
      WindowOnly(Put(m, loc, data[..n], f), g, f, base, target + n, data[n..], a);
    }
  }

  /** The I2C driver picks the window from the start of the block. */
  function BaseOf(g: Geometry, addr: nat): nat
    requires g.window > 0
  {
    addr - addr % g.window
  }

  lemma {:induction false} BaseOfIsBase(g: Geometry, addr: nat)
    requires g.Valid() && addr < g.size
    ensures IsBase(g, BaseOf(g, addr))
  {
    UniqueRemainder(BaseOf(g, addr), g.window, addr / g.window, 0);
  }

  /** eeprom_write_block over I2C. */
  function BlockWrite(m: Memory, g: Geometry, addr: nat, data: seq<byte>): (m': Memory)
    requires g.Valid() && |m| == g.size && addr + |data| <= g.size
    ensures |m'| == |m|
  {
    if data == [] then m
    else
      BaseOfIsBase(g, addr);
      WriteFrom(m, g, OVERWRITE, BaseOf(g, addr), addr, data)
  }

  lemma {:induction false} BlockWriteInside(m: Memory, g: Geometry, addr: nat, data: seq<byte>)
    requires g.Valid() && |m| == g.size && addr + |data| <= g.size && addr % g.window + |data| <= g.window
    requires IsSent(g.page, addr, |data|)
    ensures BlockWrite(m, g, addr, data) == Put(m, addr, data, OVERWRITE)
  {
    if data == [] {
      assert Put(m, addr, data, OVERWRITE) == m;
    } else {
      BaseOfIsBase(g, addr);
      InsideWindow(m, g, OVERWRITE, BaseOf(g, addr), addr, data);
    }
  }

  /**
   * The I2C block write ends as a plain block write, for every memory, exactly when
   * no chunk is too long for its index and the block does not reach into the next
   * window: there the bus address would have to change, and it does not.
   */
  lemma {:induction false} BlockWriteExactly(g: Geometry, addr: nat, data: seq<byte>)
    requires g.Valid() && addr + |data| <= g.size
    ensures IsSent(g.page, addr, |data|)
            && (forall m: Memory :: |m| == g.size ==> BlockWrite(m, g, addr, data) == Put(m, addr, data, OVERWRITE))
            <==> IsShort(g.page, addr, |data|) && addr % g.window + |data| <= g.window
  {
    SentExactly(g.page, addr, |data|);
    if !IsSent(g.page, addr, |data|) {
    } else if addr % g.window + |data| <= g.window {
      forall m: Memory | |m| == g.size
        ensures BlockWrite(m, g, addr, data) == Put(m, addr, data, OVERWRITE)
      {
        BlockWriteInside(m, g, addr, data);
      }
    } else {
      NextWindowMissed(g, addr, data);
    }
  }

  /** A block that reaches into the next window leaves a byte there as it was. */
  lemma {:induction false} NextWindowMissed(g: Geometry, addr: nat, data: seq<byte>)
    requires g.Valid() && addr + |data| <= g.size && addr % g.window + |data| > g.window
    ensures exists m: Memory :: |m| == g.size && BlockWrite(m, g, addr, data) != Put(m, addr, data, OVERWRITE)
  {
    var base := BaseOf(g, addr);
    var a := base + g.window;
    var other: byte := if data[a - addr] == 0 then 1 else 0;
    var m: Memory := seq(g.size, _ => other);
    BaseOfIsBase(g, addr);
    LocationInside(g, base, addr);
    WindowOnly(m, g, OVERWRITE, base, addr, data, a);
    assert Put(m, addr, data, OVERWRITE)[a] == data[a - addr];
    assert BlockWrite(m, g, addr, data)[a] == other;
  }

  /** A chip of four 64 KiB windows with pages of 256 bytes, such as the AT24M02. */
  const WIDE := Geometry(256, 0x1_0000, 0x4_0000)

  /** There a whole page is never sent: the write gets stuck and the memory stays as it was. */
  lemma {:induction false} WholePageStuck(m: Memory, page: seq<byte>, addr: nat)
    requires |m| == WIDE.size && |page| == WIDE.page && addr % WIDE.page == 0 && addr < WIDE.size
    ensures WIDE.Valid() && addr + |page| <= WIDE.size
    ensures !IsSent(WIDE.page, addr, |page|) && BlockWrite(m, WIDE, addr, page) == m
  {
    BelowMultiple(addr, WIDE.page, WIDE.size);
    BaseOfIsBase(WIDE, addr);
  }

  // ---------------------------------------------------------------- cut off in between

  /** How many bytes the first `chunks` chunks of a block hold. */
  function Reached(page: nat, target: nat, len: nat, chunks: nat): (n: nat)
    requires page > 0
    ensures n <= len
    decreases chunks
  {
    if len == 0 || chunks == 0 then 0
    else
      var n := Chunk(page, target, len);
      n + Reached(page, target + n, len - n, chunks - 1)
  }

  /** Being cut off leaves whole pages: nothing, everything, or a prefix that ends at a page end. */
  lemma {:induction false} ReachedEndsPage(page: nat, target: nat, len: nat, chunks: nat)
    requires page > 0
    ensures var n := Reached(page, target, len, chunks); n == 0 || n == len || (target + n) % page == 0
    ensures len <= page * chunks - target % page ==> Reached(page, target, len, chunks) == len
    decreases chunks
  {
    if len > 0 && chunks > 0 {
      var n := Chunk(page, target, len);
      ChunkFits(page, target, len);
      ReachedEndsPage(page, target + n, len - n, chunks - 1);
      assert page * chunks == page * (chunks - 1) + page;
    }
  }

  // ---------------------------------------------------------------- flash

  /** Programming flash only clears bits. */
  const CLEAR: Cell := (old_, new_) => AndByte(old_, new_)

  function AndByte(x: byte, y: byte): (z: byte)
  {
    AndBelow(x, y);
    And(x, y)
  }

  lemma {:induction false} AndBelow(x: nat, y: nat)
    ensures And(x, y) <= x && And(x, y) <= y
  {
    if x > 0 && y > 0 {
      AndBelow(x / 2, y / 2);
    }
  }

  lemma {:induction false} AndStep(x: nat, y: nat)
    ensures And(x, y) / 2 == And(x / 2, y / 2)
    ensures And(x, y) % 2 == if x % 2 == 1 && y % 2 == 1 then 1 else 0
  {
  }

  /** Clearing the same bits once more changes nothing. */
  lemma {:induction false} AndTwice(x: nat, y: nat, z: nat)
    requires z == And(x, y)
    ensures And(z, y) == z
    decreases x
  {
    if x > 0 && y > 0 {
      AndStep(x, y);
      AndTwice(x / 2, y / 2, z / 2);
      AndStep(z, y);
    }
  }

  lemma {:induction false} AndOnes(y: nat, n: nat, ones: nat)
    requires y <= ones && ones + 1 == Power2(n)
    ensures And(ones, y) == y
    decreases n
  {
    if y > 0 {
      AndOnes(y / 2, n - 1, ones / 2);
    }
  }

  /** A block written over erased flash reads back as written. */
  lemma {:induction false} ErasedTakesData(m: Memory, a: nat, data: seq<byte>)
    requires a + |data| <= |m| && forall i :: a <= i < a + |data| ==> m[i] == 0xFF
    ensures Put(m, a, data, CLEAR)[a..a + |data|] == data
  {
    forall i | 0 <= i < |data|
      ensures Put(m, a, data, CLEAR)[a + i] == data[i]
    {
      assert Power2(8) == 256;
      AndOnes(data[i], 8, 0xFF);
    }
  }

  /** A write that was cut off can simply be repeated. */
  lemma {:induction false} RepeatCompletes(m: Memory, a: nat, data: seq<byte>, n: nat)
    requires a + |data| <= |m| && n <= |data|
    ensures Put(Put(m, a, data[..n], CLEAR), a, data, CLEAR) == Put(m, a, data, CLEAR)
  {
    forall i | a <= i < a + n
      ensures CLEAR(CLEAR(m[i], data[i - a]), data[i - a]) == CLEAR(m[i], data[i - a])
    {
      AndTwice(m[i], data[i - a], And(m[i], data[i - a]));
    }
  }
}
