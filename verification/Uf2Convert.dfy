/**
 * The converters as they run: loops that append blocks, a reader that keeps its
 * place in variables, and HEX pages that are filled in place.
 */
module Uf2Convert {
  import opened Eeprom
  import opened Uf2
  import opened Wrappers
  import opened Uf2Files
  import opened HexText

  /** convert_to_uf2. */
  method ConvertToUf2(content: seq<byte>, start: nat, family: Word) returns (r: Result<seq<byte>>)
    ensures r == ToUf2(content, start, family)
  {
    var padding := DataPadding();
    var n := (|content| + 255) / 256;
    if n > 0 && start + 256 * (n - 1) >= 0x1_0000_0000 {
      return Err;
    }
    PagesValid(content, start, n);
    ghost var bs, o := Pages(content, start, n), OptionsFor(family, 0, Zeros(220));
    var out: seq<byte> := [];
    for no := 0 to n
      invariant out == EncodeBlocks(bs, o, no)
    {
      PageAt(content, start, n, no);
      var block := OneBlock(content, start, family, padding, no, n);
      out := out + block;
    }
    r := Ok(out);
  }

  method DataPadding() returns (padding: seq<byte>)
    ensures padding == Zeros(220)
  {
    padding := [];
    while |padding| < 512 - 256 - 32 - 4
      invariant |padding| <= 220 && |padding| % 4 == 0 && forall i :: 0 <= i < |padding| ==> padding[i] == 0
      decreases 220 - |padding|
    {
      padding := padding + [0, 0, 0, 0];
    }
  }

  /** The body of the encoding loop. */
  method OneBlock(content: seq<byte>, start: nat, family: Word, padding: seq<byte>, no: nat, n: nat)
    returns (block: seq<byte>)
    requires padding == Zeros(220) && no < n == BlockCount(content) < 0x1_0000_0000
    requires Block(start + 256 * no, Page(content, no)).Valid()
    ensures block == EncodeBlock(Block(start + 256 * no, Page(content, no)), OptionsFor(family, 0, Zeros(220)), no, n)
  {
    var flags: Word := if family != 0 then FAMILY_PRESENT else 0;
    var chunk := PageOf(content, no);
    block := PackWords([MAGIC_START0, MAGIC_START1, flags, 256 * no + start, 256, no, n, family])
      + chunk + padding + PackWord(MAGIC_END);
  }

  /** The bytes of one page, with zeros added until there are 256. */
  method PageOf(content: seq<byte>, i: nat) returns (chunk: seq<byte>)
    requires i < BlockCount(content)
    ensures chunk == Page(content, i)
  {
    var end := if 256 * i + 256 <= |content| then 256 * i + 256 else |content|;
    chunk := content[256 * i..end];
    ghost var taken := chunk;
    while |chunk| < 256
      invariant |taken| <= |chunk| <= 256 && chunk == taken + Zeros(|chunk| - |taken|)
      decreases 256 - |chunk|
    {
      chunk := chunk + [0];
    }
  }

  /** The loop that appends padding, four bytes at a time. */
  method AppendPadding(out: seq<byte>, padding: nat) returns (r: seq<byte>)
    requires padding % 4 == 0
    ensures r == out + Zeros(padding)
  {
    r := out;
    var left := padding;
    while left > 0
      invariant 0 <= left <= padding && left % 4 == 0 && r == out + Zeros(padding - left)
    {
      left := left - 4;
      r := r + [0, 0, 0, 0];
    }
  }

  /** convert_from_uf2; `wanted` is the selected family, 0 for any. */
  method ConvertFromUf2(buf: seq<byte>, wanted: Word, start: nat) returns (r: Result<Decoded>)
    ensures r == Decode(buf, wanted, start)
  {
    var read, flashed := ReadAllBlocks(buf, |buf| / 512, wanted, start);
    if read.Err? {
      r := Err;
    } else if flashed && |read.value.seen| > 1 && wanted == 0 {
      r := Ok(Decoded([], 0));
    } else {
      r := Ok(Decoded(read.value.out, read.value.start));
    }
  }

  /** The decoding loop with its variables; `flashed` tells whether the last block was one to flash. */
  method ReadAllBlocks(buf: seq<byte>, n: nat, wanted: Word, start: nat) returns (r: Result<Reader>, flashed: bool)
    requires 512 * n <= |buf|
    ensures r == ReadBlocks(buf, n, wanted, start) && (r.Ok? ==> flashed == EndsFlashed(buf, n))
  {
    r, flashed := Ok(Reader(None, None, {}, [], start)), false;
    for no := 0 to n
      invariant r.Ok? && r == ReadBlocks(buf, no, wanted, start) && flashed == EndsFlashed(buf, no)
    {
      r, flashed := NextBlock(buf, no, r.value, wanted, start);
      if r.Err? {
        StaysErr(buf, no + 1, n, wanted, start);
        return;
      }
    }
  }

  method NextBlock(buf: seq<byte>, no: nat, reader: Reader, wanted: Word, ghost start: nat)
    returns (r: Result<Reader>, flash: bool)
    requires 512 * (no + 1) <= |buf| && ReadBlocks(buf, no, wanted, start) == Ok(reader)
    ensures r == ReadBlocks(buf, no + 1, wanted, start) && flash == EndsFlashed(buf, no + 1)
  {
    var block := buf[512 * no..512 * (no + 1)];
    ReadsNext(buf, no + 1, wanted, start, block);
    r, flash := ReadOne(reader, block, wanted);
  }

  lemma {:induction false} StaysErr(buf: seq<byte>, k: nat, n: nat, wanted: Word, start: nat)
    requires k <= n && 512 * n <= |buf| && ReadBlocks(buf, k, wanted, start).Err?
    ensures ReadBlocks(buf, n, wanted, start).Err?
  {
    if k < n {
      StaysErr(buf, k, n - 1, wanted, start);
    }
  }

  /** The body of the decoding loop. */
  method ReadOne(reader: Reader, block: seq<byte>, wanted: Word) returns (r: Result<Reader>, flash: bool)
    requires |block| == 512
    ensures r == ReadBlock(reader, block, wanted) && flash == !NoFlash(Header(block)[2])
  {
    var hd := Header(block);
    flash := !NoFlash(hd[2]);
    if hd[0] != MAGIC_START0 || hd[1] != MAGIC_START1 {
      r := Err;
    } else if !flash {
      r := Ok(reader);
    } else if hd[4] > 476 {
      r := Err;
    } else {
      r := AcceptOne(reader, hd[2], hd[3], hd[7], block[32..32 + hd[4]], wanted);
    }
  }

  method AcceptOne(reader: Reader, flags: Word, addr: nat, family: Word, data: seq<byte>, wanted: Word)
    returns (r: Result<Reader>)
    ensures r == Accept(reader, flags, addr, family, data, wanted)
  {
    var next, current, start, out, seen := reader.next, reader.family, reader.start, reader.out, reader.seen;
    if HasFamily(flags) && current == None {
      current := Some(family);
    }
    if next == None || (HasFamily(flags) && Some(family) != current) {
      current := Some(family);
      next := Some(addr);
      if wanted == 0 || wanted == family {
        start := addr;
      }
    }
    var padding := addr - next.value;
    if padding < 0 || padding > MOST_PADDING || padding % 4 != 0 {
      return Err;
    }
    out := AppendPadding(out, padding);
    if wanted == 0 || (HasFamily(flags) && wanted == family) {
      out := out + data;
    } else {
      assert out + [] == out;
    }
    if HasFamily(flags) {
      seen := seen + {family};
    }
    r := Ok(Reader(Some(addr + |data|), current, seen, out, start));
  }

  // ---------------------------------------------------------------- Intel HEX

  /** A page of a HEX file while it is filled. */
  class HexBlock {
    const addr: nat
    const bytes: array<byte>

    ghost predicate Valid() { bytes.Length == 256 }

    ghost function Abs(): Block
      reads bytes
    {
      Block(addr, bytes[..])
    }

    constructor (addr: nat)
      ensures Valid() && fresh(bytes) && this.addr == addr && Abs() == Block(addr, Zeros(256))
    {
      this.addr := addr;
      bytes := new byte[256](_ => 0);
      new;
      assert bytes[..] == Zeros(256);
    }
  }

  /** The pages filled so far; only the last is still written to. */
  class HexReader {
    var upper: nat
    var done: seq<Block>
    var current: HexBlock?
    ghost var writes: seq<Write>

    ghost predicate Valid()
      reads this, current, if current != null then {current.bytes} else {}
    {
      && (current != null ==> current.Valid()) && (current == null ==> done == [])
      && Blocks() == PlaceBytes(writes)
    }

    ghost function Blocks(): seq<Block>
      reads this, current, if current != null then {current.bytes} else {}
    {
      if current == null then [] else done + [current.Abs()]
    }

    constructor ()
      ensures Valid() && current == null && upper == 0 && writes == []
    {
      upper, done, current, writes := 0, [], null, [];
    }

    /** One byte: a new page when the page of the address changes, then filled in place. */
    method Put(addr: nat, value: byte)
      requires Valid()
      modifies this`done, this`current, this`writes, if current != null then {current.bytes} else {}
      ensures Valid() && writes == old(writes) + [Write(addr, value)]
      ensures current != null && (current == old(current) || fresh(current.bytes))
    {
      ghost var was := Blocks();
      if current == null || current.addr != addr - addr % 256 {
        if current != null {
          done := done + [Block(current.addr, current.bytes[..])];
        }
        current := new HexBlock(addr - addr % 256);
        assert done == was;
      }
      current.bytes[addr % 256] := value;
      ghost var w := Write(addr, value);
      assert Blocks() == PlaceByte(was, w);
      assert (writes + [w])[..|writes|] == writes;
      writes := writes + [w];
    }

    /** The data bytes of a record. */
    method PutRun(start: nat, data: seq<byte>)
      requires Valid()
      modifies this`done, this`current, this`writes, if current != null then {current.bytes} else {}
      ensures Valid() && writes == old(writes) + Run(start, data)
      ensures current == old(current) || (current != null && fresh(current.bytes))
    {
      var addr := start;
      ghost var was := writes;
      assert data[..0] == [];
      for i := 0 to |data|
        invariant Valid() && addr == start + i && writes == was + Run(start, data[..i])
        invariant current == old(current) || (current != null && fresh(current.bytes))
      {
        Put(addr, data[i]);
        RunStep(was, start, data, i);
        addr := addr + 1;
      }
      assert data[..|data|] == data;
    }

    /** One record. */
    method Record(rec: seq<byte>) returns (ok: bool, ended: bool)
      requires Valid()
      modifies this, if current != null then {current.bytes} else {}
      ensures Valid() && (current == old(current) || (current != null && fresh(current.bytes)))
      ensures var r := ReadRecord(HexState(old(upper), old(writes), false), rec);
        (ok <==> r.Ok?) && (ok ==> r.value == HexState(upper, writes, ended))
    {
      ok, ended := true, false;
      if |rec| < 4 {
        return false, false;
      }
      if rec[3] == 4 {
        if |rec| < 6 {
          return false, false;
        }
        upper := TwoBytes(rec, 4) * 0x1_0000;
      } else if rec[3] == 2 {
        if |rec| < 6 {
          return false, false;
        }
        upper := TwoBytes(rec, 4) * 16;
      } else if rec[3] == 1 {
        ended := true;
      } else if rec[3] == 0 {
        if |rec| > 4 {
          PutRun(upper + TwoBytes(rec, 1), rec[4..|rec| - 1]);
        } else {
          assert writes + [] == writes;
        }
      }
    }
  }

  lemma {:induction false} RunStep(was: seq<Write>, start: nat, data: seq<byte>, i: nat)
    requires i < |data|
    ensures was + Run(start, data[..i + 1]) == was + Run(start, data[..i]) + [Write(start + i, data[i])]
  {
    assert data[..i + 1][..i] == data[..i];
  }

  lemma {:induction false} StaysEnded(lines: seq<string>, k: nat, n: nat)
    requires k <= n <= |lines|
    ensures ReadLines(lines, k).Err? || ReadLines(lines, k).value.ended ==> ReadLines(lines, n) == ReadLines(lines, k)
  {
    if k < n {
      StaysEnded(lines, k, n - 1);
    }
  }

  /** The digits of a line, two by two. */
  method ReadDigits(line: string) returns (r: Result<seq<byte>>)
    requires line != ""
    ensures r == LineBytes(line, Pairs(line))
  {
    var i, rec: seq<byte> := 1, [];
    while i < |line| - 1
      invariant i == 1 + 2 * |rec| && |rec| <= Pairs(line) && LineBytes(line, |rec|) == Ok(rec)
    {
      var b := Pair(line[i], line[i + 1]);
      if b.None? {
        FirstBadPair(line, |rec|, Pairs(line));
        return Err;
      }
      rec := rec + [b.value];
      i := i + 2;
    }
    r := Ok(rec);
  }

  lemma {:induction false} FirstBadPair(line: string, k: nat, n: nat)
    requires k < n && 2 * n < |line| && Pair(line[2 * k + 1], line[2 * k + 2]).None?
    ensures LineBytes(line, n).Err?
  {
    if k < n - 1 {
      FirstBadPair(line, k, n - 1);
    }
  }

  /** One line of a HEX file. */
  method NextLine(reader: HexReader, line: string) returns (ok: bool, ended: bool)
    requires reader.Valid()
    modifies reader, if reader.current != null then {reader.current.bytes} else {}
    ensures reader.Valid()
    ensures reader.current == old(reader.current) || (reader.current != null && fresh(reader.current.bytes))
    ensures var r := ReadLine(HexState(old(reader.upper), old(reader.writes), false), line);
      (ok <==> r.Ok?) && (ok ==> r.value == HexState(reader.upper, reader.writes, ended))
  {
    if line == "" {
      return false, false;
    }
    if line[0] != ':' {
      return true, false;
    }
    var rec := ReadDigits(line);
    if rec.Err? {
      return false, false;
    }
    ok, ended := reader.Record(rec.value);
  }

  /** Reads lines up to the end record. */
  method ReadAll(reader: HexReader, lines: seq<string>) returns (ok: bool)
    requires reader.Valid() && reader.current == null && reader.upper == 0 && reader.writes == []
    modifies reader
    ensures ok <==> ReadLines(lines, |lines|).Ok?
    ensures ok ==> reader.Valid() && reader.writes == ReadLines(lines, |lines|).value.writes
  {
    var i, ended := 0, false;
    while i < |lines| && !ended
      invariant 0 <= i <= |lines| && reader.Valid()
      invariant reader.current != null ==> fresh(reader.current.bytes)
      invariant ReadLines(lines, i) == Ok(HexState(reader.upper, reader.writes, ended))
      decreases |lines| - i
    {
      ok, ended := NextLine(reader, lines[i]);
      i := i + 1;
      if !ok {
        StaysEnded(lines, i, |lines|);
        return;
      }
    }
    StaysEnded(lines, i, |lines|);
    ok := true;
  }

  /** convert_from_hex_to_uf2. */
  method ConvertFromHex(text: string, o: Options) returns (r: Result<seq<byte>>)
    requires o.Valid()
    ensures var s := ReadText(text);
      r == if s.Err? then Err else HexToUf2(s.value.writes, o)
  {
    var reader := new HexReader();
    var ok := ReadAll(reader, Split(text));
    if !ok {
      return Err;
    }
    var blocks := if reader.current == null then [] else
      reader.done + [Block(reader.current.addr, reader.current.bytes[..])];
    r := EncodeAll(blocks, o);
  }

  /** Numbers and encodes the blocks; an address that does not fit its word is an error. */
  method EncodeAll(bs: seq<Block>, o: Options) returns (r: Result<seq<byte>>)
    requires o.Valid()
    ensures r == if !AllValid(bs) || |bs| >= 0x1_0000_0000 then Err else Ok(EncodeBlocks(bs, o, |bs|))
  {
    if !AllValid(bs) || |bs| >= 0x1_0000_0000 {
      return Err;
    }
    var out: seq<byte> := [];
    for i := 0 to |bs|
      invariant out == EncodeBlocks(bs, o, i)
    {
      out := out + EncodeBlock(bs[i], o, i, |bs|);
    }
    r := Ok(out);
  }
}
