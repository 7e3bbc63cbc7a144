/**
 * The UF2 container: 512-byte blocks, each with a header of eight little-endian
 * words, up to 476 bytes of payload for a stated address, and a final magic word.
 */
module Uf2 {
  import opened Eeprom
  import opened Wrappers

  type Word = x: int | 0 <= x < 0x1_0000_0000

  const MAGIC_START0: Word := 0x0A324655
  const MAGIC_START1: Word := 0x9E5D5157
  const MAGIC_END: Word := 0x0AB16F30
  const FAMILY_PRESENT: Word := 0x2000
  const MOST_PADDING := 10 * 1024 * 1024

  // ---------------------------------------------------------------- words

  function PackWord(x: Word): (b: seq<byte>)
    ensures |b| == 4
  {
    [x % 256, x / 0x100 % 256, x / 0x1_0000 % 256, x / 0x100_0000 % 256]
  }

  function UnpackWord(b: seq<byte>, at: nat): Word
    requires at + 4 <= |b|
  {
    var b0: int, b1: int, b2: int, b3: int := b[at], b[at + 1], b[at + 2], b[at + 3];
    b0 + 0x100 * b1 + 0x1_0000 * b2 + 0x100_0000 * b3
  }

  lemma {:induction false} Digits(x: Word)
    ensures x % 256 + 0x100 * (x / 0x100 % 256) + 0x1_0000 * (x / 0x1_0000 % 256)
            + 0x100_0000 * (x / 0x100_0000 % 256) == x
  {
  }

  lemma {:induction false} WordRoundTrip(x: Word, before: seq<byte>, after: seq<byte>)
    ensures UnpackWord(before + PackWord(x) + after, |before|) == x
  {
    var b, p, at := before + PackWord(x) + after, PackWord(x), |before|;
    assert b[at] == p[0] && b[at + 1] == p[1] && b[at + 2] == p[2] && b[at + 3] == p[3];
    Digits(x);
  }

  function PackWords(ws: seq<Word>): (b: seq<byte>)
    ensures |b| == 4 * |ws|
  {
    if ws == [] then [] else PackWords(ws[..|ws| - 1]) + PackWord(ws[|ws| - 1])
  }

  lemma {:induction false} WordsRoundTrip(ws: seq<Word>, after: seq<byte>, i: nat)
    requires i < |ws|
    ensures UnpackWord(PackWords(ws) + after, 4 * i) == ws[i]
  {
    var n := |ws| - 1;
    var before, last := PackWords(ws[..n]), PackWord(ws[n]);
    assert PackWords(ws) + after == before + last + after;
    if i == n {
      WordRoundTrip(ws[n], before, after);
    } else {
      assert PackWords(ws) + after == before + (last + after);
      WordsRoundTrip(ws[..n], last + after, i);
    }
  }

  // ---------------------------------------------------------------- blocks

  /** A block of 256 bytes for an address. */
  datatype Block = Block(addr: nat, payload: seq<byte>) {
    predicate Valid() { |payload| == 256 && addr < 0x1_0000_0000 }
  }

  predicate AllValid(bs: seq<Block>) { forall i :: 0 <= i < |bs| ==> bs[i].Valid() }

  /** What the header says besides the address and the numbering. */
  datatype Options = Options(flags: Word, family: Word, tail: seq<byte>) {
    /** The family flag is set exactly when a family is given, the no-flash flag never. */
    predicate Valid() {
      flags % 2 == 0 && |tail| == 220 && (HasFamily(flags) <==> family != 0)
    }
  }

  predicate NoFlash(flags: Word) { flags % 2 == 1 }

  predicate HasFamily(flags: Word) { flags / 0x2000 % 2 == 1 }

  function EncodeBlock(b: Block, o: Options, no: Word, total: Word): (e: seq<byte>)
    requires b.Valid() && o.Valid()
    ensures |e| == 512
  {
    PackWords([MAGIC_START0, MAGIC_START1, o.flags, b.addr, 256, no, total, o.family])
    + b.payload + o.tail + PackWord(MAGIC_END)
  }

  /** The eight header words. */
  function Header(block: seq<byte>): (hd: seq<Word>)
    requires |block| == 512
    ensures |hd| == 8
  {
    seq(8, i requires 0 <= i < 8 => UnpackWord(block, 4 * i))
  }

  lemma {:induction false} BlockRoundTrip(b: Block, o: Options, no: Word, total: Word)
    requires b.Valid() && o.Valid()
    ensures var e := EncodeBlock(b, o, no, total);
      && Header(e) == [MAGIC_START0, MAGIC_START1, o.flags, b.addr, 256, no, total, o.family]
      && e[32..288] == b.payload
  {
    var ws: seq<Word> := [MAGIC_START0, MAGIC_START1, o.flags, b.addr, 256, no, total, o.family];
    var rest := b.payload + o.tail + PackWord(MAGIC_END);
    var e := EncodeBlock(b, o, no, total);
    assert e == PackWords(ws) + rest;
    forall i | 0 <= i < 8
      ensures Header(e)[i] == ws[i]
    {
      WordsRoundTrip(ws, rest, i);
    }
  }

  /** Four bytes of a block, the least significant first. */
  predicate IsWordAt(e: seq<byte>, at: nat, b0: byte, b1: byte, b2: byte, b3: byte)
    requires at + 4 <= |e|
  {
    e[at] == b0 && e[at + 1] == b1 && e[at + 2] == b2 && e[at + 3] == b3
  }

  lemma {:induction false} WordBytes(ws: seq<Word>, after: seq<byte>, i: nat)
    requires i < |ws|
    ensures var e, w := PackWords(ws) + after, ws[i];
      IsWordAt(e, 4 * i, w % 256, w / 0x100 % 256, w / 0x1_0000 % 256, w / 0x100_0000 % 256)
  {
    var n := |ws| - 1;
    if i == n {
      assert PackWords(ws) + after == PackWords(ws[..n]) + (PackWord(ws[n]) + after);
    } else {
      assert PackWords(ws) + after == PackWords(ws[..n]) + (PackWord(ws[n]) + after);
      WordBytes(ws[..n], PackWord(ws[n]) + after, i);
    }
  }

  lemma {:induction false} HeaderWord(b: Block, o: Options, no: Word, total: Word, e: seq<byte>, i: nat, w: Word)
    requires b.Valid() && o.Valid() && e == EncodeBlock(b, o, no, total) && i < 8
    requires w == [MAGIC_START0, MAGIC_START1, o.flags, b.addr, 256, no, total, o.family][i]
    ensures IsWordAt(e, 4 * i, w % 256, w / 0x100 % 256, w / 0x1_0000 % 256, w / 0x100_0000 % 256)
  {
    var ws: seq<Word> := [MAGIC_START0, MAGIC_START1, o.flags, b.addr, 256, no, total, o.family];
    var rest := b.payload + o.tail + PackWord(MAGIC_END);
    assert e == PackWords(ws) + rest;
    WordBytes(ws, rest, i);
  }

  lemma {:induction false} BlockEnds(b: Block, o: Options, no: Word, total: Word, e: seq<byte>)
    requires b.Valid() && o.Valid() && e == EncodeBlock(b, o, no, total)
    ensures e[32..288] == b.payload && IsWordAt(e, 508, 0x30, 0x6F, 0xB1, 0x0A)
  {
    BlockRoundTrip(b, o, no, total);
    var ws: seq<Word> := [MAGIC_START0, MAGIC_START1, o.flags, b.addr, 256, no, total, o.family];
    var front := PackWords(ws) + b.payload + o.tail;
    assert e == front + PackWord(MAGIC_END) && |front| == 508;
    assert forall j :: 0 <= j < 4 ==> e[508 + j] == PackWord(MAGIC_END)[j];
  }

  /**
   * A block byte for byte: the magic numbers at both ends, and the address and the
   * family with their least significant byte first.
   */
  lemma {:induction false} BlockBytes(b: Block, o: Options, no: Word, total: Word)
    requires b.Valid() && o.Valid()
    ensures var e, f := EncodeBlock(b, o, no, total), o.family;
      && IsWordAt(e, 0, 0x55, 0x46, 0x32, 0x0A) && IsWordAt(e, 4, 0x57, 0x51, 0x5D, 0x9E)
      && IsWordAt(e, 12, b.addr % 256, b.addr / 0x100 % 256, b.addr / 0x1_0000 % 256, b.addr / 0x100_0000 % 256)
      && IsWordAt(e, 28, f % 256, f / 0x100 % 256, f / 0x1_0000 % 256, f / 0x100_0000 % 256)
      && e[32..288] == b.payload && IsWordAt(e, 508, 0x30, 0x6F, 0xB1, 0x0A)
  {
    var e := EncodeBlock(b, o, no, total);
    HeaderWord(b, o, no, total, e, 0, MAGIC_START0);
    HeaderWord(b, o, no, total, e, 1, MAGIC_START1);
    HeaderWord(b, o, no, total, e, 3, b.addr);
    HeaderWord(b, o, no, total, e, 7, o.family);
    BlockEnds(b, o, no, total, e);
  }

  /** The first `n` blocks of a file with `total` blocks. */
  function EncodeBlocks(bs: seq<Block>, o: Options, n: nat): (e: seq<byte>)
    requires AllValid(bs) && o.Valid() && n <= |bs| < 0x1_0000_0000
    ensures |e| == 512 * n
  {
    if n == 0 then [] else EncodeBlocks(bs, o, n - 1) + EncodeBlock(bs[n - 1], o, n - 1, |bs|)
  }

  lemma {:induction false} BlockInFile(bs: seq<Block>, o: Options, n: nat, k: nat)
    requires AllValid(bs) && o.Valid() && k < n <= |bs| < 0x1_0000_0000
    ensures EncodeBlocks(bs, o, n)[512 * k..512 * k + 512] == EncodeBlock(bs[k], o, k, |bs|)
  {
    if k < n - 1 {
      BlockInFile(bs, o, n - 1, k);
      assert EncodeBlocks(bs, o, n)[512 * k..512 * k + 512] == EncodeBlocks(bs, o, n - 1)[512 * k..512 * k + 512];
    }
  }

  // ---------------------------------------------------------------- decoding

  /** The variables of the decoder: next address, family, families seen, output and its start. */
  datatype Reader = Reader(next: Option<nat>, family: Option<Word>, seen: set<Word>, out: seq<byte>, start: nat)

  /** A block that is to be flashed; `wanted` is the selected family, 0 for any. */
  function Accept(r: Reader, flags: Word, addr: nat, family: Word, data: seq<byte>, wanted: Word): Result<Reader> {
    var current := if HasFamily(flags) && r.family.None? then Some(family) else r.family;
    var restarts := r.next.None? || (HasFamily(flags) && Some(family) != current);
    var next := if restarts then addr else r.next.value;
    var padding := addr - next;
    if padding < 0 || padding > MOST_PADDING || padding % 4 != 0 then Err
    else
      var chosen := wanted == 0 || (HasFamily(flags) && wanted == family);
      Ok(Reader(
        Some(addr + |data|),
        if restarts then Some(family) else current,
        if HasFamily(flags) then r.seen + {family} else r.seen,
        r.out + Zeros(padding) + if chosen then data else [],
        if restarts && (wanted == 0 || wanted == family) then addr else r.start))
  }

  /** One block of convert_from_uf2. */
  function ReadBlock(r: Reader, block: seq<byte>, wanted: Word): Result<Reader>
    requires |block| == 512
  {
    var hd := Header(block);
    if hd[0] != MAGIC_START0 || hd[1] != MAGIC_START1 then Err
    else if NoFlash(hd[2]) then Ok(r)
    else if hd[4] > 476 then Err
    else Accept(r, hd[2], hd[3], hd[7], block[32..32 + hd[4]], wanted)
  }

  /** The decoder after the first `n` blocks of a buffer. */
  function ReadBlocks(buf: seq<byte>, n: nat, wanted: Word, start: nat): Result<Reader>
    requires 512 * n <= |buf|
  {
    if n == 0 then Ok(Reader(None, None, {}, [], start))
    else match ReadBlocks(buf, n - 1, wanted, start)
      case Err => Err
      case Ok(r) => ReadBlock(r, buf[512 * (n - 1)..512 * n], wanted)
  }

  /** Whether the last of `n` blocks is one that is flashed. */
  predicate EndsFlashed(buf: seq<byte>, n: nat)
    requires 512 * n <= |buf|
  {
    n > 0 && !NoFlash(Header(buf[512 * (n - 1)..512 * n])[2])
  }

  datatype Decoded = Decoded(out: seq<byte>, start: nat)

  /**
   * convert_from_uf2: the output and the start address, unless a block is refused.
   * Several families without a selection give no output; that is noticed only if the
   * last block is one that is flashed.
   */
  function Decode(buf: seq<byte>, wanted: Word, start: nat): Result<Decoded> {
    var n := |buf| / 512;
    match ReadBlocks(buf, n, wanted, start)
    case Err => Err
    case Ok(r) =>
      if EndsFlashed(buf, n) && |r.seen| > 1 && wanted == 0
      then Ok(Decoded([], 0))
      else Ok(Decoded(r.out, r.start))
  }

  /**
   * A file of one block that is flashed: data of up to 476 bytes, as long as the header
   * says, for the header's address; more is an error.
   */
  lemma {:induction false} OneBlockDecodes(block: seq<byte>, start: nat)
    requires |block| == 512 && Header(block)[0] == MAGIC_START0 && Header(block)[1] == MAGIC_START1
    requires Header(block)[2] % 2 == 0
    ensures var n := Header(block)[4];
      Decode(block, 0, start) == if n > 476 then Err else Ok(Decoded(block[32..32 + n], Header(block)[3]))
  {
    var r0 := Reader(None, None, {}, [], start);
    assert block[512 * 0..512 * 1] == block && ReadBlocks(block, 0, 0, start) == Ok(r0);
    assert ReadBlocks(block, 1, 0, start) == ReadBlock(r0, block, 0);
    var n := Header(block)[4];
    if n <= 476 {
      var data := block[32..32 + n];
      assert [] + Zeros(0) + data == data;
      var seen: set<Word> := {Header(block)[7]};
      assert {} + seen == seen && |seen| == 1;
    }
  }

  // ---------------------------------------------------------------- decoding what was encoded

  /** Each block follows the one before it, with a gap the decoder accepts. */
  predicate InOrder(bs: seq<Block>, n: nat)
    requires n <= |bs|
  {
    forall i :: 0 < i < n ==> Follows(bs[i - 1], bs[i])
  }

  predicate Follows(a: Block, b: Block) {
    var gap := b.addr - (a.addr + 256);
    0 <= gap <= MOST_PADDING && gap % 4 == 0
  }

  /** The bytes from the first block to the end of the n-th, with zeros in the gaps. */
  function Image(bs: seq<Block>, n: nat): seq<byte>
    requires n <= |bs| && InOrder(bs, n)
  {
    if n == 0 then []
    else if n == 1 then bs[0].payload
    else
      assert Follows(bs[n - 2], bs[n - 1]);
      Image(bs, n - 1) + Zeros(bs[n - 1].addr - (bs[n - 2].addr + 256)) + bs[n - 1].payload
  }

  /** The decoder's state after the first `n` blocks of a file. */
  function Reading(bs: seq<Block>, o: Options, n: nat, start: nat): Reader
    requires n <= |bs| && InOrder(bs, n)
  {
    if n == 0 then Reader(None, None, {}, [], start)
    else Reader(Some(bs[n - 1].addr + 256), Some(o.family), if o.family != 0 then {o.family} else {},
                Image(bs, n), bs[0].addr)
  }

  /** Reading one block written by the encoder. */
  lemma {:induction false} AcceptNext(bs: seq<Block>, o: Options, n: nat, wanted: Word, start: nat)
    requires AllValid(bs) && o.Valid() && n < |bs| && InOrder(bs, n) && InOrder(bs, n + 1)
    requires wanted == 0 || wanted == o.family
    ensures Accept(Reading(bs, o, n, start), o.flags, bs[n].addr, o.family, bs[n].payload, wanted)
            == Ok(Reading(bs, o, n + 1, start))
  {
    var f: set<Word> := {o.family};
    assert {} + f == f && f + f == f;
    if n == 0 {
      assert [] + Zeros(0) + bs[0].payload == bs[0].payload;
    } else {
      assert Follows(bs[n - 1], bs[n]);
    }
  }

  lemma {:induction false} RefuseNext(bs: seq<Block>, o: Options, n: nat, wanted: Word, start: nat)
    requires AllValid(bs) && o.Valid() && 0 < n < |bs| && InOrder(bs, n) && !Follows(bs[n - 1], bs[n])
    ensures Accept(Reading(bs, o, n, start), o.flags, bs[n].addr, o.family, bs[n].payload, wanted) == Err
  {
  }

  lemma {:induction false} ReadsAsAccept(r: Reader, b: Block, o: Options, no: Word, total: Word, wanted: Word)
    requires b.Valid() && o.Valid()
    ensures ReadBlock(r, EncodeBlock(b, o, no, total), wanted)
            == Accept(r, o.flags, b.addr, o.family, b.payload, wanted)
  {
    BlockRoundTrip(b, o, no, total);
  }

  lemma {:induction false} ReadEncoded(
      bs: seq<Block>, o: Options, n: nat, wanted: Word, start: nat, block: seq<byte>, next: Result<Reader>)
    requires AllValid(bs) && o.Valid() && n < |bs| < 0x1_0000_0000 && InOrder(bs, n)
    requires wanted == 0 || wanted == o.family
    requires block == EncodeBlock(bs[n], o, n, |bs|) && next == ReadBlock(Reading(bs, o, n, start), block, wanted)
    ensures next == if InOrder(bs, n + 1) then Ok(Reading(bs, o, n + 1, start)) else Err
  {
    ReadsAsAccept(Reading(bs, o, n, start), bs[n], o, n, |bs|, wanted);
    OrderStep(bs, n);
    if InOrder(bs, n + 1) {
      AcceptNext(bs, o, n, wanted, start);
    } else {
      RefuseNext(bs, o, n, wanted, start);
    }
  }

  lemma {:induction false} OrderStep(bs: seq<Block>, n: nat)
    requires n < |bs|
    ensures InOrder(bs, n + 1) <==> InOrder(bs, n) && (n == 0 || Follows(bs[n - 1], bs[n]))
  {
  }

  /** A file of encoded blocks is accepted exactly when they are in order; then it decodes to their image. */
  lemma {:induction false} ReadsBack(bs: seq<Block>, o: Options, n: nat, wanted: Word, start: nat, buf: seq<byte>)
    requires AllValid(bs) && o.Valid() && n <= |bs| < 0x1_0000_0000 && (wanted == 0 || wanted == o.family)
    requires buf == EncodeBlocks(bs, o, |bs|)
    ensures ReadBlocks(buf, n, wanted, start) == if InOrder(bs, n) then Ok(Reading(bs, o, n, start)) else Err
    decreases n
  {
    if n > 0 {
      var k := n - 1;
      ReadsBack(bs, o, k, wanted, start, buf);
      OrderStep(bs, k);
      BlockInFile(bs, o, |bs|, k);
      var block := buf[512 * k..512 * n];
      ReadsNext(buf, n, wanted, start, block);
      if InOrder(bs, k) {
        ReadEncoded(bs, o, k, wanted, start, block, ReadBlock(Reading(bs, o, k, start), block, wanted));
      }
    }
  }

  lemma {:induction false} ReadsNext(buf: seq<byte>, n: nat, wanted: Word, start: nat, block: seq<byte>)
    requires 0 < n && 512 * n <= |buf| && block == buf[512 * (n - 1)..512 * n]
    ensures var before := ReadBlocks(buf, n - 1, wanted, start);
      ReadBlocks(buf, n, wanted, start) == if before.Err? then Err else ReadBlock(before.value, block, wanted)
  {
  }

  lemma {:induction false} DecodesImage(bs: seq<Block>, o: Options, wanted: Word, start: nat, buf: seq<byte>)
    requires AllValid(bs) && o.Valid() && |bs| < 0x1_0000_0000 && (wanted == 0 || wanted == o.family)
    requires buf == EncodeBlocks(bs, o, |bs|)
    ensures Decode(buf, wanted, start)
            == if !InOrder(bs, |bs|) then Err
               else Ok(Decoded(Image(bs, |bs|), if bs == [] then start else bs[0].addr))
  {
    assert |buf| / 512 == |bs|;
    ReadsBack(bs, o, |bs|, wanted, start, buf);
  }

  // ---------------------------------------------------------------- blocks of another format

  /** A block without the start magic; 512-byte blocks are meant to be skipped if they are foreign. */
  predicate IsForeign(block: seq<byte>)
    requires |block| == 512
  {
    Header(block)[0] != MAGIC_START0 || Header(block)[1] != MAGIC_START1
  }

  predicate AreBlocks(file: seq<seq<byte>>) { forall i :: 0 <= i < |file| ==> |file[i]| == 512 }

  /** The file that consists of these blocks. */
  function Join(file: seq<seq<byte>>): (buf: seq<byte>)
    requires AreBlocks(file)
    ensures |buf| == 512 * |file|
  {
    if file == [] then [] else Join(file[..|file| - 1]) + file[|file| - 1]
  }

  /** The blocks that are not foreign. */
  function Own(file: seq<seq<byte>>): (own: seq<seq<byte>>)
    requires AreBlocks(file)
    ensures AreBlocks(own) && |own| <= |file|
  {
    if file == [] then []
    else
      var before, last := Own(file[..|file| - 1]), file[|file| - 1];
      if IsForeign(last) then before else before + [last]
  }

  lemma {:induction false} SliceKept<T>(a: seq<T>, b: seq<T>, lo: nat, hi: nat)
    requires lo <= hi <= |a|
    ensures (a + b)[lo..hi] == a[lo..hi] && (a + b)[|a|..|a| + |b|] == b
  {
  }

  /** The k-th block of a file. */
  lemma {:induction false} BlockOfJoin(file: seq<seq<byte>>, k: nat)
    requires AreBlocks(file) && k < |file|
    ensures Join(file)[512 * k..512 * (k + 1)] == file[k]
  {
    var n := |file| - 1;
    var front := Join(file[..n]);
    if k < n {
      BlockOfJoin(file[..n], k);
      SliceKept(front, file[n], 512 * k, 512 * (k + 1));
    } else {
      SliceKept(front, file[n], 0, 0);
    }
  }

  /** What was read without an error has the start magic in every block. */
  lemma {:induction false} ReadHasMagic(buf: seq<byte>, n: nat, wanted: Word, start: nat, k: nat)
    requires k < n && 512 * n <= |buf| && ReadBlocks(buf, n, wanted, start).Ok?
    ensures !IsForeign(buf[512 * k..512 * (k + 1)])
  {
    ReadsNext(buf, n, wanted, start, buf[512 * (n - 1)..512 * n]);
    if k < n - 1 {
      ReadHasMagic(buf, n - 1, wanted, start, k);
    }
  }

  lemma {:induction false} OwnIsAll(file: seq<seq<byte>>)
    requires AreBlocks(file) && forall k :: 0 <= k < |file| ==> !IsForeign(file[k])
    ensures Own(file) == file
  {
    if file != [] {
      OwnIsAll(file[..|file| - 1]);
    }
  }

  /**
   * Foreign blocks are not skipped: a file whose other blocks are acceptable decodes
   * as if the foreign ones were skipped if and only if there are none.
   */
  lemma {:induction false} ForeignBlocksRefused(file: seq<seq<byte>>, wanted: Word, start: nat)
    requires AreBlocks(file) && Decode(Join(Own(file)), wanted, start).Ok?
    ensures Decode(Join(file), wanted, start) == Decode(Join(Own(file)), wanted, start)
            <==> forall k :: 0 <= k < |file| ==> !IsForeign(file[k])
    ensures Decode(Join(file), wanted, start).Err? <==> exists k :: 0 <= k < |file| && IsForeign(file[k])
  {
    var n := |file|;
    assert |Join(file)| / 512 == n;
    if forall k :: 0 <= k < n ==> !IsForeign(file[k]) {
      OwnIsAll(file);
    } else {
      var k :| 0 <= k < n && IsForeign(file[k]);
      BlockOfJoin(file, k);
      if ReadBlocks(Join(file), n, wanted, start).Ok? {
        ReadHasMagic(Join(file), n, wanted, start, k);
      }
    }
  }

  /** A block of zeros on its own is an error where the empty file is not. */
  lemma {:induction false} ForeignBlockAlone(wanted: Word, start: nat)
    ensures Decode(Zeros(512), wanted, start) == Err
    ensures IsForeign(Zeros(512)) && Decode([], wanted, start) == Ok(Decoded([], start))
  {
    var block := Zeros(512);
    assert Header(block)[0] == UnpackWord(block, 0) == 0;
    ReadsNext(block, 1, wanted, start, block);
    assert block[0..512] == block;
  }
}
