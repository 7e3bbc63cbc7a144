/**
 * What is put into UF2 files: a flat binary cut into pages of 256 bytes, or the
 * bytes of Intel HEX records gathered into pages as they come.
 */
module Uf2Files {
  import opened Eeprom
  import opened Uf2
  import opened Wrappers

  // ---------------------------------------------------------------- flat binaries

  function BlockCount(x: seq<byte>): (n: nat)
    ensures 256 * n - 256 < |x| <= 256 * n
  {
    (|x| + 255) / 256
  }

  /** The i-th page of a binary, filled up with zeros. */
  function Page(x: seq<byte>, i: nat): (p: seq<byte>)
    requires i < BlockCount(x)
    ensures |p| == 256
  {
    if 256 * i + 256 <= |x| then x[256 * i..256 * i + 256] else x[256 * i..] + Zeros(256 * i + 256 - |x|)
  }

  function Pages(x: seq<byte>, start: nat, n: nat): (bs: seq<Block>)
    requires n <= BlockCount(x)
    ensures |bs| == n
  {
    if n == 0 then [] else Pages(x, start, n - 1) + [Block(start + 256 * (n - 1), Page(x, n - 1))]
  }

  lemma {:induction false} PageAt(x: seq<byte>, start: nat, n: nat, i: nat)
    requires i < n <= BlockCount(x)
    ensures Pages(x, start, n)[i] == Block(start + 256 * i, Page(x, i))
  {
    if i < n - 1 {
      PageAt(x, start, n - 1, i);
    }
  }

  /** Header options as both encoders set them. */
  function OptionsFor(family: Word, extra: Word, tail: seq<byte>): (o: Options)
    requires |tail| == 220 && (extra == 0 || extra == 0x8000)
    ensures o.Valid() && o.family == family
  {
    Options((if family != 0 then FAMILY_PRESENT else 0) + extra, family, tail)
  }

  lemma {:induction false} PagesValid(x: seq<byte>, start: nat, n: nat)
    requires n <= BlockCount(x) && (n == 0 || start + 256 * (n - 1) < 0x1_0000_0000)
    ensures AllValid(Pages(x, start, n)) && n < 0x1_0000_0000
  {
    forall i | 0 <= i < n
      ensures Pages(x, start, n)[i].Valid()
    {
      PageAt(x, start, n, i);
    }
  }

  /** convert_to_uf2; an address that does not fit its word is an error. */
  function ToUf2(x: seq<byte>, start: nat, family: Word): Result<seq<byte>> {
    var n := BlockCount(x);
    if n > 0 && start + 256 * (n - 1) >= 0x1_0000_0000 then Err
    else
      PagesValid(x, start, n);
      Ok(EncodeBlocks(Pages(x, start, n), OptionsFor(family, 0, Zeros(220)), n))
  }

  /** The binary with zeros up to a multiple of 256. */
  function Padded(x: seq<byte>): seq<byte> { x + Zeros(256 * BlockCount(x) - |x|) }

  lemma {:induction false} PagesFollow(x: seq<byte>, start: nat, n: nat)
    requires n <= BlockCount(x)
    ensures InOrder(Pages(x, start, n), n)
  {
    forall i | 0 < i < n
      ensures Follows(Pages(x, start, n)[i - 1], Pages(x, start, n)[i])
    {
      PageAt(x, start, n, i - 1);
      PageAt(x, start, n, i);
    }
  }

  lemma {:induction false} PageOfPadded(x: seq<byte>, i: nat)
    requires i < BlockCount(x)
    ensures Padded(x)[256 * i..256 * i + 256] == Page(x, i)
  {
  }

  lemma {:induction false} PagesImage(x: seq<byte>, start: nat, bs: seq<Block>, n: nat)
    requires bs == Pages(x, start, BlockCount(x)) && n <= |bs| && InOrder(bs, n)
    ensures Image(bs, n) == Padded(x)[..256 * n]
  {
    if n > 0 {
      var p := Padded(x);
      PageAt(x, start, |bs|, n - 1);
      PageOfPadded(x, n - 1);
      if n == 1 {
        assert p[0..256] == p[..256];
      } else {
        PagesImage(x, start, bs, n - 1);
        PageAt(x, start, |bs|, n - 2);
        assert bs[n - 1].addr - (bs[n - 2].addr + 256) == 0;
        assert Zeros(0) == [];
        assert p[..256 * (n - 1)] + [] + p[256 * (n - 1)..256 * n] == p[..256 * n];
      }
    }
  }

  lemma {:induction false} PagesDecode(x: seq<byte>, start: nat, bs: seq<Block>, out: seq<byte>)
    requires bs == Pages(x, start, BlockCount(x)) && InOrder(bs, |bs|) && out == Image(bs, |bs|)
    ensures out == Padded(x) && (x != [] ==> bs[0].addr == start)
  {
    PagesImage(x, start, bs, |bs|);
    assert Padded(x)[..256 * |bs|] == Padded(x);
    if x != [] {
      PageAt(x, start, |bs|, 0);
    }
  }

  /** Round trip: a binary comes back, padded with zeros, with its start address. */
  lemma {:induction false} BinaryRoundTrip(
      x: seq<byte>, start: nat, family: Word, wanted: Word, was: nat, buf: seq<byte>)
    requires ToUf2(x, start, family) == Ok(buf) && (wanted == 0 || wanted == family)
    ensures Decode(buf, wanted, was) == Ok(Decoded(Padded(x), if x == [] then was else start))
  {
    var n, o := BlockCount(x), OptionsFor(family, 0, Zeros(220));
    var bs := Pages(x, start, n);
    PagesValid(x, start, n);
    PagesFollow(x, start, n);
    DecodesImage(bs, o, wanted, was, buf);
    PagesDecode(x, start, bs, Image(bs, n));
  }

  // ---------------------------------------------------------------- Intel HEX

  /** The upper part of addresses, the bytes placed so far, and whether the end record was met. */
  datatype HexState = HexState(upper: nat, writes: seq<Write>, ended: bool)

  /** Bytes `data` at consecutive addresses. */
  function Run(addr: nat, data: seq<byte>): seq<Write> {
    if data == [] then [] else Run(addr, data[..|data| - 1]) + [Write(addr + |data| - 1, data[|data| - 1])]
  }

  function TwoBytes(rec: seq<byte>, i: nat): nat
    requires i + 1 < |rec|
  {
    var hi: int, lo: int := rec[i], rec[i + 1];
    hi * 256 + lo
  }

  /** One record: length, address, type, data and checksum; cut off records are errors. */
  function ReadRecord(s: HexState, rec: seq<byte>): Result<HexState> {
    if |rec| < 4 then Err
    else if rec[3] == 4 then
      if |rec| < 6 then Err else Ok(s.(upper := TwoBytes(rec, 4) * 0x1_0000))
    else if rec[3] == 2 then
      if |rec| < 6 then Err else Ok(s.(upper := TwoBytes(rec, 4) * 16))
    else if rec[3] == 1 then Ok(s.(ended := true))
    else if rec[3] == 0 then
      Ok(s.(writes := s.writes + if |rec| == 4 then [] else Run(s.upper + TwoBytes(rec, 1), rec[4..|rec| - 1])))
    else Ok(s)
  }

  function ReadRecords(recs: seq<seq<byte>>, n: nat): Result<HexState>
    requires n <= |recs|
  {
    if n == 0 then Ok(HexState(0, [], false))
    else match ReadRecords(recs, n - 1)
      case Err => Err
      case Ok(s) => if s.ended then Ok(s) else ReadRecord(s, recs[n - 1])
  }

  function Base(addr: nat): nat { addr - addr % 256 }

  /** A byte goes into the current block, or a new one when the page changes. */
  function PlaceByte(bs: seq<Block>, w: Write): (bs': seq<Block>)
    requires forall i :: 0 <= i < |bs| ==> |bs[i].payload| == 256
    ensures bs' != [] && forall i :: 0 <= i < |bs'| ==> |bs'[i].payload| == 256
  {
    var n := |bs| - 1;
    if bs == [] || bs[n].addr != Base(w.addr)
    then bs + [Block(Base(w.addr), Zeros(256)[w.addr % 256 := w.value])]
    else bs[..n] + [Block(bs[n].addr, bs[n].payload[w.addr % 256 := w.value])]
  }

  function PlaceBytes(ws: seq<Write>): (bs: seq<Block>)
    ensures (bs == [] <==> ws == []) && forall i :: 0 <= i < |bs| ==> |bs[i].payload| == 256
  {
    if ws == [] then [] else PlaceByte(PlaceBytes(ws[..|ws| - 1]), ws[|ws| - 1])
  }

  // ---------------------------------------------------------------- when a HEX file decodes

  predicate PageFollows(a: nat, b: nat) {
    Base(b) == Base(a) || (Base(a) < Base(b) && Base(b) - Base(a) - 256 <= MOST_PADDING)
  }

  /** The bytes come page by page upwards, with no gap too large. */
  predicate Ascending(ws: seq<Write>) {
    forall i :: 0 < i < |ws| ==> PageFollows(ws[i - 1].addr, ws[i].addr)
  }

  lemma {:induction false} LastBlock(ws: seq<Write>)
    requires ws != []
    ensures var bs := PlaceBytes(ws); bs[|bs| - 1].addr == Base(ws[|ws| - 1].addr)
  {
  }

  lemma {:induction false} AscendingStep(ws: seq<Write>)
    requires ws != []
    ensures var n := |ws| - 1;
      Ascending(ws) <==> Ascending(ws[..n]) && (n == 0 || PageFollows(ws[n - 1].addr, ws[n].addr))
  {
    var n := |ws| - 1;
    assert forall i :: 0 <= i < n ==> ws[..n][i] == ws[i];
  }

  lemma {:induction false} SameAddresses(bs: seq<Block>, cs: seq<Block>, n: nat)
    requires n <= |bs| && n <= |cs| && forall i :: 0 <= i < n ==> bs[i].addr == cs[i].addr
    ensures InOrder(bs, n) <==> InOrder(cs, n)
  {
    assert forall i :: 0 < i < n ==> (Follows(bs[i - 1], bs[i]) <==> Follows(cs[i - 1], cs[i]));
  }

  lemma {:induction false} BasesApart(a: nat, b: nat)
    requires Base(a) != Base(b)
    ensures 0 <= Base(b) - (Base(a) + 256) <= MOST_PADDING && (Base(b) - (Base(a) + 256)) % 4 == 0
            <==> PageFollows(a, b)
  {
    BaseIs(a);
    BaseIs(b);
    PagesApart(a / 256, b / 256);
  }

  lemma {:induction false} BaseIs(a: nat)
    ensures Base(a) == 256 * (a / 256)
  {
  }

  lemma {:induction false} PagesApart(p: nat, q: nat)
    ensures (256 * q - (256 * p + 256)) % 4 == 0
    ensures p < q ==> 256 * q >= 256 * p + 256
  {
  }

  /** The blocks of a HEX file are in order exactly when its bytes are. */
  lemma {:induction false} BlocksInOrder(ws: seq<Write>)
    ensures InOrder(PlaceBytes(ws), |PlaceBytes(ws)|) <==> Ascending(ws)
  {
    if ws != [] {
      var n := |ws| - 1;
      var before, w := ws[..n], ws[n];
      var bs := PlaceBytes(before);
      BlocksInOrder(before);
      AscendingStep(ws);
      if n > 0 {
        LastBlock(before);
        PlacedInOrder(bs, w, before[n - 1].addr);
      }
    }
  }

  lemma {:induction false} PlacedInOrder(bs: seq<Block>, w: Write, last: nat)
    requires bs != [] && (forall i :: 0 <= i < |bs| ==> |bs[i].payload| == 256) && bs[|bs| - 1].addr == Base(last)
    ensures var bs' := PlaceByte(bs, w);
      InOrder(bs', |bs'|) <==> InOrder(bs, |bs|) && PageFollows(last, w.addr)
  {
    var bs' := PlaceByte(bs, w);
    SameAddresses(bs, bs', |bs|);
    if Base(last) != Base(w.addr) {
      OrderStep(bs', |bs|);
      BasesApart(last, w.addr);
    }
  }

  /** The value last given to an address, zero if none. */
  function LastValue(ws: seq<Write>, a: nat): byte {
    if ws == [] then 0
    else if ws[|ws| - 1].addr == a then ws[|ws| - 1].value
    else LastValue(ws[..|ws| - 1], a)
  }

  /** The byte the first `n` blocks hold for an address, the later block first. */
  function BlockByte(bs: seq<Block>, n: nat, a: nat): byte
    requires n <= |bs| && forall i :: 0 <= i < |bs| ==> |bs[i].payload| == 256
  {
    if n == 0 then 0
    else if bs[n - 1].addr <= a < bs[n - 1].addr + 256 then bs[n - 1].payload[a - bs[n - 1].addr]
    else BlockByte(bs, n - 1, a)
  }

  lemma {:induction false} BeyondIsZero(bs: seq<Block>, n: nat, a: nat)
    requires 0 < n <= |bs| && (forall i :: 0 <= i < |bs| ==> |bs[i].payload| == 256) && InOrder(bs, n)
    requires a >= bs[n - 1].addr + 256
    ensures BlockByte(bs, n, a) == 0
  {
    if n > 1 {
      OrderStep(bs, n - 1);
      BeyondIsZero(bs, n - 1, a);
    }
  }

  lemma {:induction false} SamePrefix(bs: seq<Block>, cs: seq<Block>, n: nat, a: nat)
    requires n <= |bs| && n <= |cs| && bs[..n] == cs[..n]
    requires forall i :: 0 <= i < |bs| ==> |bs[i].payload| == 256
    requires forall i :: 0 <= i < |cs| ==> |cs[i].payload| == 256
    ensures BlockByte(bs, n, a) == BlockByte(cs, n, a)
  {
    if n > 0 {
      assert bs[n - 1] == bs[..n][n - 1] == cs[..n][n - 1] == cs[n - 1];
      assert bs[..n - 1] == bs[..n][..n - 1] == cs[..n - 1];
      SamePrefix(bs, cs, n - 1, a);
    }
  }

  /** Placing a byte changes what is held for its address and no other. */
  lemma {:induction false} PlacedByte(bs: seq<Block>, w: Write, a: nat, bs': seq<Block>)
    requires (forall i :: 0 <= i < |bs| ==> |bs[i].payload| == 256) && bs' == PlaceByte(bs, w)
    requires InOrder(bs, |bs|) && InOrder(bs', |bs'|)
    ensures BlockByte(bs', |bs'|, a) == if a == w.addr then w.value else BlockByte(bs, |bs|, a)
  {
    var n := |bs| - 1;
    if bs == [] || bs[n].addr != Base(w.addr) {
      assert bs'[..|bs|] == bs[..|bs|];
      SamePrefix(bs, bs', |bs|, a);
      if bs != [] {
        OrderStep(bs', |bs|);
        if a >= Base(w.addr) {
          BeyondIsZero(bs, |bs|, a);
        }
      }
    } else {
      assert bs'[..n] == bs[..n];
      SamePrefix(bs, bs', n, a);
    }
  }

  lemma {:induction false} BlocksHoldBytes(ws: seq<Write>, a: nat)
    requires Ascending(ws)
    ensures BlockByte(PlaceBytes(ws), |PlaceBytes(ws)|, a) == LastValue(ws, a)
  {
    if ws != [] {
      var n := |ws| - 1;
      AscendingStep(ws);
      BlocksInOrder(ws);
      BlocksInOrder(ws[..n]);
      BlocksHoldBytes(ws[..n], a);
      PlacedByte(PlaceBytes(ws[..n]), ws[n], a, PlaceBytes(ws));
    }
  }

  /** The image of blocks in order: every byte at its address, zeros in between. */
  lemma {:induction false} ImageAt(bs: seq<Block>, n: nat, a: nat)
    requires 0 < n <= |bs| && (forall i :: 0 <= i < |bs| ==> |bs[i].payload| == 256) && InOrder(bs, n)
    ensures bs[0].addr <= bs[n - 1].addr && |Image(bs, n)| == bs[n - 1].addr + 256 - bs[0].addr
    ensures bs[0].addr <= a < bs[n - 1].addr + 256 ==> Image(bs, n)[a - bs[0].addr] == BlockByte(bs, n, a)
  {
    if n > 1 {
      OrderStep(bs, n - 1);
      ImageAt(bs, n - 1, a);
      if a >= bs[n - 2].addr + 256 {
        BeyondIsZero(bs, n - 1, a);
      }
    }
  }

  /** convert_from_hex_to_uf2 once the records are read; an address that does not fit is an error. */
  function HexToUf2(ws: seq<Write>, o: Options): Result<seq<byte>>
    requires o.Valid()
  {
    var bs := PlaceBytes(ws);
    if !AllValid(bs) || |bs| >= 0x1_0000_0000 then Err else Ok(EncodeBlocks(bs, o, |bs|))
  }

  lemma {:induction false} FirstBlock(ws: seq<Write>)
    requires ws != []
    ensures PlaceBytes(ws)[0].addr == Base(ws[0].addr)
  {
    if |ws| > 1 {
      FirstBlock(ws[..|ws| - 1]);
    }
  }

  lemma {:induction false} HexImage(ws: seq<Write>, bs: seq<Block>, out: seq<byte>, a: nat)
    requires Ascending(ws) && ws != [] && bs == PlaceBytes(ws) && InOrder(bs, |bs|) && out == Image(bs, |bs|)
    ensures bs[0].addr == Base(ws[0].addr) && |out| == Base(ws[|ws| - 1].addr) + 256 - bs[0].addr
    ensures bs[0].addr <= a < bs[0].addr + |out| ==> out[a - bs[0].addr] == LastValue(ws, a)
  {
    FirstBlock(ws);
    LastBlock(ws);
    ImageAt(bs, |bs|, a);
    BlocksHoldBytes(ws, a);
  }

  /** From the first page to the end of the last, every byte at its address and zeros elsewhere. */
  ghost predicate HoldsBytes(ws: seq<Write>, d: Decoded)
    requires ws != []
  {
    && d.start == Base(ws[0].addr) && |d.out| == Base(ws[|ws| - 1].addr) + 256 - d.start
    && forall a :: d.start <= a < d.start + |d.out| ==> d.out[a - d.start] == LastValue(ws, a)
  }

  lemma {:induction false} HexImageHolds(ws: seq<Write>, bs: seq<Block>, d: Decoded)
    requires Ascending(ws) && ws != [] && bs == PlaceBytes(ws) && InOrder(bs, |bs|)
    requires d.out == Image(bs, |bs|) && d.start == bs[0].addr
    ensures HoldsBytes(ws, d)
  {
    HexImage(ws, bs, d.out, 0);
    forall a | d.start <= a < d.start + |d.out|
      ensures d.out[a - d.start] == LastValue(ws, a)
    {
      HexImage(ws, bs, d.out, a);
    }
  }

  /**
   * A HEX file turned into UF2 decodes exactly when its bytes come page by page
   * upwards with no gap too large; and then to an image that has every byte at its
   * address and zeros elsewhere.
   */
  lemma {:induction false} HexRoundTrip(
      ws: seq<Write>, o: Options, wanted: Word, was: nat, buf: seq<byte>, d: Result<Decoded>)
    requires o.Valid() && HexToUf2(ws, o) == Ok(buf) && (wanted == 0 || wanted == o.family)
    requires d == Decode(buf, wanted, was)
    ensures d.Ok? <==> Ascending(ws)
    ensures d.Ok? && ws != [] ==> HoldsBytes(ws, d.value)
  {
    var bs := PlaceBytes(ws);
    BlocksInOrder(ws);
    DecodesImage(bs, o, wanted, was, buf);
    if d.Ok? && ws != [] {
      HexImageHolds(ws, bs, d.value);
    }
  }
}
