/**
 * UF2 files with blocks of several families.  With a family selected, a file decodes
 * to the images of its blocks; but the gaps inside other families' blocks are filled
 * as well, so that the images come out one behind the other only if there are none.
 */
module Uf2Families {
  import opened Eeprom
  import opened Wrappers
  import opened Uf2

  /** A block with what its header says. */
  datatype Part = Part(block: Block, options: Options)

  /** Consecutive blocks of one family. */
  datatype Segment = Segment(options: Options, blocks: seq<Block>) {
    predicate Valid() {
      options.Valid() && options.family != 0 && AllValid(blocks) && blocks != [] && InOrder(blocks, |blocks|)
    }
  }

  /** The bytes of a block that say and hold what the part does, however it is numbered. */
  predicate Encodes(bytes: seq<byte>, p: Part) {
    && |bytes| == 512 && p.block.Valid()
    && (var hd := Header(bytes);
        hd[0] == MAGIC_START0 && hd[1] == MAGIC_START1 && hd[2] == p.options.flags && hd[3] == p.block.addr
        && hd[4] == 256 && hd[7] == p.options.family)
    && bytes[32..288] == p.block.payload
  }

  lemma {:induction false} EncodedBlock(b: Block, o: Options, no: Word, total: Word)
    requires b.Valid() && o.Valid()
    ensures Encodes(EncodeBlock(b, o, no, total), Part(b, o))
  {
    BlockRoundTrip(b, o, no, total);
  }

  function PartsOf(o: Options, bs: seq<Block>): (ps: seq<Part>)
    ensures |ps| == |bs|
  {
    if bs == [] then [] else PartsOf(o, bs[..|bs| - 1]) + [Part(bs[|bs| - 1], o)]
  }

  function AllParts(segs: seq<Segment>): seq<Part> {
    if segs == [] then []
    else AllParts(segs[..|segs| - 1]) + PartsOf(segs[|segs| - 1].options, segs[|segs| - 1].blocks)
  }

  /** Segments in which each family differs from the one before. */
  predicate AreSegments(segs: seq<Segment>) {
    && (forall j :: 0 <= j < |segs| ==> segs[j].Valid())
    && forall j :: 0 < j < |segs| ==> segs[j - 1].options.family != segs[j].options.family
  }

  // ---------------------------------------------------------------- reading parts

  function ReadParts(r: Reader, parts: seq<Part>, wanted: Word): Result<Reader> {
    if parts == [] then Ok(r)
    else
      var p := parts[|parts| - 1];
      match ReadParts(r, parts[..|parts| - 1], wanted)
      case Err => Err
      case Ok(r') => Accept(r', p.options.flags, p.block.addr, p.options.family, p.block.payload, wanted)
  }

  lemma {:induction false} PartsConcat(r: Reader, a: seq<Part>, b: seq<Part>, wanted: Word)
    ensures ReadParts(r, a + b, wanted)
            == (var m := ReadParts(r, a, wanted); if m.Err? then Err else ReadParts(m.value, b, wanted))
  {
    if b == [] {
      assert a + b == a;
    } else {
      assert (a + b)[..|a + b| - 1] == a + b[..|b| - 1];
      PartsConcat(r, a, b[..|b| - 1], wanted);
    }
  }

  /** A file whose blocks are these parts. */
  predicate IsFileOf(buf: seq<byte>, parts: seq<Part>) {
    && |buf| == 512 * |parts|
    && forall k :: 0 <= k < |parts| ==> parts[k].options.Valid() && Encodes(buf[512 * k..512 * (k + 1)], parts[k])
  }

  lemma {:induction false} PartIsRead(r: Reader, bytes: seq<byte>, p: Part, wanted: Word)
    requires Encodes(bytes, p) && p.options.Valid()
    ensures ReadBlock(r, bytes, wanted)
            == Accept(r, p.options.flags, p.block.addr, p.options.family, p.block.payload, wanted)
  {
  }

  lemma {:induction false} FileIsRead(buf: seq<byte>, parts: seq<Part>, n: nat, wanted: Word, start: nat)
    requires IsFileOf(buf, parts) && n <= |parts|
    ensures ReadBlocks(buf, n, wanted, start) == ReadParts(Reader(None, None, {}, [], start), parts[..n], wanted)
  {
    if n > 0 {
      FileIsRead(buf, parts, n - 1, wanted, start);
      ReadsNext(buf, n, wanted, start, buf[512 * (n - 1)..512 * n]);
      assert parts[..n][..n - 1] == parts[..n - 1] && parts[..n][n - 1] == parts[n - 1];
      var before := ReadBlocks(buf, n - 1, wanted, start);
      if before.Ok? {
        PartIsRead(before.value, buf[512 * (n - 1)..512 * (n - 1 + 1)], parts[n - 1], wanted);
      }
    }
  }

  // ---------------------------------------------------------------- one segment

  /** What a segment gives: its image if it is chosen, else as many zeros as it has gaps. */
  function Output(bs: seq<Block>, n: nat, chosen: bool): seq<byte>
    requires n <= |bs| && InOrder(bs, n)
  {
    if n == 0 then []
    else if n == 1 then (if chosen then bs[0].payload else [])
    else
      assert Follows(bs[n - 2], bs[n - 1]);
      Output(bs, n - 1, chosen) + Zeros(bs[n - 1].addr - (bs[n - 2].addr + 256))
      + (if chosen then bs[n - 1].payload else [])
  }

  /** The reader once `n` blocks of a segment are read. */
  function Within(r: Reader, s: Segment, n: nat, wanted: Word): Reader
    requires s.Valid() && 0 < n <= |s.blocks| && InOrder(s.blocks, n)
  {
    var f := s.options.family;
    var chosen := wanted == 0 || wanted == f;
    Reader(Some(s.blocks[n - 1].addr + 256), Some(f), r.seen + {f},
           r.out + Output(s.blocks, n, chosen), if chosen then s.blocks[0].addr else r.start)
  }

  /** A segment starts anew: nothing was read yet, or another family. */
  predicate StartsAnew(r: Reader, s: Segment) {
    r.next.None? || (r.family.Some? && r.family != Some(s.options.family))
  }

  lemma {:induction false} FirstOfSegment(r: Reader, s: Segment, wanted: Word)
    requires s.Valid() && StartsAnew(r, s) && InOrder(s.blocks, 1)
    ensures Accept(r, s.options.flags, s.blocks[0].addr, s.options.family, s.blocks[0].payload, wanted)
            == Ok(Within(r, s, 1, wanted))
  {
    assert r.out + Zeros(0) == r.out;
  }

  lemma {:induction false} NextOfSegment(r: Reader, s: Segment, n: nat, wanted: Word)
    requires s.Valid() && 0 < n < |s.blocks| && InOrder(s.blocks, n) && InOrder(s.blocks, n + 1)
    ensures Accept(Within(r, s, n, wanted), s.options.flags, s.blocks[n].addr, s.options.family, s.blocks[n].payload,
                   wanted)
            == Ok(Within(r, s, n + 1, wanted))
  {
    assert Follows(s.blocks[n - 1], s.blocks[n]);
    var f := s.options.family;
    assert r.seen + {f} + {f} == r.seen + {f};
    var chosen := wanted == 0 || wanted == f;
    var gap := s.blocks[n].addr - (s.blocks[n - 1].addr + 256);
    var data := if chosen then s.blocks[n].payload else [];
    assert r.out + Output(s.blocks, n, chosen) + Zeros(gap) + data
           == r.out + (Output(s.blocks, n, chosen) + Zeros(gap) + data);
  }

  lemma {:induction false} SegmentIsRead(r: Reader, s: Segment, n: nat, wanted: Word)
    requires s.Valid() && StartsAnew(r, s) && 0 < n <= |s.blocks|
    ensures InOrder(s.blocks, n)
    ensures ReadParts(r, PartsOf(s.options, s.blocks[..n]), wanted) == Ok(Within(r, s, n, wanted))
  {
    var ps, k := PartsOf(s.options, s.blocks[..n]), n - 1;
    assert s.blocks[..n][..k] == s.blocks[..k];
    assert ps == PartsOf(s.options, s.blocks[..k]) + [Part(s.blocks[k], s.options)];
    assert ps[..k] == PartsOf(s.options, s.blocks[..k]);
    if k == 0 {
      assert ReadParts(r, ps[..k], wanted) == Ok(r);
      FirstOfSegment(r, s, wanted);
    } else {
      SegmentIsRead(r, s, k, wanted);
      NextOfSegment(r, s, k, wanted);
    }
  }

  // ---------------------------------------------------------------- all segments

  predicate IsChosen(s: Segment, wanted: Word) { wanted == 0 || wanted == s.options.family }

  /** What the first `n` segments give. */
  function Outputs(segs: seq<Segment>, n: nat, wanted: Word): seq<byte>
    requires AreSegments(segs) && n <= |segs|
  {
    if n == 0 then []
    else
      var s := segs[n - 1];
      Outputs(segs, n - 1, wanted) + Output(s.blocks, |s.blocks|, IsChosen(s, wanted))
  }

  function Families(segs: seq<Segment>, n: nat): set<Word>
    requires n <= |segs|
  {
    if n == 0 then {} else Families(segs, n - 1) + {segs[n - 1].options.family}
  }

  /** Where the last chosen segment starts. */
  function StartOf(segs: seq<Segment>, n: nat, wanted: Word, start: nat): nat
    requires AreSegments(segs) && n <= |segs|
  {
    if n == 0 then start
    else if IsChosen(segs[n - 1], wanted) then segs[n - 1].blocks[0].addr
    else StartOf(segs, n - 1, wanted, start)
  }

  function Behind(segs: seq<Segment>, n: nat, wanted: Word, start: nat): Reader
    requires AreSegments(segs) && n <= |segs|
  {
    if n == 0 then Reader(None, None, {}, [], start)
    else
      var s := segs[n - 1];
      Reader(Some(s.blocks[|s.blocks| - 1].addr + 256), Some(s.options.family), Families(segs, n),
             Outputs(segs, n, wanted), StartOf(segs, n, wanted, start))
  }

  lemma {:induction false} NextSegment(segs: seq<Segment>, n: nat, wanted: Word, start: nat)
    requires AreSegments(segs) && n < |segs|
    ensures var r, s := Behind(segs, n, wanted, start), segs[n];
      ReadParts(r, PartsOf(s.options, s.blocks), wanted) == Ok(Behind(segs, n + 1, wanted, start))
  {
    var r, s := Behind(segs, n, wanted, start), segs[n];
    assert s.blocks[..|s.blocks|] == s.blocks;
    assert n > 0 ==> segs[n - 1].options.family != segs[n].options.family;
    SegmentIsRead(r, s, |s.blocks|, wanted);
    var next := Behind(segs, n + 1, wanted, start);
    assert r.out == Outputs(segs, n, wanted) && r.start == StartOf(segs, n, wanted, start);
    assert r.seen == Families(segs, n);
    assert next.out == r.out + Output(s.blocks, |s.blocks|, IsChosen(s, wanted));
    assert next.seen == r.seen + {s.options.family};
    assert Within(r, s, |s.blocks|, wanted) == next;
  }

  lemma {:induction false} SegmentsAreRead(segs: seq<Segment>, n: nat, wanted: Word, start: nat)
    requires AreSegments(segs) && n <= |segs|
    ensures ReadParts(Reader(None, None, {}, [], start), AllParts(segs[..n]), wanted)
            == Ok(Behind(segs, n, wanted, start))
  {
    if n > 0 {
      var k := n - 1;
      SegmentsAreRead(segs, k, wanted, start);
      NextSegment(segs, k, wanted, start);
      assert segs[..n][..k] == segs[..k] && segs[..n][k] == segs[k];
      PartsConcat(Reader(None, None, {}, [], start), AllParts(segs[..k]),
                  PartsOf(segs[k].options, segs[k].blocks), wanted);
    }
  }

  // ---------------------------------------------------------------- decoding a selection

  lemma {:induction false} FileOfSegments(segs: seq<Segment>, buf: seq<byte>, wanted: Word, start: nat)
    requires AreSegments(segs) && IsFileOf(buf, AllParts(segs))
    ensures |buf| == 512 * |AllParts(segs)|
    ensures ReadBlocks(buf, |AllParts(segs)|, wanted, start) == Ok(Behind(segs, |segs|, wanted, start))
  {
    var parts := AllParts(segs);
    FileIsRead(buf, parts, |parts|, wanted, start);
    assert parts[..|parts|] == parts && segs[..|segs|] == segs;
    SegmentsAreRead(segs, |segs|, wanted, start);
  }

  /** With a family selected, a file of several decodes to the outputs of its segments. */
  lemma {:induction false} SelectionDecodes(segs: seq<Segment>, buf: seq<byte>, wanted: Word, start: nat)
    requires AreSegments(segs) && IsFileOf(buf, AllParts(segs)) && wanted != 0
    ensures Decode(buf, wanted, start)
            == Ok(Decoded(Outputs(segs, |segs|, wanted), StartOf(segs, |segs|, wanted, start)))
  {
    FileOfSegments(segs, buf, wanted, start);
    assert |buf| / 512 == |AllParts(segs)|;
    if segs == [] {
      assert Behind(segs, |segs|, wanted, start) == Reader(None, None, {}, [], start);
    }
  }

  /** The images of the segments of one family, one behind the other. */
  function OwnImages(segs: seq<Segment>, n: nat, wanted: Word): seq<byte>
    requires AreSegments(segs) && n <= |segs|
  {
    if n == 0 then []
    else
      var s := segs[n - 1];
      OwnImages(segs, n - 1, wanted)
      + (if s.options.family == wanted then Image(s.blocks, |s.blocks|) else [])
  }

  predicate Gapless(bs: seq<Block>) { forall i :: 0 < i < |bs| ==> bs[i].addr == bs[i - 1].addr + 256 }

  lemma {:induction false} ChosenIsImage(bs: seq<Block>, n: nat)
    requires n <= |bs| && InOrder(bs, n)
    ensures Output(bs, n, true) == Image(bs, n)
  {
    if n > 1 {
      ChosenIsImage(bs, n - 1);
    }
  }

  lemma {:induction false} OtherIsGaps(bs: seq<Block>, n: nat)
    requires n <= |bs| && InOrder(bs, n)
    ensures Output(bs, n, false) == [] <==> Gapless(bs[..n])
  {
    if n > 1 {
      OtherIsGaps(bs, n - 1);
      assert Follows(bs[n - 2], bs[n - 1]);
      var gap := bs[n - 1].addr - (bs[n - 2].addr + 256);
      assert Output(bs, n, false) == Output(bs, n - 1, false) + Zeros(gap);
      assert forall i :: 0 <= i < n - 1 ==> bs[..n][i] == bs[..n - 1][i];
      assert bs[..n][n - 1] == bs[n - 1] && bs[..n][n - 2] == bs[n - 2];
    }
  }

  /** The outputs are at least as long as the images, and longer if another family has gaps. */
  lemma {:induction false} OutputsHoldImages(segs: seq<Segment>, n: nat, wanted: Word)
    requires AreSegments(segs) && n <= |segs| && wanted != 0
    ensures |OwnImages(segs, n, wanted)| <= |Outputs(segs, n, wanted)|
    ensures (forall j :: 0 <= j < n ==> segs[j].options.family == wanted || Gapless(segs[j].blocks))
            <==> |OwnImages(segs, n, wanted)| == |Outputs(segs, n, wanted)|
    ensures |OwnImages(segs, n, wanted)| == |Outputs(segs, n, wanted)| ==>
              OwnImages(segs, n, wanted) == Outputs(segs, n, wanted)
  {
    if n > 0 {
      var s := segs[n - 1];
      OutputsHoldImages(segs, n - 1, wanted);
      var own, out := OwnImages(segs, n - 1, wanted), Outputs(segs, n - 1, wanted);
      assert s.blocks[..|s.blocks|] == s.blocks;
      if s.options.family == wanted {
        ChosenIsImage(s.blocks, |s.blocks|);
        LongerStays(own, out, Image(s.blocks, |s.blocks|), Image(s.blocks, |s.blocks|));
      } else {
        OtherIsGaps(s.blocks, |s.blocks|);
        LongerStays(own, out, [], Output(s.blocks, |s.blocks|, false));
      }
    }
  }

  lemma {:induction false} LongerStays<T>(a: seq<T>, b: seq<T>, x: seq<T>, y: seq<T>)
    requires |a| <= |b| && (|a| == |b| ==> a == b) && (x == y || (x == [] && y != []))
    ensures |a + x| <= |b + y| && (|a + x| == |b + y| <==> |a| == |b| && x == y)
    ensures |a + x| == |b + y| ==> a + x == b + y
  {
  }

  /**
   * A selected family decodes to its own images, one behind the other, if and only if
   * no block of another family comes behind a gap.
   */
  lemma {:induction false} OwnImagesExactly(segs: seq<Segment>, buf: seq<byte>, wanted: Word, start: nat)
    requires AreSegments(segs) && IsFileOf(buf, AllParts(segs)) && wanted != 0
    ensures var d := Decode(buf, wanted, start);
      && d.Ok?
      && (d.value.out == OwnImages(segs, |segs|, wanted)
          <==> forall j :: 0 <= j < |segs| ==> segs[j].options.family == wanted || Gapless(segs[j].blocks))
  {
    SelectionDecodes(segs, buf, wanted, start);
    OutputsHoldImages(segs, |segs|, wanted);
  }

  lemma {:induction false} InFamilies(segs: seq<Segment>, n: nat, j: nat)
    requires j < n <= |segs|
    ensures segs[j].options.family in Families(segs, n)
  {
    if j < n - 1 {
      InFamilies(segs, n - 1, j);
    }
  }

  /** Without a selection several families give nothing at all. */
  lemma {:induction false} MixtureGivesNothing(segs: seq<Segment>, buf: seq<byte>, start: nat)
    requires AreSegments(segs) && IsFileOf(buf, AllParts(segs)) && |segs| > 1
    ensures Decode(buf, 0, start) == Ok(Decoded([], 0))
  {
    FileOfSegments(segs, buf, 0, start);
    var parts, n := AllParts(segs), |segs|;
    InFamilies(segs, n, 0);
    InFamilies(segs, n, 1);
    TwoMembers(Families(segs, n), segs[0].options.family, segs[1].options.family);
    assert |buf| / 512 == |parts|;
    LastIsFlashed(segs, buf);
  }

  lemma {:induction false} TwoMembers(s: set<Word>, x: Word, y: Word)
    requires x in s && y in s && x != y
    ensures |s| > 1
  {
    assert |s - {x}| > 0 by {
      assert y in s - {x};
    }
  }

  lemma {:induction false} LastIsFlashed(segs: seq<Segment>, buf: seq<byte>)
    requires AreSegments(segs) && IsFileOf(buf, AllParts(segs)) && segs != []
    ensures |buf| == 512 * |AllParts(segs)| && EndsFlashed(buf, |AllParts(segs)|)
  {
    var parts, s := AllParts(segs), segs[|segs| - 1];
    var n := |parts|;
    assert parts == AllParts(segs[..|segs| - 1]) + PartsOf(s.options, s.blocks);
    assert parts[n - 1].options == s.options;
    assert Encodes(buf[512 * (n - 1)..512 * (n - 1 + 1)], parts[n - 1]);
  }

  // ---------------------------------------------------------------- blocks that are not flashed

  /** A block with the no-flash flag is skipped, whatever else it says. */
  lemma {:induction false} NoFlashSkipped(r: Reader, bytes: seq<byte>, wanted: Word)
    requires |bytes| == 512 && !IsForeign(bytes) && Header(bytes)[2] % 2 == 1
    ensures ReadBlock(r, bytes, wanted) == Ok(r)
  {
  }

  /**
   * Behind a file of several families, such a block hides the mixture: the outputs of
   * all of them are given, one behind the other, as one.
   */
  lemma {:induction false} MixtureHidden(segs: seq<Segment>, buf: seq<byte>, last: seq<byte>, start: nat)
    requires AreSegments(segs) && IsFileOf(buf, AllParts(segs)) && |segs| > 1
    requires |last| == 512 && !IsForeign(last) && Header(last)[2] % 2 == 1
    ensures Decode(buf, 0, start) == Ok(Decoded([], 0))
    ensures Decode(buf + last, 0, start)
            == Ok(Decoded(Outputs(segs, |segs|, 0), StartOf(segs, |segs|, 0, start)))
  {
    MixtureGivesNothing(segs, buf, start);
    FileOfSegments(segs, buf, 0, start);
    ShownBehind(buf, last, |AllParts(segs)|, Behind(segs, |segs|, 0, start), start);
  }

  /** What was read is given as it is when the last block is not flashed. */
  lemma {:induction false} ShownBehind(buf: seq<byte>, last: seq<byte>, n: nat, r: Reader, start: nat)
    requires |buf| == 512 * n && ReadBlocks(buf, n, 0, start) == Ok(r)
    requires |last| == 512 && !IsForeign(last) && Header(last)[2] % 2 == 1
    ensures Decode(buf + last, 0, start) == Ok(Decoded(r.out, r.start))
  {
    OneMoreBlock(buf, last, n, 0, start);
    NoFlashSkipped(r, last, 0);
    DecodesUnflashed(buf + last, n + 1, r, last, 0, start);
  }

  lemma {:induction false} DecodesUnflashed(
      all: seq<byte>, n: nat, r: Reader, last: seq<byte>, wanted: Word, start: nat)
    requires 0 < n && |all| == 512 * n && all[512 * (n - 1)..512 * n] == last && Header(last)[2] % 2 == 1
    requires ReadBlocks(all, n, wanted, start) == Ok(r)
    ensures Decode(all, wanted, start) == Ok(Decoded(r.out, r.start))
  {
    assert |all| / 512 == n;
  }

  function BlockAt(buf: seq<byte>, k: nat): (block: seq<byte>)
    requires 512 * (k + 1) <= |buf|
    ensures |block| == 512
  {
    buf[512 * k..512 * (k + 1)]
  }

  /** One block behind a file of `n`. */
  lemma {:induction false} OneMoreBlock(buf: seq<byte>, last: seq<byte>, n: nat, wanted: Word, start: nat)
    requires |buf| == 512 * n && |last| == 512
    ensures (buf + last)[512 * n..512 * (n + 1)] == last
    ensures var before := ReadBlocks(buf, n, wanted, start);
      ReadBlocks(buf + last, n + 1, wanted, start)
      == if before.Err? then Err else ReadBlock(before.value, last, wanted)
  {
    var all := buf + last;
    forall k | 0 <= k < n
      ensures BlockAt(all, k) == BlockAt(buf, k)
    {
      SliceKept(buf, last, 512 * k, 512 * (k + 1));
    }
    SameBlocks(buf, all, n, wanted, start);
    SliceKept(buf, last, 0, 0);
    ReadsNext(all, n + 1, wanted, start, last);
  }

  lemma {:induction false} SameBlocks(a: seq<byte>, b: seq<byte>, n: nat, wanted: Word, start: nat)
    requires 512 * n <= |a| && 512 * n <= |b| && forall k :: 0 <= k < n ==> BlockAt(a, k) == BlockAt(b, k)
    ensures ReadBlocks(a, n, wanted, start) == ReadBlocks(b, n, wanted, start)
  {
    if n > 0 {
      SameBlocks(a, b, n - 1, wanted, start);
      ReadsNext(a, n, wanted, start, BlockAt(a, n - 1));
      ReadsNext(b, n, wanted, start, BlockAt(b, n - 1));
    }
  }
}
