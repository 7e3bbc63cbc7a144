/**
 * Where the bytes of Intel HEX records land: byte for byte, from the records' own
 * address and the last record that set the upper part of addresses, and on to the
 * image that a converted file decodes to.
 */
module HexAddresses {
  import opened Eeprom
  import opened Wrappers
  import opened Uf2
  import opened Uf2Files
  import opened HexText

  type Rec = seq<byte>

  /** Length, two bytes of address, and type; a longer record ends with its checksum. */
  predicate IsWhole(rec: Rec) { |rec| >= 4 && (rec[3] == 2 || rec[3] == 4 ==> |rec| >= 6) }

  predicate AllWhole(recs: seq<Rec>, n: nat)
    requires n <= |recs|
  {
    forall i :: 0 <= i < n ==> IsWhole(recs[i])
  }

  /** No end record among the first `n`. */
  predicate NoEnd(recs: seq<Rec>, n: nat)
    requires n <= |recs| && AllWhole(recs, n)
  {
    forall i :: 0 <= i < n ==> recs[i][3] != 1
  }

  /** The data bytes of a record: those behind the type, without the checksum. */
  function DataLength(rec: Rec): nat
    requires IsWhole(rec)
  {
    if rec[3] == 0 && |rec| > 5 then |rec| - 5 else 0
  }

  /** How many data bytes the first `n` records hold. */
  function DataBefore(recs: seq<Rec>, n: nat): nat
    requires n <= |recs| && AllWhole(recs, n)
  {
    if n == 0 then 0 else DataBefore(recs, n - 1) + DataLength(recs[n - 1])
  }

  predicate SetsBase(rec: Rec)
    requires IsWhole(rec)
  {
    rec[3] == 2 || rec[3] == 4
  }

  /** What a record of type 4 or 2 sets the upper part of addresses to. */
  function BaseSetBy(rec: Rec): nat
    requires IsWhole(rec) && SetsBase(rec)
  {
    var hi: nat, lo: nat := rec[4], rec[5];
    if rec[3] == 4 then hi * 0x100_0000 + lo * 0x1_0000 else hi * 0x1000 + lo * 0x10
  }

  /** The upper part of addresses at record `i` is what the last such record set it to, or zero. */
  predicate IsBaseAt(recs: seq<Rec>, i: nat, base: nat)
    requires i <= |recs| && AllWhole(recs, i)
  {
    || (base == 0 && forall j :: 0 <= j < i ==> !SetsBase(recs[j]))
    || (exists j :: 0 <= j < i && SetsBase(recs[j]) && base == BaseSetBy(recs[j])
          && forall k :: j < k < i ==> !SetsBase(recs[k]))
  }

  lemma {:induction false} NextBase(recs: seq<Rec>, n: nat, base: nat)
    requires n < |recs| && AllWhole(recs, n + 1)
    ensures SetsBase(recs[n]) ==> (IsBaseAt(recs, n + 1, base) <==> base == BaseSetBy(recs[n]))
    ensures !SetsBase(recs[n]) ==> (IsBaseAt(recs, n + 1, base) <==> IsBaseAt(recs, n, base))
  {
    if !SetsBase(recs[n]) && IsBaseAt(recs, n, base) && base != 0 {
      var j :| 0 <= j < n && SetsBase(recs[j]) && base == BaseSetBy(recs[j])
               && forall k :: j < k < n ==> !SetsBase(recs[k]);
      assert forall k :: j < k < n + 1 ==> !SetsBase(recs[k]);
    }
  }

  // ---------------------------------------------------------------- what the reader remembers

  lemma {:induction false} RunAt(addr: nat, data: seq<byte>, k: nat)
    ensures |Run(addr, data)| == |data|
    ensures k < |data| ==> Run(addr, data)[k] == Write(addr + k, data[k])
  {
    if data != [] {
      RunAt(addr, data[..|data| - 1], k);
    }
  }

  /** What one whole record does: its data bytes in order, the upper part it sets, or the end. */
  lemma {:induction false} RecordDoes(s: HexState, rec: Rec, k: nat)
    requires IsWhole(rec)
    ensures ReadRecord(s, rec).Ok?
    ensures var s', hi: nat, lo: nat := ReadRecord(s, rec).value, rec[1], rec[2];
      && s'.upper == (if SetsBase(rec) then BaseSetBy(rec) else s.upper)
      && s'.ended == (s.ended || rec[3] == 1)
      && s.writes <= s'.writes && |s'.writes| == |s.writes| + DataLength(rec)
      && (k < DataLength(rec) ==> s'.writes[|s.writes| + k] == Write(s.upper + hi * 256 + lo + k, rec[4 + k]))
  {
    if rec[3] == 0 && |rec| > 4 {
      RunAt(s.upper + TwoBytes(rec, 1), rec[4..|rec| - 1], k);
    }
  }

  /** Records are read without an error exactly if all up to the end record are whole. */
  lemma {:induction false} ReadsWhole(recs: seq<Rec>, n: nat)
    requires n <= |recs|
    ensures AllWhole(recs, n) ==> ReadRecords(recs, n).Ok?
    ensures ReadRecords(recs, n).Ok? && !ReadRecords(recs, n).value.ended ==> AllWhole(recs, n)
    ensures AllWhole(recs, n) ==> (NoEnd(recs, n) <==> !ReadRecords(recs, n).value.ended)
  {
    if n > 0 {
      ReadsWhole(recs, n - 1);
    }
  }

  lemma {:induction false} StateAt(recs: seq<Rec>, n: nat)
    requires n <= |recs| && AllWhole(recs, n) && NoEnd(recs, n)
    ensures ReadRecords(recs, n).Ok? && !ReadRecords(recs, n).value.ended
    ensures var s := ReadRecords(recs, n).value;
      |s.writes| == DataBefore(recs, n) && forall base :: IsBaseAt(recs, n, base) <==> base == s.upper
  {
    ReadsWhole(recs, n);
    if n > 0 {
      StateAt(recs, n - 1);
      var s, rec := ReadRecords(recs, n - 1).value, recs[n - 1];
      forall base: nat
        ensures IsBaseAt(recs, n, base) <==> base == ReadRecords(recs, n).value.upper
      {
        NextBase(recs, n - 1, base);
      }
      RecordDoes(s, rec, 0);
    }
  }

  lemma {:induction false} WritesGrow(recs: seq<Rec>, k: nat, n: nat)
    requires k <= n <= |recs| && ReadRecords(recs, n).Ok?
    ensures ReadRecords(recs, k).Ok? && ReadRecords(recs, k).value.writes <= ReadRecords(recs, n).value.writes
    ensures ReadRecords(recs, k).value.ended ==> ReadRecords(recs, n) == ReadRecords(recs, k)
  {
    if k < n {
      WritesGrow(recs, k, n - 1);
    }
  }

  /** The record at `i` is read, and what it wrote stays. */
  lemma {:induction false} StepAt(recs: seq<Rec>, s: HexState, i: nat, before: HexState, after: HexState)
    requires ReadRecords(recs, |recs|) == Ok(s) && i < |recs|
    requires ReadRecords(recs, i) == Ok(before) && !before.ended && ReadRecord(before, recs[i]) == Ok(after)
    ensures after.writes <= s.writes && (after.ended ==> s == after)
  {
    assert ReadRecords(recs, i + 1) == Ok(after);
    WritesGrow(recs, i + 1, |recs|);
  }

  /** The address of the k-th data byte of record i. */
  function AddressOf(recs: seq<Rec>, i: nat, k: nat, base: nat): nat
    requires i < |recs| && IsWhole(recs[i])
  {
    var hi: nat, lo: nat := recs[i][1], recs[i][2];
    base + hi * 256 + lo + k
  }

  /** The p-th write puts this value at this address. */
  predicate IsAt(ws: seq<Write>, p: nat, a: nat, v: byte) { p < |ws| && ws[p] == Write(a, v) }

  /**
   * The k-th data byte of a record before the end record goes to the record's address
   * plus k, above what the last record of type 4 or 2 set, behind all data bytes of
   * the records before.
   */
  lemma {:induction false} ByteLands(recs: seq<Rec>, s: HexState, i: nat, k: nat, base: nat)
    requires ReadRecords(recs, |recs|) == Ok(s) && i < |recs|
    requires AllWhole(recs, i + 1) && NoEnd(recs, i) && k < DataLength(recs[i]) && IsBaseAt(recs, i, base)
    ensures IsAt(s.writes, DataBefore(recs, i) + k, AddressOf(recs, i, k, base), recs[i][4 + k])
  {
    StateAt(recs, i);
    var before := ReadRecords(recs, i).value;
    RecordDoes(before, recs[i], k);
    StepAt(recs, s, i, before, ReadRecord(before, recs[i]).value);
  }

  /** Nothing else is written: neither checksums nor anything behind an end record. */
  lemma {:induction false} NothingElse(recs: seq<Rec>, s: HexState, n: nat)
    requires ReadRecords(recs, |recs|) == Ok(s) && n <= |recs| && AllWhole(recs, n) && NoEnd(recs, n)
    requires n < |recs| ==> IsWhole(recs[n]) && recs[n][3] == 1
    ensures |s.writes| == DataBefore(recs, n) && (s.ended <==> n < |recs|)
  {
    StateAt(recs, n);
    if n < |recs| {
      var before := ReadRecords(recs, n).value;
      RecordDoes(before, recs[n], 0);
      StepAt(recs, s, n, before, ReadRecord(before, recs[n]).value);
    }
  }

  // ---------------------------------------------------------------- from text to image

  /** No write behind the p-th goes to the address. */
  predicate NotAgain(ws: seq<Write>, p: nat, a: nat) { forall q :: p < q < |ws| ==> ws[q].addr != a }

  lemma {:induction false} LastWins(ws: seq<Write>, p: nat)
    requires p < |ws| && NotAgain(ws, p, ws[p].addr)
    ensures LastValue(ws, ws[p].addr) == ws[p].value
  {
    if p < |ws| - 1 {
      LastWins(ws[..|ws| - 1], p);
    }
  }

  lemma {:induction false} PagesRise(ws: seq<Write>, p: nat, q: nat)
    requires Ascending(ws) && p <= q < |ws|
    ensures Base(ws[p].addr) <= Base(ws[q].addr)
  {
    if p < q {
      PagesRise(ws, p, q - 1);
    }
  }

  /** Every address written lies in the image. */
  lemma {:induction false} InImage(ws: seq<Write>, p: nat)
    requires p < |ws| && Ascending(ws)
    ensures Base(ws[0].addr) <= ws[p].addr < Base(ws[|ws| - 1].addr) + 256
  {
    PagesRise(ws, 0, p);
    PagesRise(ws, p, |ws| - 1);
  }

  /** The image holds at each address the value written there last. */
  lemma {:induction false} ImageHolds(
      ws: seq<Write>, o: Options, wanted: Word, was: nat, buf: seq<byte>, d: Decoded, p: nat, a: nat, v: byte)
    requires o.Valid() && (wanted == 0 || wanted == o.family)
    requires HexToUf2(ws, o) == Ok(buf) && Decode(buf, wanted, was) == Ok(d)
    requires IsAt(ws, p, a, v) && NotAgain(ws, p, a)
    ensures d.start <= a < d.start + |d.out| && d.out[a - d.start] == v
  {
    HexRoundTrip(ws, o, wanted, was, buf, Ok(d));
    InImage(ws, p);
    LastWins(ws, p);
  }

  lemma {:induction false} TextRecords(lines: seq<string>, recs: seq<Rec>, s: HexState)
    requires |lines| == |recs| && forall j :: 0 <= j < |lines| ==> Writes(lines[j], recs[j])
    requires ReadText(Joined(lines)) == Ok(s)
    ensures ReadRecords(recs, |recs|) == Ok(s)
  {
    TextRoundTrip(lines, recs);
  }

  /** The k-th data byte of a record in a text, as the p-th byte, lands at `a`. */
  predicate TextByte(lines: seq<string>, recs: seq<Rec>, i: nat, k: nat, base: nat, p: nat, a: nat, v: byte) {
    && |lines| == |recs| && (forall j :: 0 <= j < |lines| ==> Writes(lines[j], recs[j]))
    && i < |recs| && AllWhole(recs, i + 1) && NoEnd(recs, i) && k < DataLength(recs[i]) && IsBaseAt(recs, i, base)
    && p == DataBefore(recs, i) + k && a == AddressOf(recs, i, k, base) && v == recs[i][4 + k]
  }

  lemma {:induction false} TextLands(
      lines: seq<string>, recs: seq<Rec>, s: HexState, i: nat, k: nat, base: nat, p: nat, a: nat, v: byte)
    requires TextByte(lines, recs, i, k, base, p, a, v) && ReadText(Joined(lines)) == Ok(s)
    ensures IsAt(s.writes, p, a, v)
  {
    TextRecords(lines, recs, s);
    ByteLands(recs, s, i, k, base);
  }

  /**
   * From the text of a HEX file to the image that its UF2 file decodes to: a data byte
   * whose address no later one has is found at that address.
   */
  lemma {:induction false} TextToImage(
      lines: seq<string>, recs: seq<Rec>, s: HexState, o: Options, wanted: Word, was: nat, buf: seq<byte>, d: Decoded,
      i: nat, k: nat, base: nat, p: nat, a: nat, v: byte)
    requires TextByte(lines, recs, i, k, base, p, a, v) && ReadText(Joined(lines)) == Ok(s)
    requires o.Valid() && (wanted == 0 || wanted == o.family)
    requires HexToUf2(s.writes, o) == Ok(buf) && Decode(buf, wanted, was) == Ok(d) && NotAgain(s.writes, p, a)
    ensures d.start <= a < d.start + |d.out| && d.out[a - d.start] == v
  {
    TextLands(lines, recs, s, i, k, base, p, a, v);
    ImageHolds(s.writes, o, wanted, was, buf, d, p, a, v);
  }
}
