/**
 * Sending a stored macro.  The macro area holds strings separated by NULs; the
 * sender skips to the requested string and hands it on piece by piece through an
 * eight-byte buffer that it reuses.
 */
module MacroStrings {
  import opened Eeprom
  import opened Wrappers

  const PREFIX: byte := 1
  const TAP: byte := 1
  const UP: byte := 3
  const DELAY: byte := 4
  const BAR: byte := 124

  // ---------------------------------------------------------------- the area as a list of strings

  function Nuls(b: seq<byte>): nat {
    if b == [] then 0 else (if b[0] == 0 then 1 else 0) + Nuls(b[1..])
  }

  /** The bytes before the first NUL. */
  function First(b: seq<byte>): (s: seq<byte>)
    ensures |s| <= |b|
  {
    if b == [] || b[0] == 0 then [] else [b[0]] + First(b[1..])
  }

  lemma {:induction false} FirstStops(b: seq<byte>)
    ensures var s := First(b);
      && s == b[..|s|] && NoNul(s)
      && (|s| < |b| ==> b[|s|] == 0)
  {
    if b != [] && b[0] != 0 {
      FirstStops(b[1..]);
    }
  }

  /** The NUL-terminated strings of an area, in order. */
  function Strings(b: seq<byte>): seq<seq<byte>>
    decreases |b|
  {
    var n := |First(b)|;
    if n == |b| then [] else [First(b)] + Strings(b[n + 1..])
  }

  predicate EndsInNul(b: seq<byte>) { b != [] && b[|b| - 1] == 0 }

  /** A byte that is not NUL belongs to the first string. */
  lemma {:induction false} StringsStep(b: seq<byte>)
    requires b != []
    ensures Strings(b) == (
      if b[0] == 0 then [[]] + Strings(b[1..])
      else if Strings(b[1..]) == [] then []
      else [[b[0]] + Strings(b[1..])[0]] + Strings(b[1..])[1..])
  {
    if b[0] != 0 {
      var n := |First(b[1..])|;
      if n < |b| - 1 {
        assert b[1..][n + 1..] == b[n + 2..];
      }
    }
  }

  lemma {:induction false} OneStringPerNul(b: seq<byte>)
    ensures |Strings(b)| == Nuls(b)
  {
    if b != [] {
      StringsStep(b);
      OneStringPerNul(b[1..]);
      if b[0] != 0 && Nuls(b[1..]) == 0 {
        assert Strings(b[1..]) == [];
      }
    }
  }

  /** What is left of the area after skipping `id` NULs; nothing if there are fewer. */
  function Skip(b: seq<byte>, id: nat): Option<seq<byte>> {
    if id == 0 then Some(b)
    else if b == [] then None
    else Skip(b[1..], if b[0] == 0 then id - 1 else id)
  }

  lemma {:induction false} DropBehind<T>(x: T, t: seq<T>, id: nat)
    requires 0 < id
    ensures id <= |t| + 1 ==> ([x] + t)[id..] == t[id - 1..]
    ensures t != [] && id <= |t| ==> ([x] + t[1..])[id..] == t[id..]
  {
  }

  /** Skipping drops exactly the first `id` strings. */
  lemma {:induction false} SkipDropsStrings(b: seq<byte>, id: nat)
    ensures Skip(b, id).Some? <==> id <= |Strings(b)|
    ensures Skip(b, id).Some? ==> Strings(Skip(b, id).value) == Strings(b)[id..]
    decreases |b|
  {
    if id == 0 || b == [] {
      assert Strings(b)[0..] == Strings(b);
    } else {
      var t := Strings(b[1..]);
      StringsStep(b);
      SkipDropsStrings(b[1..], if b[0] == 0 then id - 1 else id);
      DropBehind(if b[0] == 0 || t == [] then [] else [b[0]] + t[0], t, id);
    }
  }

  /** What is left of a terminated area is terminated, unless nothing is left. */
  lemma {:induction false} SkipKeepsEnd(b: seq<byte>, id: nat)
    requires EndsInNul(b) && Skip(b, id).Some?
    ensures Skip(b, id).value == [] || EndsInNul(Skip(b, id).value)
    decreases |b|
  {
    if id > 0 && |b| > 1 {
      SkipKeepsEnd(b[1..], if b[0] == 0 then id - 1 else id);
    }
  }

  // ---------------------------------------------------------------- one piece of a macro

  /** Position after the '|' of a delay, looked for at `i` to 6; 0 if there is none. */
  function DelayEnd(s: seq<byte>, i: nat): (n: nat)
    requires 2 <= i <= 6
    ensures n == 0 || (i < n <= 7 && n <= |s|)
    decreases 6 - i
  {
    if i >= |s| then 0 else if s[i] == BAR then i + 1 else if i == 6 then 0 else DelayEnd(s, i + 1)
  }

  /** Length of the first piece: a plain byte or an escape; 0 for an escape that is cut off. */
  function PieceLength(s: seq<byte>): (n: nat)
    requires s != []
    ensures n <= |s| && n <= 7
  {
    if s[0] != PREFIX then 1
    else if |s| == 1 then 0
    else if TAP <= s[1] <= UP then (if |s| == 2 then 0 else 3)
    else if s[1] == DELAY then DelayEnd(s, 2)
    else 2
  }

  /** No '|' among the places of a delay before `n`. */
  predicate NoBar(s: seq<byte>, n: nat)
    requires n <= |s|
  {
    forall j :: 2 <= j < n ==> s[j] != 124
  }

  lemma {:induction false} DelayEndsAtBar(s: seq<byte>, i: nat)
    requires 2 <= i <= 6 && i <= |s| && NoBar(s, i)
    ensures DelayEnd(s, i) > 0 ==> DelayEnd(s, i) >= 3 && s[DelayEnd(s, i) - 1] == 124 && NoBar(s, DelayEnd(s, i) - 1)
    ensures DelayEnd(s, i) == 0 ==> NoBar(s, if |s| < 7 then |s| else 7)
    decreases 6 - i
  {
    if i < |s| && s[i] != BAR && i < 6 {
      DelayEndsAtBar(s, i + 1);
    }
  }

  /**
   * Where a macro is cut: a plain byte stands alone; an escape of kind 1, 2 or 3 takes
   * exactly three bytes; one of kind 4 ends at its first '|', which must be among the
   * five places behind the kind; any other takes two; and an escape that is cut off,
   * or a delay without its '|', is no piece.
   */
  lemma {:induction false} CutsAt(s: seq<byte>)
    requires s != []
    ensures var n := PieceLength(s);
      if s[0] != 1 then n == 1
      else if |s| < 2 then n == 0
      else if 1 <= s[1] <= 3 then n == if |s| < 3 then 0 else 3
      else if s[1] == 4 then
        if n == 0 then NoBar(s, if |s| < 7 then |s| else 7)
        else 3 <= n <= 7 && s[n - 1] == 124 && NoBar(s, n - 1)
      else n == 2
  {
    if |s| >= 2 && s[0] == PREFIX && s[1] == DELAY {
      DelayEndsAtBar(s, 2);
    }
  }

  /** The buffer after a piece was read into it; a two-byte piece is not terminated. */
  function Load(d: seq<byte>, piece: seq<byte>): (d': seq<byte>)
    requires |d| == 8 && 1 <= |piece| <= 7
    ensures |d'| == 8
  {
    if |piece| == 2 then piece + d[2..] else piece + [0] + d[|piece| + 1..]
  }

  /** The strings handed on for a macro, given what the buffer still holds. */
  function Pieces(s: seq<byte>, d: seq<byte>): seq<seq<byte>>
    requires |d| == 8
    decreases |s|
  {
    if s == [] || PieceLength(s) == 0 then []
    else
      var n := PieceLength(s);
      var d' := Load(d, s[..n]);
      [First(d')] + Pieces(s[n..], d')
  }

  /** The whole pieces a macro consists of, up to an escape that is cut off. */
  function PieceList(s: seq<byte>): seq<seq<byte>>
    decreases |s|
  {
    if s == [] || PieceLength(s) == 0 then [] else [s[..PieceLength(s)]] + PieceList(s[PieceLength(s)..])
  }

  const EMPTY: seq<byte> := [0, 0, 0, 0, 0, 0, 0, 0]

  /** What sending macro `id` of `count` does: nothing, hand on strings, or read beyond the macro area. */
  datatype Outcome = Quiet | Sent(strings: seq<seq<byte>>) | Overrun

  function Send(b: seq<byte>, id: nat, count: nat): Outcome {
    if id >= count || !EndsInNul(b) then Quiet
    else match Skip(b, id)
      case None => Quiet
      case Some(rest) => if rest == [] then Overrun else Sent(Pieces(First(rest), EMPTY))
  }

  // ---------------------------------------------------------------- where it reads

  /**
   * Reads leave the macro area exactly when the area is terminated and holds as
   * many NULs as strings to skip: then the skipping ends right behind the area.
   */
  lemma {:induction false} OverrunExactly(b: seq<byte>, id: nat, count: nat)
    ensures Send(b, id, count).Overrun? <==> id < count && EndsInNul(b) && Nuls(b) == id
  {
    SkipDropsStrings(b, id);
    OneStringPerNul(b);
    match Skip(b, id)
    case None =>
    case Some(rest) =>
      OneStringPerNul(rest);
      if rest != [] && EndsInNul(b) {
        SkipKeepsEnd(b, id);
        SomeNul(rest);
      }
  }

  /** Nothing is sent for a macro there is not, or from an area that is not terminated. */
  lemma {:induction false} QuietExactly(b: seq<byte>, id: nat, count: nat)
    ensures Send(b, id, count).Quiet? <==> id >= count || b == [] || b[|b| - 1] != 0 || id > Nuls(b)
  {
    SkipDropsStrings(b, id);
    OneStringPerNul(b);
  }

  lemma {:induction false} SomeNul(b: seq<byte>)
    requires EndsInNul(b)
    ensures Nuls(b) > 0
  {
    if b[0] != 0 {
      SomeNul(b[1..]);
    }
  }

  /** The shortest area that makes it happen. */
  lemma {:induction false} OverrunHappens(count: nat)
    requires count > 1
    ensures Send([0], 1, count) == Overrun
  {
    var b: seq<byte> := [0];
    assert b[1..] == [];
    assert Skip(b, 1) == Skip(b[1..], 0);
  }

  // ---------------------------------------------------------------- what it hands on

  function Concat(parts: seq<seq<byte>>): seq<byte> {
    if parts == [] then [] else parts[0] + Concat(parts[1..])
  }

  /** Every escape in the macro is whole. */
  predicate Complete(s: seq<byte>)
    decreases |s|
  {
    s == [] || (PieceLength(s) > 0 && Complete(s[PieceLength(s)..]))
  }

  /** No escape of unknown kind follows a tap, down, up or delay escape. */
  predicate NoStale(s: seq<byte>, clean: bool)
    decreases |s|
  {
    s == [] || PieceLength(s) == 0
    || ((PieceLength(s) == 2 ==> clean) && NoStale(s[PieceLength(s)..], clean && PieceLength(s) <= 2))
  }

  /** The buffer's third byte is zero until a longer escape was read, and not zero from then on. */
  predicate Buffer(d: seq<byte>, clean: bool) {
    |d| == 8 && d[7] == 0 && (d[2] == 0 <==> clean)
  }

  predicate NoNul(s: seq<byte>) { forall i :: 0 <= i < |s| ==> s[i] != 0 }

  lemma {:induction false} FirstIs(d: seq<byte>, n: nat)
    requires n < |d| && d[n] == 0 && NoNul(d[..n])
    ensures First(d) == d[..n]
  {
    if n > 0 {
      assert d[..n][0] == d[0];
      assert d[1..][..n - 1] == d[..n][1..];
      FirstIs(d[1..], n - 1);
    }
  }

  /** What one piece does to the buffer, and what is handed on for it. */
  lemma {:induction false} PieceHandedOn(d: seq<byte>, piece: seq<byte>, clean: bool)
    requires Buffer(d, clean) && 1 <= |piece| <= 7 && NoNul(piece)
    ensures Buffer(Load(d, piece), clean && |piece| <= 2)
    ensures |piece| != 2 || clean ==> First(Load(d, piece)) == piece
    ensures |First(Load(d, piece))| >= |piece|
    ensures |piece| == 2 && !clean ==> |First(Load(d, piece))| > 2
  {
    var d' := Load(d, piece);
    assert d'[..|piece|] == piece;
    assert d'[7] == 0;
    if |piece| != 2 || clean {
      assert d'[|piece|] == 0;
      FirstIs(d', |piece|);
    } else {
      assert d'[2] == d[2] && d'[0] == piece[0] && d'[1] == piece[1];
      FirstStops(d');
    }
  }

  lemma {:induction false} PiecesStep(piece: seq<byte>, rest: seq<byte>, d: seq<byte>, d': seq<byte>)
    requires |d| == 8 && 1 <= |piece| <= 7 && PieceLength(piece + rest) == |piece| && d' == Load(d, piece)
    ensures Pieces(piece + rest, d) == [First(d')] + Pieces(rest, d')
  {
    var s := piece + rest;
    assert s[..|piece|] == piece && s[|piece|..] == rest;
  }

  lemma {:induction false} ConcatStep(x: seq<byte>, parts: seq<seq<byte>>)
    ensures Concat([x] + parts) == x + Concat(parts)
  {
    assert ([x] + parts)[1..] == parts;
  }

  lemma {:induction false} SamePieces(s: seq<byte>, d: seq<byte>, clean: bool)
    requires NoNul(s) && Buffer(d, clean)
    ensures Pieces(s, d) == PieceList(s) <==> NoStale(s, clean)
    decreases |s|
  {
    if s != [] && PieceLength(s) > 0 {
      var n := PieceLength(s);
      var d' := Load(d, s[..n]);
      PieceHandedOn(d, s[..n], clean);
      SamePieces(s[n..], d', clean && n <= 2);
      SameHeads(First(d'), s[..n], Pieces(s[n..], d'), PieceList(s[n..]));
    }
  }

  lemma {:induction false} SameHeads<T>(x: T, y: T, a: seq<T>, b: seq<T>)
    ensures [x] + a == [y] + b <==> x == y && a == b
  {
    assert ([x] + a)[0] == x && ([y] + b)[0] == y;
    assert ([x] + a)[1..] == a && ([y] + b)[1..] == b;
  }

  lemma {:induction false} PiecesConcat(s: seq<byte>)
    ensures Concat(PieceList(s)) == s <==> Complete(s)
    ensures |Concat(PieceList(s))| <= |s|
    decreases |s|
  {
    if s != [] && PieceLength(s) > 0 {
      var n := PieceLength(s);
      PiecesConcat(s[n..]);
      ConcatStep(s[..n], PieceList(s[n..]));
      assert s == s[..n] + s[n..];
      SameTails(s[..n], Concat(PieceList(s[n..])), s[n..]);
    }
  }

  lemma {:induction false} SameTails<T>(x: seq<T>, a: seq<T>, b: seq<T>)
    ensures x + a == x + b <==> a == b
  {
    assert (x + a)[|x|..] == a && (x + b)[|x|..] == b;
  }

  /** The string with number `id` is what follows `id` NULs. */
  lemma {:induction false} NthString(b: seq<byte>, id: nat)
    requires EndsInNul(b) && id < |Strings(b)|
    ensures Skip(b, id).Some? && Skip(b, id).value != [] && First(Skip(b, id).value) == Strings(b)[id]
  {
    SkipDropsStrings(b, id);
    var rest := Skip(b, id).value;
    assert Strings(rest) == Strings(b)[id..];
    assert Strings(b)[id..][0] == Strings(b)[id];
  }

  /**
   * What is handed on is the pieces of the macro exactly when no escape of unknown
   * kind follows a longer one; and the pieces are the whole macro exactly when all
   * its escapes are whole.
   */
  lemma {:induction false} SendsTheMacro(b: seq<byte>, id: nat, count: nat)
    requires id < count && EndsInNul(b) && id < Nuls(b)
    ensures |Strings(b)| == Nuls(b) && Send(b, id, count).Sent?
    ensures var macro, sent := Strings(b)[id], Send(b, id, count).strings;
      && (sent == PieceList(macro) <==> NoStale(macro, true))
      && (Concat(PieceList(macro)) == macro <==> Complete(macro))
  {
    OneStringPerNul(b);
    NthString(b, id);
    var macro := First(Skip(b, id).value);
    FirstStops(Skip(b, id).value);
    SamePieces(macro, EMPTY, true);
    PiecesConcat(macro);
  }

  /** A stale keycode is handed on behind an escape of unknown kind. */
  lemma {:induction false} StaleByteSent(code: byte, kind: byte)
    requires code != 0 && kind > DELAY
    ensures Pieces([PREFIX, TAP, code] + [PREFIX, kind], EMPTY) == [[PREFIX, TAP, code], [PREFIX, kind, code]]
  {
    var tap, unknown, none: seq<byte> := [PREFIX, TAP, code], [PREFIX, kind], [];
    var d1: seq<byte>, d2: seq<byte> := [PREFIX, TAP, code, 0, 0, 0, 0, 0], [PREFIX, kind, code, 0, 0, 0, 0, 0];
    assert d1 == Load(EMPTY, tap) && d2 == Load(d1, unknown);
    FirstIs(d1, 3);
    FirstIs(d2, 3);
    PiecesStep(tap, unknown, EMPTY, d1);
    PiecesStep(unknown, none, d1, d2);
    assert unknown + none == unknown && Pieces(none, d2) == [];
    assert First(d1) == tap && First(d2) == [PREFIX, kind, code];
  }

  // ---------------------------------------------------------------- the sender as it runs

  /** Reading from `at` on meets the string and then its NUL. */
  ghost predicate Facing(cells: array<byte>, at: nat, s: seq<byte>)
    reads cells
  {
    && at + |s| < cells.Length && cells[at + |s|] == 0
    && forall k :: 0 <= k < |s| ==> cells[at + k] == s[k] && s[k] != 0
  }

  /** Inside a terminated area the string ahead is terminated inside the area. */
  lemma {:induction false} FacingMacro(cells: array<byte>, start: nat, size: nat, p: nat)
    requires start + size <= cells.Length && p < size && cells[start + size - 1] == 0
    ensures var s := First(cells[start..start + size][p..]);
      Facing(cells, start + p, s) && p + |s| < size
  {
    var b := cells[start..start + size][p..];
    assert b[|b| - 1] == 0;
    FirstStops(b);
    assert forall k :: 0 <= k < |b| ==> b[k] == cells[start + p + k];
  }

  /** The place of the requested string, found by counting NULs. */
  method FindMacro(cells: array<byte>, start: nat, size: nat, id: nat) returns (found: bool, p: nat)
    requires start + size <= cells.Length
    ensures var b := cells[start..start + size];
      && (found <==> Skip(b, id).Some?)
      && (found ==> p <= size && Skip(b, id) == Some(b[p..]))
  {
    ghost var b := cells[start..start + size];
    p := 0;
    var left := id;
    assert b[0..] == b;
    while left > 0
      invariant p <= size && Skip(b, id) == Skip(b[p..], left)
      decreases size - p
    {
      if p == size {
        return false, p;
      }
      assert b[p..][1..] == b[p + 1..];
      if cells[start + p] == 0 {
        left := left - 1;
      }
      p := p + 1;
    }
    found := true;
  }

  /** Reads the bytes of a delay up to its '|' into the buffer. */
  method ReadDelay(cells: array<byte>, at: nat, ghost s: seq<byte>, data: array<byte>) returns (ok: bool, n: nat)
    requires data.Length == 8 && data != cells && 2 <= |s| && Facing(cells, at, s)
    modifies data
    ensures n == DelayEnd(s, 2) && (ok <==> n > 0)
    ensures ok ==> forall i :: 0 <= i < 8 ==>
      data[i] == if 2 <= i < n then s[i] else if i == n then 0 else old(data[i])
  {
    var i := 2;
    while true
      invariant 2 <= i <= 6 && i <= |s| && DelayEnd(s, i) == DelayEnd(s, 2)
      invariant forall k :: 0 <= k < 8 ==> data[k] == if 2 <= k < i then s[k] else old(data[k])
      decreases 6 - i
    {
      data[i] := cells[at + i];
      if data[i] == 0 {
        return false, 0;
      }
      if data[i] == BAR {
        data[i + 1] := 0;
        return true, i + 1;
      }
      if i == 6 {
        return false, 0;
      }
      i := i + 1;
    }
  }

  /** Reads an escape into the buffer: how many bytes, or none if it is cut off. */
  method ReadEscape(cells: array<byte>, at: nat, ghost s: seq<byte>, data: array<byte>) returns (n: nat)
    requires data.Length == 8 && data != cells && s != [] && Facing(cells, at, s) && s[0] == data[0] == PREFIX
    modifies data
    ensures n == PieceLength(s)
    ensures n > 0 ==> forall i :: 0 <= i < 8 ==>
      data[i] == if i < n then s[i] else if i == n != 2 then 0 else old(data[i])
  {
    data[1] := cells[at + 1];
    if data[1] == 0 {
      return 0;
    }
    n := 2;
    if data[1] == 1 || data[1] == 2 || data[1] == 3 {
      assert |s| == 2 || s[2] == cells[at + 2];
      data[2] := cells[at + 2];
      if data[2] == 0 {
        return 0;
      }
      data[3] := 0;
      n := 3;
    } else if data[1] == DELAY {
      var ok;
      ok, n := ReadDelay(cells, at, s, data);
      if !ok {
        return 0;
      }
    }
  }

  /** Reads one piece into the buffer. */
  method ReadPiece(cells: array<byte>, at: nat, ghost s: seq<byte>, data: array<byte>) returns (n: nat)
    requires data.Length == 8 && data != cells && s != [] && Facing(cells, at, s)
    modifies data
    ensures n == PieceLength(s) && (n > 0 ==> data[..] == Load(old(data[..]), s[..n]))
  {
    data[0] := cells[at];
    data[1] := 0;
    n := 1;
    if data[0] == PREFIX {
      n := ReadEscape(cells, at, s, data);
    }
  }

  lemma {:induction false} FacingRest(cells: array<byte>, at: nat, s: seq<byte>, n: nat)
    requires Facing(cells, at, s) && n <= |s|
    ensures Facing(cells, at + n, s[n..])
  {
    assert forall k :: 0 <= k < |s| - n ==> s[n..][k] == s[n + k];
  }

  /** Reads one piece into the buffer and hands it on, unless it is cut off. */
  method SendPiece(cells: array<byte>, at: nat, ghost s: seq<byte>, data: array<byte>, ghost todo: seq<seq<byte>>)
    returns (n: nat, ghost rest: seq<seq<byte>>)
    requires data.Length == 8 && data != cells && s != [] && Facing(cells, at, s) && todo == Pieces(s, data[..])
    modifies data
    ensures n <= |s| && Facing(cells, at + n, s[n..]) && rest == Pieces(s[n..], data[..])
    ensures todo == if n == 0 then [] else [First(data[..])] + rest
  {
    ghost var d := data[..];
    n := ReadPiece(cells, at, s, data);
    rest := Pieces(s[n..], data[..]);
    FacingRest(cells, at, s, n);
    if n > 0 {
      assert s == s[..n] + s[n..];
      PiecesStep(s[..n], s[n..], d, data[..]);
    }
  }

  lemma {:induction false} Regroup<T>(a: seq<T>, x: T, b: seq<T>)
    ensures a + ([x] + b) == a + [x] + b
  {
  }

  /** Hands on a string piece by piece. */
  method SendFrom(cells: array<byte>, start: nat, ghost macro: seq<byte>, data: array<byte>)
    returns (sent: seq<seq<byte>>)
    requires data.Length == 8 && data != cells && Facing(cells, start, macro)
    modifies data
    ensures sent == Pieces(macro, old(data[..]))
  {
    sent := [];
    var p: nat := start;
    ghost var s, todo, all := macro, Pieces(macro, data[..]), Pieces(macro, data[..]);
    while cells[p] != 0
      invariant Facing(cells, p, s) && todo == Pieces(s, data[..]) && all == sent + todo
      decreases |s|
    {
      var n;
      ghost var rest;
      n, rest := SendPiece(cells, p, s, data, todo);
      if n == 0 {
        return;
      }
      Regroup(sent, First(data[..]), rest);
      sent := sent + [First(data[..])];
      p, s, todo := p + n, s[n..], rest;
    }
  }

  /** Sends the string at `p`, through a fresh buffer. */
  method SendAt(cells: array<byte>, start: nat, size: nat, p: nat, ghost rest: seq<byte>) returns (sent: seq<seq<byte>>)
    requires start + size <= cells.Length && p < size && cells[start + size - 1] == 0
    requires rest == cells[start..start + size][p..]
    ensures sent == Pieces(First(rest), EMPTY)
  {
    var data := new byte[8](_ => 0);
    assert data[..] == EMPTY;
    FacingMacro(cells, start, size, p);
    sent := SendFrom(cells, start + p, First(rest), data);
  }

  lemma {:induction false} SendIs(b: seq<byte>, id: nat, count: nat)
    ensures id >= count || !EndsInNul(b) || Skip(b, id) == None ==> Send(b, id, count) == Quiet
    ensures id < count && EndsInNul(b) && Skip(b, id) == Some([]) ==> Send(b, id, count) == Overrun
    ensures id < count && EndsInNul(b) && Skip(b, id).Some? && Skip(b, id).value != [] ==>
      Send(b, id, count) == Sent(Pieces(First(Skip(b, id).value), EMPTY))
  {
  }

  /** dynamic_keymap_macro_send; `Overrun` stands for the read behind the area. */
  method MacroSend(cells: array<byte>, start: nat, size: nat, id: nat, count: nat) returns (o: Outcome)
    requires 0 < size && start + size <= cells.Length
    ensures o == Send(cells[start..start + size], id, count)
  {
    ghost var b := cells[start..start + size];
    SendIs(b, id, count);
    if id >= count || cells[start + size - 1] != 0 {
      return Quiet;
    }
    var found, p := FindMacro(cells, start, size, id);
    if !found {
      return Quiet;
    }
    if p == size {
      return Overrun;
    }
    var sent := SendAt(cells, start, size, p, b[p..]);
    o := Sent(sent);
  }
}
