/**
 * Byte-wise persistent memory that can lose power.  A write that changes nothing
 * is skipped; a write that would change something takes effect only while there
 * is power left.  However long the power lasts, what is reached is the effect of a
 * prefix of the writes.
 */
module Eeprom {

  type byte = x: int | 0 <= x < 256

  type Memory = seq<byte>

  function Zeros(n: nat): (z: seq<byte>)
    ensures |z| == n && forall i :: 0 <= i < n ==> z[i] == 0
  {
    seq(n, _ => 0)
  }

  datatype Write = Write(addr: nat, value: byte)

  predicate Fits(size: nat, ws: seq<Write>) {
    forall i :: 0 <= i < |ws| ==> ws[i].addr < size
  }

  /** Memory after all writes. */
  function Apply(m: Memory, ws: seq<Write>): (m': Memory)
    requires Fits(|m|, ws)
    ensures |m'| == |m|
  {
    if ws == [] then m else Apply(m, ws[..|ws| - 1])[ws[|ws| - 1].addr := ws[|ws| - 1].value]
  }

  /** Memory and the number of changes there is still power for. */
  datatype Device = Device(mem: Memory, power: nat)

  /** One eeprom_update_byte. */
  function Update(d: Device, w: Write): Device
    requires w.addr < |d.mem|
  {
    if d.mem[w.addr] == w.value || d.power == 0 then d
    else Device(d.mem[w.addr := w.value], d.power - 1)
  }

  function UpdateAll(d: Device, ws: seq<Write>): (d': Device)
    requires Fits(|d.mem|, ws)
    ensures |d'.mem| == |d.mem|
  {
    if ws == [] then d else Update(UpdateAll(d, ws[..|ws| - 1]), ws[|ws| - 1])
  }

  lemma {:induction false} UpdateConcat(d: Device, a: seq<Write>, b: seq<Write>)
    requires Fits(|d.mem|, a) && Fits(|d.mem|, b)
    ensures Fits(|d.mem|, a + b) && UpdateAll(d, a + b) == UpdateAll(UpdateAll(d, a), b)
  {
    if b == [] {
      assert a + b == a;
    } else {
      assert (a + b)[..|a + b| - 1] == a + b[..|b| - 1];
      UpdateConcat(d, a, b[..|b| - 1]);
    }
  }

  lemma {:induction false} ApplyConcat(m: Memory, a: seq<Write>, b: seq<Write>)
    requires Fits(|m|, a) && Fits(|m|, b)
    ensures Fits(|m|, a + b) && Apply(m, a + b) == Apply(Apply(m, a), b)
  {
    if b == [] {
      assert a + b == a;
    } else {
      assert (a + b)[..|a + b| - 1] == a + b[..|b| - 1];
      ApplyConcat(m, a, b[..|b| - 1]);
    }
  }

  /** However the power runs out, exactly a prefix of the writes took effect. */
  lemma {:induction false} SomePrefix(d: Device, ws: seq<Write>) returns (n: nat)
    requires Fits(|d.mem|, ws)
    ensures n <= |ws| && UpdateAll(d, ws).mem == Apply(d.mem, ws[..n])
    ensures UpdateAll(d, ws).power > 0 ==> n == |ws|
  {
    if ws == [] {
      n := 0;
    } else {
      var before, w := ws[..|ws| - 1], ws[|ws| - 1];
      n := SomePrefix(d, before);
      var d' := UpdateAll(d, before);
      assert before[..n] == ws[..n];
      if n == |before| && (d'.power > 0 || d'.mem[w.addr] == w.value) {
        n := |ws|;
        assert ws[..n] == ws;
        assert d'.mem[w.addr] == w.value ==> d'.mem[w.addr := w.value] == d'.mem;
      } else if d'.power > 0 {
        assert false;
      }
    }
  }

  /** With power for as many changes as there are writes, all take effect. */
  lemma {:induction false} EnoughPower(d: Device, ws: seq<Write>)
    requires Fits(|d.mem|, ws) && |ws| <= d.power
    ensures UpdateAll(d, ws).mem == Apply(d.mem, ws) && d.power - |ws| <= UpdateAll(d, ws).power
  {
    if ws != [] {
      EnoughPower(d, ws[..|ws| - 1]);
      var m, w := Apply(d.mem, ws[..|ws| - 1]), ws[|ws| - 1];
      assert m[w.addr] == w.value ==> m[w.addr := w.value] == m;
    }
  }

  /** Writes of what is there already cost nothing, and need no power. */
  lemma {:induction false} NoChangeNoCost(d: Device, ws: seq<Write>)
    requires Fits(|d.mem|, ws) && forall i :: 0 <= i < |ws| ==> d.mem[ws[i].addr] == ws[i].value
    ensures UpdateAll(d, ws) == d
  {
    if ws != [] {
      NoChangeNoCost(d, ws[..|ws| - 1]);
    }
  }

  /** An address that no write names keeps its value. */
  lemma {:induction false} Untouched(m: Memory, ws: seq<Write>, a: nat)
    requires Fits(|m|, ws) && a < |m| && forall i :: 0 <= i < |ws| ==> ws[i].addr != a
    ensures Apply(m, ws)[a] == m[a]
  {
    if ws != [] {
      Untouched(m, ws[..|ws| - 1], a);
    }
  }

  /** An address for which every write agrees, and there is one, ends with that value. */
  lemma {:induction false} Settled(m: Memory, ws: seq<Write>, a: nat, v: byte)
    requires Fits(|m|, ws) && a < |m| && Write(a, v) in ws
    requires forall i :: 0 <= i < |ws| && ws[i].addr == a ==> ws[i].value == v
    ensures Apply(m, ws)[a] == v
  {
    var before, w := ws[..|ws| - 1], ws[|ws| - 1];
    if w.addr != a {
      assert w != Write(a, v);
      assert Write(a, v) in before;
      Settled(m, before, a, v);
    }
  }

  /** The memory chip, with the power it has left. */
  class Chip {
    const cells: array<byte>
    var power: nat

    ghost function Abs(): Device
      reads this, cells
    {
      Device(cells[..], power)
    }

    constructor (contents: Memory, power: nat)
      ensures fresh(cells) && Abs() == Device(contents, power)
    {
      cells := new byte[|contents|](i requires 0 <= i < |contents| => contents[i]);
      this.power := power;
      new;
      assert cells[..] == contents;
    }

    /** eeprom_update_byte: write only if different. */
    method UpdateByte(addr: nat, value: byte)
      requires addr < cells.Length
      modifies this, cells
      ensures Abs() == Update(old(Abs()), Write(addr, value))
    {
      if cells[addr] != value && power > 0 {
        cells[addr] := value;
        power := power - 1;
      }
    }
  }
}
