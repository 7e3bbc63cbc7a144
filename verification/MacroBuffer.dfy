/**
 * The dynamic macro recorder as the firmware runs it: one array, two end pointers
 * and a position, moving up for the first macro and down for the second.  Every
 * method is proved to do what DynamicMacro says.
 */
module MacroBuffer {
  import opened KeyEvents
  import opened DynamicMacro

  /** The cell `i` places into a macro: from the left end, or from the right. */
  function Cell(size: nat, first: bool, i: int): int { if first then i else size - 1 - i }

  /** The first `n` records of a macro. */
  function Cells(b: seq<Record>, first: bool, n: nat): (r: seq<Record>)
    requires n <= |b|
    ensures |r| == n && forall i :: 0 <= i < n ==> r[i] == b[Cell(|b|, first, i)]
  {
    seq(n, i requires 0 <= i < n => b[Cell(|b|, first, i)])
  }

  /** How many places lie between two cells in the direction of recording. */
  function Places(from: int, to: int, direction: int): int { if direction == 1 then to - from else from - to }

  lemma {:induction false} TrimStep(b: seq<Record>, first: bool, n: nat)
    requires 0 < n <= |b| && b[Cell(|b|, first, n - 1)].event.pressed
    ensures Trim(Cells(b, first, n)) == Trim(Cells(b, first, n - 1))
  {
    assert Cells(b, first, n)[..n - 1] == Cells(b, first, n - 1);
  }

  class Recorder {
    const buffer: array<Record>
    var macroEnd: int
    var rMacroEnd: int
    var pointer: int
    /** 0 while not recording, else the number of the macro being recorded. */
    var macroId: nat

    ghost predicate Valid()
      reads this
    {
      && 0 <= macroEnd <= rMacroEnd + 1 <= buffer.Length
      && macroId <= 2
      && (macroId == 1 ==> 0 <= pointer <= rMacroEnd + 1)
      && (macroId == 2 ==> macroEnd - 1 <= pointer < buffer.Length)
    }

    ghost function Abs(): Macros
      requires Valid()
      reads this, buffer
    {
      Macros(if macroId == 1 then [] else Cells(buffer[..], true, macroEnd),
             if macroId == 2 then [] else Cells(buffer[..], false, buffer.Length - 1 - rMacroEnd),
             if macroId == 1 then Recording(true, Cells(buffer[..], true, pointer))
             else if macroId == 2 then Recording(false, Cells(buffer[..], false, buffer.Length - 1 - pointer))
             else NotRecording)
    }

    constructor (size: nat)
      requires size > 0
      ensures Valid() && fresh(buffer) && buffer.Length == size && Abs() == EMPTY
    {
      buffer := new Record[size](_ => NO_RECORD);
      macroEnd, rMacroEnd, pointer, macroId := 0, size - 1, 0, 0;
    }

    /** Plays the cells from `from` up to, not including, `end`. */
    method PlayCells(from: int, end: int, direction: int) returns (played: seq<Record>)
      requires direction == 1 || direction == -1
      requires direction == 1 ==> 0 == from <= end <= buffer.Length
      requires direction == -1 ==> -1 <= end <= from == buffer.Length - 1
      ensures played == Cells(buffer[..], direction == 1, Places(from, end, direction))
    {
      played := [];
      var p := from;
      while p != end
        invariant direction == 1 ==> from <= p <= end
        invariant direction == -1 ==> end <= p <= from
        invariant played == Cells(buffer[..], direction == 1, Places(from, p, direction))
        decreases Places(p, end, direction)
      {
        played := played + [buffer[p]];
        p := p + direction;
      }
    }

    /** Stores one record of the macro being recorded, unless it would overwrite the other. */
    method RecordKey(start: int, end2: int, direction: int, record: Record)
      requires Valid() && macroId != 0
      requires direction == (if macroId == 1 then 1 else -1)
      requires start == (if macroId == 1 then 0 else buffer.Length - 1)
      requires end2 == (if macroId == 1 then rMacroEnd else macroEnd)
      modifies this`pointer, buffer
      ensures Valid() && Abs() == Handle(buffer.Length, old(Abs()), OtherKey, record).macros
    {
      if !record.event.pressed && pointer == start {
        return;
      }
      if pointer - direction != end2 {
        buffer[pointer] := record;
        pointer := pointer + direction;
        if macroId == 1 {
          assert Cells(buffer[..], true, pointer) == Cells(old(buffer[..]), true, pointer - 1) + [record];
          assert Cells(buffer[..], false, buffer.Length - 1 - rMacroEnd)
                 == Cells(old(buffer[..]), false, buffer.Length - 1 - rMacroEnd);
        } else {
          var n := buffer.Length - 1 - pointer;
          assert Cells(buffer[..], false, n) == Cells(old(buffer[..]), false, n - 1) + [record];
          assert Cells(buffer[..], true, macroEnd) == Cells(old(buffer[..]), true, macroEnd);
        }
      }
    }

    /** The end of the recording, without the presses at its end. */
    method TrimEnd(start: int, direction: int) returns (end: int)
      requires Valid() && macroId != 0
      requires direction == (if macroId == 1 then 1 else -1)
      requires start == (if macroId == 1 then 0 else buffer.Length - 1)
      ensures 0 <= Places(start, end, direction) <= Places(start, pointer, direction)
      ensures Cells(buffer[..], macroId == 1, Places(start, end, direction))
              == Trim(Cells(buffer[..], macroId == 1, Places(start, pointer, direction)))
    {
      end := pointer;
      ghost var first, all := macroId == 1, Cells(buffer[..], macroId == 1, Places(start, pointer, direction));
      while end != start && buffer[end - direction].event.pressed
        invariant 0 <= Places(start, end, direction) <= Places(start, pointer, direction)
        invariant Trim(Cells(buffer[..], first, Places(start, end, direction))) == Trim(all)
        decreases Places(start, end, direction)
      {
        TrimStep(buffer[..], first, Places(start, end, direction));
        end := end - direction;
      }
    }

    method ProcessRecord(key: Key, record: Record) returns (played: seq<Record>, goOn: bool)
      requires Valid()
      modifies this, buffer
      ensures Valid()
      ensures Outcome(Abs(), played, goOn) == Handle(buffer.Length, old(Abs()), key, record)
    {
      played, goOn := [], true;
      if macroId == 0 {
        if !record.event.pressed {
          match key
          case RecordStart(first) =>
            macroId := if first then 1 else 2;
            pointer := if first then 0 else buffer.Length - 1;
            goOn := false;
          case Play(first) =>
            if first {
              played := PlayCells(0, macroEnd, 1);
            } else {
              played := PlayCells(buffer.Length - 1, rMacroEnd, -1);
            }
            goOn := false;
          case _ =>
        }
      } else {
        match key
        case RecordStop =>
          if record.event.pressed {
            Stop();
          }
          goOn := false;
        case Play(_) =>
          goOn := false;
        case _ =>
          if macroId == 1 {
            RecordKey(0, rMacroEnd, 1, record);
          } else {
            RecordKey(buffer.Length - 1, macroEnd, -1, record);
          }
      }
    }

    method Stop()
      requires Valid() && macroId != 0
      modifies this`macroEnd, this`rMacroEnd, this`macroId
      ensures Valid() && macroId == 0
      ensures var was := old(Abs());
        Abs() == Save(was, was.recording.first, Trim(was.recording.keys)).(recording := NotRecording)
    {
      if macroId == 1 {
        var end := TrimEnd(0, 1);
        macroEnd := end;
      } else {
        var end := TrimEnd(buffer.Length - 1, -1);
        rMacroEnd := end;
      }
      macroId := 0;
    }
  }
}
