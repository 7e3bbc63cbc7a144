/**
 * Matrix rows and the bit trick on them.  A row is the sequence of its columns;
 * the word that holds it has column 0 in the least significant bit.  The test for
 * more than one pressed column clears the lowest set bit of the word and asks
 * whether anything is left.
 */
module MatrixBits {

  type Row = seq<bool>

  /** Bitwise "and" of two words. */
  function And(x: nat, y: nat): nat {
    if x == 0 || y == 0 then 0 else 2 * And(x / 2, y / 2) + (x % 2) * (y % 2)
  }

  function Power2(n: nat): (p: nat)
    ensures p > 0
  {
    if n == 0 then 1 else 2 * Power2(n - 1)
  }

  /** The word that holds a row. */
  function WordOf(r: Row): nat {
    if r == [] then 0 else 2 * WordOf(r[1..]) + (if r[0] then 1 else 0)
  }

  /** Whether more than one bit is set: x &= x - 1 leaves something. */
  predicate MoreThanOne(x: nat) {
    if x == 0 then false else And(x, x - 1) != 0
  }

  lemma {:induction false} AndSelf(x: nat)
    ensures And(x, x) == x
  {
    if x > 0 {
      AndSelf(x / 2);
    }
  }

  /** An odd word keeps its upper bits, an even one passes the question up. */
  lemma {:induction false} MoreThanOneStep(x: nat)
    ensures x % 2 == 1 ==> (MoreThanOne(x) <==> x / 2 != 0)
    ensures x % 2 == 0 ==> (MoreThanOne(x) <==> MoreThanOne(x / 2))
  {
    if x % 2 == 1 {
      AndSelf(x / 2);
      assert (x - 1) / 2 == x / 2 && (x - 1) % 2 == 0;
    } else if x > 0 {
      assert (x - 1) / 2 == x / 2 - 1;
    }
  }

  lemma {:induction false} NonzeroWord(r: Row)
    ensures WordOf(r) != 0 <==> exists i :: 0 <= i < |r| && r[i]
  {
    if r != [] {
      NonzeroWord(r[1..]);
      if r[0] {
      } else if i :| 0 <= i < |r[1..]| && r[1..][i] {
        assert r[i + 1];
      } else {
        assert forall i :: 0 < i < |r| ==> r[i] == r[1..][i - 1];
      }
    }
  }

  predicate TwoPressed(r: Row) { exists i, j :: 0 <= i < j < |r| && r[i] && r[j] }

  lemma {:induction false} TwoPressedStep(r: Row)
    requires r != []
    ensures TwoPressed(r) <==> TwoPressed(r[1..]) || (r[0] && exists i :: 0 <= i < |r[1..]| && r[1..][i])
  {
    var t := r[1..];
    if i, j :| 0 <= i < j < |r| && r[i] && r[j] {
      assert t[j - 1];
      if i > 0 {
        assert 0 <= i - 1 < j - 1 < |t| && t[i - 1] && t[j - 1];
      }
    }
    if i, j :| 0 <= i < j < |t| && t[i] && t[j] {
      assert 0 <= i + 1 < j + 1 < |r| && r[i + 1] && r[j + 1];
    }
    if r[0] && exists i :: 0 <= i < |t| && t[i] {
      var i :| 0 <= i < |t| && t[i];
      assert 0 <= 0 < i + 1 < |r| && r[0] && r[i + 1];
    }
  }

  /** The bit trick is right: it holds exactly when two different columns are pressed. */
  lemma {:induction false} MoreThanOneCols(r: Row)
    ensures MoreThanOne(WordOf(r)) <==> TwoPressed(r)
  {
    if r != [] {
      MoreThanOneCols(r[1..]);
      MoreThanOneStep(WordOf(r));
      NonzeroWord(r[1..]);
      TwoPressedStep(r);
    }
  }
}
