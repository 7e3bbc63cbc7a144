/**
 * From matrix scans to key events: comparing each scan with what was last
 * reported, withholding rows that may show ghost keys.  Over every sequence of
 * scans the events of each key alternate, starting with a press, and replaying
 * them gives exactly the matrix last reported.
 */
module Matrix {
  import opened KeyEvents
  import opened MatrixBits

  datatype KeyChange = KeyChange(key: KeyPos, pressed: bool)

  /** Which positions the keymap defines as keys. */
  type RealKey = KeyPos -> bool

  predicate IsMatrix(m: seq<Row>, rows: nat, cols: nat) {
    |m| == rows && forall r :: 0 <= r < rows ==> |m[r]| == cols
  }

  // ---------------------------------------------------------------- ghosts

  /** The pressed columns of a row that are real keys. */
  function RealKeys(isKey: RealKey, row: nat, data: Row): (out: Row)
    ensures |out| == |data|
    ensures forall c :: 0 <= c < |out| ==> (out[c] <==> data[c] && isKey(KeyPos(row, c)))
  {
    seq(|data|, c requires 0 <= c < |data| => data[c] && isKey(KeyPos(row, c)))
  }

  function Both(a: Row, b: Row): (out: Row)
    requires |a| == |b|
    ensures |out| == |a|
    ensures forall c :: 0 <= c < |out| ==> (out[c] <==> a[c] && b[c])
  {
    seq(|a|, c requires 0 <= c < |a| => a[c] && b[c])
  }

  /** The firmware's test, by words. */
  predicate SharesTwo(isKey: RealKey, m: seq<Row>, row: nat, i: nat)
    requires row < |m| && i < |m| && |m[i]| == |m[row]|
  {
    MoreThanOne(WordOf(Both(RealKeys(isKey, i, m[i]), RealKeys(isKey, row, m[row]))))
  }

  predicate HasGhost(isKey: RealKey, m: seq<Row>, row: nat)
    requires row < |m| && forall i :: 0 <= i < |m| ==> |m[i]| == |m[row]|
  {
    && MoreThanOne(WordOf(RealKeys(isKey, row, m[row])))
    && exists i :: 0 <= i < |m| && i != row && SharesTwo(isKey, m, row, i)
  }

  /** Four real keys, pressed, at the corners of a rectangle with this row. */
  ghost predicate InRectangle(isKey: RealKey, m: seq<Row>, row: nat) {
    exists i, c, d :: 0 <= i < |m| && i != row && row < |m| && 0 <= c < d < |m[row]| && |m[i]| == |m[row]|
      && Corner(isKey, m, row, c) && Corner(isKey, m, row, d) && Corner(isKey, m, i, c) && Corner(isKey, m, i, d)
  }

  predicate Corner(isKey: RealKey, m: seq<Row>, r: nat, c: nat)
    requires r < |m| && c < |m[r]|
  {
    m[r][c] && isKey(KeyPos(r, c))
  }

  /** A row is withheld exactly when it shares two pressed real-key columns with another row. */
  lemma {:induction false} GhostMeansRectangle(isKey: RealKey, m: seq<Row>, row: nat)
    requires row < |m| && forall i :: 0 <= i < |m| ==> |m[i]| == |m[row]|
    ensures HasGhost(isKey, m, row) <==> InRectangle(isKey, m, row)
  {
    var own := RealKeys(isKey, row, m[row]);
    MoreThanOneCols(own);
    if HasGhost(isKey, m, row) {
      var i :| 0 <= i < |m| && i != row && SharesTwo(isKey, m, row, i);
      var both := Both(RealKeys(isKey, i, m[i]), own);
      MoreThanOneCols(both);
      var c, d :| 0 <= c < d < |both| && both[c] && both[d];
      assert Corner(isKey, m, row, c) && Corner(isKey, m, row, d) && Corner(isKey, m, i, c) && Corner(isKey, m, i, d);
    }
    if InRectangle(isKey, m, row) {
      var i, c, d :| 0 <= i < |m| && i != row && row < |m| && 0 <= c < d < |m[row]| && |m[i]| == |m[row]|
        && Corner(isKey, m, row, c) && Corner(isKey, m, row, d) && Corner(isKey, m, i, c) && Corner(isKey, m, i, d);
      assert own[c] && own[d];
      var both := Both(RealKeys(isKey, i, m[i]), own);
      MoreThanOneCols(both);
      assert both[c] && both[d];
      assert SharesTwo(isKey, m, row, i);
    }
  }

  // ---------------------------------------------------------------- one scan

  /** The rows of a scan that are withheld. */
  function Withheld(isKey: RealKey, cur: seq<Row>, cols: nat): (w: seq<bool>)
    requires IsMatrix(cur, |cur|, cols)
    ensures |w| == |cur|
    ensures forall r :: 0 <= r < |w| ==> w[r] == HasGhost(isKey, cur, r)
  {
    seq(|cur|, r requires 0 <= r < |cur| => HasGhost(isKey, cur, r))
  }

  /** The changes of one row, for the columns below `n`. */
  function RowChanges(row: nat, prev: Row, cur: Row, n: nat): seq<KeyChange>
    requires n <= |prev| && n <= |cur|
  {
    if n == 0 then []
    else RowChanges(row, prev, cur, n - 1)
         + (if prev[n - 1] != cur[n - 1] then [KeyChange(KeyPos(row, n - 1), cur[n - 1])] else [])
  }

  /** The changes of each row, none for a row that is withheld. */
  function RowReports(withheld: seq<bool>, prev: seq<Row>, cur: seq<Row>, cols: nat): (rs: seq<seq<KeyChange>>)
    requires |cur| == |withheld| && IsMatrix(prev, |cur|, cols) && IsMatrix(cur, |cur|, cols)
    ensures |rs| == |cur|
  {
    seq(|cur|, r requires 0 <= r < |cur| => if withheld[r] then [] else RowChanges(r, prev[r], cur[r], cols))
  }

  function Flatten(rs: seq<seq<KeyChange>>, n: nat): seq<KeyChange>
    requires n <= |rs|
  {
    if n == 0 then [] else Flatten(rs, n - 1) + rs[n - 1]
  }

  lemma {:induction false} FlattenStep(rs: seq<seq<KeyChange>>, n: nat)
    requires n < |rs|
    ensures Flatten(rs, n + 1) == Flatten(rs, n) + rs[n]
  {
  }

  /** The changes reported by one scan. */
  function ScanChanges(withheld: seq<bool>, prev: seq<Row>, cur: seq<Row>, cols: nat): seq<KeyChange>
    requires |cur| == |withheld| && IsMatrix(prev, |cur|, cols) && IsMatrix(cur, |cur|, cols)
  {
    Flatten(RowReports(withheld, prev, cur, cols), |cur|)
  }

  /** What counts as reported after the scan, for the rows below `n`. */
  function Reported(withheld: seq<bool>, prev: seq<Row>, cur: seq<Row>, cols: nat, n: nat): (m: seq<Row>)
    requires n <= |cur| == |withheld| && IsMatrix(prev, |cur|, cols) && IsMatrix(cur, |cur|, cols)
    ensures IsMatrix(m, |cur|, cols)
    ensures forall r :: 0 <= r < |cur| ==> m[r] == if r < n && !withheld[r] then cur[r] else prev[r]
  {
    seq(|cur|, r requires 0 <= r < |cur| => if r < n && !withheld[r] then cur[r] else prev[r])
  }

  // ---------------------------------------------------------------- replaying changes

  function Pressed(m: seq<Row>): set<KeyPos> {
    set r, c | 0 <= r < |m| && 0 <= c < |m[r]| && m[r][c] :: KeyPos(r, c)
  }

  /** The keys down after replaying the changes. */
  function Replay(down: set<KeyPos>, changes: seq<KeyChange>): set<KeyPos> {
    if changes == [] then down
    else
      var before, last := Replay(down, changes[..|changes| - 1]), changes[|changes| - 1];
      if last.pressed then before + {last.key} else before - {last.key}
  }

  /** Every press is of a key that is up, every release of a key that is down. */
  predicate Alternating(down: set<KeyPos>, changes: seq<KeyChange>) {
    changes == [] ||
      (Alternating(down, changes[..|changes| - 1])
       && changes[|changes| - 1].pressed == (changes[|changes| - 1].key !in Replay(down, changes[..|changes| - 1])))
  }

  lemma {:induction false} ReplayConcat(down: set<KeyPos>, a: seq<KeyChange>, b: seq<KeyChange>)
    ensures Replay(down, a + b) == Replay(Replay(down, a), b)
    ensures Alternating(down, a + b) <==> Alternating(down, a) && Alternating(Replay(down, a), b)
  {
    if b == [] {
      assert a + b == a;
    } else {
      assert (a + b)[..|a + b| - 1] == a + b[..|b| - 1];
      ReplayConcat(down, a, b[..|b| - 1]);
    }
  }

  lemma {:induction false} ReplayOn(
      down: set<KeyPos>, a: seq<KeyChange>, b: seq<KeyChange>, mid: set<KeyPos>, end: set<KeyPos>)
    requires Alternating(down, a) && Replay(down, a) == mid && Alternating(mid, b) && Replay(mid, b) == end
    ensures Alternating(down, a + b) && Replay(down, a + b) == end
  {
    ReplayConcat(down, a, b);
  }

  lemma {:induction false} ReplayOne(
      down: set<KeyPos>, cs: seq<KeyChange>, e: KeyChange, mid: set<KeyPos>, end: set<KeyPos>)
    requires Alternating(down, cs) && Replay(down, cs) == mid && e.pressed == (e.key !in mid)
    requires end == if e.pressed then mid + {e.key} else mid - {e.key}
    ensures Alternating(down, cs + [e]) && Replay(down, cs + [e]) == end
  {
    assert (cs + [e])[..|cs|] == cs;
  }

  /** The matrix with the columns below `n` of one row replaced. */
  function Mixed(m: seq<Row>, row: nat, cur: Row, n: nat): (m': seq<Row>)
    requires row < |m| && n <= |cur| == |m[row]|
  {
    m[row := cur[..n] + m[row][n..]]
  }

  lemma {:induction false} PressedMixed(m: seq<Row>, row: nat, cur: Row, n: nat)
    requires row < |m| && n < |cur| == |m[row]|
    ensures Pressed(Mixed(m, row, cur, n + 1))
            == if cur[n] then Pressed(Mixed(m, row, cur, n)) + {KeyPos(row, n)}
               else Pressed(Mixed(m, row, cur, n)) - {KeyPos(row, n)}
    ensures KeyPos(row, n) in Pressed(Mixed(m, row, cur, n)) <==> m[row][n]
  {
    var a, b := Mixed(m, row, cur, n), Mixed(m, row, cur, n + 1);
    assert forall r, c :: 0 <= r < |m| && 0 <= c < |m[r]| && !(r == row && c == n) ==> a[r][c] == b[r][c];
    assert b[row][n] == cur[n] && a[row][n] == m[row][n];
  }

  /** Replaying a row's changes brings that row up to date and leaves the others. */
  lemma {:induction false} RowReplay(m: seq<Row>, row: nat, cur: Row, n: nat)
    requires row < |m| && n <= |cur| == |m[row]|
    ensures var cs := RowChanges(row, m[row], cur, n);
      Alternating(Pressed(m), cs) && Replay(Pressed(m), cs) == Pressed(Mixed(m, row, cur, n))
  {
    if n == 0 {
      assert cur[..0] + m[row][0..] == m[row];
      assert Mixed(m, row, cur, 0) == m;
    } else {
      RowReplay(m, row, cur, n - 1);
      PressedMixed(m, row, cur, n - 1);
      var cs := RowChanges(row, m[row], cur, n - 1);
      var mid, end := Pressed(Mixed(m, row, cur, n - 1)), Pressed(Mixed(m, row, cur, n));
      if m[row][n - 1] != cur[n - 1] {
        ReplayOne(Pressed(m), cs, KeyChange(KeyPos(row, n - 1), cur[n - 1]), mid, end);
      } else {
        assert cs + [] == cs;
      }
    }
  }

  lemma {:induction false} WholeRow(m: seq<Row>, row: nat, cur: Row, changes: seq<KeyChange>)
    requires row < |m| && |cur| == |m[row]| && changes == RowChanges(row, m[row], cur, |cur|)
    ensures Alternating(Pressed(m), changes) && Replay(Pressed(m), changes) == Pressed(m[row := cur])
  {
    RowReplay(m, row, cur, |cur|);
    assert cur[..|cur|] + m[row][|cur|..] == cur;
  }

  /** Rows that each lead from one set of keys to the next, replayed one after another. */
  lemma {:induction false} FlattenReplay(downs: seq<set<KeyPos>>, rs: seq<seq<KeyChange>>, n: nat)
    requires n <= |rs| < |downs|
    requires forall r :: 0 <= r < |rs| ==> Alternating(downs[r], rs[r]) && Replay(downs[r], rs[r]) == downs[r + 1]
    ensures Alternating(downs[0], Flatten(rs, n)) && Replay(downs[0], Flatten(rs, n)) == downs[n]
  {
    if n > 0 {
      FlattenReplay(downs, rs, n - 1);
      ReplayOn(downs[0], Flatten(rs, n - 1), rs[n - 1], downs[n - 1], downs[n]);
    }
  }

  lemma {:induction false} RowLeadsOn(
      withheld: seq<bool>, prev: seq<Row>, cur: seq<Row>, cols: nat, r: nat, row: seq<KeyChange>)
    requires r < |cur| == |withheld| && IsMatrix(prev, |cur|, cols) && IsMatrix(cur, |cur|, cols)
    requires row == if withheld[r] then [] else RowChanges(r, prev[r], cur[r], cols)
    ensures var mid, next := Reported(withheld, prev, cur, cols, r), Reported(withheld, prev, cur, cols, r + 1);
      Alternating(Pressed(mid), row) && Replay(Pressed(mid), row) == Pressed(next)
  {
    ReportedStep(withheld, prev, cur, cols, r);
    if !withheld[r] {
      WholeRow(Reported(withheld, prev, cur, cols, r), r, cur[r], row);
    }
  }

  /** Replaying a scan's changes gives what counts as reported after it. */
  lemma {:induction false} ScanReplay(withheld: seq<bool>, prev: seq<Row>, cur: seq<Row>, cols: nat)
    requires |cur| == |withheld| && IsMatrix(prev, |cur|, cols) && IsMatrix(cur, |cur|, cols)
    ensures var cs := ScanChanges(withheld, prev, cur, cols);
      Alternating(Pressed(prev), cs) && Replay(Pressed(prev), cs) == Pressed(Reported(withheld, prev, cur, cols, |cur|))
  {
    var rs := RowReports(withheld, prev, cur, cols);
    var downs := seq(|cur| + 1, r requires 0 <= r <= |cur| => Pressed(Reported(withheld, prev, cur, cols, r)));
    assert Reported(withheld, prev, cur, cols, 0) == prev;
    forall r | 0 <= r < |rs|
      ensures Alternating(downs[r], rs[r]) && Replay(downs[r], rs[r]) == downs[r + 1]
    {
      RowLeadsOn(withheld, prev, cur, cols, r, rs[r]);
    }
    FlattenReplay(downs, rs, |cur|);
  }

  /** A column that changed, and to what. */
  predicate Differs(prev: Row, cur: Row, n: nat, col: nat, pressed: bool)
    requires n <= |prev| && n <= |cur|
  {
    col < n && prev[col] != cur[col] && cur[col] == pressed
  }

  lemma {:induction false} InFlatten(rs: seq<seq<KeyChange>>, n: nat, e: KeyChange)
    requires n <= |rs|
    ensures e in Flatten(rs, n) <==> exists r :: 0 <= r < n && e in rs[r]
  {
    if n > 0 {
      InFlatten(rs, n - 1, e);
    }
  }

  /** Exactly the differences of the rows that are not withheld are reported. */
  lemma {:induction false} ReportedDifferences(
      withheld: seq<bool>, prev: seq<Row>, cur: seq<Row>, cols: nat, e: KeyChange)
    requires |cur| == |withheld| && IsMatrix(prev, |cur|, cols) && IsMatrix(cur, |cur|, cols)
    ensures e in ScanChanges(withheld, prev, cur, cols) <==>
      var r := e.key.row;
      r < |cur| && !withheld[r] && Differs(prev[r], cur[r], cols, e.key.col, e.pressed)
  {
    var rs := RowReports(withheld, prev, cur, cols);
    InFlatten(rs, |cur|, e);
    forall r | 0 <= r < |cur|
      ensures e in rs[r] <==> !withheld[r] && e.key.row == r && Differs(prev[r], cur[r], cols, e.key.col, e.pressed)
    {
      RowDifferences(r, prev[r], cur[r], cols, e);
    }
  }

  lemma {:induction false} RowDifferences(row: nat, prev: Row, cur: Row, n: nat, e: KeyChange)
    requires n <= |prev| && n <= |cur|
    ensures e in RowChanges(row, prev, cur, n) <==> e.key.row == row && Differs(prev, cur, n, e.key.col, e.pressed)
  {
    if n > 0 {
      RowDifferences(row, prev, cur, n - 1, e);
    }
  }

  /** Within a scan no key is reported twice. */
  predicate EachKeyOnce(cs: seq<KeyChange>) {
    forall i, j :: 0 <= i < j < |cs| ==> cs[i].key != cs[j].key
  }

  lemma {:induction false} OnceConcat(a: seq<KeyChange>, b: seq<KeyChange>)
    requires EachKeyOnce(a) && EachKeyOnce(b)
    requires forall x, y :: x in a && y in b ==> x.key != y.key
    ensures EachKeyOnce(a + b)
  {
    forall i, j | 0 <= i < j < |a + b|
      ensures (a + b)[i].key != (a + b)[j].key
    {
      if i < |a| <= j {
        assert a[i] in a && b[j - |a|] in b;
      }
    }
  }

  lemma {:induction false} RowReportsOnce(row: nat, prev: Row, cur: Row, n: nat)
    requires n <= |prev| && n <= |cur|
    ensures EachKeyOnce(RowChanges(row, prev, cur, n))
  {
    if n > 0 {
      RowReportsOnce(row, prev, cur, n - 1);
      var a := RowChanges(row, prev, cur, n - 1);
      forall x | x in a
        ensures x.key.col < n - 1
      {
        RowDifferences(row, prev, cur, n - 1, x);
      }
      OnceConcat(a, if prev[n - 1] != cur[n - 1] then [KeyChange(KeyPos(row, n - 1), cur[n - 1])] else []);
    }
  }

  lemma {:induction false} FlattenOnce(rs: seq<seq<KeyChange>>, n: nat)
    requires n <= |rs| && forall r :: 0 <= r < |rs| ==> EachKeyOnce(rs[r])
    requires forall r, x :: 0 <= r < |rs| && x in rs[r] ==> x.key.row == r
    ensures EachKeyOnce(Flatten(rs, n))
  {
    if n > 0 {
      FlattenOnce(rs, n - 1);
      var a := Flatten(rs, n - 1);
      forall x | x in a
        ensures x.key.row < n - 1
      {
        InFlatten(rs, n - 1, x);
      }
      OnceConcat(a, rs[n - 1]);
    }
  }

  lemma {:induction false} ScanReportsOnce(withheld: seq<bool>, prev: seq<Row>, cur: seq<Row>, cols: nat)
    requires |cur| == |withheld| && IsMatrix(prev, |cur|, cols) && IsMatrix(cur, |cur|, cols)
    ensures EachKeyOnce(ScanChanges(withheld, prev, cur, cols))
  {
    var rs := RowReports(withheld, prev, cur, cols);
    forall r | 0 <= r < |rs|
      ensures EachKeyOnce(rs[r]) && forall x: KeyChange :: x in rs[r] ==> x.key.row == r
    {
      RowReportsOnce(r, prev[r], cur[r], cols);
      forall x: KeyChange | x in rs[r]
        ensures x.key.row == r
      {
        RowDifferences(r, prev[r], cur[r], cols, x);
      }
    }
    FlattenOnce(rs, |cur|);
  }

  /** Row by row, and column by column within a row. */
  predicate ComesBefore(a: KeyPos, b: KeyPos) { a.row < b.row || (a.row == b.row && a.col < b.col) }

  predicate InKeyOrder(cs: seq<KeyChange>) {
    forall i, j :: 0 <= i < j < |cs| ==> ComesBefore(cs[i].key, cs[j].key)
  }

  lemma {:induction false} OrderConcat(a: seq<KeyChange>, b: seq<KeyChange>)
    requires InKeyOrder(a) && InKeyOrder(b)
    requires forall x, y :: x in a && y in b ==> ComesBefore(x.key, y.key)
    ensures InKeyOrder(a + b)
  {
    forall i, j | 0 <= i < j < |a + b|
      ensures ComesBefore((a + b)[i].key, (a + b)[j].key)
    {
      if i < |a| <= j {
        assert a[i] in a && b[j - |a|] in b;
      }
    }
  }

  lemma {:induction false} RowInOrder(row: nat, prev: Row, cur: Row, n: nat)
    requires n <= |prev| && n <= |cur|
    ensures InKeyOrder(RowChanges(row, prev, cur, n))
  {
    if n > 0 {
      RowInOrder(row, prev, cur, n - 1);
      var a := RowChanges(row, prev, cur, n - 1);
      forall x | x in a
        ensures x.key.row == row && x.key.col < n - 1
      {
        RowDifferences(row, prev, cur, n - 1, x);
      }
      OrderConcat(a, if prev[n - 1] != cur[n - 1] then [KeyChange(KeyPos(row, n - 1), cur[n - 1])] else []);
    }
  }

  lemma {:induction false} FlattenInOrder(rs: seq<seq<KeyChange>>, n: nat)
    requires n <= |rs| && forall r :: 0 <= r < |rs| ==> InKeyOrder(rs[r])
    requires forall r, x :: 0 <= r < |rs| && x in rs[r] ==> x.key.row == r
    ensures InKeyOrder(Flatten(rs, n))
  {
    if n > 0 {
      FlattenInOrder(rs, n - 1);
      var a := Flatten(rs, n - 1);
      forall x | x in a
        ensures x.key.row < n - 1
      {
        InFlatten(rs, n - 1, x);
      }
      OrderConcat(a, rs[n - 1]);
    }
  }

  /** A scan reports its changes row by row, column by column. */
  lemma {:induction false} ScanInOrder(withheld: seq<bool>, prev: seq<Row>, cur: seq<Row>, cols: nat)
    requires |cur| == |withheld| && IsMatrix(prev, |cur|, cols) && IsMatrix(cur, |cur|, cols)
    ensures InKeyOrder(ScanChanges(withheld, prev, cur, cols))
  {
    var rs := RowReports(withheld, prev, cur, cols);
    forall r | 0 <= r < |rs|
      ensures InKeyOrder(rs[r]) && forall x: KeyChange :: x in rs[r] ==> x.key.row == r
    {
      RowInOrder(r, prev[r], cur[r], cols);
      forall x: KeyChange | x in rs[r]
        ensures x.key.row == r
      {
        RowDifferences(r, prev[r], cur[r], cols, x);
      }
    }
    FlattenInOrder(rs, |cur|);
  }

  lemma {:induction false} UnchangedReportsNothing(withheld: seq<bool>, cur: seq<Row>, cols: nat)
    requires |cur| == |withheld| && IsMatrix(cur, |cur|, cols)
    ensures ScanChanges(withheld, cur, cur, cols) == [] && Reported(withheld, cur, cur, cols, |cur|) == cur
  {
    var cs := ScanChanges(withheld, cur, cur, cols);
    if cs != [] {
      ReportedDifferences(withheld, cur, cur, cols, cs[0]);
    }
  }

  // ---------------------------------------------------------------- all scans

  predicate AreScans(scans: seq<seq<Row>>, rows: nat, cols: nat) {
    forall i :: 0 <= i < |scans| ==> IsMatrix(scans[i], rows, cols)
  }

  function NothingPressed(rows: nat, cols: nat): (m: seq<Row>)
    ensures IsMatrix(m, rows, cols) && Pressed(m) == {}
  {
    seq(rows, _ => seq(cols, _ => false))
  }

  /** What counts as reported after all scans. */
  function AfterScans(isKey: RealKey, scans: seq<seq<Row>>, rows: nat, cols: nat): (m: seq<Row>)
    requires AreScans(scans, rows, cols)
    ensures IsMatrix(m, rows, cols)
  {
    if scans == [] then NothingPressed(rows, cols)
    else
      var cur := scans[|scans| - 1];
      Reported(Withheld(isKey, cur, cols), AfterScans(isKey, scans[..|scans| - 1], rows, cols), cur, cols, rows)
  }

  /** All changes reported over the scans. */
  function AllChanges(isKey: RealKey, scans: seq<seq<Row>>, rows: nat, cols: nat): seq<KeyChange>
    requires AreScans(scans, rows, cols)
  {
    if scans == [] then []
    else
      var before, cur := scans[..|scans| - 1], scans[|scans| - 1];
      AllChanges(isKey, before, rows, cols)
      + ScanChanges(Withheld(isKey, cur, cols), AfterScans(isKey, before, rows, cols), cur, cols)
  }

  /**
   * The event stream: over every sequence of scans the reported changes alternate
   * per key, starting with a press, and replay to exactly the matrix last reported.
   */
  lemma {:induction false} EventStream(isKey: RealKey, scans: seq<seq<Row>>, rows: nat, cols: nat)
    requires AreScans(scans, rows, cols)
    ensures var cs := AllChanges(isKey, scans, rows, cols);
      Alternating({}, cs) && Replay({}, cs) == Pressed(AfterScans(isKey, scans, rows, cols))
  {
    if scans != [] {
      var before, cur := scans[..|scans| - 1], scans[|scans| - 1];
      EventStream(isKey, before, rows, cols);
      var prev := AfterScans(isKey, before, rows, cols);
      var withheld := Withheld(isKey, cur, cols);
      ScanReplay(withheld, prev, cur, cols);
      ReplayConcat({}, AllChanges(isKey, before, rows, cols), ScanChanges(withheld, prev, cur, cols));
    }
  }

  /** The key events for changes, each stamped when it is made. */
  function EventsOf(changes: seq<KeyChange>, clock: KeyPos -> Time16): (es: seq<Event>)
    ensures |es| == |changes|
    ensures forall i :: 0 <= i < |es| ==>
      es[i] == Event(changes[i].key, clock(changes[i].key), KeyEvent, changes[i].pressed)
  {
    seq(|changes|, i requires 0 <= i < |changes| =>
      Event(changes[i].key, clock(changes[i].key), KeyEvent, changes[i].pressed))
  }

  /** A tick, unless the millisecond is still that of the last one. */
  function TicksAt(last: Time16, now: Time16): seq<Event> {
    if now == last then [] else [Event(KeyPos(0, 0), now, TickEvent, false)]
  }

  // ---------------------------------------------------------------- rounds of the main loop

  /** What the scanner remembers: the matrix last reported, and when it last gave a tick. */
  datatype Seen = Seen(matrix: seq<Row>, lastTick: Time16)

  /**
   * One round of the main loop: what a scan finds, if the matrix can be read, whether
   * key presses are processed here, and what the clock says.
   */
  datatype Round = Round(canRead: bool, cur: seq<Row>, processes: bool, now: Time16, clock: KeyPos -> Time16)

  predicate IsChanged(s: Seen, r: Round) { r.canRead && s.matrix != r.cur }

  function RoundChanges(isKey: RealKey, s: Seen, r: Round, cols: nat): seq<KeyChange>
    requires IsMatrix(s.matrix, |r.cur|, cols) && IsMatrix(r.cur, |r.cur|, cols)
  {
    if r.canRead then ScanChanges(Withheld(isKey, r.cur, cols), s.matrix, r.cur, cols) else []
  }

  /**
   * The events of a round.  Without a change that is at most a tick; with one it is
   * the events of the reported changes, unless key presses are not processed here.
   */
  function RoundEvents(isKey: RealKey, s: Seen, r: Round, cols: nat): seq<Event>
    requires IsMatrix(s.matrix, |r.cur|, cols) && IsMatrix(r.cur, |r.cur|, cols)
  {
    if !IsChanged(s, r) then TicksAt(s.lastTick, r.now)
    else if r.processes then EventsOf(RoundChanges(isKey, s, r, cols), r.clock)
    else []
  }

  function AfterRound(isKey: RealKey, s: Seen, r: Round, cols: nat): (s': Seen)
    requires IsMatrix(s.matrix, |r.cur|, cols) && IsMatrix(r.cur, |r.cur|, cols)
    ensures IsMatrix(s'.matrix, |r.cur|, cols)
  {
    Seen(if r.canRead then Reported(Withheld(isKey, r.cur, cols), s.matrix, r.cur, cols, |r.cur|) else s.matrix,
         if IsChanged(s, r) then s.lastTick else r.now)
  }

  predicate AreRounds(rounds: seq<Round>, rows: nat, cols: nat) {
    forall i :: 0 <= i < |rounds| ==> IsMatrix(rounds[i].cur, rows, cols)
  }

  function AfterRounds(isKey: RealKey, s: Seen, rounds: seq<Round>, rows: nat, cols: nat): (s': Seen)
    requires IsMatrix(s.matrix, rows, cols) && AreRounds(rounds, rows, cols)
    ensures IsMatrix(s'.matrix, rows, cols)
  {
    if rounds == [] then s
    else AfterRound(isKey, AfterRounds(isKey, s, rounds[..|rounds| - 1], rows, cols), rounds[|rounds| - 1], cols)
  }

  /** All events of the rounds. */
  function LoopEvents(isKey: RealKey, s: Seen, rounds: seq<Round>, rows: nat, cols: nat): seq<Event>
    requires IsMatrix(s.matrix, rows, cols) && AreRounds(rounds, rows, cols)
  {
    if rounds == [] then []
    else
      var before := rounds[..|rounds| - 1];
      LoopEvents(isKey, s, before, rows, cols)
      + RoundEvents(isKey, AfterRounds(isKey, s, before, rows, cols), rounds[|rounds| - 1], cols)
  }

  /** The scans of the rounds in which the matrix was read. */
  function ScansOf(rounds: seq<Round>, rows: nat, cols: nat): (scans: seq<seq<Row>>)
    requires AreRounds(rounds, rows, cols)
    ensures AreScans(scans, rows, cols)
  {
    if rounds == [] then []
    else
      var r := rounds[|rounds| - 1];
      ScansOf(rounds[..|rounds| - 1], rows, cols) + (if r.canRead then [r.cur] else [])
  }

  lemma {:induction false} RoundsAreScans(isKey: RealKey, rounds: seq<Round>, rows: nat, cols: nat)
    requires AreRounds(rounds, rows, cols)
    ensures AfterRounds(isKey, Seen(NothingPressed(rows, cols), 0), rounds, rows, cols).matrix
            == AfterScans(isKey, ScansOf(rounds, rows, cols), rows, cols)
  {
    if rounds != [] {
      var before, r := rounds[..|rounds| - 1], rounds[|rounds| - 1];
      RoundsAreScans(isKey, before, rows, cols);
      var scans := ScansOf(before, rows, cols);
      if r.canRead {
        assert (scans + [r.cur])[..|scans|] == scans;
      } else {
        assert scans + [] == scans;
      }
    }
  }

  // ---------------------------------------------------------------- what a round executes, and when

  /** An event of a change, with the time the clock gave for it in this round. */
  predicate IsEventOf(e: Event, c: KeyChange, r: Round) {
    e.kind == KeyEvent && e.key == c.key && e.pressed == c.pressed && e.time == r.clock(c.key)
  }

  /**
   * A round with changes executes their events one for one, each at its time, or none
   * if keys are not processed here.  A round without executes exactly one tick, at
   * its time, if and only if the millisecond moved on since the last.
   */
  lemma {:induction false} RoundExactly(isKey: RealKey, s: Seen, r: Round, cols: nat)
    requires IsMatrix(s.matrix, |r.cur|, cols) && IsMatrix(r.cur, |r.cur|, cols)
    ensures var es, cs := RoundEvents(isKey, s, r, cols), RoundChanges(isKey, s, r, cols);
      if r.canRead && s.matrix != r.cur then
        if r.processes then |es| == |cs| && forall i :: 0 <= i < |es| ==> IsEventOf(es[i], cs[i], r)
        else es == []
      else if r.now == s.lastTick then es == []
      else |es| == 1 && es[0].kind == TickEvent && !es[0].pressed && es[0].time == r.now
  {
  }

  /** The time of the last tick among the events, or `t` if there is none. */
  function LastTickTime(t: Time16, es: seq<Event>): Time16 {
    if es == [] then t
    else if es[|es| - 1].IsTick() then es[|es| - 1].time
    else LastTickTime(t, es[..|es| - 1])
  }

  lemma {:induction false} LastTickConcat(t: Time16, a: seq<Event>, b: seq<Event>)
    ensures LastTickTime(t, a + b) == LastTickTime(LastTickTime(t, a), b)
  {
    if b == [] {
      assert a + b == a;
    } else {
      assert (a + b)[..|a + b| - 1] == a + b[..|b| - 1];
      LastTickConcat(t, a, b[..|b| - 1]);
    }
  }

  lemma {:induction false} NoTicksAmong(t: Time16, es: seq<Event>)
    requires forall i :: 0 <= i < |es| ==> !es[i].IsTick()
    ensures LastTickTime(t, es) == t
  {
    if es != [] {
      NoTicksAmong(t, es[..|es| - 1]);
    }
  }

  lemma {:induction false} RoundLastTick(isKey: RealKey, s: Seen, r: Round, cols: nat)
    requires IsMatrix(s.matrix, |r.cur|, cols) && IsMatrix(r.cur, |r.cur|, cols)
    ensures AfterRound(isKey, s, r, cols).lastTick == LastTickTime(s.lastTick, RoundEvents(isKey, s, r, cols))
  {
    var es := RoundEvents(isKey, s, r, cols);
    RoundExactly(isKey, s, r, cols);
    if IsChanged(s, r) {
      NoTicksAmong(s.lastTick, es);
    } else if es != [] {
      assert es == [es[0]];
    }
  }

  /**
   * Over all rounds: what is remembered as the last tick is the time of the last tick
   * executed, so a round without a change executes one if and only if its millisecond
   * is another than that.
   */
  lemma {:induction false} LoopLastTick(isKey: RealKey, s: Seen, rounds: seq<Round>, rows: nat, cols: nat)
    requires IsMatrix(s.matrix, rows, cols) && AreRounds(rounds, rows, cols)
    ensures AfterRounds(isKey, s, rounds, rows, cols).lastTick
            == LastTickTime(s.lastTick, LoopEvents(isKey, s, rounds, rows, cols))
  {
    if rounds != [] {
      var before := rounds[..|rounds| - 1];
      LoopLastTick(isKey, s, before, rows, cols);
      var seen := AfterRounds(isKey, s, before, rows, cols);
      RoundLastTick(isKey, seen, rounds[|rounds| - 1], cols);
      LastTickConcat(s.lastTick, LoopEvents(isKey, s, before, rows, cols),
                     RoundEvents(isKey, seen, rounds[|rounds| - 1], cols));
    }
  }

  /** The event comes from the i-th round, with that round's time. */
  predicate ComesFrom(isKey: RealKey, s: Seen, rounds: seq<Round>, rows: nat, cols: nat, e: Event, i: nat)
    requires IsMatrix(s.matrix, rows, cols) && AreRounds(rounds, rows, cols) && i < |rounds|
  {
    var seen := AfterRounds(isKey, s, rounds[..i], rows, cols);
    if e.IsTick() then e.time == rounds[i].now && !IsChanged(seen, rounds[i])
    else
      && KeyChange(e.key, e.pressed) in RoundChanges(isKey, seen, rounds[i], cols)
      && e.time == rounds[i].clock(e.key) && rounds[i].processes
  }

  lemma {:induction false} InRound(isKey: RealKey, s: Seen, r: Round, cols: nat, e: Event)
    requires IsMatrix(s.matrix, |r.cur|, cols) && IsMatrix(r.cur, |r.cur|, cols) && e in RoundEvents(isKey, s, r, cols)
    ensures e.IsTick() ==> e.time == r.now && !IsChanged(s, r)
    ensures !e.IsTick() ==>
      KeyChange(e.key, e.pressed) in RoundChanges(isKey, s, r, cols) && e.time == r.clock(e.key) && r.processes
  {
    var es, cs := RoundEvents(isKey, s, r, cols), RoundChanges(isKey, s, r, cols);
    RoundExactly(isKey, s, r, cols);
    var j :| 0 <= j < |es| && es[j] == e;
    if IsChanged(s, r) {
      assert IsEventOf(es[j], cs[j], r);
      assert KeyChange(e.key, e.pressed) == cs[j];
    }
  }

  /** Every event that is executed carries the time of a round that it comes from. */
  lemma {:induction false} LoopTimes(isKey: RealKey, s: Seen, rounds: seq<Round>, rows: nat, cols: nat, e: Event)
    requires IsMatrix(s.matrix, rows, cols) && AreRounds(rounds, rows, cols)
    requires e in LoopEvents(isKey, s, rounds, rows, cols)
    ensures exists i :: 0 <= i < |rounds| && ComesFrom(isKey, s, rounds, rows, cols, e, i)
  {
    var n := |rounds| - 1;
    var before := rounds[..n];
    if e in LoopEvents(isKey, s, before, rows, cols) {
      LoopTimes(isKey, s, before, rows, cols, e);
      var i :| 0 <= i < n && ComesFrom(isKey, s, before, rows, cols, e, i);
      assert before[..i] == rounds[..i];
      assert ComesFrom(isKey, s, rounds, rows, cols, e, i);
    } else {
      InRound(isKey, AfterRounds(isKey, s, before, rows, cols), rounds[n], cols, e);
      assert ComesFrom(isKey, s, rounds, rows, cols, e, n);
    }
  }

  // ---------------------------------------------------------------- rows that stay withheld

  /** Everything but withheld rows is as last reported. */
  predicate Settled(isKey: RealKey, matrix: seq<Row>, cur: seq<Row>, cols: nat)
    requires IsMatrix(matrix, |cur|, cols) && IsMatrix(cur, |cur|, cols)
  {
    forall r :: 0 <= r < |cur| && !HasGhost(isKey, cur, r) ==> matrix[r] == cur[r]
  }

  /** A row that may show ghosts differs from what was reported. */
  predicate HoldsBack(isKey: RealKey, matrix: seq<Row>, cur: seq<Row>, cols: nat)
    requires IsMatrix(matrix, |cur|, cols) && IsMatrix(cur, |cur|, cols)
  {
    exists r :: 0 <= r < |cur| && HasGhost(isKey, cur, r) && matrix[r] != cur[r]
  }

  /** A scan settles, and has something held back exactly when a withheld row differed. */
  lemma {:induction false} ScanSettles(isKey: RealKey, s: Seen, r: Round, cols: nat)
    requires IsMatrix(s.matrix, |r.cur|, cols) && IsMatrix(r.cur, |r.cur|, cols) && r.canRead
    ensures var s' := AfterRound(isKey, s, r, cols);
      && Settled(isKey, s'.matrix, r.cur, cols)
      && (HoldsBack(isKey, s'.matrix, r.cur, cols) <==> HoldsBack(isKey, s.matrix, r.cur, cols))
  {
    var s' := AfterRound(isKey, s, r, cols);
    assert forall i :: 0 <= i < |r.cur| && HasGhost(isKey, r.cur, i) ==> s'.matrix[i] == s.matrix[i];
  }

  /**
   * A settled matrix that is scanned again reports nothing, and gives ticks if and
   * only if nothing is held back.
   */
  lemma {:induction false} SteadyRound(isKey: RealKey, s: Seen, r: Round, cols: nat)
    requires IsMatrix(s.matrix, |r.cur|, cols) && IsMatrix(r.cur, |r.cur|, cols) && r.canRead
    requires Settled(isKey, s.matrix, r.cur, cols)
    ensures AfterRound(isKey, s, r, cols).matrix == s.matrix
    ensures RoundEvents(isKey, s, r, cols)
            == if HoldsBack(isKey, s.matrix, r.cur, cols) then [] else TicksAt(s.lastTick, r.now)
    ensures HoldsBack(isKey, s.matrix, r.cur, cols) ==> AfterRound(isKey, s, r, cols) == s
  {
    var w := Withheld(isKey, r.cur, cols);
    var cs := RoundChanges(isKey, s, r, cols);
    if cs != [] {
      ReportedDifferences(w, s.matrix, r.cur, cols, cs[0]);
    }
    if !HoldsBack(isKey, s.matrix, r.cur, cols) {
      assert s.matrix == r.cur;
    }
  }

  /**
   * While a row is held back and the matrix stays as it is, the main loop executes no
   * event at all, not even a tick, however many rounds it goes and whatever the time.
   */
  lemma {:induction false} HeldBackStopsTicks(isKey: RealKey, s: Seen, rounds: seq<Round>, cur: seq<Row>, cols: nat)
    requires IsMatrix(s.matrix, |cur|, cols) && IsMatrix(cur, |cur|, cols) && AreRounds(rounds, |cur|, cols)
    requires forall i :: 0 <= i < |rounds| ==> rounds[i].canRead && rounds[i].cur == cur
    requires Settled(isKey, s.matrix, cur, cols) && HoldsBack(isKey, s.matrix, cur, cols)
    ensures AfterRounds(isKey, s, rounds, |cur|, cols) == s && LoopEvents(isKey, s, rounds, |cur|, cols) == []
  {
    if rounds != [] {
      HeldBackStopsTicks(isKey, s, rounds[..|rounds| - 1], cur, cols);
      SteadyRound(isKey, s, rounds[|rounds| - 1], cols);
    }
  }

  /** It happens when the fourth corner of a rectangle is pressed. */
  lemma {:induction false} FourthCorner(isKey: RealKey, reported: seq<Row>, cur: seq<Row>)
    requires isKey == (key => true) && cur == [[true, true], [true, true]] && reported == [[true, true], [true, false]]
    ensures Settled(isKey, reported, cur, 2) && HoldsBack(isKey, reported, cur, 2)
  {
    assert Corner(isKey, cur, 0, 0) && Corner(isKey, cur, 0, 1) && Corner(isKey, cur, 1, 0) && Corner(isKey, cur, 1, 1);
    GhostMeansRectangle(isKey, cur, 0);
    GhostMeansRectangle(isKey, cur, 1);
    assert reported[1][1] != cur[1][1];
  }

  // ---------------------------------------------------------------- the scanner

  class Scanner {
    const rows: nat
    const cols: nat
    const isKey: RealKey
    const previous: array<Row>
    var lastTick: Time16

    ghost predicate Valid()
      reads previous
    {
      previous.Length == rows && IsMatrix(previous[..], rows, cols)
    }

    function Sees(): Seen
      reads this, previous
    {
      Seen(previous[..], lastTick)
    }

    constructor (rows: nat, cols: nat, isKey: RealKey)
      ensures this.rows == rows && this.cols == cols && this.isKey == isKey
      ensures Valid() && fresh(previous) && previous[..] == NothingPressed(rows, cols) && lastTick == 0
    {
      this.rows, this.cols, this.isKey, lastTick := rows, cols, isKey, 0;
      previous := new Row[rows](_ => seq(cols, _ => false));
      new;
      assert previous[..] == NothingPressed(rows, cols);
    }

    method GetRealKeys(row: nat, rowdata: Row) returns (out: Row)
      ensures out == RealKeys(isKey, row, rowdata)
    {
      out := [];
      for col := 0 to |rowdata|
        invariant |out| == col
        invariant forall c :: 0 <= c < col ==> (out[c] <==> rowdata[c] && isKey(KeyPos(row, c)))
      {
        out := out + [isKey(KeyPos(row, col)) && rowdata[col]];
      }
    }

    method HasGhostInRow(cur: seq<Row>, row: nat) returns (ghostly: bool)
      requires IsMatrix(cur, rows, cols) && row < rows
      ensures ghostly == HasGhost(isKey, cur, row)
    {
      var own := GetRealKeys(row, cur[row]);
      if !MoreThanOne(WordOf(own)) {
        return false;
      }
      for i := 0 to rows
        invariant forall k :: 0 <= k < i && k != row ==> !SharesTwo(isKey, cur, row, k)
      {
        if i != row {
          var other := GetRealKeys(i, cur[i]);
          if MoreThanOne(WordOf(Both(other, own))) {
            assert SharesTwo(isKey, cur, row, i);
            return true;
          }
        }
      }
      return false;
    }

    /** Reports the changes of one row, column by column. */
    method ReportRow(row: nat, prev: Row, cur: Row) returns (changes: seq<KeyChange>)
      requires |prev| == |cur|
      ensures changes == RowChanges(row, prev, cur, |cur|)
    {
      changes := [];
      for col := 0 to |cur|
        invariant changes == RowChanges(row, prev, cur, col)
      {
        if prev[col] != cur[col] {
          changes := changes + [KeyChange(KeyPos(row, col), cur[col])];
        }
      }
    }

    /** Whether any row differs from what was reported. */
    method AnyChange(cur: seq<Row>) returns (changed: bool)
      requires Valid() && IsMatrix(cur, rows, cols)
      ensures changed <==> previous[..] != cur
    {
      changed := false;
      var row := 0;
      while row < rows && !changed
        invariant 0 <= row <= rows
        invariant changed ==> previous[..] != cur
        invariant !changed ==> forall r :: 0 <= r < row ==> previous[r] == cur[r]
      {
        changed := previous[row] != cur[row];
        row := row + 1;
      }
    }

    /** At most one tick a millisecond. */
    method GenerateTickEvent(now: Time16) returns (events: seq<Event>)
      modifies this`lastTick
      ensures events == TicksAt(old(lastTick), now) && lastTick == now
    {
      events := [];
      if TimerDiff16(now, lastTick) != 0 {
        events := [Event(KeyPos(0, 0), now, TickEvent, false)];
        lastTick := now;
      }
    }

    /**
     * One round of the main loop: the changes a scan reports, and the events that are
     * executed.
     */
    method MatrixTask(r: Round) returns (changed: bool, changes: seq<KeyChange>, events: seq<Event>)
      requires Valid() && IsMatrix(r.cur, rows, cols)
      modifies previous, this`lastTick
      ensures Valid() && Sees() == AfterRound(isKey, old(Sees()), r, cols)
      ensures changed <==> IsChanged(old(Sees()), r)
      ensures changes == RoundChanges(isKey, old(Sees()), r, cols)
      ensures events == RoundEvents(isKey, old(Sees()), r, cols)
    {
      changed, changes, events := false, [], [];
      if r.canRead {
        changed := AnyChange(r.cur);
      }
      if changed {
        changes := ReportRows(r.cur, Withheld(isKey, r.cur, cols));
        if r.processes {
          events := EventsOf(changes, r.clock);
        }
      } else {
        events := GenerateTickEvent(r.now);
        UnchangedReportsNothing(Withheld(isKey, r.cur, cols), r.cur, cols);
      }
    }

    /** The rows of a scan, one after another. */
    method ReportRows(cur: seq<Row>, ghost w: seq<bool>) returns (changes: seq<KeyChange>)
      requires Valid() && IsMatrix(cur, rows, cols) && w == Withheld(isKey, cur, cols)
      modifies previous
      ensures Valid() && changes == ScanChanges(w, old(previous[..]), cur, cols)
      ensures previous[..] == Reported(w, old(previous[..]), cur, cols, rows)
    {
      ghost var prev := previous[..];
      ghost var rs := RowReports(w, prev, cur, cols);
      changes := [];
      assert previous[..] == Reported(w, prev, cur, cols, 0);
      for row := 0 to rows
        invariant Valid() && changes == Flatten(rs, row)
        invariant previous[..] == Reported(w, prev, cur, cols, row)
      {
        var reported := TaskRow(cur, row, w, prev, rs);
        FlattenStep(rs, row);
        changes := changes + reported;
      }
    }

    /** One row of a scan: reported unless it is unchanged or shows ghosts. */
    method TaskRow(cur: seq<Row>, row: nat, ghost w: seq<bool>, ghost prev: seq<Row>, ghost rs: seq<seq<KeyChange>>)
      returns (changes: seq<KeyChange>)
      requires Valid() && IsMatrix(cur, rows, cols) && IsMatrix(prev, rows, cols) && row < rows
      requires w == Withheld(isKey, cur, cols) && rs == RowReports(w, prev, cur, cols)
      requires previous[..] == Reported(w, prev, cur, cols, row)
      modifies previous
      ensures Valid() && changes == rs[row]
      ensures previous[..] == Reported(w, prev, cur, cols, row + 1)
    {
      ReportedStep(w, prev, cur, cols, row);
      changes := [];
      if cur[row] == previous[row] {
        RowUnchanged(row, cur[row], cols);
        return;
      }
      var ghostly := HasGhostInRow(cur, row);
      if ghostly {
        return;
      }
      changes := ReportRow(row, previous[row], cur[row]);
      previous[row] := cur[row];
    }
  }

  lemma {:induction false} RowUnchanged(row: nat, cur: Row, n: nat)
    requires n <= |cur|
    ensures RowChanges(row, cur, cur, n) == []
  {
    if n > 0 {
      RowUnchanged(row, cur, n - 1);
    }
  }

  lemma {:induction false} ReportedStep(withheld: seq<bool>, prev: seq<Row>, cur: seq<Row>, cols: nat, r: nat)
    requires r < |cur| == |withheld| && IsMatrix(prev, |cur|, cols) && IsMatrix(cur, |cur|, cols)
    ensures var mid := Reported(withheld, prev, cur, cols, r);
      mid[r] == prev[r]
      && Reported(withheld, prev, cur, cols, r + 1) == if withheld[r] then mid else mid[r := cur[r]]
  {
  }
}
