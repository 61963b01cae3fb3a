/** Clue derivation: the run-length encoding of the filled cells of each row
    and each column of a grid. A line with no filled cell has the clue [0]. */
module Clues {
  import opened Grids

  /** The number of consecutive filled cells at the end of s. */
  function TrailingFilled(s: seq<int>): (k: nat)
    ensures k <= |s|
  {
    if s == [] || s[|s| - 1] != 1 then 0 else TrailingFilled(s[..|s| - 1]) + 1
  }

  /** TrailingFilled(s) is the length of the longest all-filled suffix of s. */
  lemma {:induction false} TrailingFilledMaximal(s: seq<int>)
    ensures forall t :: |s| - TrailingFilled(s) <= t < |s| ==> s[t] == 1
    ensures TrailingFilled(s) < |s| ==> s[|s| - 1 - TrailingFilled(s)] != 1
    decreases |s|
  {
    if s != [] && s[|s| - 1] == 1 {
      var init := s[..|s| - 1];
      TrailingFilledMaximal(init);
      assert forall t :: 0 <= t < |init| ==> init[t] == s[t];
    }
  }

  /** The lengths of the maximal runs of filled cells of s, left to right.
      Defined from the end: the last maximal run, after the runs of what
      precedes it. */
  function Runs(s: seq<int>): seq<int>
    decreases |s|
  {
    if s == [] then []
    else if s[|s| - 1] != 1 then Runs(s[..|s| - 1])
    else Runs(s[..|s| - TrailingFilled(s)]) + [TrailingFilled(s)]
  }

  /** The clue of a line: its runs, or the sentinel [0] when it has none. */
  function Clue(s: seq<int>): seq<int> {
    var r := Runs(s);
    if r == [] then [0] else r
  }

  function Sum(s: seq<int>): int {
    if s == [] then 0 else Sum(s[..|s| - 1]) + s[|s| - 1]
  }

  /** The number of filled cells of a line. */
  function CountFilled(s: seq<int>): nat {
    if s == [] then 0 else CountFilled(s[..|s| - 1]) + (if s[|s| - 1] == 1 then 1 else 0)
  }

  /** No cell of s is filled. */
  predicate Empty(s: seq<int>) {
    forall t :: 0 <= t < |s| ==> s[t] != 1
  }

  /** The clue of one line (calculate_restrictions): one pass that counts the
      current run and closes it at the next unfilled cell or at the end. */
  method CalculateRestrictions(line: seq<int>) returns (res: seq<int>)
    ensures res == Clue(line)
  {
    res := [];
    var count := 0;
    for i := 0 to |line|
      invariant count == TrailingFilled(line[..i])
      invariant Runs(line[..i]) == res + (if count > 0 then [count] else [])
    {
      RunsSnoc(line[..i], line[i]);
      assert line[..i + 1] == line[..i] + [line[i]];
      if line[i] == 1 {
        count := count + 1;
      } else if count > 0 {
        res := res + [count];
        count := 0;
      }
    }
    assert line[..|line|] == line;
    if count > 0 {
      res := res + [count];
    }
    if res == [] {
      res := [0];
    }
  }

  lemma PrefixOfSnoc(p: seq<int>, x: int, n: nat)
    requires n <= |p|
    ensures (p + [x])[..n] == p[..n]
  {
  }

  lemma TrailingFilledSnoc(p: seq<int>, x: int)
    ensures TrailingFilled(p + [x]) == if x == 1 then TrailingFilled(p) + 1 else 0
  {
    PrefixOfSnoc(p, x, |p|);
    assert p[..|p|] == p;
  }

  lemma RunsSnocEmpty(p: seq<int>, x: int)
    requires x != 1
    ensures Runs(p + [x]) == Runs(p)
  {
    PrefixOfSnoc(p, x, |p|);
    assert p[..|p|] == p;
  }

  lemma RunsLastFilled(s: seq<int>)
    requires s != [] && s[|s| - 1] == 1
    ensures Runs(s) == Runs(s[..|s| - TrailingFilled(s)]) + [TrailingFilled(s)]
  {
  }

  lemma RunsSnocFilled(p: seq<int>)
    ensures Runs(p + [1]) == Runs(p[..|p| - TrailingFilled(p)]) + [TrailingFilled(p) + 1]
  {
    RunsLastFilled(p + [1]);
    TrailingFilledSnoc(p, 1);
    PrefixOfSnoc(p, 1, |p| - TrailingFilled(p));
  }

  /** How the runs change when one cell is added at the end of a line. */
  lemma RunsSnoc(p: seq<int>, x: int)
    ensures TrailingFilled(p + [x]) == if x == 1 then TrailingFilled(p) + 1 else 0
    ensures x != 1 ==> Runs(p + [x]) == Runs(p)
    ensures x == 1 && TrailingFilled(p) == 0 ==> Runs(p + [x]) == Runs(p) + [1]
    ensures x == 1 && TrailingFilled(p) > 0 ==>
      Runs(p + [x]) == Runs(p)[..|Runs(p)| - 1] + [TrailingFilled(p) + 1]
  {
    TrailingFilledSnoc(p, x);
    if x == 1 {
      RunsSnocFilled(p);
      if TrailingFilled(p) == 0 {
        assert p[..|p| - 0] == p;
      }
    } else {
      RunsSnocEmpty(p, x);
    }
  }

  /** Every run is at least one cell long and at most the line long. */
  lemma {:induction false} RunsPositive(s: seq<int>)
    ensures forall t :: 0 <= t < |Runs(s)| ==> 1 <= Runs(s)[t] <= |s|
    decreases |s|
  {
    if s == [] {
    } else if s[|s| - 1] != 1 {
      RunsPositive(s[..|s| - 1]);
    } else {
      RunsPositive(s[..|s| - TrailingFilled(s)]);
    }
  }

  /** A line has no runs exactly when none of its cells is filled. */
  lemma {:induction false} RunsEmptyIff(s: seq<int>)
    ensures Runs(s) == [] <==> Empty(s)
    decreases |s|
  {
    if s == [] {
    } else if s[|s| - 1] != 1 {
      RunsEmptyIff(s[..|s| - 1]);
      if Empty(s[..|s| - 1]) {
        forall t | 0 <= t < |s| ensures s[t] != 1 {
          if t < |s| - 1 { assert s[t] == s[..|s| - 1][t]; }
        }
      }
    } else {
      assert !Empty(s);
    }
  }

  lemma {:induction false} CountFilledAppend(a: seq<int>, b: seq<int>)
    ensures CountFilled(a + b) == CountFilled(a) + CountFilled(b)
    decreases |b|
  {
    if b == [] {
      assert a + b == a;
    } else {
      assert (a + b)[..|a + b| - 1] == a + b[..|b| - 1];
      CountFilledAppend(a, b[..|b| - 1]);
    }
  }

  lemma {:induction false} CountFilledAllOnes(s: seq<int>)
    requires forall t :: 0 <= t < |s| ==> s[t] == 1
    ensures CountFilled(s) == |s|
    decreases |s|
  {
    if s != [] {
      CountFilledAllOnes(s[..|s| - 1]);
    }
  }

  lemma {:induction false} SumSnoc(a: seq<int>, x: int)
    ensures Sum(a + [x]) == Sum(a) + x
  {
    assert (a + [x])[..|a + [x]| - 1] == a;
  }

  /** The runs account for every filled cell of the line. */
  lemma {:induction false} RunsSum(s: seq<int>)
    ensures Sum(Runs(s)) == CountFilled(s)
    decreases |s|
  {
    if s == [] {
    } else if s[|s| - 1] != 1 {
      RunsSum(s[..|s| - 1]);
    } else {
      var k := TrailingFilled(s);
      var p := s[..|s| - k];
      RunsSum(p);
      SumSnoc(Runs(p), k);
      TrailingFilledMaximal(s);
      assert s == p + s[|s| - k..];
      CountFilledAppend(p, s[|s| - k..]);
      CountFilledAllOnes(s[|s| - k..]);
    }
  }

  /** Runs separated by the single empty cells they need fit in the line:
      sum + (number of runs) - 1 <= length. */
  lemma {:induction false} RunsFit(s: seq<int>)
    ensures Sum(Runs(s)) + |Runs(s)| <= |s| + 1
    decreases |s|
  {
    if s == [] {
    } else if s[|s| - 1] != 1 {
      RunsFit(s[..|s| - 1]);
    } else {
      var k := TrailingFilled(s);
      var p := s[..|s| - k];
      SumSnoc(Runs(p), k);
      if p != [] {
        // The run is maximal, so the cell before it is not filled.
        TrailingFilledMaximal(s);
        assert p[|p| - 1] == s[|s| - 1 - k];
        RunsFit(p[..|p| - 1]);
      }
    }
  }

  /** What the clue of a line promises: [0] exactly for an empty line,
      otherwise positive values whose total is the number of filled cells,
      and the values with single gaps between them fit in the line. */
  lemma ClueProperties(s: seq<int>)
    ensures Clue(s) == [0] <==> Empty(s)
    ensures !Empty(s) ==> forall t :: 0 <= t < |Clue(s)| ==> Clue(s)[t] >= 1
    ensures !Empty(s) ==> Sum(Clue(s)) == CountFilled(s)
    ensures Sum(Clue(s)) + |Clue(s)| - 1 <= |s|
  {
    RunsEmptyIff(s);
    RunsPositive(s);
    RunsSum(s);
    RunsFit(s);
    if Runs(s) == [] {
      assert Sum([0]) == 0;
    } else {
      assert Runs(s)[0] >= 1;
    }
  }

  // ---------------------------------------------------------------------
  // A reference line for a clue: runs of the given lengths separated by
  // exactly one empty cell (a maximally packed line).

  function Ones(k: nat): (s: seq<int>)
    ensures |s| == k && forall t :: 0 <= t < k ==> s[t] == 1
  {
    seq(k, _ => 1)
  }

  /** The shortest line whose runs are c. */
  function Packed(c: seq<nat>): seq<int> {
    if c == [] then []
    else if |c| == 1 then Ones(c[0])
    else Packed(c[..|c| - 1]) + [0] + Ones(c[|c| - 1])
  }

  lemma {:induction false} TrailingFilledOnes(p: seq<int>, k: nat)
    requires p == [] || p[|p| - 1] != 1
    ensures TrailingFilled(p + Ones(k)) == k
    decreases k
  {
    if k == 0 {
      assert p + Ones(k) == p;
      TrailingFilledMaximal(p);
    } else {
      var q := p + Ones(k);
      assert q[..|q| - 1] == p + Ones(k - 1);
      TrailingFilledOnes(p, k - 1);
    }
  }

  lemma {:induction false} RunsAfterGap(p: seq<int>, k: nat)
    requires k >= 1
    ensures Runs(p + [0] + Ones(k)) == Runs(p) + [k]
  {
    var q := p + [0] + Ones(k);
    TrailingFilledOnes(p + [0], k);
    assert q[|q| - 1] == 1;
    assert q[..|q| - k] == p + [0];
    RunsSnoc(p, 0);
  }

  lemma SingleRun(k: nat)
    requires k >= 1
    ensures Runs(Ones(k)) == [k]
  {
    TrailingFilledOnes([], k);
    assert [] + Ones(k) == Ones(k);
    assert Ones(k)[..|Ones(k)| - k] == [];
  }

  /** A positive clue is the clue of its packed line, and that line has
      room for nothing more: sum + (number of runs) - 1 == length. */
  lemma {:induction false} PackedRoundTrip(c: seq<nat>)
    requires c != [] && forall t :: 0 <= t < |c| ==> c[t] >= 1
    ensures Clue(Packed(c)) == c
    ensures Sum(c) + |c| - 1 == |Packed(c)|
    decreases |c|
  {
    if |c| == 1 {
      SingleRun(c[0]);
      assert c == [] + [c[0]];
      SumSnoc([], c[0]);
    } else {
      var init := c[..|c| - 1];
      PackedRoundTrip(init);
      RunsAfterGap(Packed(init), c[|c| - 1]);
      assert c == init + [c[|c| - 1]];
      SumSnoc(init, c[|c| - 1]);
    }
  }

  // ---------------------------------------------------------------------
  // The clue set of a grid (create_restrictions).

  /** One clue list per row and one per column. */
  datatype ClueSet = ClueSet(rows: seq<seq<int>>, cols: seq<seq<int>>)

  /** The clues of every row, then of every column. */
  function Restrictions(g: Grid): (r: ClueSet)
    requires g.Valid()
    ensures |r.rows| == g.height && |r.cols| == g.width
  {
    ClueSet(seq(g.height, i requires 0 <= i < g.height => Clue(g.Row(i))),
            seq(g.width, j requires 0 <= j < g.width => Clue(g.Column(j))))
  }

  /** Each row clue is the clue of that row and each column clue that of that
      column, and every clue list keeps the promises of ClueProperties. */
  lemma RestrictionsProperties(g: Grid)
    requires g.Valid()
    ensures forall i :: 0 <= i < g.height ==>
      Restrictions(g).rows[i] == Clue(g.cells[i]) &&
      (Restrictions(g).rows[i] == [0] <==> Empty(g.cells[i])) &&
      Sum(Restrictions(g).rows[i]) + |Restrictions(g).rows[i]| - 1 <= g.width
    ensures forall j :: 0 <= j < g.width ==>
      Restrictions(g).cols[j] == Clue(g.Column(j)) &&
      (Restrictions(g).cols[j] == [0] <==> (forall i :: 0 <= i < g.height ==> g.cells[i][j] != 1)) &&
      Sum(Restrictions(g).cols[j]) + |Restrictions(g).cols[j]| - 1 <= g.height
  {
    forall i | 0 <= i < g.height {
      ClueProperties(g.cells[i]);
    }
    forall j | 0 <= j < g.width {
      ClueProperties(g.Column(j));
    }
  }

  /** A fresh all-empty board: every row and every column has the clue [0]
      (for 3 by 3: rows [[0],[0],[0]] and columns [[0],[0],[0]]). */
  lemma ZerosRestrictions(height: nat, width: nat)
    ensures forall i :: 0 <= i < height ==> Restrictions(Zeros(height, width)).rows[i] == [0]
    ensures forall j :: 0 <= j < width ==> Restrictions(Zeros(height, width)).cols[j] == [0]
  {
    var g := Zeros(height, width);
    forall i | 0 <= i < height ensures Clue(g.Row(i)) == [0] {
      RunsEmptyIff(g.Row(i));
    }
    forall j | 0 <= j < width ensures Clue(g.Column(j)) == [0] {
      RunsEmptyIff(g.Column(j));
    }
  }

  /** create_restrictions on the application's board: the clue of every row
      and of every column, computed by CalculateRestrictions. */
  method CreateRestrictions(board: array2<int>) returns (r: ClueSet)
    ensures r == Restrictions(Snapshot(board))
  {
    ghost var g := Snapshot(board);
    var rows: seq<seq<int>> := [];
    for i := 0 to board.Length0
      invariant |rows| == i
      invariant forall k :: 0 <= k < i ==> rows[k] == Clue(g.Row(k))
    {
      var line := seq(board.Length1, j requires 0 <= j < board.Length1 reads board => board[i, j]);
      assert line == g.Row(i);
      var clue := CalculateRestrictions(line);
      rows := rows + [clue];
    }
    var cols: seq<seq<int>> := [];
    for j := 0 to board.Length1
      invariant |cols| == j
      invariant forall k :: 0 <= k < j ==> cols[k] == Clue(g.Column(k))
    {
      var line := seq(board.Length0, i requires 0 <= i < board.Length0 reads board => board[i, j]);
      assert line == g.Column(j);
      var clue := CalculateRestrictions(line);
      cols := cols + [clue];
    }
    r := ClueSet(rows, cols);
  }

  /** The clues of the lines of the worked example below, one at a time. */
  lemma ExampleRow0()
    ensures Clue([1, 1, 0]) == [2]
  {
    assert Ones(2) == [1, 1];
    SingleRun(2);
    RunsSnoc([1, 1], 0);
    assert [1, 1] + [0] == [1, 1, 0];
  }

  lemma ExampleRow1()
    ensures Clue([0, 0, 1]) == [1]
  {
    RunsEmptyIff([0, 0]);
    RunsSnoc([0, 0], 1);
    assert [0, 0] + [1] == [0, 0, 1];
  }

  lemma ExampleColumns()
    ensures Clue([1, 0]) == [1] && Clue([0, 1]) == [1]
  {
    assert Ones(1) == [1];
    SingleRun(1);
    RunsEmptyIff([0]);
    RunsSnoc([1], 0);
    assert [1] + [0] == [1, 0];
    RunsSnoc([0], 1);
    assert [0] + [1] == [0, 1];
  }

  /** The worked example [[1,1,0],[0,0,1]]: rows [[2],[1]], columns [[1],[1],[1]]. */
  lemma ExampleTwoByThree()
    ensures Restrictions(Grid(2, 3, [[1, 1, 0], [0, 0, 1]])) ==
      ClueSet([[2], [1]], [[1], [1], [1]])
  {
    var g := Grid(2, 3, [[1, 1, 0], [0, 0, 1]]);
    ExampleRow0();
    ExampleRow1();
    ExampleColumns();
    assert g.Valid();
    var r := Restrictions(g);
    assert r.rows == [Clue(g.Row(0)), Clue(g.Row(1))];
    assert g.Column(0) == [1, 0];
    assert g.Column(1) == [1, 0];
    assert g.Column(2) == [0, 1];
    assert r.cols == [Clue(g.Column(0)), Clue(g.Column(1)), Clue(g.Column(2))];
  }
}
