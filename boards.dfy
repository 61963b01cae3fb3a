/** The board the user edits in place: toggling one cell, and building the
    partial reveal (a fresh empty board on which one fifth of the filled cells,
    taken in a shuffled order, are filled again). */
module Boards {
  import opened Grids
  import opened Clues

  // ---------------------------------------------------------------------
  // Toggling a cell.

  /** g with cell (i, j) replaced by 1 minus its value. */
  function Flipped(g: Grid, i: nat, j: nat): (h: Grid)
    requires g.Valid() && i < g.height && j < g.width
    ensures h.Valid() && h.height == g.height && h.width == g.width
    ensures h.cells[i][j] == 1 - g.cells[i][j]
    ensures forall r, c :: 0 <= r < g.height && 0 <= c < g.width && (r, c) != (i, j) ==>
      h.cells[r][c] == g.cells[r][c]
  {
    g.(cells := g.cells[i := g.cells[i][j := 1 - g.cells[i][j]]])
  }

  /** A click on cell (i, j): board[i, j] = 1 - board[i, j]. */
  method Toggle(board: array2<int>, i: nat, j: nat)
    requires i < board.Length0 && j < board.Length1
    modifies board
    ensures board[i, j] == 1 - old(board[i, j])
    ensures forall r, c :: 0 <= r < board.Length0 && 0 <= c < board.Length1 && (r, c) != (i, j) ==>
      board[r, c] == old(board[r, c])
    ensures Snapshot(board) == Flipped(old(Snapshot(board)), i, j)
  {
    ghost var before := Snapshot(board);
    board[i, j] := 1 - board[i, j];
    SnapshotIs(board, Flipped(before, i, j));
  }

  /** On a board of 0s and 1s a toggle moves exactly cell (i, j) between
      empty and filled, so the filled count changes by exactly one. */
  lemma FlipBinary(g: Grid, i: nat, j: nat)
    requires g.Valid() && Binary(g) && i < g.height && j < g.width
    ensures Binary(Flipped(g, i, j))
    ensures Flipped(g, i, j).cells[i][j] == 1 <==> g.cells[i][j] == 0
    ensures FilledSet(Flipped(g, i, j)) ==
      if g.cells[i][j] == 1 then FilledSet(g) - {(i, j)} else FilledSet(g) + {(i, j)}
    ensures FilledCount(Flipped(g, i, j)) ==
      if g.cells[i][j] == 1 then FilledCount(g) - 1 else FilledCount(g) + 1
  {
    var h := Flipped(g, i, j);
    var expected := if g.cells[i][j] == 1 then FilledSet(g) - {(i, j)} else FilledSet(g) + {(i, j)};
    forall p | p in FilledSet(h) ensures p in expected {
    }
    forall p | p in expected ensures p in FilledSet(h) {
    }
    assert FilledSet(h) == expected;
  }

  /** Toggling the same cell twice restores the board, and with it its clues. */
  lemma FlipTwice(g: Grid, i: nat, j: nat)
    requires g.Valid() && i < g.height && j < g.width
    ensures Flipped(Flipped(g, i, j), i, j) == g
    ensures Restrictions(Flipped(Flipped(g, i, j), i, j)) == Restrictions(g)
  {
    var h := Flipped(Flipped(g, i, j), i, j);
    forall r | 0 <= r < g.height ensures h.cells[r] == g.cells[r] {
    }
    assert h.cells == g.cells;
  }

  /** Two clicks on the same cell leave the board and its clues as they were. */
  method ToggleTwice(board: array2<int>, i: nat, j: nat)
    requires i < board.Length0 && j < board.Length1
    modifies board
    ensures Snapshot(board) == old(Snapshot(board))
    ensures Restrictions(Snapshot(board)) == old(Restrictions(Snapshot(board)))
  {
    ghost var before := Snapshot(board);
    Toggle(board, i, j);
    Toggle(board, i, j);
    FlipTwice(before, i, j);
  }

  // ---------------------------------------------------------------------
  // The filled positions of a board, in row-major order (np.where).

  /** p comes before q in row-major order. */
  predicate Before(p: (int, int), q: (int, int)) {
    p.0 < q.0 || (p.0 == q.0 && p.1 < q.1)
  }

  predicate Increasing(s: seq<(int, int)>) {
    forall a, b :: 0 <= a < b < |s| ==> Before(s[a], s[b])
  }

  predicate Distinct(s: seq<(int, int)>) {
    forall a, b :: 0 <= a < b < |s| ==> s[a] != s[b]
  }

  /** The filled cells of row i among its first j columns, left to right. */
  function RowPositions(g: Grid, i: nat, j: nat): (r: seq<(int, int)>)
    requires g.Valid() && i < g.height && j <= g.width
    ensures forall p :: p in r <==> p.0 == i && 0 <= p.1 < j && g.cells[i][p.1] == 1
    ensures Increasing(r)
  {
    if j == 0 then []
    else RowPositions(g, i, j - 1) + (if g.cells[i][j - 1] == 1 then [(i, j - 1)] else [])
  }

  /** Row-major order is kept when a later row's positions follow. */
  lemma ConcatIncreasing(a: seq<(int, int)>, b: seq<(int, int)>, row: int)
    requires Increasing(a) && Increasing(b)
    requires forall p :: p in a ==> p.0 < row
    requires forall p :: p in b ==> p.0 == row
    ensures Increasing(a + b)
  {
    forall x, y | 0 <= x < y < |a + b| ensures Before((a + b)[x], (a + b)[y]) {
      if y >= |a| && x < |a| {
        assert a[x] in a && b[y - |a|] in b;
      }
    }
  }

  /** The filled cells of the first i rows, in row-major order. */
  function PositionsUpTo(g: Grid, i: nat): (r: seq<(int, int)>)
    requires g.Valid() && i <= g.height
    ensures forall p :: p in r <==>
      0 <= p.0 < i && 0 <= p.1 < g.width && g.cells[p.0][p.1] == 1
    ensures Increasing(r)
  {
    if i == 0 then []
    else
      var before := PositionsUpTo(g, i - 1);
      var row := RowPositions(g, i - 1, g.width);
      ConcatIncreasing(before, row, i - 1);
      before + row
  }

  /** The positions of the filled cells, in row-major order
      (list(zip(*np.where(board == 1)))). */
  function FilledPositions(g: Grid): (r: seq<(int, int)>)
    requires g.Valid()
    ensures forall p :: p in r <==> p in FilledSet(g)
    ensures Increasing(r)
  {
    PositionsUpTo(g, g.height)
  }

  lemma {:induction false} DistinctCardinality(s: seq<(int, int)>)
    requires Distinct(s)
    ensures |(set p | p in s)| == |s|
    decreases |s|
  {
    if s != [] {
      var init := s[..|s| - 1];
      var last := s[|s| - 1];
      DistinctCardinality(init);
      assert (set p | p in s) == (set p | p in init) + {last};
      assert last !in (set p | p in init);
    }
  }

  /** There are as many filled positions as filled cells. */
  lemma FilledPositionsCount(g: Grid)
    requires g.Valid()
    ensures |FilledPositions(g)| == FilledCount(g)
  {
    var ps := FilledPositions(g);
    FilledPositionsDistinct(g);
    DistinctCardinality(ps);
    assert (set p | p in ps) == FilledSet(g);
  }

  lemma FilledPositionsDistinct(g: Grid)
    requires g.Valid()
    ensures Distinct(FilledPositions(g))
  {
    var ps := FilledPositions(g);
    forall a, b | 0 <= a < b < |ps| ensures ps[a] != ps[b] {
      assert Before(ps[a], ps[b]);
    }
  }

  // ---------------------------------------------------------------------
  // The partial reveal.

  /** perm lists every index below n exactly once: the order random.shuffle
      would produce, given from outside. */
  predicate IsPermutation(perm: seq<int>, n: nat) {
    |perm| == n &&
    (forall k :: 0 <= k < n ==> 0 <= perm[k] < n) &&
    (forall a, b :: 0 <= a < b < n ==> perm[a] != perm[b])
  }

  /** ps in the order perm gives. */
  function Shuffled(ps: seq<(int, int)>, perm: seq<int>): (r: seq<(int, int)>)
    requires IsPermutation(perm, |ps|)
    ensures |r| == |ps|
    ensures forall k :: 0 <= k < |r| ==> r[k] in ps
    ensures Distinct(ps) ==> Distinct(r)
  {
    seq(|ps|, k requires 0 <= k < |ps| => ps[perm[k]])
  }

  /** Distinct values at the first m places of perm make a set of m values. */
  lemma {:induction false} InjectiveImageSize(perm: seq<int>, m: nat)
    requires m <= |perm|
    requires forall a, b :: 0 <= a < b < |perm| ==> perm[a] != perm[b]
    ensures |set k | 0 <= k < m :: perm[k]| == m
    decreases m
  {
    if m > 0 {
      InjectiveImageSize(perm, m - 1);
      assert (set k | 0 <= k < m :: perm[k]) == (set k | 0 <= k < m - 1 :: perm[k]) + {perm[m - 1]};
    }
  }

  /** A subset as large as its finite superset is the superset. */
  lemma SubsetSameSize(a: set<int>, b: set<int>)
    requires a <= b && |a| == |b|
    ensures a == b
  {
    assert b == a + (b - a);
    assert |b - a| == 0;
  }

  /** A permutation of the indices below n takes every one of them. */
  lemma PermutationOnto(perm: seq<int>, n: nat)
    requires IsPermutation(perm, n)
    ensures forall i :: 0 <= i < n ==> i in perm
  {
    var ids := seq(n, i => i);
    var image := set k | 0 <= k < n :: perm[k];
    var range := set k | 0 <= k < n :: ids[k];
    InjectiveImageSize(perm, n);
    InjectiveImageSize(ids, n);
    forall k | 0 <= k < n ensures perm[k] in range {
      assert ids[perm[k]] == perm[k];
    }
    SubsetSameSize(image, range);
    forall i | 0 <= i < n ensures i in perm {
      assert ids[i] in range;
    }
  }

  /** Leaving out the place that holds n - 1 gives a permutation below n - 1. */
  lemma RemoveLast(perm: seq<int>, n: nat, k0: nat)
    requires IsPermutation(perm, n) && k0 < n && perm[k0] == n - 1
    ensures IsPermutation(perm[..k0] + perm[k0 + 1..], n - 1)
  {
    var q := perm[..k0] + perm[k0 + 1..];
    assert forall k :: 0 <= k < n - 1 ==> q[k] == if k < k0 then perm[k] else perm[k + 1];
  }

  /** Shuffling with perm is shuffling the shorter list with the remaining
      places, with the last element put back at place k0. */
  lemma ShuffledRemove(ps: seq<(int, int)>, perm: seq<int>, k0: nat)
    requires IsPermutation(perm, |ps|) && k0 < |ps| && perm[k0] == |ps| - 1
    requires IsPermutation(perm[..k0] + perm[k0 + 1..], |ps| - 1)
    ensures Shuffled(ps, perm) ==
      Shuffled(ps[..|ps| - 1], perm[..k0] + perm[k0 + 1..])[..k0] + [ps[|ps| - 1]] +
      Shuffled(ps[..|ps| - 1], perm[..k0] + perm[k0 + 1..])[k0..]
  {
    var q := perm[..k0] + perm[k0 + 1..];
    assert forall k :: 0 <= k < |ps| - 1 ==> q[k] == if k < k0 then perm[k] else perm[k + 1];
  }

  lemma InsertMultiset(r: seq<(int, int)>, k0: nat, x: (int, int))
    requires k0 <= |r|
    ensures multiset(r[..k0] + [x] + r[k0..]) == multiset(r) + multiset{x}
  {
    assert r == r[..k0] + r[k0..];
  }

  /** random.shuffle only reorders: the shuffled list holds every element of
      the original as often as the original does. */
  lemma {:induction false} ShuffledMultiset(ps: seq<(int, int)>, perm: seq<int>)
    requires IsPermutation(perm, |ps|)
    ensures multiset(Shuffled(ps, perm)) == multiset(ps)
    decreases |ps|
  {
    if ps != [] {
      var m := |ps| - 1;
      PermutationOnto(perm, |ps|);
      assert m in perm;
      var k0 :| 0 <= k0 < |ps| && perm[k0] == m;
      var rest := perm[..k0] + perm[k0 + 1..];
      RemoveLast(perm, |ps|, k0);
      ShuffledMultiset(ps[..m], rest);
      ShuffledRemove(ps, perm, k0);
      InsertMultiset(Shuffled(ps[..m], rest), k0, ps[m]);
      assert ps == ps[..m] + [ps[m]];
    }
  }

  /** The board of the given shape whose filled cells are exactly those listed. */
  function Reveal(height: nat, width: nat, chosen: seq<(int, int)>): (g: Grid)
    ensures g.Valid() && g.height == height && g.width == width && Binary(g)
    ensures forall i, j :: 0 <= i < height && 0 <= j < width ==>
      (g.cells[i][j] == 1 <==> (i, j) in chosen)
  {
    Grid(height, width,
         seq(height, i => seq(width, j => if (i, j) in chosen then 1 else 0)))
  }

  /** The first fifth (rounded down) of the shuffled filled positions. */
  function Chosen(g: Grid, perm: seq<int>): (r: seq<(int, int)>)
    requires g.Valid() && IsPermutation(perm, |FilledPositions(g)|)
  {
    var shuffled := Shuffled(FilledPositions(g), perm);
    shuffled[..|shuffled| / 5]
  }

  /** The partial board: an empty board of g's shape with the chosen cells filled. */
  function PartialGrid(g: Grid, perm: seq<int>): Grid
    requires g.Valid() && IsPermutation(perm, |FilledPositions(g)|)
  {
    Reveal(g.height, g.width, Chosen(g, perm))
  }

  /** The chosen positions are distinct filled cells of g, a fifth of them. */
  lemma ChosenFilled(g: Grid, perm: seq<int>)
    requires g.Valid() && IsPermutation(perm, |FilledPositions(g)|)
    ensures |Chosen(g, perm)| == |FilledPositions(g)| / 5
    ensures Distinct(Chosen(g, perm))
    ensures forall p :: p in Chosen(g, perm) ==> p in FilledSet(g)
  {
    var ps := FilledPositions(g);
    var shuffled := Shuffled(ps, perm);
    var chosen := Chosen(g, perm);
    FilledPositionsDistinct(g);
    forall p | p in chosen ensures p in FilledSet(g) {
      var k :| 0 <= k < |chosen| && chosen[k] == p;
      assert shuffled[k] in ps;
    }
  }

  lemma ChosenInBounds(g: Grid, perm: seq<int>)
    requires g.Valid() && IsPermutation(perm, |FilledPositions(g)|)
    ensures forall k :: 0 <= k < |Chosen(g, perm)| ==>
      0 <= Chosen(g, perm)[k].0 < g.height && 0 <= Chosen(g, perm)[k].1 < g.width
  {
    ChosenFilled(g, perm);
    var chosen := Chosen(g, perm);
    forall k | 0 <= k < |chosen|
      ensures 0 <= chosen[k].0 < g.height && 0 <= chosen[k].1 < g.width
    {
      assert chosen[k] in chosen;
    }
  }

  /** The partial board has the original's shape, holds only 0s and 1s, fills
      only cells the original fills, and fills exactly a fifth (rounded down)
      as many of them. */
  lemma PartialGridProperties(g: Grid, perm: seq<int>)
    requires g.Valid() && IsPermutation(perm, |FilledPositions(g)|)
    ensures PartialGrid(g, perm).Valid() && Binary(PartialGrid(g, perm))
    ensures PartialGrid(g, perm).height == g.height && PartialGrid(g, perm).width == g.width
    ensures FilledSet(PartialGrid(g, perm)) <= FilledSet(g)
    ensures FilledCount(PartialGrid(g, perm)) == FilledCount(g) / 5
  {
    var ps := FilledPositions(g);
    var chosen := Chosen(g, perm);
    var h := PartialGrid(g, perm);
    FilledPositionsCount(g);
    FilledPositionsDistinct(g);
    ChosenFilled(g, perm);
    DistinctCardinality(chosen);
    assert FilledSet(h) == (set p | p in chosen);
  }

  /** for r, c in chosen: partial_board[r, c] = 1 */
  method FillCells(a: array2<int>, chosen: seq<(int, int)>)
    requires forall k :: 0 <= k < |chosen| ==> 0 <= chosen[k].0 < a.Length0 && 0 <= chosen[k].1 < a.Length1
    modifies a
    ensures forall r, c :: 0 <= r < a.Length0 && 0 <= c < a.Length1 ==>
      a[r, c] == if (r, c) in chosen then 1 else old(a[r, c])
  {
    for k := 0 to |chosen|
      invariant forall r, c :: 0 <= r < a.Length0 && 0 <= c < a.Length1 ==>
        a[r, c] == if (r, c) in chosen[..k] then 1 else old(a[r, c])
    {
      var (r, c) := chosen[k];
      a[r, c] := 1;
      assert chosen[..k + 1] == chosen[..k] + [chosen[k]];
    }
    assert chosen[..|chosen|] == chosen;
  }

  /** The partial board of the export step: np.zeros_like(board), then
      partial_board[r, c] = 1 for the first fifth of the shuffled filled
      positions. */
  method BuildPartialBoard(board: array2<int>, perm: seq<int>) returns (partial: array2<int>)
    requires IsPermutation(perm, |FilledPositions(Snapshot(board))|)
    ensures fresh(partial)
    ensures Snapshot(partial) == PartialGrid(Snapshot(board), perm)
  {
    ghost var g := Snapshot(board);
    var filled := FilledPositions(Snapshot(board));
    var shuffled := Shuffled(filled, perm);
    partial := new int[board.Length0, board.Length1]((_, _) => 0);
    var chosen := shuffled[..|shuffled| / 5];
    assert chosen == Chosen(g, perm);
    ChosenInBounds(g, perm);
    FillCells(partial, chosen);
    SnapshotIs(partial, PartialGrid(g, perm));
  }
}
