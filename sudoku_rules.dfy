/** The rules of a 9×9 Sudoku grid, shared by the generator, the validator
    and the play state: cells, rows, columns and 3×3 blocks, what a conflict
    is, the safety predicate of the generator, and cell counting. */
module SudokuRules {

  /** A cell coordinate (row, column); the game keys cells by the text "r-c". */
  type Coord = (int, int)

  /** A grid of 9 rows of 9 cells, row-major. The generator fills it with
      numbers (0 for empty), the play board with text ("" for empty). */
  type Grid<T> = seq<seq<T>>

  predicate IsGrid<T>(g: Grid<T>) {
    |g| == 9 && forall r :: 0 <= r < 9 ==> |g[r]| == 9
  }

  predicate InGrid(p: Coord) {
    0 <= p.0 < 9 && 0 <= p.1 < 9
  }

  function At<T>(g: Grid<T>, p: Coord): T
    requires IsGrid(g) && InGrid(p)
  {
    g[p.0][p.1]
  }

  /** The grid with cell (r, c) set to v. */
  function Place<T>(g: Grid<T>, r: int, c: int, v: T): (h: Grid<T>)
    requires IsGrid(g) && 0 <= r < 9 && 0 <= c < 9
    ensures IsGrid(h) && h[r][c] == v
    ensures forall i, j :: 0 <= i < 9 && 0 <= j < 9 && (i, j) != (r, c) ==> h[i][j] == g[i][j]
  {
    g[r := g[r][c := v]]
  }

  /** First row (or column) of the 3×3 block holding row (or column) x,
      computed as the generator does: x - x % 3. */
  function BlockOrigin(x: int): int {
    x - x % 3
  }

  predicate SameBlock(p: Coord, q: Coord) {
    BlockOrigin(p.0) == BlockOrigin(q.0) && BlockOrigin(p.1) == BlockOrigin(q.1)
  }

  /** p and q share a row, a column or a block. */
  predicate SameUnit(p: Coord, q: Coord) {
    p.0 == q.0 || p.1 == q.1 || SameBlock(p, q)
  }

  /** The cells of row r, column c and block (br, bc), in the order the
      validator visits them. */
  function RowUnit(r: int): seq<Coord> {
    seq(9, c => (r, c))
  }

  function ColUnit(c: int): seq<Coord> {
    seq(9, r => (r, c))
  }

  function BlockUnit(br: int, bc: int): seq<Coord> {
    seq(9, k => (br * 3 + k / 3, bc * 3 + k % 3))
  }

  /** Two distinct cells of one row, column or block holding the same
      non-empty value. */
  ghost predicate Conflict<T>(g: Grid<T>, empty: T, p: Coord, q: Coord)
    requires IsGrid(g)
  {
    InGrid(p) && InGrid(q) && p != q && SameUnit(p, q) && At(g, p) != empty && At(g, p) == At(g, q)
  }

  ghost predicate NoConflicts<T>(g: Grid<T>, empty: T)
    requires IsGrid(g)
  {
    forall p, q :: !Conflict(g, empty, p, q)
  }

  /** The invalid-cell set: every cell that takes part in a conflict. */
  ghost function Invalid<T>(g: Grid<T>, empty: T): set<Coord>
    requires IsGrid(g)
  {
    set r, c | 0 <= r < 9 && 0 <= c < 9 && (exists q :: Conflict(g, empty, (r, c), q)) :: (r, c)
  }

  /** The safety predicate of the generator: n occurs nowhere in row r,
      nowhere in column c and nowhere in the block whose origin is
      (r - r % 3, c - c % 3). */
  ghost predicate Safe(g: Grid<int>, r: int, c: int, n: int)
    requires IsGrid(g) && 0 <= r < 9 && 0 <= c < 9
  {
    && (forall x :: 0 <= x < 9 ==> g[r][x] != n && g[x][c] != n)
    && (forall i, j :: BlockOrigin(r) <= i < BlockOrigin(r) + 3 && BlockOrigin(c) <= j < BlockOrigin(c) + 3 ==> g[i][j] != n)
  }

  /** Every cell holds 0 (empty) or a digit 1..9. */
  ghost predicate DigitsOrEmpty(g: Grid<int>)
    requires IsGrid(g)
  {
    forall r, c :: 0 <= r < 9 && 0 <= c < 9 ==> 0 <= g[r][c] <= 9
  }

  /** A numeric grid that breaks no rule (it may still have empty cells). */
  ghost predicate Consistent(g: Grid<int>) {
    IsGrid(g) && DigitsOrEmpty(g) && NoConflicts(g, 0)
  }

  ghost predicate Full(g: Grid<int>)
    requires IsGrid(g)
  {
    forall r, c :: 0 <= r < 9 && 0 <= c < 9 ==> g[r][c] != 0
  }

  /** A completely and correctly filled grid. */
  ghost predicate Solved(g: Grid<int>) {
    Consistent(g) && Full(g)
  }

  /** h keeps every non-empty cell of g. */
  ghost predicate Keeps(g: Grid<int>, h: Grid<int>)
    requires IsGrid(g) && IsGrid(h)
  {
    forall r, c :: 0 <= r < 9 && 0 <= c < 9 && g[r][c] != 0 ==> h[r][c] == g[r][c]
  }

  /** The number of cells of g that hold x. */
  ghost function Count<T>(g: Grid<T>, x: T): nat
    requires IsGrid(g)
  {
    CountRows(g, x, 9)
  }

  ghost function CountRows<T>(g: Grid<T>, x: T, n: nat): nat
    requires IsGrid(g) && n <= 9
  {
    if n == 0 then 0 else CountRows(g, x, n - 1) + multiset(g[n - 1])[x]
  }

  /** The values of g at the given cells, in order. */
  ghost function UnitValues<T>(g: Grid<T>, unit: seq<Coord>): (s: seq<T>)
    requires IsGrid(g) && forall i :: 0 <= i < |unit| ==> InGrid(unit[i])
    ensures |s| == |unit| && forall i :: 0 <= i < |unit| ==> s[i] == At(g, unit[i])
  {
    seq(|unit|, i requires 0 <= i < |unit| => At(g, unit[i]))
  }

  /** Every digit 1..9 occurs in the given cells of g. */
  ghost predicate CoversDigits(g: Grid<int>, unit: seq<Coord>)
    requires IsGrid(g) && forall i :: 0 <= i < |unit| ==> InGrid(unit[i])
  {
    forall d :: 1 <= d <= 9 ==> d in UnitValues(g, unit)
  }

  // ---------------------------------------------------------------------
  // Lemmas

  /** Two grids that agree cell by cell are equal. */
  lemma GridExt<T>(g: Grid<T>, h: Grid<T>)
    requires IsGrid(g) && IsGrid(h)
    requires forall r, c :: 0 <= r < 9 && 0 <= c < 9 ==> g[r][c] == h[r][c]
    ensures g == h
  {
    forall r | 0 <= r < 9
      ensures g[r] == h[r]
    {
      assert forall c :: 0 <= c < 9 ==> g[r][c] == h[r][c];
    }
  }

  /** The safety predicate says exactly that no cell sharing a row, column
      or block with (r, c) holds n. */
  lemma SafeIffNoPeerHolds(g: Grid<int>, r: int, c: int, n: int)
    requires IsGrid(g) && 0 <= r < 9 && 0 <= c < 9
    ensures Safe(g, r, c, n) <==> forall q :: InGrid(q) && SameUnit((r, c), q) ==> At(g, q) != n
  {
    if Safe(g, r, c, n) {
      forall q | InGrid(q) && SameUnit((r, c), q)
        ensures At(g, q) != n
      {
        if q.0 == r {
          assert g[r][q.1] != n;
        } else if q.1 == c {
          assert g[q.0][c] != n;
        } else {
          assert BlockOrigin(r) <= q.0 < BlockOrigin(r) + 3;
          assert BlockOrigin(c) <= q.1 < BlockOrigin(c) + 3;
        }
      }
    }
    if forall q :: InGrid(q) && SameUnit((r, c), q) ==> At(g, q) != n {
      forall x | 0 <= x < 9
        ensures g[r][x] != n && g[x][c] != n
      {
        assert At(g, (r, x)) != n;
        assert At(g, (x, c)) != n;
      }
      forall i, j | BlockOrigin(r) <= i < BlockOrigin(r) + 3 && BlockOrigin(c) <= j < BlockOrigin(c) + 3
        ensures g[i][j] != n
      {
        assert SameBlock((r, c), (i, j));
        assert At(g, (i, j)) != n;
      }
    }
  }

  /** Placing a safe digit in an empty cell of a consistent grid keeps it
      consistent: the step that makes the backtracking generator sound. */
  lemma PlaceSafeKeepsConsistent(g: Grid<int>, r: int, c: int, n: int)
    requires Consistent(g) && 0 <= r < 9 && 0 <= c < 9 && g[r][c] == 0
    requires 1 <= n <= 9 && Safe(g, r, c, n)
    ensures Consistent(Place(g, r, c, n))
  {
    var h := Place(g, r, c, n);
    SafeIffNoPeerHolds(g, r, c, n);
    forall p, q | InGrid(p) && InGrid(q) && p != q && SameUnit(p, q)
      ensures !Conflict(h, 0, p, q)
    {
      if p == (r, c) {
        assert At(g, q) != n && At(h, q) == At(g, q);
      } else if q == (r, c) {
        assert SameUnit((r, c), p);
        assert At(g, p) != n && At(h, p) == At(g, p);
      } else {
        assert !Conflict(g, 0, p, q);
      }
    }
  }

  lemma {:induction false} CountRowsPlace<T>(g: Grid<T>, r: int, c: int, v: T, x: T, n: nat)
    requires IsGrid(g) && 0 <= r < 9 && 0 <= c < 9 && n <= 9
    ensures CountRows(Place(g, r, c, v), x, n)
         == CountRows(g, x, n) - (if r < n && g[r][c] == x then 1 else 0) + (if r < n && v == x then 1 else 0)
  {
    if n > 0 {
      CountRowsPlace(g, r, c, v, x, n - 1);
      var h := Place(g, r, c, v);
      if n - 1 == r {
        assert h[r] == g[r][c := v];
      } else {
        assert h[n - 1] == g[n - 1];
      }
    }
  }

  /** Writing v into cell (r, c) changes the number of x cells by what left
      the cell and what entered it. */
  lemma CountPlace<T>(g: Grid<T>, r: int, c: int, v: T, x: T)
    requires IsGrid(g) && 0 <= r < 9 && 0 <= c < 9
    ensures Count(Place(g, r, c, v), x)
         == Count(g, x) - (if g[r][c] == x then 1 else 0) + (if v == x then 1 else 0)
  {
    CountRowsPlace(g, r, c, v, x, 9);
  }

  lemma {:induction false} OccurrencesBound<T>(s: seq<T>, x: T)
    ensures multiset(s)[x] <= |s|
    ensures multiset(s)[x] == |s| <==> forall i :: 0 <= i < |s| ==> s[i] == x
  {
    if s != [] {
      var t := s[..|s| - 1];
      assert s == t + [s[|s| - 1]];
      OccurrencesBound(t, x);
      if multiset(s)[x] == |s| {
        assert multiset(t)[x] == |t| && s[|s| - 1] == x;
        forall i | 0 <= i < |s|
          ensures s[i] == x
        {
          if i < |t| {
            assert s[i] == t[i];
          }
        }
      }
      if forall i :: 0 <= i < |s| ==> s[i] == x {
        assert forall i :: 0 <= i < |t| ==> t[i] == x;
      }
    }
  }

  lemma {:induction false} CountRowsBound<T>(g: Grid<T>, x: T, n: nat)
    requires IsGrid(g) && n <= 9
    ensures CountRows(g, x, n) <= 9 * n
    ensures CountRows(g, x, n) == 9 * n <==> forall r, c :: 0 <= r < n && 0 <= c < 9 ==> g[r][c] == x
  {
    if n > 0 {
      CountRowsBound(g, x, n - 1);
      OccurrencesBound(g[n - 1], x);
    }
  }

  /** At most 81 cells hold x, and exactly 81 do only when every cell holds x. */
  lemma CountAllCells<T>(g: Grid<T>, x: T)
    requires IsGrid(g)
    ensures Count(g, x) <= 81
    ensures Count(g, x) == 81 <==> forall r, c :: 0 <= r < 9 && 0 <= c < 9 ==> g[r][c] == x
  {
    CountRowsBound(g, x, 9);
  }

  lemma {:induction false} OccurrencesMatch<T, U>(s: seq<T>, x: T, t: seq<U>, y: U)
    requires |s| == |t|
    requires forall i :: 0 <= i < |s| ==> (s[i] == x <==> t[i] == y)
    ensures multiset(s)[x] == multiset(t)[y]
  {
    if s != [] {
      var k := |s| - 1;
      assert s == s[..k] + [s[k]];
      assert t == t[..k] + [t[k]];
      OccurrencesMatch(s[..k], x, t[..k], y);
    }
  }

  lemma {:induction false} CountRowsMatch<T, U>(g: Grid<T>, x: T, h: Grid<U>, y: U, n: nat)
    requires IsGrid(g) && IsGrid(h) && n <= 9
    requires forall r, c :: 0 <= r < 9 && 0 <= c < 9 ==> (g[r][c] == x <==> h[r][c] == y)
    ensures CountRows(g, x, n) == CountRows(h, y, n)
  {
    if n > 0 {
      CountRowsMatch(g, x, h, y, n - 1);
      OccurrencesMatch(g[n - 1], x, h[n - 1], y);
    }
  }

  /** Two grids with x and y in the same places count as many x as y. */
  lemma CountMatch<T, U>(g: Grid<T>, x: T, h: Grid<U>, y: U)
    requires IsGrid(g) && IsGrid(h)
    requires forall r, c :: 0 <= r < 9 && 0 <= c < 9 ==> (g[r][c] == x <==> h[r][c] == y)
    ensures Count(g, x) == Count(h, y)
  {
    CountRowsMatch(g, x, h, y, 9);
  }

  lemma {:induction false} CountRowsAbsent<T>(g: Grid<T>, x: T, n: nat)
    requires IsGrid(g) && n <= 9
    requires forall r, c :: 0 <= r < 9 && 0 <= c < 9 ==> g[r][c] != x
    ensures CountRows(g, x, n) == 0
  {
    if n > 0 {
      CountRowsAbsent(g, x, n - 1);
      assert x !in g[n - 1];
    }
  }

  /** A value held by no cell is counted zero times; in particular a full
      grid has no empty cell to count. */
  lemma CountAbsent<T>(g: Grid<T>, x: T)
    requires IsGrid(g)
    requires forall r, c :: 0 <= r < 9 && 0 <= c < 9 ==> g[r][c] != x
    ensures Count(g, x) == 0
  {
    CountRowsAbsent(g, x, 9);
  }

  lemma {:induction false} DistinctSetCard<T>(s: seq<T>)
    requires forall i, j :: 0 <= i < j < |s| ==> s[i] != s[j]
    ensures |set i | 0 <= i < |s| :: s[i]| == |s|
  {
    if s != [] {
      var k := |s| - 1;
      DistinctSetCard(s[..k]);
      var a := set i | 0 <= i < k :: s[..k][i];
      var b := set i | 0 <= i < |s| :: s[i];
      assert s[k] !in a;
      assert b == a + {s[k]};
    }
  }

  lemma {:induction false} SubsetCard<T>(a: set<T>, b: set<T>)
    requires a <= b
    ensures |a| <= |b|
    decreases a
  {
    if a != {} {
      var x :| x in a;
      SubsetCard(a - {x}, b - {x});
    }
  }

  /** Nine pairwise-distinct digits are all nine digits. */
  lemma DistinctDigitsCoverAll(s: seq<int>)
    requires |s| == 9
    requires forall i :: 0 <= i < 9 ==> 1 <= s[i] <= 9
    requires forall i, j :: 0 <= i < j < 9 ==> s[i] != s[j]
    ensures forall d :: 1 <= d <= 9 ==> d in s
  {
    var digits := [1, 2, 3, 4, 5, 6, 7, 8, 9];
    var vals := set i | 0 <= i < 9 :: s[i];
    var all := set i | 0 <= i < 9 :: digits[i];
    DistinctSetCard(s);
    DistinctSetCard(digits);
    forall d | 1 <= d <= 9
      ensures d in s
    {
      assert digits[d - 1] == d;
      if d !in vals {
        forall v | v in vals
          ensures v in all - {d}
        {
          assert digits[v - 1] == v;
        }
        SubsetCard(vals, all - {d});
        assert false;
      }
    }
  }

  /** Every pair of distinct cells of a unit conflicts when it holds equal
      digits, so a full consistent grid holds nine distinct digits there. */
  lemma {:induction false} UnitCoversDigits(g: Grid<int>, unit: seq<Coord>)
    requires Solved(g) && |unit| == 9
    requires forall i :: 0 <= i < 9 ==> InGrid(unit[i])
    requires forall i, j :: 0 <= i < j < 9 ==> unit[i] != unit[j] && SameUnit(unit[i], unit[j])
    ensures CoversDigits(g, unit)
  {
    var s := UnitValues(g, unit);
    forall i, j | 0 <= i < j < 9
      ensures s[i] != s[j]
    {
      assert !Conflict(g, 0, unit[i], unit[j]);
    }
    DistinctDigitsCoverAll(s);
  }

  /** The nine cells of a block are distinct and pairwise share the block. */
  lemma BlockUnitShape(br: int, bc: int)
    requires 0 <= br < 3 && 0 <= bc < 3
    ensures forall i :: 0 <= i < 9 ==> InGrid(BlockUnit(br, bc)[i])
    ensures forall i, j :: 0 <= i < j < 9 ==>
              BlockUnit(br, bc)[i] != BlockUnit(br, bc)[j] && SameBlock(BlockUnit(br, bc)[i], BlockUnit(br, bc)[j])
  {
    var b := BlockUnit(br, bc);
    forall i | 0 <= i < 9
      ensures BlockOrigin(b[i].0) == br * 3 && BlockOrigin(b[i].1) == bc * 3
    {
    }
  }

  /** In a solved grid every row, every column and every block holds each
      digit 1..9 (exactly once, since it has nine cells and no conflict). */
  lemma SolvedUnitsArePermutations(g: Grid<int>)
    requires Solved(g)
    ensures forall k :: 0 <= k < 9 ==> CoversDigits(g, RowUnit(k))
    ensures forall k :: 0 <= k < 9 ==> CoversDigits(g, ColUnit(k))
    ensures forall br, bc :: 0 <= br < 3 && 0 <= bc < 3 ==> CoversDigits(g, BlockUnit(br, bc))
  {
    forall k | 0 <= k < 9
      ensures CoversDigits(g, RowUnit(k)) && CoversDigits(g, ColUnit(k))
    {
      UnitCoversDigits(g, RowUnit(k));
      UnitCoversDigits(g, ColUnit(k));
    }
    forall br, bc | 0 <= br < 3 && 0 <= bc < 3
      ensures CoversDigits(g, BlockUnit(br, bc))
    {
      BlockUnitShape(br, bc);
      UnitCoversDigits(g, BlockUnit(br, bc));
    }
  }
}
