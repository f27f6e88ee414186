/** The grid generator: a randomised depth-first backtracking fill of an
    empty board, and the derivation of a puzzle by zeroing cells of a copy.
    Boards are 9×9 arrays of numbers updated in place, 0 meaning empty.
    Every call to the random number source is a nondeterministic choice
    within the range the source's expression can produce. */
module Generator {
  import opened SudokuRules

  predicate Is9x9<T>(b: array2<T>) {
    b.Length0 == 9 && b.Length1 == 9
  }

  /** The digits 1..9 in increasing order. */
  function DigitSeq(): (s: seq<int>)
    ensures |s| == 9 && forall i :: 0 <= i < 9 ==> s[i] == i + 1
  {
    seq(9, i => i + 1)
  }

  /** The value held by a board array. */
  ghost function Cells(b: array2<int>): (g: Grid<int>)
    requires Is9x9(b)
    reads b
    ensures IsGrid(g)
    ensures forall r, c :: 0 <= r < 9 && 0 <= c < 9 ==> g[r][c] == b[r, c]
  {
    seq(9, r requires 0 <= r < 9 reads b => seq(9, c requires 0 <= c < 9 reads b => b[r, c]))
  }

  /** createEmptyBoard: a fresh board with every cell 0. */
  method CreateEmptyBoard() returns (b: array2<int>)
    ensures fresh(b) && Is9x9(b)
    ensures forall r, c :: 0 <= r < 9 && 0 <= c < 9 ==> b[r, c] == 0
  {
    b := new int[9, 9]((r, c) => 0);
  }

  /** cloneBoard: a fresh board holding the same values, so that writing to
      the copy never changes the original. */
  method CloneBoard(board: array2<int>) returns (copy: array2<int>)
    requires Is9x9(board)
    ensures fresh(copy) && Is9x9(copy)
    ensures Cells(copy) == Cells(board)
  {
    copy := new int[9, 9]((r, c) requires 0 <= r < 9 && 0 <= c < 9 reads board => board[r, c]);
    GridExt(Cells(copy), Cells(board));
  }

  /** shuffle: the Durstenfeld swap loop, from the last index down to 1,
      swapping each element with one at an arbitrary index at or below it. */
  method Shuffle<T>(a: array<T>)
    modifies a
    ensures multiset(a[..]) == multiset(old(a[..]))
  {
    var i := a.Length - 1;
    while i > 0
      invariant i < a.Length
      invariant multiset(a[..]) == multiset(old(a[..]))
    {
      var j :| 0 <= j <= i;
      a[i], a[j] := a[j], a[i];
      i := i - 1;
    }
  }

  /** The candidate order of fillBoard, shuffle([1, 2, ..., 9]): nine
      digits in which every digit occurs, so each digit is tried once. */
  method ShuffledDigits() returns (nums: seq<int>)
    ensures |nums| == 9 && forall i :: 0 <= i < 9 ==> 1 <= nums[i] <= 9
    ensures forall d :: 1 <= d <= 9 ==> d in nums
  {
    var a := new int[9](i => i + 1);
    assert a[..] == DigitSeq();
    Shuffle(a);
    nums := a[..];
    PermutedDigits(nums);
  }

  lemma PermutedDigits(nums: seq<int>)
    requires multiset(nums) == multiset(DigitSeq())
    ensures |nums| == 9 && forall i :: 0 <= i < 9 ==> 1 <= nums[i] <= 9
    ensures forall d :: 1 <= d <= 9 ==> d in nums
  {
    assert |nums| == |multiset(nums)| == |multiset(DigitSeq())| == 9;
    forall i | 0 <= i < 9
      ensures 1 <= nums[i] <= 9
    {
      assert nums[i] in multiset(nums);
      assert nums[i] in DigitSeq();
    }
    forall d | 1 <= d <= 9
      ensures d in nums
    {
      assert DigitSeq()[d - 1] == d;
      assert d in multiset(nums);
    }
  }

  /** isSafe: scans the row and the column, then the 3×3 block whose
      origin is (row - row % 3, col - col % 3), and answers whether num is
      absent from all three. */
  method IsSafe(b: array2<int>, row: int, col: int, num: int) returns (safe: bool)
    requires Is9x9(b) && 0 <= row < 9 && 0 <= col < 9
    ensures safe == Safe(Cells(b), row, col, num)
  {
    for x := 0 to 9
      invariant forall y :: 0 <= y < x ==> b[row, y] != num && b[y, col] != num
    {
      if b[row, x] == num {
        assert Cells(b)[row][x] == num;
        return false;
      }
      if b[x, col] == num {
        assert Cells(b)[x][col] == num;
        return false;
      }
    }
    var startRow := row - row % 3;
    var startCol := col - col % 3;
    for r := 0 to 3
      invariant forall i, j :: startRow <= i < startRow + r && startCol <= j < startCol + 3 ==> b[i, j] != num
    {
      var i := startRow + r;
      for c := 0 to 3
        invariant forall j :: startCol <= j < startCol + c ==> b[i, j] != num
      {
        if b[i, startCol + c] == num {
          assert Cells(b)[i][startCol + c] == num;
          return false;
        }
      }
    }
    return true;
  }

  /** b holds the grid g, cell by cell. This is the pointwise form of
      Cells(b) == g that loop invariants keep cheaply; CellsAre turns it
      into the equation. */
  ghost predicate Holds(b: array2<int>, g: Grid<int>)
    requires Is9x9(b) && IsGrid(g)
    reads b
  {
    forall r, c :: 0 <= r < 9 && 0 <= c < 9 ==> b[r, c] == g[r][c]
  }

  lemma CellsAre(b: array2<int>, g: Grid<int>)
    requires Is9x9(b) && IsGrid(g) && Holds(b, g)
    ensures Cells(b) == g
  {
    GridExt(Cells(b), g);
  }

  /** Keeping the clues of a grid in which one empty cell was filled keeps
      the clues of the original grid. */
  lemma KeepsThroughPlace(g: Grid<int>, r: int, c: int, n: int, h: Grid<int>)
    requires IsGrid(g) && IsGrid(h) && 0 <= r < 9 && 0 <= c < 9 && g[r][c] == 0
    requires Keeps(Place(g, r, c, n), h)
    ensures Keeps(g, h)
  {
    var p := Place(g, r, c, n);
    forall i, j | 0 <= i < 9 && 0 <= j < 9 && g[i][j] != 0
      ensures h[i][j] == g[i][j]
    {
      assert p[i][j] == g[i][j];
    }
  }

  /** The scan at the head of fillBoard: the first empty cell in row-major
      order, if there is one. */
  method FindEmpty(b: array2<int>) returns (found: bool, r: int, c: int)
    requires Is9x9(b)
    ensures !found ==> Full(Cells(b))
    ensures found ==> 0 <= r < 9 && 0 <= c < 9 && b[r, c] == 0
    ensures found ==> forall i, j :: 0 <= i < 9 && 0 <= j < 9 && (i < r || (i == r && j < c)) ==> b[i, j] != 0
  {
    r := 0;
    while r < 9
      invariant 0 <= r <= 9
      invariant forall i, j :: 0 <= i < r && 0 <= j < 9 ==> b[i, j] != 0
    {
      c := 0;
      while c < 9
        invariant 0 <= c <= 9
        invariant forall j :: 0 <= j < c ==> b[r, j] != 0
      {
        if b[r, c] == 0 {
          return true, r, c;
        }
        c := c + 1;
      }
      r := r + 1;
    }
    return false, r, 0;
  }

  /** fillBoard: takes the first empty cell in row-major order and tries
      the digits 1..9 there in shuffled order. It reports success only with
      every cell filled, never overwrites a cell that was filled on entry,
      and on failure leaves the board exactly as it found it. */
  method FillBoard(b: array2<int>) returns (filled: bool)
    requires Is9x9(b)
    modifies b
    ensures filled ==> Full(Cells(b))
    ensures filled && Consistent(old(Cells(b))) ==> Consistent(Cells(b))
    ensures !filled ==> Cells(b) == old(Cells(b))
    ensures Keeps(old(Cells(b)), Cells(b))
    decreases Count(Cells(b), 0), 1
  {
    var found, r, c := FindEmpty(b);
    if !found {
      return true;
    }
    var nums := ShuffledDigits();
    for k := 0 to 9
      invariant Cells(b) == old(Cells(b))
    {
      filled := TryDigit(b, r, c, nums[k]);
      if filled {
        return;
      }
    }
    return false;
  }

  /** One turn of fillBoard's candidate loop: if num is safe at the empty
      cell (r, c), place it and recurse; when the recursion fails, reset
      the cell to 0. */
  method TryDigit(b: array2<int>, r: int, c: int, num: int) returns (filled: bool)
    requires Is9x9(b) && 0 <= r < 9 && 0 <= c < 9 && b[r, c] == 0 && 1 <= num <= 9
    modifies b
    ensures filled ==> Full(Cells(b))
    ensures filled && Consistent(old(Cells(b))) ==> Consistent(Cells(b))
    ensures !filled ==> Cells(b) == old(Cells(b))
    ensures Keeps(old(Cells(b)), Cells(b))
    decreases Count(Cells(b), 0), 0
  {
    ghost var entry := Cells(b);
    var safe := IsSafe(b, r, c, num);
    if !safe {
      return false;
    }
    b[r, c] := num;
    ghost var placed := Place(entry, r, c, num);
    CellsAre(b, placed);
    CountPlace(entry, r, c, num, 0);
    if Consistent(entry) {
      PlaceSafeKeepsConsistent(entry, r, c, num);
    }
    filled := FillBoard(b);
    if filled {
      KeepsThroughPlace(entry, r, c, num, Cells(b));
      return;
    }
    assert Holds(b, placed);
    b[r, c] := 0;
    CellsAre(b, entry);
  }

  /** generateSolvedBoard: fills an empty board. The source ignores
      fillBoard's answer; it is returned here, and either the board is a
      solved grid or, when the search failed, it is still empty. */
  method GenerateSolvedBoard() returns (b: array2<int>, filled: bool)
    ensures fresh(b) && Is9x9(b)
    ensures filled ==> Solved(Cells(b))
    ensures !filled ==> forall r, c :: 0 <= r < 9 && 0 <= c < 9 ==> b[r, c] == 0
  {
    b := CreateEmptyBoard();
    assert Consistent(Cells(b));
    filled := FillBoard(b);
  }

  /** generatePuzzle: zeroes cells of a copy of the board until `holes`
      cells have been removed. The source draws cells at random and skips
      the ones already empty; here each step picks an arbitrary non-empty
      cell, which is what the draws that count amount to. The source loops
      forever when fewer than `holes` cells are non-empty, so that is the
      one thing its callers must avoid. */
  method GeneratePuzzle(board: array2<int>, holes: int) returns (puzzle: array2<int>)
    requires Is9x9(board)
    requires holes <= 81 - Count(Cells(board), 0)
    ensures fresh(puzzle) && Is9x9(puzzle) && unchanged(board)
    ensures Count(Cells(puzzle), 0) == Count(Cells(board), 0) + (if holes < 0 then 0 else holes)
    ensures Keeps(Cells(puzzle), Cells(board))
    ensures forall r, c :: 0 <= r < 9 && 0 <= c < 9 && board[r, c] == 0 ==> puzzle[r, c] == 0
    ensures holes <= 0 ==> Cells(puzzle) == Cells(board)
  {
    puzzle := CloneBoard(board);
    ghost var orig := Cells(board);
    ghost var g := orig;
    var removed := 0;
    while removed < holes
      invariant IsGrid(g) && Holds(puzzle, g)
      invariant 0 <= removed <= (if holes < 0 then 0 else holes)
      invariant Count(g, 0) == Count(orig, 0) + removed
      invariant Keeps(g, orig)
      invariant forall r, c :: 0 <= r < 9 && 0 <= c < 9 && orig[r][c] == 0 ==> g[r][c] == 0
      invariant removed == 0 ==> g == orig
      decreases holes - removed
    {
      CountAllCells(g, 0);
      var r, c :| 0 <= r < 9 && 0 <= c < 9 && puzzle[r, c] != 0;
      puzzle[r, c] := 0;
      CountPlace(g, r, c, 0, 0);
      g := Place(g, r, c, 0);
      removed := removed + 1;
    }
    CellsAre(puzzle, g);
  }
}
