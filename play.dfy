/** The game: the global state the page keeps (the board as the player
    sees it, the solution, which cells are clues, which cells conflict) and
    the four things the player can do with it: start a new game, type into
    a cell, check the board and show the solution. Cells of the board hold
    text, "" for an empty cell. */
module Play {
  import opened SudokuRules
  import opened Generator
  import opened Validator

  // ---------------------------------------------------------------------
  // Cell text

  /** One digit 1..9 written out. */
  predicate DigitText(s: string) {
    |s| == 1 && '1' <= s[0] <= '9'
  }

  /** What the input filter /^$|^[1-9]$/ lets through: the empty string or
      a single digit 1..9. */
  predicate Admitted(s: string) {
    s == "" || DigitText(s)
  }

  /** The input filter of onCellInput: text it does not admit becomes "". */
  function FilterInput(s: string): (r: string)
    ensures Admitted(r)
    ensures r == s || r == ""
    ensures r == s <==> Admitted(s)
  {
    if Admitted(s) then s else ""
  }

  function DigitChar(d: int): (ch: char)
    requires 0 <= d <= 9
    ensures '0' <= ch <= '9'
  {
    ('0' as int + d) as char
  }

  predicate AllDigits(s: string) {
    forall i :: 0 <= i < |s| ==> '0' <= s[i] <= '9'
  }

  /** The decimal numeral of a natural number, without leading zeros. */
  function NatString(n: nat): (s: string)
    ensures |s| >= 1 && AllDigits(s)
  {
    if n < 10 then [DigitChar(n)] else NatString(n / 10) + [DigitChar(n % 10)]
  }

  /** String(v) on an integer: its decimal numeral, with a minus sign when
      negative. */
  function DecimalString(v: int): (s: string)
    ensures |s| >= 1
  {
    if v < 0 then "-" + NatString(-v) else NatString(v)
  }

  /** The value of a string of decimal digits. */
  function ParseNat(s: string): nat
    requires AllDigits(s)
  {
    if s == [] then 0 else ParseNat(s[..|s| - 1]) * 10 + (s[|s| - 1] as int - '0' as int)
  }

  /** The value of an optionally signed numeral. */
  function ParseDecimal(s: string): int
    requires |s| >= 1 && (if s[0] == '-' then AllDigits(s[1..]) else AllDigits(s))
  {
    if s[0] == '-' then -(ParseNat(s[1..]) as int) else ParseNat(s)
  }

  /** What generateNewGame writes for a puzzle value: "" for 0, the
      numeral otherwise. */
  function CellText(v: int): string {
    if v == 0 then "" else DecimalString(v)
  }

  lemma {:induction false} ParseNatString(n: nat)
    ensures ParseNat(NatString(n)) == n
  {
    var s := NatString(n);
    if n >= 10 {
      ParseNatString(n / 10);
      assert s[..|s| - 1] == NatString(n / 10);
    }
  }

  /** Reading back a numeral gives the number written. */
  lemma DecimalRoundTrip(v: int)
    ensures var s := DecimalString(v);
            (if s[0] == '-' then AllDigits(s[1..]) else AllDigits(s)) && ParseDecimal(s) == v
  {
    if v < 0 {
      ParseNatString(-v);
      assert DecimalString(v)[1..] == NatString(-v);
    } else {
      ParseNatString(v);
    }
  }

  /** Different numbers have different numerals. */
  lemma DecimalStringInjective(a: int, b: int)
    ensures DecimalString(a) == DecimalString(b) <==> a == b
  {
    if DecimalString(a) == DecimalString(b) {
      DecimalRoundTrip(a);
      DecimalRoundTrip(b);
    }
  }

  /** Different puzzle values get different cell texts, and only 0 gets the
      empty text. */
  lemma CellTextInjective(a: int, b: int)
    ensures CellText(a) == CellText(b) <==> a == b
    ensures CellText(a) == "" <==> a == 0
  {
    DecimalStringInjective(a, b);
  }

  /** The text of a digit 1..9 is that digit. */
  lemma DigitCellText(v: int)
    requires 0 <= v <= 9
    ensures v == 0 ==> CellText(v) == ""
    ensures v != 0 ==> CellText(v) == DecimalString(v) && DigitText(CellText(v))
    ensures Admitted(CellText(v))
  {
  }

  // ---------------------------------------------------------------------
  // Boards as text

  /** A solution as the game stores it: a digit in every cell, no two equal
      digits in one row, column or block. */
  ghost predicate SolvedText(t: Grid<string>) {
    && IsGrid(t)
    && (forall r, c :: 0 <= r < 9 && 0 <= c < 9 ==> DigitText(t[r][c]))
    && NoConflicts(t, "")
  }

  /** Writing a grid's values as text changes no conflict: a cell of the
      text conflicts exactly when the cell of the grid does. */
  lemma TextKeepsConflicts(g: Grid<int>, t: Grid<string>)
    requires IsGrid(g) && IsGrid(t)
    requires forall r, c :: 0 <= r < 9 && 0 <= c < 9 ==> t[r][c] == CellText(g[r][c])
    ensures Invalid(t, "") == Invalid(g, 0)
  {
    forall p, q | InGrid(p) && InGrid(q)
      ensures Conflict(t, "", p, q) <==> Conflict(g, 0, p, q)
    {
      CellTextInjective(At(g, p), At(g, q));
    }
  }

  /** Keeping only some of the digits of a conflict-free grid leaves it
      conflict-free. */
  lemma KeptCluesHaveNoConflicts(g: Grid<int>, h: Grid<int>)
    requires IsGrid(g) && IsGrid(h) && Keeps(g, h) && NoConflicts(h, 0)
    ensures Invalid(g, 0) == {}
  {
    forall p, q | InGrid(p) && InGrid(q) && Conflict(g, 0, p, q)
      ensures Conflict(h, 0, p, q)
    {
    }
  }

  /** Emptying a cell can resolve conflicts, never create one. */
  lemma ClearingNeverAddsInvalid<T>(g: Grid<T>, empty: T, r: int, c: int)
    requires IsGrid(g) && 0 <= r < 9 && 0 <= c < 9
    ensures Invalid(Place(g, r, c, empty), empty) <= Invalid(g, empty)
  {
    var h := Place(g, r, c, empty);
    forall p | p in Invalid(h, empty)
      ensures p in Invalid(g, empty)
    {
      var q :| Conflict(h, empty, p, q);
      assert Conflict(g, empty, p, q);
    }
  }

  /** A stored solution has no invalid cell. */
  lemma SolvedTextIsValid(t: Grid<string>)
    requires SolvedText(t)
    ensures Invalid(t, "") == {}
  {
  }

  // ---------------------------------------------------------------------
  // Starting a game

  /** The row-building loop of generateNewGame: for every cell the board
      text of the puzzle value, the numeral of the solved value, and whether
      the cell is a clue. */
  method PlayBoards(solved: array2<int>, puzzle: array2<int>)
      returns (board: Grid<string>, solution: Grid<string>, fixedCells: Grid<bool>)
    requires Is9x9(solved) && Is9x9(puzzle)
    ensures IsGrid(board) && IsGrid(solution) && IsGrid(fixedCells)
    ensures forall r, c :: 0 <= r < 9 && 0 <= c < 9 ==>
              && board[r][c] == CellText(puzzle[r, c])
              && solution[r][c] == DecimalString(solved[r, c])
              && fixedCells[r][c] == (puzzle[r, c] != 0)
  {
    board, solution, fixedCells := [], [], [];
    for r := 0 to 9
      invariant |board| == r && |solution| == r && |fixedCells| == r
      invariant forall i :: 0 <= i < r ==> RowsFrom(solved, puzzle, i, board[i], solution[i], fixedCells[i])
    {
      var rowVals, solRow, fixedRow := PlayRow(solved, puzzle, r);
      board := board + [rowVals];
      solution := solution + [solRow];
      fixedCells := fixedCells + [fixedRow];
    }
  }

  /** Row r of the three boards of a new game. */
  ghost predicate RowsFrom(solved: array2<int>, puzzle: array2<int>, r: int,
                           rowVals: seq<string>, solRow: seq<string>, fixedRow: seq<bool>)
    requires Is9x9(solved) && Is9x9(puzzle) && 0 <= r < 9
    reads solved, puzzle
  {
    && |rowVals| == 9 && |solRow| == 9 && |fixedRow| == 9
    && forall c :: 0 <= c < 9 ==>
         && rowVals[c] == CellText(puzzle[r, c])
         && solRow[c] == DecimalString(solved[r, c])
         && fixedRow[c] == (puzzle[r, c] != 0)
  }

  /** The inner loop of generateNewGame's row building: one row of each
      board. */
  method PlayRow(solved: array2<int>, puzzle: array2<int>, r: int)
      returns (rowVals: seq<string>, solRow: seq<string>, fixedRow: seq<bool>)
    requires Is9x9(solved) && Is9x9(puzzle) && 0 <= r < 9
    ensures RowsFrom(solved, puzzle, r, rowVals, solRow, fixedRow)
  {
    rowVals, solRow, fixedRow := [], [], [];
    for c := 0 to 9
      invariant |rowVals| == c && |solRow| == c && |fixedRow| == c
      invariant forall j :: 0 <= j < c ==>
                  && rowVals[j] == CellText(puzzle[r, j])
                  && solRow[j] == DecimalString(solved[r, j])
                  && fixedRow[j] == (puzzle[r, j] != 0)
    {
      var v := puzzle[r, c];
      rowVals := rowVals + [if v == 0 then "" else DecimalString(v)];
      solRow := solRow + [DecimalString(solved[r, c])];
      fixedRow := fixedRow + [v != 0];
    }
  }

  /** The text boards of a new game are a valid game state with exactly
      `holes` empty cells, all other cells being clues from the solution. */
  lemma NewBoardsAreValid(solved: Grid<int>, puzzle: Grid<int>, holes: int,
                          board: Grid<string>, solution: Grid<string>, fixedCells: Grid<bool>)
    requires Solved(solved) && IsGrid(puzzle) && Keeps(puzzle, solved)
    requires Count(puzzle, 0) == holes
    requires IsGrid(board) && IsGrid(solution) && IsGrid(fixedCells)
    requires forall r, c :: 0 <= r < 9 && 0 <= c < 9 ==>
               && board[r][c] == CellText(puzzle[r][c])
               && solution[r][c] == DecimalString(solved[r][c])
               && fixedCells[r][c] == (puzzle[r][c] != 0)
    ensures SolvedText(solution)
    ensures forall r, c :: 0 <= r < 9 && 0 <= c < 9 ==> Admitted(board[r][c])
    ensures forall r, c :: 0 <= r < 9 && 0 <= c < 9 && fixedCells[r][c] ==> board[r][c] == solution[r][c]
    ensures forall r, c :: 0 <= r < 9 && 0 <= c < 9 ==> (fixedCells[r][c] <==> board[r][c] != "")
    ensures Invalid(board, "") == {}
    ensures Count(board, "") == holes
  {
    forall r, c | 0 <= r < 9 && 0 <= c < 9
      ensures DigitText(solution[r][c]) && solution[r][c] == CellText(solved[r][c])
      ensures Admitted(board[r][c]) && (board[r][c] == "" <==> puzzle[r][c] == 0)
      ensures puzzle[r][c] != 0 ==> board[r][c] == solution[r][c]
    {
      DigitCellText(solved[r][c]);
      if puzzle[r][c] != 0 {
        DigitCellText(puzzle[r][c]);
      }
    }
    TextKeepsConflicts(solved, solution);
    assert Invalid(solved, 0) == {};
    assert NoConflicts(solution, "") by {
      forall p, q | InGrid(p) && InGrid(q)
        ensures !Conflict(solution, "", p, q)
      {
        assert p !in Invalid(solution, "");
      }
    }
    KeptCluesHaveNoConflicts(puzzle, solved);
    TextKeepsConflicts(puzzle, board);
    CountMatch(board, "", puzzle, 0);
  }

  // ---------------------------------------------------------------------
  // The game state

  /** The page's global state: board, solution, fixedCells and
      invalidCells. */
  class Game {
    var board: Grid<string>
    var solution: Grid<string>
    var fixedCells: Grid<bool>
    var invalidCells: set<Coord>

    /** The state once a game has started: clues show the solution, every
        cell holds text the input filter admits, and invalidCells is
        exactly the set of conflicting cells. */
    ghost predicate Valid()
      reads this
    {
      && IsGrid(board) && IsGrid(fixedCells)
      && SolvedText(solution)
      && (forall r, c :: 0 <= r < 9 && 0 <= c < 9 ==> Admitted(board[r][c]))
      && (forall r, c :: 0 <= r < 9 && 0 <= c < 9 && fixedCells[r][c] ==> board[r][c] == solution[r][c])
      && invalidCells == Invalid(board, "")
    }

    /** The state before the first game. */
    constructor()
      ensures board == [] && solution == [] && fixedCells == [] && invalidCells == {}
    {
      board, solution, fixedCells, invalidCells := [], [], [], {};
    }

    /** generateNewGame: a solved grid, a puzzle with 40 holes, and the
        three boards built from them; no cell starts out invalid. When the
        fill fails, nothing changes. */
    method NewGame() returns (started: bool)
      modifies this
      ensures started ==> Valid() && invalidCells == {}
      ensures started ==> Count(board, "") == 40
      ensures started ==> forall r, c :: 0 <= r < 9 && 0 <= c < 9 ==> (fixedCells[r][c] <==> board[r][c] != "")
      ensures !started ==> board == old(board) && solution == old(solution)
                           && fixedCells == old(fixedCells) && invalidCells == old(invalidCells)
    {
      var solved, filled := GenerateSolvedBoard();
      if !filled {
        return false;
      }
      CountAbsent(Cells(solved), 0);
      var puzzle := GeneratePuzzle(solved, 40);
      var b, s, f := PlayBoards(solved, puzzle);
      NewBoardsAreValid(Cells(solved), Cells(puzzle), 40, b, s, f);
      board, solution, fixedCells := b, s, f;
      invalidCells := {};
      return true;
    }

    /** onCellInput on an editable cell: the filtered text replaces the
        cell, then the conflicts are recomputed. */
    method CellInput(row: int, col: int, value: string)
      requires Valid() && 0 <= row < 9 && 0 <= col < 9 && !fixedCells[row][col]
      modifies this
      ensures Valid()
      ensures board == old(board)[row := old(board)[row][col := FilterInput(value)]]
      ensures solution == old(solution) && fixedCells == old(fixedCells)
      ensures FilterInput(value) == "" ==> invalidCells <= old(invalidCells)
    {
      var v := FilterInput(value);
      if v == "" {
        ClearingNeverAddsInvalid(board, "", row, col);
      }
      board := board[row := board[row][col := v]];
      invalidCells := FindInvalidCells(board);
    }

    /** checkSolution: success exactly when no cell is empty and every cell
        equals the solution's. */
    method Check() returns (correct: bool)
      requires IsGrid(board) && IsGrid(solution)
      ensures correct <==> forall r, c :: 0 <= r < 9 && 0 <= c < 9 ==> board[r][c] != "" && board[r][c] == solution[r][c]
      ensures SolvedText(solution) ==> (correct <==> board == solution)
      ensures correct && SolvedText(solution) ==> Invalid(board, "") == {}
    {
      for r := 0 to 9
        invariant forall i, c :: 0 <= i < r && 0 <= c < 9 ==> board[i][c] != "" && board[i][c] == solution[i][c]
      {
        for c := 0 to 9
          invariant forall j :: 0 <= j < c ==> board[r][j] != "" && board[r][j] == solution[r][j]
        {
          if board[r][c] == "" || board[r][c] != solution[r][c] {
            return false;
          }
        }
      }
      GridExt(board, solution);
      if SolvedText(solution) {
        SolvedTextIsValid(solution);
      }
      return true;
    }

    /** showSolution: the board becomes the solution, every cell becomes a
        clue, and no cell is invalid. */
    method ShowSolution()
      requires Valid()
      modifies this
      ensures Valid()
      ensures board == solution == old(solution)
      ensures forall r, c :: 0 <= r < 9 && 0 <= c < 9 ==> fixedCells[r][c]
      ensures invalidCells == {}
    {
      for r := 0 to 9
        invariant IsGrid(board) && IsGrid(fixedCells) && solution == old(solution)
        invariant forall i, c :: 0 <= i < r && 0 <= c < 9 ==> board[i][c] == solution[i][c] && fixedCells[i][c]
      {
        for c := 0 to 9
          invariant IsGrid(board) && IsGrid(fixedCells) && solution == old(solution)
          invariant forall i, j :: 0 <= i < r && 0 <= j < 9 ==> board[i][j] == solution[i][j] && fixedCells[i][j]
          invariant forall j :: 0 <= j < c ==> board[r][j] == solution[r][j] && fixedCells[r][j]
        {
          board := board[r := board[r][c := solution[r][c]]];
          fixedCells := fixedCells[r := fixedCells[r][c := true]];
        }
      }
      GridExt(board, solution);
      SolvedTextIsValid(solution);
      invalidCells := {};
    }
  }
}
