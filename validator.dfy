/** The validator: the duplicate detection of validateAndHighlight. For each
    of the 9 rows, 9 columns and 9 blocks it groups the non-empty cells by
    value and marks every cell of a value that occurs twice or more. The
    result is the invalid-cell set of the rules, recomputed from scratch. */
module Validator {
  import opened SudokuRules

  /** Cells of the grid, none listed twice. */
  predicate ValidUnit(unit: seq<Coord>) {
    && (forall i :: 0 <= i < |unit| ==> InGrid(unit[i]))
    && (forall i, j :: 0 <= i < j < |unit| ==> unit[i] != unit[j])
  }

  /** Unit u of the 27, in the order the validator visits them: rows,
      columns, then blocks row by row. */
  function Unit(u: int): (unit: seq<Coord>)
    requires 0 <= u < 27
    ensures |unit| == 9
  {
    if u < 9 then RowUnit(u) else if u < 18 then ColUnit(u - 9) else BlockUnit((u - 18) / 3, (u - 18) % 3)
  }

  /** The cells of a unit whose non-empty value occurs at another cell of
      the same unit. */
  ghost function UnitDups<T>(g: Grid<T>, empty: T, unit: seq<Coord>): set<Coord>
    requires IsGrid(g) && ValidUnit(unit)
  {
    set i | 0 <= i < |unit| && At(g, unit[i]) != empty
              && (exists j :: 0 <= j < |unit| && j != i && At(g, unit[j]) == At(g, unit[i]))
            :: unit[i]
  }

  /** The union of UnitDups over the first n units. */
  ghost function DupsUpTo<T>(g: Grid<T>, empty: T, n: nat): set<Coord>
    requires IsGrid(g) && n <= 27
  {
    if n == 0 then {}
    else
      UnitsAreValid(n - 1);
      DupsUpTo(g, empty, n - 1) + UnitDups(g, empty, Unit(n - 1))
  }

  /** The cells of unit[..k] holding v, in visiting order: the list the
      source's occ[v] holds after k steps. */
  ghost function Positions<T>(g: Grid<T>, unit: seq<Coord>, v: T, k: nat): seq<Coord>
    requires IsGrid(g) && ValidUnit(unit) && k <= |unit|
  {
    if k == 0 then []
    else Positions(g, unit, v, k - 1) + (if At(g, unit[k - 1]) == v then [unit[k - 1]] else [])
  }

  // ---------------------------------------------------------------------
  // Facts about units and positions

  /** Every unit is nine distinct cells of the grid; that they pairwise
      share a row, a column or a block is UnitPeers. */
  lemma UnitsAreValid(u: int)
    requires 0 <= u < 27
    ensures |Unit(u)| == 9 && ValidUnit(Unit(u))
  {
    if 18 <= u {
      BlockUnitShape((u - 18) / 3, (u - 18) % 3);
    }
  }

  /** The cells of a unit pairwise share a row, a column or a block. */
  lemma UnitPeers(u: int, i: int, j: int)
    requires 0 <= u < 27 && 0 <= i < 9 && 0 <= j < 9
    ensures SameUnit(Unit(u)[i], Unit(u)[j])
  {
    if 18 <= u {
      BlockUnitShape((u - 18) / 3, (u - 18) % 3);
      if i < j {
        assert SameBlock(Unit(u)[i], Unit(u)[j]);
      } else if j < i {
        assert SameBlock(Unit(u)[j], Unit(u)[i]);
      }
    }
  }

  lemma PositionsNext<T>(g: Grid<T>, unit: seq<Coord>, v: T, k: nat)
    requires IsGrid(g) && ValidUnit(unit) && k < |unit|
    ensures Positions(g, unit, v, k + 1)
         == if At(g, unit[k]) == v then Positions(g, unit, v, k) + [unit[k]] else Positions(g, unit, v, k)
  {
  }

  lemma {:induction false} PositionsHold<T>(g: Grid<T>, unit: seq<Coord>, v: T, k: nat, p: Coord)
    requires IsGrid(g) && ValidUnit(unit) && k <= |unit|
    requires p in Positions(g, unit, v, k)
    ensures exists i :: 0 <= i < k && unit[i] == p && At(g, unit[i]) == v
  {
    if k > 0 && p !in Positions(g, unit, v, k - 1) {
      assert unit[k - 1] == p && At(g, unit[k - 1]) == v;
    } else if k > 0 {
      PositionsHold(g, unit, v, k - 1, p);
    }
  }

  lemma {:induction false} PositionsInclude<T>(g: Grid<T>, unit: seq<Coord>, v: T, k: nat, i: nat)
    requires IsGrid(g) && ValidUnit(unit) && i < k <= |unit| && At(g, unit[i]) == v
    ensures unit[i] in Positions(g, unit, v, k)
  {
    if i < k - 1 {
      PositionsInclude(g, unit, v, k - 1, i);
    }
  }

  /** Two different indices holding v make at least two positions. */
  lemma {:induction false} PositionsTwo<T>(g: Grid<T>, unit: seq<Coord>, v: T, k: nat, i: nat, j: nat)
    requires IsGrid(g) && ValidUnit(unit) && i < j < k <= |unit|
    requires At(g, unit[i]) == v && At(g, unit[j]) == v
    ensures |Positions(g, unit, v, k)| >= 2
  {
    if j < k - 1 {
      PositionsTwo(g, unit, v, k - 1, i, j);
    } else {
      PositionsInclude(g, unit, v, k - 1, i);
    }
  }

  /** At least two positions of v give, for each one, another one. */
  lemma {:induction false} PositionsOther<T>(g: Grid<T>, unit: seq<Coord>, v: T, k: nat, i: nat)
    requires IsGrid(g) && ValidUnit(unit) && i < k <= |unit| && At(g, unit[i]) == v
    requires |Positions(g, unit, v, k)| >= 2
    ensures exists j :: 0 <= j < k && j != i && At(g, unit[j]) == v
  {
    var prev := Positions(g, unit, v, k - 1);
    if At(g, unit[k - 1]) == v && k - 1 != i {
      assert At(g, unit[k - 1]) == v;
    } else if At(g, unit[k - 1]) == v {
      assert |prev| >= 1;
      PositionsHold(g, unit, v, k - 1, prev[0]);
    } else {
      PositionsOther(g, unit, v, k - 1, i);
    }
  }

  /** The grouping view of UnitDups: a cell is a duplicate exactly when it
      is among the positions of a non-empty value with two or more. */
  lemma UnitDupsByPositions<T>(g: Grid<T>, empty: T, unit: seq<Coord>, p: Coord)
    requires IsGrid(g) && ValidUnit(unit)
    ensures p in UnitDups(g, empty, unit) <==>
              exists v :: v != empty && |Positions(g, unit, v, |unit|)| >= 2 && p in Positions(g, unit, v, |unit|)
  {
    var n := |unit|;
    if p in UnitDups(g, empty, unit) {
      var i :| 0 <= i < n && unit[i] == p && At(g, unit[i]) != empty
                && exists j :: 0 <= j < n && j != i && At(g, unit[j]) == At(g, unit[i]);
      var j :| 0 <= j < n && j != i && At(g, unit[j]) == At(g, unit[i]);
      var v := At(g, unit[i]);
      if i < j {
        PositionsTwo(g, unit, v, n, i, j);
      } else {
        PositionsTwo(g, unit, v, n, j, i);
      }
      PositionsInclude(g, unit, v, n, i);
    }
    if exists v :: v != empty && |Positions(g, unit, v, n)| >= 2 && p in Positions(g, unit, v, n) {
      var v :| v != empty && |Positions(g, unit, v, n)| >= 2 && p in Positions(g, unit, v, n);
      PositionsHold(g, unit, v, n, p);
      var i :| 0 <= i < n && unit[i] == p && At(g, unit[i]) == v;
      PositionsOther(g, unit, v, n, i);
    }
  }

  /** A cell one of the first n units marks is in their union. */
  lemma {:induction false} DupsUpToHas<T>(g: Grid<T>, empty: T, n: nat, u: int, p: Coord)
    requires IsGrid(g) && 0 <= u < n <= 27 && ValidUnit(Unit(u))
    requires p in UnitDups(g, empty, Unit(u))
    ensures p in DupsUpTo(g, empty, n)
  {
    if u < n - 1 {
      DupsUpToHas(g, empty, n - 1, u, p);
    }
  }

  /** A cell of the union of the first n units' duplicates is marked by one
      of them. */
  lemma {:induction false} DupsUpToFrom<T>(g: Grid<T>, empty: T, n: nat, p: Coord)
    requires IsGrid(g) && n <= 27 && p in DupsUpTo(g, empty, n)
    ensures exists u :: 0 <= u < n && IsUnitIndex(u) && p in UnitDups(g, empty, Unit(u))
  {
    UnitsAreValid(n - 1);
    if p in UnitDups(g, empty, Unit(n - 1)) {
      assert IsUnitIndex(n - 1);
    } else {
      DupsUpToFrom(g, empty, n - 1, p);
    }
  }

  /** A unit index together with the facts that make UnitDups of it
      well defined. */
  predicate IsUnitIndex(u: int) {
    0 <= u < 27 && ValidUnit(Unit(u))
  }

  lemma DupIsInvalid<T>(g: Grid<T>, empty: T, u: int, p: Coord)
    requires IsGrid(g) && 0 <= u < 27 && ValidUnit(Unit(u))
    requires p in UnitDups(g, empty, Unit(u))
    ensures p in Invalid(g, empty)
  {
    UnitsAreValid(u);
    var U := Unit(u);
    var i :| 0 <= i < |U| && U[i] == p && At(g, U[i]) != empty
              && exists j :: 0 <= j < |U| && j != i && At(g, U[j]) == At(g, U[i]);
    var j :| 0 <= j < |U| && j != i && At(g, U[j]) == At(g, U[i]);
    UnitPeers(u, i, j);
    if i < j {
      assert U[i] != U[j];
    } else {
      assert U[j] != U[i];
    }
    assert Conflict(g, empty, p, U[j]);
  }

  /** Where the rows, the columns and the blocks sit among the units. */
  lemma UnitsLayout(k: int)
    requires 0 <= k < 9
    ensures Unit(k) == RowUnit(k)
    ensures Unit(9 + k) == ColUnit(k)
  {
  }

  lemma BlockAt(br: int, bc: int)
    requires 0 <= br < 3 && 0 <= bc < 3
    ensures Unit(18 + br * 3 + bc) == BlockUnit(br, bc)
  {
    DigitPair(br, bc);
  }

  /** Adding one more unit to DupsUpTo adds that unit's duplicates. */
  lemma DupsStep<T>(g: Grid<T>, empty: T, n: nat, unit: seq<Coord>)
    requires IsGrid(g) && n < 27 && unit == Unit(n)
    ensures ValidUnit(unit)
    ensures DupsUpTo(g, empty, n + 1) == DupsUpTo(g, empty, n) + UnitDups(g, empty, unit)
  {
    UnitsAreValid(n);
  }

  /** A cell of unit U at index i conflicting with the cell at index j is a
      duplicate of U. */
  lemma ConflictInUnit<T>(g: Grid<T>, empty: T, u: int, i: int, j: int, p: Coord, q: Coord)
    requires IsGrid(g) && 0 <= u < 27 && 0 <= i < 9 && 0 <= j < 9
    requires |Unit(u)| == 9 && ValidUnit(Unit(u)) && Unit(u)[i] == p && Unit(u)[j] == q
    requires Conflict(g, empty, p, q)
    ensures IsUnitIndex(u) && p in UnitDups(g, empty, Unit(u))
  {
    assert i != j;
  }
  lemma InvalidIsDup<T>(g: Grid<T>, empty: T, p: Coord)
    requires IsGrid(g) && p in Invalid(g, empty)
    ensures exists u :: 0 <= u < 27 && IsUnitIndex(u) && p in UnitDups(g, empty, Unit(u))
  {
    var q :| Conflict(g, empty, p, q);
    var u := ConflictUnit(g, empty, p, q);
  }

  /** The unit two conflicting cells share: their row, else their column,
      else their block. */
  lemma ConflictUnit<T>(g: Grid<T>, empty: T, p: Coord, q: Coord) returns (u: int)
    requires IsGrid(g) && Conflict(g, empty, p, q)
    ensures 0 <= u < 27 && IsUnitIndex(u) && p in UnitDups(g, empty, Unit(u))
  {
    if q.0 == p.0 {
      u := p.0;
      UnitsLayout(p.0);
      UnitsAreValid(u);
      ConflictInUnit(g, empty, u, p.1, q.1, p, q);
    } else if q.1 == p.1 {
      u := 9 + p.1;
      UnitsLayout(p.1);
      UnitsAreValid(u);
      ConflictInUnit(g, empty, u, p.0, q.0, p, q);
    } else {
      u := BlockConflictUnit(g, empty, p, q);
    }
  }

  lemma BlockConflictUnit<T>(g: Grid<T>, empty: T, p: Coord, q: Coord) returns (u: int)
    requires IsGrid(g) && Conflict(g, empty, p, q) && SameBlock(p, q)
    ensures 0 <= u < 27 && IsUnitIndex(u) && p in UnitDups(g, empty, Unit(u))
  {
    SameBlockDiv(p, q);
    var i, j, u';
    u, i := CellInBlock(p);
    u', j := CellInBlock(q);
    UnitsAreValid(u);
    ConflictInUnit(g, empty, u, i, j, p, q);
  }

  /** Cells of one block agree on their row and column divided by 3. */
  lemma SameBlockDiv(p: Coord, q: Coord)
    requires InGrid(p) && InGrid(q) && SameBlock(p, q)
    ensures q.0 / 3 == p.0 / 3 && q.1 / 3 == p.1 / 3
    ensures BlockOf(p) == BlockOf(q)
  {
  }

  /** The index among the units of the block holding cell p. */
  function BlockOf(p: Coord): int {
    18 + (p.0 / 3) * 3 + p.1 / 3
  }

  /** The block unit holding a cell, and the cell's index in it. */
  lemma CellInBlock(p: Coord) returns (u: int, i: int)
    requires InGrid(p)
    ensures u == BlockOf(p) && 18 <= u < 27 && 0 <= i < 9 && Unit(u)[i] == p
  {
    u, i := 18 + (p.0 / 3) * 3 + p.1 / 3, (p.0 % 3) * 3 + p.1 % 3;
    BlockAt(p.0 / 3, p.1 / 3);
    DigitPair(p.0 % 3, p.1 % 3);
  }

  /** Base-3 digits of a number below 9. */
  lemma DigitPair(a: int, b: int)
    requires 0 <= a < 3 && 0 <= b < 3
    ensures (a * 3 + b) / 3 == a && (a * 3 + b) % 3 == b
  {
  }

  /** The invalid-cell set is the union, over the 27 units, of the cells
      whose value is repeated inside the unit. */
  lemma InvalidIsUnionOfUnitDups<T>(g: Grid<T>, empty: T)
    requires IsGrid(g)
    ensures Invalid(g, empty) == DupsUpTo(g, empty, 27)
  {
    forall p | p in Invalid(g, empty)
      ensures p in DupsUpTo(g, empty, 27)
    {
      InvalidIsDup(g, empty, p);
      var u :| 0 <= u < 27 && IsUnitIndex(u) && p in UnitDups(g, empty, Unit(u));
      DupsUpToHas(g, empty, 27, u, p);
    }
    forall p | p in DupsUpTo(g, empty, 27)
      ensures p in Invalid(g, empty)
    {
      DupsUpToFrom(g, empty, 27, p);
      var u :| 0 <= u < 27 && IsUnitIndex(u) && p in UnitDups(g, empty, Unit(u));
      DupIsInvalid(g, empty, u, p);
    }
  }

  // ---------------------------------------------------------------------
  // The validator

  /** The first half of one group of validateAndHighlight: occ maps each
      non-empty value of the unit to the cells holding it, in visiting
      order. */
  method GroupByValue(board: Grid<string>, unit: seq<Coord>) returns (occ: map<string, seq<Coord>>)
    requires IsGrid(board) && ValidUnit(unit)
    ensures forall v :: v in occ <==> v != "" && Positions(board, unit, v, |unit|) != []
    ensures forall v :: v in occ ==> occ[v] == Positions(board, unit, v, |unit|)
  {
    occ := map[];
    for k := 0 to |unit|
      invariant forall v :: v in occ <==> v != "" && Positions(board, unit, v, k) != []
      invariant forall v :: v in occ ==> occ[v] == Positions(board, unit, v, k)
    {
      var v := board[unit[k].0][unit[k].1];
      ghost var before := occ;
      if v != "" {
        if v !in occ {
          occ := occ[v := []];
        }
        occ := occ[v := occ[v] + [unit[k]]];
      }
      forall w
        ensures w in occ <==> w != "" && Positions(board, unit, w, k + 1) != []
        ensures w in occ ==> occ[w] == Positions(board, unit, w, k + 1)
      {
        PositionsNext(board, unit, w, k);
        if w != v {
          assert w in occ <==> w in before;
        }
      }
    }
  }

  /** The second half: every cell listed under a value with more than one
      cell, the keys visited in any order. */
  method MarkRepeated(occ: map<string, seq<Coord>>) returns (dups: set<Coord>)
    ensures forall p :: p in dups <==> exists v :: v in occ && |occ[v]| > 1 && p in occ[v]
  {
    dups := {};
    var keys := occ.Keys;
    while keys != {}
      invariant keys <= occ.Keys
      invariant forall p :: p in dups <==> exists v :: v in occ && v !in keys && |occ[v]| > 1 && p in occ[v]
      decreases keys
    {
      var v :| v in keys;
      if |occ[v]| > 1 {
        var cells := occ[v];
        for i := 0 to |cells|
          invariant forall p :: p in dups <==>
                      (exists w :: w in occ && w !in keys && |occ[w]| > 1 && p in occ[w]) || p in cells[..i]
        {
          assert cells[..i + 1] == cells[..i] + [cells[i]];
          dups := dups + {cells[i]};
        }
        assert cells[..|cells|] == cells;
      }
      keys := keys - {v};
    }
  }

  /** One group of validateAndHighlight: the cells of the unit whose value
      is repeated in it. */
  method UnitDuplicates(board: Grid<string>, unit: seq<Coord>) returns (dups: set<Coord>)
    requires IsGrid(board) && ValidUnit(unit)
    ensures dups == UnitDups(board, "", unit)
  {
    var occ := GroupByValue(board, unit);
    dups := MarkRepeated(occ);
    forall p
      ensures p in dups <==> p in UnitDups(board, "", unit)
    {
      UnitDupsByPositions(board, "", unit, p);
      var n := |unit|;
      if p in dups {
        var v :| v in occ && |occ[v]| > 1 && p in occ[v];
        assert v != "" && |Positions(board, unit, v, n)| >= 2 && p in Positions(board, unit, v, n);
      }
      if p in UnitDups(board, "", unit) {
        var v :| v != "" && |Positions(board, unit, v, n)| >= 2 && p in Positions(board, unit, v, n);
        assert v in occ && |occ[v]| > 1 && p in occ[v];
      }
    }
  }

  /** validateAndHighlight without the display update: the rows, then the
      columns, then the blocks, each unit's duplicates added to one set. */
  method FindInvalidCells(board: Grid<string>) returns (invalid: set<Coord>)
    requires IsGrid(board)
    ensures invalid == Invalid(board, "")
  {
    invalid := {};
    ghost var n := 0;  // units visited so far
    for r := 0 to 9
      invariant n == r && invalid == DupsUpTo(board, "", n)
    {
      UnitsLayout(r);
      DupsStep(board, "", n, RowUnit(r));
      var d := UnitDuplicates(board, RowUnit(r));
      invalid := invalid + d;
      n := n + 1;
    }
    for c := 0 to 9
      invariant n == 9 + c && invalid == DupsUpTo(board, "", n)
    {
      UnitsLayout(c);
      DupsStep(board, "", n, ColUnit(c));
      var d := UnitDuplicates(board, ColUnit(c));
      invalid := invalid + d;
      n := n + 1;
    }
    for br := 0 to 3
      invariant n == 18 + br * 3 && invalid == DupsUpTo(board, "", n)
    {
      for bc := 0 to 3
        invariant n == 18 + br * 3 + bc && invalid == DupsUpTo(board, "", n)
      {
        BlockAt(br, bc);
        DupsStep(board, "", n, BlockUnit(br, bc));
        var d := UnitDuplicates(board, BlockUnit(br, bc));
        invalid := invalid + d;
        n := n + 1;
      }
    }
    InvalidIsUnionOfUnitDups(board, "");
  }

  // ---------------------------------------------------------------------
  // Worked cases

  /** A board with no entries has no invalid cell. */
  lemma EmptyBoardHasNoInvalid(g: Grid<string>)
    requires IsGrid(g) && forall r, c :: 0 <= r < 9 && 0 <= c < 9 ==> g[r][c] == ""
    ensures Invalid(g, "") == {}
  {
  }

  /** A board whose only entries are two equal values at p and q: both
      cells are invalid exactly when p and q share a row, a column or a
      block, and nothing else is. */
  lemma EqualPairInOneUnitIsInvalid(g: Grid<string>, p: Coord, q: Coord)
    requires IsGrid(g) && InGrid(p) && InGrid(q) && p != q && SameUnit(p, q)
    requires At(g, p) != "" && At(g, p) == At(g, q)
    requires forall r, c :: 0 <= r < 9 && 0 <= c < 9 && (r, c) != p && (r, c) != q ==> g[r][c] == ""
    ensures Invalid(g, "") == {p, q}
  {
    assert Conflict(g, "", p, q);
    assert Conflict(g, "", q, p);
  }

  /** The same two equal entries in no common unit leave the board valid. */
  lemma EqualPairApartIsValid(g: Grid<string>, p: Coord, q: Coord)
    requires IsGrid(g) && InGrid(p) && InGrid(q) && !SameUnit(p, q)
    requires forall r, c :: 0 <= r < 9 && 0 <= c < 9 && (r, c) != p && (r, c) != q ==> g[r][c] == ""
    ensures Invalid(g, "") == {}
  {
  }
}
