/** The grid of tictactoe_gm.c: n rows of n cells in one array, row after row. */
module Grid {
  // The identifiers come from tictactoe.h, which is not part of this model; only their being 1 and -1 matters.
  const AI_ID := 1
  const PLAYER_ID := -1
  const EMPTY_ID := 0

  datatype GameState = STATE_WIN | STATE_DRAW | STATE_PROGRESS

  ghost predicate Marks(g: seq<int>) {
    forall k :: 0 <= k < |g| ==> -1 <= g[k] <= 1
  }

  ghost predicate Square(g: seq<int>, n: nat) {
    n > 0 && |g| == n * n && Marks(g)
  }

  /** The cell in row r and column c. */
  function Cell(n: nat, r: nat, c: nat): (k: nat) { r * n + c }

  lemma CellInGrid(n: nat, r: nat, c: nat)
    requires r < n && c < n
    ensures Cell(n, r, c) < n * n
  {
    assert r * n <= (n - 1) * n;
    assert (n - 1) * n == n * n - n;
  }

  /** The four kinds of lines, as the cell at place k of the line. */
  datatype Line = Row(r: nat) | Column(c: nat) | Diagonal | AntiDiagonal

  predicate OnGrid(l: Line, n: nat) {
    match l
    case Row(r) => r < n
    case Column(c) => c < n
    case _ => true
  }

  function At(l: Line, n: nat, k: nat): (cell: nat)
    requires k < n && OnGrid(l, n)
    ensures cell < n * n
  {
    match l
    case Row(r) => CellInGrid(n, r, k); Cell(n, r, k)
    case Column(c) => CellInGrid(n, k, c); Cell(n, k, c)
    case Diagonal => CellInGrid(n, k, k); Cell(n, k, k)
    case AntiDiagonal => CellInGrid(n, k, n - 1 - k); Cell(n, k, n - 1 - k)
  }

  ghost predicate Owns(g: seq<int>, n: nat, l: Line, who: int)
    requires |g| == n * n && OnGrid(l, n)
  {
    forall k {:trigger At(l, n, k)} :: 0 <= k < n ==> g[At(l, n, k)] == who
  }

  ghost predicate HasLine(g: seq<int>, n: nat, who: int)
    requires |g| == n * n
  {
    exists l :: OnGrid(l, n) && Owns(g, n, l, who)
  }

  // ---------------------------------------------------------------- lines by row and column

  /** The mark in row r and column c. */
  function Mark(g: seq<int>, n: nat, r: nat, c: nat): (mark: int)
    requires |g| == n * n && r < n && c < n
    ensures r * n + c < n * n && mark == g[r * n + c]
  {
    CellInGrid(n, r, c);
    g[r * n + c]
  }

  ghost predicate FullRow(g: seq<int>, n: nat, r: nat, who: int)
    requires |g| == n * n && r < n
  {
    forall c :: 0 <= c < n ==> Mark(g, n, r, c) == who
  }

  ghost predicate FullColumn(g: seq<int>, n: nat, c: nat, who: int)
    requires |g| == n * n && c < n
  {
    forall r :: 0 <= r < n ==> Mark(g, n, r, c) == who
  }

  ghost predicate FullDiagonal(g: seq<int>, n: nat, who: int)
    requires |g| == n * n
  {
    forall k :: 0 <= k < n ==> Mark(g, n, k, k) == who
  }

  /** The mark in row k of the diagonal that starts at the end of the first row. */
  function AntiMark(g: seq<int>, n: nat, k: nat): (mark: int)
    requires |g| == n * n && k < n
    ensures k * n + n - 1 - k < n * n && mark == g[k * n + n - 1 - k]
  {
    Mark(g, n, k, n - 1 - k)
  }

  ghost predicate FullAntiDiagonal(g: seq<int>, n: nat, who: int)
    requires |g| == n * n
  {
    forall k :: 0 <= k < n ==> AntiMark(g, n, k) == who
  }

  /** A whole row, column or diagonal. */
  ghost predicate FullLine(g: seq<int>, n: nat, who: int)
    requires |g| == n * n
  {
    || (exists r :: 0 <= r < n && FullRow(g, n, r, who)) || (exists c :: 0 <= c < n && FullColumn(g, n, c, who))
    || FullDiagonal(g, n, who) || FullAntiDiagonal(g, n, who)
  }

  /** The mark at place k of a line, by row and column. */
  function MarkOn(g: seq<int>, n: nat, l: Line, k: nat): int
    requires |g| == n * n && OnGrid(l, n) && k < n
  {
    match l
    case Row(r) => Mark(g, n, r, k)
    case Column(c) => Mark(g, n, k, c)
    case Diagonal => Mark(g, n, k, k)
    case AntiDiagonal => AntiMark(g, n, k)
  }

  lemma MarkAt(g: seq<int>, n: nat, l: Line, k: nat)
    requires |g| == n * n && OnGrid(l, n) && k < n
    ensures g[At(l, n, k)] == MarkOn(g, n, l, k)
  {
  }

  ghost predicate FullAlong(g: seq<int>, n: nat, l: Line, who: int)
    requires |g| == n * n && OnGrid(l, n)
  {
    match l
    case Row(r) => FullRow(g, n, r, who)
    case Column(c) => FullColumn(g, n, c, who)
    case Diagonal => FullDiagonal(g, n, who)
    case AntiDiagonal => FullAntiDiagonal(g, n, who)
  }

  lemma LineByCell(g: seq<int>, n: nat, l: Line, who: int)
    requires |g| == n * n && OnGrid(l, n)
    ensures Owns(g, n, l, who) <==> FullAlong(g, n, l, who)
  {
    forall k | 0 <= k < n ensures g[At(l, n, k)] == MarkOn(g, n, l, k) {
      MarkAt(g, n, l, k);
    }
    match l
    case Row(r) => assert forall k :: 0 <= k < n ==> MarkOn(g, n, l, k) == Mark(g, n, r, k);
    case Column(c) => assert forall k :: 0 <= k < n ==> MarkOn(g, n, l, k) == Mark(g, n, k, c);
    case Diagonal => assert forall k :: 0 <= k < n ==> MarkOn(g, n, l, k) == Mark(g, n, k, k);
    case AntiDiagonal => assert forall k :: 0 <= k < n ==> MarkOn(g, n, l, k) == AntiMark(g, n, k);
  }

  /** The lines are the rows, the columns and the two diagonals. */
  lemma LinesByCell(g: seq<int>, n: nat, who: int)
    requires |g| == n * n
    ensures HasLine(g, n, who) <==> FullLine(g, n, who)
  {
    forall l | OnGrid(l, n) ensures Owns(g, n, l, who) <==> FullAlong(g, n, l, who) {
      LineByCell(g, n, l, who);
    }
    assert FullAlong(g, n, Diagonal, who) <==> FullDiagonal(g, n, who);
    assert FullAlong(g, n, AntiDiagonal, who) <==> FullAntiDiagonal(g, n, who);
    forall r | 0 <= r < n ensures FullAlong(g, n, Row(r), who) <==> FullRow(g, n, r, who) {
    }
    forall c | 0 <= c < n ensures FullAlong(g, n, Column(c), who) <==> FullColumn(g, n, c, who) {
    }
  }

  ghost predicate Won(g: seq<int>, n: nat)
    requires |g| == n * n
  {
    HasLine(g, n, AI_ID) || HasLine(g, n, PLAYER_ID)
  }

  ghost predicate Full(g: seq<int>) {
    forall k :: 0 <= k < |g| ==> g[k] != EMPTY_ID
  }

  /** What win reports. */
  ghost function Verdict(g: seq<int>, n: nat): GameState
    requires |g| == n * n
  {
    if Won(g, n) then STATE_WIN else if Full(g) then STATE_DRAW else STATE_PROGRESS
  }

  /** The sum of the first m cells of a line. */
  function Sum(g: seq<int>, n: nat, l: Line, m: nat): int
    requires |g| == n * n && OnGrid(l, n) && m <= n
  {
    if m == 0 then 0 else Sum(g, n, l, m - 1) + g[At(l, n, m - 1)]
  }

  /** A sum of m marks is m only if all of them are 1, and -m only if all are -1. */
  lemma {:induction false} SumTells(g: seq<int>, n: nat, l: Line, m: nat)
    requires Square(g, n) && OnGrid(l, n) && m <= n
    ensures 0 - m <= Sum(g, n, l, m) <= m
    ensures Sum(g, n, l, m) == m <==> forall k :: 0 <= k < m ==> g[At(l, n, k)] == 1
    ensures Sum(g, n, l, m) == 0 - m <==> forall k :: 0 <= k < m ==> g[At(l, n, k)] == -1
  {
    if m > 0 {
      SumTells(g, n, l, m - 1);
    }
  }

  ghost predicate Complete(g: seq<int>, n: nat, l: Line)
    requires |g| == n * n && OnGrid(l, n)
  {
    Owns(g, n, l, AI_ID) || Owns(g, n, l, PLAYER_ID)
  }

  lemma SumIsOwner(g: seq<int>, n: nat, l: Line)
    requires Square(g, n) && OnGrid(l, n)
    ensures Sum(g, n, l, n) == AI_ID * n || Sum(g, n, l, n) == PLAYER_ID * n <==> Complete(g, n, l)
  {
    SumTells(g, n, l, n);
  }

  lemma Indices(n: nat, j: nat, i: nat)
    requires j < n && i < n
    ensures j * n + i == n * j + i == Cell(n, j, i) && (n + 1) * j == Cell(n, j, j)
    ensures (n - 1) * (j + 1) == Cell(n, j, n - 1 - j)
    ensures Cell(n, j, i) < n * n && Cell(n, j, j) < n * n && Cell(n, j, n - 1 - j) < n * n
  {
    CellInGrid(n, j, i);
    CellInGrid(n, j, j);
    CellInGrid(n, j, n - 1 - j);
    assert (n - 1) * (j + 1) == n * j + n - j - 1;
  }

  method RowSum(grid: array<int>, n: nat, i: nat) returns (rowSum: int)
    requires Square(grid[..], n) && i < n
    ensures rowSum == Sum(grid[..], n, Row(i), n)
  {
    var rowIndex := i * n;
    rowSum := 0;
    var j := 0;
    while j < n
      invariant 0 <= j <= n && rowSum == Sum(grid[..], n, Row(i), j)
    {
      Indices(n, i, j);
      rowSum := rowSum + grid[rowIndex + j];
      j := j + 1;
    }
  }

  method ColumnSum(grid: array<int>, n: nat, i: nat) returns (colSum: int)
    requires Square(grid[..], n) && i < n
    ensures colSum == Sum(grid[..], n, Column(i), n)
  {
    colSum := 0;
    var j := 0;
    while j < n
      invariant 0 <= j <= n && colSum == Sum(grid[..], n, Column(i), j)
    {
      Indices(n, j, i);
      colSum := colSum + grid[n * j + i];
      j := j + 1;
    }
  }

  method DiagonalSums(grid: array<int>, n: nat) returns (diag1Sum: int, diag2Sum: int)
    requires Square(grid[..], n)
    ensures diag1Sum == Sum(grid[..], n, Diagonal, n) && diag2Sum == Sum(grid[..], n, AntiDiagonal, n)
    ensures diag1Sum == n <==> FullDiagonal(grid[..], n, 1)
    ensures diag1Sum == 0 - n <==> FullDiagonal(grid[..], n, -1)
    ensures diag2Sum == n <==> FullAntiDiagonal(grid[..], n, 1)
    ensures diag2Sum == 0 - n <==> FullAntiDiagonal(grid[..], n, -1)
  {
    diag1Sum, diag2Sum := 0, 0;
    var i := 0;
    while i < n
      invariant 0 <= i <= n
      invariant diag1Sum == Sum(grid[..], n, Diagonal, i) && diag2Sum == Sum(grid[..], n, AntiDiagonal, i)
    {
      Indices(n, i, i);
      diag1Sum := diag1Sum + grid[(n + 1) * i];
      diag2Sum := diag2Sum + grid[(n - 1) * (i + 1)];
      i := i + 1;
    }
    LineTells(grid[..], n, Diagonal);
    LineTells(grid[..], n, AntiDiagonal);
  }

  lemma LineTells(g: seq<int>, n: nat, l: Line)
    requires Square(g, n) && OnGrid(l, n)
    ensures Sum(g, n, l, n) == n <==> FullAlong(g, n, l, 1)
    ensures Sum(g, n, l, n) == 0 - n <==> FullAlong(g, n, l, -1)
  {
    SumTells(g, n, l, n);
    LineByCell(g, n, l, 1);
    LineByCell(g, n, l, -1);
  }

  lemma VerdictByCell(g: seq<int>, n: nat)
    requires |g| == n * n
    ensures Verdict(g, n) == STATE_WIN <==> FullLine(g, n, 1) || FullLine(g, n, -1)
    ensures Verdict(g, n) == STATE_DRAW <==> Verdict(g, n) != STATE_WIN && 0 !in g
  {
    LinesByCell(g, n, 1);
    LinesByCell(g, n, -1);
  }

  /** The loop over the rows. */
  method AnyRow(grid: array<int>, n: nat) returns (found: bool)
    requires Square(grid[..], n)
    ensures found <==> exists r :: 0 <= r < n && Complete(grid[..], n, Row(r))
  {
    var i := 0;
    while i < n
      invariant 0 <= i <= n && forall r :: 0 <= r < i ==> !Complete(grid[..], n, Row(r))
    {
      var rowSum := RowSum(grid, n, i);
      SumIsOwner(grid[..], n, Row(i));
      if rowSum == AI_ID * n || rowSum == PLAYER_ID * n {
        return true;
      }
      i := i + 1;
    }
    return false;
  }

  /** The loop over the columns. */
  method AnyColumn(grid: array<int>, n: nat) returns (found: bool)
    requires Square(grid[..], n)
    ensures found <==> exists c :: 0 <= c < n && Complete(grid[..], n, Column(c))
  {
    var i := 0;
    while i < n
      invariant 0 <= i <= n && forall c :: 0 <= c < i ==> !Complete(grid[..], n, Column(c))
    {
      var colSum := ColumnSum(grid, n, i);
      SumIsOwner(grid[..], n, Column(i));
      if colSum == AI_ID * n || colSum == PLAYER_ID * n {
        return true;
      }
      i := i + 1;
    }
    return false;
  }

  /** The last loop: is a cell empty? */
  method AnyEmpty(grid: array<int>, n: nat) returns (found: bool)
    requires grid.Length == n * n
    ensures found <==> 0 in grid[..]
  {
    var i := 0;
    while i < n * n
      invariant 0 <= i <= n * n && forall k :: 0 <= k < i ==> grid[k] != EMPTY_ID
    {
      if grid[i] == EMPTY_ID {
        return true;
      }
      i := i + 1;
    }
    return false;
  }

  /** win. */
  method Win(grid: array<int>, n: nat) returns (state: GameState)
    requires Square(grid[..], n)
    ensures state == Verdict(grid[..], n)
    ensures state == STATE_WIN <==> FullLine(grid[..], n, 1) || FullLine(grid[..], n, -1)
    ensures state == STATE_DRAW <==> state != STATE_WIN && 0 !in grid[..]
  {
    VerdictByCell(grid[..], n);
    var found := AnyRow(grid, n);
    if found {
      return STATE_WIN;
    }
    found := AnyColumn(grid, n);
    if found {
      return STATE_WIN;
    }
    var diag1Sum, diag2Sum := DiagonalSums(grid, n);
    SumIsOwner(grid[..], n, Diagonal);
    SumIsOwner(grid[..], n, AntiDiagonal);
    if diag1Sum == AI_ID * n || diag1Sum == PLAYER_ID * n {
      return STATE_WIN;
    }
    if diag2Sum == AI_ID * n || diag2Sum == PLAYER_ID * n {
      return STATE_WIN;
    }
    NoLine(grid[..], n);
    var empty := AnyEmpty(grid, n);
    state := if empty then STATE_PROGRESS else STATE_DRAW;
  }

  lemma NoLine(g: seq<int>, n: nat)
    requires |g| == n * n
    requires forall r :: 0 <= r < n ==> !Complete(g, n, Row(r))
    requires forall c :: 0 <= c < n ==> !Complete(g, n, Column(c))
    requires !Complete(g, n, Diagonal) && !Complete(g, n, AntiDiagonal)
    ensures !Won(g, n)
  {
  }

  /** A move on a grid without a line can only complete lines of the one who moves. */
  lemma NewLineIsMovers(g: seq<int>, n: nat, c: nat, who: int, other: int)
    requires |g| == n * n && c < |g| && who != other && !HasLine(g, n, other)
    ensures !HasLine(g[c := who], n, other)
  {
  }

  // ---------------------------------------------------------------- the computer's move

  /** The lowest empty cell, or -1. */
  function LowestEmpty(g: seq<int>): (move: int)
    ensures -1 <= move < |g|
    ensures move == -1 <==> Full(g)
    ensures move != -1 ==> g[move] == EMPTY_ID && forall k :: 0 <= k < move ==> g[k] != EMPTY_ID
  {
    if g == [] then -1
    else if g[0] == EMPTY_ID then 0
    else var m := LowestEmpty(g[1..]); if m == -1 then -1 else m + 1
  }

  /** minmax: whatever the grid, the player and the depth, the score is 0 and the grid is as before. */
  method Minmax(grid: array<int>, player: int, depth: nat) returns (score: int)
    modifies grid
    ensures score == 0 && grid[..] == old(grid[..])
    decreases depth
  {
    if depth == 0 {
      return 0;
    }
    var move := -1;
    score := -2;
    var i := 0;
    while i < grid.Length
      invariant 0 <= i <= grid.Length && grid[..] == old(grid[..])
      invariant score == if move == -1 then -2 else 0
    {
      if grid[i] == EMPTY_ID {
        grid[i] := player;
        var reply := Minmax(grid, -player, depth - 1);
        var next_score := -reply;
        if next_score > score {
          score := next_score;
          move := i;
        }
        grid[i] := 0;
        if score > 0 {
          return score;
        }
      }
      i := i + 1;
    }
    if move == -1 {
      return 0;
    }
  }

  /** computers_turn: the search always settles for the lowest empty cell, counted from 1; 0 on a full grid. */
  method ComputersTurn(grid: array<int>, maxDepth: nat) returns (turn: int)
    requires maxDepth > 0
    modifies grid
    ensures turn == LowestEmpty(old(grid[..])) + 1 && grid[..] == old(grid[..])
  {
    var move := -1;
    var score := -2;
    var i := 0;
    while i < grid.Length
      invariant 0 <= i <= grid.Length && grid[..] == old(grid[..])
      invariant score == if move == -1 then -2 else 0
      invariant move == -1 ==> forall k :: 0 <= k < i ==> grid[k] != EMPTY_ID
      invariant move != -1 ==> move == LowestEmpty(grid[..])
    {
      if grid[i] == EMPTY_ID {
        grid[i] := AI_ID;
        var reply := Minmax(grid, AI_ID, maxDepth - 1);
        var tempScore := -reply;
        if tempScore > score {
          score := tempScore;
          move := i;
        }
        grid[i] := 0;
      }
      i := i + 1;
    }
    turn := move + 1;
  }

  /** The computer has every cell of the line but, at most, cell e. */
  ghost predicate AllBut(g: seq<int>, n: nat, l: Line, e: nat)
    requires |g| == n * n && OnGrid(l, n)
  {
    forall k {:trigger At(l, n, k)} :: 0 <= k < n ==> g[At(l, n, k)] == AI_ID || At(l, n, k) == e
  }

  /** Its move wins exactly when the lowest empty cell happens to be the one missing from a line of its own. */
  lemma WinsByLuck(g: seq<int>, n: nat)
    requires Square(g, n) && !Full(g)
    ensures HasLine(g[LowestEmpty(g) := AI_ID], n, AI_ID) <==>
              exists l :: OnGrid(l, n) && AllBut(g, n, l, LowestEmpty(g))
  {
    var e := LowestEmpty(g);
    var g' := g[e := AI_ID];
    forall l | OnGrid(l, n) ensures Owns(g', n, l, AI_ID) <==> AllBut(g, n, l, e) {
    }
  }

  lemma MixedAt(g: seq<int>, n: nat, l: Line, j: nat, k: nat)
    requires |g| == n * n && OnGrid(l, n) && j < n && k < n && g[At(l, n, j)] != g[At(l, n, k)]
    ensures !Complete(g, n, l)
  {
  }

  const NINE: seq<int> := [AI_ID, PLAYER_ID, PLAYER_ID, AI_ID, AI_ID, EMPTY_ID, PLAYER_ID, EMPTY_ID, EMPTY_ID]

  lemma NineRows(r: nat)
    requires r < 3
    ensures !Complete(NINE, 3, Row(r))
  {
    if r == 1 { MixedAt(NINE, 3, Row(1), 1, 2); } else { MixedAt(NINE, 3, Row(r), 0, 1); }
  }

  lemma NineColumns(c: nat)
    requires c < 3
    ensures !Complete(NINE, 3, Column(c))
  {
    if c == 0 { MixedAt(NINE, 3, Column(0), 0, 2); } else { MixedAt(NINE, 3, Column(c), 0, 1); }
  }

  lemma NineCells()
    ensures !Won(NINE, 3)
  {
    forall r | 0 <= r < 3 ensures !Complete(NINE, 3, Row(r)) { NineRows(r); }
    forall c | 0 <= c < 3 ensures !Complete(NINE, 3, Column(c)) { NineColumns(c); }
    MixedAt(NINE, 3, Diagonal, 0, 2);
    MixedAt(NINE, 3, AntiDiagonal, 0, 1);
    NoLine(NINE, 3);
  }

  lemma RowOne(g: seq<int>)
    requires |g| == 9 && g[3] == g[4] == g[5] == AI_ID
    ensures HasLine(g, 3, AI_ID)
  {
    assert At(Row(1), 3, 0) == 3 && At(Row(1), 3, 1) == 4 && At(Row(1), 3, 2) == 5;
    assert Owns(g, 3, Row(1), AI_ID);
  }

  /** It does not play to win: here cell 5 would complete a row and the computer takes cell 0. */
  lemma MissesAWin(g: seq<int>)
    requires g == [EMPTY_ID, PLAYER_ID, PLAYER_ID, AI_ID, AI_ID, EMPTY_ID, PLAYER_ID, EMPTY_ID, EMPTY_ID]
    ensures Square(g, 3) && LowestEmpty(g) == 0
    ensures HasLine(g[5 := AI_ID], 3, AI_ID) && !Won(g[0 := AI_ID], 3)
  {
    RowOne(g[5 := AI_ID]);
    NineCells();
    assert g[0 := AI_ID] == NINE;
  }
}
