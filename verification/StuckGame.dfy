/** A game on a 4 by 4 grid that reaches a point where the manager refuses whatever the player may type. */
module StuckGame {
  import opened Grid
  import opened Messages
  import opened Game

  // ---------------------------------------------------------------- reaching a state

  ghost predicate Reached(w0: World, w: World, n: nat, max: nat) {
    exists steps :: CanRun(w0, steps, n, max) && Run(w0, steps, n, max) == w
  }

  lemma {:induction false} RunAppend(w: World, steps: seq<Step>, step: Step, n: nat, max: nat)
    requires CanRun(w, steps, n, max) && Enabled(Run(w, steps, n, max), step, n, max)
    ensures CanRun(w, steps + [step], n, max)
    ensures Run(w, steps + [step], n, max) == Next(Run(w, steps, n, max), step, n, max)
    decreases |steps|
  {
    if steps == [] {
      var next := Next(w, step, n, max);
      assert steps + [step] == [step] && [step][1..] == [];
      assert CanRun(next, [], n, max) && Run(next, [], n, max) == next;
    } else {
      assert (steps + [step])[1..] == steps[1..] + [step];
      RunAppend(Next(w, steps[0], n, max), steps[1..], step, n, max);
    }
  }

  lemma Extend(w0: World, w: World, step: Step, n: nat, max: nat) returns (w': World)
    requires Reached(w0, w, n, max) && Enabled(w, step, n, max)
    ensures w' == Next(w, step, n, max) && Reached(w0, w', n, max)
  {
    var steps :| CanRun(w0, steps, n, max) && Run(w0, steps, n, max) == w;
    RunAppend(w0, steps, step, n, max);
    w' := Next(w, step, n, max);
  }

  /** At the top of the manager's loop, the player to move, and nothing in the pipes. */
  ghost predicate AtTurn(w: World, g: seq<int>) {
    w.gm == Turn(true) && w.player == Reading && w.toPlayer == [] && w.toGm == [] && w.grid == g
  }

  /** The player is asked and answers with cell c. */
  lemma Answer(w0: World, w: World, g: seq<int>, c: nat, n: nat, max: nat) returns (w': World)
    requires Reached(w0, w, n, max) && AtTurn(w, g) && |g| == n * n && c < 9 && max >= 2 && Legal(g, c)
    ensures Reached(w0, w', n, max)
    ensures w'.gm == Moved(true) && w'.player == Reading && w'.toPlayer == [] && w'.toGm == []
    ensures w'.grid == g[c := PLAYER_ID]
  {
    var w1 := Extend(w0, w, Grant, n, max);
    var w2 := Extend(w0, w1, Receive, n, max);
    OneDigit(c, max);
    var w3 := Extend(w0, w2, Type([ToDigit(c + 1)], c), n, max);
    w' := Extend(w0, w3, TakeMove, n, max);
  }

  /** Then the game goes on, the computer takes the lowest empty cell, and the game goes on again. */
  lemma Reply(w0: World, w: World, g: seq<int>, e: nat, n: nat, max: nat) returns (w': World)
    requires Reached(w0, w, n, max) && |g| == n * n && LowestEmpty(g) == e
    requires w.gm == Moved(true) && w.player == Reading && w.toPlayer == [] && w.toGm == [] && w.grid == g
    requires Verdict(g, n) == STATE_PROGRESS && Verdict(g[e := AI_ID], n) == STATE_PROGRESS
    ensures Reached(w0, w', n, max) && AtTurn(w', g[e := AI_ID])
  {
    var w1 := Extend(w0, w, Check, n, max);
    var w2 := Extend(w0, w1, Compute, n, max);
    w' := Extend(w0, w2, Check, n, max);
  }

  // ---------------------------------------------------------------- the grid the game ends up with

  const A := AI_ID
  const P := PLAYER_ID

  const FINAL: seq<int> := [A, P, A, P, P, A, P, A, P, A, 0, 0, 0, 0, 0, 0]

  /** The marks of g are among those of h. */
  ghost predicate Below(g: seq<int>, h: seq<int>) {
    |g| == |h| && forall k :: 0 <= k < |g| && g[k] != EMPTY_ID ==> h[k] == g[k]
  }

  /** A grid with fewer marks has no line the other has not. */
  lemma BelowHasNoLine(g: seq<int>, h: seq<int>, n: nat)
    requires |g| == n * n && Below(g, h) && !Won(h, n)
    ensures !Won(g, n)
  {
    forall l, who | OnGrid(l, n) && (who == AI_ID || who == PLAYER_ID)
      ensures Owns(g, n, l, who) ==> Owns(h, n, l, who)
    {
    }
  }

  lemma HasEmpty(g: seq<int>, n: nat, l: Line, k: nat)
    requires |g| == n * n && OnGrid(l, n) && k < n && g[At(l, n, k)] == EMPTY_ID
    ensures !Complete(g, n, l)
  {
  }

  lemma FinalRow(r: nat)
    requires r < 4
    ensures !Complete(FINAL, 4, Row(r))
  {
    if r == 3 { HasEmpty(FINAL, 4, Row(3), 0); } else { MixedAt(FINAL, 4, Row(r), 0, 1); }
  }

  lemma FinalColumn(c: nat)
    requires c < 4
    ensures !Complete(FINAL, 4, Column(c))
  {
    MixedAt(FINAL, 4, Column(c), 0, 1);
  }

  lemma FinalOpen()
    ensures !Won(FINAL, 4)
  {
    forall r | 0 <= r < 4 ensures !Complete(FINAL, 4, Row(r)) { FinalRow(r); }
    forall c | 0 <= c < 4 ensures !Complete(FINAL, 4, Column(c)) { FinalColumn(c); }
    HasEmpty(FINAL, 4, Diagonal, 2);
    HasEmpty(FINAL, 4, AntiDiagonal, 3);
    NoLine(FINAL, 4);
  }

  lemma InProgress(g: seq<int>)
    requires Below(g, FINAL) && g[15] == EMPTY_ID
    ensures Verdict(g, 4) == STATE_PROGRESS
  {
    FinalOpen();
    BelowHasNoLine(g, FINAL, 4);
  }

  lemma LowestIs(g: seq<int>, e: nat)
    requires e < |g| && g[e] == EMPTY_ID && forall k :: 0 <= k < e ==> g[k] != EMPTY_ID
    ensures LowestEmpty(g) == e
  {
    assert !Full(g) && g[LowestEmpty(g)] == EMPTY_ID;
  }

  /** One move of each side on the way to the final grid. */
  lemma Round(w0: World, w: World, g: seq<int>, c: nat, e: nat, g': seq<int>, max: nat) returns (w': World)
    requires Reached(w0, w, 4, max) && AtTurn(w, g) && |g| == 16 && c < 9 && e < 15 && c != e && max >= 2
    requires g[c] == EMPTY_ID && g[e] == EMPTY_ID && (forall k :: 0 <= k < e && k != c ==> g[k] != EMPTY_ID)
    requires g' == g[c := P][e := A] && Below(g', FINAL) && g'[15] == EMPTY_ID
    ensures Reached(w0, w', 4, max) && AtTurn(w', g')
  {
    var g1 := g[c := P];
    var w1 := Answer(w0, w, g, c, 4, max);
    LowestIs(g1, e);
    InProgress(g1);
    InProgress(g');
    w' := Reply(w0, w1, g1, e, 4, max);
  }

  const G0: seq<int> := [0, 0, 0, 0, 0, 0, 0, 0, 0, 0, 0, 0, 0, 0, 0, 0]
  const G1: seq<int> := [A, P, 0, 0, 0, 0, 0, 0, 0, 0, 0, 0, 0, 0, 0, 0]
  const G2: seq<int> := [A, P, A, 0, P, 0, 0, 0, 0, 0, 0, 0, 0, 0, 0, 0]
  const G3: seq<int> := [A, P, A, P, P, A, 0, 0, 0, 0, 0, 0, 0, 0, 0, 0]
  const G4: seq<int> := [A, P, A, P, P, A, P, A, 0, 0, 0, 0, 0, 0, 0, 0]

  lemma Opening(w0: World, max: nat) returns (w: World)
    requires Initial(w0, 4)
    ensures Reached(w0, w, 4, max) && AtTurn(w, G0)
  {
    assert CanRun(w0, [], 4, max) && Run(w0, [], 4, max) == w0;
    var w1 := Extend(w0, w0, Start, 4, max);
    w := Extend(w0, w1, Receive, 4, max);
    assert w.grid == G0;
  }

  lemma Round1(w0: World, w: World, max: nat) returns (w': World)
    requires Reached(w0, w, 4, max) && AtTurn(w, G0) && max >= 2
    ensures Reached(w0, w', 4, max) && AtTurn(w', G1)
  {
    assert G1 == G0[1 := P][0 := A];
    w' := Round(w0, w, G0, 1, 0, G1, max);
  }

  lemma Round2(w0: World, w: World, max: nat) returns (w': World)
    requires Reached(w0, w, 4, max) && AtTurn(w, G1) && max >= 2
    ensures Reached(w0, w', 4, max) && AtTurn(w', G2)
  {
    assert G2 == G1[4 := P][2 := A];
    w' := Round(w0, w, G1, 4, 2, G2, max);
  }

  lemma Round3(w0: World, w: World, max: nat) returns (w': World)
    requires Reached(w0, w, 4, max) && AtTurn(w, G2) && max >= 2
    ensures Reached(w0, w', 4, max) && AtTurn(w', G3)
  {
    assert G3 == G2[3 := P][5 := A];
    w' := Round(w0, w, G2, 3, 5, G3, max);
  }

  lemma Round4(w0: World, w: World, max: nat) returns (w': World)
    requires Reached(w0, w, 4, max) && AtTurn(w, G3) && max >= 2
    ensures Reached(w0, w', 4, max) && AtTurn(w', G4)
  {
    assert G4 == G3[6 := P][7 := A];
    w' := Round(w0, w, G3, 6, 7, G4, max);
  }

  lemma Round5(w0: World, w: World, max: nat) returns (w': World)
    requires Reached(w0, w, 4, max) && AtTurn(w, G4) && max >= 2
    ensures Reached(w0, w', 4, max) && AtTurn(w', FINAL)
  {
    assert FINAL == G4[8 := P][9 := A];
    w' := Round(w0, w, G4, 8, 9, FINAL, max);
  }

  lemma NineFull(line: string, max: nat, move: int)
    requires Reads(line, max, move)
    ensures !Legal(FINAL, move)
  {
    assert move < 9;
  }

  /**
    The player takes cells 1, 4, 3, 6 and 8 (counted from 0) and the computer its lowest empty ones: the first nine
    cells are full, it is the player's turn, and every line, however it is read, is refused.
  */
  lemma EveryLineRefused(w0: World, max: nat) returns (w: World)
    requires Initial(w0, 4) && max >= 2
    ensures Reached(w0, w, 4, max) && w.gm == Awaiting
    ensures forall line, move :: Reads(line, max, move) ==> !Legal(w.grid, move)
  {
    w := Opening(w0, max);
    w := Round1(w0, w, max);
    w := Round2(w0, w, max);
    w := Round3(w0, w, max);
    w := Round4(w0, w, max);
    w := Round5(w0, w, max);
    w := Extend(w0, w, Grant, 4, max);
    forall line, move | Reads(line, max, move) ensures !Legal(w.grid, move) {
      NineFull(line, max, move);
    }
  }
}
