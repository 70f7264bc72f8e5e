/** Tic-tac-toe between two processes: the game manager, the player, and a pipe in each direction. */
module Game {
  import opened Grid
  import opened Messages

  datatype Cmd = GAME_START | GAME_END | YOU_CAN_PLAY | MOVE_REJECTED | NO_WINNER | YOU_WIN | YOU_LOSE

  predicate IsRequest(cmd: Cmd) { cmd == YOU_CAN_PLAY || cmd == MOVE_REJECTED }

  predicate EndsPlayer(cmd: Cmd) { cmd != GAME_START && !IsRequest(cmd) }

  /** The test of get_player_move. */
  predicate Legal(g: seq<int>, move: int) {
    0 <= move < |g| && g[move] == EMPTY_ID
  }

  /** What check_game_state sends after a move by the player or by the computer, if anything. */
  function Announcement(state: GameState, byPlayer: bool): (sent: seq<Cmd>) {
    match state
    case STATE_PROGRESS => []
    case STATE_WIN => [if byPlayer then YOU_WIN else YOU_LOSE]
    case STATE_DRAW => [NO_WINNER]
  }

  /** After a move: a line ends the game for the one who moved, a full grid without one is a draw. */
  lemma AnnouncementIs(g: seq<int>, n: nat, byPlayer: bool)
    requires |g| == n * n
    ensures Announcement(Verdict(g, n), byPlayer) ==
            if FullLine(g, n, 1) || FullLine(g, n, -1) then [if byPlayer then YOU_WIN else YOU_LOSE]
            else if 0 !in g then [NO_WINNER] else []
  {
    VerdictByCell(g, n);
  }

  // ---------------------------------------------------------------- the loops of the two programs

  /** k rejections. */
  function Rejections(k: nat): (sent: seq<Cmd>)
    ensures |sent| == k && forall i :: 0 <= i < k ==> sent[i] == MOVE_REJECTED
  {
    if k == 0 then [] else Rejections(k - 1) + [MOVE_REJECTED]
  }

  class Manager {
    const n: nat
    var grid: array<int>
    var over: bool

    ghost predicate Ready()
      reads this, grid
    {
      Square(grid[..], n)
    }

    constructor (n: nat)
      requires n > 0
      ensures this.n == n && Ready() && fresh(grid) && !over && Board(grid[..], n, Starting)
    {
      this.n := n;
      grid := new int[n * n](i => 0);
      over := false;
      new;
      EmptyBoard(grid[..], n);
    }

    /**
      get_player_move, for the moves that arrive: each is answered, and the first legal one is taken; used > |inbox|
      when it waits for more.
    */
    method GetPlayerMove(inbox: seq<int>) returns (sent: seq<Cmd>, used: nat, move: int)
      ensures 0 < used <= |inbox| + 1 && sent == [YOU_CAN_PLAY] + Rejections(used - 1)
      ensures forall i :: 0 <= i < used - 1 ==> !(0 <= inbox[i] < |grid[..]| && grid[..][inbox[i]] == 0)
      ensures used <= |inbox| ==> move == inbox[used - 1] && 0 <= move < |grid[..]| && grid[..][move] == 0
    {
      sent := [YOU_CAN_PLAY];
      used, move := 0, -1;
      var valid := false;
      while !valid && used < |inbox|
        invariant 0 <= used <= |inbox|
        invariant !valid ==> sent == [YOU_CAN_PLAY] + Rejections(used)
        invariant !valid ==> forall i :: 0 <= i < used ==> !Legal(grid[..], inbox[i])
        invariant valid ==> used > 0 && sent == [YOU_CAN_PLAY] + Rejections(used - 1)
        invariant valid ==> forall i :: 0 <= i < used - 1 ==> !Legal(grid[..], inbox[i])
        invariant valid ==> move == inbox[used - 1] && Legal(grid[..], move)
        decreases |inbox| - used
      {
        move := inbox[used];
        if move < 0 || move > grid.Length - 1 || grid[move] != 0 {
          sent := sent + [MOVE_REJECTED];
        } else {
          valid := true;
        }
        used := used + 1;
      }
      if !valid {
        used := used + 1;
      }
    }

    /** check_game_state. */
    method CheckGameState(currentID: int) returns (sent: seq<Cmd>)
      requires Ready()
      modifies this`over
      ensures sent == Announcement(Verdict(grid[..], n), currentID == PLAYER_ID)
      ensures over == (old(over) || sent != [])
    {
      sent := [];
      var state := Win(grid, n);
      match state
      case STATE_PROGRESS =>
      case STATE_WIN =>
        if currentID == PLAYER_ID {
          sent := sent + [YOU_WIN];
        } else {
          sent := sent + [YOU_LOSE];
        }
        over := true;
      case STATE_DRAW =>
        sent := sent + [NO_WINNER];
        over := true;
    }

    /** The computer's branch of game_manager's loop: false where the move would fall outside the grid. */
    method ComputerMoves(maxDepth: nat) returns (ok: bool)
      requires Ready() && maxDepth > 0
      modifies grid
      ensures ok == !Full(old(grid[..]))
      ensures grid[..] == if ok then old(grid[..])[LowestEmpty(old(grid[..])) := AI_ID] else old(grid[..])
    {
      var turn := ComputersTurn(grid, maxDepth);
      var move := turn - 1;
      if move < 0 {
        return false;
      }
      grid[move] := AI_ID;
      return true;
    }

    /**
     * game_manager, for the moves that arrive. What it sends is GAME_START, one request for each move read, the
     * outcome of the final grid and GAME_END; when it is left waiting for a move, every move has been read and
     * answered with a request.
     */
    method GameManager(inbox: seq<int>, maxDepth: nat) returns (finished: bool, sent: seq<Cmd>, used: nat)
      requires Ready() && Board(grid[..], n, Starting) && !over && maxDepth > 0
      modifies grid, this`over
      ensures Ready() && used <= |inbox| && finished == over
      ensures finished ==> Board(grid[..], n, Ending) && Script(sent, used, [Outcome(grid[..], n), GAME_END])
      ensures !finished ==> Board(grid[..], n, Awaiting) && used == |inbox| && Script(sent, used + 1, [])
      ensures sent == Sends(Starting, old(grid[..]), n, inbox)
    {
      ghost var all := Sends(Starting, grid[..], n, inbox);
      finished, sent, used := true, [GAME_START], 0;
      var player := PLAYER_ID;
      while !over
        invariant Ready() && used <= |inbox| && (player == PLAYER_ID || player == AI_ID) && finished
        invariant !over ==> Board(grid[..], n, Turn(player == PLAYER_ID)) && Script(sent, used, [])
        invariant over ==> Board(grid[..], n, Ending) && Script(sent, used, [Outcome(grid[..], n)])
        invariant all == sent + Sends(if over then Ending else Turn(player == PLAYER_ID), grid[..], n, inbox[used..])
        decreases Count(grid[..], EMPTY_ID), !over
      {
        ghost var g := grid[..];
        if player == PLAYER_ID {
          var requests, read, move := GetPlayerMove(inbox[used..]);
          ScriptGrows(sent, used, requests);
          AnswersMoves(sent, g, n, inbox[used..], read);
          sent := sent + requests;
          if read > |inbox| - used {
            finished, used := false, |inbox|;
            return;
          }
          assert inbox[used..][read..] == inbox[used + read..];
          used := used + read;
          grid[move] := PLAYER_ID;
          MarkKeepsBoard(g, n, move, true);
          assert grid[..] == g[move := PLAYER_ID];
        } else {
          var ok := ComputerMoves(maxDepth);
          MarkKeepsBoard(g, n, LowestEmpty(g), false);
        }
        assert all == sent + Sends(Moved(player == PLAYER_ID), grid[..], n, inbox[used..]);
        CheckedBoard(grid[..], n, player == PLAYER_ID);
        AnnouncesCheck(sent, grid[..], n, inbox[used..], player == PLAYER_ID);
        var announced := CheckGameState(player);
        ScriptEnds(sent, used, announced);
        sent := sent + announced;
        player := if player == PLAYER_ID then AI_ID else PLAYER_ID;
      }
      ScriptSaysBye(sent, used);
      sent := sent + [GAME_END];
    }
  }

  /**
    What the manager has still to send, where it is at `gm` and `moves` are the moves that will arrive; it stops when
    it waits for another.
  */
  ghost function Sends(gm: GmPc, g: seq<int>, n: nat, moves: seq<int>): seq<Cmd>
    requires |g| == n * n
    decreases 7 * Count(g, EMPTY_ID) + Rank(gm) + |moves|
  {
    match gm
    case Starting => [GAME_START] + Sends(Turn(true), g, n, moves)
    case Turn(byPlayer) =>
      if byPlayer then [YOU_CAN_PLAY] + Sends(Awaiting, g, n, moves)
      else if LowestEmpty(g) == -1 then []
      else
        CountUpdate(g, LowestEmpty(g), AI_ID, EMPTY_ID);
        Sends(Moved(false), g[LowestEmpty(g) := AI_ID], n, moves)
    case Awaiting =>
      if moves == [] then []
      else if Legal(g, moves[0]) then
        CountUpdate(g, moves[0], PLAYER_ID, EMPTY_ID);
        Sends(Moved(true), g[moves[0] := PLAYER_ID], n, moves[1..])
      else [MOVE_REJECTED] + Sends(Awaiting, g, n, moves[1..])
    case Moved(byPlayer) =>
      var sent := Announcement(Verdict(g, n), byPlayer);
      sent + Sends(if sent != [] then Ending else Turn(!byPlayer), g, n, moves)
    case Ending => [GAME_END]
    case Waiting => []
  }

  /** The first j moves are rejected. */
  lemma {:induction false} RejectedFirst(g: seq<int>, n: nat, moves: seq<int>, j: nat)
    requires |g| == n * n && j <= |moves| && forall i :: 0 <= i < j ==> !Legal(g, moves[i])
    ensures Sends(Awaiting, g, n, moves) == Rejections(j) + Sends(Awaiting, g, n, moves[j..])
  {
    if j > 0 {
      RejectedFirst(g, n, moves, j - 1);
      assert moves[j - 1..][1..] == moves[j..];
    } else {
      assert moves[0..] == moves;
    }
  }

  lemma Regroup(a: seq<Cmd>, b: seq<Cmd>, c: seq<Cmd>)
    ensures a + (b + c) == a + b + c
  {
  }

  /** The player's turn, when the first `used - 1` moves are illegal and the next one is legal, or has yet to come. */
  lemma AnswersMoves(sent: seq<Cmd>, g: seq<int>, n: nat, moves: seq<int>, used: nat)
    requires |g| == n * n && 0 < used <= |moves| + 1 && forall i :: 0 <= i < used - 1 ==> !Legal(g, moves[i])
    ensures used > |moves| ==>
              sent + Sends(Turn(true), g, n, moves) == sent + ([YOU_CAN_PLAY] + Rejections(used - 1))
    ensures used <= |moves| && Legal(g, moves[used - 1]) ==>
              sent + Sends(Turn(true), g, n, moves) ==
              sent + ([YOU_CAN_PLAY] + Rejections(used - 1)) +
              Sends(Moved(true), g[moves[used - 1] := PLAYER_ID], n, moves[used..])
  {
    RejectedFirst(g, n, moves, used - 1);
    var rest := Sends(Awaiting, g, n, moves[used - 1..]);
    Regroup([YOU_CAN_PLAY], Rejections(used - 1), rest);
    Regroup(sent, [YOU_CAN_PLAY] + Rejections(used - 1), rest);
    if used <= |moves| {
      assert moves[used - 1..][1..] == moves[used..];
    } else {
      assert sent + ([YOU_CAN_PLAY] + Rejections(used - 1)) + [] == sent + ([YOU_CAN_PLAY] + Rejections(used - 1));
    }
  }

  /** The check after a move. */
  lemma AnnouncesCheck(sent: seq<Cmd>, g: seq<int>, n: nat, moves: seq<int>, byPlayer: bool)
    requires |g| == n * n
    ensures var announced := Announcement(Verdict(g, n), byPlayer);
            sent + Sends(Moved(byPlayer), g, n, moves) ==
            sent + announced + Sends(if announced != [] then Ending else Turn(!byPlayer), g, n, moves)
  {
    var announced := Announcement(Verdict(g, n), byPlayer);
    Regroup(sent, announced, Sends(if announced != [] then Ending else Turn(!byPlayer), g, n, moves));
  }

  /** GAME_START, then `requests` requests, then the end. */
  ghost predicate Script(sent: seq<Cmd>, requests: nat, end: seq<Cmd>) {
    && |sent| == 1 + requests + |end| && sent[0] == GAME_START && sent[1 + requests..] == end
    && forall i :: 1 <= i < 1 + requests ==> IsRequest(sent[i])
  }

  lemma ScriptGrows(sent: seq<Cmd>, requests: nat, more: seq<Cmd>)
    requires Script(sent, requests, []) && forall i :: 0 <= i < |more| ==> IsRequest(more[i])
    ensures Script(sent + more, requests + |more|, [])
  {
  }

  lemma ScriptEnds(sent: seq<Cmd>, requests: nat, end: seq<Cmd>)
    requires Script(sent, requests, [])
    ensures Script(sent + end, requests, end)
  {
  }

  lemma ScriptSaysBye(sent: seq<Cmd>, requests: nat)
    requires |sent| == 2 + requests && Script(sent, requests, [sent[1 + requests]])
    ensures Script(sent + [GAME_END], requests, [sent[1 + requests], GAME_END])
  {
  }

  /** What is announced after a move is the outcome of the grid, and nothing if the game goes on. */
  lemma CheckedBoard(g: seq<int>, n: nat, byPlayer: bool)
    requires |g| == n * n && Board(g, n, Moved(byPlayer))
    ensures var sent := Announcement(Verdict(g, n), byPlayer);
            if sent == [] then Board(g, n, Turn(!byPlayer)) else sent == [Outcome(g, n)] && Board(g, n, Ending)
  {
  }

  lemma MarkKeepsBoard(g: seq<int>, n: nat, c: nat, byPlayer: bool)
    requires Square(g, n) && Board(g, n, Turn(byPlayer)) && Legal(g, c)
    ensures var g' := g[c := if byPlayer then PLAYER_ID else AI_ID];
            Square(g', n) && Board(g', n, Moved(byPlayer)) && Count(g', EMPTY_ID) + 1 == Count(g, EMPTY_ID)
  {
    var who := if byPlayer then PLAYER_ID else AI_ID;
    CountUpdate(g, c, who, PLAYER_ID);
    CountUpdate(g, c, who, AI_ID);
    CountUpdate(g, c, who, EMPTY_ID);
    NewLineIsMovers(g, n, c, who, if byPlayer then AI_ID else PLAYER_ID);
  }

  /** How many of the first k commands ask for a move. */
  function Requests(cmds: seq<Cmd>, k: nat): nat
    requires k <= |cmds|
  {
    if k == 0 then 0 else Requests(cmds, k - 1) + (if IsRequest(cmds[k - 1]) then 1 else 0)
  }

  /** Those are the grants and the rejections. */
  lemma {:induction false} RequestsAre(cmds: seq<Cmd>, k: nat)
    requires k <= |cmds|
    ensures Requests(cmds, k) == multiset(cmds[..k])[YOU_CAN_PLAY] + multiset(cmds[..k])[MOVE_REJECTED]
  {
    if k > 0 {
      RequestsAre(cmds, k - 1);
      assert cmds[..k] == cmds[..k - 1] + [cmds[k - 1]];
    }
  }

  /**
    The player's loop over the commands that arrive: one move sent for each request, and nothing read after the first
    command that ends it.
  */
  method PlayerLoop(inbox: seq<Cmd>, moves: seq<int>) returns (game_over: bool, used: nat, sent: seq<int>)
    requires Requests(inbox, |inbox|) <= |moves|
    ensures used <= |inbox| && |sent| == Requests(inbox, used) && sent <= moves
    ensures forall i :: 0 <= i < used ==>
              (inbox[i] == GAME_END || inbox[i] == NO_WINNER || inbox[i] == YOU_WIN || inbox[i] == YOU_LOSE <==>
               game_over && i == used - 1)
    ensures !game_over ==> used == |inbox|
  {
    game_over, used, sent := false, 0, [];
    while !game_over && used < |inbox|
      invariant used <= |inbox| && |sent| == Requests(inbox, used) && sent <= moves
      invariant forall i :: 0 <= i < used ==> (EndsPlayer(inbox[i]) <==> game_over && i == used - 1)
      decreases |inbox| - used
    {
      var cmd := inbox[used];
      RequestsGrow(inbox, used + 1, |inbox|);
      match cmd {
        case GAME_START => game_over := false;
        case GAME_END => game_over := true;
        case YOU_CAN_PLAY => sent := sent + [moves[|sent|]];
        case MOVE_REJECTED => sent := sent + [moves[|sent|]];
        case NO_WINNER => game_over := true;
        case YOU_WIN => game_over := true;
        case YOU_LOSE => game_over := true;
      }
      used := used + 1;
    }
  }

  lemma {:induction false} RequestsGrow(cmds: seq<Cmd>, j: nat, k: nat)
    requires j <= k <= |cmds|
    ensures Requests(cmds, j) <= Requests(cmds, k)
  {
    if j < k {
      RequestsGrow(cmds, j, k - 1);
    }
  }

  // ---------------------------------------------------------------- every interleaving

  /**
    Where the manager is: about to say GAME_START, at the top of its loop, reading, after a mark, about to say
    GAME_END, in waitpid.
  */
  datatype GmPc = Starting | Turn(player: bool) | Awaiting | Moved(player: bool) | Ending | Waiting

  datatype PlayerPc = Reading | Typing | Gone

  /**
    Requests sent by the manager, moves sent by the player, moves read, moves accepted, and the commands that ended
    the player.
  */
  datatype History = History(asked: nat, answered: nat, taken: nat, accepted: nat, handled: seq<Cmd>)

  datatype World =
    World(grid: seq<int>, gm: GmPc, player: PlayerPc, toPlayer: seq<Cmd>, toGm: seq<int>, history: History)

  datatype Step = Start | Grant | Compute | TakeMove | Check | End | Receive | Type(line: string, move: int)

  /** max is MAX_BUFFER_LENGTH. */
  ghost predicate Enabled(w: World, step: Step, n: nat, max: nat) {
    && |w.grid| == n * n
    && match step
       case Start => w.gm == Starting
       case Grant => w.gm == Turn(true)
       case Compute => w.gm == Turn(false) && LowestEmpty(w.grid) != -1
       case TakeMove => w.gm == Awaiting && w.toGm != []
       case Check => w.gm.Moved?
       case End => w.gm == Ending
       case Receive => w.player == Reading && w.toPlayer != []
       case Type(line, move) => w.player == Typing && Reads(line, max, move)
  }

  ghost function Next(w: World, step: Step, n: nat, max: nat): (after: World)
    requires Enabled(w, step, n, max)
    ensures |after.grid| == n * n
  {
    match step
    case Start => w.(gm := Turn(true), toPlayer := w.toPlayer + [GAME_START])
    case Grant =>
      w.(gm := Awaiting, toPlayer := w.toPlayer + [YOU_CAN_PLAY],
         history := w.history.(asked := w.history.asked + 1))
    case Compute => w.(gm := Moved(false), grid := w.grid[LowestEmpty(w.grid) := AI_ID])
    case TakeMove => Taken(w)
    case Check =>
      var sent := Announcement(Verdict(w.grid, n), w.gm.player);
      w.(gm := if sent != [] then Ending else Turn(!w.gm.player), toPlayer := w.toPlayer + sent)
    case End => w.(gm := Waiting, toPlayer := w.toPlayer + [GAME_END])
    case Receive => Received(w)
    case Type(_, move) => Typed(w, move)
  }

  /** The manager reads a move. */
  ghost function Taken(w: World): World
    requires w.toGm != []
  {
    var h, move := w.history, w.toGm[0];
    if Legal(w.grid, move) then
      w.(gm := Moved(true), toGm := w.toGm[1..], grid := w.grid[move := PLAYER_ID],
         history := h.(taken := h.taken + 1, accepted := h.accepted + 1))
    else
      w.(toGm := w.toGm[1..], toPlayer := w.toPlayer + [MOVE_REJECTED],
         history := h.(taken := h.taken + 1, asked := h.asked + 1))
  }

  /** The player reads a command. */
  ghost function Received(w: World): World
    requires w.toPlayer != []
  {
    var cmd := w.toPlayer[0];
    var w' := w.(toPlayer := w.toPlayer[1..]);
    if IsRequest(cmd) then w'.(player := Typing)
    else if EndsPlayer(cmd) then w'.(player := Gone, history := w.history.(handled := w.history.handled + [cmd]))
    else w'
  }

  /** The user types a line, read as `move`; one that is refused is asked for again. */
  ghost function Typed(w: World, move: int): World {
    if move == -1 then w
    else w.(player := Reading, toGm := w.toGm + [move], history := w.history.(answered := w.history.answered + 1))
  }

  ghost predicate Initial(w: World, n: nat) {
    && n > 0 && |w.grid| == n * n && (forall k :: 0 <= k < |w.grid| ==> w.grid[k] == EMPTY_ID)
    && w.gm == Starting && w.player == Reading && w.toPlayer == [] && w.toGm == []
    && w.history == History(0, 0, 0, 0, [])
  }

  // ---------------------------------------------------------------- marks on the grid

  function Count(g: seq<int>, who: int): nat {
    if g == [] then 0 else Count(g[..|g| - 1], who) + (if g[|g| - 1] == who then 1 else 0)
  }

  lemma {:induction false} CountUpdate(g: seq<int>, c: nat, mark: int, who: int)
    requires c < |g|
    ensures Count(g[c := mark], who) == Count(g, who) + (if mark == who then 1 else 0) - (if g[c] == who then 1 else 0)
  {
    var last := |g| - 1;
    if c == last {
      assert g[c := mark][..last] == g[..last];
    } else {
      assert g[c := mark][..last] == g[..last][c := mark];
      CountUpdate(g[..last], c, mark, who);
    }
  }

  lemma {:induction false} CountAll(g: seq<int>)
    requires Marks(g)
    ensures Count(g, EMPTY_ID) + Count(g, PLAYER_ID) + Count(g, AI_ID) == |g|
  {
    if g != [] {
      CountAll(g[..|g| - 1]);
    }
  }

  lemma {:induction false} CountNone(g: seq<int>, who: int)
    requires forall k :: 0 <= k < |g| ==> g[k] != who
    ensures Count(g, who) == 0
  {
    if g != [] {
      CountNone(g[..|g| - 1], who);
    }
  }

  // ---------------------------------------------------------------- the invariant

  ghost predicate Open(g: seq<int>, n: nat)
    requires |g| == n * n
  {
    !Won(g, n) && !Full(g)
  }

  /** The one side that owns a line, or neither. */
  ghost function Outcome(g: seq<int>, n: nat): Cmd
    requires |g| == n * n
  {
    if HasLine(g, n, PLAYER_ID) then YOU_WIN else if HasLine(g, n, AI_ID) then YOU_LOSE else NO_WINNER
  }

  /** YOU_WIN is for a line of the player's marks, YOU_LOSE for one of the computer's, NO_WINNER for neither. */
  lemma OutcomeIs(g: seq<int>, n: nat)
    requires |g| == n * n && !(FullLine(g, n, -1) && FullLine(g, n, 1))
    ensures Outcome(g, n) == YOU_WIN <==> FullLine(g, n, -1)
    ensures Outcome(g, n) == YOU_LOSE <==> FullLine(g, n, 1)
    ensures Outcome(g, n) == NO_WINNER <==> !FullLine(g, n, -1) && !FullLine(g, n, 1)
  {
    LinesByCell(g, n, 1);
    LinesByCell(g, n, -1);
  }

  ghost predicate Board(g: seq<int>, n: nat, gm: GmPc)
    requires |g| == n * n
  {
    var p, a := Count(g, PLAYER_ID), Count(g, AI_ID);
    match gm
    case Starting => p == a && Open(g, n)
    case Awaiting => p == a && Open(g, n)
    case Turn(player) => p == a + (if player then 0 else 1) && Open(g, n)
    case Moved(player) => p == a + (if player then 1 else 0) && !HasLine(g, n, if player then AI_ID else PLAYER_ID)
    case _ => a <= p <= a + 1 && (Won(g, n) || Full(g)) && !(HasLine(g, n, AI_ID) && HasLine(g, n, PLAYER_ID))
  }

  ghost predicate Request(toPlayer: seq<Cmd>) {
    || (|toPlayer| == 1 && IsRequest(toPlayer[0]))
    || (|toPlayer| == 2 && toPlayer[0] == GAME_START && IsRequest(toPlayer[1]))
  }

  ghost predicate Channels(gm: GmPc, player: PlayerPc, toPlayer: seq<Cmd>, toGm: seq<int>, outcome: Cmd) {
    match gm
    case Starting => player == Reading && toPlayer == [] && toGm == []
    case Turn(first) => player == Reading && toGm == [] && (toPlayer == [] || (first && toPlayer == [GAME_START]))
    case Moved(_) => player == Reading && toPlayer == [] && toGm == []
    case Awaiting =>
      || (player == Reading && Request(toPlayer) && toGm == [])
      || (player == Typing && toPlayer == [] && toGm == [])
      || (player == Reading && toPlayer == [] && |toGm| == 1)
    case Ending => toGm == [] && ((player == Reading && toPlayer == [outcome]) || (player == Gone && toPlayer == []))
    case Waiting =>
      && toGm == []
      && ((player == Reading && toPlayer == [outcome, GAME_END]) || (player == Gone && toPlayer == [GAME_END]))
  }

  ghost predicate Ledger(w: World, outcome: Cmd) {
    && w.history.asked == w.history.taken + (if w.gm == Awaiting then 1 else 0)
    && w.history.answered == w.history.taken + |w.toGm|
    && w.history.accepted == Count(w.grid, PLAYER_ID)
    && w.history.handled == if w.player == Gone then [outcome] else []
  }

  ghost predicate Inv(w: World, n: nat) {
    && Square(w.grid, n) && Board(w.grid, n, w.gm)
    && Channels(w.gm, w.player, w.toPlayer, w.toGm, Outcome(w.grid, n)) && Ledger(w, Outcome(w.grid, n))
  }

  lemma EmptyGridIsOpen(g: seq<int>, n: nat)
    requires n > 0 && |g| == n * n && forall k :: 0 <= k < |g| ==> g[k] == EMPTY_ID
    ensures Open(g, n)
  {
    forall l, who | OnGrid(l, n) && who != EMPTY_ID ensures !Owns(g, n, l, who) {
      assert g[At(l, n, 0)] != who;
    }
    assert g[0] == EMPTY_ID;
  }

  lemma EmptyBoard(g: seq<int>, n: nat)
    requires n > 0 && |g| == n * n && forall k :: 0 <= k < |g| ==> g[k] == EMPTY_ID
    ensures Board(g, n, Starting)
  {
    EmptyGridIsOpen(g, n);
    CountNone(g, PLAYER_ID);
    CountNone(g, AI_ID);
  }

  lemma InitialInv(w: World, n: nat)
    requires Initial(w, n)
    ensures Inv(w, n)
  {
    EmptyBoard(w.grid, n);
    CountNone(w.grid, PLAYER_ID);
  }

  lemma CheckKeepsInv(w: World, n: nat, max: nat)
    requires Inv(w, n) && Enabled(w, Check, n, max)
    ensures Inv(Next(w, Check, n, max), n)
  {
  }

  lemma ComputeKeepsInv(w: World, n: nat, max: nat)
    requires Inv(w, n) && Enabled(w, Compute, n, max)
    ensures Inv(Next(w, Compute, n, max), n)
  {
    MarkKeepsBoard(w.grid, n, LowestEmpty(w.grid), false);
    CountUpdate(w.grid, LowestEmpty(w.grid), AI_ID, PLAYER_ID);
  }

  lemma TakeMoveKeepsInv(w: World, n: nat, max: nat)
    requires Inv(w, n) && Enabled(w, TakeMove, n, max)
    ensures Inv(Next(w, TakeMove, n, max), n)
  {
    var c := w.toGm[0];
    if Legal(w.grid, c) {
      MarkKeepsBoard(w.grid, n, c, true);
      CountUpdate(w.grid, c, PLAYER_ID, PLAYER_ID);
    }
  }

  lemma ReceiveKeepsInv(w: World, n: nat, max: nat)
    requires Inv(w, n) && Enabled(w, Receive, n, max)
    ensures Inv(Next(w, Receive, n, max), n)
  {
  }

  lemma TypeKeepsInv(w: World, line: string, move: int, n: nat, max: nat)
    requires Inv(w, n) && Enabled(w, Type(line, move), n, max)
    ensures Inv(Next(w, Type(line, move), n, max), n)
  {
  }

  lemma StepKeepsInv(w: World, step: Step, n: nat, max: nat)
    requires Inv(w, n) && Enabled(w, step, n, max)
    ensures Inv(Next(w, step, n, max), n)
  {
    match step
    case Check => CheckKeepsInv(w, n, max);
    case Compute => ComputeKeepsInv(w, n, max);
    case TakeMove => TakeMoveKeepsInv(w, n, max);
    case Receive => ReceiveKeepsInv(w, n, max);
    case Type(line, move) => TypeKeepsInv(w, line, move, n, max);
    case _ =>
  }

  ghost predicate CanRun(w: World, steps: seq<Step>, n: nat, max: nat)
    decreases |steps|
  {
    && |w.grid| == n * n
    && (steps != [] ==> Enabled(w, steps[0], n, max) && CanRun(Next(w, steps[0], n, max), steps[1..], n, max))
  }

  ghost function Run(w: World, steps: seq<Step>, n: nat, max: nat): (end: World)
    requires CanRun(w, steps, n, max)
    ensures |end.grid| == n * n
    decreases |steps|
  {
    if steps == [] then w else Run(Next(w, steps[0], n, max), steps[1..], n, max)
  }

  lemma {:induction false} RunKeepsInv(w: World, steps: seq<Step>, n: nat, max: nat)
    requires Inv(w, n) && CanRun(w, steps, n, max)
    ensures Inv(Run(w, steps, n, max), n)
    decreases |steps|
  {
    if steps != [] {
      StepKeepsInv(w, steps[0], n, max);
      RunKeepsInv(Next(w, steps[0], n, max), steps[1..], n, max);
    }
  }

  // ---------------------------------------------------------------- what it means

  ghost predicate ManagerReadsEmptyPipe(w: World) { w.gm == Awaiting && w.toGm == [] }

  ghost predicate PlayerReadsEmptyPipe(w: World) { w.player == Reading && w.toPlayer == [] }

  /**
    Over every interleaving: no deadlock, bounded pipes, one move for each request, one outcome, and never GAME_END.
  */
  lemma Protocol(w: World, steps: seq<Step>, n: nat, max: nat)
    requires Initial(w, n) && CanRun(w, steps, n, max)
    ensures var e := Run(w, steps, n, max);
            && !(ManagerReadsEmptyPipe(e) && PlayerReadsEmptyPipe(e))
            && |e.toGm| <= 1 && |e.toPlayer| <= 2
            && e.history.taken <= e.history.answered <= e.history.asked <= e.history.taken + 1
            && e.history.handled == (if e.player == Gone then [Outcome(e.grid, n)] else [])
            && GAME_END !in e.history.handled
  {
    InitialInv(w, n);
    RunKeepsInv(w, steps, n, max);
  }

  /**
    The marks alternate, no more moves are accepted than there are cells, the computer always has a cell, and one side
    at most owns a line.
  */
  lemma Marking(w: World, steps: seq<Step>, n: nat, max: nat)
    requires Initial(w, n) && CanRun(w, steps, n, max)
    ensures var e := Run(w, steps, n, max);
            && Count(e.grid, AI_ID) <= Count(e.grid, PLAYER_ID) <= Count(e.grid, AI_ID) + 1
            && e.history.accepted == Count(e.grid, PLAYER_ID)
            && Count(e.grid, PLAYER_ID) + Count(e.grid, AI_ID) <= n * n
            && (e.gm == Turn(false) ==> LowestEmpty(e.grid) != -1)
            && !(HasLine(e.grid, n, AI_ID) && HasLine(e.grid, n, PLAYER_ID))
            && (e.player == Gone ==> Won(e.grid, n) || Full(e.grid))
  {
    InitialInv(w, n);
    RunKeepsInv(w, steps, n, max);
    CountAll(Run(w, steps, n, max).grid);
  }

  /** A state with no step left is the end of the game: the manager waits for a player that is gone. */
  lemma OnlyTheEndStops(w: World, n: nat, max: nat)
    requires Inv(w, n) && forall step :: !Enabled(w, step, n, max)
    ensures w.gm == Waiting && w.player == Gone && w.history.handled == [Outcome(w.grid, n)]
  {
    assert !Enabled(w, Start, n, max) && !Enabled(w, Grant, n, max) && !Enabled(w, Compute, n, max);
    assert !Enabled(w, TakeMove, n, max) && !Enabled(w, Check, n, max) && !Enabled(w, End, n, max);
    assert !Enabled(w, Receive, n, max) && !Enabled(w, Type("", -1), n, max);
  }

  // ---------------------------------------------------------------- how long a game lasts

  function Rank(gm: GmPc): nat {
    match gm
    case Starting => 9
    case Turn(_) => 5
    case Awaiting => 1
    case Moved(_) => 8
    case Ending => 4
    case Waiting => 0
  }

  ghost function Work(w: World): nat {
    7 * Count(w.grid, EMPTY_ID) + Rank(w.gm) + 3 * |w.toPlayer| + (if w.player == Typing then 2 else 0) + |w.toGm|
  }

  ghost predicate IsRejection(w: World, step: Step) {
    step.TakeMove? && w.toGm != [] && !Legal(w.grid, w.toGm[0])
  }

  predicate IsMisread(step: Step) {
    step.Type? && step.move == -1
  }

  /** What the player's mistakes add. */
  ghost function Extra(w: World, step: Step): nat {
    if IsRejection(w, step) then 3 else if IsMisread(step) then 1 else 0
  }

  lemma ComputeUsesWork(w: World, n: nat, max: nat)
    requires Inv(w, n) && Enabled(w, Compute, n, max)
    ensures Work(Next(w, Compute, n, max)) + 1 <= Work(w)
  {
    CountUpdate(w.grid, LowestEmpty(w.grid), AI_ID, EMPTY_ID);
  }

  lemma TakeMoveUsesWork(w: World, n: nat, max: nat)
    requires Inv(w, n) && Enabled(w, TakeMove, n, max)
    ensures Work(Next(w, TakeMove, n, max)) + 1 <= Work(w) + Extra(w, TakeMove)
  {
    if Legal(w.grid, w.toGm[0]) {
      CountUpdate(w.grid, w.toGm[0], PLAYER_ID, EMPTY_ID);
    }
  }

  lemma StepUsesWork(w: World, step: Step, n: nat, max: nat)
    requires Inv(w, n) && Enabled(w, step, n, max)
    ensures Work(Next(w, step, n, max)) + 1 <= Work(w) + Extra(w, step)
  {
    match step
    case Compute => ComputeUsesWork(w, n, max);
    case TakeMove => TakeMoveUsesWork(w, n, max);
    case _ =>
  }

  ghost function RunExtra(w: World, steps: seq<Step>, n: nat, max: nat): nat
    requires CanRun(w, steps, n, max)
    decreases |steps|
  {
    if steps == [] then 0 else Extra(w, steps[0]) + RunExtra(Next(w, steps[0], n, max), steps[1..], n, max)
  }

  lemma {:induction false} RunUsesWork(w: World, steps: seq<Step>, n: nat, max: nat)
    requires Inv(w, n) && CanRun(w, steps, n, max)
    ensures |steps| + Work(Run(w, steps, n, max)) <= Work(w) + RunExtra(w, steps, n, max)
    decreases |steps|
  {
    if steps != [] {
      StepUsesWork(w, steps[0], n, max);
      StepKeepsInv(w, steps[0], n, max);
      RunUsesWork(Next(w, steps[0], n, max), steps[1..], n, max);
    }
  }

  /** A game is at most 7 steps for each cell and 9 more, 3 for each move rejected, and 1 for each line not accepted. */
  lemma GamesEnd(w: World, steps: seq<Step>, n: nat, max: nat)
    requires Initial(w, n) && CanRun(w, steps, n, max)
    ensures |steps| <= 7 * (n * n) + 9 + RunExtra(w, steps, n, max)
  {
    InitialInv(w, n);
    CountAll(w.grid);
    RunUsesWork(w, steps, n, max);
  }

  /**
    A line the manager would accept exists exactly while one of the first nine cells is empty: always on grids up to 3
    by 3.
  */
  lemma CanAnswer(w: World, n: nat, max: nat)
    requires Inv(w, n)
    ensures (exists line, move :: Reads(line, max, move) && Legal(w.grid, move)) <==>
            max >= 2 && exists c :: 0 <= c < 9 && Legal(w.grid, c)
    ensures w.gm == Awaiting && n <= 3 && max >= 2 ==> exists line :: Legal(w.grid, Choice(line, max))
  {
    if max >= 2 {
      if c :| 0 <= c < 9 && Legal(w.grid, c) {
        OneDigit(c, max);
        assert Reads([ToDigit(c + 1)], max, c);
      }
      if w.gm == Awaiting && n <= 3 {
        assert n * n <= 9;
        assert Legal(w.grid, LowestEmpty(w.grid));
        OneDigit(LowestEmpty(w.grid), max);
      }
    }
  }

  lemma OneDigit(c: nat, max: nat)
    requires c < 9 && max >= 2
    ensures Choice([ToDigit(c + 1)], max) == c && Reads([ToDigit(c + 1)], max, c)
  {
    AcceptedLines([ToDigit(c + 1)], max);
  }
}
