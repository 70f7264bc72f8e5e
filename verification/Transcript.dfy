/**
  What the two programs of tic-tac-toe say and hear over a whole run of the step relation, against what each of their
  loops says on its own.
*/
module Transcript {
  import opened Game
  import opened Grid
  import opened Messages
  import opened Sequences

  /** Commands said by the manager and heard by the player, moves typed by the player and read by the manager. */
  datatype Trace = Trace(said: seq<Cmd>, heard: seq<Cmd>, typed: seq<int>, read: seq<int>)

  function Joined(a: Trace, b: Trace): Trace {
    Trace(a.said + b.said, a.heard + b.heard, a.typed + b.typed, a.read + b.read)
  }

  /** What passes a pipe in one step. */
  ghost function Passes(w: World, step: Step, n: nat, max: nat): Trace
    requires Enabled(w, step, n, max)
  {
    match step
    case Start => Trace([GAME_START], [], [], [])
    case Grant => Trace([YOU_CAN_PLAY], [], [], [])
    case Compute => Trace([], [], [], [])
    case TakeMove => Trace(if Legal(w.grid, w.toGm[0]) then [] else [MOVE_REJECTED], [], [], [w.toGm[0]])
    case Check => Trace(Announcement(Verdict(w.grid, n), w.gm.player), [], [], [])
    case End => Trace([GAME_END], [], [], [])
    case Receive => Trace([], [w.toPlayer[0]], [], [])
    case Type(_, move) => Trace([], [], if move == -1 then [] else [move], [])
  }

  ghost function Recorded(w: World, steps: seq<Step>, n: nat, max: nat): Trace
    requires CanRun(w, steps, n, max)
    decreases |steps|
  {
    if steps == [] then Trace([], [], [], [])
    else Joined(Passes(w, steps[0], n, max), Recorded(Next(w, steps[0], n, max), steps[1..], n, max))
  }

  // ---------------------------------------------------------------- the pipes

  lemma Associative<T>(a: seq<T>, b: seq<T>, c: seq<T>)
    ensures a + b + c == a + (b + c)
  {
  }

  /** Nothing is lost in a pipe, and nothing overtakes. */
  ghost predicate Delivered(w: World, t: Trace, w': World) {
    w.toPlayer + t.said == t.heard + w'.toPlayer && w.toGm + t.typed == t.read + w'.toGm
  }

  lemma StepDelivers(w: World, step: Step, n: nat, max: nat)
    requires Enabled(w, step, n, max)
    ensures Delivered(w, Passes(w, step, n, max), Next(w, step, n, max))
  {
  }

  lemma DeliveredBoth(w: World, a: Trace, w': World, b: Trace, w'': World)
    requires Delivered(w, a, w') && Delivered(w', b, w'')
    ensures Delivered(w, Joined(a, b), w'')
  {
    Associative(w.toPlayer, a.said, b.said);
    Associative(a.heard, w'.toPlayer, b.said);
    Associative(a.heard, b.heard, w''.toPlayer);
    Associative(w.toGm, a.typed, b.typed);
    Associative(a.read, w'.toGm, b.typed);
    Associative(a.read, b.read, w''.toGm);
  }

  lemma {:induction false} RunDelivers(w: World, steps: seq<Step>, n: nat, max: nat)
    requires CanRun(w, steps, n, max)
    ensures Delivered(w, Recorded(w, steps, n, max), Run(w, steps, n, max))
    decreases |steps|
  {
    if steps != [] {
      var w' := Next(w, steps[0], n, max);
      StepDelivers(w, steps[0], n, max);
      RunDelivers(w', steps[1..], n, max);
      DeliveredBoth(w, Passes(w, steps[0], n, max), w', Recorded(w', steps[1..], n, max), Run(w, steps, n, max));
    }
  }

  // ---------------------------------------------------------------- the manager

  /** A step of the run says what the manager's loop says there. */
  lemma StepSends(w: World, step: Step, n: nat, max: nat, rest: seq<int>)
    requires Enabled(w, step, n, max)
    ensures var t, w' := Passes(w, step, n, max), Next(w, step, n, max);
            Sends(w.gm, w.grid, n, t.read + rest) == t.said + Sends(w'.gm, w'.grid, n, rest)
  {
    var t := Passes(w, step, n, max);
    if step.TakeMove? {
      assert (t.read + rest)[1..] == rest;
    } else {
      assert t.read + rest == rest;
    }
  }

  lemma {:induction false} RunSends(w: World, steps: seq<Step>, n: nat, max: nat, rest: seq<int>)
    requires CanRun(w, steps, n, max)
    ensures var t, e := Recorded(w, steps, n, max), Run(w, steps, n, max);
            Sends(w.gm, w.grid, n, t.read + rest) == t.said + Sends(e.gm, e.grid, n, rest)
    decreases |steps|
  {
    if steps == [] {
      assert [] + rest == rest;
    } else {
      var w' := Next(w, steps[0], n, max);
      var a, b, e := Passes(w, steps[0], n, max), Recorded(w', steps[1..], n, max), Run(w, steps, n, max);
      RunSends(w', steps[1..], n, max, rest);
      StepSends(w, steps[0], n, max, b.read + rest);
      Associative(a.read, b.read, rest);
      Associative(a.said, b.said, Sends(e.gm, e.grid, n, rest));
    }
  }

  // ---------------------------------------------------------------- the player

  function Pending(w: World): nat {
    if w.player == Typing then 1 else 0
  }

  /** One move for each request heard, and nothing heard after the first command that ends the player. */
  ghost predicate PlayedAlong(w: World, t: Trace, w': World) {
    && Pending(w) + Requests(t.heard, |t.heard|) == |t.typed| + Pending(w')
    && (w.player == Gone ==> t.heard == [] && w'.player == Gone)
    && (w.player != Gone ==>
          forall i :: 0 <= i < |t.heard| ==> (EndsPlayer(t.heard[i]) <==> w'.player == Gone && i == |t.heard| - 1))
    && (w.player != Gone && w'.player == Gone ==> t.heard != [])
  }

  lemma StepPlaysAlong(w: World, step: Step, n: nat, max: nat)
    requires Enabled(w, step, n, max)
    ensures PlayedAlong(w, Passes(w, step, n, max), Next(w, step, n, max))
  {
    if step.Receive? {
      assert Requests([w.toPlayer[0]], 0) == 0;
    }
  }

  lemma {:induction false} RequestsOfBoth(a: seq<Cmd>, b: seq<Cmd>, k: nat)
    requires k <= |b|
    ensures Requests(a + b, |a| + k) == Requests(a, |a|) + Requests(b, k)
  {
    if k > 0 {
      RequestsOfBoth(a, b, k - 1);
    } else {
      RequestsOfPrefix(a, b, |a|);
    }
  }

  lemma {:induction false} RequestsOfPrefix(a: seq<Cmd>, b: seq<Cmd>, k: nat)
    requires k <= |a|
    ensures Requests(a + b, k) == Requests(a, k)
  {
    if k > 0 {
      RequestsOfPrefix(a, b, k - 1);
    }
  }

  lemma PlayedBoth(w: World, a: Trace, w': World, b: Trace, w'': World)
    requires PlayedAlong(w, a, w') && PlayedAlong(w', b, w'')
    ensures PlayedAlong(w, Joined(a, b), w'')
  {
    RequestsOfBoth(a.heard, b.heard, |b.heard|);
  }

  lemma {:induction false} RunPlaysAlong(w: World, steps: seq<Step>, n: nat, max: nat)
    requires CanRun(w, steps, n, max)
    ensures PlayedAlong(w, Recorded(w, steps, n, max), Run(w, steps, n, max))
    decreases |steps|
  {
    if steps != [] {
      var w' := Next(w, steps[0], n, max);
      StepPlaysAlong(w, steps[0], n, max);
      RunPlaysAlong(w', steps[1..], n, max);
      PlayedBoth(w, Passes(w, steps[0], n, max), w', Recorded(w', steps[1..], n, max), Run(w, steps, n, max));
    }
  }

  // ---------------------------------------------------------------- both

  /**
    Over every interleaving the manager has said a prefix of what its loop says for the moves it has read, and all of
    it once it waits for the player to end; the player has typed one move for each request it has heard; and what one
    side has taken in is a prefix of what the other has put out.
  */
  lemma ProgramsMeet(w: World, steps: seq<Step>, n: nat, max: nat)
    requires Initial(w, n) && CanRun(w, steps, n, max)
    ensures var t, e := Recorded(w, steps, n, max), Run(w, steps, n, max);
            && t.said <= Sends(Starting, w.grid, n, t.read)
            && (e.gm == Waiting || ManagerReadsEmptyPipe(e) ==> t.said == Sends(Starting, w.grid, n, t.read))
            && t.said == t.heard + e.toPlayer && t.typed == t.read + e.toGm
            && Requests(t.heard, |t.heard|) == |t.typed| + Pending(e)
            && forall i :: 0 <= i < |t.heard| ==> (EndsPlayer(t.heard[i]) <==> e.player == Gone && i == |t.heard| - 1)
  {
    var t, e := Recorded(w, steps, n, max), Run(w, steps, n, max);
    RunSends(w, steps, n, max, []);
    assert t.read + [] == t.read;
    RunDelivers(w, steps, n, max);
    assert [] + t.said == t.said && [] + t.typed == t.typed;
    RunPlaysAlong(w, steps, n, max);
  }
}
