/**
 * The puzzle session as a state machine over the trainer's component state:
 * entering a puzzle, the user's move, the automatic opponent reply and the
 * solve that records an attempt and moves on. The trainer class in module
 * Trainer performs these transitions in place; each of its methods is proved
 * to produce the state the functions here describe.
 */
module Session {
  import opened Wrappers
  import opened Storage
  import opened PuzzleRules

  const InvalidMoveMsg: string := "Invalid move."
  const IncorrectMoveMsg: string := "Incorrect move. Try again."

  /** The trainer's state variables. */
  datatype SessionState = SessionState(
    progress: Progress,
    chess: Option<Fen>,     // the live position; None before the first puzzle is entered
    moveIndex: nat,         // the solution cursor
    timer: nat,             // seconds since the puzzle was entered
    ticking: bool,          // the one-second interval is running
    feedbackMsg: string,
    userColor: Color,
    replyPending: bool,     // the opponent's reply is scheduled and has not run yet
    halted: bool)           // an error thrown while entering a puzzle has unmounted the trainer

  /** The state before anything has been entered: the initial values of the state hooks. */
  function Initial(progress: Progress): (r: SessionState)
    ensures r.progress == progress && r.chess == None && r.moveIndex == 0 && r.timer == 0
    ensures !r.ticking && r.feedbackMsg == "" && r.userColor == White
    ensures !r.replyPending && !r.halted
  {
    SessionState(progress, None, 0, 0, false, "", White, false, false)
  }

  /** Puzzles the session can run: at least one, and every solution has a setup move and a user move. */
  predicate WellFormedCatalog(puzzles: seq<Puzzle>)
  {
    |puzzles| > 0 && forall i :: 0 <= i < |puzzles| ==> |puzzles[i].solution| >= 2
  }

  /** A puzzle is on the board and the cursor points at a move of its solution. */
  predicate Live(puzzles: seq<Puzzle>, s: SessionState)
  {
    !s.halted && s.progress.currentIndex < |puzzles| && s.chess.Some? &&
    1 <= s.moveIndex < |puzzles[s.progress.currentIndex].solution|
  }

  /** The session invariant: either halted with nothing scheduled, or live. */
  predicate Consistent(puzzles: seq<Puzzle>, s: SessionState)
  {
    WellFormedCatalog(puzzles) &&
    (s.halted ==> !s.replyPending) &&
    (!s.halted ==> Live(puzzles, s))
  }

  function CurrentSolution(puzzles: seq<Puzzle>, s: SessionState): seq<string>
    requires s.progress.currentIndex < |puzzles|
  {
    puzzles[s.progress.currentIndex].solution
  }

  /** The state right after the entry effect has run for the puzzle at the current index. */
  ghost predicate Entered(puzzles: seq<Puzzle>, engine: Engine, r: SessionState)
    requires WellFormedCatalog(puzzles)
  {
    var i := r.progress.currentIndex;
    !r.replyPending &&
    (i >= |puzzles| ==> r.halted) &&
    (i < |puzzles| ==>
      var setup := engine(puzzles[i].fen, Text(puzzles[i].solution[0]));
      r.userColor == UserColor(puzzles[i].fen) &&
      (r.halted <==> setup.None?) &&
      (!r.halted ==>
        r.chess == setup && r.moveIndex == 1 &&
        r.timer == 0 && r.ticking && r.feedbackMsg == ""))
  }

  /** The entry effect: colour, setup move, cursor 1, a fresh clock and no feedback. */
  function Enter(puzzles: seq<Puzzle>, engine: Engine, s: SessionState): (r: SessionState)
    requires WellFormedCatalog(puzzles) && !s.replyPending
    ensures Entered(puzzles, engine, r) && Consistent(puzzles, r)
    ensures r.progress == s.progress
  {
    var i := s.progress.currentIndex;
    if i >= |puzzles| then s.(halted := true)
    else
      var colored := s.(userColor := UserColor(puzzles[i].fen));
      match engine(puzzles[i].fen, Text(puzzles[i].solution[0]))
      case None => colored.(halted := true)
      case Some(pos) =>
        colored.(chess := Some(pos), moveIndex := 1, timer := 0, ticking := true,
                 feedbackMsg := "", halted := false)
  }

  /** The solve: stop the clock, record the attempt, advance, and enter the next puzzle. */
  function Finish(puzzles: seq<Puzzle>, engine: Engine, s: SessionState): (r: SessionState)
    requires WellFormedCatalog(puzzles) && s.progress.currentIndex < |puzzles| && !s.replyPending
    ensures r.progress ==
      SolvedProgress(s.progress, puzzles[s.progress.currentIndex].id, s.timer, |puzzles|)
    ensures Entered(puzzles, engine, r) && Consistent(puzzles, r)
  {
    var solved := SolvedProgress(s.progress, puzzles[s.progress.currentIndex].id, s.timer, |puzzles|);
    Enter(puzzles, engine, s.(ticking := false, progress := solved))
  }

  /**
   * What a user move may meet: a live puzzle, no reply in flight, and a
   * non-null move that the board produced on this very position, so the
   * engine accepts it.
   */
  predicate CanMove(puzzles: seq<Puzzle>, engine: Engine, s: SessionState, move: Option<BoardMove>)
  {
    Consistent(puzzles, s) && !s.halted && !s.replyPending &&
    (move.Some? ==> engine(s.chess.value, Coords(move.value)).Some?)
  }

  /** The solution move the cursor expects. */
  function Expected(puzzles: seq<Puzzle>, s: SessionState): string
    requires Live(puzzles, s)
  {
    CurrentSolution(puzzles, s)[s.moveIndex]
  }

  /** `onMove`. */
  function OnMove(puzzles: seq<Puzzle>, engine: Engine, s: SessionState, move: Option<BoardMove>): (r: SessionState)
    requires CanMove(puzzles, engine, s, move)
    ensures Consistent(puzzles, r)
    ensures move.None? ==> r == s.(feedbackMsg := InvalidMoveMsg)
    ensures move.Some? && !Matches(move.value, Expected(puzzles, s)) ==>
      r == s.(feedbackMsg := IncorrectMoveMsg)
    ensures move.Some? && Matches(move.value, Expected(puzzles, s)) ==>
      r.progress != s.progress || r.replyPending
    ensures (move.Some? && Matches(move.value, Expected(puzzles, s)) &&
      s.moveIndex + 1 < |CurrentSolution(puzzles, s)|) ==>
      r == s.(chess := engine(s.chess.value, Coords(move.value)), moveIndex := s.moveIndex + 1, replyPending := true)
    ensures (move.Some? && Matches(move.value, Expected(puzzles, s)) &&
      s.moveIndex + 1 == |CurrentSolution(puzzles, s)|) ==>
      r.progress == SolvedProgress(s.progress, puzzles[s.progress.currentIndex].id, s.timer, |puzzles|) &&
      Entered(puzzles, engine, r)
  {
    match move
    case None => s.(feedbackMsg := InvalidMoveMsg)
    case Some(m) =>
      if !Matches(m, Expected(puzzles, s)) then s.(feedbackMsg := IncorrectMoveMsg)
      else
        var played := s.(chess := engine(s.chess.value, Coords(m)), moveIndex := s.moveIndex + 1);
        var ph := AfterMatch(s.moveIndex, |CurrentSolution(puzzles, s)|);
        if ph.Replying? then played.(moveIndex := ph.cursor, replyPending := true)
        else
          var r := Finish(puzzles, engine, played);
          assert r.progress != s.progress by {
            var next := r.progress;
            assert next.currentIndex != s.progress.currentIndex || next.currentCycle != s.progress.currentCycle;
          }
          r
  }

  /** The reply the session plays: the squares of the solution move, with no promotion. */
  function ReplyMove(expected: string): (r: BoardMove)
    ensures r.promotion == None && Matches(r, expected)
    ensures |expected| >= 4 ==> r.from + r.to == expected[..4]
  {
    BoardMove(Project(expected).from, Project(expected).to, None)
  }

  /** The scheduled opponent reply. */
  function AutoReply(puzzles: seq<Puzzle>, engine: Engine, s: SessionState): (r: SessionState)
    requires Consistent(puzzles, s) && s.replyPending
    ensures Consistent(puzzles, r) && !r.replyPending
    ensures var reply := engine(s.chess.value, Coords(ReplyMove(Expected(puzzles, s))));
      (reply.None? ==> r == s.(replyPending := false)) &&
      (reply.Some? && s.moveIndex + 1 < |CurrentSolution(puzzles, s)| ==>
        r == s.(chess := reply, moveIndex := s.moveIndex + 1, feedbackMsg := "", replyPending := false)) &&
      (reply.Some? && s.moveIndex + 1 == |CurrentSolution(puzzles, s)| ==>
        r.progress == SolvedProgress(s.progress, puzzles[s.progress.currentIndex].id, s.timer, |puzzles|) &&
        Entered(puzzles, engine, r))
  {
    var cleared := s.(replyPending := false);
    match engine(s.chess.value, Coords(ReplyMove(Expected(puzzles, s))))
    case None => cleared
    case Some(pos) =>
      var ph := AfterReply(s.moveIndex, |CurrentSolution(puzzles, s)|);
      var replied := cleared.(chess := Some(pos), moveIndex := s.moveIndex + 1, feedbackMsg := "");
      if ph.AwaitingUser? then replied.(moveIndex := ph.cursor) else Finish(puzzles, engine, replied)
  }

  /** A rejected move (illegal or not the expected one) can be repeated without further effect. */
  lemma RejectionIsIdempotent(puzzles: seq<Puzzle>, engine: Engine, s: SessionState, move: Option<BoardMove>)
    requires CanMove(puzzles, engine, s, move)
    requires move.None? || !Matches(move.value, Expected(puzzles, s))
    ensures var r := OnMove(puzzles, engine, s, move);
      CanMove(puzzles, engine, r, move) && OnMove(puzzles, engine, r, move) == r &&
      r.progress == s.progress && r.chess == s.chess && r.moveIndex == s.moveIndex
  {
  }

  /** A matching move that is not the last one, followed by its reply, moves the cursor on by two. */
  lemma MoveAndReplyAdvanceTwo(puzzles: seq<Puzzle>, engine: Engine, s: SessionState, m: BoardMove)
    requires CanMove(puzzles, engine, s, Some(m)) && Matches(m, Expected(puzzles, s))
    requires s.moveIndex + 2 < |CurrentSolution(puzzles, s)|
    ensures var t := OnMove(puzzles, engine, s, Some(m));
      t.replyPending &&
      var r := AutoReply(puzzles, engine, t);
      (engine(t.chess.value, Coords(ReplyMove(Expected(puzzles, t)))).Some? ==>
        r.moveIndex == s.moveIndex + 2 && r.progress == s.progress && Live(puzzles, r) && !r.replyPending)
  {
  }

  /**
   * How the board reports the user's move when the user plays the squares of
   * solution move `expected` on position `pos`: the move object the engine
   * returns, whatever promotion it carries.
   */
  type Report = (Fen, string) -> BoardMove

  /** The board's report with no promotion, as for every move that does not promote. */
  function CorrectMove(puzzles: seq<Puzzle>, s: SessionState): (m: BoardMove)
    requires Live(puzzles, s)
    ensures m.promotion == None
    ensures Matches(m, Expected(puzzles, s))
  {
    ReplyMove(Expected(puzzles, s))
  }

  /**
   * A queen promotion as the board reports it (it always asks for promotion
   * to a queen) matches a solution move written with or without the promotion
   * letter, so a report that carries the promotion is still a correct move.
   */
  lemma PromotionReportMatches(from: string, to: string, suffix: string)
    requires |from| == 2 && |to| == 2
    ensures Matches(BoardMove(from, to, Some("q")), from + to + suffix)
  {
    assert (from + to + suffix)[..4] == from + to;
  }

  /**
   * The engine accepts the rest of the solution line from position `pos` with
   * the cursor at `c`: the user's move, as `report` gives it, matches
   * `solution[c]` and is accepted; then the reply `solution[c + 1]` is
   * accepted; and so on until the solution runs out.
   */
  ghost predicate LineAccepted(engine: Engine, report: Report, solution: seq<string>, pos: Fen, c: nat)
    decreases |solution| - c
  {
    c < |solution| ==>
      var m := report(pos, solution[c]);
      var user := engine(pos, Coords(m));
      Matches(m, solution[c]) && user.Some? &&
      (c + 1 < |solution| ==>
        var reply := engine(user.value, Coords(ReplyMove(solution[c + 1])));
        reply.Some? && LineAccepted(engine, report, solution, reply.value, c + 2))
  }

  /** The engine accepts the puzzle's position and setup move, and then its whole solution line. */
  ghost predicate Playable(engine: Engine, report: Report, p: Puzzle)
  {
    |p.solution| > 0 &&
    var setup := engine(p.fen, Text(p.solution[0]));
    setup.Some? && LineAccepted(engine, report, p.solution, setup.value, 1)
  }

  /** A live session, waiting for the user, from which the engine accepts correct play to the end of the solution. */
  ghost predicate OnLine(puzzles: seq<Puzzle>, engine: Engine, report: Report, s: SessionState)
  {
    Consistent(puzzles, s) && !s.halted && !s.replyPending &&
    LineAccepted(engine, report, CurrentSolution(puzzles, s), s.chess.value, s.moveIndex)
  }

  /** The user's move in correct play: the board's report of the expected squares on the current position. */
  function UserMove(puzzles: seq<Puzzle>, report: Report, s: SessionState): (m: BoardMove)
    requires Live(puzzles, s)
  {
    report(s.chess.value, Expected(puzzles, s))
  }

  /**
   * One round of correct play: the user's matching move, then the reply if
   * one is due. A round that solves the puzzle enters the next one, whose
   * setup the engine may refuse, so the result may be halted.
   */
  ghost function CorrectRound(puzzles: seq<Puzzle>, engine: Engine, report: Report, s: SessionState): (r: SessionState)
    requires OnLine(puzzles, engine, report, s)
    ensures Consistent(puzzles, r) && !r.replyPending
  {
    var t := OnMove(puzzles, engine, s, Some(UserMove(puzzles, report, s)));
    if t.replyPending then AutoReply(puzzles, engine, t) else t
  }

  /**
   * A round after which the user still has a move to make keeps the puzzle,
   * progress and clock, moves the cursor on by two, and stays on the line.
   */
  lemma RoundContinues(puzzles: seq<Puzzle>, engine: Engine, report: Report, s: SessionState)
    requires OnLine(puzzles, engine, report, s) && s.moveIndex + 2 < |CurrentSolution(puzzles, s)|
    ensures var r := CorrectRound(puzzles, engine, report, s);
      r.progress == s.progress && r.timer == s.timer && r.moveIndex == s.moveIndex + 2 &&
      OnLine(puzzles, engine, report, r)
  {
    var sol := CurrentSolution(puzzles, s);
    var mv := UserMove(puzzles, report, s);
    assert Matches(mv, Expected(puzzles, s));
    var user := engine(s.chess.value, Coords(mv));
    var t := OnMove(puzzles, engine, s, Some(mv));
    assert t.replyPending && t.chess == user && t.moveIndex == s.moveIndex + 1;
    var reply := engine(user.value, Coords(ReplyMove(sol[s.moveIndex + 1])));
    var r := AutoReply(puzzles, engine, t);
    assert r.chess == reply && r.moveIndex == s.moveIndex + 2;
  }

  /** A round after which no user move remains records the solve. */
  lemma RoundSolves(puzzles: seq<Puzzle>, engine: Engine, report: Report, s: SessionState)
    requires OnLine(puzzles, engine, report, s) && s.moveIndex + 2 >= |CurrentSolution(puzzles, s)|
    ensures CorrectRound(puzzles, engine, report, s).progress ==
      SolvedProgress(s.progress, puzzles[s.progress.currentIndex].id, s.timer, |puzzles|)
  {
    var mv := UserMove(puzzles, report, s);
    assert Matches(mv, Expected(puzzles, s));
    var t := OnMove(puzzles, engine, s, Some(mv));
    if s.moveIndex + 2 == |CurrentSolution(puzzles, s)| {
      assert t.replyPending && t.timer == s.timer && t.progress == s.progress;
    }
  }

  /** `k` rounds of correct play, at most as many as the user moves left in the solution. */
  ghost function CorrectRounds(puzzles: seq<Puzzle>, engine: Engine, report: Report, s: SessionState, k: nat): (r: SessionState)
    requires OnLine(puzzles, engine, report, s)
    requires k <= UserMovesToSolve(s.moveIndex, |CurrentSolution(puzzles, s)|)
    ensures Consistent(puzzles, r) && !r.replyPending
    decreases k
  {
    if k == 0 then s
    else if k == 1 then CorrectRound(puzzles, engine, report, s)
    else
      RoundContinues(puzzles, engine, report, s);
      CorrectRounds(puzzles, engine, report, CorrectRound(puzzles, engine, report, s), k - 1)
  }

  /**
   * Correct play from `s` leaves progress untouched for the first `n - 1`
   * rounds, and the `n`-th round records the solve with elapsed time `time`.
   */
  ghost predicate SolvedAfter(puzzles: seq<Puzzle>, engine: Engine, report: Report, s: SessionState, n: nat, time: nat)
    requires OnLine(puzzles, engine, report, s)
    requires n <= UserMovesToSolve(s.moveIndex, |CurrentSolution(puzzles, s)|)
  {
    (forall k :: 0 <= k < n ==> CorrectRounds(puzzles, engine, report, s, k).progress == s.progress) &&
    CorrectRounds(puzzles, engine, report, s, n).progress ==
      SolvedProgress(s.progress, puzzles[s.progress.currentIndex].id, time, |puzzles|)
  }

  /**
   * Played correctly from cursor c, the puzzle is solved after exactly
   * `UserMovesToSolve(c, L)` user moves: progress is untouched before that,
   * and the last of them records the solve.
   */
  lemma {:induction false} CorrectPlaySolves(puzzles: seq<Puzzle>, engine: Engine, report: Report, s: SessionState)
    requires OnLine(puzzles, engine, report, s)
    ensures SolvedAfter(puzzles, engine, report, s, UserMovesToSolve(s.moveIndex, |CurrentSolution(puzzles, s)|), s.timer)
    decreases |CurrentSolution(puzzles, s)| - s.moveIndex
  {
    var len := |CurrentSolution(puzzles, s)|;
    var n := UserMovesToSolve(s.moveIndex, len);
    if s.moveIndex + 2 >= len {
      RoundSolves(puzzles, engine, report, s);
      assert n == 1;
      assert CorrectRounds(puzzles, engine, report, s, 1) == CorrectRound(puzzles, engine, report, s);
    } else {
      RoundContinues(puzzles, engine, report, s);
      var r := CorrectRound(puzzles, engine, report, s);
      assert n == 1 + UserMovesToSolve(r.moveIndex, len);
      CorrectPlaySolves(puzzles, engine, report, r);
      forall k | 0 <= k < n ensures CorrectRounds(puzzles, engine, report, s, k).progress == s.progress {
        if k == 1 {
          assert CorrectRounds(puzzles, engine, report, s, k) == r;
        } else if k > 1 {
          assert CorrectRounds(puzzles, engine, report, s, k) == CorrectRounds(puzzles, engine, report, r, k - 1);
        }
      }
      assert CorrectRounds(puzzles, engine, report, s, n) == CorrectRounds(puzzles, engine, report, r, n - 1);
    }
  }

  /**
   * From puzzle entry, a solution of length L whose line the engine accepts is
   * solved by exactly ceil((L-1)/2) correct user moves.
   */
  lemma EnteredPuzzleSolvedInHalfTheMoves(puzzles: seq<Puzzle>, engine: Engine, report: Report, s: SessionState)
    requires Consistent(puzzles, s) && Entered(puzzles, engine, s)
    requires s.progress.currentIndex < |puzzles| && Playable(engine, report, puzzles[s.progress.currentIndex])
    ensures OnLine(puzzles, engine, report, s)
    ensures var len := |CurrentSolution(puzzles, s)|;
      UserMovesToSolve(s.moveIndex, len) == (len - 1) / 2 + (len - 1) % 2 &&
      SolvedAfter(puzzles, engine, report, s, (len - 1) / 2 + (len - 1) % 2, 0)
  {
    var len := |CurrentSolution(puzzles, s)|;
    assert !s.halted && s.moveIndex == 1 && s.timer == 0;
    UserMovesFromEntry(len);
    CorrectPlaySolves(puzzles, engine, report, s);
  }
}
