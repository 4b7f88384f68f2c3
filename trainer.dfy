/**
 * The trainer component: its state hooks become fields, and the entry
 * effect, `onMove`, the interval tick and the scheduled reply become methods
 * that update them in place. The constructor and the entry, solve, move and reply
 * methods are proved to reach the state that the transition functions of
 * module Session prescribe; the tick is specified directly, as one more
 * second on the clock.
 */
module Trainer {
  import opened Wrappers
  import opened Storage
  import opened PuzzleRules
  import opened Session

  class PuzzleTrainer {
    const puzzles: seq<Puzzle>
    const engine: Engine
    var progress: Progress
    var chess: Option<Fen>
    var moveIndex: nat
    var timer: nat
    var ticking: bool
    var feedbackMsg: string
    var userColor: Color
    var replyPending: bool
    var halted: bool

    /** The fields as one value. */
    function State(): SessionState
      reads this
    {
      SessionState(progress, chess, moveIndex, timer, ticking, feedbackMsg, userColor, replyPending, halted)
    }

    ghost predicate Valid()
      reads this
    {
      Consistent(puzzles, State())
    }

    /** Mounting: progress comes from the store, then the first puzzle is entered. */
    constructor (puzzles: seq<Puzzle>, engine: Engine, store: LocalStore)
      requires WellFormedCatalog(puzzles)
      ensures this.puzzles == puzzles && this.engine == engine
      ensures Valid()
      ensures State() == Enter(puzzles, engine, Initial(store.LoadProgress()))
    {
      this.puzzles := puzzles;
      this.engine := engine;
      progress := store.LoadProgress();
      chess := None;
      moveIndex := 0;
      timer := 0;
      ticking := false;
      feedbackMsg := "";
      userColor := White;
      replyPending := false;
      halted := false;
      new;
      EnterPuzzle();
    }

    /** The entry effect for the puzzle at `progress.currentIndex`. */
    method EnterPuzzle()
      requires WellFormedCatalog(puzzles) && !replyPending
      modifies this
      ensures State() == Enter(puzzles, engine, old(State()))
    {
      if progress.currentIndex >= |puzzles| {
        halted := true;
        return;
      }
      var current := puzzles[progress.currentIndex];
      userColor := UserColor(current.fen);
      var setup := engine(current.fen, Text(current.solution[0]));
      if setup.None? {
        halted := true;
        return;
      }
      chess := setup;
      moveIndex := 1;
      timer := 0;
      ticking := true;
      feedbackMsg := "";
      halted := false;
    }

    /** One second of the running interval. */
    method Tick()
      requires ticking
      modifies this`timer
      ensures State() == old(State()).(timer := old(timer) + 1)
    {
      timer := timer + 1;
    }

    /** The puzzle is solved: stop the clock, record the attempt, move on. */
    method FinishPuzzle()
      requires WellFormedCatalog(puzzles) && progress.currentIndex < |puzzles| && !replyPending
      modifies this
      ensures State() == Finish(puzzles, engine, old(State()))
    {
      ticking := false;
      progress := SolvedProgress(progress, puzzles[progress.currentIndex].id, timer, |puzzles|);
      EnterPuzzle();
    }

    /** `onMove`: the board reports the user's move, or None when the engine refused it. */
    method OnMove(move: Option<BoardMove>)
      requires CanMove(puzzles, engine, State(), move)
      modifies this
      ensures State() == Session.OnMove(puzzles, engine, old(State()), move)
      ensures Valid()
    {
      if move.None? {
        feedbackMsg := InvalidMoveMsg;
        return;
      }
      var m := move.value;
      var solution := puzzles[progress.currentIndex].solution;
      var expected := Project(solution[moveIndex]);
      if m.from == expected.from && m.to == expected.to {
        chess := engine(chess.value, Coords(m));
        moveIndex := moveIndex + 1;
        if moveIndex < |solution| {
          replyPending := true;
        } else {
          FinishPuzzle();
        }
      } else {
        feedbackMsg := IncorrectMoveMsg;
      }
    }

    /** The scheduled reply: the opponent plays the solution move at the cursor. */
    method AutoReply()
      requires Valid() && replyPending
      modifies this
      ensures State() == Session.AutoReply(puzzles, engine, old(State()))
      ensures Valid()
    {
      replyPending := false;
      var solution := puzzles[progress.currentIndex].solution;
      var reply := Project(solution[moveIndex]);
      var next := engine(chess.value, Coords(BoardMove(reply.from, reply.to, None)));
      if next.None? {
        return;
      }
      chess := next;
      moveIndex := moveIndex + 1;
      feedbackMsg := "";
      if moveIndex == |solution| {
        FinishPuzzle();
      }
    }
  }
}
