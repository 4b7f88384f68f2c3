/**
 * The pure rules of the puzzle trainer: which colour the user plays, how a
 * solution move is compared with the user's move, how the solution cursor
 * moves, how a solve updates the progress record, and how each puzzle's
 * status is derived from its attempts.
 */
module PuzzleRules {
  import opened Wrappers
  import opened JsText
  import opened Storage

  /** A position in Forsyth-Edwards notation, e.g. "6k1/5ppp/8/8/8/8/5PPP/3R2K1 w - - 0 1". */
  type Fen = string

  /** A catalogue entry; rating, popularity and themes play no part in the session. */
  datatype Puzzle = Puzzle(id: string, fen: Fen, solution: seq<string>)

  /** A move object as the chess engine reports and accepts it. */
  datatype BoardMove = BoardMove(from: string, to: string, promotion: Option<string>)

  /** What is handed to the engine's `move`: a move string or a move object. */
  datatype MoveInput = Text(text: string) | Coords(move: BoardMove)

  /** The chess engine: the position after applying a move, or None when it rejects the move. */
  type Engine = (Fen, MoveInput) -> Option<Fen>

  datatype Color = White | Black

  // ---------------------------------------------------------------------------
  // The user's colour

  /** `fen.split(" ")[1]`: the side-to-move field, undefined when the FEN has no space. */
  function StartingTurn(fen: Fen): (turn: Option<string>)
    ensures turn.Some? <==> ' ' in fen
    ensures turn.Some? ==> ' ' !in turn.value
  {
    var parts := Split(fen, ' ');
    SplitOnePiece(fen, ' ');
    if |parts| > 1 then Some(parts[1]) else None
  }

  /** The setup move hands the move to the other side, so the user plays against the FEN's mover. */
  function UserColor(fen: Fen): (c: Color)
    ensures c == Black <==> StartingTurn(fen) == Some("w")
  {
    if StartingTurn(fen) == Some("w") then Black else White
  }

  /** For a FEN whose first two fields are `board` and `turn`, the user plays black exactly when `turn` is "w". */
  lemma UserColorFromFields(board: string, turn: string, rest: string)
    requires ' ' !in board && ' ' !in turn
    requires rest == "" || rest[0] == ' '
    ensures StartingTurn(board + [' '] + turn + rest) == Some(turn)
    ensures UserColor(board + [' '] + turn + rest) == if turn == "w" then Black else White
  {
    var fen := board + [' '] + turn + rest;
    assert fen == board + [' '] + (turn + rest);
    SplitAtFirst(board, turn + rest, ' ');
    if rest == "" {
      assert turn + rest == turn;
      SplitFree(turn, ' ');
    } else {
      assert turn + rest == turn + [' '] + rest[1..];
      SplitAtFirst(turn, rest[1..], ' ');
    }
  }

  /** A FEN without any space has no side-to-move field, and the user then plays white. */
  lemma UserColorWithoutTurnField(fen: Fen)
    requires ' ' !in fen
    ensures StartingTurn(fen) == None && UserColor(fen) == White
  {
  }

  // ---------------------------------------------------------------------------
  // Comparing moves

  /** The origin and destination squares of a solution move. */
  datatype Squares = Squares(from: string, to: string)

  /** `{from: move.slice(0, 2), to: move.slice(2, 4)}`; any promotion letter is dropped. */
  function Project(move: string): (sq: Squares)
    ensures |move| >= 4 ==> |sq.from| == 2 && |sq.to| == 2 && sq.from + sq.to == move[..4]
    ensures |move| <= 2 ==> sq.from == move && sq.to == ""
    ensures 2 <= |move| <= 4 ==> sq.from == move[..2] && sq.to == move[2..]
  {
    var sq := Squares(Slice(move, 0, 2), Slice(move, 2, 4));
    assert |move| >= 4 ==> move[..4] == move[..2] + move[2..4];
    sq
  }

  /** Two concatenations with equally long left parts are equal exactly when both parts are. */
  lemma ConcatParts(a: string, b: string, c: string, d: string)
    ensures |a| == |c| ==> (a + b == c + d <==> a == c && b == d)
  {
    if |a| == |c| && a + b == c + d {
      assert a == (a + b)[..|a|] && c == (c + d)[..|c|];
      assert b == (a + b)[|a|..] && d == (c + d)[|c|..];
    }
  }

  /**
   * The user's move matches a solution move when origin and destination agree;
   * for two-letter squares that is equality with the solution move's first
   * four characters, so a promotion letter on either side plays no part.
   */
  function Matches(m: BoardMove, expected: string): (r: bool)
    ensures |expected| >= 4 && |m.from| == 2 && |m.to| == 2 ==> (r <==> m.from + m.to == expected[..4])
  {
    var sq := Project(expected);
    ConcatParts(m.from, m.to, sq.from, sq.to);
    m.from == sq.from && m.to == sq.to
  }

  /** Appending a promotion letter (or anything else) after four characters does not change the squares. */
  lemma ProjectIgnoresPromotion(move: string, suffix: string)
    requires |move| >= 4
    ensures Project(move + suffix) == Project(move)
  {
    assert (move + suffix)[..4] == move[..4];
  }

  // ---------------------------------------------------------------------------
  // The solution cursor

  /**
   * Where the session stands in a solution: waiting for the user's move at
   * `cursor`, waiting for the automatic reply at `cursor`, or done.
   */
  datatype Phase = AwaitingUser(cursor: nat) | Replying(cursor: nat) | Finished

  /** After the user matched `solution[c]`: the reply at `c + 1` follows, or the solution is exhausted. */
  function AfterMatch(c: nat, len: nat): (ph: Phase)
    requires c < len
    ensures ph == Finished <==> c + 1 == len
    ensures ph.Replying? ==> ph.cursor == c + 1 < len
    ensures !ph.AwaitingUser?
  {
    if c + 1 < len then Replying(c + 1) else Finished
  }

  /**
   * After the automatic reply `solution[c]`: the user's next move is expected
   * at `c + 1`, or the reply was the last move and the puzzle is solved.
   */
  function AfterReply(c: nat, len: nat): (ph: Phase)
    requires c < len
    ensures ph == Finished <==> c + 1 == len
    ensures ph.AwaitingUser? ==> ph.cursor == c + 1 < len
    ensures !ph.Replying?
  {
    if c + 1 < len then AwaitingUser(c + 1) else Finished
  }

  /** The reply step as the source writes it: the cursor moves on and completion is never checked. */
  function AfterReplyAsWritten(c: nat, len: nat): (ph: Phase)
    requires c < len
    ensures ph != Finished && ph.cursor == c + 1
  {
    AwaitingUser(c + 1)
  }

  /** How many correct user moves take the session from cursor `c` to `Finished`. */
  function UserMovesToSolve(c: nat, len: nat): (n: nat)
    requires c < len
    ensures n == (len - c + 1) / 2
    decreases len - c
  {
    var ph := AfterMatch(c, len);
    if ph.Finished? then 1
    else
      var next := AfterReply(ph.cursor, len);
      if next.Finished? then 1 else 1 + UserMovesToSolve(next.cursor, len)
  }

  /** From puzzle entry (cursor 1), a solution of length L takes ceil((L-1)/2) correct user moves. */
  lemma UserMovesFromEntry(len: nat)
    requires len >= 2
    ensures UserMovesToSolve(1, len) == (len - 1) / 2 + (len - 1) % 2
    ensures UserMovesToSolve(1, len) == len / 2
  {
  }

  /** Two half-moves fewer keep the parity and take one off the rounded-up half. */
  lemma TwoFewer(d: nat)
    requires d >= 2
    ensures (d - 2) % 2 == d % 2 && (d - 2 + 1) / 2 + 1 == (d + 1) / 2
  {
  }

  /**
   * The same count with the reply step as written: None when the cursor ends
   * up at `len` after a reply, so that the next move would read past the end
   * of the solution and the puzzle is never recorded as solved.
   */
  function UserMovesAsWritten(c: nat, len: nat): (r: Option<nat>)
    requires c < len
    ensures r == if (len - c) % 2 == 1 then Some((len - c + 1) / 2) else None
    decreases len - c
  {
    var ph := AfterMatch(c, len);
    if ph.Finished? then Some(1)
    else
      var next := AfterReplyAsWritten(ph.cursor, len).cursor;
      TwoFewer(len - c);
      if next < len then
        match UserMovesAsWritten(next, len)
        case Some(n) => Some(n + 1)
        case None => None
      else None
  }

  /** As written, a puzzle is solved only when its solution has even length (the user makes the last move). */
  lemma AsWrittenSolvesOnlyEvenLengths(len: nat)
    requires len >= 2
    ensures UserMovesAsWritten(1, len).Some? <==> len % 2 == 0
    ensures len % 2 == 0 ==> UserMovesAsWritten(1, len) == Some(UserMovesToSolve(1, len))
  {
  }

  /** A three-move solution: after the user's move and the reply the cursor sits at 3, past the last index 2. */
  lemma ThreeMoveSolutionAsWritten()
    ensures AfterMatch(1, 3) == Replying(2)
    ensures AfterReplyAsWritten(2, 3) == AwaitingUser(3)
    ensures UserMovesAsWritten(1, 3) == None
    ensures AfterReply(2, 3) == Finished && UserMovesToSolve(1, 3) == 1
  {
  }

  // ---------------------------------------------------------------------------
  // The attempt ledger and the progress counters

  /** `progress.puzzleAttempts[id] || []`. */
  function AttemptsOf(ledger: Ledger, id: string): (r: seq<PuzzleAttempt>)
    ensures id in ledger ==> r == ledger[id]
    ensures id !in ledger ==> r == []
  {
    if id in ledger then ledger[id] else []
  }

  /** Every list of `before` is a prefix of the same puzzle's list in `after`. */
  ghost predicate Extends(before: Ledger, after: Ledger)
  {
    forall k :: k in before ==> k in after && before[k] <= after[k]
  }

  /** Appends `attempt` to the puzzle's list, creating the list when it is absent. */
  function Record(ledger: Ledger, id: string, attempt: PuzzleAttempt): (r: Ledger)
    ensures r.Keys == ledger.Keys + {id}
    ensures r[id] == AttemptsOf(ledger, id) + [attempt]
    ensures forall k :: k in ledger && k != id ==> r[k] == ledger[k]
    ensures Extends(ledger, r)
  {
    ledger[id := AttemptsOf(ledger, id) + [attempt]]
  }

  /** Moves to the next puzzle; past the last one it wraps to 0 and opens a new cycle. */
  function Advance(prev: Progress, count: nat): (next: Progress)
    requires count > 0
    ensures next.puzzleAttempts == prev.puzzleAttempts
    ensures prev.currentIndex + 1 < count ==>
      next.currentIndex == prev.currentIndex + 1 &&
      next.currentCycle == prev.currentCycle && next.completedCycles == prev.completedCycles
    ensures prev.currentIndex + 1 >= count ==>
      next.currentIndex == 0 &&
      next.currentCycle == prev.currentCycle + 1 && next.completedCycles == prev.currentCycle
    ensures next.currentIndex < count
    ensures next.currentCycle >= prev.currentCycle
  {
    var nextIndex := prev.currentIndex + 1;
    var wrapped := nextIndex >= count;
    prev.(currentIndex := if wrapped then 0 else nextIndex,
          currentCycle := if wrapped then prev.currentCycle + 1 else prev.currentCycle,
          completedCycles := if wrapped then prev.currentCycle else prev.completedCycles)
  }

  /** The progress after puzzle `id` is solved in `time` seconds. */
  function SolvedProgress(prev: Progress, id: string, time: nat, count: nat): (next: Progress)
    requires count > 0
    ensures next.puzzleAttempts ==
      Record(prev.puzzleAttempts, id, PuzzleAttempt(prev.currentCycle, time, true))
    ensures next.(puzzleAttempts := prev.puzzleAttempts) == Advance(prev, count)
  {
    Advance(prev.(puzzleAttempts := Record(prev.puzzleAttempts, id, PuzzleAttempt(prev.currentCycle, time, true))), count)
  }

  /** A solve appends exactly one successful attempt of the current cycle and touches no other list. */
  lemma SolveAppendsOneAttempt(prev: Progress, id: string, time: nat, count: nat)
    requires count > 0
    ensures var next := SolvedProgress(prev, id, time, count);
      AttemptsOf(next.puzzleAttempts, id) == AttemptsOf(prev.puzzleAttempts, id) + [PuzzleAttempt(prev.currentCycle, time, true)] &&
      (forall k :: k != id ==> AttemptsOf(next.puzzleAttempts, k) == AttemptsOf(prev.puzzleAttempts, k)) &&
      Extends(prev.puzzleAttempts, next.puzzleAttempts)
  {
  }

  /** `k` solves in a row, counters only. */
  function AdvanceTimes(p: Progress, count: nat, k: nat): Progress
    requires count > 0
    decreases k
  {
    if k == 0 then p else Advance(AdvanceTimes(p, count, k - 1), count)
  }

  lemma {:induction false} AdvanceWithinCycle(p: Progress, count: nat, k: nat)
    requires count > 0 && p.currentIndex + k < count
    ensures AdvanceTimes(p, count, k) == p.(currentIndex := p.currentIndex + k)
    decreases k
  {
    if k > 0 {
      AdvanceWithinCycle(p, count, k - 1);
    }
  }

  /** One pass over all `count` puzzles from index 0 completes exactly one cycle. */
  lemma FullPassCompletesCycle(p: Progress, count: nat)
    requires count > 0 && p.currentIndex == 0
    ensures AdvanceTimes(p, count, count) ==
      p.(currentIndex := 0, currentCycle := p.currentCycle + 1, completedCycles := p.currentCycle)
  {
    AdvanceWithinCycle(p, count, count - 1);
  }

  // ---------------------------------------------------------------------------
  // Per-puzzle status

  datatype PuzzleStatus = Current | Solved | Failed | Unsolved

  /** No attempt before position `i` belongs to `cycle`. */
  predicate NoneBefore(attempts: seq<PuzzleAttempt>, i: nat, cycle: nat)
    requires i <= |attempts|
  {
    forall j :: 0 <= j < i ==> attempts[j].cycle != cycle
  }

  /** Position `i` holds the first attempt of `cycle`. */
  predicate FirstOfCycle(attempts: seq<PuzzleAttempt>, i: int, cycle: nat)
  {
    0 <= i < |attempts| && attempts[i].cycle == cycle && NoneBefore(attempts, i, cycle)
  }

  lemma FirstOfCycleUnique(attempts: seq<PuzzleAttempt>, i: int, j: int, cycle: nat)
    requires FirstOfCycle(attempts, i, cycle) && FirstOfCycle(attempts, j, cycle)
    ensures i == j
  {
  }

  /** `attempts.find(a => a.cycle === cycle)`: the first attempt of the cycle, if any. */
  function FindAttempt(attempts: seq<PuzzleAttempt>, cycle: nat): (r: Option<PuzzleAttempt>)
    ensures r.None? <==> NoneBefore(attempts, |attempts|, cycle)
    ensures r.Some? ==> exists i :: FirstOfCycle(attempts, i, cycle) && attempts[i] == r.value
    decreases |attempts|
  {
    if |attempts| == 0 then None
    else if attempts[0].cycle == cycle then
      assert FirstOfCycle(attempts, 0, cycle);
      Some(attempts[0])
    else
      var r := FindAttempt(attempts[1..], cycle);
      assert forall j :: 1 <= j < |attempts| ==> attempts[j] == attempts[1..][j - 1];
      if r.Some? then
        var i :| FirstOfCycle(attempts[1..], i, cycle) && attempts[1..][i] == r.value;
        assert FirstOfCycle(attempts, i + 1, cycle);
        r
      else r
  }

  /** Whatever `FindAttempt` returns is the attempt at every first position of the cycle. */
  lemma FindAttemptIsFirst(attempts: seq<PuzzleAttempt>, cycle: nat)
    ensures FindAttempt(attempts, cycle).Some? ==>
      forall i :: FirstOfCycle(attempts, i, cycle) ==> attempts[i] == FindAttempt(attempts, cycle).value
  {
    var found := FindAttempt(attempts, cycle);
    if found.Some? {
      var k :| FirstOfCycle(attempts, k, cycle) && attempts[k] == found.value;
      forall i | FirstOfCycle(attempts, i, cycle) ensures attempts[i] == found.value {
        FirstOfCycleUnique(attempts, i, k, cycle);
      }
    }
  }

  /** The badge shown for puzzle `idx` with id `puzzleId`. */
  function StatusOf(progress: Progress, idx: nat, puzzleId: string): (s: PuzzleStatus)
    ensures s == Current <==> idx == progress.currentIndex
    ensures var attempts := AttemptsOf(progress.puzzleAttempts, puzzleId);
      s == Unsolved <==> idx != progress.currentIndex && NoneBefore(attempts, |attempts|, progress.currentCycle)
    ensures var attempts := AttemptsOf(progress.puzzleAttempts, puzzleId);
      s == Solved <==> (idx != progress.currentIndex &&
        exists i :: FirstOfCycle(attempts, i, progress.currentCycle) && attempts[i].success)
    ensures var attempts := AttemptsOf(progress.puzzleAttempts, puzzleId);
      s == Failed <==> (idx != progress.currentIndex &&
        exists i :: FirstOfCycle(attempts, i, progress.currentCycle) && !attempts[i].success)
  {
    var attempts := AttemptsOf(progress.puzzleAttempts, puzzleId);
    var found := FindAttempt(attempts, progress.currentCycle);
    FindAttemptIsFirst(attempts, progress.currentCycle);
    if idx == progress.currentIndex then Current
    else if found.Some? then (if found.value.success then Solved else Failed)
    else Unsolved
  }

  /** Every recorded attempt is a success. */
  ghost predicate AllSucceeded(ledger: Ledger)
  {
    forall k, i :: k in ledger && 0 <= i < |ledger[k]| ==> ledger[k][i].success
  }

  /** Every recorded attempt belongs to `cycle` or an earlier one. */
  ghost predicate CyclesAtMost(ledger: Ledger, cycle: nat)
  {
    forall k, i :: k in ledger && 0 <= i < |ledger[k]| ==> ledger[k][i].cycle <= cycle
  }

  /** Solves record only successes, so a ledger built by solves never yields "Failed". */
  lemma SolvesNeverFail(prev: Progress, id: string, time: nat, count: nat)
    requires count > 0 && AllSucceeded(prev.puzzleAttempts)
    ensures AllSucceeded(SolvedProgress(prev, id, time, count).puzzleAttempts)
    ensures forall idx, pid :: StatusOf(SolvedProgress(prev, id, time, count), idx, pid) != Failed
  {
    var next := SolvedProgress(prev, id, time, count);
    forall idx, pid ensures StatusOf(next, idx, pid) != Failed {
      var attempts := AttemptsOf(next.puzzleAttempts, pid);
      assert forall i :: 0 <= i < |attempts| ==> attempts[i].success;
    }
  }

  /** Solves keep every attempt within the current cycle. */
  lemma SolvesKeepCyclesBounded(prev: Progress, id: string, time: nat, count: nat)
    requires count > 0 && CyclesAtMost(prev.puzzleAttempts, prev.currentCycle)
    ensures var next := SolvedProgress(prev, id, time, count);
      CyclesAtMost(next.puzzleAttempts, next.currentCycle)
  {
    var next := SolvedProgress(prev, id, time, count);
    forall k, i | k in next.puzzleAttempts && 0 <= i < |next.puzzleAttempts[k]|
      ensures next.puzzleAttempts[k][i].cycle <= next.currentCycle
    {
      if k == id && i == |AttemptsOf(prev.puzzleAttempts, id)| {
      } else {
        assert k in prev.puzzleAttempts && next.puzzleAttempts[k][i] == prev.puzzleAttempts[k][i];
      }
    }
  }

  /** A puzzle solved for the first time in this cycle shows "Solved" once the session moves on. */
  lemma SolvedPuzzleShowsSolved(prev: Progress, id: string, time: nat, count: nat)
    requires count > 0 && prev.currentIndex + 1 < count
    requires var attempts := AttemptsOf(prev.puzzleAttempts, id);
      NoneBefore(attempts, |attempts|, prev.currentCycle)
    ensures StatusOf(SolvedProgress(prev, id, time, count), prev.currentIndex, id) == Solved
  {
    var next := SolvedProgress(prev, id, time, count);
    var before := AttemptsOf(prev.puzzleAttempts, id);
    var after := AttemptsOf(next.puzzleAttempts, id);
    assert after == before + [PuzzleAttempt(prev.currentCycle, time, true)];
    assert FirstOfCycle(after, |before|, next.currentCycle) && after[|before|].success;
  }

  /** When the last puzzle is solved the new cycle begins with every other puzzle unsolved. */
  lemma NewCycleStartsUnsolved(prev: Progress, id: string, time: nat, count: nat)
    requires count > 0 && prev.currentIndex + 1 >= count
    requires CyclesAtMost(prev.puzzleAttempts, prev.currentCycle)
    ensures var next := SolvedProgress(prev, id, time, count);
      next.currentIndex == 0 &&
      forall idx, pid :: idx != 0 ==> StatusOf(next, idx, pid) == Unsolved
  {
    var next := SolvedProgress(prev, id, time, count);
    SolvesKeepCyclesBounded(prev, id, time, count);
    forall idx, pid | idx != 0 ensures StatusOf(next, idx, pid) == Unsolved {
      var attempts := AttemptsOf(next.puzzleAttempts, pid);
      forall j | 0 <= j < |attempts| ensures attempts[j].cycle != next.currentCycle {
        assert pid in next.puzzleAttempts && attempts[j] == next.puzzleAttempts[pid][j];
      }
    }
  }

  // ---------------------------------------------------------------------------
  // Re-running the entry effect

  /**
   * The entry effect depends on `[progress.currentIndex, puzzles]`. The catalogue
   * does not change during a session, so as written the effect runs again
   * after a solve exactly when the index changed, which happens exactly when
   * there are two or more puzzles.
   */
  function EntryRerunsAsWritten(prev: Progress, id: string, time: nat, count: nat): (r: bool)
    requires count > 0
    ensures prev.currentIndex < count ==> (r <==> count >= 2)
  {
    prev.currentIndex != SolvedProgress(prev, id, time, count).currentIndex
  }

  /** With a single puzzle the index stays 0 while the cycle moves on, so as written the puzzle is never entered again. */
  lemma SinglePuzzleNotReenteredAsWritten(prev: Progress, id: string, time: nat)
    requires prev.currentIndex == 0
    ensures var next := SolvedProgress(prev, id, time, 1);
      !EntryRerunsAsWritten(prev, id, time, 1) &&
      next.currentIndex == 0 && next.currentCycle == prev.currentCycle + 1
  {
  }
}
