# Woodpecker puzzle trainer: a Dafny model of the puzzle session

This project models the core of a chess-puzzle trainer, written in TypeScript with React.
The trainer walks the user through an ordered list of puzzles. For each puzzle it:

- plays the setup move (`solution[0]`) automatically;
- checks each user move against the expected solution move, by origin and destination square;
- answers each correct move with the next solution move after a short delay;
- when the solution runs out, appends a successful attempt to that puzzle's ledger and moves on to the next puzzle;
- after the last puzzle, wraps to the first puzzle and begins a new cycle.

Progress is stored in the browser's key-value store under a single key, `chessPuzzleProgress`.

Modules and files:

- `wrappers.dfy`, module `Wrappers`: the `Option` type. It stands for values that may be `null` or `undefined`.
- `js_text.dfy`, module `JsText`: the two JavaScript string built-ins the trainer uses.
  - `slice` clamps both bounds to the string's length.
  - `split` breaks a string at each occurrence of a one-character separator. It is proved inverse to joining.
- `storage.dfy`, module `Storage` (`src/lib/storage.ts`):
  - the `PuzzleAttempt` and `Progress` records;
  - the default progress;
  - class `LocalStore`, which holds the key-value store in a `map` field. `loadProgress` is a function of that map. `saveProgress` and `resetProgress` are methods that update it.
  - JSON encoding is modelled as the identity.
  - The `windowDefined` flag stands for `typeof window !== "undefined"`.
- `puzzle_rules.dfy`, module `PuzzleRules`: the pure parts of `src/components/PuzzleTrainer.tsx`:
  - the user's colour from the FEN;
  - projecting a solution move onto its from/to squares;
  - cursor steps after a matched move and after a reply;
  - the attempt ledger and the next-index/cycle update;
  - the badge (status) derivation.
- `session.dfy`, module `Session`: the trainer's state as a value, and the transition functions.
  - The transitions are the entry effect, `onMove`, the scheduled reply and the solve.
  - Lemmas cover sequences of transitions.
- `trainer.dfy`, module `Trainer`: class `PuzzleTrainer`.
  - Its fields are the component's state hooks.
  - Its methods update those fields in place. The constructor and the entry, solve, move and reply methods are proved to reach the state given by the matching function in `Session`. The tick is specified directly, as one more second on the clock.

The chess engine (`chess.js`) is a constant function field of type `(Fen, MoveInput) -> Option<Fen>`. It returns the position after a move, or `None` when it rejects the move. Loading the FEN and playing the setup move count as one engine call.

The two places marked under "## Findings" follow the evidently intended behaviour, not the code. Everywhere else, the model follows the code:

- A failed setup move behaves differently from a failed reply move.
  - A throw inside the entry effect unmounts the component. The model represents this as `halted`.
  - A throw inside the reply timer only leaves the reply unplayed. The model represents this as the reply no longer being pending, with nothing else changed (`Session.AutoReply`).
- A user move is compared with the solution move by its from/to squares only. A promotion letter plays no part.
- Odd and even solution lengths do not behave the same; see Findings.

## Model

| member | source | states |
|---|---|---|
| `JsText.Slice` | src/components/PuzzleTrainer.tsx:72-73 | `slice(start, end)` returns `s[start..end]` when both bounds are in range. It returns the rest of the string when only `end` is past the end. It returns the empty string when `start` is past the end or `end <= start`. |
| `JsText.Split` | src/components/PuzzleTrainer.tsx:42 | `split` always returns at least one piece. No piece contains the separator. Joining the pieces with the separator gives back the input. |
| `JsText.SplitJoin` | src/components/PuzzleTrainer.tsx:42 | `split` undoes joining, for any non-empty list of pieces that do not contain the separator. |
| `JsText.SplitAtFirst` | src/components/PuzzleTrainer.tsx:42 | The first piece of `split` is everything before the first separator. The remaining pieces are the split of the rest. |
| `JsText.SplitOnePiece` | src/components/PuzzleTrainer.tsx:42 | A string splits into a single piece exactly when it contains no separator. |
| `PuzzleRules.StartingTurn` | src/components/PuzzleTrainer.tsx:42 | The second space-separated field exists exactly when the FEN contains a space. The field itself contains no space. |
| `PuzzleRules.UserColor` | src/components/PuzzleTrainer.tsx:41-45 | The user plays black exactly when the FEN's side-to-move field is `"w"`. Otherwise, including when the field is missing, the user plays white. |
| `PuzzleRules.UserColorFromFields` | src/components/PuzzleTrainer.tsx:41-45 | For a FEN `board turn rest`, the side-to-move field is `turn`. The user plays black when `turn` is `"w"` and white for any other `turn`. |
| `PuzzleRules.UserColorWithoutTurnField` | src/components/PuzzleTrainer.tsx:42-44 | A FEN without a space has no side-to-move field, so the user plays white. |
| `PuzzleRules.Project` | src/components/PuzzleTrainer.tsx:71-74 | For a move of 4 or more characters, `from` and `to` are 2 characters each and together equal its first four characters. Shorter strings are clamped as by `slice`. |
| `PuzzleRules.ProjectIgnoresPromotion` | src/components/PuzzleTrainer.tsx:71-74 | Any suffix after the fourth character (a promotion letter, say) leaves the projected squares unchanged. |
| `PuzzleRules.Matches` | src/components/PuzzleTrainer.tsx:82 | For two-letter squares, a user move matches the expected move exactly when from + to equals the first four characters of the solution move. |
| `PuzzleRules.AfterMatch` | src/components/PuzzleTrainer.tsx:86-97 | After matching `solution[c]`, a reply is due at `c + 1` when `c + 1 < L`. Otherwise the puzzle is finished, and that happens exactly when `c + 1 == L`. |
| `PuzzleRules.AfterReply` | src/components/PuzzleTrainer.tsx:89-96 | After the reply `solution[c]`, the user's move is expected at `c + 1 < L`. If the reply was the last move, the puzzle is finished. This is the corrected form; see Findings. |
| `PuzzleRules.AfterReplyAsWritten` | src/components/PuzzleTrainer.tsx:89-96 | The reply step as written: the cursor always moves on by one and the puzzle is never finished, even when the reply was the last move. This is the as-written form; see Findings. |
| `PuzzleRules.UserMovesToSolve` | src/components/PuzzleTrainer.tsx:86-97 | In the corrected form (see Findings), correct play from cursor `c` takes `(L - c + 1) / 2` user moves to finish. |
| `PuzzleRules.UserMovesFromEntry` | src/components/PuzzleTrainer.tsx:48-51 | From the entry cursor 1, a solution of length L takes ceil((L-1)/2) = L/2 correct user moves. |
| `PuzzleRules.UserMovesAsWritten` | src/components/PuzzleTrainer.tsx:86-96 | With the reply step as written, correct play from `c` reaches a solve, after `(L - c + 1) / 2` user moves, exactly when `L - c` is odd. Otherwise the cursor ends at `L` after a reply and no solve happens. |
| `PuzzleRules.AsWrittenSolvesOnlyEvenLengths` | src/components/PuzzleTrainer.tsx:86-96 | As written, a puzzle is solved exactly when its solution length is even. The move counts then agree with the corrected machine. |
| `PuzzleRules.ThreeMoveSolutionAsWritten` | src/components/PuzzleTrainer.tsx:86-96 | For a 3-move solution, the reply as written leaves the cursor at 3, past the last index, and nothing is solved. The corrected reply finishes the puzzle after one user move. |
| `PuzzleRules.AttemptsOf` | src/components/PuzzleTrainer.tsx:154 | A puzzle's attempts are its ledger entry, or the empty list when the ledger has no entry for it: the `|| []` here and at line 216, and the list created when absent at line 106. |
| `PuzzleRules.Record` | src/components/PuzzleTrainer.tsx:105-107 | Ledger append: the puzzle's list gains exactly the new attempt at its end, and is created when absent. Other lists are unchanged. Every old list is a prefix of the new one. |
| `PuzzleRules.Advance` | src/components/PuzzleTrainer.tsx:108-117 | Not the last puzzle: the index goes up by 1 and both cycle counters stay. Otherwise: the index becomes 0, `currentCycle` goes up by 1 and `completedCycles` becomes the old `currentCycle`. The new index is always below the puzzle count. |
| `PuzzleRules.SolvedProgress` | src/components/PuzzleTrainer.tsx:102-117 | The ledger is the old one plus `{cycle: currentCycle, time, success: true}` for this puzzle. The counters change exactly as in `Advance`. |
| `PuzzleRules.SolveAppendsOneAttempt` | src/components/PuzzleTrainer.tsx:102-107 | After a solve, the puzzle's attempts are the old ones plus one successful attempt of the current cycle. Every other puzzle's attempts are unchanged, and the ledger only grows. |
| `PuzzleRules.AdvanceWithinCycle` | src/components/PuzzleTrainer.tsx:108-117 | `k` solves that stay inside the list move the index up by `k` and change nothing else. |
| `PuzzleRules.FullPassCompletesCycle` | src/components/PuzzleTrainer.tsx:108-117 | Starting at index 0, solving all puzzles once gives index 0, the next `currentCycle`, and `completedCycles` equal to the old cycle. |
| `PuzzleRules.FindAttempt` | src/components/PuzzleTrainer.tsx:155 | `find` returns nothing exactly when no attempt has the cycle. Otherwise it returns the attempt at the first position that has it. |
| `PuzzleRules.FindAttemptIsFirst` | src/components/PuzzleTrainer.tsx:155 | The first attempt of a cycle is unique, and `find` returns it. |
| `PuzzleRules.StatusOf` | src/components/PuzzleTrainer.tsx:154-163 | The status is Current exactly when `idx == currentIndex`. Otherwise the first attempt of the current cycle decides: Solved if it succeeded, Failed if not, and Unsolved exactly when there is no such attempt. |
| `PuzzleRules.SolvesNeverFail` | src/components/PuzzleTrainer.tsx:102-117 | Solves record only successful attempts. So a ledger of successes stays one, and no puzzle ever shows Failed. |
| `PuzzleRules.SolvesKeepCyclesBounded` | src/components/PuzzleTrainer.tsx:102-117 | If no attempt belongs to a cycle after the current one before a solve, the same holds after it. |
| `PuzzleRules.SolvedPuzzleShowsSolved` | src/components/PuzzleTrainer.tsx:102-117 | A puzzle solved for the first time in a cycle, when it is not the last puzzle, then shows Solved. |
| `PuzzleRules.NewCycleStartsUnsolved` | src/components/PuzzleTrainer.tsx:108-117 | When the last puzzle is solved, the index becomes 0 and every other puzzle shows Unsolved in the new cycle. |
| `PuzzleRules.EntryRerunsAsWritten` | src/components/PuzzleTrainer.tsx:59 | As written, the entry effect runs again after a solve exactly when the catalogue has two or more puzzles, because only then does `currentIndex` change. |
| `PuzzleRules.SinglePuzzleNotReenteredAsWritten` | src/components/PuzzleTrainer.tsx:59 | With one puzzle, a solve keeps index 0 while the cycle moves on, so as written the entry effect does not run again. |
| `Session.Initial` | src/components/PuzzleTrainer.tsx:18-25 | Before entry: progress as loaded, no position, cursor 0, clock 0 and stopped, no feedback, the user playing white, no reply pending. |
| `Session.Enter` | src/components/PuzzleTrainer.tsx:36-59 | The engine is asked for the puzzle's FEN followed by `solution[0]` (lines 39 and 48, one call). Entry may fail: when the index is outside the list, or the engine rejects the FEN or the setup move, the session halts. Otherwise the position is the setup result, the cursor is 1, the clock restarts at 0 and the feedback is cleared. The user's colour comes from the FEN. Progress is unchanged. |
| `Session.Finish` | src/components/PuzzleTrainer.tsx:97-118 | A solve records the attempt, advances the progress and enters the puzzle at the new index, even when the index is unchanged. This is the corrected form; see Findings. |
| `Session.OnMove` | src/components/PuzzleTrainer.tsx:76-123 | A null move only sets "Invalid move.". A legal move on the wrong squares only sets "Incorrect move. Try again.". A matching non-final move applies the move, advances the cursor by 1 and schedules the reply. A matching final move records the solve and enters the puzzle at the new index. The invariant is kept throughout. This is the corrected form of the solve; see Findings. |
| `Session.AutoReply` | src/components/PuzzleTrainer.tsx:89-96 | The reply is played without promotion. If the engine rejects it, only the pending flag clears. Otherwise the position updates, the cursor advances by 1 and the feedback clears; if that was the last move, the puzzle is solved. The solve on a last reply is the corrected form; see Findings. |
| `Session.ReplyMove` | src/components/PuzzleTrainer.tsx:89-92 | The reply handed to the engine is the projected squares of the solution move (lines 71-74), with no promotion. It matches that solution move, and for moves of 4 or more characters its squares are the first four characters. |
| `Session.RejectionIsIdempotent` | src/components/PuzzleTrainer.tsx:77-80 | A rejected move, illegal or wrong, leaves progress, position and cursor alone. Repeating it changes nothing further. |
| `Session.MoveAndReplyAdvanceTwo` | src/components/PuzzleTrainer.tsx:86-96 | A matching move whose reply is not the last move, followed by that reply when the engine accepts it, advances the cursor by exactly 2 without touching progress. |
| `Session.CorrectMove` | src/components/ChessBoard.tsx:21-26 | The board's report of a move that does not promote: the expected squares with no promotion. It matches the expected solution move. |
| `Session.PromotionReportMatches` | src/components/ChessBoard.tsx:21-26 | A promoting move as the board reports it, with promotion `"q"`, matches any solution move on the same squares, with or without a promotion letter. So the correct-play results below cover promoting user moves. |
| `Session.CorrectRound` | src/components/PuzzleTrainer.tsx:76-118 | One round of correct play, a user move plus its reply when one is due, keeps the invariant, with no reply left pending. The user's move is whatever the board reports for the expected squares, promotion included (`Report`). The premise (`LineAccepted`) is that each report matches and the engine accepts it and then the reply, to the end of the solution. A round that solves the puzzle enters the next one and may halt there. |
| `Session.RoundContinues` | src/components/PuzzleTrainer.tsx:76-96 | A round after which a user move remains keeps progress and clock, moves the cursor on by 2 and keeps the session on an accepted line. |
| `Session.RoundSolves` | src/components/PuzzleTrainer.tsx:86-118 | A round after which no user move remains records the solve with the current clock. In the corrected form (see Findings) this includes a round that ends with the reply. |
| `Session.CorrectRounds` | src/components/PuzzleTrainer.tsx:76-118 | Up to as many correct rounds as the user has moves left keep the invariant, with no reply pending. |
| `Session.CorrectPlaySolves` | src/components/PuzzleTrainer.tsx:76-118 | On a live session whose remaining solution line the engine accepts, with the user's moves as the board reports them (promotion included), progress is untouched for the first `UserMovesToSolve(c, L) - 1` correct moves, and the move after that records the solve. Corrected form; see Findings. |
| `Session.EnteredPuzzleSolvedInHalfTheMoves` | src/components/PuzzleTrainer.tsx:36-118 | After entering a puzzle whose setup and solution line the engine accepts (`Playable`), with the user's moves as the board reports them (promotion included), the session is on that line, and exactly ceil((L-1)/2) correct user moves solve the puzzle. No earlier round touches progress, and the attempt time is that of an untouched clock. Corrected form; see Findings. |
| `Storage.LocalStore.LoadProgress` | src/lib/storage.ts:20-39 | Returns the stored progress when there is a window and the key is present. Otherwise returns the default `{0, 0, 0, {}}`. |
| `Storage.LocalStore.SaveProgress` | src/lib/storage.ts:14-18 | With a window, only `chessPuzzleProgress` is written, and a following load returns the saved progress. All other keys keep their values. Without a window, nothing changes. |
| `Storage.LocalStore.ResetProgress` | src/lib/storage.ts:41-45 | With a window, only the key is removed; without one, nothing changes. In both cases a following load returns the default. |
| `Trainer.PuzzleTrainer.constructor` | src/components/PuzzleTrainer.tsx:17-59 | The state hooks start at their initial values and progress comes from `loadProgress`. The puzzle at the stored `currentIndex` is then entered, as `Session.Enter` gives; an index outside the catalogue halts. |
| `Trainer.PuzzleTrainer.EnterPuzzle` | src/components/PuzzleTrainer.tsx:36-59 | The in-place entry effect reaches exactly the state `Session.Enter` gives. |
| `Trainer.PuzzleTrainer.Tick` | src/components/PuzzleTrainer.tsx:54 | The interval callback adds one second to the timer and changes nothing else. |
| `Trainer.PuzzleTrainer.FinishPuzzle` | src/components/PuzzleTrainer.tsx:97-118 | Stops the clock, records the solve, advances, and always enters the puzzle at the new index, as `Session.Finish` gives. This is the corrected form; see Findings. |
| `Trainer.PuzzleTrainer.OnMove` | src/components/PuzzleTrainer.tsx:76-123 | The in-place `onMove` reaches exactly the state `Session.OnMove` gives, and keeps the invariant. Corrected form; see Findings. |
| `Trainer.PuzzleTrainer.AutoReply` | src/components/PuzzleTrainer.tsx:89-96 | The in-place reply callback reaches exactly the state `Session.AutoReply` gives, and keeps the invariant. Corrected form; see Findings. |

## Findings

| source | as written | input that shows it | evidently intended | confidence | as-written member | corrected member |
|---|---|---|---|---|---|---|
| src/components/PuzzleTrainer.tsx:87-96 | The reply callback advances the cursor but never checks whether the solution is finished. Only a user move can end a puzzle. | Solution `["e2e4","e7e5","g1f3"]`, or any odd length of 3 or more. After `e7e5` and the reply `g1f3`, the cursor is 3, equal to the length. No attempt is recorded. The next legal move reads `solution[3].from` on an undefined entry; `onMove` runs inside the board's `try` (src/components/ChessBoard.tsx:20-30), so the `TypeError` is caught, `onMove(null)` runs, and the user sees "Invalid move." on every further move. | The puzzle is solved when the cursor reaches the end, whoever moved last. | medium; not executed | `PuzzleRules.AsWrittenSolvesOnlyEvenLengths` | `Session.EnteredPuzzleSolvedInHalfTheMoves` |
| src/components/PuzzleTrainer.tsx:59 | The entry effect depends on `[progress.currentIndex, puzzles]`, so it runs again only when the index changes. | A catalogue with one puzzle, solved once. The cycle becomes 1 but the index stays 0, so the puzzle is not entered again. The cursor stays at the solution length and the clock stays stopped. The next legal move reads `solution[L].from` on an undefined entry; the board's `catch` (src/components/ChessBoard.tsx:20-30) turns the `TypeError` into `onMove(null)`, so every further move shows "Invalid move.". | After every solve, the puzzle at the new index, possibly the same one, is entered for the new cycle. | medium; not executed | `PuzzleRules.SinglePuzzleNotReenteredAsWritten` | `Trainer.PuzzleTrainer.FinishPuzzle` |

## Left out

- Chess rules and FEN parsing (`chess.js`): the engine is an opaque parameter returning `Option<Fen>`.
- `src/components/ChessBoard.tsx`: `PuzzleTrainer.OnMove` receives what the board reports. The board always asks for promotion to a queen, and the comparison ignores promotion in any case. The correct-play lemmas take the board's report as a parameter (`Session.Report`).
- `Session.OnMove`: requires that a non-null move is one the engine accepts on the current position. The board produced it on that same position.
- Loading the catalogue with `fetch("/puzzles.json")`: the catalogue is a constructor argument. The puzzle fields `rating`, `popularity`, `themes`, `cyclesCompleted` and `times` play no part in the session and are dropped.
- Real time: the one-second interval is the `Tick` step. The 500 ms reply delay is the separate atomic `AutoReply` step.
- Reentrancy: a user move can arrive while a reply is scheduled, and the code does not guard against it. The model excludes it with the precondition `!replyPending`.
- Saving progress from the effect on every change (lines 62-64) and React's batching of state updates: both are left out. The store is read once, when the trainer is mounted.
- Aliasing: the in-place `push` onto the shallow-copied attempt arrays is modelled as a functional append.
- JSON: it is modelled as the identity, so stored values are `Progress` records. Malformed or empty stored strings are not modelled, and the counters are natural numbers.
- One-move solutions: the model requires at least two solution moves (`WellFormedCatalog`). With only one, entry puts the cursor at the end. The first legal move then reads `solution[1].from` on an undefined entry; the board catches the `TypeError` and calls `onMove(null)`, so every move shows "Invalid move." and the puzzle can never be solved.
- Presentation: the toast, the progress bar, the solution toggle (`showSolutions`), the badges' rendering and the rest of the JSX.
