/**
 * Session progress records and their persistence under one fixed key of the
 * browser's key-value store. JSON serialisation is modelled as the identity,
 * so the store maps keys straight to `Progress` values.
 */
module Storage {

  /** One recorded outcome of a puzzle: the cycle it belongs to, the seconds taken, success. */
  datatype PuzzleAttempt = PuzzleAttempt(cycle: nat, time: nat, success: bool)

  /** Per-puzzle attempt lists, keyed by puzzle id, each in chronological order. */
  type Ledger = map<string, seq<PuzzleAttempt>>

  datatype Progress = Progress(
    completedCycles: nat,
    currentCycle: nat,
    currentIndex: nat,
    puzzleAttempts: Ledger)

  /** The single key under which the whole progress object is stored. */
  const ProgressKey: string := "chessPuzzleProgress"

  /** What a fresh session starts from: no cycle finished, first puzzle, empty ledger. */
  const DefaultProgress: Progress := Progress(0, 0, 0, map[])

  /**
   * The browser's `localStorage`. `windowDefined` is false while rendering on
   * the server, where every operation leaves the store alone.
   */
  class LocalStore {
    const windowDefined: bool
    var items: map<string, Progress>

    constructor (windowDefined: bool, items: map<string, Progress>)
      ensures this.windowDefined == windowDefined && this.items == items
    {
      this.windowDefined := windowDefined;
      this.items := items;
    }

    /** `loadProgress`: the stored progress, or the default when there is none or no window. */
    function LoadProgress(): (p: Progress)
      reads this
      ensures windowDefined && ProgressKey in items ==> p == items[ProgressKey]
      ensures !windowDefined || ProgressKey !in items ==> p == DefaultProgress
    {
      if windowDefined && ProgressKey in items then items[ProgressKey] else DefaultProgress
    }

    /** `saveProgress`: writes the fixed key only; a following load returns `progress`. */
    method SaveProgress(progress: Progress)
      modifies this`items
      ensures items == if windowDefined then old(items)[ProgressKey := progress] else old(items)
      ensures forall k :: k != ProgressKey ==> (k in items <==> k in old(items))
      ensures forall k :: k != ProgressKey && k in items ==> items[k] == old(items)[k]
      ensures windowDefined ==> LoadProgress() == progress
      ensures !windowDefined ==> LoadProgress() == old(LoadProgress())
    {
      if windowDefined {
        items := items[ProgressKey := progress];
      }
    }

    /** `resetProgress`: removes the fixed key only; a following load returns the default. */
    method ResetProgress()
      modifies this`items
      ensures items == if windowDefined then old(items) - {ProgressKey} else old(items)
      ensures forall k :: k != ProgressKey ==> (k in items <==> k in old(items))
      ensures forall k :: k != ProgressKey && k in items ==> items[k] == old(items)[k]
      ensures LoadProgress() == DefaultProgress
    {
      if windowDefined {
        items := items - {ProgressKey};
      }
    }
  }
}
