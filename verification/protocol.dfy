/**
  The messages exchanged between a device and its sync room. Every message is
  one JSON object whose `type` field selects the variant.
 */
module Protocol {
  import opened Seqs
  import opened OrderedMap

  /** The puzzle a device is looking at: its storage key, date and language. */
  datatype PuzzleRef = PuzzleRef(puzzleKey: string, date: string, lang: string)

  /** Found words per puzzle key, in the order the keys were first written. */
  type Puzzles = m: OMap<string, seq<string>> | m.Valid() witness OMap([], map[])

  /** The words recorded for `key`, or none (`puzzles[key] || []`). */
  function WordsOf(puzzles: Puzzles, key: string): (words: seq<string>)
    ensures key in puzzles.values ==> words == puzzles.values[key]
    ensures key !in puzzles.values ==> words == []
  {
    match Get(puzzles, key)
    case Some(w) => w
    case None => []
  }

  /** What a device sends. */
  datatype ClientMessage =
    | SyncAll(puzzles: Puzzles, currentPuzzle: Option<PuzzleRef>)
    | Word(puzzleKey: string, word: string, date: Option<string>)

  /** What a room sends. */
  datatype ServerMessage =
    | SyncAllReply(puzzles: Puzzles, lastActivePuzzle: Option<PuzzleRef>)
    | SyncPuzzle(puzzleKey: string, words: seq<string>)
    | NewWord(puzzleKey: string, word: string)
    | SyncStatus(count: nat, hasEverSynced: bool)

  /**
    A received frame after `JSON.parse`: not JSON at all, JSON whose `type`
    the receiver does not handle, or one of the messages it does.
   */
  datatype Incoming<M> = Unparseable | Unrecognised | Parsed(msg: M)
}
