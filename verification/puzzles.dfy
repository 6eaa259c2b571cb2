/** The puzzle record as stored in `<id>.json`, and the part of it the puzzle
    routes hand to the browser (app.py `get_puzzle` and its siblings). */
module Puzzles {
  import opened Wrappers

  /** One stored puzzle. `fixLine` and `difficulty` are read with `.get`, so they
      may be missing; the other fields are read with `[...]`. */
  datatype Puzzle = Puzzle(
    id: int,
    title: string,
    description: string,
    snippet: string,
    fixLine: Option<int>,
    tests: seq<string>,
    difficulty: Option<string>,
    explanation: string)

  /** The fields a puzzle route returns; tests, fix line and explanation stay hidden. */
  datatype PublicPuzzle = PublicPuzzle(
    id: int,
    title: string,
    description: string,
    snippet: string,
    difficulty: string)

  const UnknownDifficulty: string := "Unknown"

  /** The dictionary a puzzle route builds from a loaded puzzle. */
  function PublicView(p: Puzzle): (v: PublicPuzzle)
    ensures v.id == p.id && v.title == p.title && v.description == p.description && v.snippet == p.snippet
    ensures p.difficulty.None? ==> v.difficulty == UnknownDifficulty
    ensures p.difficulty.Some? ==> v.difficulty == p.difficulty.value
  {
    PublicPuzzle(p.id, p.title, p.description, p.snippet, p.difficulty.GetOr(UnknownDifficulty))
  }

  /** The answer fields never reach the browser: puzzles that differ only in their
      tests, fix line or explanation look the same to it, and what it does see is
      taken unchanged from the record. */
  lemma PublicViewHidesAnswers(p: Puzzle, q: Puzzle)
    requires p.id == q.id && p.title == q.title && p.description == q.description
    requires p.snippet == q.snippet && p.difficulty == q.difficulty
    ensures PublicView(p) == PublicView(q)
    ensures PublicView(p).id == p.id && PublicView(p).description == p.description
    ensures PublicView(p).snippet == p.snippet && PublicView(p).title == p.title
  {
  }
}
