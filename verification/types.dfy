/** Shared constants and record types of the game (src/game/types.ts and the game constants). */
module Types {

  /** A conventional optional value; stands for JavaScript's `null`/`undefined` alternatives. */
  datatype Option<+T> = None | Some(value: T)

  type Positive = n: nat | n > 0 witness 1

  /** Number of letters in a word. */
  const WORD_LENGTH: nat := 5

  /** Attempt cap in normal mode. */
  const MAX_ATTEMPTS: nat := 6

  /** Attempt cap in hard mode: its value is not fixed by the code shown, only that it is positive. */
  const HARD_MODE_ATTEMPTS: Positive

  function Min(a: int, b: int): int {
    if a <= b then a else b
  }

  function Max(a: int, b: int): int {
    if a >= b then a else b
  }

  datatype LetterState = Correct | Present | Absent | Empty

  /** One scored guess: `letters[i]` is scored by `states[i]`. Letters are strings, since a
      restored evaluation may hold an empty letter. */
  datatype Evaluation = Evaluation(letters: seq<string>, states: seq<LetterState>)

  datatype GameStatus = Playing | Won | Lost

  datatype GameMode = Daily | Practice

  datatype Language = Pt | En

  datatype Theme = Dark | Light
}
