# WordMint core in Dafny

WordMint is a browser word-guessing game. The player has a bounded number of attempts
to find a hidden five-letter solution, and each guess is scored letter by letter. This
project models the parts of the game that carry real logic, as pure Dafny functions over
immutable datatypes, and proves what they guarantee:

- **Guess scoring** (`logic.dfy`, module `Logic`). This covers word normalization and the
  two-pass `evaluateGuess`. Exact matches are marked first. The remaining solution letters
  are then handed out as `present` from left to right.
- **Hard mode** (`logic.dfy`). `getHardModeViolation` builds the required positions and
  required letter counts from earlier evaluations. The required positions are a JS `Map`
  and the counts a plain object; both are modelled as insertion-ordered association lists
  (`ordered_map.dfy`). The first violation reported is the first one in insertion order.
  Instead of a message, the result is a `Violation` value.
- **Round end** (`logic.dfy`): `isWinningGuess` and `isGameOver`.
- **Keyboard hints** (`keyboard.dfy`). `buildKeyboardState` folds the evaluations into a
  letter-to-state map, keeping the best-ranked state for each letter.
- **The round state machine** (`reducer.dfy`). This covers `createInitialState` and
  `gameReducer` as a total transition function over the tagged actions.
- **Sanitizing persisted data** (`storage.dfy`). The sanitizers for stats, settings and a
  round snapshot work on an already-decoded JSON value. That value is modelled in
  `json.dfy`, including an `Undefined` value for a missing field and a non-finite number.
- **The share text** (`share.dfy`): `emojiMap` and `buildShareText`.

JavaScript built-ins the code relies on are modelled in `text.dfy`:

- `trim` with the ECMAScript white-space set;
- `padEnd` and `slice`;
- `join`;
- number-to-string.

`types.dfy` holds the shared enumerations and the constants WORD_LENGTH = 5 and
MAX_ATTEMPTS = 6. HARD_MODE_ATTEMPTS is left as an arbitrary positive constant, because
`src/game/constants.ts` is not part of this model.

Each operation is paired with an independent statement of what it computes, and a lemma
connects the two:

- The scorer is proved to credit every letter min(copies in the guess, copies in the
  solution) times, and to give `present` to the leftmost unmatched copies.
- The hard-mode check is proved to accept a candidate exactly when the candidate keeps
  every revealed position and reaches every single-guess letter count.
- The keyboard fold is proved independent of evaluation order.
- Stored settings, stats, evaluations and snapshots are proved to load back unchanged.
- The share text is proved to read back as its header plus one glyph row per guess, and
  the header to read back as its mode, date key and attempts.
- The hard-mode requirements are proved to be listed in the order of first reveal, so
  the reported violation is the earliest-revealed one the candidate misses.

Points where the code's behaviour is easy to misread:

- The first positional violation in hard mode is the first position revealed `Correct`,
  in insertion order. It is not the lowest index (`Logic.HardModeReportsEarliestReveal`).
- The reducer does no length, dictionary or hard-mode rejection. `SUBMIT_GUESS` trusts
  the evaluation and status the caller passes in.
- Outside hard mode the reducer does not stop at MAX_ATTEMPTS (`GameReducer.SubmitGuard`).
- The sanitizer enforces neither `gamesWon <= gamesPlayed` nor `maxStreak >= currentStreak`.
- A stored guess that is not a full word is dropped (`Storage.SanitizeGuessesAt`). It does
  not invalidate the snapshot; only the solution does that.
- Guesses and evaluations are filtered independently, so one dropped guess shifts the
  pairing of the rest (`Storage.DroppedGuessShiftsPairing`).

## Model

| member | source | states |
|---|---|---|
| `Logic.NormalizeWord` | src/game/logic.ts:6-11 | the normalized word holds only the letters A..Z and is no longer than the input |
| `Logic.NormalizeWordFixesWords` | src/game/logic.ts:6-11 | a word already made of A..Z letters is unchanged by normalization |
| `Logic.NormalizeWordFixedPoints` | src/game/logic.ts:6-11 | the strings normalization leaves unchanged are exactly the A..Z words |
| `Logic.NormalizeWordIdempotent` | src/game/logic.ts:6-11 | normalizing twice is the same as normalizing once |
| `Logic.NormalizeWordConcat` | src/game/logic.ts:6-11 | normalization works character by character: it distributes over concatenation |
| `Logic.GuessLetters` | src/game/logic.ts:25-27 | the scored guess has exactly WORD_LENGTH letters: the normalized guess, padded with ' ', with excess letters dropped |
| `Logic.Slots` | src/game/logic.ts:26-35 | each of the WORD_LENGTH positions holds the solution's letter there, or nothing past its end |
| `Logic.ExactFlags` | src/game/logic.ts:37-42 | the first pass flags a position exactly when the guess letter equals the solution letter there |
| `Logic.Pass2` | src/game/logic.ts:44-55 | the second pass keeps exact positions `correct`, marks unmatched blanks `empty`, and gives `present` only to a letter the remaining counts hold |
| `Logic.Pass2LeftFirst` | src/game/logic.ts:44-55 | `present` is handed out left to right: an unmatched letter is `present` exactly when fewer unmatched copies of it stand to its left than the remaining count of that letter |
| `Logic.Score` | src/game/logic.ts:30-55 | the two passes mark a position `correct` exactly when its slot holds the guess letter, and `empty` exactly when it is an unmatched blank |
| `Logic.ScoreLeftFirst` | src/game/logic.ts:30-55 | read off the states alone: an unmatched letter is `present` exactly when fewer unmatched copies of it precede it than the slots hold beyond the `correct` positions |
| `Logic.EvaluateGuess` | src/game/logic.ts:24-58 | WORD_LENGTH letters and states; each letter is the padded guess's; a position is `correct` iff it matches the normalized solution there; it is `empty` iff it lies past the normalized guess |
| `Logic.EvaluateGuessLeftFirst` | src/game/logic.ts:24-58 | a letter neither `correct` nor `empty` is `present` exactly when fewer unmatched copies of it stand to its left than the solution's first WORD_LENGTH letters hold beyond the `correct` positions; so which copy of a repeated letter is `present` is fixed, not only how many |
| `Logic.SlotLettersOf` | src/game/logic.ts:30-35 | the initial remaining counts are the multiset of the solution's first WORD_LENGTH letters |
| `Logic.ExactWithinSlots` | src/game/logic.ts:37-42 | the first pass only uses up letters the solution really holds |
| `Logic.Pass2Credits` | src/game/logic.ts:44-55 | for each letter, the second pass credits the exact positions plus min(unmatched copies, remaining copies) |
| `Logic.ScoreCredits` | src/game/logic.ts:30-55 | the two passes credit each letter min(copies in the guess, copies in the solution) times |
| `Logic.EvaluateGuessCredits` | src/game/logic.ts:24-58 | for every letter, the positions marked `correct` or `present` number min(copies in the padded guess, copies in the solution's first WORD_LENGTH letters), so duplicates are never over-credited |
| `Logic.EvaluateSelf` | src/game/logic.ts:37-49 | a word scored against itself is all `correct` exactly when it normalizes to at least WORD_LENGTH letters |
| `Logic.EvaluateExampleLeftFirst` | src/game/logic.ts:24-58 | ANNOY against CRANE scores present, present, absent, absent, absent: the first of the two Ns takes CRANE's single N |
| `Logic.WordIsItsLetters` | src/game/logic.ts:6-27 | a five-letter A..Z word is scored by exactly its own letters, with no change or padding |
| `Logic.EvaluateExampleTrace` | src/game/logic.ts:24-58 | TRACE against CRANE scores absent, correct, correct, present, correct |
| `Logic.EvaluateExampleDuplicates` | src/game/logic.ts:24-58 | EERIE against CRANE credits only one of its three Es: absent, absent, present, absent, correct |
| `OrderedMap.Set` | src/game/logic.ts:82-85 | a map or object update overwrites a present key in place and appends a new key at the end; other keys are unchanged |
| `OrderedMap.SetKeepsDistinct` | src/game/logic.ts:82-85 | updating a map whose keys are distinct leaves its keys distinct |
| `Logic.AddPositionsLookup` | src/game/logic.ts:78-83 | recording one evaluation's `correct` positions sets each such position to its letter and keeps keys distinct |
| `Logic.RequiredPositionsLookup` | src/game/logic.ts:73-83 | the required letter at a position is the one its latest `correct` reveal shows, and no position appears twice |
| `Logic.TallyCreditsLookup` | src/game/logic.ts:77-87 | one guess's per-letter tally counts that letter's `correct` and `present` marks |
| `Logic.MergeCountsLookup` | src/game/logic.ts:89-91 | folding a guess's tally into the requirements keeps the larger count of each letter |
| `Logic.RequiredCountsLookup` | src/game/logic.ts:74-92 | a letter's required count is the largest credit any single evaluation gives it (a maximum, not a sum) |
| `Logic.FirstPositionViolation` | src/game/logic.ts:97-101 | no violation iff the candidate keeps every required position; otherwise the report is the first unkept entry in insertion order, 1-based |
| `Logic.FirstCountViolation` | src/game/logic.ts:103-113 | no violation iff the candidate has every required count; otherwise the report is the first short entry in insertion order |
| `Logic.GetHardModeViolation` | src/game/logic.ts:65-116 | no earlier evaluations give no violation; a count is reported only once every position is kept; positions are reported 1-based |
| `Logic.PositionsMetIff` | src/game/logic.ts:73-101 | passing the position loop is the same as keeping, at every position ever revealed `correct`, the letter revealed there last |
| `Logic.CountsMetIff` | src/game/logic.ts:74-113 | passing the count loop is the same as holding every letter at least as often as any single evaluation credited it |
| `Logic.HardModeViolationNoneIff` | src/game/logic.ts:65-116 | with earlier evaluations, no violation iff the candidate keeps every revealed position and reaches every single-guess letter count |
| `Logic.HardModePositionReport` | src/game/logic.ts:97-101 | a position report is 1-based, names the letter most recently revealed `correct` at that position, and the candidate does not hold that letter there |
| `Logic.HardModeIncludeReport` | src/game/logic.ts:103-113 | a count report comes only after every position is kept, names a count that some single evaluation requires and the candidate misses, and every count recorded before it is reached |
| `Logic.FirstRevealSpec` | src/game/logic.ts:76-83 | the first evaluation that reveals a position `correct` does reveal it, and no earlier one does; there is none exactly when no evaluation reveals it |
| `Logic.RequiredPositionsInRevealOrder` | src/game/logic.ts:73-83 | the required positions are listed in the order they were first revealed `correct`: by evaluation, then by index within one evaluation |
| `Logic.HardModeReportsEarliestReveal` | src/game/logic.ts:97-101 | every position first revealed before the reported one is kept by the candidate |
| `Logic.HardModeRevealOrderExample` | src/game/logic.ts:73-101 | position 4 revealed one guess before position 1, both missed: position 4 is reported, not the lower index |
| `Logic.FirstCreditFromSpec` | src/game/logic.ts:77-87 | the first position from a start index where an evaluation credits a letter is credited, and no position between is; there is none exactly when no later position credits it |
| `Logic.FirstCreditSpec` | src/game/logic.ts:74-92 | the first evaluation crediting a letter does credit it, at the reported first position, and no earlier evaluation credits it; there is none exactly when no evaluation does |
| `Logic.TallyInCreditOrder` | src/game/logic.ts:77-87 | one guess's tally lists its letters by the position where each is first credited |
| `Logic.MergeInCreditOrder` | src/game/logic.ts:89-91 | merging a tally keeps the recorded letters in place and appends the new ones in tally order, keeping every credited letter |
| `Logic.RequiredCountsInCreditOrder` | src/game/logic.ts:74-92 | the required counts list every credited letter, in the order of first credit: by evaluation, then by position |
| `Logic.HardModeReportsEarliestCredit` | src/game/logic.ts:103-113 | every letter first credited before the reported one is held at least as often as required |
| `Logic.LastCorrectIsReveal` | src/game/logic.ts:76-83 | a position revealed `correct` by some evaluation has a required letter, and it is the letter some evaluation revealed `correct` there |
| `Logic.HardModeAcceptKeepsReveals` | src/game/logic.ts:76-101 | with a consistent history, an accepted candidate keeps the letter of every position ever revealed `correct` |
| `Logic.EvaluationsConsistent` | src/game/logic.ts:37-42 | evaluations of guesses against one solution never reveal two different letters as `correct` at one position |
| `Logic.IsWinningGuess` | src/game/logic.ts:118-119 | a winning guess scores no position `present` or `absent`: every position is `correct` or padding |
| `Logic.WinningGuessAllCorrect` | src/game/logic.ts:118-119 | a winning guess of a full-length solution scores all `correct` |
| `Logic.IsGameOver` | src/game/logic.ts:121-129 | a finished status is always over; while playing, over exactly when the attempt reaches the cap of the current mode |
| `Logic.GameOverMonotone` | src/game/logic.ts:121-129 | a round that is over stays over at every later attempt |
| `Keyboard.Rank` | src/game/keyboard.ts:3-8 | ranks lie in 0..3; `empty` alone ranks lowest, so it never replaces a state, and `correct` alone ranks highest, so nothing replaces it (the full order is `Keyboard.RankOrder`) |
| `Keyboard.RankOrder` | src/game/keyboard.ts:3-8 | the ranks order the states empty < absent < present < correct, so `present` replaces `absent` and never the reverse |
| `Keyboard.MergeFrom` | src/game/keyboard.ts:13-18 | folding one evaluation keeps every existing key and adds only non-blank letters |
| `Keyboard.BuildKeyboardState` | src/game/keyboard.ts:10-21 | no blank letter ever gets a key |
| `Keyboard.Better` | src/game/keyboard.ts:16-17 | the kept state ranks at least as high as both candidates and is one of them |
| `Keyboard.RankInjective` | src/game/keyboard.ts:3-8 | the rank table gives distinct states distinct ranks |
| `Keyboard.MergeFromSpec` | src/game/keyboard.ts:13-18 | folding one evaluation adds exactly its non-blank letters, never lowers a state and keeps only observed states |
| `Keyboard.BuildKeyboardStateSpec` | src/game/keyboard.ts:10-21 | a letter has an entry iff some evaluation shows it non-blank; the entry ranks at least every state it received and is one of them |
| `Keyboard.KeyboardNoStrayKeys` | src/game/keyboard.ts:15 | blank letters and letters no evaluation shows get no entry |
| `Keyboard.KeyboardNeverDowngrades` | src/game/keyboard.ts:15-17 | every non-blank letter shown has an entry ranked at least the state it received there |
| `Keyboard.KeyboardShowsBest` | src/game/keyboard.ts:13-18 | a letter once scored `correct` shows `correct`; once scored `present` it shows `present` or `correct`; once scored `absent` it does not show `empty` |
| `Keyboard.KeyboardWitness` | src/game/keyboard.ts:16-17 | every entry is the state some evaluation gave that letter at some position |
| `Keyboard.KeyboardDominates` | src/game/keyboard.ts:10-21 | a letter's entry is matched or beaten in any permutation of the evaluations |
| `Keyboard.KeyboardOrderIndependent` | src/game/keyboard.ts:10-21 | permuting the evaluations gives the same map |
| `Keyboard.KeyboardAppend` | src/game/keyboard.ts:12-19 | one more evaluation never lowers an entry and leaves the letters it does not show unchanged |
| `GameReducer.CreateInitialState` | src/state/gameReducer.ts:30-48 | a fresh round: no history, empty input, playing, attempt 0, no message, the given settings |
| `GameReducer.GameReducer` | src/state/gameReducer.ts:50-117 | every action keeps guesses, evaluations and attempt counter aligned; a finished status survives all but a reset; only a reset changes the solution; only submit and reset change the history; in hard mode an attempt within the cap stays within it |
| `GameReducer.AddLetterSpec` | src/state/gameReducer.ts:52-59 | appends the letter while playing with fewer than WORD_LENGTH characters, changes nothing else, and is a no-op otherwise |
| `GameReducer.RemoveLetterSpec` | src/state/gameReducer.ts:60-66 | drops the last character only while playing; an empty input stays empty; nothing else changes |
| `GameReducer.ClearGuessSpec` | src/state/gameReducer.ts:67-74 | empties the input only while playing; nothing else changes |
| `GameReducer.SubmitGuessSpec` | src/state/gameReducer.ts:75-93 | a no-op when finished or at the hard-mode cap; otherwise appends one guess and one evaluation, clears the input, takes the caller's status and message, and advances the attempt by one |
| `GameReducer.SubmitGuard` | src/state/gameReducer.ts:76-77 | in hard mode a submit is refused exactly when `isGameOver` holds; outside hard mode only a finished status refuses it |
| `GameReducer.SetMessageSpec` | src/state/gameReducer.ts:94-95 | changes the message and nothing else |
| `GameReducer.ResetGameSpec` | src/state/gameReducer.ts:96-107 | a fresh round with the new solution; colour-blind mode, hard mode and theme are kept; the language changes only when the action names one |
| `GameReducer.ToggleSpec` | src/state/gameReducer.ts:108-113 | each toggle flips exactly its own setting and undoes itself when applied twice |
| `GameReducer.OnlyResetRestartsRound` | src/state/gameReducer.ts:50-117 | only a reset brings a finished round back to playing |
| `GameReducer.FinishedRoundIgnoresPlay` | src/state/gameReducer.ts:52-93 | once finished, adding, removing, clearing and submitting return the state unchanged |
| `GameReducer.FinishedRoundStaysFinished` | src/state/gameReducer.ts:50-117 | any reset-free sequence of actions keeps a finished round's status, history, attempt, input and solution |
| `GameReducer.RunKeepsAligned` | src/state/gameReducer.ts:75-107 | every sequence of actions keeps guesses, evaluations and attempt counter of equal length |
| `Storage.CreateDefaultSettings` | src/storage/storage.ts:36-41 | the defaults: colour-blind mode and hard mode off, dark theme, Portuguese |
| `Storage.CreateEmptyStats` | src/storage/storage.ts:43-49 | the empty stats count nothing: every counter is 0, and there are MAX_ATTEMPTS buckets, all 0 |
| `Storage.EmptyRecordGivesDefaults` | src/storage/storage.ts:36-49 | a record with no fields gives exactly the default settings and the empty stats, and no snapshot |
| `Storage.ToSafeNonNegativeInt` | src/storage/storage.ts:54-57 | anything but a finite number gives the fallback; a non-negative number is rounded toward zero; a negative one gives 0; a non-negative fallback gives a non-negative result |
| `Storage.ToSafeNonNegativeIntOfNat` | src/storage/storage.ts:54-57 | a stored non-negative integer comes back unchanged |
| `Storage.SanitizeDistribution` | src/storage/storage.ts:59-66 | exactly MAX_ATTEMPTS buckets; a non-array is all zeros; each of the first entries is made a safe integer; a short array is padded with zeros |
| `Storage.DistributionKeepsCounts` | src/storage/storage.ts:59-66 | a bucket already holding a non-negative integer keeps it in place |
| `Storage.SanitizeStats` | src/storage/storage.ts:68-77 | a non-record gives the empty stats; otherwise every counter is its stored field made a safe integer, with MAX_ATTEMPTS buckets |
| `Storage.StatsRoundTrip` | src/storage/storage.ts:68-77 | stats with MAX_ATTEMPTS buckets load back unchanged after saving |
| `Storage.SanitizeLanguage` | src/storage/storage.ts:79 | English exactly for the string "en" |
| `Storage.SanitizeTheme` | src/storage/storage.ts:81 | light exactly for the string "light" |
| `Storage.SanitizeStatus` | src/storage/storage.ts:93-96 | won exactly for "won", lost exactly for "lost", playing for anything else |
| `Storage.SanitizeLetterState` | src/storage/storage.ts:98-101 | a known state name gives that state; anything else gives `empty` |
| `Storage.EnumNamesRoundTrip` | src/storage/storage.ts:79-101 | every language, theme, status and letter state survives being stored by name |
| `Storage.SanitizeWord` | src/storage/storage.ts:83-91 | a non-string gives ''; otherwise the result is the first min(length, WORD_LENGTH) letters of the normalized word, all A..Z |
| `Storage.SanitizeWordKeepsWords` | src/storage/storage.ts:83-91 | an A..Z word of at most WORD_LENGTH letters comes back unchanged |
| `Storage.SanitizeWordIdempotent` | src/storage/storage.ts:83-91 | sanitizing a sanitized word changes nothing |
| `Storage.SanitizeEvaluation` | src/storage/storage.ts:103-110 | null unless letters and states are both arrays of WORD_LENGTH; otherwise each letter is the first sanitized character and each state is sanitized in place |
| `Storage.EvaluationRoundTrip` | src/storage/storage.ts:103-110 | a well-formed evaluation loads back unchanged after saving |
| `Storage.SanitizeGuesses` | src/storage/storage.ts:118-119 | the kept guesses are full-length A..Z words, no more than were stored (which ones are kept is `Storage.SanitizeGuessesAt`) |
| `Storage.SanitizeGuessesAppend` | src/storage/storage.ts:118-119 | the guesses are filtered item by item: a joined list sanitizes to the join of the two sanitized lists |
| `Storage.SanitizeGuessesAt` | src/storage/storage.ts:118-119 | each stored item, in its place, contributes its repaired word when that word is full length and nothing otherwise |
| `Storage.SanitizeEvaluations` | src/storage/storage.ts:121-122 | the kept evaluations are well formed, no more than were stored (which ones are kept is `Storage.SanitizeEvaluationsAt`) |
| `Storage.SanitizeEvaluationsAppend` | src/storage/storage.ts:121-122 | the evaluations are filtered item by item: a joined list sanitizes to the join of the two sanitized lists |
| `Storage.SanitizeEvaluationsAt` | src/storage/storage.ts:121-122 | each stored item, in its place, contributes its repaired evaluation when `sanitizeEvaluation` accepts it and nothing otherwise |
| `Storage.SanitizeGuessesKeepsWords` | src/storage/storage.ts:118-119 | stored full-length words are all kept, in order |
| `Storage.SanitizeEvaluationsKeepsWellFormed` | src/storage/storage.ts:121-122 | stored well-formed evaluations are all kept, in order |
| `Storage.SanitizePersistedGameState` | src/storage/storage.ts:112-145 | null exactly for a non-record or a solution not WORD_LENGTH long; otherwise guesses and evaluations are prefixes of the filtered lists, cut to their common length and the cap; the attempt is at least the guess count and within the cap; the input is '' unless playing |
| `Storage.SnapshotRoundTrip` | src/storage/storage.ts:112-145 | every snapshot the sanitizer can produce loads back unchanged after saving |
| `Storage.SnapshotSanitizeIdempotent` | src/storage/storage.ts:112-145 | a restored snapshot, saved again, restores to itself |
| `Storage.DroppedGuessShiftsPairing` | src/storage/storage.ts:118-129 | a dropped first guess pairs the surviving second guess with the first evaluation |
| `Storage.SanitizeSettings` | src/storage/storage.ts:147-155 | a non-record gives the defaults; otherwise each setting is read from its own field |
| `Storage.SettingsRoundTrip` | src/storage/storage.ts:147-155 | settings load back unchanged after saving |
| `Share.Glyph` | src/game/share.ts:4-9 | every glyph is a visible, non-white-space character |
| `Share.GlyphClasses` | src/game/share.ts:4-9 | two states share a glyph exactly when they look alike: `absent` and `empty` share one, `correct` and `present` each have their own |
| `Share.ReadGlyphOfGlyph` | src/game/share.ts:4-9 | each glyph reads back as its state, with `empty` reading as `absent` |
| `Text.NatToStringValue` | src/game/share.ts:19-20 | a number rendered in decimal reads back as the same number |
| `Share.AttemptsLabel` | src/game/share.ts:19 | when won the label is the decimal for the number of guesses; it is "X" exactly when lost and "-" exactly while playing; it holds no white space |
| `Share.Header` | src/game/share.ts:20 | the header starts with 'W' and ends with the digit of MAX_ATTEMPTS |
| `Share.HeaderFields` | src/game/share.ts:20 | for a date key without spaces, the header splits at spaces into "WordMint", the mode name, the date key and `{attempts}/6` |
| `Share.HeaderDetermines` | src/game/share.ts:19-20 | for date keys without spaces, equal headers have equal mode, date key and status, and a won header fixes the guess count |
| `Share.BuildShareText` | src/game/share.ts:18-25 | the text starts with the whole header and is a prefix of header, newline and grid |
| `Share.ShareTextWithoutGuesses` | src/game/share.ts:24 | with no evaluations the text is exactly the header |
| `Share.ShareTextUntrimmed` | src/game/share.ts:20-24 | when the last row is non-empty the text is header, newline and grid untrimmed |
| `Share.ShareTextLines` | src/game/share.ts:20-24 | for a one-line header with visible ends, and a non-empty last row when there are rows, the text splits into exactly the header followed by one row per evaluation |
| `Share.ShareTextReadBack` | src/game/share.ts:18-25 | for a date key without line breaks, and a non-empty last row when there are rows, the text's first line is the header, and there is one further line per evaluation, in order, each with one glyph per state |

## Left out

- Logic.NormalizeWord: NFD decomposition is not modelled. Input is taken as already
  decomposed, so an accented letter stored precomposed is dropped rather than folded to
  its base letter. The combining marks U+0300..U+036F are removed by the A..Z filter in
  any case.
- Logic.NormalizeWord: `toUpperCase` is modelled for ASCII only. Non-ASCII letters whose
  upper case contains A..Z (`ß` to `SS`, ligatures such as `ﬁ`) are dropped, not expanded.
- GameReducer.AddLetterSpec: string length is counted in Unicode scalar values, not
  UTF-16 code units. The two differ only for characters outside the Basic Multilingual
  Plane.
- GameReducer.RemoveLetterSpec: the model removes the last whole character. The code's
  `slice(0, -1)` removes one UTF-16 code unit, so after a character outside the Basic
  Multilingual Plane it leaves a lone high surrogate. The model has no surrogates.
- `isValidWord` and `getRandomWord` (src/game/logic.ts:13-22) are left out. They consult
  the word lists in `src/game/words.ts`, which is not part of this model, and use
  `Math.random`.
- `buildEmptyEvaluation` (src/game/logic.ts:60-63) is left out. It is a constant, and no
  modelled operation uses it.
- The message callbacks `formatPosition` and `formatInclude` of `getHardModeViolation`
  are replaced by the `Violation` datatype. The localized strings are not modelled.
- `Object.entries` lists keys that look like array indices first, in numeric order. The
  model keeps insertion order for every key. In play, the keys are single letters A..Z.
- The keyboard hints are modelled as a Dafny map. Keys that clash with built-in object
  properties (such as `__proto__`) are not modelled.
- Loading and saving through `localStorage`, `JSON.parse` and `JSON.stringify`
  (src/storage/storage.ts:157-197) are left out. The sanitizers start from a decoded JSON
  value. Saving is modelled as the JSON value `JSON.stringify` would produce.
- JSON numbers are reals. `JSON.parse` never yields NaN, and an overflowing literal gives
  the non-finite value. Floating-point rounding is not modelled.
- WORD_LENGTH = 5 and MAX_ATTEMPTS = 6 are fixed constants. HARD_MODE_ATTEMPTS is an
  arbitrary positive constant.
- The React components, the clipboard and timers are left out.
