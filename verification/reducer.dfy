/** The round state machine: a pure transition function over tagged actions
    (src/state/gameReducer.ts). */
module GameReducer {
  import opened Types
  import Logic

  datatype GameState = GameState(
    solution: string,
    guesses: seq<string>,
    evaluations: seq<Evaluation>,
    currentGuess: string,
    status: GameStatus,
    attemptIndex: nat,
    message: Option<string>,
    colorBlindMode: bool,
    hardMode: bool,
    theme: Theme,
    language: Language)

  /** The actions. `SubmitGuess` carries the caller's evaluation and resulting status:
      the reducer does no checking of its own. */
  datatype GameAction =
    | AddLetter(letter: string)
    | RemoveLetter
    | ClearGuess
    | SubmitGuess(guess: string, evaluation: Evaluation, status: GameStatus, message: Option<string>)
    | SetMessage(message: Option<string>)
    | ResetGame(solution: string, language: Option<Language>)
    | ToggleColorBlind
    | ToggleHardMode
    | ToggleTheme

  /** `createInitialState`: a fresh round with no guesses, playing, at attempt 0. */
  function CreateInitialState(solution: string, colorBlindMode: bool := false, hardMode: bool := false,
                              theme: Theme := Dark, language: Language := Pt): (s: GameState)
    ensures s.guesses == [] && s.evaluations == [] && s.currentGuess == ""
    ensures s.status == Playing && s.attemptIndex == 0 && s.message == None
    ensures s.solution == solution && s.colorBlindMode == colorBlindMode && s.hardMode == hardMode
    ensures s.theme == theme && s.language == language
  {
    GameState(solution, [], [], "", Playing, 0, None, colorBlindMode, hardMode, theme, language)
  }

  /** History and attempt counter agree. */
  predicate Aligned(s: GameState) {
    |s.guesses| == |s.evaluations| == s.attemptIndex
  }

  /** `gameReducer`. */
  function GameReducer(state: GameState, action: GameAction): (r: GameState)
    ensures |state.guesses| == |state.evaluations| ==> |r.guesses| == |r.evaluations|
    ensures Aligned(state) ==> Aligned(r)
    ensures state.status != Playing && !action.ResetGame? ==> r.status == state.status
    ensures r.solution != state.solution ==> action.ResetGame?
    ensures r.guesses != state.guesses || r.evaluations != state.evaluations ==> action.SubmitGuess? || action.ResetGame?
    ensures state.hardMode && state.attemptIndex <= HARD_MODE_ATTEMPTS ==> r.attemptIndex <= HARD_MODE_ATTEMPTS
  {
    match action
    case AddLetter(letter) =>
      if state.status != Playing then state
      else if |state.currentGuess| >= WORD_LENGTH then state
      else state.(currentGuess := state.currentGuess + letter)
    case RemoveLetter =>
      if state.status != Playing then state
      else state.(currentGuess := if |state.currentGuess| == 0 then "" else state.currentGuess[..|state.currentGuess| - 1])
    case ClearGuess =>
      if state.status != Playing then state
      else if state.currentGuess == "" then state
      else state.(currentGuess := "")
    case SubmitGuess(guess, evaluation, status, message) =>
      if state.status != Playing then state
      else if state.hardMode && state.attemptIndex >= HARD_MODE_ATTEMPTS then state
      else
        state.(
          guesses := state.guesses + [guess],
          evaluations := state.evaluations + [evaluation],
          currentGuess := "",
          status := status,
          attemptIndex := if state.hardMode then Min(state.attemptIndex + 1, HARD_MODE_ATTEMPTS) else state.attemptIndex + 1,
          message := message)
    case SetMessage(message) =>
      state.(message := message)
    case ResetGame(solution, language) =>
      state.(
        solution := solution,
        guesses := [],
        evaluations := [],
        currentGuess := "",
        status := Playing,
        attemptIndex := 0,
        message := None,
        language := if language.Some? then language.value else state.language)
    case ToggleColorBlind =>
      state.(colorBlindMode := !state.colorBlindMode)
    case ToggleHardMode =>
      state.(hardMode := !state.hardMode)
    case ToggleTheme =>
      state.(theme := if state.theme == Dark then Light else Dark)
  }

  /** `ADD_LETTER` appends the letter while the round is playing and the input is
      shorter than WORD_LENGTH, and is a no-op otherwise; nothing else changes. */
  lemma AddLetterSpec(s: GameState, letter: string)
    ensures var r := GameReducer(s, AddLetter(letter));
      && (s.status != Playing || |s.currentGuess| >= WORD_LENGTH ==> r == s)
      && (s.status == Playing && |s.currentGuess| < WORD_LENGTH ==>
            r.currentGuess == s.currentGuess + letter && r.(currentGuess := s.currentGuess) == s)
  {
  }

  /** `REMOVE_LETTER` drops the last character while playing; an empty input stays empty. */
  lemma RemoveLetterSpec(s: GameState)
    ensures var r := GameReducer(s, RemoveLetter);
      && (s.status != Playing ==> r == s)
      && (s.status == Playing && s.currentGuess != "" ==>
            r.currentGuess + [s.currentGuess[|s.currentGuess| - 1]] == s.currentGuess)
      && (s.currentGuess == "" ==> r == s)
      && r.(currentGuess := s.currentGuess) == s
  {
  }

  /** `CLEAR_GUESS` empties the input only while playing. */
  lemma ClearGuessSpec(s: GameState)
    ensures var r := GameReducer(s, ClearGuess);
      && (s.status != Playing ==> r == s)
      && (s.status == Playing ==> r.currentGuess == "")
      && r.(currentGuess := s.currentGuess) == s
  {
  }

  /** `SUBMIT_GUESS` is a no-op once the round is over or the hard-mode cap is reached;
      otherwise it appends exactly one guess and one evaluation, clears the input, takes
      the caller's status and message, and advances the attempt by one (the hard-mode
      clamp never bites, because the guard already ensures room for one more). */
  lemma SubmitGuessSpec(s: GameState, guess: string, e: Evaluation, status: GameStatus, message: Option<string>)
    ensures var r := GameReducer(s, SubmitGuess(guess, e, status, message));
      && (s.status != Playing || (s.hardMode && s.attemptIndex >= HARD_MODE_ATTEMPTS) ==> r == s)
      && (s.status == Playing && !(s.hardMode && s.attemptIndex >= HARD_MODE_ATTEMPTS) ==>
            && r.guesses == s.guesses + [guess]
            && r.evaluations == s.evaluations + [e]
            && r.currentGuess == ""
            && r.status == status
            && r.attemptIndex == s.attemptIndex + 1
            && (s.hardMode ==> r.attemptIndex <= HARD_MODE_ATTEMPTS)
            && r.message == message
            && r.(guesses := s.guesses, evaluations := s.evaluations, currentGuess := s.currentGuess,
                  status := s.status, attemptIndex := s.attemptIndex, message := s.message) == s)
  {
  }

  /** `RESET_GAME` starts a fresh round with the new solution, keeps the display settings,
      and changes the language only when the action names one. */
  lemma ResetGameSpec(s: GameState, solution: string, language: Option<Language>)
    ensures var r := GameReducer(s, ResetGame(solution, language));
      && r == CreateInitialState(solution, s.colorBlindMode, s.hardMode, s.theme, r.language)
      && (language.None? ==> r.language == s.language)
      && (language.Some? ==> r.language == language.value)
  {
  }

  predicate IsToggle(a: GameAction) {
    a.ToggleColorBlind? || a.ToggleHardMode? || a.ToggleTheme?
  }

  /** Each toggle flips exactly its own setting and undoes itself when repeated. */
  lemma ToggleSpec(s: GameState, a: GameAction)
    requires IsToggle(a)
    ensures GameReducer(GameReducer(s, a), a) == s
    ensures var r := GameReducer(s, a);
      && (a.ToggleColorBlind? ==> r.colorBlindMode != s.colorBlindMode && r.(colorBlindMode := s.colorBlindMode) == s)
      && (a.ToggleHardMode? ==> r.hardMode != s.hardMode && r.(hardMode := s.hardMode) == s)
      && (a.ToggleTheme? ==> r.theme != s.theme && r.(theme := s.theme) == s)
  {
  }

  /** `SET_MESSAGE` changes the message and nothing else. */
  lemma SetMessageSpec(s: GameState, message: Option<string>)
    ensures var r := GameReducer(s, SetMessage(message));
      r.message == message && r.(message := s.message) == s
  {
  }

  /** Only `RESET_GAME` brings a finished round back to playing. */
  lemma OnlyResetRestartsRound(s: GameState, a: GameAction)
    requires s.status != Playing && GameReducer(s, a).status == Playing
    ensures a.ResetGame?
  {
  }

  /** Applies the actions in order. */
  function Run(s: GameState, actions: seq<GameAction>): GameState
    decreases |actions|
  {
    if |actions| == 0 then s else Run(GameReducer(s, actions[0]), actions[1..])
  }

  /** The round-play actions (`ADD_LETTER`, `REMOVE_LETTER`, `CLEAR_GUESS`, `SUBMIT_GUESS`)
      leave a finished round exactly as it is. */
  lemma FinishedRoundIgnoresPlay(s: GameState, a: GameAction)
    requires s.status != Playing
    requires a.AddLetter? || a.RemoveLetter? || a.ClearGuess? || a.SubmitGuess?
    ensures GameReducer(s, a) == s
  {
  }

  /** However many actions follow, a finished round keeps its status, history and attempt
      count until a `RESET_GAME`. */
  lemma {:induction false} FinishedRoundStaysFinished(s: GameState, actions: seq<GameAction>)
    requires s.status != Playing
    requires forall i :: 0 <= i < |actions| ==> !actions[i].ResetGame?
    ensures var r := Run(s, actions);
      r.status == s.status && r.guesses == s.guesses && r.evaluations == s.evaluations
      && r.attemptIndex == s.attemptIndex && r.currentGuess == s.currentGuess && r.solution == s.solution
    decreases |actions|
  {
    if |actions| > 0 {
      FinishedRoundStaysFinished(GameReducer(s, actions[0]), actions[1..]);
    }
  }

  /** Every sequence of actions keeps history and attempt counter aligned. */
  lemma {:induction false} RunKeepsAligned(s: GameState, actions: seq<GameAction>)
    requires Aligned(s)
    ensures Aligned(Run(s, actions))
    decreases |actions|
  {
    if |actions| > 0 {
      RunKeepsAligned(GameReducer(s, actions[0]), actions[1..]);
    }
  }

  /** In hard mode `SUBMIT_GUESS` is refused exactly when `isGameOver` holds. Outside hard
      mode only a finished status refuses it: the reducer itself never enforces MAX_ATTEMPTS. */
  lemma SubmitGuard(s: GameState, guess: string, e: Evaluation, status: GameStatus, message: Option<string>)
    ensures var r := GameReducer(s, SubmitGuess(guess, e, status, message));
      && (s.hardMode ==> (r == s <==> Logic.IsGameOver(s.attemptIndex, s.status, true)))
      && (!s.hardMode ==> (r == s <==> s.status != Playing))
  {
    var r := GameReducer(s, SubmitGuess(guess, e, status, message));
    if s.status == Playing && !(s.hardMode && s.attemptIndex >= HARD_MODE_ATTEMPTS) {
      assert |r.guesses| == |s.guesses| + 1;
    }
  }
}
