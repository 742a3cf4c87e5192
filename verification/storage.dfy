/** Sanitization of persisted statistics, settings and round snapshots
    (src/storage/storage.ts). Every input is an untrusted decoded JSON value. */
module Storage {
  import opened Types
  import opened Text
  import opened Json
  import Logic

  /** `Number.MAX_SAFE_INTEGER`, the attempt cap used for a snapshot outside hard mode. */
  const MAX_SAFE_INTEGER: nat := 9007199254740991

  datatype GameStats = GameStats(
    gamesPlayed: nat,
    gamesWon: nat,
    currentStreak: nat,
    maxStreak: nat,
    guessDistribution: seq<nat>)

  datatype GameSettings = GameSettings(colorBlindMode: bool, hardMode: bool, theme: Theme, language: Language)

  datatype PersistedGameState = PersistedGameState(
    solution: string,
    guesses: seq<string>,
    evaluations: seq<Evaluation>,
    currentGuess: string,
    status: GameStatus,
    attemptIndex: nat,
    colorBlindMode: bool,
    hardMode: bool,
    theme: Theme,
    language: Language)

  /** `createDefaultSettings`. */
  function CreateDefaultSettings(): (s: GameSettings)
    ensures !s.colorBlindMode && !s.hardMode && s.theme == Dark && s.language == Pt
  {
    GameSettings(false, false, Dark, Pt)
  }

  /** `createEmptyStats`: all counters zero, MAX_ATTEMPTS empty distribution buckets. */
  function CreateEmptyStats(): (s: GameStats)
    ensures s.gamesPlayed == 0 && s.gamesWon == 0 && s.currentStreak == 0 && s.maxStreak == 0
    ensures |s.guessDistribution| == MAX_ATTEMPTS
    ensures forall i :: 0 <= i < |s.guessDistribution| ==> s.guessDistribution[i] == 0
  {
    GameStats(0, 0, 0, 0, seq(MAX_ATTEMPTS, _ => 0))
  }

  /** `Math.trunc`: rounds toward zero. */
  function Trunc(x: real): int {
    if x >= 0.0 then x.Floor else -((-x).Floor)
  }

  /** `toSafeNonNegativeInt`: the fallback for anything but a finite number, otherwise
      the number rounded toward zero and raised to at least 0. */
  function ToSafeNonNegativeInt(v: Json, fallback: int := 0): (r: int)
    ensures !v.Num? ==> r == fallback
    ensures v.Num? && v.n >= 0.0 ==> r as real <= v.n < r as real + 1.0
    ensures v.Num? && v.n < 0.0 ==> r == 0
    ensures fallback >= 0 ==> r >= 0
  {
    if !v.Num? then fallback else Max(0, Trunc(v.n))
  }

  /** A stored non-negative integer comes back unchanged. */
  lemma ToSafeNonNegativeIntOfNat(k: nat, fallback: int)
    ensures ToSafeNonNegativeInt(Num(k as real), fallback) == k
  {
  }

  /** `sanitizeDistribution`: exactly MAX_ATTEMPTS non-negative buckets; a non-array is all
      zeros, excess entries are dropped and a short array is padded with zeros. */
  function SanitizeDistribution(v: Json): (r: seq<nat>)
    ensures |r| == MAX_ATTEMPTS
    ensures !v.Arr? ==> forall i :: 0 <= i < |r| ==> r[i] == 0
    ensures v.Arr? ==> forall i :: 0 <= i < |r| ==>
      r[i] == if i < |v.items| then ToSafeNonNegativeInt(v.items[i]) else 0
  {
    if !v.Arr? then CreateEmptyStats().guessDistribution
    else
      var normalized := seq(Min(|v.items|, MAX_ATTEMPTS), i requires 0 <= i < Min(|v.items|, MAX_ATTEMPTS) =>
        ToSafeNonNegativeInt(v.items[i]) as nat);
      PadEnd(normalized, MAX_ATTEMPTS, 0)
  }

  /** Stored bucket counts that are already non-negative integers survive in place. */
  lemma DistributionKeepsCounts(items: seq<Json>, i: nat, k: nat)
    requires i < |items| && i < MAX_ATTEMPTS && items[i] == Num(k as real)
    ensures SanitizeDistribution(Arr(items))[i] == k
  {
  }

  /** `sanitizeStats`: the empty stats for a non-record; otherwise every counter is the
      stored field made a non-negative integer. */
  function SanitizeStats(v: Json): (r: GameStats)
    ensures !IsRecord(v) ==> r == CreateEmptyStats()
    ensures |r.guessDistribution| == MAX_ATTEMPTS
    ensures IsRecord(v) ==>
      && r.gamesPlayed == ToSafeNonNegativeInt(Field(v, "gamesPlayed"))
      && r.gamesWon == ToSafeNonNegativeInt(Field(v, "gamesWon"))
      && r.currentStreak == ToSafeNonNegativeInt(Field(v, "currentStreak"))
      && r.maxStreak == ToSafeNonNegativeInt(Field(v, "maxStreak"))
      && r.guessDistribution == SanitizeDistribution(Field(v, "guessDistribution"))
  {
    if !IsRecord(v) then CreateEmptyStats()
    else GameStats(
      ToSafeNonNegativeInt(Field(v, "gamesPlayed")),
      ToSafeNonNegativeInt(Field(v, "gamesWon")),
      ToSafeNonNegativeInt(Field(v, "currentStreak")),
      ToSafeNonNegativeInt(Field(v, "maxStreak")),
      SanitizeDistribution(Field(v, "guessDistribution")))
  }

  function LanguageName(l: Language): string {
    match l
    case Pt => "pt"
    case En => "en"
  }

  function ThemeName(t: Theme): string {
    match t
    case Dark => "dark"
    case Light => "light"
  }

  function StatusName(s: GameStatus): string {
    match s
    case Playing => "playing"
    case Won => "won"
    case Lost => "lost"
  }

  function LetterStateName(s: LetterState): string {
    match s
    case Correct => "correct"
    case Present => "present"
    case Absent => "absent"
    case Empty => "empty"
  }

  /** `sanitizeLanguage`: English only for exactly "en", Portuguese otherwise. */
  function SanitizeLanguage(v: Json): (r: Language)
    ensures r == En <==> v == Str("en")
  {
    if v == Str("en") then En else Pt
  }

  /** `sanitizeTheme`: light only for exactly "light", dark otherwise. */
  function SanitizeTheme(v: Json): (r: Theme)
    ensures r == Light <==> v == Str("light")
  {
    if v == Str("light") then Light else Dark
  }

  /** `sanitizeStatus`: "won" and "lost" are kept, anything else means playing. */
  function SanitizeStatus(v: Json): (r: GameStatus)
    ensures r == Won <==> v == Str("won")
    ensures r == Lost <==> v == Str("lost")
  {
    if v == Str("won") then Won else if v == Str("lost") then Lost else Playing
  }

  /** `sanitizeLetterState`: a known state name gives that state; anything else is `Empty`. */
  function SanitizeLetterState(v: Json): (r: LetterState)
    ensures forall s :: v == Str(LetterStateName(s)) ==> r == s
    ensures r != Empty ==> v == Str(LetterStateName(r))
  {
    if v == Str("correct") then Correct
    else if v == Str("present") then Present
    else if v == Str("absent") then Absent
    else Empty
  }

  /** Every enumerated value survives being stored by name. */
  lemma EnumNamesRoundTrip(l: Language, t: Theme, s: GameStatus, st: LetterState)
    ensures SanitizeLanguage(Str(LanguageName(l))) == l
    ensures SanitizeTheme(Str(ThemeName(t))) == t
    ensures SanitizeStatus(Str(StatusName(s))) == s
    ensures SanitizeLetterState(Str(LetterStateName(st))) == st
  {
  }

  /** `sanitizeWord`: '' for a non-string; otherwise the first WORD_LENGTH letters of the
      normalized text. */
  function SanitizeWord(v: Json): (r: string)
    ensures Logic.IsWord(r) && |r| <= WORD_LENGTH
    ensures !v.Str? ==> r == ""
    ensures v.Str? ==> r <= Logic.NormalizeWord(v.s)
    ensures v.Str? ==> |r| == Min(|Logic.NormalizeWord(v.s)|, WORD_LENGTH)
  {
    if v.Str? then Prefix(Logic.NormalizeWord(v.s), WORD_LENGTH) else ""
  }

  /** A stored word in normal form of at most WORD_LENGTH letters comes back unchanged. */
  lemma SanitizeWordKeepsWords(w: string)
    requires Logic.IsWord(w) && |w| <= WORD_LENGTH
    ensures SanitizeWord(Str(w)) == w
  {
    Logic.NormalizeWordFixesWords(w);
  }

  /** Sanitizing a sanitized word changes nothing. */
  lemma SanitizeWordIdempotent(v: Json)
    ensures SanitizeWord(Str(SanitizeWord(v))) == SanitizeWord(v)
  {
    SanitizeWordKeepsWords(SanitizeWord(v));
  }

  /** The shape of a restored evaluation: WORD_LENGTH letters of at most one A..Z each,
      and WORD_LENGTH states. */
  predicate WellFormedEvaluation(e: Evaluation) {
    && |e.letters| == WORD_LENGTH && |e.states| == WORD_LENGTH
    && forall i :: 0 <= i < WORD_LENGTH ==> |e.letters[i]| <= 1 && Logic.IsWord(e.letters[i])
  }

  /** `sanitizeEvaluation`: `None` unless both `letters` and `states` are arrays of exactly
      WORD_LENGTH entries; then each letter is cut to one sanitized character and each
      state falls back to `Empty` when unknown. */
  function SanitizeEvaluation(v: Json): (r: Option<Evaluation>)
    ensures r.Some? <==>
      && IsRecord(v) && Field(v, "letters").Arr? && Field(v, "states").Arr?
      && |Field(v, "letters").items| == WORD_LENGTH && |Field(v, "states").items| == WORD_LENGTH
    ensures r.Some? ==> WellFormedEvaluation(r.value)
    ensures r.Some? ==> forall i :: 0 <= i < WORD_LENGTH ==>
      && r.value.letters[i] == Prefix(SanitizeWord(Field(v, "letters").items[i]), 1)
      && r.value.states[i] == SanitizeLetterState(Field(v, "states").items[i])
  {
    if !IsRecord(v) || !Field(v, "letters").Arr? || !Field(v, "states").Arr? then None
    else
      var letters := Field(v, "letters").items;
      var states := Field(v, "states").items;
      if |letters| != WORD_LENGTH || |states| != WORD_LENGTH then None
      else Some(Evaluation(
        seq(|letters|, i requires 0 <= i < |letters| => Prefix(SanitizeWord(letters[i]), 1)),
        seq(|states|, i requires 0 <= i < |states| => SanitizeLetterState(states[i]))))
  }

  /** The stored guesses, each sanitized, keeping only full-length words, in order. */
  function SanitizeGuesses(items: seq<Json>): (r: seq<string>)
    ensures |r| <= |items|
    ensures forall i :: 0 <= i < |r| ==> |r[i]| == WORD_LENGTH && Logic.IsWord(r[i])
  {
    if |items| == 0 then []
    else
      var w := SanitizeWord(items[0]);
      (if |w| == WORD_LENGTH then [w] else []) + SanitizeGuesses(items[1..])
  }

  /** The stored evaluations, each sanitized, dropping the ones rejected, in order. */
  function SanitizeEvaluations(items: seq<Json>): (r: seq<Evaluation>)
    ensures |r| <= |items|
    ensures forall i :: 0 <= i < |r| ==> WellFormedEvaluation(r[i])
  {
    if |items| == 0 then []
    else
      var e := SanitizeEvaluation(items[0]);
      (if e.Some? then [e.value] else []) + SanitizeEvaluations(items[1..])
  }

  /** What one stored guess contributes: its repaired word when that is full length. */
  function KeptGuess(x: Json): seq<string> {
    var w := SanitizeWord(x);
    if |w| == WORD_LENGTH then [w] else []
  }

  lemma SanitizeGuessesStep(items: seq<Json>)
    requires |items| > 0
    ensures SanitizeGuesses(items) == KeptGuess(items[0]) + SanitizeGuesses(items[1..])
  {
  }

  /** Sanitizing the guesses works item by item: a concatenation of stored lists gives the
      concatenation of their sanitized guesses. */
  lemma {:induction false} SanitizeGuessesAppend(a: seq<Json>, b: seq<Json>)
    ensures SanitizeGuesses(a + b) == SanitizeGuesses(a) + SanitizeGuesses(b)
  {
    if |a| == 0 {
      assert a + b == b;
    } else {
      var ab := a + b;
      assert ab[0] == a[0] && ab[1..] == a[1..] + b;
      SanitizeGuessesAppend(a[1..], b);
      GuessesConsStep(a, b, ab);
    }
  }

  /** The step of `SanitizeGuessesAppend`, with the joined list `ab` as a parameter. */
  lemma GuessesConsStep(a: seq<Json>, b: seq<Json>, ab: seq<Json>)
    requires |a| > 0 && |ab| > 0 && ab[0] == a[0] && ab[1..] == a[1..] + b
    requires SanitizeGuesses(a[1..] + b) == SanitizeGuesses(a[1..]) + SanitizeGuesses(b)
    ensures SanitizeGuesses(ab) == SanitizeGuesses(a) + SanitizeGuesses(b)
  {
    SanitizeGuessesStep(ab);
    SanitizeGuessesStep(a);
    Regroup(SanitizeGuesses(ab), KeptGuess(a[0]), SanitizeGuesses(a[1..] + b),
      SanitizeGuesses(a), SanitizeGuesses(a[1..]), SanitizeGuesses(b));
  }

  /** `s` split around position `i`: the items before it, then `rest`, which starts with it. */
  lemma SplitAt<T>(s: seq<T>, i: nat) returns (rest: seq<T>)
    requires i < |s|
    ensures s == s[..i] + rest && |rest| > 0 && rest[0] == s[i] && rest[1..] == s[i + 1..]
  {
    rest := s[i..];
  }

  /** Regrouping a concatenation, with every part named so no element is looked at. */
  lemma Regroup<T>(whole: seq<T>, head: seq<T>, tail: seq<T>, left: seq<T>, mid: seq<T>, right: seq<T>)
    requires whole == head + tail && tail == mid + right && left == head + mid
    ensures whole == left + right
  {
  }

  /** Which stored guesses survive, and where: item `i` is kept, repaired by `SanitizeWord`,
      between the guesses kept before it and those kept after it, exactly when it repairs
      to a full-length word; otherwise it is dropped. */
  lemma SanitizeGuessesAt(items: seq<Json>, i: nat)
    requires i < |items|
    ensures var w := SanitizeWord(items[i]);
      SanitizeGuesses(items)
        == SanitizeGuesses(items[..i]) + (if |w| == WORD_LENGTH then [w] else []) + SanitizeGuesses(items[i + 1..])
  {
    var rest := SplitAt(items, i);
    GuessesAtStep(items, items[..i], rest, items[i + 1..], items[i]);
  }

  /** The step of `SanitizeGuessesAt`, with the pieces of the split as parameters. */
  lemma GuessesAtStep(items: seq<Json>, before: seq<Json>, rest: seq<Json>, after: seq<Json>, x: Json)
    requires items == before + rest && |rest| > 0 && rest[0] == x && rest[1..] == after
    ensures var w := SanitizeWord(x);
      SanitizeGuesses(items)
        == SanitizeGuesses(before) + (if |w| == WORD_LENGTH then [w] else []) + SanitizeGuesses(after)
  {
    SanitizeGuessesAppend(before, rest);
    SanitizeGuessesStep(rest);
    var w := SanitizeWord(x);
    assert KeptGuess(x) == (if |w| == WORD_LENGTH then [w] else []);
    Regroup(SanitizeGuesses(items), SanitizeGuesses(before), SanitizeGuesses(rest),
      SanitizeGuesses(before) + KeptGuess(x), KeptGuess(x), SanitizeGuesses(after));
  }

  /** What one stored evaluation contributes: its repaired form when it is accepted. */
  function KeptEvaluation(x: Json): seq<Evaluation> {
    var e := SanitizeEvaluation(x);
    if e.Some? then [e.value] else []
  }

  lemma SanitizeEvaluationsStep(items: seq<Json>)
    requires |items| > 0
    ensures SanitizeEvaluations(items) == KeptEvaluation(items[0]) + SanitizeEvaluations(items[1..])
  {
  }

  /** Sanitizing the evaluations works item by item, as for the guesses. */
  lemma {:induction false} SanitizeEvaluationsAppend(a: seq<Json>, b: seq<Json>)
    ensures SanitizeEvaluations(a + b) == SanitizeEvaluations(a) + SanitizeEvaluations(b)
  {
    if |a| == 0 {
      assert a + b == b;
    } else {
      var ab := a + b;
      assert ab[0] == a[0] && ab[1..] == a[1..] + b;
      SanitizeEvaluationsAppend(a[1..], b);
      EvaluationsConsStep(a, b, ab);
    }
  }

  /** The step of `SanitizeEvaluationsAppend`, with the joined list `ab` as a parameter. */
  lemma EvaluationsConsStep(a: seq<Json>, b: seq<Json>, ab: seq<Json>)
    requires |a| > 0 && |ab| > 0 && ab[0] == a[0] && ab[1..] == a[1..] + b
    requires SanitizeEvaluations(a[1..] + b) == SanitizeEvaluations(a[1..]) + SanitizeEvaluations(b)
    ensures SanitizeEvaluations(ab) == SanitizeEvaluations(a) + SanitizeEvaluations(b)
  {
    SanitizeEvaluationsStep(ab);
    SanitizeEvaluationsStep(a);
    Regroup(SanitizeEvaluations(ab), KeptEvaluation(a[0]), SanitizeEvaluations(a[1..] + b),
      SanitizeEvaluations(a), SanitizeEvaluations(a[1..]), SanitizeEvaluations(b));
  }

  /** Which stored evaluations survive, and where: item `i` is kept, repaired by
      `SanitizeEvaluation`, between those kept before and after it, exactly when it is a
      record with two arrays of WORD_LENGTH; otherwise it is dropped. */
  lemma SanitizeEvaluationsAt(items: seq<Json>, i: nat)
    requires i < |items|
    ensures var e := SanitizeEvaluation(items[i]);
      SanitizeEvaluations(items)
        == SanitizeEvaluations(items[..i]) + (if e.Some? then [e.value] else []) + SanitizeEvaluations(items[i + 1..])
  {
    var rest := SplitAt(items, i);
    EvaluationsAtStep(items, items[..i], rest, items[i + 1..], items[i]);
  }

  /** The step of `SanitizeEvaluationsAt`, with the pieces of the split as parameters. */
  lemma EvaluationsAtStep(items: seq<Json>, before: seq<Json>, rest: seq<Json>, after: seq<Json>, x: Json)
    requires items == before + rest && |rest| > 0 && rest[0] == x && rest[1..] == after
    ensures var e := SanitizeEvaluation(x);
      SanitizeEvaluations(items)
        == SanitizeEvaluations(before) + (if e.Some? then [e.value] else []) + SanitizeEvaluations(after)
  {
    SanitizeEvaluationsAppend(before, rest);
    SanitizeEvaluationsStep(rest);
    var e := SanitizeEvaluation(x);
    assert KeptEvaluation(x) == (if e.Some? then [e.value] else []);
    Regroup(SanitizeEvaluations(items), SanitizeEvaluations(before), SanitizeEvaluations(rest),
      SanitizeEvaluations(before) + KeptEvaluation(x), KeptEvaluation(x), SanitizeEvaluations(after));
  }

  /** `value` if it is an array, else the empty array. */
  function ItemsOr(v: Json): seq<Json> {
    if v.Arr? then v.items else []
  }

  /** The attempt cap a snapshot is held to. */
  function SnapshotCap(hardMode: bool): nat {
    if hardMode then HARD_MODE_ATTEMPTS else MAX_SAFE_INTEGER
  }

  /** What every restored snapshot satisfies. */
  predicate ValidSnapshot(p: PersistedGameState) {
    && Logic.IsWord(p.solution) && |p.solution| == WORD_LENGTH
    && |p.guesses| == |p.evaluations|
    && (forall i :: 0 <= i < |p.guesses| ==> |p.guesses[i]| == WORD_LENGTH && Logic.IsWord(p.guesses[i]))
    && (forall i :: 0 <= i < |p.evaluations| ==> WellFormedEvaluation(p.evaluations[i]))
    && |p.guesses| <= p.attemptIndex <= SnapshotCap(p.hardMode)
    && Logic.IsWord(p.currentGuess) && |p.currentGuess| <= WORD_LENGTH
    && (p.status != Playing ==> p.currentGuess == "")
  }

  /** `sanitizePersistedGameState`: `None` exactly for a non-record or a solution that does
      not sanitize to WORD_LENGTH letters. Otherwise guesses and evaluations are sanitized
      independently, then cut to their common length and the attempt cap. */
  function SanitizePersistedGameState(v: Json): (r: Option<PersistedGameState>)
    ensures r.None? <==> !IsRecord(v) || |SanitizeWord(Field(v, "solution"))| != WORD_LENGTH
    ensures r.Some? ==> ValidSnapshot(r.value)
    ensures r.Some? ==>
      var guesses := SanitizeGuesses(ItemsOr(Field(v, "guesses")));
      var evaluations := SanitizeEvaluations(ItemsOr(Field(v, "evaluations")));
      var p := r.value;
      && |p.guesses| == Min(Min(|guesses|, |evaluations|), SnapshotCap(p.hardMode))
      && p.guesses <= guesses && p.evaluations <= evaluations
      && p.solution == SanitizeWord(Field(v, "solution"))
      && p.status == SanitizeStatus(Field(v, "status"))
      && p.hardMode == Truthy(Field(v, "hardMode"))
      && p.colorBlindMode == Truthy(Field(v, "colorBlindMode"))
      && p.theme == SanitizeTheme(Field(v, "theme"))
      && p.language == SanitizeLanguage(Field(v, "language"))
      && (p.status == Playing ==> p.currentGuess == SanitizeWord(Field(v, "currentGuess")))
  {
    if !IsRecord(v) then None
    else
      var solution := SanitizeWord(Field(v, "solution"));
      if |solution| != WORD_LENGTH then None
      else
        var guesses := SanitizeGuesses(ItemsOr(Field(v, "guesses")));
        var evaluations := SanitizeEvaluations(ItemsOr(Field(v, "evaluations")));
        var status := SanitizeStatus(Field(v, "status"));
        var hardMode := Truthy(Field(v, "hardMode"));
        var maxAttempts := SnapshotCap(hardMode);
        var cappedLength := Min(Min(|guesses|, |evaluations|), maxAttempts);
        var normalizedGuesses := guesses[..cappedLength];
        var normalizedEvaluations := evaluations[..cappedLength];
        var attemptIndexBase := ToSafeNonNegativeInt(Field(v, "attemptIndex"), |normalizedGuesses|);
        var attemptIndex := Min(Max(attemptIndexBase, |normalizedGuesses|), maxAttempts);
        Some(PersistedGameState(
          solution,
          normalizedGuesses,
          normalizedEvaluations,
          if status == Playing then SanitizeWord(Field(v, "currentGuess")) else "",
          status,
          Max(attemptIndex, |normalizedGuesses|),
          Truthy(Field(v, "colorBlindMode")),
          hardMode,
          SanitizeTheme(Field(v, "theme")),
          SanitizeLanguage(Field(v, "language"))))
  }

  /** `sanitizeSettings`: the defaults for a non-record, otherwise each field by itself. */
  function SanitizeSettings(v: Json): (r: GameSettings)
    ensures !IsRecord(v) ==> r == CreateDefaultSettings()
    ensures IsRecord(v) ==>
      && r.colorBlindMode == Truthy(Field(v, "colorBlindMode"))
      && r.hardMode == Truthy(Field(v, "hardMode"))
      && r.theme == SanitizeTheme(Field(v, "theme"))
      && r.language == SanitizeLanguage(Field(v, "language"))
  {
    if !IsRecord(v) then CreateDefaultSettings()
    else GameSettings(
      Truthy(Field(v, "colorBlindMode")),
      Truthy(Field(v, "hardMode")),
      SanitizeTheme(Field(v, "theme")),
      SanitizeLanguage(Field(v, "language")))
  }

  /** A record with none of the expected fields yields exactly the documented defaults. */
  lemma EmptyRecordGivesDefaults()
    ensures SanitizeSettings(Obj(map[])) == CreateDefaultSettings()
    ensures SanitizeStats(Obj(map[])) == CreateEmptyStats()
    ensures SanitizePersistedGameState(Obj(map[])) == None
  {
  }

  // ---------------------------------------------------------------------------
  // What saving writes: JSON.stringify followed by JSON.parse, as a JSON value.
  // ---------------------------------------------------------------------------

  function StatsToJson(s: GameStats): Json {
    Obj(map[
      "gamesPlayed" := Num(s.gamesPlayed as real),
      "gamesWon" := Num(s.gamesWon as real),
      "currentStreak" := Num(s.currentStreak as real),
      "maxStreak" := Num(s.maxStreak as real),
      "guessDistribution" := Arr(seq(|s.guessDistribution|, i requires 0 <= i < |s.guessDistribution| =>
        Num(s.guessDistribution[i] as real)))])
  }

  function SettingsToJson(s: GameSettings): Json {
    Obj(map[
      "colorBlindMode" := Bool(s.colorBlindMode),
      "hardMode" := Bool(s.hardMode),
      "theme" := Str(ThemeName(s.theme)),
      "language" := Str(LanguageName(s.language))])
  }

  function EvaluationToJson(e: Evaluation): Json {
    Obj(map[
      "letters" := Arr(seq(|e.letters|, i requires 0 <= i < |e.letters| => Str(e.letters[i]))),
      "states" := Arr(seq(|e.states|, i requires 0 <= i < |e.states| => Str(LetterStateName(e.states[i]))))])
  }

  function WordsToJson(ws: seq<string>): (r: seq<Json>)
    ensures |r| == |ws| && forall i :: 0 <= i < |ws| ==> r[i] == Str(ws[i])
  {
    seq(|ws|, i requires 0 <= i < |ws| => Str(ws[i]))
  }

  function EvaluationsToJson(es: seq<Evaluation>): (r: seq<Json>)
    ensures |r| == |es| && forall i :: 0 <= i < |es| ==> r[i] == EvaluationToJson(es[i])
  {
    seq(|es|, i requires 0 <= i < |es| => EvaluationToJson(es[i]))
  }

  function SnapshotToJson(p: PersistedGameState): Json {
    Obj(map[
      "solution" := Str(p.solution),
      "guesses" := Arr(WordsToJson(p.guesses)),
      "evaluations" := Arr(EvaluationsToJson(p.evaluations)),
      "currentGuess" := Str(p.currentGuess),
      "status" := Str(StatusName(p.status)),
      "attemptIndex" := Num(p.attemptIndex as real),
      "colorBlindMode" := Bool(p.colorBlindMode),
      "hardMode" := Bool(p.hardMode),
      "theme" := Str(ThemeName(p.theme)),
      "language" := Str(LanguageName(p.language))])
  }

  /** Saved statistics with MAX_ATTEMPTS buckets load back unchanged. */
  lemma StatsRoundTrip(s: GameStats)
    requires |s.guessDistribution| == MAX_ATTEMPTS
    ensures SanitizeStats(StatsToJson(s)) == s
  {
    var d := SanitizeStats(StatsToJson(s)).guessDistribution;
    assert d == s.guessDistribution;
  }

  /** Saved settings load back unchanged. */
  lemma SettingsRoundTrip(s: GameSettings)
    ensures SanitizeSettings(SettingsToJson(s)) == s
  {
  }

  /** A well-formed evaluation loads back unchanged. */
  lemma EvaluationRoundTrip(e: Evaluation)
    requires WellFormedEvaluation(e)
    ensures SanitizeEvaluation(EvaluationToJson(e)) == Some(e)
  {
    var r := SanitizeEvaluation(EvaluationToJson(e)).value;
    forall i | 0 <= i < WORD_LENGTH
      ensures r.letters[i] == e.letters[i]
    {
      SanitizeWordKeepsWords(e.letters[i]);
    }
    assert r.letters == e.letters;
    assert r.states == e.states;
  }

  lemma {:induction false} SanitizeGuessesKeepsWords(ws: seq<string>)
    requires forall i :: 0 <= i < |ws| ==> |ws[i]| == WORD_LENGTH && Logic.IsWord(ws[i])
    ensures SanitizeGuesses(WordsToJson(ws)) == ws
  {
    if |ws| > 0 {
      assert WordsToJson(ws)[1..] == WordsToJson(ws[1..]);
      SanitizeGuessesKeepsWords(ws[1..]);
      SanitizeWordKeepsWords(ws[0]);
      assert ws == [ws[0]] + ws[1..];
    }
  }

  lemma {:induction false} SanitizeEvaluationsKeepsWellFormed(es: seq<Evaluation>)
    requires forall i :: 0 <= i < |es| ==> WellFormedEvaluation(es[i])
    ensures SanitizeEvaluations(EvaluationsToJson(es)) == es
  {
    if |es| > 0 {
      assert EvaluationsToJson(es)[1..] == EvaluationsToJson(es[1..]);
      SanitizeEvaluationsKeepsWellFormed(es[1..]);
      EvaluationRoundTrip(es[0]);
      assert es == [es[0]] + es[1..];
    }
  }

  /** The fields a saved snapshot holds. */
  lemma SnapshotFields(p: PersistedGameState)
    ensures var v := SnapshotToJson(p);
      && IsRecord(v)
      && Field(v, "solution") == Str(p.solution)
      && ItemsOr(Field(v, "guesses")) == WordsToJson(p.guesses)
      && ItemsOr(Field(v, "evaluations")) == EvaluationsToJson(p.evaluations)
      && Field(v, "currentGuess") == Str(p.currentGuess)
      && Field(v, "status") == Str(StatusName(p.status))
      && Field(v, "attemptIndex") == Num(p.attemptIndex as real)
      && Field(v, "hardMode") == Bool(p.hardMode)
      && Field(v, "colorBlindMode") == Bool(p.colorBlindMode)
      && Field(v, "theme") == Str(ThemeName(p.theme))
      && Field(v, "language") == Str(LanguageName(p.language))
  {
  }

  /** Valid snapshots are exactly what the sanitizer restores: saving one and loading it
      back gives it unchanged. */
  lemma SnapshotRoundTrip(p: PersistedGameState)
    requires ValidSnapshot(p)
    ensures SanitizePersistedGameState(SnapshotToJson(p)) == Some(p)
  {
    SnapshotFields(p);
    SanitizeSnapshotFields(SnapshotToJson(p), p);
  }

  lemma SanitizeSnapshotFields(v: Json, p: PersistedGameState)
    requires ValidSnapshot(p)
    requires IsRecord(v)
    requires Field(v, "solution") == Str(p.solution)
    requires ItemsOr(Field(v, "guesses")) == WordsToJson(p.guesses)
    requires ItemsOr(Field(v, "evaluations")) == EvaluationsToJson(p.evaluations)
    requires Field(v, "currentGuess") == Str(p.currentGuess)
    requires Field(v, "status") == Str(StatusName(p.status))
    requires Field(v, "attemptIndex") == Num(p.attemptIndex as real)
    requires Field(v, "hardMode") == Bool(p.hardMode)
    requires Field(v, "colorBlindMode") == Bool(p.colorBlindMode)
    requires Field(v, "theme") == Str(ThemeName(p.theme))
    requires Field(v, "language") == Str(LanguageName(p.language))
    ensures SanitizePersistedGameState(v) == Some(p)
  {
    SanitizeWordKeepsWords(p.solution);
    SanitizeWordKeepsWords(p.currentGuess);
    EnumNamesRoundTrip(p.language, p.theme, p.status, Empty);
    ToSafeNonNegativeIntOfNat(p.attemptIndex, |p.guesses|);
    SnapshotListsRestore(v, p);
    var n := |p.guesses|;
    var cap := SnapshotCap(p.hardMode);
    var base := ToSafeNonNegativeInt(Field(v, "attemptIndex"), n);
    assert base == p.attemptIndex;
    assert Min(Max(base, n), cap) == p.attemptIndex;
  }

  /** The saved guesses and evaluations come back whole: none is dropped or cut. */
  lemma SnapshotListsRestore(v: Json, p: PersistedGameState)
    requires ValidSnapshot(p)
    requires ItemsOr(Field(v, "guesses")) == WordsToJson(p.guesses)
    requires ItemsOr(Field(v, "evaluations")) == EvaluationsToJson(p.evaluations)
    requires Field(v, "hardMode") == Bool(p.hardMode)
    ensures var guesses := SanitizeGuesses(ItemsOr(Field(v, "guesses")));
      var evaluations := SanitizeEvaluations(ItemsOr(Field(v, "evaluations")));
      var n := |p.guesses|;
      && n == Min(Min(|guesses|, |evaluations|), SnapshotCap(Truthy(Field(v, "hardMode"))))
      && guesses[..n] == p.guesses && evaluations[..n] == p.evaluations
      && Truthy(Field(v, "hardMode")) == p.hardMode
  {
    SanitizeGuessesKeepsWords(p.guesses);
    SanitizeEvaluationsKeepsWellFormed(p.evaluations);
    var guesses := SanitizeGuesses(ItemsOr(Field(v, "guesses")));
    var evaluations := SanitizeEvaluations(ItemsOr(Field(v, "evaluations")));
    assert guesses == p.guesses;
    assert evaluations == p.evaluations;
    var n := |p.guesses|;
    assert guesses[..n] == p.guesses;
    assert evaluations[..n] == p.evaluations;
  }

  /** Sanitizing is idempotent on snapshots: a restored snapshot saved again loads back unchanged. */
  lemma SnapshotSanitizeIdempotent(v: Json)
    requires IsRecord(v) && |SanitizeWord(Field(v, "solution"))| == WORD_LENGTH
    ensures SanitizePersistedGameState(SnapshotToJson(SanitizePersistedGameState(v).value)) == SanitizePersistedGameState(v)
  {
    SnapshotRoundTrip(SanitizePersistedGameState(v).value);
  }

  /** Guesses and evaluations are filtered independently, so a dropped guess shifts the
      pairing: the surviving guess from slot 1 comes back next to the evaluation from slot 0. */
  lemma DroppedGuessShiftsPairing(v: Json, w: string, e0: Evaluation, e1: Evaluation)
    requires IsRecord(v) && |SanitizeWord(Field(v, "solution"))| == WORD_LENGTH
    requires Logic.IsWord(w) && |w| == WORD_LENGTH
    requires WellFormedEvaluation(e0) && WellFormedEvaluation(e1)
    requires ItemsOr(Field(v, "guesses")) == [Str(""), Str(w)]
    requires ItemsOr(Field(v, "evaluations")) == [EvaluationToJson(e0), EvaluationToJson(e1)]
    ensures SanitizePersistedGameState(v).Some?
    ensures SanitizePersistedGameState(v).value.guesses == [w]
    ensures SanitizePersistedGameState(v).value.evaluations == [e0]
  {
    SanitizeGuessesKeepsWords([w]);
    assert WordsToJson([w]) == [Str(w)];
    assert [Str(""), Str(w)][1..] == [Str(w)];
    assert SanitizeGuesses(ItemsOr(Field(v, "guesses"))) == [w];
    SanitizeEvaluationsKeepsWellFormed([e0, e1]);
    assert EvaluationsToJson([e0, e1]) == [EvaluationToJson(e0), EvaluationToJson(e1)];
    assert [e0, e1][..1] == [e0];
  }
}
