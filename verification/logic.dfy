/** Guess scoring, hard-mode checking and small game predicates (src/game/logic.ts). */
module Logic {
  import opened Types
  import opened Text
  import opened OrderedMap

  // ---------------------------------------------------------------------------
  // normalizeWord
  // ---------------------------------------------------------------------------

  predicate IsUpperLetter(c: char) {
    'A' <= c <= 'Z'
  }

  /** A word in normal form: upper-case ASCII letters only. */
  predicate IsWord(s: string) {
    forall i :: 0 <= i < |s| ==> IsUpperLetter(s[i])
  }

  /** The ASCII part of `toUpperCase`. */
  function ToUpper(c: char): char {
    if 'a' <= c <= 'z' then (c as int - 32) as char else c
  }

  /** What one (already decomposed) character contributes to the normalized word:
      its upper-case form when that is a letter A..Z, nothing otherwise. Combining
      marks are dropped here like every other non-letter. */
  function NormalizeChar(c: char): (r: string)
    ensures |r| <= 1
    ensures IsWord(r)
  {
    if IsUpperLetter(ToUpper(c)) then [ToUpper(c)] else []
  }

  /** `normalizeWord`: upper-case the text and keep only the letters A..Z. */
  function NormalizeWord(s: string): (r: string)
    ensures IsWord(r)
    ensures |r| <= |s|
  {
    if |s| == 0 then "" else NormalizeChar(s[0]) + NormalizeWord(s[1..])
  }

  /** Normalization leaves a word that is already in normal form unchanged. */
  lemma {:induction false} NormalizeWordFixesWords(s: string)
    requires IsWord(s)
    ensures NormalizeWord(s) == s
  {
    if |s| > 0 {
      assert IsWord(s[1..]);
      NormalizeWordFixesWords(s[1..]);
    }
  }

  /** The fixed points of normalization are exactly the words in normal form. */
  lemma NormalizeWordFixedPoints(s: string)
    ensures NormalizeWord(s) == s <==> IsWord(s)
  {
    if IsWord(s) {
      NormalizeWordFixesWords(s);
    }
  }

  /** Normalizing twice is the same as normalizing once. */
  lemma NormalizeWordIdempotent(s: string)
    ensures NormalizeWord(NormalizeWord(s)) == NormalizeWord(s)
  {
    NormalizeWordFixesWords(NormalizeWord(s));
  }

  /** Normalization works character by character: it distributes over concatenation. */
  lemma {:induction false} NormalizeWordConcat(a: string, b: string)
    ensures NormalizeWord(a + b) == NormalizeWord(a) + NormalizeWord(b)
  {
    if |a| > 0 {
      assert (a + b)[1..] == a[1..] + b;
      NormalizeWordConcat(a[1..], b);
    } else {
      assert a + b == b;
    }
  }

  // ---------------------------------------------------------------------------
  // evaluateGuess
  // ---------------------------------------------------------------------------

  /** The letters a guess is scored by: normalized, right-padded with ' ' and cut to WORD_LENGTH. */
  function GuessLetters(guess: string): (ls: seq<char>)
    ensures |ls| == WORD_LENGTH
    ensures forall i :: 0 <= i < |ls| ==>
      if i < |NormalizeWord(guess)| then ls[i] == NormalizeWord(guess)[i] else ls[i] == ' '
    ensures forall i :: 0 <= i < |ls| ==> ls[i] == ' ' || IsUpperLetter(ls[i])
  {
    Prefix(PadEnd(NormalizeWord(guess), WORD_LENGTH, ' '), WORD_LENGTH)
  }

  /** The solution letter at each of the WORD_LENGTH positions; `None` where the
      normalized solution is too short (the code reads `undefined` there). */
  function Slots(sol: string): (t: seq<Option<char>>)
    ensures |t| == WORD_LENGTH
    ensures forall i :: 0 <= i < |t| ==> t[i] == if i < |sol| then Some(sol[i]) else None
  {
    seq(WORD_LENGTH, i requires 0 <= i < WORD_LENGTH => if i < |sol| then Some(sol[i]) else None)
  }

  /** Multiset of the letters present in the slots: the initial `remainingCounts`. */
  function SlotLetters(t: seq<Option<char>>): multiset<char> {
    if |t| == 0 then multiset{}
    else (if t[0].Some? then multiset{t[0].value} else multiset{}) + SlotLetters(t[1..])
  }

  /** Pass 1: which positions are exact matches. */
  function ExactFlags(ls: seq<char>, t: seq<Option<char>>): (ex: seq<bool>)
    requires |ls| == |t|
    ensures |ex| == |ls|
    ensures forall i :: 0 <= i < |ex| ==> (ex[i] <==> t[i] == Some(ls[i]))
  {
    if |ls| == 0 then [] else [t[0] == Some(ls[0])] + ExactFlags(ls[1..], t[1..])
  }

  /** Multiset of the letters at the flagged (exactly matched) positions. */
  function ExactLetters(ls: seq<char>, ex: seq<bool>): multiset<char>
    requires |ls| == |ex|
  {
    if |ls| == 0 then multiset{}
    else (if ex[0] then multiset{ls[0]} else multiset{}) + ExactLetters(ls[1..], ex[1..])
  }

  /** Multiset of the letters at the positions not flagged. */
  function LooseLetters(ls: seq<char>, ex: seq<bool>): multiset<char>
    requires |ls| == |ex|
  {
    if |ls| == 0 then multiset{}
    else (if ex[0] then multiset{} else multiset{ls[0]}) + LooseLetters(ls[1..], ex[1..])
  }

  /** Pass 2, from a position on: exact positions stay `Correct`, blanks become `Empty`,
      other letters become `Present` while the remaining count allows it, else `Absent`. */
  function Pass2(ls: seq<char>, ex: seq<bool>, remaining: multiset<char>): (st: seq<LetterState>)
    requires |ls| == |ex|
    ensures |st| == |ls|
    ensures forall i :: 0 <= i < |st| ==> (st[i] == Correct <==> ex[i])
    ensures forall i :: 0 <= i < |st| ==> (st[i] == Empty <==> !ex[i] && ls[i] == ' ')
    ensures forall i :: 0 <= i < |st| && st[i] == Present ==> ls[i] in remaining
  {
    if |ls| == 0 then []
    else if ex[0] then [Correct] + Pass2(ls[1..], ex[1..], remaining)
    else if ls[0] == ' ' then [Empty] + Pass2(ls[1..], ex[1..], remaining)
    else if remaining[ls[0]] > 0 then [Present] + Pass2(ls[1..], ex[1..], remaining - multiset{ls[0]})
    else [Absent] + Pass2(ls[1..], ex[1..], remaining)
  }

  /** The states of a padded guess against a solution's slots: a position is `Correct`
      exactly when its slot holds the guess letter, and `Empty` exactly when it is an
      unmatched blank. */
  function Score(ls: seq<char>, t: seq<Option<char>>): (st: seq<LetterState>)
    requires |ls| == |t|
    ensures |st| == |ls|
    ensures forall i :: 0 <= i < |st| ==> (st[i] == Correct <==> t[i] == Some(ls[i]))
    ensures forall i :: 0 <= i < |st| ==> (st[i] == Empty <==> t[i] != Some(ls[i]) && ls[i] == ' ')
  {
    var ex := ExactFlags(ls, t);
    Pass2(ls, ex, SlotLetters(t) - ExactLetters(ls, ex))
  }

  /** `evaluateGuess`: both words are normalized, the guess padded to WORD_LENGTH with
      ' ', then each position is scored by the two-pass algorithm. A position is
      `Correct` exactly when the guess letter equals the solution letter there, and
      `Empty` exactly when it is padding. */
  function EvaluateGuess(guess: string, solution: string): (e: Evaluation)
    ensures |e.letters| == WORD_LENGTH && |e.states| == WORD_LENGTH
    ensures forall i :: 0 <= i < WORD_LENGTH ==> e.letters[i] == [GuessLetters(guess)[i]]
    ensures forall i :: 0 <= i < WORD_LENGTH ==>
      (e.states[i] == Correct <==>
        i < |NormalizeWord(solution)| && GuessLetters(guess)[i] == NormalizeWord(solution)[i])
    ensures forall i :: 0 <= i < WORD_LENGTH ==>
      (e.states[i] == Empty <==> i >= |NormalizeWord(guess)|)
  {
    var ls := GuessLetters(guess);
    var t := Slots(NormalizeWord(solution));
    Evaluation(seq(WORD_LENGTH, i requires 0 <= i < WORD_LENGTH => [ls[i]]), Score(ls, t))
  }

  /** Number of positions holding `c` that are marked `Correct` or `Present`. */
  function Credited(ls: seq<char>, st: seq<LetterState>, c: char): nat
    requires |ls| == |st|
  {
    if |ls| == 0 then 0
    else (if ls[0] == c && (st[0] == Correct || st[0] == Present) then 1 else 0) + Credited(ls[1..], st[1..], c)
  }

  /** Pass 2 credits every exact position, and hands out `Present` for a letter
      exactly as long as the remaining count of that letter lasts. */
  lemma {:induction false} Pass2Credits(ls: seq<char>, ex: seq<bool>, remaining: multiset<char>, c: char)
    requires |ls| == |ex|
    ensures Credited(ls, Pass2(ls, ex, remaining), c) ==
      ExactLetters(ls, ex)[c] + (if c == ' ' then 0 else Min(LooseLetters(ls, ex)[c], remaining[c]))
  {
    if |ls| > 0 {
      var st := Pass2(ls, ex, remaining);
      var rest := if !ex[0] && ls[0] != ' ' && remaining[ls[0]] > 0 then remaining - multiset{ls[0]} else remaining;
      assert st[1..] == Pass2(ls[1..], ex[1..], rest);
      Pass2Credits(ls[1..], ex[1..], rest, c);
    }
  }

  /** Pass 2 hands out `Present` from left to right: an unmatched letter is `Present`
      exactly when fewer unmatched copies of it precede it than the remaining count. */
  lemma {:induction false} Pass2LeftFirst(ls: seq<char>, ex: seq<bool>, remaining: multiset<char>, i: nat)
    requires |ls| == |ex| && i < |ls| && !ex[i] && ls[i] != ' '
    ensures Pass2(ls, ex, remaining)[i] == Present <==> LooseLetters(ls[..i], ex[..i])[ls[i]] < remaining[ls[i]]
  {
    if i > 0 {
      var c := ls[i];
      var rest := Pass2Rest(ls[0], ex[0], remaining);
      Pass2Step(ls, ex, remaining);
      Pass2LeftFirst(ls[1..], ex[1..], rest, i - 1);
      LooseStep(ls, ex, i, c);
    }
  }

  /** What pass 2 leaves of the remaining counts after scoring letter `l`. */
  function Pass2Rest(l: char, exact: bool, remaining: multiset<char>): (rest: multiset<char>)
    ensures forall c :: rest[c] == if !exact && l != ' ' && l == c && remaining[c] > 0 then remaining[c] - 1 else remaining[c]
  {
    if !exact && l != ' ' && remaining[l] > 0 then remaining - multiset{l} else remaining
  }

  lemma Pass2Step(ls: seq<char>, ex: seq<bool>, remaining: multiset<char>)
    requires |ls| == |ex| && |ls| > 0
    ensures Pass2(ls, ex, remaining)[1..] == Pass2(ls[1..], ex[1..], Pass2Rest(ls[0], ex[0], remaining))
  {
  }

  lemma LooseStep(ls: seq<char>, ex: seq<bool>, i: nat, c: char)
    requires |ls| == |ex| && 0 < i <= |ls|
    ensures LooseLetters(ls[..i], ex[..i])[c]
      == (if !ex[0] && ls[0] == c then 1 else 0) + LooseLetters(ls[1..][..i - 1], ex[1..][..i - 1])[c]
  {
    assert ls[..i][1..] == ls[1..][..i - 1];
    assert ex[..i][1..] == ex[1..][..i - 1];
  }

  /** Letters at the positions an evaluation does not mark `Correct`. */
  function Unmatched(ls: seq<char>, st: seq<LetterState>): multiset<char>
    requires |ls| == |st|
  {
    if |ls| == 0 then multiset{}
    else (if st[0] == Correct then multiset{} else multiset{ls[0]}) + Unmatched(ls[1..], st[1..])
  }

  /** Letters at the positions an evaluation marks `Correct`. */
  function Matched(ls: seq<char>, st: seq<LetterState>): multiset<char>
    requires |ls| == |st|
  {
    if |ls| == 0 then multiset{}
    else (if st[0] == Correct then multiset{ls[0]} else multiset{}) + Matched(ls[1..], st[1..])
  }

  /** The first-pass flags are read back from the states as the `Correct` positions. */
  lemma {:induction false} FlagsFromStates(ls: seq<char>, ex: seq<bool>, st: seq<LetterState>)
    requires |ls| == |ex| == |st|
    requires forall j :: 0 <= j < |st| ==> (st[j] == Correct <==> ex[j])
    ensures LooseLetters(ls, ex) == Unmatched(ls, st)
    ensures ExactLetters(ls, ex) == Matched(ls, st)
  {
    if |ls| > 0 {
      FlagsFromStates(ls[1..], ex[1..], st[1..]);
    }
  }

  /** The two-pass score gives `Present` left to right, stated over the states alone. */
  lemma ScoreLeftFirst(ls: seq<char>, t: seq<Option<char>>, i: nat)
    requires |ls| == |t| && i < |ls|
    requires Score(ls, t)[i] != Correct && Score(ls, t)[i] != Empty
    ensures var st := Score(ls, t);
      st[i] == Present <==> Unmatched(ls[..i], st[..i])[ls[i]] < (SlotLetters(t) - Matched(ls, st))[ls[i]]
  {
    var ex := ExactFlags(ls, t);
    var st := Pass2(ls, ex, SlotLetters(t) - ExactLetters(ls, ex));
    assert st == Score(ls, t);
    Pass2LeftFirst(ls, ex, SlotLetters(t) - ExactLetters(ls, ex), i);
    FlagsFromStates(ls, ex, st);
    FlagsFromStates(ls[..i], ex[..i], st[..i]);
  }

  /** `evaluateGuess` gives `Present` left to right: a letter that is neither matched nor
      padding is `Present` exactly when fewer unmatched copies of it stand to its left than
      the solution has copies not used by exact matches. */
  lemma EvaluateGuessLeftFirst(guess: string, solution: string, i: nat)
    requires i < WORD_LENGTH
    requires EvaluateGuess(guess, solution).states[i] != Correct
    requires EvaluateGuess(guess, solution).states[i] != Empty
    ensures var e := EvaluateGuess(guess, solution);
      var ls := GuessLetters(guess);
      e.states[i] == Present <==>
        Unmatched(ls[..i], e.states[..i])[ls[i]]
          < (multiset(Prefix(NormalizeWord(solution), WORD_LENGTH)) - Matched(ls, e.states))[ls[i]]
  {
    var ls := GuessLetters(guess);
    var sol := NormalizeWord(solution);
    assert EvaluateGuess(guess, solution).states == Score(ls, Slots(sol));
    SolutionLeftFirst(ls, sol, Score(ls, Slots(sol)), i);
  }

  lemma SolutionLeftFirst(ls: seq<char>, sol: string, st: seq<LetterState>, i: nat)
    requires |ls| == WORD_LENGTH && i < WORD_LENGTH
    requires st == Score(ls, Slots(sol)) && st[i] != Correct && st[i] != Empty
    ensures st[i] == Present <==>
      Unmatched(ls[..i], st[..i])[ls[i]] < (multiset(Prefix(sol, WORD_LENGTH)) - Matched(ls, st))[ls[i]]
  {
    ScoreLeftFirst(ls, Slots(sol), i);
    SlotLettersOf(Slots(sol), Prefix(sol, WORD_LENGTH));
  }

  lemma {:induction false} ExactLooseSplit(ls: seq<char>, ex: seq<bool>)
    requires |ls| == |ex|
    ensures ExactLetters(ls, ex) + LooseLetters(ls, ex) == multiset(ls)
  {
    if |ls| > 0 {
      ExactLooseSplit(ls[1..], ex[1..]);
      assert ls == [ls[0]] + ls[1..];
    }
  }

  /** Every exact match uses up a solution letter that is really there. */
  lemma {:induction false} ExactWithinSlots(ls: seq<char>, t: seq<Option<char>>)
    requires |ls| == |t|
    ensures ExactLetters(ls, ExactFlags(ls, t)) <= SlotLetters(t)
  {
    if |ls| > 0 {
      assert ExactFlags(ls, t)[1..] == ExactFlags(ls[1..], t[1..]);
      ExactWithinSlots(ls[1..], t[1..]);
    }
  }

  lemma {:induction false} SlotLettersOf(t: seq<Option<char>>, s: string)
    requires |s| <= |t|
    requires forall i :: 0 <= i < |t| ==> t[i] == if i < |s| then Some(s[i]) else None
    ensures SlotLetters(t) == multiset(s)
  {
    if |t| > 0 {
      if |s| > 0 {
        SlotLettersOf(t[1..], s[1..]);
        assert s == [s[0]] + s[1..];
      } else {
        SlotLettersOf(t[1..], s);
      }
    }
  }

  lemma {:induction false} SlotLettersAbsent(t: seq<Option<char>>, c: char)
    requires forall i :: 0 <= i < |t| ==> t[i] != Some(c)
    ensures SlotLetters(t)[c] == 0
  {
    if |t| > 0 {
      SlotLettersAbsent(t[1..], c);
    }
  }

  /** The two-pass score credits each letter min(copies in the guess, copies in the solution) times. */
  lemma ScoreCredits(ls: seq<char>, t: seq<Option<char>>, c: char)
    requires |ls| == |t|
    requires forall i :: 0 <= i < |t| ==> t[i] != Some(' ')
    ensures Credited(ls, Score(ls, t), c) == Min(multiset(ls)[c], SlotLetters(t)[c])
  {
    var ex := ExactFlags(ls, t);
    var e := ExactLetters(ls, ex);
    Pass2Credits(ls, ex, SlotLetters(t) - e, c);
    ExactLooseSplit(ls, ex);
    ExactWithinSlots(ls, t);
    if c == ' ' {
      SlotLettersAbsent(t, ' ');
    }
  }

  /** Duplicate letters are never over-credited: for every letter, the positions marked
      `Correct` or `Present` number min(copies in the guess, copies in the solution). */
  lemma EvaluateGuessCredits(guess: string, solution: string, c: char)
    ensures Credited(GuessLetters(guess), EvaluateGuess(guess, solution).states, c)
      == Min(multiset(GuessLetters(guess))[c], multiset(Prefix(NormalizeWord(solution), WORD_LENGTH))[c])
  {
    var sol := NormalizeWord(solution);
    var t := Slots(sol);
    SlotLettersOf(t, Prefix(sol, WORD_LENGTH));
    ScoreCredits(GuessLetters(guess), t, c);
  }

  /** A word scored against itself is all `Correct` exactly when it normalizes to at
      least WORD_LENGTH letters; otherwise its padded tail is `Empty`. */
  lemma EvaluateSelf(s: string)
    ensures (forall i :: 0 <= i < WORD_LENGTH ==> EvaluateGuess(s, s).states[i] == Correct)
      <==> |NormalizeWord(s)| >= WORD_LENGTH
  {
    if |NormalizeWord(s)| < WORD_LENGTH {
      assert EvaluateGuess(s, s).states[WORD_LENGTH - 1] == Empty;
    }
  }

  /** A worked example: TRACE against CRANE. */
  lemma EvaluateExampleTrace()
    ensures EvaluateGuess("TRACE", "CRANE").states == [Absent, Correct, Correct, Present, Correct]
  {
    ScoreAgainstCrane("TRACE");
    ScoreTrace();
  }

  lemma ScoreTrace()
    ensures Score("TRACE", CraneSlots()) == [Absent, Correct, Correct, Present, Correct]
  {
    TraceFirstPass();
    TraceSecondPass();
  }

  lemma TraceFirstPass()
    ensures ExactFlags("TRACE", CraneSlots()) == [false, true, true, false, true]
    ensures SlotLetters(CraneSlots()) - ExactLetters("TRACE", [false, true, true, false, true]) == multiset{'C', 'N'}
  {
    var ex := [false, true, true, false, true];
    assert ExactFlags("TRACE", CraneSlots()) == ex;
    assert ExactLetters("TRACE", ex) == multiset{'R', 'A', 'E'};
    assert SlotLetters(CraneSlots()) == multiset{'C', 'R', 'A', 'N', 'E'};
  }

  lemma TraceSecondPass()
    ensures Pass2("TRACE", [false, true, true, false, true], multiset{'C', 'N'}) == [Absent, Correct, Correct, Present, Correct]
  {
    var r := multiset{'C', 'N'};
    assert Pass2("E", [true], r - multiset{'C'}) == [Correct];
    assert Pass2("CE", [false, true], r) == [Present, Correct];
    assert Pass2("ACE", [true, false, true], r) == [Correct, Present, Correct];
    assert Pass2("RACE", [true, true, false, true], r) == [Correct, Correct, Present, Correct];
  }

  /** A repeated guess letter is credited only as often as the solution holds it:
      of the three E's in EERIE only the aligned one scores against CRANE's single E. */
  lemma EvaluateExampleDuplicates()
    ensures EvaluateGuess("EERIE", "CRANE").states == [Absent, Absent, Present, Absent, Correct]
  {
    ScoreAgainstCrane("EERIE");
    ScoreEerie();
  }

  lemma ScoreEerie()
    ensures Score("EERIE", CraneSlots()) == [Absent, Absent, Present, Absent, Correct]
  {
    EerieFirstPass();
    EerieSecondPass();
  }

  lemma EerieFirstPass()
    ensures ExactFlags("EERIE", CraneSlots()) == [false, false, false, false, true]
    ensures SlotLetters(CraneSlots()) - ExactLetters("EERIE", [false, false, false, false, true]) == multiset{'C', 'R', 'A', 'N'}
  {
    var ex := [false, false, false, false, true];
    assert ExactFlags("EERIE", CraneSlots()) == ex;
    assert ExactLetters("EERIE", ex) == multiset{'E'};
    assert SlotLetters(CraneSlots()) == multiset{'C', 'R', 'A', 'N', 'E'};
  }

  lemma EerieSecondPass()
    ensures Pass2("EERIE", [false, false, false, false, true], multiset{'C', 'R', 'A', 'N'}) == [Absent, Absent, Present, Absent, Correct]
  {
    var r := multiset{'C', 'R', 'A', 'N'};
    assert Pass2("E", [true], r - multiset{'R'}) == [Correct];
    assert Pass2("IE", [false, true], r - multiset{'R'}) == [Absent, Correct];
    assert Pass2("RIE", [false, false, true], r) == [Present, Absent, Correct];
    assert Pass2("ERIE", [false, false, false, true], r) == [Absent, Present, Absent, Correct];
  }

  /** `Present` goes to the leftmost unmatched copy: ANNOY against CRANE marks the first
      N `Present` and the second `Absent`, since CRANE holds a single N. */
  lemma EvaluateExampleLeftFirst()
    ensures EvaluateGuess("ANNOY", "CRANE").states == [Present, Present, Absent, Absent, Absent]
  {
    ScoreAgainstCrane("ANNOY");
    ScoreAnnoy();
  }

  lemma ScoreAnnoy()
    ensures Score("ANNOY", CraneSlots()) == [Present, Present, Absent, Absent, Absent]
  {
    AnnoyFirstPass();
    AnnoySecondPass();
  }

  lemma AnnoyFirstPass()
    ensures ExactFlags("ANNOY", CraneSlots()) == [false, false, false, false, false]
    ensures SlotLetters(CraneSlots()) - ExactLetters("ANNOY", [false, false, false, false, false]) == multiset{'C', 'R', 'A', 'N', 'E'}
  {
    var ex := [false, false, false, false, false];
    assert ExactFlags("ANNOY", CraneSlots()) == ex;
    assert ExactLetters("ANNOY", ex) == multiset{};
    assert SlotLetters(CraneSlots()) == multiset{'C', 'R', 'A', 'N', 'E'};
  }

  lemma AnnoySecondPass()
    ensures Pass2("ANNOY", [false, false, false, false, false], multiset{'C', 'R', 'A', 'N', 'E'}) == [Present, Present, Absent, Absent, Absent]
  {
    var r := multiset{'C', 'R', 'A', 'N', 'E'};
    assert r['A'] == 1 && r['N'] == 1 && r['O'] == 0 && r['Y'] == 0;
    AnnoyFrom(r);
  }

  lemma AnnoyFrom(r: multiset<char>)
    requires r['A'] > 0 && r['N'] == 1 && r['O'] == 0 && r['Y'] == 0
    ensures Pass2("ANNOY", [false, false, false, false, false], r) == [Present, Present, Absent, Absent, Absent]
  {
    var rest := r - multiset{'A'};
    assert rest['N'] == 1 && rest['O'] == 0 && rest['Y'] == 0;
    NnoyFrom(rest);
    Pass2Present("ANNOY", [false, false, false, false, false], r, "NNOY", [false, false, false, false]);
  }

  lemma NnoyFrom(r: multiset<char>)
    requires r['N'] == 1 && r['O'] == 0 && r['Y'] == 0
    ensures Pass2("NNOY", [false, false, false, false], r) == [Present, Absent, Absent, Absent]
  {
    var rest := r - multiset{'N'};
    assert rest['N'] == 0 && rest['O'] == 0 && rest['Y'] == 0;
    NoyFrom(rest);
    Pass2Present("NNOY", [false, false, false, false], r, "NOY", [false, false, false]);
  }

  /** One step of pass 2 on an unmatched letter that is still remaining. */
  lemma Pass2Present(ls: seq<char>, ex: seq<bool>, r: multiset<char>, ls': seq<char>, ex': seq<bool>)
    requires |ls| == |ex| && |ls| > 0 && !ex[0] && ls[0] != ' ' && r[ls[0]] > 0
    requires ls' == ls[1..] && ex' == ex[1..]
    ensures Pass2(ls, ex, r) == [Present] + Pass2(ls', ex', r - multiset{ls[0]})
  {
  }

  lemma NoyFrom(r: multiset<char>)
    requires r['N'] == 0 && r['O'] == 0 && r['Y'] == 0
    ensures Pass2("NOY", [false, false, false], r) == [Absent, Absent, Absent]
  {
    assert Pass2("Y", [false], r) == [Absent];
    assert Pass2("OY", [false, false], r) == [Absent, Absent];
  }

  /** The solution slots of CRANE. */
  function CraneSlots(): seq<Option<char>> {
    [Some('C'), Some('R'), Some('A'), Some('N'), Some('E')]
  }

  /** A five-letter word in normal form is scored by its own letters. */
  lemma WordIsItsLetters(w: string)
    requires IsWord(w) && |w| == WORD_LENGTH
    ensures GuessLetters(w) == w
  {
    NormalizeWordFixesWords(w);
  }

  /** Scoring a five-letter word in normal form against CRANE needs no normalization or padding. */
  lemma ScoreAgainstCrane(guess: string)
    requires IsWord(guess) && |guess| == WORD_LENGTH
    ensures EvaluateGuess(guess, "CRANE").states == Score(guess, CraneSlots())
  {
    NormalizeWordFixesWords(guess);
    NormalizeWordFixesWords("CRANE");
    assert Slots("CRANE") == CraneSlots();
  }

  // ---------------------------------------------------------------------------
  // getHardModeViolation
  // ---------------------------------------------------------------------------

  /** What the hard-mode check reports; the message formatting is left to the caller.
      `Position` carries the 1-based position. */
  datatype Violation = Position(index1: nat, letter: string) | Include(count: nat, letter: string)

  /** Evaluation `e` reveals a non-empty letter as `Correct` at position `i`. */
  predicate MarksCorrect(e: Evaluation, i: nat) {
    i < |e.letters| && e.letters[i] != "" && i < |e.states| && e.states[i] == Correct
  }

  /** Evaluation `e` credits the non-empty letter at position `i` (`Correct` or `Present`). */
  predicate MarksCredit(e: Evaluation, i: nat) {
    i < |e.letters| && e.letters[i] != "" && i < |e.states|
    && (e.states[i] == Correct || e.states[i] == Present)
  }

  /** Records into `pos` every position of `e` from `i` on revealed `Correct`. */
  function AddPositions(pos: seq<(nat, string)>, e: Evaluation, i: nat): seq<(nat, string)>
    decreases |e.letters| - i
  {
    if i >= |e.letters| then pos
    else AddPositions(if MarksCorrect(e, i) then Set(pos, i, e.letters[i]) else pos, e, i + 1)
  }

  /** `requiredPositions`: position -> letter, in order of first reveal. */
  function RequiredPositions(evals: seq<Evaluation>): seq<(nat, string)> {
    if |evals| == 0 then []
    else AddPositions(RequiredPositions(evals[..|evals| - 1]), evals[|evals| - 1], 0)
  }

  /** The letter shown by the latest evaluation that reveals position `i` as `Correct`. */
  function LastCorrect(evals: seq<Evaluation>, i: nat): Option<string> {
    if |evals| == 0 then None
    else if MarksCorrect(evals[|evals| - 1], i) then Some(evals[|evals| - 1].letters[i])
    else LastCorrect(evals[..|evals| - 1], i)
  }

  /** Number of positions from `i` on where `e` credits the letter `l`. */
  function CreditFrom(e: Evaluation, l: string, i: nat): nat
    decreases |e.letters| - i
  {
    if i >= |e.letters| then 0
    else (if MarksCredit(e, i) && e.letters[i] == l then 1 else 0) + CreditFrom(e, l, i + 1)
  }

  /** Number of positions of `e` that show `l` as `Correct` or `Present`. */
  function Credit(e: Evaluation, l: string): nat {
    CreditFrom(e, l, 0)
  }

  /** `countsThisGuess`, built from position `i` on into the accumulator. */
  function TallyCredits(acc: seq<(string, nat)>, e: Evaluation, i: nat): seq<(string, nat)>
    decreases |e.letters| - i
  {
    if i >= |e.letters| then acc
    else if MarksCredit(e, i) then TallyCredits(Bump(acc, e.letters[i]), e, i + 1)
    else TallyCredits(acc, e, i + 1)
  }

  /** `counts.set(l, (counts.get(l) ?? 0) + 1)`. */
  function Bump(acc: seq<(string, nat)>, l: string): seq<(string, nat)> {
    Set<string, nat>(acc, l, LookupOr0(acc, l) + 1)
  }

  /** Folds one guess's tallies into `requiredCounts`, keeping the larger count. */
  function MergeCounts(req: seq<(string, nat)>, entries: seq<(string, nat)>): seq<(string, nat)>
    decreases |entries|
  {
    if |entries| == 0 then req
    else MergeCounts(Set(req, entries[0].0, Max(LookupOr0(req, entries[0].0), entries[0].1) as nat), entries[1..])
  }

  /** `requiredCounts`: letter -> minimum number of copies, in order of first credit. */
  function RequiredCounts(evals: seq<Evaluation>): seq<(string, nat)> {
    if |evals| == 0 then []
    else MergeCounts(RequiredCounts(evals[..|evals| - 1]), TallyCredits([], evals[|evals| - 1], 0))
  }

  /** The largest credit any single evaluation gives `l` (not the sum over evaluations). */
  function MaxCredit(evals: seq<Evaluation>, l: string): nat {
    if |evals| == 0 then 0
    else Max(MaxCredit(evals[..|evals| - 1], l), Credit(evals[|evals| - 1], l)) as nat
  }

  /** The candidate holds exactly the letter `l` at position `i`. */
  predicate MatchesAt(g: seq<char>, i: nat, l: string) {
    i < |g| && [g[i]] == l
  }

  /** `guessCounts[l] ?? 0`: blanks are not counted. */
  function GuessCount(g: seq<char>, l: string): nat {
    if |l| == 1 && l[0] != ' ' then multiset(g)[l[0]] else 0
  }

  /** The candidate keeps every recorded position. */
  predicate PositionsMet(pos: seq<(nat, string)>, g: seq<char>) {
    forall j :: 0 <= j < |pos| ==> MatchesAt(g, pos[j].0, pos[j].1)
  }

  /** The candidate reaches every recorded letter count. */
  predicate CountsMet(req: seq<(string, nat)>, g: seq<char>) {
    forall j :: 0 <= j < |req| ==> req[j].1 <= GuessCount(g, req[j].0)
  }

  /** The first required position, in insertion order, that the candidate does not keep. */
  function FirstPositionViolation(pos: seq<(nat, string)>, g: seq<char>): (r: Option<Violation>)
    ensures r.None? <==> PositionsMet(pos, g)
    ensures r.Some? ==> exists j :: (0 <= j < |pos| && r.value == Position(pos[j].0 + 1, pos[j].1)
      && !MatchesAt(g, pos[j].0, pos[j].1)
      && forall j' :: 0 <= j' < j ==> MatchesAt(g, pos[j'].0, pos[j'].1))
  {
    if |pos| == 0 then None
    else if !MatchesAt(g, pos[0].0, pos[0].1) then Some(Position(pos[0].0 + 1, pos[0].1))
    else
      var r := FirstPositionViolation(pos[1..], g);
      PositionsMetTail(pos, g);
      assert r.Some? ==> exists j :: (1 <= j < |pos| && r.value == Position(pos[j].0 + 1, pos[j].1)
        && !MatchesAt(g, pos[j].0, pos[j].1)
        && forall j' :: 0 <= j' < j ==> MatchesAt(g, pos[j'].0, pos[j'].1))
      by {
        if r.Some? {
          var j :| 0 <= j < |pos[1..]| && r.value == Position(pos[1..][j].0 + 1, pos[1..][j].1)
            && !MatchesAt(g, pos[1..][j].0, pos[1..][j].1)
            && forall j' :: 0 <= j' < j ==> MatchesAt(g, pos[1..][j'].0, pos[1..][j'].1);
          PositionWitnessShift(pos, g, r.value, j);
        }
      }
      r
  }

  lemma PositionsMetTail(pos: seq<(nat, string)>, g: seq<char>)
    requires |pos| > 0 && MatchesAt(g, pos[0].0, pos[0].1)
    ensures PositionsMet(pos, g) <==> PositionsMet(pos[1..], g)
  {
    assert forall j :: 1 <= j < |pos| ==> pos[j] == pos[1..][j - 1];
  }

  /** A violation found in the tail of the required positions sits one entry later in the whole. */
  lemma PositionWitnessShift(pos: seq<(nat, string)>, g: seq<char>, v: Violation, j: nat)
    requires |pos| > 0 && j < |pos| - 1
    requires v == Position(pos[1..][j].0 + 1, pos[1..][j].1) && !MatchesAt(g, pos[1..][j].0, pos[1..][j].1)
    requires forall j' :: 0 <= j' < j ==> MatchesAt(g, pos[1..][j'].0, pos[1..][j'].1)
    requires MatchesAt(g, pos[0].0, pos[0].1)
    ensures v == Position(pos[j + 1].0 + 1, pos[j + 1].1) && !MatchesAt(g, pos[j + 1].0, pos[j + 1].1)
    ensures forall j' :: 0 <= j' < j + 1 ==> MatchesAt(g, pos[j'].0, pos[j'].1)
  {
    assert forall j' :: 1 <= j' < j + 1 ==> pos[j'] == pos[1..][j' - 1];
  }

  /** The first required count, in insertion order, that the candidate falls short of. */
  function FirstCountViolation(req: seq<(string, nat)>, g: seq<char>): (r: Option<Violation>)
    ensures r.None? <==> CountsMet(req, g)
    ensures r.Some? ==> exists j :: (0 <= j < |req| && r.value == Include(req[j].1, req[j].0)
      && GuessCount(g, req[j].0) < req[j].1
      && forall j' :: 0 <= j' < j ==> req[j'].1 <= GuessCount(g, req[j'].0))
  {
    if |req| == 0 then None
    else if GuessCount(g, req[0].0) < req[0].1 then Some(Include(req[0].1, req[0].0))
    else
      var r := FirstCountViolation(req[1..], g);
      assert r.Some? ==> exists j :: (1 <= j < |req| && r.value == Include(req[j].1, req[j].0)
        && GuessCount(g, req[j].0) < req[j].1
        && forall j' :: 0 <= j' < j ==> req[j'].1 <= GuessCount(g, req[j'].0))
      by {
        if r.Some? {
          var j :| 0 <= j < |req[1..]| && r.value == Include(req[1..][j].1, req[1..][j].0)
            && GuessCount(g, req[1..][j].0) < req[1..][j].1
            && forall j' :: 0 <= j' < j ==> req[1..][j'].1 <= GuessCount(g, req[1..][j'].0);
          CountWitnessShift(req, g, r.value, j);
        }
      }
      r
  }

  /** A violation found in the tail of the required counts sits one entry later in the whole. */
  lemma CountWitnessShift(req: seq<(string, nat)>, g: seq<char>, v: Violation, j: nat)
    requires |req| > 0 && j < |req| - 1
    requires v == Include(req[1..][j].1, req[1..][j].0) && GuessCount(g, req[1..][j].0) < req[1..][j].1
    requires forall j' :: 0 <= j' < j ==> req[1..][j'].1 <= GuessCount(g, req[1..][j'].0)
    requires req[0].1 <= GuessCount(g, req[0].0)
    ensures v == Include(req[j + 1].1, req[j + 1].0) && GuessCount(g, req[j + 1].0) < req[j + 1].1
    ensures forall j' :: 0 <= j' < j + 1 ==> req[j'].1 <= GuessCount(g, req[j'].0)
  {
    assert forall j' :: 1 <= j' < j + 1 ==> req[j'] == req[1..][j' - 1];
  }

  /** `getHardModeViolation`: with no earlier evaluations there is nothing to check;
      otherwise a positional violation is reported before any count violation. */
  function GetHardModeViolation(guess: string, evals: seq<Evaluation>): (r: Option<Violation>)
    ensures |evals| == 0 ==> r == None
    ensures r.Some? && r.value.Include? ==> PositionsMet(RequiredPositions(evals), GuessLetters(guess))
    ensures r.Some? && r.value.Position? ==> r.value.index1 >= 1
  {
    if |evals| == 0 then None
    else
      var g := GuessLetters(guess);
      var pv := FirstPositionViolation(RequiredPositions(evals), g);
      if pv.Some? then pv else FirstCountViolation(RequiredCounts(evals), g)
  }

  lemma {:induction false} AddPositionsLookup(pos: seq<(nat, string)>, e: Evaluation, i: nat, j: nat)
    ensures KeysDistinct(pos) ==> KeysDistinct(AddPositions(pos, e, i))
    ensures Lookup(AddPositions(pos, e, i), j) ==
      if i <= j && MarksCorrect(e, j) then Some(e.letters[j]) else Lookup(pos, j)
    decreases |e.letters| - i
  {
    if i < |e.letters| {
      AddPositionsLookup(if MarksCorrect(e, i) then Set(pos, i, e.letters[i]) else pos, e, i + 1, j);
    }
  }

  /** The required letter of a position is the one its latest `Correct` reveal shows. */
  lemma {:induction false} RequiredPositionsLookup(evals: seq<Evaluation>, j: nat)
    ensures KeysDistinct(RequiredPositions(evals))
    ensures Lookup(RequiredPositions(evals), j) == LastCorrect(evals, j)
  {
    if |evals| > 0 {
      var prefix := evals[..|evals| - 1];
      RequiredPositionsLookup(prefix, j);
      AddPositionsLookup(RequiredPositions(prefix), evals[|evals| - 1], 0, j);
    }
  }

  /** The index of the first evaluation that reveals position `i` as `Correct`. */
  function FirstReveal(evals: seq<Evaluation>, i: nat): Option<nat> {
    if |evals| == 0 then None
    else
      var r := FirstReveal(evals[..|evals| - 1], i);
      if r.Some? then r
      else if MarksCorrect(evals[|evals| - 1], i) then Some(|evals| - 1)
      else None
  }

  /** `FirstReveal` finds an evaluation that reveals the position, and none before it
      does; it finds nothing only when no evaluation reveals it. */
  lemma {:induction false} FirstRevealSpec(evals: seq<Evaluation>, i: nat)
    ensures var r := FirstReveal(evals, i);
      && (r.Some? ==> r.value < |evals| && MarksCorrect(evals[r.value], i)
                      && forall k :: 0 <= k < r.value ==> !MarksCorrect(evals[k], i))
      && (r.None? ==> forall k :: 0 <= k < |evals| ==> !MarksCorrect(evals[k], i))
  {
    if |evals| > 0 {
      var prefix := evals[..|evals| - 1];
      FirstRevealSpec(prefix, i);
      assert forall k :: 0 <= k < |prefix| ==> prefix[k] == evals[k];
    }
  }

  /** Position `a` was first revealed before position `b`: by an earlier evaluation, or by
      the same one at a lower index. */
  predicate RevealedBefore(evals: seq<Evaluation>, a: nat, b: nat) {
    var fa := FirstReveal(evals, a);
    var fb := FirstReveal(evals, b);
    fa.Some? && fb.Some? && (fa.value < fb.value || (fa.value == fb.value && a < b))
  }

  /** Every key was revealed, and keys are listed in the order of their first reveal. */
  predicate InRevealOrder(evals: seq<Evaluation>, pos: seq<(nat, string)>) {
    && (forall j :: 0 <= j < |pos| ==> FirstReveal(evals, pos[j].0).Some?)
    && (forall j, j' :: 0 <= j < j' < |pos| ==> RevealedBefore(evals, pos[j].0, pos[j'].0))
  }

  lemma LastCorrectIffRevealed(evals: seq<Evaluation>, i: nat)
    ensures LastCorrect(evals, i).Some? <==> FirstReveal(evals, i).Some?
  {
    FirstRevealSpec(evals, i);
    if FirstReveal(evals, i).Some? {
      LastCorrectIsReveal(evals, FirstReveal(evals, i).value, i);
    } else {
      LastCorrectNoReveal(evals, i);
    }
  }

  lemma {:induction false} LastCorrectNoReveal(evals: seq<Evaluation>, i: nat)
    requires forall k :: 0 <= k < |evals| ==> !MarksCorrect(evals[k], i)
    ensures LastCorrect(evals, i).None?
  {
    if |evals| > 0 {
      var prefix := evals[..|evals| - 1];
      assert forall k :: 0 <= k < |prefix| ==> prefix[k] == evals[k];
      LastCorrectNoReveal(prefix, i);
    }
  }

  /** One more evaluation leaves earlier first reveals alone and dates new ones to itself. */
  lemma FirstRevealAppend(evals: seq<Evaluation>, e: Evaluation, i: nat)
    ensures FirstReveal(evals + [e], i) ==
      if FirstReveal(evals, i).Some? then FirstReveal(evals, i)
      else if MarksCorrect(e, i) then Some(|evals|) else None
  {
    assert (evals + [e])[..|evals|] == evals;
  }

  /** What recording the newest evaluation `e` from position `i` on relies on: the keys are
      in reveal order, those first revealed by `e` lie below `i`, and every position revealed
      earlier is already a key. */
  ghost predicate AddPositionsReady(evals: seq<Evaluation>, e: Evaluation, pos: seq<(nat, string)>, i: nat) {
    && InRevealOrder(evals + [e], pos)
    && (forall j :: 0 <= j < |pos| && FirstReveal(evals + [e], pos[j].0) == Some(|evals|) ==> pos[j].0 < i)
    && (forall x: nat :: FirstReveal(evals, x).Some? ==> Lookup(pos, x).Some?)
  }

  /** Recording a position that is already a key keeps every key in place. */
  lemma AddKnownPositionReady(evals: seq<Evaluation>, e: Evaluation, pos: seq<(nat, string)>, i: nat)
    requires AddPositionsReady(evals, e, pos, i)
    requires i < |e.letters| && Lookup(pos, i).Some?
    ensures AddPositionsReady(evals, e, Set(pos, i, e.letters[i]), i + 1)
  {
    var pos' := Set(pos, i, e.letters[i]);
    assert forall j :: 0 <= j < |pos| ==> pos'[j].0 == pos[j].0;
  }

  /** A key revealed after every listed key can be appended. */
  lemma AppendInRevealOrder(evals: seq<Evaluation>, pos: seq<(nat, string)>, k: nat, v: string)
    requires InRevealOrder(evals, pos) && FirstReveal(evals, k).Some?
    requires forall j :: 0 <= j < |pos| ==> RevealedBefore(evals, pos[j].0, k)
    ensures InRevealOrder(evals, pos + [(k, v)])
  {
    var pos' := pos + [(k, v)];
    assert forall j :: 0 <= j < |pos| ==> pos'[j] == pos[j];
  }

  /** Recording a position first revealed by `e` appends it after every earlier key. */
  lemma AddNewPositionReady(evals: seq<Evaluation>, e: Evaluation, pos: seq<(nat, string)>, i: nat)
    requires AddPositionsReady(evals, e, pos, i)
    requires i < |e.letters| && MarksCorrect(e, i) && Lookup(pos, i).None?
    ensures AddPositionsReady(evals, e, Set(pos, i, e.letters[i]), i + 1)
  {
    var all := evals + [e];
    var pos' := Set(pos, i, e.letters[i]);
    FirstRevealAppend(evals, e, i);
    assert FirstReveal(all, i) == Some(|evals|);
    forall j | 0 <= j < |pos|
      ensures RevealedBefore(all, pos[j].0, i)
    {
      FirstRevealAppend(evals, e, pos[j].0);
      FirstRevealSpec(evals, pos[j].0);
    }
    AppendInRevealOrder(all, pos, i, e.letters[i]);
    assert pos' == pos + [(i, e.letters[i])];
    assert forall j :: 0 <= j < |pos| ==> pos'[j] == pos[j];
  }

  /** Recording the reveals of the newest evaluation `e`, from position `i` on, keeps the
      keys in reveal order. */
  lemma {:induction false} AddPositionsInOrder(evals: seq<Evaluation>, e: Evaluation, pos: seq<(nat, string)>, i: nat)
    requires AddPositionsReady(evals, e, pos, i)
    ensures InRevealOrder(evals + [e], AddPositions(pos, e, i))
    decreases |e.letters| - i
  {
    if i >= |e.letters| {
      assert AddPositions(pos, e, i) == pos;
    } else if !MarksCorrect(e, i) {
      AddPositionsStep(pos, e, i);
      AddSkipPositionReady(evals, e, pos, i);
      AddPositionsInOrder(evals, e, pos, i + 1);
    } else {
      AddPositionsStep(pos, e, i);
      var pos' := Set(pos, i, e.letters[i]);
      AddPositionReady(evals, e, pos, i);
      AddPositionsInOrder(evals, e, pos', i + 1);
    }
  }

  lemma AddPositionReady(evals: seq<Evaluation>, e: Evaluation, pos: seq<(nat, string)>, i: nat)
    requires AddPositionsReady(evals, e, pos, i)
    requires i < |e.letters| && MarksCorrect(e, i)
    ensures AddPositionsReady(evals, e, Set(pos, i, e.letters[i]), i + 1)
  {
    if Lookup(pos, i).Some? {
      AddKnownPositionReady(evals, e, pos, i);
    } else {
      AddNewPositionReady(evals, e, pos, i);
    }
  }

  /** One step of `AddPositions`: a `Correct` position is recorded before the rest. */
  lemma AddPositionsStep(pos: seq<(nat, string)>, e: Evaluation, i: nat)
    requires i < |e.letters|
    ensures AddPositions(pos, e, i) ==
      if MarksCorrect(e, i) then AddPositions(Set(pos, i, e.letters[i]), e, i + 1) else AddPositions(pos, e, i + 1)
  {
  }

  lemma AddSkipPositionReady(evals: seq<Evaluation>, e: Evaluation, pos: seq<(nat, string)>, i: nat)
    requires AddPositionsReady(evals, e, pos, i)
    ensures AddPositionsReady(evals, e, pos, i + 1)
  {
  }

  /** `requiredPositions` lists positions in the order they were first revealed `Correct`:
      an earlier evaluation first, and by index within one evaluation. It is this order,
      not the lowest index, that decides which unkept position hard mode reports. */
  lemma {:induction false} RequiredPositionsInRevealOrder(evals: seq<Evaluation>)
    ensures InRevealOrder(evals, RequiredPositions(evals))
  {
    if |evals| > 0 {
      var prefix := evals[..|evals| - 1];
      var e := evals[|evals| - 1];
      var pos := RequiredPositions(prefix);
      assert prefix + [e] == evals;
      RequiredPositionsInRevealOrder(prefix);
      forall j | 0 <= j < |pos|
        ensures FirstReveal(evals, pos[j].0) == FirstReveal(prefix, pos[j].0)
        ensures FirstReveal(prefix, pos[j].0).value < |prefix|
      {
        FirstRevealAppend(prefix, e, pos[j].0);
        FirstRevealSpec(prefix, pos[j].0);
      }
      forall x: nat | FirstReveal(prefix, x).Some?
        ensures Lookup(pos, x).Some?
      {
        RequiredPositionsLookup(prefix, x);
        LastCorrectIffRevealed(prefix, x);
      }
      AddPositionsInOrder(prefix, e, pos, 0);
    }
  }

  lemma {:induction false} TallyCreditsLookup(acc: seq<(string, nat)>, e: Evaluation, i: nat, l: string)
    ensures KeysDistinct(acc) ==> KeysDistinct(TallyCredits(acc, e, i))
    ensures LookupOr0(TallyCredits(acc, e, i), l) == LookupOr0(acc, l) + CreditFrom(e, l, i)
    decreases |e.letters| - i
  {
    TallyCreditsDistinct(acc, e, i);
    if i < |e.letters| {
      assert CreditFrom(e, l, i) == (if MarksCredit(e, i) && e.letters[i] == l then 1 else 0) + CreditFrom(e, l, i + 1);
      if MarksCredit(e, i) {
        var k := e.letters[i];
        var acc' := Bump(acc, k);
        TallyCreditsLookup(acc', e, i + 1, l);
        TallyStepLookup(acc, k, l);
      } else {
        TallyCreditsLookup(acc, e, i + 1, l);
      }
    }
  }

  lemma {:induction false} TallyCreditsDistinct(acc: seq<(string, nat)>, e: Evaluation, i: nat)
    ensures KeysDistinct(acc) ==> KeysDistinct(TallyCredits(acc, e, i))
    decreases |e.letters| - i
  {
    if i < |e.letters| {
      if MarksCredit(e, i) {
        TallyCreditsDistinct(Bump(acc, e.letters[i]), e, i + 1);
      } else {
        TallyCreditsDistinct(acc, e, i + 1);
      }
    }
  }

  /** One tally step adds one to its own letter and leaves the others. */
  lemma TallyStepLookup(acc: seq<(string, nat)>, k: string, l: string)
    ensures LookupOr0(Bump(acc, k), l) == LookupOr0(acc, l) + (if k == l then 1 else 0)
  {
    var acc' := Bump(acc, k);
    if l != k {
      assert Lookup(acc', l) == Lookup(acc, l);
    }
  }

  lemma {:induction false} MergeCountsLookup(req: seq<(string, nat)>, entries: seq<(string, nat)>, l: string)
    requires KeysDistinct(entries)
    ensures KeysDistinct(req) ==> KeysDistinct(MergeCounts(req, entries))
    ensures LookupOr0(MergeCounts(req, entries), l) == Max(LookupOr0(req, l), LookupOr0(entries, l))
    decreases |entries|
  {
    if |entries| > 0 {
      var k := entries[0].0;
      var req' := Set(req, k, Max(LookupOr0(req, k), entries[0].1) as nat);
      if KeysDistinct(req) {
        SetKeepsDistinct(req, k, Max(LookupOr0(req, k), entries[0].1) as nat);
      }
      assert KeysDistinct(entries[1..]);
      MergeCountsLookup(req', entries[1..], l);
      if l == k {
        assert Lookup(entries[1..], l).None?;
      }
    }
  }

  /** The required count of a letter is the largest credit a single evaluation gives it. */
  lemma {:induction false} RequiredCountsLookup(evals: seq<Evaluation>, l: string)
    ensures KeysDistinct(RequiredCounts(evals))
    ensures LookupOr0(RequiredCounts(evals), l) == MaxCredit(evals, l)
  {
    if |evals| > 0 {
      var prefix := evals[..|evals| - 1];
      var last := evals[|evals| - 1];
      RequiredCountsLookup(prefix, l);
      TallyCreditsLookup([], last, 0, l);
      MergeCountsLookup(RequiredCounts(prefix), TallyCredits([], last, 0), l);
    }
  }
  /** Evaluation `e` credits the letter `l` at position `q`. */
  predicate CreditsAt(e: Evaluation, q: nat, l: string) {
    MarksCredit(e, q) && e.letters[q] == l
  }

  /** The first position from `i` on where `e` credits `l`. */
  function FirstCreditFrom(e: Evaluation, l: string, i: nat): Option<nat>
    decreases |e.letters| - i
  {
    if i >= |e.letters| then None
    else if CreditsAt(e, i, l) then Some(i)
    else FirstCreditFrom(e, l, i + 1)
  }

  /** `FirstCreditFrom` finds a crediting position with none before it from `i` on, and
      finds nothing only when no position from `i` on credits the letter. */
  lemma {:induction false} FirstCreditFromSpec(e: Evaluation, l: string, i: nat)
    ensures var r := FirstCreditFrom(e, l, i);
      && (r.Some? ==> i <= r.value && CreditsAt(e, r.value, l)
                      && forall q: nat :: i <= q < r.value ==> !CreditsAt(e, q, l))
      && (r.None? ==> forall q: nat :: i <= q ==> !CreditsAt(e, q, l))
    decreases |e.letters| - i
  {
    if i < |e.letters| && !CreditsAt(e, i, l) {
      FirstCreditFromSpec(e, l, i + 1);
    }
  }

  /** Letter `a` is first credited at a lower position of `e` than letter `b`. */
  predicate CreditedEarlierIn(e: Evaluation, a: string, b: string) {
    var pa := FirstCreditFrom(e, a, 0);
    var pb := FirstCreditFrom(e, b, 0);
    pa.Some? && pb.Some? && pa.value < pb.value
  }

  /** The first evaluation crediting `l`, with the first position where it does. */
  function FirstCredit(evals: seq<Evaluation>, l: string): Option<(nat, nat)> {
    if |evals| == 0 then None
    else
      var r := FirstCredit(evals[..|evals| - 1], l);
      if r.Some? then r
      else match FirstCreditFrom(evals[|evals| - 1], l, 0)
        case Some(p) => Some((|evals| - 1, p))
        case None => None
  }

  /** `FirstCredit` finds an evaluation crediting the letter, with its first crediting
      position, and no earlier evaluation credits it; it finds nothing only when none does. */
  lemma {:induction false} FirstCreditSpec(evals: seq<Evaluation>, l: string)
    ensures var r := FirstCredit(evals, l);
      && (r.Some? ==> r.value.0 < |evals| && FirstCreditFrom(evals[r.value.0], l, 0) == Some(r.value.1)
                      && forall k :: 0 <= k < r.value.0 ==> FirstCreditFrom(evals[k], l, 0).None?)
      && (r.None? ==> forall k :: 0 <= k < |evals| ==> FirstCreditFrom(evals[k], l, 0).None?)
  {
    if |evals| > 0 {
      var prefix := evals[..|evals| - 1];
      FirstCreditSpec(prefix, l);
      assert forall k :: 0 <= k < |prefix| ==> prefix[k] == evals[k];
    }
  }

  /** Letter `a` was first credited before letter `b`: by an earlier evaluation, or at a
      lower position of the same one. */
  predicate CreditedBefore(evals: seq<Evaluation>, a: string, b: string) {
    var fa := FirstCredit(evals, a);
    var fb := FirstCredit(evals, b);
    fa.Some? && fb.Some? && (fa.value.0 < fb.value.0 || (fa.value.0 == fb.value.0 && fa.value.1 < fb.value.1))
  }

  /** Every key was credited, and keys are listed in the order of their first credit. */
  predicate InCreditOrder(evals: seq<Evaluation>, req: seq<(string, nat)>) {
    && (forall j :: 0 <= j < |req| ==> FirstCredit(evals, req[j].0).Some?)
    && (forall j, j' :: 0 <= j < j' < |req| ==> CreditedBefore(evals, req[j].0, req[j'].0))
  }

  /** Within one evaluation: keys credited by `e`, listed by the position of first credit. */
  predicate InCreditOrderIn(e: Evaluation, acc: seq<(string, nat)>) {
    && (forall j :: 0 <= j < |acc| ==> FirstCreditFrom(e, acc[j].0, 0).Some?)
    && (forall j, j' :: 0 <= j < j' < |acc| ==> CreditedEarlierIn(e, acc[j].0, acc[j'].0))
  }

  /** Every letter credited by `evals` is a key. */
  ghost predicate CoversCredits(evals: seq<Evaluation>, req: seq<(string, nat)>) {
    forall l :: FirstCredit(evals, l).Some? ==> Lookup(req, l).Some?
  }

  /** A letter credited at `i` and at no earlier position is first credited at `i`. */
  lemma FirstCreditAt(e: Evaluation, l: string, i: nat)
    requires CreditsAt(e, i, l) && forall q: nat :: q < i ==> !CreditsAt(e, q, l)
    ensures FirstCreditFrom(e, l, 0) == Some(i)
  {
    FirstCreditFromSpec(e, l, 0);
  }

  /** What tallying `e` from position `i` on relies on. */
  ghost predicate TallyReady(e: Evaluation, acc: seq<(string, nat)>, i: nat) {
    && InCreditOrderIn(e, acc)
    && (forall j :: 0 <= j < |acc| && FirstCreditFrom(e, acc[j].0, 0).Some? ==> FirstCreditFrom(e, acc[j].0, 0).value < i)
    && (forall q: nat :: q < i && MarksCredit(e, q) ==> Lookup(acc, e.letters[q]).Some?)
  }

  /** Rewriting values in place keeps the within-evaluation credit order. */
  lemma KeysKeptInCreditOrderIn(e: Evaluation, acc: seq<(string, nat)>, acc': seq<(string, nat)>)
    requires InCreditOrderIn(e, acc)
    requires |acc'| == |acc| && forall j :: 0 <= j < |acc| ==> acc'[j].0 == acc[j].0
    ensures InCreditOrderIn(e, acc')
  {
  }

  /** Rewriting values in place keeps the credit order. */
  lemma KeysKeptInCreditOrder(evals: seq<Evaluation>, req: seq<(string, nat)>, req': seq<(string, nat)>)
    requires InCreditOrder(evals, req)
    requires |req'| == |req| && forall j :: 0 <= j < |req| ==> req'[j].0 == req[j].0
    ensures InCreditOrder(evals, req')
  {
  }

  lemma TallyNewLetterReady(e: Evaluation, acc: seq<(string, nat)>, i: nat, v: nat)
    requires TallyReady(e, acc, i)
    requires MarksCredit(e, i) && Lookup(acc, e.letters[i]).None?
    ensures TallyReady(e, Set<string, nat>(acc, e.letters[i], v), i + 1)
  {
    var l := e.letters[i];
    NoEarlierCredit(e, acc, i, l);
    FirstCreditAt(e, l, i);
    AppendInCreditOrderIn(e, acc, l, v, i);
    KeysKeptCover(e, acc, l, v, i);
    assert Set(acc, l, v) == acc + [(l, v)];
  }

  /** A letter that is not yet a key was credited at no earlier position. */
  lemma NoEarlierCredit(e: Evaluation, acc: seq<(string, nat)>, i: nat, l: string)
    requires forall q: nat :: q < i && MarksCredit(e, q) ==> Lookup(acc, e.letters[q]).Some?
    requires Lookup(acc, l).None?
    ensures forall q: nat :: q < i ==> !CreditsAt(e, q, l)
  {
  }

  /** A letter first credited at `i`, after every listed letter, can be appended. */
  lemma AppendInCreditOrderIn(e: Evaluation, acc: seq<(string, nat)>, l: string, v: nat, i: nat)
    requires InCreditOrderIn(e, acc) && FirstCreditFrom(e, l, 0) == Some(i)
    requires forall j :: 0 <= j < |acc| && FirstCreditFrom(e, acc[j].0, 0).Some? ==> FirstCreditFrom(e, acc[j].0, 0).value < i
    ensures InCreditOrderIn(e, acc + [(l, v)])
    ensures forall j :: (0 <= j < |acc + [(l, v)]| && FirstCreditFrom(e, (acc + [(l, v)])[j].0, 0).Some?
      ==> FirstCreditFrom(e, (acc + [(l, v)])[j].0, 0).value < i + 1)
  {
    var acc' := acc + [(l, v)];
    assert forall j :: 0 <= j < |acc| ==> acc'[j] == acc[j];
  }

  lemma TallyKnownLetterReady(e: Evaluation, acc: seq<(string, nat)>, i: nat, v: nat)
    requires TallyReady(e, acc, i)
    requires MarksCredit(e, i) && Lookup(acc, e.letters[i]).Some?
    ensures TallyReady(e, Set<string, nat>(acc, e.letters[i], v), i + 1)
  {
    var l := e.letters[i];
    var acc' := Set(acc, l, v);
    KeysKeptInCreditOrderIn(e, acc, acc');
    KeysKeptCreditedBelow(e, acc, acc', i);
    KeysKeptCover(e, acc, l, v, i);
  }

  lemma KeysKeptCreditedBelow(e: Evaluation, acc: seq<(string, nat)>, acc': seq<(string, nat)>, i: nat)
    requires |acc'| == |acc| && forall j :: 0 <= j < |acc| ==> acc'[j].0 == acc[j].0
    requires forall j :: 0 <= j < |acc| && FirstCreditFrom(e, acc[j].0, 0).Some? ==> FirstCreditFrom(e, acc[j].0, 0).value < i
    ensures forall j :: 0 <= j < |acc'| && FirstCreditFrom(e, acc'[j].0, 0).Some? ==> FirstCreditFrom(e, acc'[j].0, 0).value < i + 1
  {
    forall j | 0 <= j < |acc'| && FirstCreditFrom(e, acc'[j].0, 0).Some?
      ensures FirstCreditFrom(e, acc'[j].0, 0).value < i + 1
    {
      assert acc'[j].0 == acc[j].0;
    }
  }

  lemma KeysKeptCover(e: Evaluation, acc: seq<(string, nat)>, l: string, v: nat, i: nat)
    requires forall q: nat :: q < i && MarksCredit(e, q) ==> Lookup(acc, e.letters[q]).Some?
    requires MarksCredit(e, i) && e.letters[i] == l
    ensures forall q: nat :: q < i + 1 && MarksCredit(e, q) ==> Lookup(Set(acc, l, v), e.letters[q]).Some?
  {
    forall q: nat | q < i + 1 && MarksCredit(e, q)
      ensures Lookup(Set(acc, l, v), e.letters[q]).Some?
    {
      if e.letters[q] != l {
        assert Lookup(Set(acc, l, v), e.letters[q]) == Lookup(acc, e.letters[q]);
      }
    }
  }

  lemma TallySkipReady(e: Evaluation, acc: seq<(string, nat)>, i: nat)
    requires TallyReady(e, acc, i) && !MarksCredit(e, i)
    ensures TallyReady(e, acc, i + 1)
  {
    forall q: nat | q < i + 1 && MarksCredit(e, q)
      ensures Lookup(acc, e.letters[q]).Some?
    {
      assert q < i;
    }
  }

  /** `countsThisGuess` lists the letters of one guess by the position of first credit. */
  lemma {:induction false} TallyInCreditOrder(e: Evaluation, acc: seq<(string, nat)>, i: nat)
    requires TallyReady(e, acc, i)
    ensures InCreditOrderIn(e, TallyCredits(acc, e, i))
    decreases |e.letters| - i
  {
    if i >= |e.letters| {
      assert TallyCredits(acc, e, i) == acc;
    } else if !MarksCredit(e, i) {
      TallySkipReady(e, acc, i);
      TallyInCreditOrder(e, acc, i + 1);
    } else {
      var l := e.letters[i];
      var v: nat := LookupOr0(acc, l) + 1;
      var acc' := Set<string, nat>(acc, l, v);
      if Lookup(acc, l).None? {
        TallyNewLetterReady(e, acc, i, v);
      } else {
        TallyKnownLetterReady(e, acc, i, v);
      }
      assert TallyCredits(acc, e, i) == TallyCredits(acc', e, i + 1);
      TallyInCreditOrder(e, acc', i + 1);
    }
  }

  /** `countsThisGuess` holds every letter the guess credits from position `i` on. */
  lemma TallyCovers(e: Evaluation, acc: seq<(string, nat)>, i: nat, q: nat)
    requires i <= q && MarksCredit(e, q)
    ensures Lookup(TallyCredits(acc, e, i), e.letters[q]).Some?
  {
    TallyCreditsLookup(acc, e, i, e.letters[q]);
    CreditFromCounts(e, e.letters[q], i, q);
  }

  /** A credit at `q` counts towards every `CreditFrom` that starts at or before `q`. */
  lemma {:induction false} CreditFromCounts(e: Evaluation, l: string, i: nat, q: nat)
    requires i <= q && CreditsAt(e, q, l)
    ensures CreditFrom(e, l, i) > 0
    decreases q - i
  {
    if i < q {
      CreditFromCounts(e, l, i + 1, q);
    }
  }

  /** One more evaluation leaves earlier first credits alone and dates new ones to itself. */
  lemma FirstCreditAppend(evals: seq<Evaluation>, e: Evaluation, l: string)
    ensures FirstCredit(evals + [e], l) ==
      if FirstCredit(evals, l).Some? then FirstCredit(evals, l)
      else match FirstCreditFrom(e, l, 0)
        case Some(p) => Some((|evals|, p))
        case None => None
  {
    assert (evals + [e])[..|evals|] == evals;
  }

  /** What merging the tally `entries` of the newest evaluation `e` relies on. */
  ghost predicate MergeReady(evals: seq<Evaluation>, e: Evaluation, req: seq<(string, nat)>, entries: seq<(string, nat)>) {
    && InCreditOrder(evals + [e], req)
    && InCreditOrderIn(e, entries)
    && CoversCredits(evals, req)
    && (forall l :: FirstCreditFrom(e, l, 0).Some? ==> Lookup(req, l).Some? || Lookup(entries, l).Some?)
    && (forall j, j2 :: 0 <= j < |req| && 0 <= j2 < |entries| && FirstCredit(evals, req[j].0).None?
          ==> CreditedEarlierIn(e, req[j].0, entries[j2].0))
  }

  /** Every letter `e` credits is still a key of the requirements or of the entries left. */
  lemma MergeStillCovers(e: Evaluation, req: seq<(string, nat)>, entries: seq<(string, nat)>, v: nat)
    requires |entries| > 0
    requires forall l :: FirstCreditFrom(e, l, 0).Some? ==> Lookup(req, l).Some? || Lookup(entries, l).Some?
    ensures forall l :: FirstCreditFrom(e, l, 0).Some? ==>
      Lookup(Set(req, entries[0].0, v), l).Some? || Lookup(entries[1..], l).Some?
  {
    var k := entries[0].0;
    forall l | FirstCreditFrom(e, l, 0).Some?
      ensures Lookup(Set(req, k, v), l).Some? || Lookup(entries[1..], l).Some?
    {
      if l != k {
        assert Lookup(Set(req, k, v), l) == Lookup(req, l);
        if Lookup(entries, l).Some? {
          LookupFound(entries, l);
          var j :| 0 <= j < |entries| && entries[j] == (l, Lookup(entries, l).value);
          assert entries[1..][j - 1] == entries[j];
          assert Lookup(entries[1..], l).Some?;
        }
      }
    }
  }

  /** Letters credited by the earlier evaluations stay keys. */
  lemma SetKeepsCover(evals: seq<Evaluation>, req: seq<(string, nat)>, k: string, v: nat)
    requires CoversCredits(evals, req)
    ensures CoversCredits(evals, Set(req, k, v))
  {
    forall l | FirstCredit(evals, l).Some?
      ensures Lookup(Set(req, k, v), l).Some?
    {
      if l != k {
        assert Lookup(Set(req, k, v), l) == Lookup(req, l);
      }
    }
  }

  lemma MergeKnownLetterReady(evals: seq<Evaluation>, e: Evaluation, req: seq<(string, nat)>, entries: seq<(string, nat)>)
    requires MergeReady(evals, e, req, entries)
    requires |entries| > 0 && Lookup(req, entries[0].0).Some?
    ensures MergeReady(evals, e, Set(req, entries[0].0, Max(LookupOr0(req, entries[0].0), entries[0].1) as nat), entries[1..])
  {
    var k := entries[0].0;
    var v := Max(LookupOr0(req, k), entries[0].1) as nat;
    var req' := Set(req, k, v);
    KeysKeptInCreditOrder(evals + [e], req, req');
    EntriesTailInCreditOrderIn(e, entries);
    SetKeepsCover(evals, req, k, v);
    MergeStillCovers(e, req, entries, v);
    forall j, j2 | 0 <= j < |req'| && 0 <= j2 < |entries[1..]| && FirstCredit(evals, req'[j].0).None?
      ensures CreditedEarlierIn(e, req'[j].0, entries[1..][j2].0)
    {
      assert req'[j].0 == req[j].0 && entries[1..][j2] == entries[j2 + 1];
    }
  }

  lemma EntriesTailInCreditOrderIn(e: Evaluation, entries: seq<(string, nat)>)
    requires InCreditOrderIn(e, entries) && |entries| > 0
    ensures InCreditOrderIn(e, entries[1..])
  {
    assert forall j :: 0 <= j < |entries| - 1 ==> entries[1..][j] == entries[j + 1];
  }

  lemma MergeNewLetterReady(evals: seq<Evaluation>, e: Evaluation, req: seq<(string, nat)>, entries: seq<(string, nat)>)
    requires MergeReady(evals, e, req, entries)
    requires |entries| > 0 && Lookup(req, entries[0].0).None?
    ensures MergeReady(evals, e, Set(req, entries[0].0, Max(LookupOr0(req, entries[0].0), entries[0].1) as nat), entries[1..])
  {
    var k := entries[0].0;
    var v := Max(LookupOr0(req, k), entries[0].1) as nat;
    var req' := Set(req, k, v);
    assert req' == req + [(k, v)];
    MergeNewKeyInOrder(evals, e, req, entries, v);
    EntriesTailInCreditOrderIn(e, entries);
    SetKeepsCover(evals, req, k, v);
    MergeStillCovers(e, req, entries, v);
    MergeNewKeyEarlier(evals, e, req, entries, v);
  }

  /** The newly merged key comes after every key already recorded. */
  lemma MergeNewKeyInOrder(evals: seq<Evaluation>, e: Evaluation, req: seq<(string, nat)>, entries: seq<(string, nat)>, v: nat)
    requires MergeReady(evals, e, req, entries)
    requires |entries| > 0 && Lookup(req, entries[0].0).None?
    ensures InCreditOrder(evals + [e], req + [(entries[0].0, v)])
  {
    var all := evals + [e];
    var k := entries[0].0;
    assert FirstCredit(evals, k).None?;
    FirstCreditAppend(evals, e, k);
    forall j | 0 <= j < |req|
      ensures CreditedBefore(all, req[j].0, k)
    {
      FirstCreditAppend(evals, e, req[j].0);
      FirstCreditSpec(evals, req[j].0);
    }
    var req' := req + [(k, v)];
    assert forall j :: 0 <= j < |req| ==> req'[j] == req[j];
  }

  /** Keys first credited by `e` still precede the entries left to merge. */
  lemma MergeNewKeyEarlier(evals: seq<Evaluation>, e: Evaluation, req: seq<(string, nat)>, entries: seq<(string, nat)>, v: nat)
    requires MergeReady(evals, e, req, entries)
    requires |entries| > 0
    ensures forall j, j2 :: (0 <= j < |req + [(entries[0].0, v)]| && 0 <= j2 < |entries[1..]|
      && FirstCredit(evals, (req + [(entries[0].0, v)])[j].0).None?
      ==> CreditedEarlierIn(e, (req + [(entries[0].0, v)])[j].0, entries[1..][j2].0))
  {
    var req' := req + [(entries[0].0, v)];
    forall j, j2 | 0 <= j < |req'| && 0 <= j2 < |entries[1..]| && FirstCredit(evals, req'[j].0).None?
      ensures CreditedEarlierIn(e, req'[j].0, entries[1..][j2].0)
    {
      assert entries[1..][j2] == entries[j2 + 1];
      if j < |req| {
        assert req'[j] == req[j];
      }
    }
  }

  /** Merging a guess's tally appends its new letters, in tally order, after the old keys. */
  lemma {:induction false} MergeInCreditOrder(evals: seq<Evaluation>, e: Evaluation, req: seq<(string, nat)>, entries: seq<(string, nat)>)
    requires MergeReady(evals, e, req, entries)
    ensures InCreditOrder(evals + [e], MergeCounts(req, entries))
    ensures CoversCredits(evals + [e], MergeCounts(req, entries))
    decreases |entries|
  {
    if |entries| == 0 {
      forall l | FirstCredit(evals + [e], l).Some?
        ensures Lookup(req, l).Some?
      {
        FirstCreditAppend(evals, e, l);
      }
    } else {
      if Lookup(req, entries[0].0).Some? {
        MergeKnownLetterReady(evals, e, req, entries);
      } else {
        MergeNewLetterReady(evals, e, req, entries);
      }
      MergeInCreditOrder(evals, e, Set(req, entries[0].0, Max(LookupOr0(req, entries[0].0), entries[0].1) as nat), entries[1..]);
    }
  }

  /** `requiredCounts` lists letters in the order they were first credited: an earlier
      evaluation first, and by position within one evaluation. That order decides which
      short letter hard mode reports. */
  lemma {:induction false} RequiredCountsInCreditOrder(evals: seq<Evaluation>)
    ensures InCreditOrder(evals, RequiredCounts(evals))
    ensures CoversCredits(evals, RequiredCounts(evals))
  {
    if |evals| > 0 {
      var prefix := evals[..|evals| - 1];
      var e := evals[|evals| - 1];
      var req := RequiredCounts(prefix);
      var tally := TallyCredits([], e, 0);
      assert prefix + [e] == evals;
      RequiredCountsInCreditOrder(prefix);
      forall j | 0 <= j < |req|
        ensures FirstCredit(evals, req[j].0) == FirstCredit(prefix, req[j].0)
      {
        FirstCreditAppend(prefix, e, req[j].0);
      }
      TallyInCreditOrder(e, [], 0);
      forall l | FirstCreditFrom(e, l, 0).Some?
        ensures Lookup(tally, l).Some?
      {
        FirstCreditFromSpec(e, l, 0);
        TallyCovers(e, [], 0, FirstCreditFrom(e, l, 0).value);
      }
      MergeInCreditOrder(prefix, e, req, tally);
    }
  }

  /** `MaxCredit` is the maximum: it is bounded by `x` exactly when every single evaluation's credit is. */
  lemma {:induction false} MaxCreditBound(evals: seq<Evaluation>, l: string, x: nat)
    ensures MaxCredit(evals, l) <= x <==> forall k :: 0 <= k < |evals| ==> Credit(evals[k], l) <= x
  {
    if |evals| > 0 {
      var prefix := evals[..|evals| - 1];
      MaxCreditBound(prefix, l, x);
      assert forall k :: 0 <= k < |prefix| ==> prefix[k] == evals[k];
    }
  }

  /** The candidate keeps every position revealed `Correct`, with the letter last revealed there. */
  ghost predicate KeepsPositions(g: seq<char>, evals: seq<Evaluation>) {
    forall i: nat :: LastCorrect(evals, i).Some? ==> MatchesAt(g, i, LastCorrect(evals, i).value)
  }

  /** The candidate holds every letter at least as often as any single evaluation credited it. */
  ghost predicate KeepsCounts(g: seq<char>, evals: seq<Evaluation>) {
    forall k, l :: 0 <= k < |evals| ==> Credit(evals[k], l) <= GuessCount(g, l)
  }

  lemma PositionsMetIff(g: seq<char>, evals: seq<Evaluation>)
    ensures PositionsMet(RequiredPositions(evals), g) <==> KeepsPositions(g, evals)
  {
    var pos := RequiredPositions(evals);
    if PositionsMet(pos, g) {
      forall i: nat | LastCorrect(evals, i).Some?
        ensures MatchesAt(g, i, LastCorrect(evals, i).value)
      {
        RequiredPositionsLookup(evals, i);
        LookupFound(pos, i);
      }
    }
    if KeepsPositions(g, evals) {
      forall j | 0 <= j < |pos|
        ensures MatchesAt(g, pos[j].0, pos[j].1)
      {
        RequiredPositionsLookup(evals, pos[j].0);
        LookupEntry(pos, j);
      }
    }
  }

  lemma CountsMetIff(g: seq<char>, evals: seq<Evaluation>)
    ensures CountsMet(RequiredCounts(evals), g) <==> KeepsCounts(g, evals)
  {
    if CountsMet(RequiredCounts(evals), g) {
      CountsMetKeepsCounts(g, evals);
    }
    if KeepsCounts(g, evals) {
      KeepsCountsMeetsCounts(g, evals);
    }
  }

  lemma CountsMetKeepsCounts(g: seq<char>, evals: seq<Evaluation>)
    requires CountsMet(RequiredCounts(evals), g)
    ensures KeepsCounts(g, evals)
  {
    var req := RequiredCounts(evals);
    forall k, l | 0 <= k < |evals|
      ensures Credit(evals[k], l) <= GuessCount(g, l)
    {
      RequiredCountsLookup(evals, l);
      MaxCreditBound(evals, l, MaxCredit(evals, l));
      if Lookup(req, l).Some? {
        LookupFound(req, l);
      }
    }
  }

  lemma KeepsCountsMeetsCounts(g: seq<char>, evals: seq<Evaluation>)
    requires KeepsCounts(g, evals)
    ensures CountsMet(RequiredCounts(evals), g)
  {
    var req := RequiredCounts(evals);
    forall j | 0 <= j < |req|
      ensures req[j].1 <= GuessCount(g, req[j].0)
    {
      var l := req[j].0;
      RequiredCountsLookup(evals, l);
      LookupEntry(req, j);
      MaxCreditBound(evals, l, GuessCount(g, l));
    }
  }

  /** Hard mode accepts a candidate exactly when it keeps every revealed position and
      holds every letter at least as often as some single earlier guess was credited it. */
  lemma HardModeViolationNoneIff(guess: string, evals: seq<Evaluation>)
    ensures GetHardModeViolation(guess, evals).None? <==>
      KeepsPositions(GuessLetters(guess), evals) && KeepsCounts(GuessLetters(guess), evals)
  {
    PositionsMetIff(GuessLetters(guess), evals);
    CountsMetIff(GuessLetters(guess), evals);
  }

  /** A reported position is 1-based, was revealed `Correct` with that letter, and the
      candidate does not hold that letter there. */
  lemma HardModePositionReport(guess: string, evals: seq<Evaluation>, v: Violation)
    requires GetHardModeViolation(guess, evals) == Some(v) && v.Position?
    ensures v.index1 >= 1 && LastCorrect(evals, v.index1 - 1) == Some(v.letter)
    ensures !MatchesAt(GuessLetters(guess), v.index1 - 1, v.letter)
  {
    PositionReportIsFirst(guess, evals, v);
    RequiredPositionsLatest(evals);
    ViolationAtLatestReveal(evals, RequiredPositions(evals), GuessLetters(guess), v);
  }

  /** `requiredPositions` maps every position to its latest `Correct` reveal. */
  lemma RequiredPositionsLatest(evals: seq<Evaluation>)
    ensures KeysDistinct(RequiredPositions(evals))
    ensures forall x: nat :: Lookup(RequiredPositions(evals), x) == LastCorrect(evals, x)
  {
    RequiredPositionsLookup(evals, 0);
    forall x: nat
      ensures Lookup(RequiredPositions(evals), x) == LastCorrect(evals, x)
    {
      RequiredPositionsLookup(evals, x);
    }
  }

  lemma ViolationAtLatestReveal(evals: seq<Evaluation>, pos: seq<(nat, string)>, g: seq<char>, v: Violation)
    requires KeysDistinct(pos) && FirstPositionViolation(pos, g) == Some(v)
    requires forall x: nat :: Lookup(pos, x) == LastCorrect(evals, x)
    ensures v.Position? && v.index1 >= 1 && LastCorrect(evals, v.index1 - 1) == Some(v.letter)
    ensures !MatchesAt(g, v.index1 - 1, v.letter)
  {
    PositionViolationLookup(pos, g, v);
    var x: nat := v.index1 - 1;
    assert Lookup(pos, x) == LastCorrect(evals, x);
  }

  /** With distinct keys, the reported position holds what a lookup of it finds. */
  lemma PositionViolationLookup(pos: seq<(nat, string)>, g: seq<char>, v: Violation)
    requires KeysDistinct(pos) && FirstPositionViolation(pos, g) == Some(v)
    ensures v.Position? && v.index1 >= 1 && Lookup<nat, string>(pos, v.index1 - 1) == Some(v.letter)
    ensures !MatchesAt(g, v.index1 - 1, v.letter)
  {
    var j :| 0 <= j < |pos| && v == Position(pos[j].0 + 1, pos[j].1) && !MatchesAt(g, pos[j].0, pos[j].1)
      && forall j' :: 0 <= j' < j ==> MatchesAt(g, pos[j'].0, pos[j'].1);
    LookupEntry(pos, j);
  }

  /** The reported position is the earliest-revealed one the candidate misses: every position
      first revealed before it is kept. A position revealed early at a high index is
      therefore reported ahead of one revealed later at a lower index. */
  lemma HardModeReportsEarliestReveal(guess: string, evals: seq<Evaluation>, v: Violation, x: nat)
    requires GetHardModeViolation(guess, evals) == Some(v) && v.Position?
    requires RevealedBefore(evals, x, v.index1 - 1)
    ensures LastCorrect(evals, x).Some?
    ensures MatchesAt(GuessLetters(guess), x, LastCorrect(evals, x).value)
  {
    PositionReportIsFirst(guess, evals, v);
    RevealedKeyRecorded(evals, x);
    RevealedBeforeViolationKept(evals, RequiredPositions(evals), GuessLetters(guess), v, x);
  }

  /** A revealed position is a key of `requiredPositions`, holding its latest reveal. */
  lemma RevealedKeyRecorded(evals: seq<Evaluation>, x: nat)
    requires FirstReveal(evals, x).Some?
    ensures InRevealOrder(evals, RequiredPositions(evals))
    ensures LastCorrect(evals, x).Some? && Lookup(RequiredPositions(evals), x) == LastCorrect(evals, x)
  {
    RequiredPositionsInRevealOrder(evals);
    RequiredPositionsLookup(evals, x);
    LastCorrectIffRevealed(evals, x);
  }

  lemma PositionReportIsFirst(guess: string, evals: seq<Evaluation>, v: Violation)
    requires GetHardModeViolation(guess, evals) == Some(v) && v.Position?
    ensures FirstPositionViolation(RequiredPositions(evals), GuessLetters(guess)) == Some(v)
  {
  }

  /** Under reveal order, a key revealed before the first unkept one is kept. */
  lemma RevealedBeforeViolationKept(evals: seq<Evaluation>, pos: seq<(nat, string)>, g: seq<char>, v: Violation, x: nat)
    requires InRevealOrder(evals, pos) && Lookup(pos, x).Some?
    requires FirstPositionViolation(pos, g) == Some(v) && v.Position? && v.index1 >= 1
    requires RevealedBefore(evals, x, v.index1 - 1)
    ensures MatchesAt(g, x, Lookup(pos, x).value)
  {
    var j := FirstUnkeptIndex(pos, g, v);
    KeptBeforeFirstUnkept(evals, pos, g, j, x);
  }

  /** The index of the reported entry among the required positions. */
  lemma FirstUnkeptIndex(pos: seq<(nat, string)>, g: seq<char>, v: Violation) returns (j: nat)
    requires FirstPositionViolation(pos, g) == Some(v)
    ensures j < |pos| && v == Position(pos[j].0 + 1, pos[j].1)
    ensures forall j' :: 0 <= j' < j ==> MatchesAt(g, pos[j'].0, pos[j'].1)
  {
    j :| 0 <= j < |pos| && v == Position(pos[j].0 + 1, pos[j].1) && !MatchesAt(g, pos[j].0, pos[j].1)
      && forall j' :: 0 <= j' < j ==> MatchesAt(g, pos[j'].0, pos[j'].1);
  }

  /** Under reveal order, a key revealed before the first unkept entry `j` is kept. */
  lemma KeptBeforeFirstUnkept(evals: seq<Evaluation>, pos: seq<(nat, string)>, g: seq<char>, j: nat, x: nat)
    requires InRevealOrder(evals, pos) && Lookup(pos, x).Some?
    requires j < |pos| && forall j' :: 0 <= j' < j ==> MatchesAt(g, pos[j'].0, pos[j'].1)
    requires RevealedBefore(evals, x, pos[j].0)
    ensures MatchesAt(g, x, Lookup(pos, x).value)
  {
    LookupFound(pos, x);
    var k :| 0 <= k < |pos| && pos[k] == (x, Lookup(pos, x).value);
    EarlierKeysKept(evals, pos, g, j, k);
  }

  /** A worked example: position 4 is revealed `Correct` one guess before position 1.
      A candidate missing both is told about position 4, the earlier reveal, although
      position 1 has the lower index. */
  lemma HardModeRevealOrderExample()
    ensures GetHardModeViolation("QQQQQ", [
        Evaluation(["S", "T", "O", "N", "E"], [Absent, Absent, Absent, Correct, Absent]),
        Evaluation(["C", "L", "I", "N", "G"], [Correct, Absent, Absent, Correct, Absent])])
      == Some(Position(4, "N"))
  {
    var e1 := Evaluation(["S", "T", "O", "N", "E"], [Absent, Absent, Absent, Correct, Absent]);
    var e2 := Evaluation(["C", "L", "I", "N", "G"], [Correct, Absent, Absent, Correct, Absent]);
    RevealOrderExampleSteps(e1, e2, "QQQQQ");
  }

  lemma RevealOrderExampleSteps(e1: Evaluation, e2: Evaluation, guess: string)
    requires e1 == Evaluation(["S", "T", "O", "N", "E"], [Absent, Absent, Absent, Correct, Absent])
    requires e2 == Evaluation(["C", "L", "I", "N", "G"], [Correct, Absent, Absent, Correct, Absent])
    requires guess == "QQQQQ"
    ensures GetHardModeViolation(guess, [e1, e2]) == Some(Position(4, "N"))
  {
    RevealOrderExamplePositions(e1, e2);
    ExampleGuessLetters(guess);
    RevealOrderExampleReport(guess, [e1, e2]);
  }

  lemma ExampleGuessLetters(guess: string)
    requires guess == "QQQQQ"
    ensures GuessLetters(guess) == "QQQQQ"
  {
    WordIsItsLetters(guess);
  }

  lemma RevealOrderExampleReport(guess: string, evals: seq<Evaluation>)
    requires |evals| > 0 && RequiredPositions(evals) == [(3, "N"), (0, "C")]
    requires GuessLetters(guess) == "QQQQQ"
    ensures GetHardModeViolation(guess, evals) == Some(Position(4, "N"))
  {
    ExampleFirstViolation(RequiredPositions(evals), GuessLetters(guess));
    PositionReportWins(guess, evals);
  }

  lemma ExampleFirstViolation(pos: seq<(nat, string)>, g: seq<char>)
    requires pos == [(3, "N"), (0, "C")] && g == "QQQQQ"
    ensures FirstPositionViolation(pos, g) == Some(Position(4, "N"))
  {
    assert !MatchesAt(g, pos[0].0, pos[0].1);
  }

  /** A positional violation is reported whenever there is one. */
  lemma PositionReportWins(guess: string, evals: seq<Evaluation>)
    requires |evals| > 0
    requires FirstPositionViolation(RequiredPositions(evals), GuessLetters(guess)).Some?
    ensures GetHardModeViolation(guess, evals) == FirstPositionViolation(RequiredPositions(evals), GuessLetters(guess))
  {
  }

  /** The positions the example records: position 4 from the first evaluation, then
      position 1 from the second (position 4 is already a key and keeps its place). */
  lemma RevealOrderExamplePositions(e1: Evaluation, e2: Evaluation)
    requires e1 == Evaluation(["S", "T", "O", "N", "E"], [Absent, Absent, Absent, Correct, Absent])
    requires e2 == Evaluation(["C", "L", "I", "N", "G"], [Correct, Absent, Absent, Correct, Absent])
    ensures RequiredPositions([e1, e2]) == [(3, "N"), (0, "C")]
  {
    RequiredPositionsSnoc([], e1);
    RequiredPositionsSnoc([e1], e2);
    StonePositions(e1);
    ClingPositions(e2);
  }

  lemma RequiredPositionsSnoc(evals: seq<Evaluation>, e: Evaluation)
    ensures RequiredPositions(evals + [e]) == AddPositions(RequiredPositions(evals), e, 0)
  {
    assert (evals + [e])[..|evals|] == evals;
  }

  lemma StonePositions(e: Evaluation)
    requires e == Evaluation(["S", "T", "O", "N", "E"], [Absent, Absent, Absent, Correct, Absent])
    ensures AddPositions([], e, 0) == [(3, "N")]
  {
    AddPositionsStep([], e, 0);
    AddPositionsStep([], e, 1);
    AddPositionsStep([], e, 2);
    AddPositionsStep([], e, 3);
    AddPositionsStep([(3, "N")], e, 4);
  }

  lemma ClingPositions(e: Evaluation)
    requires e == Evaluation(["C", "L", "I", "N", "G"], [Correct, Absent, Absent, Correct, Absent])
    ensures AddPositions([(3, "N")], e, 0) == [(3, "N"), (0, "C")]
  {
    var pos := [(3, "N"), (0, "C")];
    assert Lookup([(3, "N")], 0) == None;
    assert Set([(3, "N")], 0, "C") == pos;
    AddPositionsStep([(3, "N")], e, 0);
    AddPositionsStep(pos, e, 1);
    AddPositionsStep(pos, e, 2);
    assert Set(pos, 3, "N") == [(3, "N")] + pos[1..] == pos;
    AddPositionsStep(pos, e, 3);
    AddPositionsStep(pos, e, 4);
  }

  /** The reported letter is the earliest-credited one the candidate falls short of: every
      letter first credited before it is held at least as often as required. */
  lemma HardModeReportsEarliestCredit(guess: string, evals: seq<Evaluation>, v: Violation, x: string)
    requires GetHardModeViolation(guess, evals) == Some(v) && v.Include?
    requires CreditedBefore(evals, x, v.letter)
    ensures MaxCredit(evals, x) <= GuessCount(GuessLetters(guess), x)
  {
    var g := GuessLetters(guess);
    var req := RequiredCounts(evals);
    IncludeReportIsFirst(guess, evals, v);
    var j :| 0 <= j < |req| && v == Include(req[j].1, req[j].0) && GuessCount(g, req[j].0) < req[j].1
      && forall j' :: 0 <= j' < j ==> req[j'].1 <= GuessCount(g, req[j'].0);
    RequiredCountsInCreditOrder(evals);
    RequiredCountsLookup(evals, x);
    LookupFound(req, x);
    var k :| 0 <= k < |req| && req[k] == (x, Lookup(req, x).value);
    EarlierCountsMet(evals, req, g, j, k);
  }

  /** Under credit order, a letter credited before the first short one is met. */
  lemma EarlierCountsMet(evals: seq<Evaluation>, req: seq<(string, nat)>, g: seq<char>, j: nat, k: nat)
    requires InCreditOrder(evals, req)
    requires j < |req| && forall j' :: 0 <= j' < j ==> req[j'].1 <= GuessCount(g, req[j'].0)
    requires k < |req| && CreditedBefore(evals, req[k].0, req[j].0)
    ensures req[k].1 <= GuessCount(g, req[k].0)
  {
  }

  /** Under reveal order, a key revealed before the first unkept one is kept. */
  lemma EarlierKeysKept(evals: seq<Evaluation>, pos: seq<(nat, string)>, g: seq<char>, j: nat, k: nat)
    requires InRevealOrder(evals, pos)
    requires j < |pos| && forall j' :: 0 <= j' < j ==> MatchesAt(g, pos[j'].0, pos[j'].1)
    requires k < |pos| && RevealedBefore(evals, pos[k].0, pos[j].0)
    ensures MatchesAt(g, pos[k].0, pos[k].1)
  {
  }

  /** A count is reported only when every position is kept; it is the largest single-guess
      credit of the letter, the candidate holds fewer copies, and every count recorded
      before it is reached. */
  lemma HardModeIncludeReport(guess: string, evals: seq<Evaluation>, v: Violation)
    requires GetHardModeViolation(guess, evals) == Some(v) && v.Include?
    ensures KeepsPositions(GuessLetters(guess), evals)
    ensures v.count == MaxCredit(evals, v.letter) && GuessCount(GuessLetters(guess), v.letter) < v.count
    ensures var req := RequiredCounts(evals);
      exists j :: 0 <= j < |req| && req[j] == (v.letter, v.count)
        && forall j' :: 0 <= j' < j ==> req[j'].1 <= GuessCount(GuessLetters(guess), req[j'].0)
  {
    var g := GuessLetters(guess);
    IncludeReportIsFirst(guess, evals, v);
    PositionsMetIff(g, evals);
    RequiredCountsLookup(evals, v.letter);
    CountViolationLookup(RequiredCounts(evals), g, v);
  }

  lemma IncludeReportIsFirst(guess: string, evals: seq<Evaluation>, v: Violation)
    requires GetHardModeViolation(guess, evals) == Some(v) && v.Include?
    ensures PositionsMet(RequiredPositions(evals), GuessLetters(guess))
    ensures FirstCountViolation(RequiredCounts(evals), GuessLetters(guess)) == Some(v)
  {
  }

  /** With distinct keys, the reported count is what a lookup of its letter finds. */
  lemma CountViolationLookup(req: seq<(string, nat)>, g: seq<char>, v: Violation)
    requires KeysDistinct(req) && FirstCountViolation(req, g) == Some(v)
    ensures v.Include? && Lookup(req, v.letter) == Some(v.count)
  {
    var j :| 0 <= j < |req| && v == Include(req[j].1, req[j].0) && GuessCount(g, req[j].0) < req[j].1
      && forall j' :: 0 <= j' < j ==> req[j'].1 <= GuessCount(g, req[j'].0);
    LookupEntry(req, j);
  }

  /** Every earlier `Correct` reveal at a position shows the same letter. */
  ghost predicate ConsistentReveals(evals: seq<Evaluation>) {
    forall k, k', i: nat :: 0 <= k < |evals| && 0 <= k' < |evals| && MarksCorrect(evals[k], i) && MarksCorrect(evals[k'], i)
      ==> evals[k].letters[i] == evals[k'].letters[i]
  }

  lemma {:induction false} LastCorrectIsReveal(evals: seq<Evaluation>, k: nat, i: nat)
    requires k < |evals| && MarksCorrect(evals[k], i)
    ensures exists k' :: (0 <= k' < |evals| && MarksCorrect(evals[k'], i)
      && LastCorrect(evals, i) == Some(evals[k'].letters[i]))
  {
    var n := |evals| - 1;
    if !MarksCorrect(evals[n], i) {
      assert k < n && evals[..n][k] == evals[k];
      LastCorrectIsReveal(evals[..n], k, i);
      var k' :| 0 <= k' < n && MarksCorrect(evals[..n][k'], i) && LastCorrect(evals[..n], i) == Some(evals[..n][k'].letters[i]);
      assert evals[..n][k'] == evals[k'];
    }
  }

  /** With a consistent history, an accepted candidate keeps every position ever revealed `Correct`. */
  lemma HardModeAcceptKeepsReveals(guess: string, evals: seq<Evaluation>)
    requires ConsistentReveals(evals)
    requires GetHardModeViolation(guess, evals).None?
    ensures forall k, i: nat :: 0 <= k < |evals| && MarksCorrect(evals[k], i) ==>
      MatchesAt(GuessLetters(guess), i, evals[k].letters[i])
  {
    HardModeViolationNoneIff(guess, evals);
    forall k, i: nat | 0 <= k < |evals| && MarksCorrect(evals[k], i)
      ensures MatchesAt(GuessLetters(guess), i, evals[k].letters[i])
    {
      LastCorrectIsReveal(evals, k, i);
    }
  }

  /** Evaluations of guesses against one solution always form a consistent history. */
  lemma EvaluationsConsistent(guesses: seq<string>, solution: string, evals: seq<Evaluation>)
    requires |evals| == |guesses|
    requires forall k :: 0 <= k < |evals| ==> evals[k] == EvaluateGuess(guesses[k], solution)
    ensures ConsistentReveals(evals)
  {
  }

  // ---------------------------------------------------------------------------
  // isWinningGuess, isGameOver
  // ---------------------------------------------------------------------------

  /** `isWinningGuess`: the two words agree once normalized. */
  function IsWinningGuess(guess: string, solution: string): (won: bool)
    ensures won ==> forall i :: 0 <= i < WORD_LENGTH ==>
      EvaluateGuess(guess, solution).states[i] != Present && EvaluateGuess(guess, solution).states[i] != Absent
  {
    NormalizeWord(guess) == NormalizeWord(solution)
  }

  /** A winning guess of a full-length solution scores all `Correct`. */
  lemma WinningGuessAllCorrect(guess: string, solution: string)
    requires IsWinningGuess(guess, solution)
    requires |NormalizeWord(solution)| == WORD_LENGTH
    ensures forall i :: 0 <= i < WORD_LENGTH ==> EvaluateGuess(guess, solution).states[i] == Correct
  {
  }

  /** `isGameOver`: the round is over when it is no longer playing, or when the attempt
      number has reached the cap of the current mode. The ensures state that rule itself,
      since the rule is what the game promises; `GameOverMonotone` is its partner. */
  function IsGameOver(attempt: int, status: GameStatus, hardMode: bool): (over: bool)
    ensures status != Playing ==> over
    ensures status == Playing ==> (over <==> attempt >= if hardMode then HARD_MODE_ATTEMPTS else MAX_ATTEMPTS)
  {
    if status != Playing then true
    else
      var maxAttempts := if hardMode then HARD_MODE_ATTEMPTS as nat else MAX_ATTEMPTS;
      attempt >= maxAttempts
  }

  /** Once the round is over it stays over at every later attempt. */
  lemma GameOverMonotone(attempt: int, later: int, status: GameStatus, hardMode: bool)
    requires attempt <= later && IsGameOver(attempt, status, hardMode)
    ensures IsGameOver(later, status, hardMode)
  {
  }
}
