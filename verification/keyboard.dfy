/** Keyboard hints: the best state each letter has received so far (src/game/keyboard.ts). */
module Keyboard {
  import opened Types
  import opened Text

  /** The `rank` table: empty < absent < present < correct. */
  function Rank(s: LetterState): (r: nat)
    ensures r <= 3
    ensures r == 0 <==> s == Empty
    ensures r == 3 <==> s == Correct
  {
    match s
    case Empty => 0
    case Absent => 1
    case Present => 2
    case Correct => 3
  }

  /** The state evaluation `e` gives position `i`. A position without a state
      (`states[i]` is `undefined`) never upgrades a letter, exactly like `Empty`. */
  function StateAt(e: Evaluation, i: nat): LetterState {
    if i < |e.states| then e.states[i] else Empty
  }

  /** The better of the previous and the next state, keeping the previous one on ties. */
  function Better(prev: LetterState, next: LetterState): (r: LetterState)
    ensures Rank(r) >= Rank(prev) && Rank(r) >= Rank(next)
    ensures r == prev || r == next
  {
    if Rank(next) > Rank(prev) then next else prev
  }

  /** Folds positions `i..` of one evaluation into the hint map; blank letters are skipped. */
  function MergeFrom(m: map<string, LetterState>, e: Evaluation, i: nat): (r: map<string, LetterState>)
    ensures m.Keys <= r.Keys
    ensures forall l :: l in r && l !in m ==> !IsBlank(l)
    decreases |e.letters| - i
  {
    if i >= |e.letters| then m
    else if IsBlank(e.letters[i]) then MergeFrom(m, e, i + 1)
    else
      var l := e.letters[i];
      var prev := if l in m then m[l] else Empty;
      MergeFrom(m[l := Better(prev, StateAt(e, i))], e, i + 1)
  }

  /** `buildKeyboardState`: the evaluations folded in order into a letter -> state map. */
  function BuildKeyboardState(evals: seq<Evaluation>): (r: map<string, LetterState>)
    ensures forall l :: l in r ==> !IsBlank(l)
  {
    if |evals| == 0 then map[]
    else MergeFrom(BuildKeyboardState(evals[..|evals| - 1]), evals[|evals| - 1], 0)
  }

  /** Evaluation `k` shows the non-blank letter `l` at position `i`. */
  ghost predicate Shows(evals: seq<Evaluation>, k: int, i: nat, l: string) {
    0 <= k < |evals| && i < |evals[k].letters| && evals[k].letters[i] == l && !IsBlank(l)
  }

  lemma {:induction false} MergeFromSpec(m: map<string, LetterState>, e: Evaluation, i: nat, l: string)
    ensures var r := MergeFrom(m, e, i);
      && (l in r <==> l in m || exists j :: i <= j < |e.letters| && e.letters[j] == l && !IsBlank(l))
      && (l in m ==> Rank(r[l]) >= Rank(m[l]))
      && (forall j :: i <= j < |e.letters| && e.letters[j] == l && !IsBlank(l) ==> Rank(r[l]) >= Rank(StateAt(e, j)))
      && (l in r ==> (l in m && r[l] == m[l])
                     || exists j :: i <= j < |e.letters| && e.letters[j] == l && !IsBlank(l) && r[l] == StateAt(e, j))
    decreases |e.letters| - i
  {
    if i < |e.letters| {
      if IsBlank(e.letters[i]) {
        MergeFromSpec(m, e, i + 1, l);
      } else {
        var k := e.letters[i];
        var prev := if k in m then m[k] else Empty;
        var m' := m[k := Better(prev, StateAt(e, i))];
        MergeFromSpec(m', e, i + 1, l);
      }
    }
  }

  /** What the hint map holds: an entry for exactly the non-blank letters shown by some
      evaluation, whose state ranks at least every state the letter received and is
      one of those states. */
  lemma {:induction false} BuildKeyboardStateSpec(evals: seq<Evaluation>, l: string)
    ensures var b := BuildKeyboardState(evals);
      && (l in b <==> exists k, i: nat :: Shows(evals, k, i, l))
      && (forall k, i: nat :: Shows(evals, k, i, l) ==> Rank(b[l]) >= Rank(StateAt(evals[k], i)))
      && (l in b ==> exists k, i: nat :: Shows(evals, k, i, l) && b[l] == StateAt(evals[k], i))
  {
    if |evals| > 0 {
      var n := |evals| - 1;
      var prefix := evals[..n];
      var last := evals[n];
      BuildKeyboardStateSpec(prefix, l);
      MergeFromSpec(BuildKeyboardState(prefix), last, 0, l);
      assert forall k, i: nat :: k < n ==> (Shows(prefix, k, i, l) <==> Shows(evals, k, i, l));
      assert forall k :: 0 <= k < n ==> prefix[k] == evals[k];
      assert forall i: nat :: Shows(evals, n, i, l) <==> i < |last.letters| && last.letters[i] == l && !IsBlank(l);
    }
  }

  /** Letters that are blank, or that no evaluation shows, get no entry. */
  lemma KeyboardNoStrayKeys(evals: seq<Evaluation>, l: string)
    requires IsBlank(l) || forall k, i :: 0 <= k < |evals| && 0 <= i < |evals[k].letters| ==> evals[k].letters[i] != l
    ensures l !in BuildKeyboardState(evals)
  {
    BuildKeyboardStateSpec(evals, l);
  }

  /** A letter's hint never ranks below any state it has received. */
  lemma KeyboardNeverDowngrades(evals: seq<Evaluation>, k: nat, i: nat)
    requires k < |evals| && i < |evals[k].letters| && !IsBlank(evals[k].letters[i])
    ensures evals[k].letters[i] in BuildKeyboardState(evals)
    ensures Rank(BuildKeyboardState(evals)[evals[k].letters[i]]) >= Rank(StateAt(evals[k], i))
  {
    BuildKeyboardStateSpec(evals, evals[k].letters[i]);
    assert Shows(evals, k, i, evals[k].letters[i]);
  }

  /** The rank table orders the states empty < absent < present < correct. */
  lemma RankOrder()
    ensures Rank(Empty) < Rank(Absent) < Rank(Present) < Rank(Correct)
  {
  }

  /** The hint shows the best state a letter has received: a letter once `correct` shows
      `correct`, one once `present` shows `present` or `correct` (never `absent`), and one
      once `absent` is never shown blank. */
  lemma KeyboardShowsBest(evals: seq<Evaluation>, k: nat, i: nat)
    requires k < |evals| && i < |evals[k].letters| && !IsBlank(evals[k].letters[i])
    ensures evals[k].letters[i] in BuildKeyboardState(evals)
    ensures var b := BuildKeyboardState(evals)[evals[k].letters[i]];
      && (StateAt(evals[k], i) == Correct ==> b == Correct)
      && (StateAt(evals[k], i) == Present ==> b == Present || b == Correct)
      && (StateAt(evals[k], i) == Absent ==> b != Empty)
  {
    KeyboardNeverDowngrades(evals, k, i);
    RankOrder();
  }

  lemma RankInjective(a: LetterState, b: LetterState)
    requires Rank(a) == Rank(b)
    ensures a == b
  {
  }

  /** Permuting the evaluations does not change the hint map. */
  lemma KeyboardOrderIndependent(a: seq<Evaluation>, b: seq<Evaluation>)
    requires multiset(a) == multiset(b)
    ensures BuildKeyboardState(a) == BuildKeyboardState(b)
  {
    var ba := BuildKeyboardState(a);
    var bb := BuildKeyboardState(b);
    forall l
      ensures (l in ba <==> l in bb) && (l in ba ==> ba[l] == bb[l])
    {
      if l in ba {
        KeyboardDominates(a, b, l);
        KeyboardDominates(b, a, l);
        RankInjective(ba[l], bb[l]);
      } else if l in bb {
        KeyboardDominates(b, a, l);
      }
    }
    assert ba.Keys == bb.Keys;
  }

  /** The hint a letter has in `a` is matched or beaten by its hint in any permutation of `a`. */
  lemma KeyboardDominates(a: seq<Evaluation>, b: seq<Evaluation>, l: string)
    requires multiset(a) == multiset(b)
    requires l in BuildKeyboardState(a)
    ensures l in BuildKeyboardState(b)
    ensures Rank(BuildKeyboardState(b)[l]) >= Rank(BuildKeyboardState(a)[l])
  {
    var k, i := KeyboardWitness(a, l);
    assert a[k] in multiset(b);
    var k' :| 0 <= k' < |b| && b[k'] == a[k];
    KeyboardNeverDowngrades(b, k', i);
  }

  /** The evaluation and position a letter's hint comes from. */
  lemma KeyboardWitness(evals: seq<Evaluation>, l: string) returns (k: nat, i: nat)
    requires l in BuildKeyboardState(evals)
    ensures Shows(evals, k, i, l) && BuildKeyboardState(evals)[l] == StateAt(evals[k], i)
  {
    BuildKeyboardStateSpec(evals, l);
    k, i :| Shows(evals, k, i, l) && BuildKeyboardState(evals)[l] == StateAt(evals[k], i);
  }

  /** One more evaluation never lowers a hint and leaves the letters it does not show untouched. */
  lemma KeyboardAppend(evals: seq<Evaluation>, e: Evaluation, l: string)
    ensures var before := BuildKeyboardState(evals);
      var after := BuildKeyboardState(evals + [e]);
      && (l in before ==> l in after && Rank(after[l]) >= Rank(before[l]))
      && ((forall i :: 0 <= i < |e.letters| ==> e.letters[i] != l) ==>
            (l in after <==> l in before) && (l in before ==> after[l] == before[l]))
  {
    assert (evals + [e])[..|evals|] == evals;
    MergeFromSpec(BuildKeyboardState(evals), e, 0, l);
  }
}
