/**
 * The hint filter: the vocabulary words still compatible with every trial.
 *
 * The game summarises all trials into three clues and keeps the words that
 * satisfy all of them:
 *   1. the letter of every position some trial hit exactly,
 *   2. every trial letter that occurs in the secret,
 *   3. no trial letter that is absent from the secret.
 * With no trial yet, every vocabulary word is eligible.
 */
module Hints {
  import opened Words
  import Classifier

  /** One position of the exact-hit clue: a letter that must be there, or the `*` wildcard. */
  datatype Slot = Wild | Fixed(letter: char)

  /** Clue 1: per position of the secret, its letter if some trial hit it there, else `Wild`. */
  function RightPositions(trials: seq<string>, secret: string): (r: seq<Slot>)
    requires AllOfLength(trials, |secret|)
    ensures |r| == |secret|
    ensures forall p :: 0 <= p < |r| && r[p].Fixed? ==> r[p].letter == secret[p]
    ensures forall p, j :: 0 <= p < |r| && 0 <= j < |trials| && trials[j][p] == secret[p] ==> r[p].Fixed?
    ensures forall p :: 0 <= p < |r| && r[p].Fixed? ==>
      exists j :: 0 <= j < |trials| && trials[j][p] == secret[p]
  {
    seq(|secret|, p requires 0 <= p < |secret| =>
      if exists j :: 0 <= j < |trials| && trials[j][p] == secret[p] then Fixed(secret[p]) else Wild)
  }

  /** Clue 2: the distinct trial letters that occur in the secret. */
  function GuessedLetters(trials: seq<string>, secret: string): (r: set<char>)
    ensures forall c :: c in r ==> c in secret
    ensures forall c :: c in r ==> exists j, p :: 0 <= j < |trials| && 0 <= p < |trials[j]| && trials[j][p] == c
    ensures forall j, p :: 0 <= j < |trials| && 0 <= p < |trials[j]| && trials[j][p] in secret ==> trials[j][p] in r
  {
    set j, p | 0 <= j < |trials| && 0 <= p < |trials[j]| && trials[j][p] in secret :: trials[j][p]
  }

  /** Clue 3: the distinct trial letters that do not occur in the secret. */
  function RedLetters(trials: seq<string>, secret: string): (r: set<char>)
    ensures forall c :: c in r ==> c !in secret
    ensures forall c :: c in r ==> exists j, p :: 0 <= j < |trials| && 0 <= p < |trials[j]| && trials[j][p] == c
    ensures forall j, p :: 0 <= j < |trials| && 0 <= p < |trials[j]| && trials[j][p] !in secret ==> trials[j][p] in r
  {
    set j, p | 0 <= j < |trials| && 0 <= p < |trials[j]| && trials[j][p] !in secret :: trials[j][p]
  }

  /** `w` carries every fixed letter of the exact-hit clue at its position. */
  predicate FitsPositions(w: string, slots: seq<Slot>) {
    forall p :: 0 <= p < |slots| && slots[p].Fixed? ==> p < |w| && w[p] == slots[p].letter
  }

  /** `w` satisfies the three clues. */
  predicate Admits(w: string, slots: seq<Slot>, guessed: set<char>, red: set<char>) {
    && FitsPositions(w, slots)
    && guessed <= Letters(w)
    && red !! Letters(w)
  }

  /** The words of `vocabulary` that satisfy the three clues, in vocabulary order. */
  function FilterWords(vocabulary: seq<string>, slots: seq<Slot>, guessed: set<char>, red: set<char>): (r: seq<string>)
    ensures |r| <= |vocabulary|
    ensures forall w :: w in r <==> w in vocabulary && Admits(w, slots, guessed, red)
  {
    if |vocabulary| == 0 then []
    else
      var rest := FilterWords(vocabulary[1..], slots, guessed, red);
      assert forall w :: w in vocabulary <==> w == vocabulary[0] || w in vocabulary[1..];
      if Admits(vocabulary[0], slots, guessed, red) then [vocabulary[0]] + rest else rest
  }

  /** The eligible words after `trials`: the whole vocabulary before the first trial. */
  function Eligible(vocabulary: seq<string>, secret: string, trials: seq<string>): (r: seq<string>)
    requires AllOfLength(trials, |secret|)
    ensures |r| <= |vocabulary|
    ensures forall w :: w in r ==> w in vocabulary
    ensures |trials| == 0 ==> r == vocabulary
  {
    if |trials| == 0 then vocabulary
    else FilterWords(vocabulary, RightPositions(trials, secret), GuessedLetters(trials, secret), RedLetters(trials, secret))
  }

  /**
   * Reference definition of compatibility, stated directly on the trials: `w`
   * repeats every exact hit of a trial, and contains a trial letter exactly
   * when the secret does.
   */
  ghost predicate Consistent(w: string, secret: string, trials: seq<string>) {
    && (forall j, p :: 0 <= j < |trials| && 0 <= p < |trials[j]| && p < |secret| && trials[j][p] == secret[p] ==>
          p < |w| && w[p] == secret[p])
    && (forall j, p :: 0 <= j < |trials| && 0 <= p < |trials[j]| ==> (trials[j][p] in w <==> trials[j][p] in secret))
  }

  /** The three computed clues admit exactly the words consistent with the trials. */
  lemma AdmitsIffConsistent(w: string, secret: string, trials: seq<string>)
    requires AllOfLength(trials, |secret|)
    ensures Admits(w, RightPositions(trials, secret), GuessedLetters(trials, secret), RedLetters(trials, secret))
        <==> Consistent(w, secret, trials)
  {
    var slots := RightPositions(trials, secret);
    var guessed := GuessedLetters(trials, secret);
    var red := RedLetters(trials, secret);
    if Admits(w, slots, guessed, red) {
      AdmittedIsConsistent(w, secret, trials, slots, guessed, red);
    }
    if Consistent(w, secret, trials) {
      ConsistentIsAdmitted(w, secret, trials, slots, guessed, red);
    }
  }

  /** A word the clues admit is consistent with the trials. */
  lemma AdmittedIsConsistent(w: string, secret: string, trials: seq<string>,
                             slots: seq<Slot>, guessed: set<char>, red: set<char>)
    requires AllOfLength(trials, |secret|)
    requires slots == RightPositions(trials, secret)
    requires guessed == GuessedLetters(trials, secret) && red == RedLetters(trials, secret)
    requires Admits(w, slots, guessed, red)
    ensures Consistent(w, secret, trials)
  {
    forall j, p | 0 <= j < |trials| && 0 <= p < |trials[j]|
      ensures trials[j][p] in w <==> trials[j][p] in secret
    {
      if trials[j][p] in secret {
        assert trials[j][p] in guessed;
        assert trials[j][p] in Letters(w);
      } else {
        assert trials[j][p] in red;
        assert trials[j][p] !in Letters(w);
      }
    }
  }

  /** A word consistent with the trials satisfies the three clues. */
  lemma ConsistentIsAdmitted(w: string, secret: string, trials: seq<string>,
                             slots: seq<Slot>, guessed: set<char>, red: set<char>)
    requires AllOfLength(trials, |secret|)
    requires slots == RightPositions(trials, secret)
    requires guessed == GuessedLetters(trials, secret) && red == RedLetters(trials, secret)
    requires Consistent(w, secret, trials)
    ensures Admits(w, slots, guessed, red)
  {
    ConsistentFitsPositions(w, secret, trials, slots);
    ConsistentHasLetters(w, secret, trials, guessed, red);
  }

  /** A word consistent with the trials carries every fixed letter of the exact-hit clue. */
  lemma ConsistentFitsPositions(w: string, secret: string, trials: seq<string>, slots: seq<Slot>)
    requires AllOfLength(trials, |secret|)
    requires slots == RightPositions(trials, secret)
    requires Consistent(w, secret, trials)
    ensures FitsPositions(w, slots)
  {
    forall p | 0 <= p < |slots| && slots[p].Fixed?
      ensures p < |w| && w[p] == slots[p].letter
    {
      var j :| 0 <= j < |trials| && trials[j][p] == secret[p];
    }
  }

  /** A word consistent with the trials contains every guessed letter and no red letter. */
  lemma ConsistentHasLetters(w: string, secret: string, trials: seq<string>, guessed: set<char>, red: set<char>)
    requires guessed == GuessedLetters(trials, secret) && red == RedLetters(trials, secret)
    requires Consistent(w, secret, trials)
    ensures guessed <= Letters(w) && red !! Letters(w)
  {
    forall c | c in guessed ensures c in Letters(w) {
      var j, p :| 0 <= j < |trials| && 0 <= p < |trials[j]| && trials[j][p] == c;
    }
    forall c | c in red ensures c !in Letters(w) {
      var j, p :| 0 <= j < |trials| && 0 <= p < |trials[j]| && trials[j][p] == c;
    }
  }

  /** A word is eligible exactly when it is in the vocabulary and consistent with every trial. */
  lemma EligibleExactly(vocabulary: seq<string>, secret: string, trials: seq<string>, w: string)
    requires AllOfLength(trials, |secret|)
    ensures w in Eligible(vocabulary, secret, trials) <==> w in vocabulary && Consistent(w, secret, trials)
  {
    if |trials| > 0 {
      AdmitsIffConsistent(w, secret, trials);
    }
  }

  /** The secret survives every trial list, so the game's sanity check never fails. */
  lemma SecretEligible(vocabulary: seq<string>, secret: string, trials: seq<string>)
    requires AllOfLength(trials, |secret|)
    requires secret in vocabulary
    ensures secret in Eligible(vocabulary, secret, trials)
    ensures |Eligible(vocabulary, secret, trials)| > 0
  {
    EligibleExactly(vocabulary, secret, trials, secret);
  }

  /** Monotone narrowing: one more trial never adds a word to the eligible list. */
  lemma NarrowingMonotone(vocabulary: seq<string>, secret: string, trials: seq<string>, trial: string, w: string)
    requires AllOfLength(trials, |secret|)
    requires |trial| == |secret|
    ensures AllOfLength(trials + [trial], |secret|)
    ensures w in Eligible(vocabulary, secret, trials + [trial]) ==> w in Eligible(vocabulary, secret, trials)
  {
    var more := trials + [trial];
    assert forall j :: 0 <= j < |trials| ==> more[j] == trials[j];
    EligibleExactly(vocabulary, secret, more, w);
    EligibleExactly(vocabulary, secret, trials, w);
  }

  /**
   * Eligible words honour the recap's tags: an `OK` letter sits at its place,
   * an `OK` or `Q` letter occurs, and a letter tagged for being absent from the
   * secret is absent from the word.
   */
  lemma EligibleHonoursTags(vocabulary: seq<string>, secret: string, trials: seq<string>, w: string, j: nat, p: nat)
    requires AllOfLength(trials, |secret|)
    requires w in Eligible(vocabulary, secret, trials)
    requires j < |trials| && p < |secret|
    ensures Classifier.Classify(trials[j], secret)[p] == Classifier.OK ==> p < |w| && w[p] == trials[j][p]
    ensures Classifier.Classify(trials[j], secret)[p] != Classifier.NOK ==> trials[j][p] in w
    ensures trials[j][p] !in secret ==> Classifier.Classify(trials[j], secret)[p] == Classifier.NOK && trials[j][p] !in w
  {
    EligibleExactly(vocabulary, secret, trials, w);
  }
}
