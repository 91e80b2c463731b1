/**
 * The per-letter feedback of the trials recap: every letter of a trial is tagged
 * against the secret word, one position at a time.
 *
 * This is the rule the game actually applies, not the two-pass duplicate-counting
 * Wordle scoring: a letter is "misplaced" (Q) only at its first occurrence in the
 * trial, and nothing bounds how many tags a letter receives by its multiplicity
 * in the secret.
 */
module Classifier {
  import opened Words

  /** `OK`: right letter, right place; `Q`: letter of the secret, wrong place; `NOK`: otherwise. */
  datatype Tag = OK | Q | NOK

  /** The tag of position `i`, with the branches in the order the game tests them. */
  function TagAt(trial: string, secret: string, i: nat): (t: Tag)
    requires i < |trial| && i < |secret|
    ensures t == OK <==> trial[i] == secret[i]
    ensures t == Q <==> trial[i] in secret && trial[i] != secret[i] && trial[i] !in trial[..i]
  {
    if trial[i] in Letters(secret) - Letters(trial[..i]) && secret[i] != trial[i] then Q
    else if trial[i] in secret && secret[i] == trial[i] then OK
    else NOK
  }

  /** The tags of a whole trial: one tag per position. */
  function Classify(trial: string, secret: string): (r: seq<Tag>)
    requires |trial| == |secret|
    ensures |r| == |trial|
    ensures forall i :: 0 <= i < |r| ==> (r[i] == OK <==> trial[i] == secret[i])
    ensures forall i :: 0 <= i < |r| ==>
      (r[i] == Q <==> trial[i] in secret && trial[i] != secret[i] && trial[i] !in trial[..i])
    ensures forall i :: 0 <= i < |r| && trial[i] !in secret ==> r[i] == NOK
  {
    seq(|trial|, i requires 0 <= i < |trial| => TagAt(trial, secret, i))
  }

  /** Every tag is `OK`. */
  predicate AllOK(tags: seq<Tag>) {
    forall i :: 0 <= i < |tags| ==> tags[i] == OK
  }

  /** A trial is tagged all `OK` exactly when it is the secret itself. */
  lemma AllOKIffSecret(trial: string, secret: string)
    requires |trial| == |secret|
    ensures AllOK(Classify(trial, secret)) <==> trial == secret
  {
    var r := Classify(trial, secret);
    if AllOK(r) {
      assert forall i :: 0 <= i < |trial| ==> trial[i] == secret[i] by {
        forall i | 0 <= i < |trial| ensures trial[i] == secret[i] {
          assert r[i] == OK;
        }
      }
    }
  }

  /** Classifying the secret against itself gives all `OK`. */
  lemma SecretIsAllOK(secret: string)
    ensures Classify(secret, secret) == seq(|secret|, _ => OK)
  {
  }

  /**
   * A `Q` marks the first occurrence of its letter in the trial, so two `Q`
   * tags of one trial never carry the same letter.
   */
  lemma QAtMostOncePerLetter(trial: string, secret: string, i: nat, j: nat)
    requires |trial| == |secret|
    requires i < j < |trial|
    requires Classify(trial, secret)[i] == Q && Classify(trial, secret)[j] == Q
    ensures trial[i] != trial[j]
  {
    assert trial[..j][i] == trial[i];
  }

  /**
   * A letter of the secret tagged `NOK` has already occurred earlier in the
   * trial: a repeated letter is rejected even when the secret repeats it too.
   */
  lemma PresentLetterNOKIsRepeat(trial: string, secret: string, i: nat)
    requires |trial| == |secret|
    requires i < |trial|
    requires Classify(trial, secret)[i] == NOK && trial[i] in secret
    ensures trial[i] in trial[..i]
    ensures trial[i] != secret[i]
  {
  }

  /**
   * No multiplicity bound: against the secret "ba", the trial "aa" gets a `Q`
   * and an `OK` for its letter 'a', which the secret holds only once.
   */
  lemma NoMultiplicityBound()
    ensures Classify("aa", "ba") == [Q, OK]
  {
    var r := Classify("aa", "ba");
    assert "aa"[..0] == [];
    assert r[0] == Q;
    assert r[1] == OK;
  }
}
