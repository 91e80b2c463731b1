/**
 * One game as an explicit state: the secret word and the ordered list of
 * recorded trials, with a single `Submit` transition for one form entry.
 *
 * A trial form is offered while at most `maxTrials` trials are recorded and the
 * secret has not been found. The guard is `<=`, so a game can record
 * `maxTrials + 1` trials before it is over.
 */
module Game {
  import opened Words
  import Classifier
  import Hints

  /** The game's options: the vocabulary of the chosen word length and the trial limit. */
  datatype Settings = Settings(vocabulary: seq<string>, maxTrials: nat)

  /** The secret word and the trials recorded so far, oldest first. */
  datatype State = State(secret: string, trials: seq<string>)

  /** What one form entry leads to. */
  datatype Outcome =
    | Accepted   // a legal, new, wrong word: recorded
    | Won        // the secret: recorded, the game is won
    | Duplicate  // already tried: nothing changes
    | Unknown    // not in the vocabulary: nothing changes
    | Closed     // no form is offered any more: nothing changes

  datatype Step = Step(outcome: Outcome, next: State)

  /** What the page shows in place of (or as) the form. */
  datatype Status = Playing | Win | GameOver

  /** A word is legal when it belongs to the vocabulary. */
  predicate IsLegit(trial: string, vocabulary: seq<string>)
    ensures forall n: nat :: IsLegit(trial, vocabulary) && AllOfLength(vocabulary, n) ==> |trial| == n
  {
    trial in vocabulary
  }

  /** The guard under which the trial form is offered. */
  predicate FormOpen(settings: Settings, state: State)
    ensures Valid(settings, state) ==>
      (FormOpen(settings, state) <==>
        |state.trials| <= settings.maxTrials &&
        (|state.trials| == 0 || state.trials[|state.trials| - 1] != state.secret))
  {
    |state.trials| <= settings.maxTrials && state.secret !in state.trials
  }

  /** The game's invariant, which every reachable state keeps. */
  predicate Valid(settings: Settings, state: State) {
    && state.secret in settings.vocabulary
    && AllOfLength(settings.vocabulary, |state.secret|)
    && (forall j :: 0 <= j < |state.trials| ==> state.trials[j] in settings.vocabulary)
    && NoDuplicates(state.trials)
    && |state.trials| <= settings.maxTrials + 1
    && (forall j :: 0 <= j < |state.trials| - 1 ==> state.trials[j] != state.secret)
  }

  /** A fresh game on a secret drawn from the vocabulary. */
  function Init(settings: Settings, secret: string): (state: State)
    requires secret in settings.vocabulary
    requires AllOfLength(settings.vocabulary, |secret|)
    ensures Valid(settings, state)
    ensures state.secret == secret && FormOpen(settings, state)
  {
    State(secret, [])
  }

  /** The page state: the form, the win banner, or game over. */
  function StatusOf(settings: Settings, state: State): (s: Status)
    ensures s == Playing <==> FormOpen(settings, state)
    ensures s == Win <==> state.secret in state.trials
    ensures s == GameOver <==> state.secret !in state.trials && |state.trials| > settings.maxTrials
  {
    if FormOpen(settings, state) then Playing
    else if state.secret in state.trials then Win
    else GameOver
  }

  /** One submission of the trial form, with the game's branches in their order. */
  function Submit(settings: Settings, state: State, trial: string): (r: Step)
    ensures r.next.secret == state.secret
    ensures r.outcome == Closed <==> !FormOpen(settings, state)
    ensures r.outcome == Accepted || r.outcome == Won ==>
      r.next.trials == state.trials + [trial] && IsLegit(trial, settings.vocabulary) && trial !in state.trials
    ensures r.outcome != Accepted && r.outcome != Won ==> r.next == state
    ensures r.outcome == Duplicate <==> FormOpen(settings, state) && trial in state.trials
    ensures r.outcome == Unknown <==> FormOpen(settings, state) && trial !in state.trials && !IsLegit(trial, settings.vocabulary)
    ensures r.outcome == Won <==> state.secret !in state.trials && state.secret in r.next.trials
    ensures Valid(settings, state) ==> Valid(settings, r.next)
  {
    if !FormOpen(settings, state) then Step(Closed, state)
    else if IsLegit(trial, settings.vocabulary) && trial !in state.trials && trial != state.secret then
      Step(Accepted, State(state.secret, state.trials + [trial]))
    else if trial in state.trials then Step(Duplicate, state)
    else if !IsLegit(trial, settings.vocabulary) then Step(Unknown, state)
    else Step(Won, State(state.secret, state.trials + [trial]))
  }

  /** The state after a sequence of form entries. */
  function Run(settings: Settings, state: State, inputs: seq<string>): State
    decreases |inputs|
  {
    if |inputs| == 0 then state
    else Run(settings, Submit(settings, state, inputs[0]).next, inputs[1..])
  }

  /** Every state reachable from a valid one is valid. */
  lemma {:induction false} RunPreservesValid(settings: Settings, state: State, inputs: seq<string>)
    requires Valid(settings, state)
    ensures Valid(settings, Run(settings, state, inputs))
    ensures |Run(settings, state, inputs).trials| <= settings.maxTrials + 1
    decreases |inputs|
  {
    if |inputs| > 0 {
      RunPreservesValid(settings, Submit(settings, state, inputs[0]).next, inputs[1..]);
    }
  }

  /** Every game played from the start keeps its trials legal, distinct and at most `maxTrials + 1`. */
  lemma GameKeepsInvariant(settings: Settings, secret: string, inputs: seq<string>)
    requires secret in settings.vocabulary
    requires AllOfLength(settings.vocabulary, |secret|)
    ensures var s := Run(settings, Init(settings, secret), inputs);
      && NoDuplicates(s.trials)
      && (forall j :: 0 <= j < |s.trials| ==> IsLegit(s.trials[j], settings.vocabulary))
      && |s.trials| <= settings.maxTrials + 1
  {
    RunPreservesValid(settings, Init(settings, secret), inputs);
  }

  /** Once the trial form is withdrawn, no entry changes the game again. */
  lemma {:induction false} ClosedIsTerminal(settings: Settings, state: State, inputs: seq<string>)
    requires !FormOpen(settings, state)
    ensures Run(settings, state, inputs) == state
    decreases |inputs|
  {
    if |inputs| > 0 {
      ClosedIsTerminal(settings, Submit(settings, state, inputs[0]).next, inputs[1..]);
    }
  }

  /** Winning is terminal: after the secret is recorded nothing more is accepted. */
  lemma WinIsTerminal(settings: Settings, state: State, inputs: seq<string>)
    requires state.secret in state.trials
    ensures Run(settings, state, inputs) == state
    ensures StatusOf(settings, Run(settings, state, inputs)) == Win
  {
    ClosedIsTerminal(settings, state, inputs);
  }

  /**
   * The `<=` guard in action: with a limit of 3 trials, four wrong words are
   * all recorded before the game is over.
   */
  lemma FourTrialsUnderLimitThree()
    ensures var settings := Settings(["abcd", "bcde", "cdef", "defg", "efgh"], 3);
      var s := Run(settings, Init(settings, "efgh"), ["abcd", "bcde", "cdef", "defg"]);
      && s.trials == ["abcd", "bcde", "cdef", "defg"]
      && |s.trials| == settings.maxTrials + 1
      && StatusOf(settings, s) == GameOver
  {
  }

  /**
   * The limit is whatever the trials slider shows when the page is drawn: a
   * game over at limit 3 with four trials reopens at limit 4 and records a
   * fifth, which already exceeds `maxTrials + 1` for a limit of 3 or less.
   */
  lemma RaisingLimitReopens()
    ensures var v := ["abcd", "bcde", "cdef", "defg", "efgh", "fghi"];
      var over := State("fghi", ["abcd", "bcde", "cdef", "defg"]);
      var r := Submit(Settings(v, 4), over, "efgh");
      && StatusOf(Settings(v, 3), over) == GameOver
      && r.outcome == Accepted
      && |r.next.trials| == 5
      && !Valid(Settings(v, 3), r.next)
  {
  }

  /** The recap of every trial's tags, one row per trial. */
  function Recap(state: State): (rows: seq<seq<Classifier.Tag>>)
    requires AllOfLength(state.trials, |state.secret|)
    ensures |rows| == |state.trials|
    ensures forall j :: 0 <= j < |rows| ==> |rows[j]| == |state.secret|
  {
    seq(|state.trials|, j requires 0 <= j < |state.trials| => Classifier.Classify(state.trials[j], state.secret))
  }

  /** The game is won exactly when some row of the recap is all `OK`. */
  lemma WonIffAllOKRow(settings: Settings, state: State)
    requires Valid(settings, state)
    ensures AllOfLength(state.trials, |state.secret|)
    ensures StatusOf(settings, state) == Win <==>
      exists j :: 0 <= j < |state.trials| && Classifier.AllOK(Recap(state)[j])
  {
    var rows := Recap(state);
    forall j | 0 <= j < |state.trials|
      ensures Classifier.AllOK(rows[j]) <==> state.trials[j] == state.secret
    {
      Classifier.AllOKIffSecret(state.trials[j], state.secret);
    }
  }

  /** In every valid state the secret is among the eligible words: the sanity check holds. */
  lemma SecretAlwaysEligible(settings: Settings, state: State)
    requires Valid(settings, state)
    ensures AllOfLength(state.trials, |state.secret|)
    ensures state.secret in Hints.Eligible(settings.vocabulary, state.secret, state.trials)
  {
    Hints.SecretEligible(settings.vocabulary, state.secret, state.trials);
  }
}
