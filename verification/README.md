# Wordlike game logic in Dafny

A model of the game logic of Wordlike, a Wordle-style guessing game. A secret word is drawn from
a vocabulary of words of one length. The player submits trials. Each trial is shown letter by
letter as right (`OK`), misplaced (`Q`) or wrong (`NOK`). The sidebar shows how many vocabulary
words are still eligible. On request, and only when at least five are eligible, it shows five
of them sampled at random. A separate script prepares the vocabulary offline.

The user interface keeps its state in framework-managed session storage. Here that state is an
explicit value, `Game.State`, and every operation is a pure function of its inputs.

| file | module | what it models |
|---|---|---|
| `words.dfy` | `Words` | shared helpers: the letter set of a word, duplicate-freedom, common length |
| `classifier.dfy` | `Classifier` | the per-letter tags of the trials recap |
| `hints.dfy` | `Hints` | the eligible-word filter built from three clues |
| `game.dfy` | `Game` | the trial form as a state machine, the recap, the sanity check |
| `vocabulary.dfy` | `Vocabulary` | the offline word selection, de-duplication and length column |

Facts the model states as the code behaves:

- **Letter tags.** A position is `OK` exactly when the trial letter equals the secret's letter
  there. It is `Q` when the letter occurs in the secret but not at that position, and does not
  occur earlier in the trial. Every other position is `NOK`. This rule has no per-letter
  multiplicity bound. Against the secret `ba`, the trial `aa` is tagged `[Q, OK]`.
- **Hints.** A word is eligible exactly when it repeats every exact hit of every trial and
  contains each trial letter exactly when the secret does. The secret is always eligible, so the
  game's sanity assertion cannot fail. One more trial never adds a word to the
  eligible list.
- **Trial limit.** The form stays open while `len(trials) <= max_n_trials`. So, while the limit
  stays put, a game records up to `maxTrials + 1` trials. With a limit of 3, four wrong words are
  recorded before the game is over (`Game.FourTrialsUnderLimitThree`). The limit is read from its
  slider each time the page is drawn, and changing it does not restart the game. Raising it after
  game over reopens the form (`Game.RaisingLimitReopens`).
- **Submission order.** A legal, new word that is not the secret is recorded. Otherwise a
  repeated word is refused first, then an unknown word, and what remains is the secret, which is
  recorded and wins. Legality (`is_legit`) is vocabulary membership, `Game.IsLegit`.

Consequences of those rules worth keeping in mind:

- The tags are not the two-pass duplicate-counting Wordle scoring.
- Eligibility uses three set-based clues. It does not re-score each vocabulary word against the
  trials.
- Refusals do not raise. A repeated word shows a warning (main.py:108) and an unknown word an
  error message (main.py:110). With the form withdrawn nothing can be entered. The trial list
  stays as it was in each case. `Game.Outcome` records these cases as `Duplicate`, `Unknown` or
  `Closed`.

## Model

| member | source | states |
|---|---|---|
| Words.Letters | scripts/make_vocabulary.py:42 | the letters of a word, as `set(w)`: a character is in it iff it occurs in the word, and there are never more of them than the word is long |
| Classifier.TagAt | main.py:126-142 | the tag of one position: `OK` iff the letters agree there; `Q` iff the letter is in the secret, differs from the secret's letter there and does not occur earlier in the trial |
| Classifier.Classify | main.py:117-142 | one tag per trial position; `OK` iff the letters agree there; `Q` iff the letter is in the secret, differs from the secret's letter there and does not occur earlier in the trial; a letter absent from the secret is always `NOK` |
| Classifier.AllOKIffSecret | main.py:126-139 | a trial is tagged all `OK` iff it equals the secret |
| Classifier.SecretIsAllOK | main.py:135-139 | classifying the secret against itself gives all `OK` |
| Classifier.QAtMostOncePerLetter | main.py:126-134 | two `Q` tags of one trial never carry the same letter |
| Classifier.PresentLetterNOKIsRepeat | main.py:126-142 | a secret letter tagged `NOK` is misplaced and already occurred earlier in the trial |
| Classifier.NoMultiplicityBound | main.py:126-139 | the secret `ba` tags the trial `aa` as `[Q, OK]`: two non-`NOK` tags for a letter the secret holds once |
| Hints.RightPositions | main.py:160-168 | per position, the secret's letter is fixed iff some trial hit it there; otherwise the position is the wildcard |
| Hints.GuessedLetters | main.py:174-181 | exactly the distinct trial letters that occur in the secret: every such letter is in it, and each member is a trial letter in the secret |
| Hints.RedLetters | main.py:185-192 | exactly the distinct trial letters that do not occur in the secret: every such letter is in it, and each member is a trial letter absent from the secret |
| Hints.FilterWords | main.py:169-200 | keeps exactly the vocabulary words that fit the fixed positions, contain all guessed letters and none of the red letters |
| Hints.Eligible | main.py:149-200 | eligible words are vocabulary words; with no trials they are the whole vocabulary |
| Hints.AdmitsIffConsistent | main.py:160-200 | the three computed clues admit a word iff it repeats every exact hit and contains each trial letter exactly when the secret does |
| Hints.EligibleExactly | main.py:149-200 | a word is eligible iff it is in the vocabulary and consistent with every trial |
| Hints.SecretEligible | main.py:220-224 | for any trial list the secret is eligible, so the eligible list is never empty |
| Hints.NarrowingMonotone | main.py:160-200 | appending a trial never adds a word to the eligible list |
| Hints.EligibleHonoursTags | main.py:117-200 | every eligible word has each `OK` letter in place, contains each `OK` or `Q` letter, and lacks every letter absent from the secret, which is tagged `NOK` |
| Game.IsLegit | main.py:31-32 | legality is vocabulary membership, so a legal trial has the length every vocabulary word has |
| Game.FormOpen | main.py:71-73 | in a valid game the form is offered iff at most `maxTrials` trials are recorded and the last one is not the secret, since the secret can only be recorded last |
| Game.Init | main.py:25-28 | a new game on a secret from the vocabulary starts with no trials, is valid and offers the form |
| Game.StatusOf | main.py:71-97 | the form is shown iff at most `maxTrials` trials are recorded and the secret is not among them; the win banner iff the secret is recorded; game over otherwise |
| Game.Submit | main.py:71-114 | with the form closed nothing changes; a trial is recorded only if it is legal and new; a repeated word and an unknown word leave the state unchanged; the outcome is `Won` iff this submission recorded the secret; validity is preserved |
| Game.RunPreservesValid | main.py:99-114 | every sequence of submissions keeps the trials legal, duplicate-free and at most `maxTrials + 1`, with the secret only as the last trial |
| Game.GameKeepsInvariant | main.py:71-114 | every game from the start keeps its trials legal, duplicate-free and at most `maxTrials + 1` long |
| Game.ClosedIsTerminal | main.py:71-73 | once the form is withdrawn, no further submission changes the game |
| Game.WinIsTerminal | main.py:91-92 | after the secret is recorded, every further submission leaves the state unchanged and the game stays won |
| Game.FourTrialsUnderLimitThree | main.py:71-73 | with `maxTrials = 3`, four wrong words are all recorded before game over |
| Game.RaisingLimitReopens | main.py:50-52 | a game over at limit 3 with four trials, re-drawn at limit 4, accepts a fifth trial, which no valid state under limit 3 could hold |
| Game.Recap | main.py:117-125 | one row of tags per recorded trial, each as long as the secret |
| Game.WonIffAllOKRow | main.py:91-142 | in a valid state the game is won iff some recap row is all `OK` |
| Game.SecretAlwaysEligible | main.py:220-224 | in every valid game state the secret is among the eligible words |
| Vocabulary.Keep | scripts/make_vocabulary.py:40-42 | a kept word has length within the bounds, and is longer than `minChars`, since its distinct letters never outnumber its letters |
| Vocabulary.Select | scripts/make_vocabulary.py:38-45 | a word is kept iff it is in the input, its length lies within the bounds and it has more than `minChars` distinct letters |
| Vocabulary.SelectedPositions | scripts/make_vocabulary.py:38-45 | the selection keeps the input order: its words sit in the input at strictly increasing positions, and every position whose word meets the predicate is among them |
| Vocabulary.FirstOccurrencesAreDistinct | scripts/make_vocabulary.py:46-47 | rows pointing at first occurrences in increasing order never repeat a word |
| Vocabulary.Tabulate | scripts/make_vocabulary.py:46-49 | exactly one row per first occurrence, in input order, with that position in the filtered list as index; no word twice; every input word has a row; each length equals its word's length |
| Vocabulary.Build | scripts/make_vocabulary.py:38-49 | every row's length lies within the bounds and equals its word's length; every row has more than `minChars` distinct letters; rows come from the input; every input word meeting the predicate has a row; no word twice; each row's index is the first occurrence of its word in the selected list, indices increase, and every first occurrence has a row |
| Vocabulary.WordsOfLength | main.py:20-22 | the game vocabulary holds exactly the table words whose length column is the chosen length |
| Vocabulary.VocabularyOfOneLength | main.py:22 | with a correct length column, every game vocabulary word has the chosen length, which is what the game requires of its vocabulary |

## Left out

- User interface: page setup, sidebar widgets, forms, colours, balloons and the cheat button.
  The same goes for `get_empty_trials_table` (main.py:35-40) and the rerun mechanics. The
  session store becomes the explicit `Game.State`.
- Assembling a trial from one-letter text fields and lower-casing it (main.py:75-90). A trial is
  the lower-case word it produces. Case folding is not modelled: vocabulary words and trials are
  lower case, and the upper-case display of the recap is dropped.
- CSV and JSON reading and writing, `@st.cache_data`, and the per-language loop of the script.
  The raw word list is a parameter.
- Game.RunPreservesValid: holds the settings fixed for a whole game, so the bound of
  `maxTrials + 1` trials is for one limit. The page re-reads the trials slider on every redraw
  and restarts only when the word length changes or New game is pressed (main.py:47-57). After
  a limit change the game can reopen or hold more than `maxTrials + 1` trials, as
  `Game.RaisingLimitReopens` shows.
  `Game.GameKeepsInvariant` carries the same restriction.
- Random choice of the secret (main.py:64) and of the shown hints (main.py:213-216). The secret
  is a parameter and must be in the vocabulary.
- The "chance" statistic and its percentage display (main.py:205-211). It uses floating point.
- Classifier.Classify: requires the trial to be as long as the secret. The recap pairs each
  letter with one of `len(secret)` columns, and every recorded trial has that length.
- Hints.Eligible: requires every trial to be as long as the secret, which every valid game state
  guarantees. The wildcard `*` of the exact-hit clue is a separate `Slot.Wild` value, not a
  character. The distinct-letter lists become sets, because the filter only tests membership.
