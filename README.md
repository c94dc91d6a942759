# Guess evaluation of the word-guessing game

This project models the part of `flipRow` in `script.js` that scores one
guess against the secret word. That code does three things:

- it fills the per-tile results `rowResults` (`correct`, `present` or `absent`);
- it consumes slots of `secretArray`, a copy of the secret, by setting them to `null`;
- it builds `keyColors`, the per-letter status of the row used to colour the keyboard.

The code runs two passes over the positions `0 .. wordLength - 1`:

1. Every exact positional match becomes `correct`, records `correct` for its
   letter and nulls its own slot of the secret.
2. Every position not yet marked becomes `present` if the letter still occurs
   among the unconsumed slots (`includes`), and then the first such slot is
   nulled (`indexOf`). Otherwise the position becomes `absent`. The writes to
   `keyColors` are guarded: `present` never overwrites `correct`, and `absent`
   is written only for a letter that has no entry yet.

The project has three files:

- `wrappers.dfy` defines `Option`. `None` plays the role of JavaScript's `null` in `secretArray`.
- `wordle_rules.dfy` (module `WordleRules`) states the rule declaratively, by
  counting letters, with no loops. Call a position *matched* when the guess and
  the secret agree there. For each letter, the unmatched copies in the guess
  compete left to right for the unmatched copies in the secret. The k-th such
  copy in the guess is `Present` exactly when the secret has more than k
  unmatched copies of that letter (`ScoreAt`, `Score`). `Remaining` gives the
  exact contents of `secretArray` at every point of the second pass. The
  properties of the rule are lemmas about these functions.
- `flip_row.dfy` (module `FlipRow`) is the imperative model. `secretArray` and
  the results are arrays that the two `for` loops update in place. `keyColors`
  is a `map` that the loops reassign. The methods are proved against the
  functions of `WordleRules`: after both passes the results are `Score`, the
  secret copy is `Remaining`, and the key colours are the row's key status.

Three things about how the source is represented:

- `guessArray` (`guess.split('')`) is only ever read, so the model reads `guess` directly.
- A JavaScript string is modelled as a sequence of `char`.
- The JavaScript `rowResults` array starts with no entries. That is modelled as
  an array of `Option<LetterResult>` that starts as all `None`; the test
  `if (rowResults[i])` becomes `results[i].Some?`.

## Model

| member | source | states |
|---|---|---|
| FlipRow.Evaluate | script.js:5-37 | Scoring a guess and a secret of length `wordLength` gives the results `Score(guess, secret)`, with exactly `wordLength` entries. The secret copy ends as `Remaining` after every position. `keyColors` is exactly the row's key status (`IsKeyStatus`). The number of null slots equals the number of Correct positions plus the number of Present ones. |
| FlipRow.MarkExactMatches | script.js:12-19 | After the first pass, exactly the matched positions are Correct and every other result is unset. Exactly the matched slots of the secret are null. Every letter with an entry in `keyColors` earned that status at some position. |
| FlipRow.MarkPosition | script.js:23-36 | One step of the second pass moves the secret copy from `Remaining(i)` to `Remaining(i + 1)`. It gives position i its rule result and leaves every other result alone. It keeps `keyColors` consistent with the results marked so far. |
| FlipRow.MarkRemaining | script.js:21-37 | After the second pass every position has the result `ScoreAt` gives. The secret copy is `Remaining` after all positions. `keyColors` covers every marked position with at least its strength. |
| FlipRow.SecondPassStep | script.js:25-35 | At an unmatched position, if a copy of the letter is left, the rule result is Present and exactly the first copy (`indexOf`) is nulled. If no copy is left, the result is Absent and the secret copy is unchanged. |
| FlipRow.RecordPresent | script.js:27-29 | Recording `present` gives the letter the stronger of its old status and Present. The letter gets an entry if it had none, every other entry is unchanged, and no entry is lowered. |
| FlipRow.RecordAbsent | script.js:33-35 | Recording `absent` adds Absent only for a letter without an entry, and every existing entry is unchanged. This is the stronger of the old status and Absent. |
| FlipRow.KeysCoverMark | script.js:27-35 | Giving an unmarked position a result and updating its letter's entry by the stronger-of rule keeps two facts: each entry is the result of some position holding that letter, and each marked position is covered with at least its strength. |
| FlipRow.KeysCoverComplete | script.js:13-36 | Once every position is marked, the collected map has an entry for exactly the letters of the guess, and each entry is the strongest result over the positions holding that letter. |
| WordleRules.Stronger | script.js:27-35 | The stronger of two results is one of them and ranks at least as high as both. The order is Correct above Present above Absent. |
| WordleRules.Score | script.js:13-36 | The row has one result per position. A position is Correct if and only if the guessed letter equals the secret's letter there. A guess equal to the secret is Correct everywhere. |
| WordleRules.Remaining | script.js:17-30 | Every slot of the secret copy is either null or still holds the secret's own letter. |
| WordleRules.IndexOf | script.js:30 | Returns -1 exactly when the value is absent. Otherwise it returns an index holding the value, and no earlier index holds it. |
| WordleRules.RemainingAfterExactPass | script.js:13-19 | When the second pass starts, a slot is null exactly when its position is an exact match. |
| WordleRules.PresentIffAvailable | script.js:25-32 | At an unmatched position, the rule gives Present if and only if an unconsumed copy of the letter remains. It gives Absent if and only if none remains. |
| WordleRules.SlotStep | script.js:30 | Visiting a position changes a slot only when that position is unmatched and the slot holds its letter's next unmatched copy. That slot becomes null. |
| WordleRules.RemainingStep | script.js:23-36 | A matched position and an Absent position consume nothing. A Present position nulls exactly the first unconsumed copy of its letter, which exists, and leaves every other slot unchanged. |
| WordleRules.CreditedIsMin | script.js:17-30 | No double crediting: for every letter, the number of positions holding it that are Correct or Present is the smaller of its occurrence counts in the guess and in the secret. |
| WordleRules.PresentBeforeAbsent | script.js:22-35 | Among positions holding the same letter, no Absent position comes before a Present one. |
| WordleRules.UsedSlotsPrefix | script.js:17-30 | At any point of the second pass, the null slots number the Correct positions of the whole row plus the Present positions already visited. |
| WordleRules.UsedSlots | script.js:17-30 | At the end, the null slots number exactly the Correct plus Present positions. |
| WordleRules.KeyStatusUnique | script.js:7-35 | The key status of a row is determined by the guess and its results: two maps that both meet it are equal. |
| WordleRules.ScoreDoubledLetter | script.js:13-36 | Guess `ALLEY` against `APPLE` scores Correct, Present, Absent, Present, Absent. The second `L` finds no copy left. |
| WordleRules.ScoreExactMatchFirst | script.js:13-36 | Guess `EERIE` against `CRANE` scores Absent, Absent, Present, Absent, Correct. The exact match keeps the only `E`, so the earlier `E`s are Absent. |

## Left out

- The tile lookup through `document.querySelector` (script.js:4) is not modelled. It only finds the elements to colour.
- The flip animation (script.js:39-57) is not modelled. Its `setTimeout` chains, `classList` changes and stagger delays only affect presentation.
- `checkGameEnd` and `updateKeyColors` (script.js:60-63) are not modelled. Their bodies are not among the modelled files, so the model states no win/loss rule and no property of the keyboard across rows. The only key-status guarantee it states is the within-row one on `keyColors`.
- The turn state machine (adding and deleting letters, row and tile counters, the number of rows) is not part of this model. It does not appear in the modelled code.
- The word lists and the random choice of the secret word are left out. The secret is a parameter.
- `service-worker.js` is left out. It is Cache Storage and `fetch` plumbing, with no logic of its own.
- FlipRow.Evaluate: inputs whose lengths differ from `wordLength` are excluded by its precondition. The loops read both words at every index below `wordLength`, and a shorter word would make JavaScript compare with `undefined`.
- A JavaScript string is a sequence of UTF-16 code units, and `split('')` cuts a character outside the Basic Multilingual Plane into two halves. The model treats each `char` as one letter.
- `keyColors` is a plain object keyed by one-letter strings. It is modelled as a map from `char`.
