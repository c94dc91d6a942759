/**
 * The evaluation part of `flipRow` (script.js): two passes over the guess that
 * fill the per-position results, use up slots of a copy of the secret, and
 * collect the per-letter key colours of the row.
 */
module FlipRow {
  import opened Wrappers
  import opened WordleRules

  /**
   * Record Present for letter c unless it is already Correct (script.js:27-29):
   * the entry becomes the stronger of its old value and Present, and no entry
   * is lowered.
   */
  function RecordPresent(keys: map<char, LetterResult>, c: char): (r: map<char, LetterResult>)
    ensures r.Keys == keys.Keys + {c}
    ensures r[c] == if c in keys then Stronger(keys[c], Present) else Present
    ensures forall d :: d in keys && d != c ==> r[d] == keys[d]
    ensures forall d :: d in keys ==> Rank(keys[d]) <= Rank(r[d])
  {
    if c !in keys || keys[c] != Correct then keys[c := Present] else keys
  }

  /**
   * Record Absent for letter c only when it has no entry yet (script.js:33-35):
   * the entry becomes the stronger of its old value and Absent, and no entry
   * is lowered.
   */
  function RecordAbsent(keys: map<char, LetterResult>, c: char): (r: map<char, LetterResult>)
    ensures r.Keys == keys.Keys + {c}
    ensures r[c] == if c in keys then Stronger(keys[c], Absent) else Absent
    ensures forall d :: d in keys ==> r[d] == keys[d]
  {
    if c !in keys then keys[c := Absent] else keys
  }

  /**
   * The key colours collected so far: every position that has a result has its
   * letter in the map with at least that strength, and every entry is the
   * result of some position holding its letter.
   */
  ghost predicate KeysCover(guess: seq<char>, marks: seq<Option<LetterResult>>, keys: map<char, LetterResult>)
    requires |marks| == |guess|
  {
    && (forall c :: c in keys ==> exists j :: 0 <= j < |guess| && guess[j] == c && marks[j] == Some(keys[c]))
    && (forall j :: 0 <= j < |guess| && marks[j].Some? ==> guess[j] in keys && Rank(marks[j].value) <= Rank(keys[guess[j]]))
  }

  /** Giving unmarked position i the result r and updating its letter's entry by the max rule keeps KeysCover. */
  lemma KeysCoverMark(guess: seq<char>, marks: seq<Option<LetterResult>>, keys: map<char, LetterResult>,
                      i: nat, r: LetterResult, keys': map<char, LetterResult>)
    requires |marks| == |guess| && i < |guess| && marks[i] == None
    requires KeysCover(guess, marks, keys)
    requires keys'.Keys == keys.Keys + {guess[i]}
    requires forall d :: d in keys && d != guess[i] ==> keys'[d] == keys[d]
    requires keys'[guess[i]] == if guess[i] in keys then Stronger(keys[guess[i]], r) else r
    ensures KeysCover(guess, marks[i := Some(r)], keys')
  {
    var marks' := marks[i := Some(r)];
    forall c | c in keys'
      ensures exists j :: 0 <= j < |guess| && guess[j] == c && marks'[j] == Some(keys'[c])
    {
      if c == guess[i] && keys'[c] == r {
        assert marks'[i] == Some(keys'[c]);
      } else {
        var j :| 0 <= j < |guess| && guess[j] == c && marks[j] == Some(keys[c]);
        assert marks'[j] == Some(keys'[c]);
      }
    }
  }

  /** Once every position has a result, KeysCover is the row's key status. */
  lemma KeysCoverComplete(guess: seq<char>, marks: seq<Option<LetterResult>>, results: seq<LetterResult>,
                          keys: map<char, LetterResult>)
    requires |marks| == |guess| && |results| == |guess|
    requires forall j :: 0 <= j < |guess| ==> marks[j] == Some(results[j])
    requires KeysCover(guess, marks, keys)
    ensures IsKeyStatus(guess, results, keys)
  {
    forall c | c in guess
      ensures c in keys
    {
      var j :| 0 <= j < |guess| && guess[j] == c;
      assert marks[j].Some?;
    }
  }

  /**
   * The results during the second pass: positions before i and exact matches
   * have their result, the others none yet.
   */
  ghost function MarksDuring(guess: string, secretWord: string, i: nat): (r: seq<Option<LetterResult>>)
    requires |guess| == |secretWord| && i <= |guess|
    ensures |r| == |guess|
  {
    seq(|guess|, j requires 0 <= j < |guess| =>
      if j < i || guess[j] == secretWord[j] then Some(ScoreAt(guess, secretWord, j)) else None)
  }

  /** Visiting position i of the second pass gives it its result and changes nothing else. */
  lemma MarksStep(guess: string, secretWord: string, i: nat)
    requires |guess| == |secretWord| && i < |guess|
    ensures MarksDuring(guess, secretWord, i)[i] == if guess[i] == secretWord[i] then Some(Correct) else None
    ensures guess[i] == secretWord[i] ==> MarksDuring(guess, secretWord, i + 1) == MarksDuring(guess, secretWord, i)
    ensures MarksDuring(guess, secretWord, i + 1)
         == MarksDuring(guess, secretWord, i)[i := Some(ScoreAt(guess, secretWord, i))]
  {
  }

  /** The results after the first i positions of the first pass. */
  ghost function ExactMarks(guess: string, secretWord: string, i: nat): (r: seq<Option<LetterResult>>)
    requires |guess| == |secretWord| && i <= |guess|
    ensures |r| == |guess|
  {
    seq(|guess|, j requires 0 <= j < |guess| =>
      if j < i && guess[j] == secretWord[j] then Some(Correct) else None)
  }

  /** The copy of the secret after the first i positions of the first pass. */
  ghost function ExactSlots(guess: string, secretWord: string, i: nat): (r: seq<Option<char>>)
    requires |guess| == |secretWord| && i <= |guess|
    ensures |r| == |secretWord|
  {
    seq(|secretWord|, j requires 0 <= j < |secretWord| =>
      if j < i && guess[j] == secretWord[j] then None else Some(secretWord[j]))
  }

  /** One step of the first pass touches only position i, and the finished pass leaves the second pass's start state. */
  lemma ExactStep(guess: string, secretWord: string, i: nat)
    requires |guess| == |secretWord| && i < |guess|
    ensures ExactSlots(guess, secretWord, i)[i] == Some(secretWord[i])
    ensures guess[i] == secretWord[i] ==>
      && ExactMarks(guess, secretWord, i + 1) == ExactMarks(guess, secretWord, i)[i := Some(Correct)]
      && ExactSlots(guess, secretWord, i + 1) == ExactSlots(guess, secretWord, i)[i := None]
    ensures guess[i] != secretWord[i] ==>
      && ExactMarks(guess, secretWord, i + 1) == ExactMarks(guess, secretWord, i)
      && ExactSlots(guess, secretWord, i + 1) == ExactSlots(guess, secretWord, i)
  {
  }

  lemma ExactPassDone(guess: string, secretWord: string)
    requires |guess| == |secretWord|
    ensures ExactMarks(guess, secretWord, |guess|) == MarksDuring(guess, secretWord, 0)
    ensures ExactSlots(guess, secretWord, |guess|) == Remaining(guess, secretWord, 0)
  {
    forall k | 0 <= k < |guess|
      ensures ExactSlots(guess, secretWord, |guess|)[k] == Remaining(guess, secretWord, 0)[k]
    {
      RemainingAfterExactPass(guess, secretWord, k);
    }
  }

  /**
   * First pass (script.js:12-19): every exact match becomes Correct, records
   * Correct for its letter and uses up its slot of the secret.
   */
  method MarkExactMatches(guess: string, secretWord: string, secretArray: array<Option<char>>,
                          results: array<Option<LetterResult>>) returns (keyColors: map<char, LetterResult>)
    requires |guess| == |secretWord| == secretArray.Length == results.Length
    requires forall k :: 0 <= k < secretArray.Length ==> secretArray[k] == Some(secretWord[k]) && results[k] == None
    modifies secretArray, results
    ensures secretArray[..] == Remaining(guess, secretWord, 0)
    ensures results[..] == MarksDuring(guess, secretWord, 0)
    ensures KeysCover(guess, results[..], keyColors)
  {
    var wordLength := |guess|;
    keyColors := map[];
    assert results[..] == ExactMarks(guess, secretWord, 0);
    assert secretArray[..] == ExactSlots(guess, secretWord, 0);
    for i := 0 to wordLength
      invariant results[..] == ExactMarks(guess, secretWord, i)
      invariant secretArray[..] == ExactSlots(guess, secretWord, i)
      invariant KeysCover(guess, results[..], keyColors)
    {
      ExactStep(guess, secretWord, i);
      if secretArray[i] == Some(guess[i]) {
        KeysCoverMark(guess, results[..], keyColors, i, Correct, keyColors[guess[i] := Correct]);
        results[i] := Some(Correct);
        keyColors := keyColors[guess[i] := Correct];
        secretArray[i] := None;
      }
    }
    ExactPassDone(guess, secretWord);
  }

  /**
   * What one step of the second pass at an unmatched position i does to the
   * copy of the secret: with a copy of the letter left, the result is Present
   * and the first such copy is used up; without one, Absent and nothing changes.
   */
  lemma SecondPassStep(guess: string, secretWord: string, i: nat)
    requires |guess| == |secretWord| && i < |guess| && guess[i] != secretWord[i]
    ensures Some(guess[i]) in Remaining(guess, secretWord, i) ==>
      && ScoreAt(guess, secretWord, i) == Present
      && Remaining(guess, secretWord, i + 1)
         == Remaining(guess, secretWord, i)[IndexOf(Remaining(guess, secretWord, i), Some(guess[i])) := None]
    ensures Some(guess[i]) !in Remaining(guess, secretWord, i) ==>
      && ScoreAt(guess, secretWord, i) == Absent
      && Remaining(guess, secretWord, i + 1) == Remaining(guess, secretWord, i)
  {
    RemainingStep(guess, secretWord, i);
    PresentIffAvailable(guess, secretWord, i);
  }

  /**
   * One position of the second pass (script.js:22-36): an exact match is left
   * alone; otherwise the position becomes Present when a copy of its letter is
   * still available, using up the first such copy (`includes` and `indexOf`),
   * and Absent otherwise, and its letter's key colour is updated without being
   * lowered.
   */
  method MarkPosition(guess: string, secretWord: string, secretArray: array<Option<char>>,
                      results: array<Option<LetterResult>>, keys: map<char, LetterResult>, i: nat)
    returns (keyColors: map<char, LetterResult>)
    requires |guess| == |secretWord| == secretArray.Length == results.Length && i < |guess|
    requires secretArray[..] == Remaining(guess, secretWord, i)
    requires results[..] == MarksDuring(guess, secretWord, i)
    requires KeysCover(guess, results[..], keys)
    modifies secretArray, results
    ensures secretArray[..] == Remaining(guess, secretWord, i + 1)
    ensures results[..] == MarksDuring(guess, secretWord, i + 1)
    ensures KeysCover(guess, results[..], keyColors)
  {
    keyColors := keys;
    MarksStep(guess, secretWord, i);
    if results[i].Some? {
      assert guess[i] == secretWord[i];
      RemainingStep(guess, secretWord, i);
      return;
    }
    var c := guess[i];
    ghost var slots, marks := secretArray[..], results[..];
    SecondPassStep(guess, secretWord, i);
    if Some(c) in secretArray[..] {
      KeysCoverMark(guess, marks, keyColors, i, Present, RecordPresent(keyColors, c));
      results[i] := Some(Present);
      assert results[..] == marks[i := Some(Present)];
      keyColors := RecordPresent(keyColors, c);
      var used := IndexOf(secretArray[..], Some(c));
      secretArray[used] := None;
      assert secretArray[..] == slots[used := None];
    } else {
      KeysCoverMark(guess, marks, keyColors, i, Absent, RecordAbsent(keyColors, c));
      results[i] := Some(Absent);
      assert results[..] == marks[i := Some(Absent)];
      keyColors := RecordAbsent(keyColors, c);
    }
  }

  /** Second pass (script.js:21-37): every position in order, as MarkPosition describes. */
  method MarkRemaining(guess: string, secretWord: string, secretArray: array<Option<char>>,
                       results: array<Option<LetterResult>>, keys: map<char, LetterResult>)
    returns (keyColors: map<char, LetterResult>)
    requires |guess| == |secretWord| == secretArray.Length == results.Length
    requires secretArray[..] == Remaining(guess, secretWord, 0)
    requires results[..] == MarksDuring(guess, secretWord, 0)
    requires KeysCover(guess, results[..], keys)
    modifies secretArray, results
    ensures secretArray[..] == Remaining(guess, secretWord, |guess|)
    ensures forall k :: 0 <= k < results.Length ==> results[k] == Some(ScoreAt(guess, secretWord, k))
    ensures KeysCover(guess, results[..], keyColors)
  {
    var wordLength := |guess|;
    keyColors := keys;
    for i := 0 to wordLength
      invariant secretArray[..] == Remaining(guess, secretWord, i)
      invariant results[..] == MarksDuring(guess, secretWord, i)
      invariant KeysCover(guess, results[..], keyColors)
    {
      keyColors := MarkPosition(guess, secretWord, secretArray, results, keyColors, i);
    }
  }

  /**
   * Scores `guess` against `secretWord` (script.js:5-37). Returns the result of
   * every position, the key colours of the row, and the secret with its
   * used-up slots set to None (`secretArray` after both passes).
   */
  method Evaluate(guess: string, secretWord: string, wordLength: nat)
    returns (rowResults: seq<LetterResult>, keyColors: map<char, LetterResult>, secretLeft: seq<Option<char>>)
    requires |guess| == wordLength && |secretWord| == wordLength
    ensures rowResults == Score(guess, secretWord)
    ensures |rowResults| == wordLength
    ensures secretLeft == Remaining(guess, secretWord, wordLength)
    ensures IsKeyStatus(guess, rowResults, keyColors)
    ensures Count(secretLeft, None) == Count(rowResults, Correct) + Count(rowResults, Present)
  {
    var secretArray := new Option<char>[wordLength](k requires 0 <= k < wordLength => Some(secretWord[k]));
    var results := new Option<LetterResult>[wordLength](_ => None);
    keyColors := MarkExactMatches(guess, secretWord, secretArray, results);
    keyColors := MarkRemaining(guess, secretWord, secretArray, results, keyColors);
    rowResults := seq(wordLength, j requires 0 <= j < wordLength && results[j].Some? reads results => results[j].value);
    assert rowResults == Score(guess, secretWord);
    secretLeft := secretArray[..];
    KeysCoverComplete(guess, results[..], rowResults, keyColors);
    UsedSlots(guess, secretWord);
  }
}
