/**
 * The scoring rule of one guess against the secret word, stated declaratively
 * by counting letters, independently of the two loops that compute it.
 *
 * A position whose guessed letter equals the secret's letter there is
 * "matched". For a letter c, the unmatched copies of c in the guess compete,
 * left to right, for the unmatched copies of c in the secret: the k-th
 * unmatched copy in the guess (counting from 0) is Present exactly when the
 * secret has more than k unmatched copies of c.
 */
module WordleRules {
  import opened Wrappers

  datatype LetterResult = Correct | Present | Absent

  /** Strength of a result: Correct > Present > Absent. */
  function Rank(r: LetterResult): nat
  {
    match r
    case Absent => 0
    case Present => 1
    case Correct => 2
  }

  /** The stronger of two results. */
  function Stronger(a: LetterResult, b: LetterResult): (r: LetterResult)
    ensures r == a || r == b
    ensures Rank(a) <= Rank(r) && Rank(b) <= Rank(r)
  {
    if Rank(a) >= Rank(b) then a else b
  }

  function Min(x: nat, y: nat): nat
  {
    if x <= y then x else y
  }

  /** Number of positions j < i where `a` holds c and `b` holds something else. */
  function Unmatched(a: seq<char>, b: seq<char>, i: nat, c: char): (n: nat)
    requires |a| == |b| && i <= |a|
    ensures n <= i
  {
    if i == 0 then 0
    else Unmatched(a, b, i - 1, c) + (if a[i - 1] == c && a[i - 1] != b[i - 1] then 1 else 0)
  }

  /** Number of positions j < i where both `a` and `b` hold c. */
  function Matched(a: seq<char>, b: seq<char>, i: nat, c: char): nat
    requires |a| == |b| && i <= |a|
  {
    if i == 0 then 0
    else Matched(a, b, i - 1, c) + (if a[i - 1] == c && b[i - 1] == c then 1 else 0)
  }

  /** The result the rule gives to position i of the guess. */
  function ScoreAt(guess: seq<char>, secret: seq<char>, i: nat): LetterResult
    requires |guess| == |secret| && i < |guess|
  {
    if guess[i] == secret[i] then Correct
    else if Unmatched(guess, secret, i, guess[i]) < Unmatched(secret, guess, |secret|, guess[i]) then Present
    else Absent
  }

  /** The result row: one entry per position. */
  function Score(guess: seq<char>, secret: seq<char>): (r: seq<LetterResult>)
    requires |guess| == |secret|
    ensures |r| == |guess|
    ensures forall i :: 0 <= i < |r| ==> (r[i] == Correct <==> guess[i] == secret[i])
    ensures guess == secret ==> forall i :: 0 <= i < |r| ==> r[i] == Correct
  {
    seq(|guess|, i requires 0 <= i < |guess| => ScoreAt(guess, secret, i))
  }

  /**
   * Slot k of the secret after the exact-match pass and the first i positions
   * of the second pass: matched slots are used up, and of the unmatched copies
   * of a letter the earliest ones are used up, one for each unmatched copy of
   * that letter among the first i positions of the guess.
   */
  function RemainingAt(guess: seq<char>, secret: seq<char>, i: nat, k: nat): Option<char>
    requires |guess| == |secret| && i <= |guess| && k < |secret|
  {
    if guess[k] == secret[k] || Unmatched(secret, guess, k, secret[k]) < Unmatched(guess, secret, i, secret[k])
    then None
    else Some(secret[k])
  }

  function Remaining(guess: seq<char>, secret: seq<char>, i: nat): (r: seq<Option<char>>)
    requires |guess| == |secret| && i <= |guess|
    ensures |r| == |secret|
    ensures forall k :: 0 <= k < |r| ==> r[k] == None || r[k] == Some(secret[k])
  {
    seq(|secret|, k requires 0 <= k < |secret| => RemainingAt(guess, secret, i, k))
  }

  /** First index of x in s, or -1 when s does not hold x (JavaScript's `indexOf`). */
  function IndexOf<T(==)>(s: seq<T>, x: T): (k: int)
    ensures -1 <= k < |s|
    ensures k == -1 <==> x !in s
    ensures 0 <= k ==> s[k] == x && forall j :: 0 <= j < k ==> s[j] != x
  {
    if |s| == 0 then -1
    else if s[0] == x then 0
    else
      var r := IndexOf(s[1..], x);
      if r == -1 then -1 else r + 1
  }

  /**
   * The key colours of a row: defined exactly for the letters of the guess,
   * and for each letter the strongest result over the positions holding it.
   */
  ghost predicate IsKeyStatus(guess: seq<char>, results: seq<LetterResult>, keys: map<char, LetterResult>)
    requires |results| == |guess|
  {
    && (forall c :: c in keys <==> c in guess)
    && (forall j :: 0 <= j < |guess| ==> guess[j] in keys && Rank(results[j]) <= Rank(keys[guess[j]]))
    && (forall c :: c in keys ==> exists j :: 0 <= j < |guess| && guess[j] == c && results[j] == keys[c])
  }

  /** Number of positions j < i holding c whose result is Correct or Present. */
  function Credited(guess: seq<char>, results: seq<LetterResult>, i: nat, c: char): nat
    requires |results| == |guess| && i <= |guess|
  {
    if i == 0 then 0
    else Credited(guess, results, i - 1, c) + (if guess[i - 1] == c && results[i - 1] != Absent then 1 else 0)
  }

  /** Number of positions j < n where s holds x. */
  function CountAt<T(==)>(s: seq<T>, x: T, n: nat): nat
    requires n <= |s|
  {
    if n == 0 then 0 else CountAt(s, x, n - 1) + (if s[n - 1] == x then 1 else 0)
  }

  /** Number of positions where s holds x. */
  function Count<T(==)>(s: seq<T>, x: T): nat
  {
    CountAt(s, x, |s|)
  }

  // ---------------------------------------------------------------------------
  // Counting lemmas

  lemma {:induction false} UnmatchedMonotone(a: seq<char>, b: seq<char>, i: nat, j: nat, c: char)
    requires |a| == |b| && i <= j <= |a|
    ensures Unmatched(a, b, i, c) <= Unmatched(a, b, j, c)
    ensures i < j && a[i] == c && a[i] != b[i] ==> Unmatched(a, b, i, c) < Unmatched(a, b, j, c)
    decreases j - i
  {
    if i < j {
      UnmatchedMonotone(a, b, i, j - 1, c);
    }
  }

  /** Every count below the total is reached exactly at some counted position. */
  lemma {:induction false} UnmatchedReaches(a: seq<char>, b: seq<char>, n: nat, c: char, u: nat)
    requires |a| == |b| && n <= |a| && u < Unmatched(a, b, n, c)
    ensures exists k :: 0 <= k < n && a[k] == c && a[k] != b[k] && Unmatched(a, b, k, c) == u
  {
    if u < Unmatched(a, b, n - 1, c) {
      UnmatchedReaches(a, b, n - 1, c, u);
    } else {
      assert a[n - 1] == c && a[n - 1] != b[n - 1] && Unmatched(a, b, n - 1, c) == u;
    }
  }

  /** Two counted positions with the same count are the same position. */
  lemma UnmatchedInjective(a: seq<char>, b: seq<char>, k1: nat, k2: nat, c: char)
    requires |a| == |b| && k1 < |a| && k2 < |a|
    requires a[k1] == c && a[k1] != b[k1] && a[k2] == c && a[k2] != b[k2]
    requires Unmatched(a, b, k1, c) == Unmatched(a, b, k2, c)
    ensures k1 == k2
  {
    if k1 < k2 {
      UnmatchedMonotone(a, b, k1, k2, c);
    } else if k2 < k1 {
      UnmatchedMonotone(a, b, k2, k1, c);
    }
  }

  lemma {:induction false} MatchedSymmetric(a: seq<char>, b: seq<char>, i: nat, c: char)
    requires |a| == |b| && i <= |a|
    ensures Matched(a, b, i, c) == Matched(b, a, i, c)
  {
    if i > 0 {
      MatchedSymmetric(a, b, i - 1, c);
    }
  }

  /** The copies of c in a prefix split into matched and unmatched ones. */
  lemma {:induction false} OccurrencesSplit(a: seq<char>, b: seq<char>, i: nat, c: char)
    requires |a| == |b| && i <= |a|
    ensures multiset(a[..i])[c] == Matched(a, b, i, c) + Unmatched(a, b, i, c)
  {
    if i > 0 {
      OccurrencesSplit(a, b, i - 1, c);
      assert a[..i] == a[..i - 1] + [a[i - 1]];
    }
  }

  /** Counting x in one sequence and y in another agrees when they sit at the same places. */
  lemma {:induction false} CountCorresponds<X, Y>(a: seq<X>, x: X, b: seq<Y>, y: Y, n: nat)
    requires |a| == |b| && n <= |a|
    requires forall k :: 0 <= k < |a| ==> (a[k] == x <==> b[k] == y)
    ensures CountAt(a, x, n) == CountAt(b, y, n)
  {
    if n > 0 {
      CountCorresponds(a, x, b, y, n - 1);
    }
  }

  /** Overwriting an available slot with None adds one None among the first n slots when the slot is one of them. */
  lemma {:induction false} UseSlotCount<T>(slots: seq<Option<T>>, k: nat, n: nat)
    requires k < |slots| && slots[k] != None && n <= |slots|
    ensures CountAt(slots[k := None], None, n) == CountAt(slots, None, n) + (if k < n then 1 else 0)
  {
    if n > 0 {
      UseSlotCount(slots, k, n - 1);
    }
  }

  // ---------------------------------------------------------------------------
  // Properties of the scoring rule

  /** Letter consumption, for a prefix of the guess. */
  lemma {:induction false} CreditedPrefix(guess: seq<char>, secret: seq<char>, i: nat, c: char)
    requires |guess| == |secret| && i <= |guess|
    ensures Credited(guess, Score(guess, secret), i, c)
         == Matched(guess, secret, i, c) + Min(Unmatched(guess, secret, i, c), Unmatched(secret, guess, |secret|, c))
  {
    if i > 0 {
      CreditedPrefix(guess, secret, i - 1, c);
    }
  }

  /**
   * No double crediting: the positions holding c that are Correct or Present
   * number exactly the smaller of the counts of c in the guess and the secret.
   */
  lemma CreditedIsMin(guess: seq<char>, secret: seq<char>, c: char)
    requires |guess| == |secret|
    ensures Credited(guess, Score(guess, secret), |guess|, c) == Min(multiset(guess)[c], multiset(secret)[c])
  {
    var n := |guess|;
    CreditedPrefix(guess, secret, n, c);
    OccurrencesSplit(guess, secret, n, c);
    OccurrencesSplit(secret, guess, n, c);
    MatchedSymmetric(guess, secret, n, c);
    assert guess[..n] == guess;
    assert secret[..n] == secret;
  }

  /** Among the positions holding one letter, no Absent comes before a Present. */
  lemma PresentBeforeAbsent(guess: seq<char>, secret: seq<char>, i: nat, j: nat)
    requires |guess| == |secret| && i < j < |guess| && guess[i] == guess[j]
    ensures !(Score(guess, secret)[i] == Absent && Score(guess, secret)[j] == Present)
  {
    if guess[i] != secret[i] {
      UnmatchedMonotone(guess, secret, i, j, guess[i]);
    }
  }

  /** The slots still available when the second pass starts are exactly the unmatched ones. */
  lemma RemainingAfterExactPass(guess: seq<char>, secret: seq<char>, k: nat)
    requires |guess| == |secret| && k < |secret|
    ensures Remaining(guess, secret, 0)[k] == if guess[k] == secret[k] then None else Some(secret[k])
  {
  }

  /**
   * At an unmatched position i, the letter is Present exactly when a copy of it
   * is still available in the secret, and Absent exactly when none is.
   */
  lemma PresentIffAvailable(guess: seq<char>, secret: seq<char>, i: nat)
    requires |guess| == |secret| && i < |guess| && guess[i] != secret[i]
    ensures ScoreAt(guess, secret, i) == Present <==> Some(guess[i]) in Remaining(guess, secret, i)
    ensures ScoreAt(guess, secret, i) == Absent <==> Some(guess[i]) !in Remaining(guess, secret, i)
  {
    var c, n := guess[i], |guess|;
    var u, total := Unmatched(guess, secret, i, c), Unmatched(secret, guess, n, c);
    var rem := Remaining(guess, secret, i);
    if Some(c) in rem {
      var k :| 0 <= k < n && rem[k] == Some(c);
      assert RemainingAt(guess, secret, i, k) == Some(c);
      UnmatchedMonotone(secret, guess, k, n, c);
      assert u < total;
    }
    if u < total {
      UnmatchedReaches(secret, guess, n, c, u);
      var k :| 0 <= k < n && secret[k] == c && secret[k] != guess[k] && Unmatched(secret, guess, k, c) == u;
      assert rem[k] == Some(c);
    }
  }

  /**
   * Visiting unmatched position i changes slot k of the secret only when the
   * slot holds the first available copy of the guessed letter.
   */
  lemma SlotStep(guess: seq<char>, secret: seq<char>, i: nat, k: nat)
    requires |guess| == |secret| && i < |guess| && k < |secret|
    ensures Remaining(guess, secret, i + 1)[k]
         == if guess[i] != secret[i] && secret[k] == guess[i] && guess[k] != secret[k]
               && Unmatched(secret, guess, k, guess[i]) == Unmatched(guess, secret, i, guess[i])
            then None
            else Remaining(guess, secret, i)[k]
  {
    assert Unmatched(guess, secret, i + 1, secret[k])
        == Unmatched(guess, secret, i, secret[k]) + (if guess[i] == secret[k] && guess[i] != secret[i] then 1 else 0);
  }

  /** A matched position of the second pass is skipped: nothing is used up. */
  lemma StepMatched(guess: seq<char>, secret: seq<char>, i: nat)
    requires |guess| == |secret| && i < |guess| && guess[i] == secret[i]
    ensures Remaining(guess, secret, i + 1) == Remaining(guess, secret, i)
  {
    forall k | 0 <= k < |secret|
      ensures Remaining(guess, secret, i + 1)[k] == Remaining(guess, secret, i)[k]
    {
      SlotStep(guess, secret, i, k);
    }
  }

  /** An unmatched position finding no available copy uses up nothing. */
  lemma StepAbsent(guess: seq<char>, secret: seq<char>, i: nat)
    requires |guess| == |secret| && i < |guess| && guess[i] != secret[i]
    requires Unmatched(secret, guess, |secret|, guess[i]) <= Unmatched(guess, secret, i, guess[i])
    ensures Remaining(guess, secret, i + 1) == Remaining(guess, secret, i)
  {
    var c, n := guess[i], |guess|;
    forall k | 0 <= k < n
      ensures Remaining(guess, secret, i + 1)[k] == Remaining(guess, secret, i)[k]
    {
      SlotStep(guess, secret, i, k);
      if secret[k] == c && guess[k] != secret[k] {
        UnmatchedMonotone(secret, guess, k, n, c);
      }
    }
  }

  /**
   * When the letter at unmatched position i is still available, its first
   * available copy in the secret is the unmatched copy preceded by exactly as
   * many unmatched copies as the guess has before position i.
   */
  lemma FirstAvailable(guess: seq<char>, secret: seq<char>, i: nat)
    requires |guess| == |secret| && i < |guess| && guess[i] != secret[i]
    requires Some(guess[i]) in Remaining(guess, secret, i)
    ensures var kf := IndexOf(Remaining(guess, secret, i), Some(guess[i]));
      0 <= kf && secret[kf] == guess[i] && guess[kf] != secret[kf]
      && Unmatched(secret, guess, kf, guess[i]) == Unmatched(guess, secret, i, guess[i])
  {
    var c, n := guess[i], |guess|;
    var rem := Remaining(guess, secret, i);
    var u := Unmatched(guess, secret, i, c);
    var kf := IndexOf(rem, Some(c));
    assert secret[kf] == c && guess[kf] != secret[kf] && u <= Unmatched(secret, guess, kf, c) by {
      assert rem[kf] == RemainingAt(guess, secret, i, kf) == Some(c);
    }
    assert u < Unmatched(secret, guess, n, c) by {
      UnmatchedMonotone(secret, guess, kf, n, c);
    }
    UnmatchedReaches(secret, guess, n, c, u);
    var k0 :| 0 <= k0 < n && secret[k0] == c && secret[k0] != guess[k0] && Unmatched(secret, guess, k0, c) == u;
    assert kf <= k0 by {
      assert rem[k0] == Some(c);
    }
    UnmatchedMonotone(secret, guess, kf, k0, c);
  }

  /** A Present position uses up exactly the first available copy of its letter. */
  lemma StepPresent(guess: seq<char>, secret: seq<char>, i: nat)
    requires |guess| == |secret| && i < |guess| && guess[i] != secret[i]
    requires Some(guess[i]) in Remaining(guess, secret, i)
    ensures var rem := Remaining(guess, secret, i);
      var k := IndexOf(rem, Some(guess[i]));
      0 <= k && Remaining(guess, secret, i + 1) == rem[k := None]
  {
    var c, n := guess[i], |guess|;
    var rem, next := Remaining(guess, secret, i), Remaining(guess, secret, i + 1);
    var u := Unmatched(guess, secret, i, c);
    var kf := IndexOf(rem, Some(c));
    FirstAvailable(guess, secret, i);
    forall k | 0 <= k < n
      ensures next[k] == rem[kf := None][k]
    {
      SlotStep(guess, secret, i, k);
      if k != kf && secret[k] == c && guess[k] != secret[k] && Unmatched(secret, guess, k, c) == u {
        UnmatchedInjective(secret, guess, k, kf, c);
      }
    }
  }

  /**
   * One step of the second pass on the secret: a matched position and an
   * Absent one use up nothing; a Present one uses up exactly the first
   * available copy of its letter and leaves every other slot alone.
   */
  lemma RemainingStep(guess: seq<char>, secret: seq<char>, i: nat)
    requires |guess| == |secret| && i < |guess|
    ensures ScoreAt(guess, secret, i) != Present ==> Remaining(guess, secret, i + 1) == Remaining(guess, secret, i)
    ensures ScoreAt(guess, secret, i) == Present ==>
      var rem := Remaining(guess, secret, i);
      var k := IndexOf(rem, Some(guess[i]));
      0 <= k && Remaining(guess, secret, i + 1) == rem[k := None]
  {
    if guess[i] == secret[i] {
      StepMatched(guess, secret, i);
    } else if ScoreAt(guess, secret, i) == Absent {
      StepAbsent(guess, secret, i);
    } else {
      PresentIffAvailable(guess, secret, i);
      StepPresent(guess, secret, i);
    }
  }

  /** When the second pass starts, the used-up slots are the Correct positions. */
  lemma UsedSlotsStart(guess: seq<char>, secret: seq<char>)
    requires |guess| == |secret|
    ensures Count(Remaining(guess, secret, 0), None) == Count(Score(guess, secret), Correct) + CountAt(Score(guess, secret), Present, 0)
  {
    var score := Score(guess, secret);
    forall k | 0 <= k < |secret|
      ensures Remaining(guess, secret, 0)[k] == None <==> score[k] == Correct
    {
      RemainingAfterExactPass(guess, secret, k);
    }
    CountCorresponds(Remaining(guess, secret, 0), None, score, Correct, |secret|);
  }

  /** One step of the second pass uses up one slot exactly when the position is Present. */
  lemma UsedSlotsStep(guess: seq<char>, secret: seq<char>, i: nat)
    requires |guess| == |secret| && i < |guess|
    ensures Count(Remaining(guess, secret, i + 1), None) + CountAt(Score(guess, secret), Present, i)
         == Count(Remaining(guess, secret, i), None) + CountAt(Score(guess, secret), Present, i + 1)
  {
    var before := Remaining(guess, secret, i);
    RemainingStep(guess, secret, i);
    assert Score(guess, secret)[i] == ScoreAt(guess, secret, i);
    if ScoreAt(guess, secret, i) == Present {
      UseSlotCount(before, IndexOf(before, Some(guess[i])), |before|);
    }
  }

  /**
   * Used-up slots at a point of the second pass: one per Correct position in
   * the whole row plus one per Present position already visited.
   */
  lemma {:induction false} UsedSlotsPrefix(guess: seq<char>, secret: seq<char>, i: nat)
    requires |guess| == |secret| && i <= |guess|
    ensures Count(Remaining(guess, secret, i), None)
         == Count(Score(guess, secret), Correct) + CountAt(Score(guess, secret), Present, i)
  {
    if i == 0 {
      UsedSlotsStart(guess, secret);
    } else {
      UsedSlotsPrefix(guess, secret, i - 1);
      UsedSlotsStep(guess, secret, i - 1);
    }
  }

  /** At the end of the row, used-up slots equal Correct plus Present positions. */
  lemma UsedSlots(guess: seq<char>, secret: seq<char>)
    requires |guess| == |secret|
    ensures Count(Remaining(guess, secret, |guess|), None)
         == Count(Score(guess, secret), Correct) + Count(Score(guess, secret), Present)
  {
    UsedSlotsPrefix(guess, secret, |guess|);
  }

  // ---------------------------------------------------------------------------
  // Examples

  /** A doubled guessed letter is credited only as often as the secret holds it. */
  lemma ScoreDoubledLetter()
    ensures Score("ALLEY", "APPLE") == [Correct, Present, Absent, Present, Absent]
  {
    var g, s := "ALLEY", "APPLE";
    assert Unmatched(s, g, 5, 'L') == 1 && Unmatched(s, g, 5, 'E') == 1 && Unmatched(s, g, 5, 'Y') == 0;
    assert Unmatched(g, s, 1, 'L') == 0 && Unmatched(g, s, 2, 'L') == 1;
    assert ScoreAt(g, s, 1) == Present && ScoreAt(g, s, 2) == Absent;
    assert ScoreAt(g, s, 3) == Present && ScoreAt(g, s, 4) == Absent;
  }

  /** An exact match keeps its copy: earlier copies of the same letter in the guess are Absent. */
  lemma ScoreExactMatchFirst()
    ensures Score("EERIE", "CRANE") == [Absent, Absent, Present, Absent, Correct]
  {
    var g, s := "EERIE", "CRANE";
    assert Unmatched(s, g, 5, 'E') == 0 && Unmatched(s, g, 5, 'R') == 1 && Unmatched(s, g, 5, 'I') == 0;
    assert ScoreAt(g, s, 0) == Absent && ScoreAt(g, s, 1) == Absent;
    assert ScoreAt(g, s, 2) == Present && ScoreAt(g, s, 3) == Absent;
  }

  /** A map meeting IsKeyStatus is determined by the guess and the results. */
  lemma KeyStatusUnique(guess: seq<char>, results: seq<LetterResult>, k1: map<char, LetterResult>, k2: map<char, LetterResult>)
    requires |results| == |guess|
    requires IsKeyStatus(guess, results, k1) && IsKeyStatus(guess, results, k2)
    ensures k1 == k2
  {
    forall c | c in k1
      ensures k1[c] == k2[c]
    {
      var j1 :| 0 <= j1 < |guess| && guess[j1] == c && results[j1] == k1[c];
      var j2 :| 0 <= j2 < |guess| && guess[j2] == c && results[j2] == k2[c];
      assert Rank(k1[c]) <= Rank(k2[c]) && Rank(k2[c]) <= Rank(k1[c]);
    }
  }
}
