/**
 * The per-letter feedback rule of the Wordle environment and the overwrite
 * rule of its alphabet tracker.
 *
 * Status codes: -1 no information yet, 0 letter absent from the hidden word,
 * 1 letter present elsewhere, 2 letter in the right place. Presence is a plain
 * membership test over the whole hidden word: no count of how often a letter
 * occurs is kept, so repeated letters in a guess can all be marked present.
 */
module Feedback {

  const Unknown := -1
  const Absent := 0
  const Present := 1
  const Correct := 2

  /** The code for position `idx` of `guess` against `hidden`. */
  function Status(hidden: seq<int>, guess: seq<int>, idx: nat): (code: int)
    requires idx < |guess| == |hidden|
    ensures code == Correct <==> guess[idx] == hidden[idx]
    ensures code == Present <==> guess[idx] != hidden[idx] && guess[idx] in hidden
    ensures code == Absent <==> guess[idx] !in hidden
  {
    if hidden[idx] == guess[idx] then Correct
    else if guess[idx] in hidden then Present
    else Absent
  }

  /** The row of feedback codes that a guess writes onto the board. */
  function Score(hidden: seq<int>, guess: seq<int>): (row: seq<int>)
    requires |guess| == |hidden|
    ensures |row| == |guess|
  {
    seq(|guess|, i requires 0 <= i < |guess| => Status(hidden, guess, i))
  }

  /** What each code of a row means, in both directions. */
  lemma ScoreMeaning(hidden: seq<int>, guess: seq<int>, i: nat)
    requires |guess| == |hidden| && i < |guess|
    ensures Score(hidden, guess)[i] == Correct <==> guess[i] == hidden[i]
    ensures Score(hidden, guess)[i] == Present <==> guess[i] != hidden[i] && guess[i] in hidden
    ensures Score(hidden, guess)[i] == Absent <==> guess[i] !in hidden
    ensures Absent <= Score(hidden, guess)[i] <= Correct
  {
  }

  /** `all(row == 2)` */
  predicate AllCorrect(row: seq<int>) {
    forall j :: 0 <= j < |row| ==> row[j] == Correct
  }

  /** A row is all 2 exactly when the guess is the hidden word. */
  lemma SolvedIff(hidden: seq<int>, guess: seq<int>)
    requires |guess| == |hidden|
    ensures AllCorrect(Score(hidden, guess)) <==> guess == hidden
  {
    if AllCorrect(Score(hidden, guess)) {
      forall j | 0 <= j < |guess| ensures guess[j] == hidden[j] {
        assert Score(hidden, guess)[j] == Correct;
      }
    }
  }

  /** Hidden word "abase", guess "aback": three greens, then 'c' and 'k' absent. */
  lemma AbaseAbackExample()
    ensures Score([0, 1, 0, 18, 4], [0, 1, 0, 2, 10]) == [2, 2, 2, 0, 0]
  {
  }

  /**
   * No duplicate budget: "abase" holds one 's', yet the guess "sssss" gets
   * one green and four yellows.
   */
  lemma RepeatedLetterExample()
    ensures Score([0, 1, 0, 18, 4], [18, 18, 18, 18, 18]) == [1, 1, 1, 2, 1]
  {
  }

  /** The rightmost position of `c` in `s`. */
  function LastIndex(s: seq<int>, c: int): (k: nat)
    requires c in s
    ensures k < |s| && s[k] == c
    ensures forall j :: k < j < |s| ==> s[j] != c
  {
    if s[|s| - 1] == c then |s| - 1 else LastIndex(s[..|s| - 1], c)
  }

  /** Every code of `guess` indexes into a tracker of `size` entries. */
  predicate Below(guess: seq<int>, size: int) {
    forall i :: 0 <= i < |guess| ==> 0 <= guess[i] < size
  }

  /**
   * The tracker after writing `row[i]` at entry `guess[i]` for each position
   * in turn, left to right, each write replacing whatever was there.
   */
  function Learn(alpha: seq<int>, guess: seq<int>, row: seq<int>): (r: seq<int>)
    requires |row| == |guess| && Below(guess, |alpha|)
    ensures |r| == |alpha|
  {
    if guess == [] then alpha
    else
      var n := |guess| - 1;
      Learn(alpha, guess[..n], row[..n])[guess[n] := row[n]]
  }

  /**
   * Last write wins: a letter of the guess ends up with the code of its
   * rightmost occurrence, whatever the entry held before; other entries keep
   * their value.
   */
  lemma {:induction false} LearnAt(alpha: seq<int>, guess: seq<int>, row: seq<int>, c: int)
    requires |row| == |guess| && Below(guess, |alpha|) && 0 <= c < |alpha|
    ensures c in guess ==> Learn(alpha, guess, row)[c] == row[LastIndex(guess, c)]
    ensures c !in guess ==> Learn(alpha, guess, row)[c] == alpha[c]
  {
    if guess != [] {
      var n := |guess| - 1;
      assert guess == guess[..n] + [guess[n]];
      LearnAt(alpha, guess[..n], row[..n], c);
      if guess[n] != c && c in guess {
        assert c in guess[..n];
        assert LastIndex(guess, c) == LastIndex(guess[..n], c);
      }
    }
  }
}
