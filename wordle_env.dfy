/**
 * The episode state machine of the Wordle environment: `Reset` starts an
 * episode, `Step` plays one guess. The state is a 6x5 board of feedback
 * codes, a 26-entry alphabet tracker, the number of guesses left, the
 * guesses made so far and the hidden word. The word list is fixed when the
 * environment is built.
 */
module WordleEnv {
  import opened Codec
  import opened Feedback

  const GameLength := 6
  const WordLength := 5
  const AlphabetSize := 26

  /** What the action space admits: five codes, each in [0, 25]. */
  predicate IsAction(a: seq<int>) {
    |a| == WordLength && IsLetters(a)
  }

  /** Every entry of the word list is a five-tuple, as `strToEncode` guarantees. */
  predicate WordList(words: seq<seq<int>>) {
    forall k :: 0 <= k < |words| ==> |words[k]| == WordLength
  }

  /** A hidden word and a guess history that the feedback rule can be applied to. */
  predicate Fits(hidden: seq<int>, guesses: seq<seq<int>>) {
    |hidden| == WordLength && forall k :: 0 <= k < |guesses| ==> IsAction(guesses[k])
  }

  /** The row of an unused turn. */
  function UnknownRow(): (r: seq<int>)
    ensures |r| == WordLength && forall j :: 0 <= j < WordLength ==> r[j] == Unknown
  {
    seq(WordLength, _ => Unknown)
  }

  /** The board after the guesses made: one row per guess, the rest unused. */
  function BoardOf(hidden: seq<int>, guesses: seq<seq<int>>): (b: seq<seq<int>>)
    requires Fits(hidden, guesses) && |guesses| <= GameLength
    ensures |b| == GameLength && forall i :: 0 <= i < GameLength ==> |b[i]| == WordLength
  {
    var b := seq(GameLength, i requires 0 <= i < GameLength =>
      if i < |guesses| then Score(hidden, guesses[i]) else UnknownRow());
    assert forall i :: 0 <= i < GameLength ==> |b[i]| == WordLength by {
      forall i | 0 <= i < GameLength ensures |b[i]| == WordLength {
        if i < |guesses| {
          assert IsAction(guesses[i]);
          assert b[i] == Score(hidden, guesses[i]);
        } else {
          assert b[i] == UnknownRow();
        }
      }
    }
    b
  }

  /** The alphabet tracker after the guesses made, each applied in turn. */
  function AlphabetOf(hidden: seq<int>, guesses: seq<seq<int>>): (alpha: seq<int>)
    requires Fits(hidden, guesses)
    ensures |alpha| == AlphabetSize
  {
    if guesses == [] then seq(AlphabetSize, _ => Unknown)
    else
      var n := |guesses| - 1;
      var g := guesses[n];
      Learn(AlphabetOf(hidden, guesses[..n]), g, Score(hidden, g))
  }

  /**
   * A row of the board is unused (all -1) exactly when no guess was made at
   * that turn; every entry lies in [-1, 2]; a used row is all 2 exactly when
   * its guess was the hidden word.
   */
  lemma BoardOfRows(hidden: seq<int>, guesses: seq<seq<int>>, i: nat)
    requires Fits(hidden, guesses) && |guesses| <= GameLength && i < GameLength
    ensures forall j :: 0 <= j < WordLength ==> Unknown <= BoardOf(hidden, guesses)[i][j] <= Correct
    ensures (forall j :: 0 <= j < WordLength ==> BoardOf(hidden, guesses)[i][j] == Unknown) <==> i >= |guesses|
    ensures i < |guesses| ==> (AllCorrect(BoardOf(hidden, guesses)[i]) <==> guesses[i] == hidden)
  {
    var row := BoardOf(hidden, guesses)[i];
    if i < |guesses| {
      forall j | 0 <= j < WordLength ensures Absent <= row[j] <= Correct {
        ScoreMeaning(hidden, guesses[i], j);
      }
      SolvedIff(hidden, guesses[i]);
      assert row[0] != Unknown;
    } else {
      assert row == UnknownRow();
    }
  }

  /** One more guess fills exactly the next row. */
  lemma BoardOfAppend(hidden: seq<int>, guesses: seq<seq<int>>, g: seq<int>)
    requires Fits(hidden, guesses) && IsAction(g) && |guesses| < GameLength
    ensures Fits(hidden, guesses + [g])
      && BoardOf(hidden, guesses + [g]) == BoardOf(hidden, guesses)[|guesses| := Score(hidden, g)]
  {
  }

  /** The one-step unfolding of `AlphabetOf` used by `Step`: one more guess applies `Learn` to its feedback row. */
  lemma AlphabetOfAppend(hidden: seq<int>, guesses: seq<seq<int>>, g: seq<int>)
    requires Fits(hidden, guesses) && IsAction(g)
    ensures Fits(hidden, guesses + [g])
      && AlphabetOf(hidden, guesses + [g]) == Learn(AlphabetOf(hidden, guesses), g, Score(hidden, g))
  {
  }

  /**
   * A letter's tracker entry is -1 exactly when no guess so far used it, and
   * always lies in [-1, 2].
   */
  lemma {:induction false} AlphabetOfAt(hidden: seq<int>, guesses: seq<seq<int>>, c: int)
    requires Fits(hidden, guesses) && 0 <= c < AlphabetSize
    ensures Unknown <= AlphabetOf(hidden, guesses)[c] <= Correct
    ensures AlphabetOf(hidden, guesses)[c] == Unknown <==> forall k :: 0 <= k < |guesses| ==> c !in guesses[k]
  {
    if guesses != [] {
      var n := |guesses| - 1;
      var g := guesses[n];
      var prefix := guesses[..n];
      assert forall k :: 0 <= k < n ==> prefix[k] == guesses[k];
      AlphabetOfAt(hidden, prefix, c);
      LearnAt(AlphabetOf(hidden, prefix), g, Score(hidden, g), c);
      if c in g {
        ScoreMeaning(hidden, g, LastIndex(g, c));
      }
    }
  }

  /**
   * The tracker entry of a letter used in the latest guess is the code of its
   * rightmost occurrence there, whatever earlier guesses had found.
   */
  lemma LatestGuessWins(hidden: seq<int>, guesses: seq<seq<int>>, g: seq<int>, c: int)
    requires Fits(hidden, guesses) && IsAction(g) && c in g
    ensures Fits(hidden, guesses + [g]) && AlphabetOf(hidden, guesses + [g])[c] == Score(hidden, g)[LastIndex(g, c)]
  {
    AlphabetOfAppend(hidden, guesses, g);
    LearnAt(AlphabetOf(hidden, guesses), g, Score(hidden, g), c);
  }

  /**
   * Hidden word "abase": after "aback" the entry for 'a' is 2, and the next
   * guess "mamba" lowers it to 1 (its last 'a' is not in place).
   */
  lemma OverwriteExample()
    ensures AlphabetOf([0, 1, 0, 18, 4], [[0, 1, 0, 2, 10]])[0] == Correct
    ensures AlphabetOf([0, 1, 0, 18, 4], [[0, 1, 0, 2, 10], [12, 0, 12, 1, 0]])[0] == Present
  {
    var h := [0, 1, 0, 18, 4];
    var g1 := [0, 1, 0, 2, 10];
    var g2 := [12, 0, 12, 1, 0];
    assert [g1] == [] + [g1];
    assert [g1, g2] == [g1] + [g2];
    LatestGuessWins(h, [], g1, 0);
    assert g1[..4][..3] == g1[..3];
    assert LastIndex(g1[..3], 0) == 2;
    assert LastIndex(g1[..4], 0) == 2;
    assert LastIndex(g1, 0) == 2;
    LatestGuessWins(h, [g1], g2, 0);
    assert LastIndex(g2, 0) == 4;
  }

  /** The outcome of a step: the source's exception, or reward and done flag. */
  datatype StepResult = InvalidWord(message: string) | Played(reward: real, done: bool)

  /** A board array read as a sequence of rows. */
  ghost function Rows(b: array2<int>): (rows: seq<seq<int>>)
    reads b
    ensures |rows| == b.Length0
    ensures forall i :: 0 <= i < b.Length0 ==> |rows[i]| == b.Length1
    ensures forall i, j :: 0 <= i < b.Length0 && 0 <= j < b.Length1 ==> rows[i][j] == b[i, j]
  {
    seq(b.Length0, i requires 0 <= i < b.Length0 reads b =>
      seq(b.Length1, j requires 0 <= j < b.Length1 reads b => b[i, j]))
  }

  /** Rows that agree entry by entry with an updated row sequence are that sequence. */
  lemma RowsWritten(b: array2<int>, before: seq<seq<int>>, row: nat, r: seq<int>)
    requires |before| == b.Length0 && row < b.Length0 && |r| == b.Length1
    requires forall i :: 0 <= i < |before| ==> |before[i]| == b.Length1
    requires forall j :: 0 <= j < b.Length1 ==> b[row, j] == r[j]
    requires forall i, j :: 0 <= i < b.Length0 && i != row && 0 <= j < b.Length1 ==> b[i, j] == before[i][j]
    ensures Rows(b) == before[row := r]
  {
    var after := before[row := r];
    forall i | 0 <= i < b.Length0 ensures Rows(b)[i] == after[i] {
    }
  }

  class Env {
    /** The word list, fixed for the life of the environment. */
    const words: seq<seq<int>>
    /** null until the first `Reset`, as the attributes do not exist before it. */
    var board: array2?<int>
    var alphabet: array?<int>
    var guessesLeft: int
    var guesses: seq<seq<int>>
    var hiddenWord: seq<int>

    /** The state of an episode in progress or ended. */
    ghost predicate Valid()
      reads this, board, alphabet
    {
      board != null && alphabet != null
      && board.Length0 == GameLength && board.Length1 == WordLength
      && alphabet.Length == AlphabetSize
      && WordList(words) && hiddenWord in words
      && 0 <= guessesLeft <= GameLength && |guesses| == GameLength - guessesLeft
      && Fits(hiddenWord, guesses)
      && (forall k :: 0 <= k < |guesses| ==> guesses[k] in words)
      && Rows(board) == BoardOf(hiddenWord, guesses)
      && alphabet[..] == AlphabetOf(hiddenWord, guesses)
    }

    constructor (words: seq<seq<int>>)
      ensures this.words == words && guesses == []
      ensures board == null && alphabet == null
    {
      this.words := words;
      board := null;
      alphabet := null;
      guesses := [];
    }

    /**
     * Starts an episode: a hidden word picked from the word list, six
     * guesses, a board and a tracker full of -1, no guesses made. Returns the
     * board and the tracker themselves, not copies.
     */
    method Reset() returns (obsBoard: array2<int>, obsAlphabet: array<int>)
      requires WordList(words) && |words| > 0
      modifies this
      ensures Valid() && fresh(board) && fresh(alphabet)
      ensures hiddenWord in words && guessesLeft == GameLength && guesses == []
      ensures Rows(board) == seq(GameLength, _ => UnknownRow())
      ensures alphabet[..] == seq(AlphabetSize, _ => Unknown)
      ensures obsBoard == board && obsAlphabet == alphabet
    {
      assert words[0] in words;
      var pick :| pick in words;
      hiddenWord := pick;
      guessesLeft := GameLength;
      board := new int[GameLength, WordLength]((_, _) => Unknown);
      alphabet := new int[AlphabetSize](_ => Unknown);
      guesses := [];
      obsBoard, obsAlphabet := board, alphabet;
      assert forall i :: 0 <= i < GameLength ==> Rows(board)[i] == UnknownRow();
      assert Rows(board) == BoardOf(hiddenWord, guesses);
    }

    /**
     * Plays one guess. A word outside the word list is refused before any
     * state changes. Otherwise row `6 - guessesLeft` receives the feedback,
     * the tracker entry of each letter is overwritten left to right, one
     * guess is used up and the guess is recorded; the reward is 1 for a
     * solved row, 0 while guesses remain and -1 after the last one.
     */
    method Step(action: seq<int>) returns (result: StepResult, obsBoard: array2<int>, obsAlphabet: array<int>)
      requires Valid() && IsAction(action)
      requires action in words ==> guessesLeft > 0
      modifies this`guessesLeft, this`guesses, board, alphabet
      ensures Valid()
      ensures obsBoard == board && obsAlphabet == alphabet
      ensures action !in words ==>
        result == InvalidWord(ToStr(action) + " is not a valid word.")
        && unchanged(board) && unchanged(alphabet)
        && guessesLeft == old(guessesLeft) && guesses == old(guesses)
      ensures action in words ==>
        Rows(board) == old(Rows(board))[GameLength - old(guessesLeft) := Score(hiddenWord, action)]
      ensures action in words ==>
        alphabet[..] == Learn(old(alphabet[..]), action, Score(hiddenWord, action))
      ensures action in words ==>
        guessesLeft == old(guessesLeft) - 1 && guesses == old(guesses) + [action]
      ensures action in words ==>
        result == (if AllCorrect(Score(hiddenWord, action)) then Played(1.0, true)
                   else if guessesLeft > 0 then Played(0.0, false)
                   else Played(-1.0, true))
      ensures action in words ==>
        (result.reward == 1.0 <==> action == hiddenWord)
        && (result.done <==> action == hiddenWord || guessesLeft == 0)
    {
      if action !in words {
        var word := EncodeToStr(action);
        result := InvalidWord(word + " is not a valid word.");
        obsBoard, obsAlphabet := board, alphabet;
        return;
      }
      var row := GameLength - guessesLeft;
      ghost var score := Score(hiddenWord, action);
      WriteFeedback(row, action);
      guessesLeft := guessesLeft - 1;
      guesses := guesses + [action];
      var solved := forall j :: 0 <= j < WordLength ==> board[row, j] == Correct;
      assert forall j :: 0 <= j < WordLength ==> board[row, j] == Rows(board)[row][j] == score[j];
      assert solved == AllCorrect(score);
      if solved {
        result := Played(1.0, true);
      } else if guessesLeft > 0 {
        result := Played(0.0, false);
      } else {
        result := Played(-1.0, true);
      }
      obsBoard, obsAlphabet := board, alphabet;
      SolvedIff(hiddenWord, action);
      BoardOfAppend(hiddenWord, old(guesses), action);
      AlphabetOfAppend(hiddenWord, old(guesses), action);
    }

    /**
     * The loop of `step` over the letters of the guess: position `idx` of
     * board row `row` gets the letter's code, and so does the letter's
     * tracker entry.
     */
    method WriteFeedback(row: nat, action: seq<int>)
      requires board != null && alphabet != null
      requires board.Length0 == GameLength && board.Length1 == WordLength && alphabet.Length == AlphabetSize
      requires row < GameLength && IsAction(action) && |hiddenWord| == WordLength
      modifies board, alphabet
      ensures Rows(board) == old(Rows(board))[row := Score(hiddenWord, action)]
      ensures alphabet[..] == Learn(old(alphabet[..]), action, Score(hiddenWord, action))
    {
      ghost var score := Score(hiddenWord, action);
      ghost var before := Rows(board);
      ghost var alpha0 := alphabet[..];
      for idx := 0 to WordLength
        invariant forall j :: 0 <= j < idx ==> board[row, j] == score[j]
        invariant forall i, j :: 0 <= i < GameLength && 0 <= j < WordLength && (i != row || idx <= j) ==>
                    board[i, j] == before[i][j]
        invariant alphabet[..] == Learn(alpha0, action[..idx], score[..idx])
      {
        var letter := action[idx];
        var encoding;
        if hiddenWord[idx] == letter {
          encoding := Correct;
        } else if letter in hiddenWord {
          encoding := Present;
        } else {
          encoding := Absent;
        }
        board[row, idx] := encoding;
        alphabet[letter] := encoding;
        assert action[..idx + 1][..idx] == action[..idx];
        assert score[..idx + 1][..idx] == score[..idx];
      }
      assert action[..WordLength] == action && score[..WordLength] == score;
      RowsWritten(board, before, row, score);
    }
  }

  /** Every board and tracker entry lies in [-1, 2], the declared observation bounds. */
  lemma ObservationBounds(e: Env)
    requires e.Valid()
    ensures forall i, j :: 0 <= i < GameLength && 0 <= j < WordLength ==> Unknown <= e.board[i, j] <= Correct
    ensures forall c :: 0 <= c < AlphabetSize ==> Unknown <= e.alphabet[c] <= Correct
  {
    forall i, j | 0 <= i < GameLength && 0 <= j < WordLength
      ensures Unknown <= e.board[i, j] <= Correct
    {
      BoardOfRows(e.hiddenWord, e.guesses, i);
      assert e.board[i, j] == Rows(e.board)[i][j];
    }
    forall c | 0 <= c < AlphabetSize ensures Unknown <= e.alphabet[c] <= Correct {
      AlphabetOfAt(e.hiddenWord, e.guesses, c);
      assert e.alphabet[c] == e.alphabet[..][c];
    }
  }

  /** The rows in use are exactly the first `6 - guessesLeft`. */
  lemma FilledRows(e: Env, i: nat)
    requires e.Valid() && i < GameLength
    ensures (forall j :: 0 <= j < WordLength ==> e.board[i, j] == Unknown) <==> i >= GameLength - e.guessesLeft
  {
    BoardOfRows(e.hiddenWord, e.guesses, i);
    assert forall j :: 0 <= j < WordLength ==> e.board[i, j] == Rows(e.board)[i][j];
  }

  /**
   * An episode over the one-word list ["abase"]: "aback" is refused without
   * using a turn, then "abase" wins on the first turn with one row filled.
   */
  method OneWordEpisode() {
    var abase := [0, 1, 0, 18, 4];
    var aback := [0, 1, 0, 2, 10];
    var env := new Env([abase]);
    var board, alphabet := env.Reset();
    assert env.hiddenWord == abase;
    var r1, _, _ := env.Step(aback);
    assert r1.InvalidWord? && env.guessesLeft == GameLength;
    var r2, _, _ := env.Step(abase);
    assert r2 == Played(1.0, true);
    FilledRows(env, 0);
    FilledRows(env, 1);
    assert env.guessesLeft == GameLength - 1;
  }
}
