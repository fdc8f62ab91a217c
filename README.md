# Wordle environment — Dafny model

A model of the game engine of a Wordle environment for reinforcement
learning (`gym_wordle/envs/wordle_env.py`). A hidden five-letter word is
chosen from a word list; the player has six guesses. Each accepted guess
fills the next row of a 6x5 board with one code per letter (2 right place,
1 elsewhere in the word, 0 absent, -1 not yet guessed). It also overwrites
the entries of its letters in a 26-entry alphabet tracker.

- `codec.dfy`, module `Codec`: `encodeToStr` (letter codes to a string)
  and `strToEncode` (word-list lines to five-tuples of codes), each as a
  pure function plus the accumulator loop of the source proved equal to it.
  It also holds Python's `str.strip()`, with the full `str.isspace()` set.
- `feedback.dfy`, module `Feedback`: the per-position feedback rule
  (`Score`) and the last-write-wins update of the alphabet tracker (`Learn`).
- `wordle_env.dfy`, module `WordleEnv`: the class `Env` with the source's
  fields (`board` as a 6x5 `array2`, `alphabet` as an `array` of 26,
  `guessesLeft`, `guesses`, `hiddenWord`) and the methods `Reset` and
  `Step`. `Env.Valid()` ties the arrays to two specification functions of
  the hidden word and the guess history: `BoardOf` and `AlphabetOf`. The
  lemmas about those functions state what the board and the tracker hold.
  The letter loop of `step` is the method `Env.WriteFeedback`.
  `OneWordEpisode` plays a short episode through the contracts: a refused
  word, then a win on the first turn.

The word list is a constructor argument (`words`). Entries are five-tuples,
as `strToEncode` guarantees. The feedback rule tests plain membership in the
hidden word. There is no count of repeated letters, so "sssss" against
"abase" gets four 1s, as the source computes (`RepeatedLetterExample`). The
tracker is overwritten unconditionally: the rightmost occurrence of a letter
in a guess wins, and a later guess can lower an earlier 2 (`LearnAt`,
`OverwriteExample`).

Behaviour of the code that the model keeps and a reader might not expect:

- `_get_obs` returns the live `board` and `alphabet` arrays, not copies.
  `Reset` and `Step` therefore return the arrays themselves
  (`obsBoard == board`).
- Nothing stops a `step` after the episode has ended with a win. The model
  allows it; the only demand on callers is `guessesLeft > 0`, and only for
  a word in the list. The row index is computed after the word check, so a
  refused word never reaches it.
- `strToEncode` does not check that characters are lower case. Every
  character becomes `ord(c) - 97`. A line whose stripped length is not 5
  stops the whole list with an assertion failure, modelled as
  `BadLine(index of the first such line)`.
- A refused word is an `InvalidWord(message)` result, not an exception. The
  message is `encodeToStr(action) + " is not a valid word."`. The action
  space check (`assert self.action_space.contains(action)`) is the
  precondition `IsAction`.

## Model

| member | source | states |
|---|---|---|
| `Codec.Chr` | gym_wordle/envs/wordle_env.py:34 | `chr(ord('a') + n)` is a lower-case letter whose `ord - 97` gives back `n` |
| `Codec.ToStr` | gym_wordle/envs/wordle_env.py:31-35 | the decoded string has one lower-case character per code, and character `i` spells code `i` |
| `Codec.EncodeToStr` | gym_wordle/envs/wordle_env.py:31-35 | the accumulator loop (`string += chr(...)`) returns exactly `ToStr` of the codes |
| `Codec.FromStrToStr` | gym_wordle/envs/wordle_env.py:31-43 | reading back a decoded word (`ord(c) - 97` per character) gives the original codes |
| `Codec.ToStrFromStr` | gym_wordle/envs/wordle_env.py:31-43 | a lower-case string read as codes has codes in [0,25], and decoding them gives the string back |
| `Codec.Ord` | gym_wordle/envs/wordle_env.py:42 | `ord(char) - 97` of a lower-case letter is a code in [0,25], and `chr` of it gives the letter back |
| `Codec.FromStr` | gym_wordle/envs/wordle_env.py:42 | the tuple has one code per character of the string, and every code is in [0,25] when the string is lower case |
| `Codec.IsSpace` | gym_wordle/envs/wordle_env.py:41-42 | the characters `str.strip()` removes: those for which `str.isspace()` holds, by Unicode code point (no `ensures`; its meaning is used by the strip lemmas) |
| `Codec.Strip` | gym_wordle/envs/wordle_env.py:41-42 | `line.strip()` is never longer than the line; `StripEnds`, `StripSlice` and `StripClean` state its full meaning |
| `Codec.StripLeadingSpec` | gym_wordle/envs/wordle_env.py:41-42 | stripping the front keeps a suffix that starts with no whitespace and removes only whitespace |
| `Codec.StripTrailingSpec` | gym_wordle/envs/wordle_env.py:41-42 | stripping the end keeps a prefix that ends with no whitespace and removes only whitespace |
| `Codec.StripEnds` | gym_wordle/envs/wordle_env.py:41-42 | `line.strip()` neither starts nor ends with whitespace |
| `Codec.StripSlice` | gym_wordle/envs/wordle_env.py:41-42 | `line.strip()` is a slice of the line, and only whitespace is cut on either side of it |
| `Codec.StripClean` | gym_wordle/envs/wordle_env.py:41-42 | a line without whitespace at its ends is left unchanged by `strip()` |
| `Codec.LineOk` | gym_wordle/envs/wordle_env.py:41 | the assertion `len(line.strip()) == 5` on one line (no `ensures`; `EncodeLines` states its role) |
| `Codec.EncodeLine` | gym_wordle/envs/wordle_env.py:42 | the tuple appended for a line has one code per character of the stripped line, so five codes for a line that passes the assertion |
| `Codec.EncodeLines` | gym_wordle/envs/wordle_env.py:38-43 | the list encodes iff every stripped line has length 5; it then has one tuple per line, in order, each `ord(c) - 97` of the stripped line; otherwise the failure names the first line of another length, and all lines before it are fine |
| `Codec.StrToEncode` | gym_wordle/envs/wordle_env.py:38-43 | the loop over the lines (assert, then append) returns exactly `EncodeLines` of the lines, stopping at the first bad line |
| `Codec.DecodeEncodedLine` | gym_wordle/envs/wordle_env.py:31-43 | for a lower-case line, `encodeToStr` of the tuple that `strToEncode` produced gives back the stripped line |
| `Codec.EncodeDecodedWord` | gym_wordle/envs/wordle_env.py:31-43 | any five-letter code word, written as a line, encodes back to itself |
| `Codec.WordListExample` | gym_wordle/envs/wordle_env.py:43 | the lines "aback" and "abase" encode to (0,1,0,2,10) and (0,1,0,18,4) |
| `Feedback.Status` | gym_wordle/envs/wordle_env.py:136-141 | the code of one position: 2 iff the letter matches the hidden word there; 1 iff it does not but occurs in the hidden word; 0 iff it does not occur |
| `Feedback.Score` | gym_wordle/envs/wordle_env.py:134-141 | the feedback row has one code per guessed letter |
| `Feedback.ScoreMeaning` | gym_wordle/envs/wordle_env.py:134-141 | code 2 iff the letter matches the hidden word at that position; 1 iff it does not but occurs somewhere in the hidden word; 0 iff it does not occur; always in [0,2] |
| `Feedback.AllCorrect` | gym_wordle/envs/wordle_env.py:153 | the test `all(self.board[board_row_idx, :] == 2)` on a feedback row (no `ensures`; `SolvedIff` states its meaning) |
| `Feedback.SolvedIff` | gym_wordle/envs/wordle_env.py:136-153 | the row is all 2 exactly when the guess equals the hidden word |
| `Feedback.AbaseAbackExample` | gym_wordle/envs/wordle_env.py:134-141 | hidden "abase", guess "aback" gives [2,2,2,0,0] |
| `Feedback.RepeatedLetterExample` | gym_wordle/envs/wordle_env.py:138-139 | no duplicate budget: hidden "abase", guess "sssss" gives [1,1,1,2,1] |
| `Feedback.LastIndex` | gym_wordle/envs/wordle_env.py:134-144 | the rightmost position of a letter in a guess: it holds the letter and no later position does |
| `Feedback.Learn` | gym_wordle/envs/wordle_env.py:134-144 | the left-to-right writes `alphabet[char] = encoding` keep the tracker's size |
| `Feedback.LearnAt` | gym_wordle/envs/wordle_env.py:134-144 | last write wins: a letter of the guess gets the code of its rightmost occurrence, whatever it held before; other letters keep their entry |
| `WordleEnv.IsAction` | gym_wordle/envs/wordle_env.py:126 | the action-space check `self.action_space.contains(action)`: five codes, each in [0,25] (no `ensures`; it is `Step`'s precondition) |
| `WordleEnv.UnknownRow` | gym_wordle/envs/wordle_env.py:173-174 | a row of the board as `reset` builds it: five entries, all -1 |
| `WordleEnv.BoardOf` | gym_wordle/envs/wordle_env.py:133-143 | the board of a history has 6 rows of 5 codes |
| `WordleEnv.AlphabetOf` | gym_wordle/envs/wordle_env.py:134-175 | the tracker of a history, starting from all -1, has 26 entries |
| `WordleEnv.BoardOfRows` | gym_wordle/envs/wordle_env.py:133-153 | every board entry is in [-1,2]; a row is all -1 iff no guess was made at that turn; a used row is all 2 iff its guess was the hidden word |
| `WordleEnv.BoardOfAppend` | gym_wordle/envs/wordle_env.py:133-150 | one more guess writes its feedback row at index `len(guesses)` and leaves every other row as it was |
| `WordleEnv.AlphabetOfAppend` | gym_wordle/envs/wordle_env.py:134-150 | the one-step unfolding of `AlphabetOf` that the `Step` proof uses: one more guess updates the tracker by `Learn` with its feedback row, and the extended history is still a list of valid actions |
| `WordleEnv.AlphabetOfAt` | gym_wordle/envs/wordle_env.py:134-144 | a tracker entry is -1 iff no guess so far used that letter, and is always in [-1,2] |
| `WordleEnv.LatestGuessWins` | gym_wordle/envs/wordle_env.py:134-144 | after a guess, each of its letters holds the code of the letter's rightmost occurrence in that guess, whatever earlier guesses found |
| `WordleEnv.OverwriteExample` | gym_wordle/envs/wordle_env.py:144 | hidden "abase": after "aback" the entry for 'a' is 2, and the next guess "mamba" lowers it to 1 |
| `WordleEnv.Env.constructor` | gym_wordle/envs/wordle_env.py:89-123 | a new environment holds the word list and an empty guess list; board and tracker do not exist yet |
| `WordleEnv.Rows` | gym_wordle/envs/wordle_env.py:173-174 | a board array read as rows: one row per array row, entry for entry |
| `WordleEnv.RowsWritten` | gym_wordle/envs/wordle_env.py:143 | an array whose row `row` holds `r` and whose other rows agree with `before` reads as `before` with row `row` replaced by `r` |
| `WordleEnv.Env.Reset` | gym_wordle/envs/wordle_env.py:169-177 | the hidden word is from the list; six guesses left; no guesses made; a fresh 6x5 board of all -1 and a fresh tracker of 26 entries all -1; the episode invariant holds; the live arrays are returned |
| `WordleEnv.Env.WriteFeedback` | gym_wordle/envs/wordle_env.py:134-144 | the loop over the letters replaces board row `row` by the feedback row and leaves every other row unchanged; the tracker becomes the last-write-wins update of its old value |
| `WordleEnv.Env.Step` | gym_wordle/envs/wordle_env.py:125-164 | a word outside the list gives the "… is not a valid word." result and changes nothing. Otherwise: the board becomes the old board with row `6 - guessesLeft` replaced by the feedback row; the tracker is updated last-write-wins; one guess is used and the action is appended. Reward 1/done for a solved row, 0/not done while guesses remain, -1/done after the last. Reward 1 iff the guess is the hidden word; done iff solved or no guesses left |
| `WordleEnv.ObservationBounds` | gym_wordle/envs/wordle_env.py:119-122 | inside an episode every board and tracker entry is in [-1,2], the declared observation bounds |
| `WordleEnv.FilledRows` | gym_wordle/envs/wordle_env.py:133-150 | inside an episode a board row is all -1 iff its index is at least `6 - guessesLeft`, so the rows in use are exactly the turns played |

## Left out

- Loading the word list from the package data file (lines 25-28, 46-47) is I/O. `Env` takes the encoded list as a constructor argument, and `Reset` requires its entries to be five-tuples.
- `random.choice` in `reset` is a nondeterministic pick from the list. The model does not capture that the pick is uniform. On an empty list the source raises an error, which is the precondition `|words| > 0`. The ignored `seed` parameter is omitted.
- The gymnasium base class and the `spaces` objects (lines 90, 105-122) are not modelled. The action-space check is the precondition `IsAction` (five codes in [0,25]). The observation bounds are the lemma `ObservationBounds`.
- The empty `info` dict that `step` returns as its fourth value is omitted. The observation dict is returned as the pair of arrays.
- Two exceptions of `step` are preconditions, not modelled error paths. A word in the list at `guesses_left == 0` makes numpy raise `IndexError` at the board write (line 143), before anything changes; `Step` requires `guessesLeft > 0` for words in the list. A `step` before any `reset` still raises `InvalidWordException` for a word outside the list (line 129 runs before any attribute that `reset` creates is read); `Step` requires `Valid()`, which only holds after `Reset`.
- `render` (lines 179-206) is terminal printing that only reads the state.
- `random_guess.py` is a driver loop that samples random actions and retries on the invalid-word exception. It is left out.
- `Codec.ToStr`: defined only for codes in [0,25], for the same reason as `Codec.EncodeToStr` below.
- `Codec.EncodeToStr`: modelled only for codes in [0,25]. Python's `chr` accepts any code point, but the only caller passes an action that has already passed the action-space check.
- Python `assert` statements that are switched off under `python -O` are not modelled. They are always taken as checked.
- `guesses` holds the action values, not references to the caller's action arrays.
- Integer width: every stored value is in [-1,2] and every index is below 26, so numpy's integer width never matters.
