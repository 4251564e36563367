# Hangman game state, modelled and verified in Dafny

This project models the console Hangman game in `HANGMAN.py`. At construction a
secret word is picked from a word list and lower-cased. The player guesses one
letter at a time. A guess that is not a single letter is rejected. A letter
already tried is rejected too. A new letter is recorded. If it occurs in the
word, every position holding it is revealed. If it does not, one wrong guess is
spent. The game is won when no `_` is left in the reveal list. It is lost when no
wrong guess is left, and a win is checked first.

Files:

- `letters.dfy`, module `Letters`: the two string built-ins the game relies on,
  `str.isalpha` and `str.lower`, restricted to ASCII.
- `hangman.dfy`, module `Hangman`: the game.
  - A `Board` value holds the game's fields. The rules are stated as functions
    on it: `NewBoard`, `Normalize`, `StepLetter`, `Step`, `StatusOf` and `Render`.
  - The invariant `Consistent` says three things. Only lower-case letters are
    recorded. The mask is exactly `Mask(word, guessed)`, so a position is
    revealed if and only if its letter was tried. The counter equals
    `maxGuesses` minus the number of tried letters that are not in the word.
  - The class `Game` is the object the program mutates. Its fields `remaining`
    and `guessed` are reassigned, and the reveal list is an `array<char>` that
    `Guess` writes cell by cell. `Snapshot()` reads the fields as a `Board`,
    and each method is proved to follow the matching function.
  - `Run` applies any sequence of guesses. `Play` and the method `PlayHangman`
    model the `play_hangman` loop, with the console replaced by a list of
    input lines.
  - Client methods `ScenarioWin`, `ScenarioLoss` and `ScenarioUpperCase` walk
    through winning on "code", losing on "byte" with a limit of two, rejected
    input, and an upper-case guess.

## Model

| member | source | states |
|---|---|---|
| `Letters.ToLower` | HANGMAN.py:34 | lower-casing keeps letters letters and non-letters non-letters, always gives a lower-case letter for a letter, maps each upper-case letter to the lower-case letter at the same place in the alphabet, never leaves an upper-case character, and leaves every non-upper-case character as it is |
| `Letters.LowerString` | HANGMAN.py:7 | the lower-cased word has the same length, lower-cases each position, and contains no upper-case character |
| `Letters.LowerStringIdempotent` | HANGMAN.py:83-84 | lower-casing an already lower-cased line changes nothing (the driver lowers the line and `guess` lowers it again) |
| `Letters.IsAlpha` | HANGMAN.py:30 | `str.isalpha`: a non-empty string of letters; no contract of its own, its use in validation is stated by `Hangman.Normalize` |
| `Letters.LowerStringKeepsAlpha` | HANGMAN.py:83 | lower-casing does not change whether a line is alphabetic |
| `Hangman.NewBoard` | HANGMAN.py:5-11 | the new game satisfies the invariant; its word is the chosen list entry lower-cased; the counter and the limit are both `max_guesses`; no letter is tried; the mask has the word's length and is all `_` |
| `Hangman.Normalize` | HANGMAN.py:30-34 | input is accepted exactly when it is one alphabetic character; an accepted guess is a lower-case letter, namely the input lower-cased |
| `Hangman.Reveal` | HANGMAN.py:42-44 | the mask after the reveal loop, every position holding the letter set to it; no contract of its own, its meaning is proved in `Hangman.RevealExtendsMask` and stated by `Hangman.StepLetter` |
| `Hangman.StepLetter` | HANGMAN.py:35-47 | a letter already tried leaves the board unchanged and reports a repeat; a new letter is added to the tried letters and reported as a hit if and only if it occurs in the word; only a miss spends one guess; only a hit changes the mask, revealing exactly the positions holding the letter |
| `Hangman.Step` | HANGMAN.py:29-47 | input is reported invalid exactly when validation rejects it; rejected input leaves the board unchanged; the word and limit never change; the tried letters grow by at most one; the counter drops by at most one and never rises |
| `Hangman.RevealExtendsMask` | HANGMAN.py:42-44 | revealing a letter in the mask of a tried-letter set gives the mask of that set plus the letter |
| `Hangman.StepPreservesConsistency` | HANGMAN.py:39-47 | every guess keeps the invariant: the mask shows exactly the tried letters, and one guess is spent per wrong letter |
| `Hangman.RepeatedGuessChangesNothing` | HANGMAN.py:35-37 | guessing the same valid letter a second time reports a repeat and changes no field, so no guess is spent |
| `Hangman.StepIgnoresCase` | HANGMAN.py:83-84 | lower-casing the line before guessing gives the same result as guessing the raw line, so guesses are case-insensitive |
| `Hangman.RemainingBounds` | HANGMAN.py:45-47 | under the invariant the counter never exceeds the limit, and it equals the limit exactly when every tried letter is in the word |
| `Hangman.StatusOf` | HANGMAN.py:54-61 | the three-way decision of `is_game_over`, a win checked before a loss; no contract of its own, its meaning is proved in `Hangman.StatusMeaning` |
| `Hangman.StatusMeaning` | HANGMAN.py:54-61 | under the invariant the game is won exactly when every letter of the word has been tried, and lost exactly when no guess is left and some letter of the word is untried |
| `Hangman.RunPreservesConsistency` | HANGMAN.py:29-47 | the invariant holds after any sequence of guesses |
| `Hangman.RunMonotone` | HANGMAN.py:39-47 | over any sequence of n guesses the counter never rises and drops by at most n; the tried letters only grow; the word never changes |
| `Hangman.Play` | HANGMAN.py:81-84 | the `play_hangman` loop on a value: guess each lower-cased line while the game is not over; no contract of its own, its meaning is proved in `Hangman.PlayKeepsRemainingNonNegative` and `Hangman.PlayStopsOnlyWhenOver` |
| `Hangman.PlayKeepsRemainingNonNegative` | HANGMAN.py:81-84 | the driver checks for game over before each guess, so a game that starts with a non-negative counter never goes below zero |
| `Hangman.PlayStopsOnlyWhenOver` | HANGMAN.py:81-84 | a driver run that ends with the game still in progress has applied every input line, lower-cased |
| `Hangman.LowerAll` | HANGMAN.py:83 | each input line is lower-cased, and the lines keep their order |
| `Hangman.Join` | HANGMAN.py:50-52 | `sep.join` over one-character strings; no contract of its own, its meaning is proved in `Hangman.JoinLength`, `Hangman.JoinRoundTrip` and `Hangman.JoinGaps` |
| `Hangman.JoinLength` | HANGMAN.py:50 | joining n cells with a separator gives n cells plus n - 1 separators |
| `Hangman.JoinRoundTrip` | HANGMAN.py:50 | the cells can be read back from the joined string, so the join loses nothing |
| `Hangman.JoinGaps` | HANGMAN.py:50-52 | between each two neighbouring cells of a join sits exactly the separator: n cells give n - 1 separator gaps, each equal to `sep` |
| `Hangman.LeastExists` | HANGMAN.py:52 | every non-empty set of characters has a least element |
| `Hangman.Least` | HANGMAN.py:52 | the least character of a non-empty set is a member that no member is below |
| `Hangman.SortedLetters` | HANGMAN.py:52 | the sorted letters hold each member of the set exactly once, in strictly increasing order |
| `Hangman.Render` | HANGMAN.py:49-52 | `display_board` on a value: the mask joined with single spaces, the counter, and the sorted letters joined with ", "; no contract of its own, its meaning is proved in `Hangman.DisplayShowsBoard`, `Hangman.DisplaySeparators` and `Hangman.DisplayLengths` |
| `Hangman.DisplayShowsBoard` | HANGMAN.py:49-52 | the display gives the mask back cell by cell, shows the counter as it is, and lists each tried letter once, in increasing order |
| `Hangman.DisplaySeparators` | HANGMAN.py:50-52 | the mask cells are separated by single spaces and the sorted letters by ", ", one gap between each two neighbours |
| `Hangman.DisplayLengths` | HANGMAN.py:50-52 | the word line is 2n - 1 characters long for n mask cells and the letter line 3n - 2 for n tried letters (empty when there are none), so nothing follows the last cell |
| `Hangman.Game.constructor` | HANGMAN.py:5-11 | with the limit defaulting to 7, the new object satisfies the invariant; its word is the chosen entry lower-cased; its fields equal `NewBoard`; the reveal list is a fresh array |
| `Hangman.Game.Guess` | HANGMAN.py:29-47 | the object's new fields and the reported outcome are exactly what `Step` gives for the old fields; rejected input changes no field; the invariant is kept; the tried letters only grow and the counter never rises |
| `Hangman.Game.Status` | HANGMAN.py:54-61 | the decision of `is_game_over` on the object, `StatusOf` of its fields; no contract of its own, its meaning is proved in `Hangman.StatusMeaning` |
| `Hangman.Game.DisplayBoard` | HANGMAN.py:49-52 | `display_board` on the object, `Render` of its fields; no contract of its own, its meaning is proved in `Hangman.DisplayShowsBoard`, `Hangman.DisplaySeparators` and `Hangman.DisplayLengths` |
| `Hangman.Game.IsGameOver` | HANGMAN.py:54-61 | the game is over exactly when every letter of the word has been tried or no guess is left |
| `Hangman.PlayHangman` | HANGMAN.py:77-87 | with the limit defaulting to 7, running the loop on the object ends in the state `Play` describes; the final board satisfies the invariant; the counter never exceeds the limit, and it is never negative when the limit is not negative |

## Left out

- Console output: the `print` calls in `guess`, `display_board` and `is_game_over`. Instead `Guess` returns an `Outcome`, `Status` returns a `GameStatus` and `DisplayBoard` returns a `View`.
- Console input: `input()` is replaced by a list of lines. When the lines run out, `Play` and `PlayHangman` stop with the game in progress. At that point the program would raise `EOFError`.
- Configuration checks: the code validates neither the word list nor the limit. An empty list makes `random.choice` raise `IndexError`, so the constructor requires a valid index. Any integer limit is accepted. The counter is proved non-negative only for a limit that is not negative.
- `random.choice`: the random pick is replaced by an index that the caller supplies, which must fall inside the list.
- The labels of the display ("Current word: ", "Guesses left: ", "Guessed letters: ") and the decimal formatting of the counter. `View` keeps the counter as an integer.
- Full Unicode `str.isalpha` and `str.lower`. Only ASCII letters count as letters and only ASCII upper case is lowered, so a non-ASCII letter is rejected as invalid input.
- The abstract base class `WordGame` and its `abstractmethod` declarations. They only declare the three operations that `Game` defines.
- The hard-coded word list and the `__main__` entry point. The model accepts any list of strings.
- Any use of the stored word list `_words` after construction. `Game` keeps it in its `words` field, but nothing reads it.
