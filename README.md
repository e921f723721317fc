# Hangman game state machine

A Dafny model of the client-side Hangman game in
`hangman_app/static/hangman_app/js/game.js`. Once the server has sent a word,
the browser keeps four pieces of state: the lowercased current word, the
letters guessed so far, the number of wrong guesses, and the on-screen
keyboard, whose 26 keys can each be enabled or disabled. A click on an enabled
key guesses that key's letter. After every fresh guess the word display and
the remaining chances are redrawn; the figure is redrawn after a reset and
after every wrong guess, the only guesses that change the count it depends on.
The game is then checked: if it is won or lost, every key is disabled. The
limit of 5 wrong guesses is the constant `MaxIncorrectGuesses`
(game.js:5), and the key labels A to Z are the constant `Keys` (game.js:76).

- `rules.dfy` (module `HangmanRules`) holds the pure rules. These cover
  lowercasing, the key letters, the masked word display, the set of wrong
  letters, the win/loss verdict (a win is tested first), the remaining chances
  (`5 - wrong`) and the figure parts unlocked by wrong guesses.
- `game.dfy` (module `HangmanGame`) holds class `Game`. Its fields are `word`,
  `guessed`, `wrong` and `disabled`, an array of per-button disabled flags. Its
  methods follow the handlers in the source: `Start` (the reset once a word
  arrives), `CreateKeyboard`, `Guess` (the guess handler), `UpdateKeyboardState`,
  `DisableKeyboard`, `CheckGameStatus`, `Click` (a browser click on a key) and
  `RenderWord` (the word-display loop).

The invariant `Valid` holds after every call to the guess handler. It says
that the guessed letters are lowercase letters without duplicates, and that
`wrong` is the number of guessed letters not in the word. The stronger
invariant `Playable` holds in every state that clicks can reach. It says that
a key is disabled exactly when its letter was guessed or the game is over, and
that `wrong` never exceeds 5. The guess handler has no game-over guard of its
own. Only the disabled keys stop guessing after a win or a loss, and `Click`
proves that a finished game stays frozen.

The status check runs only after a fresh guess, never right after a reset.
`Finished` captures this: it needs at least one guess. This matters only for
an empty word, which the check would call won at once (no characters left to
guess). So right after a reset the game is in progress exactly when the word
is not empty (`FreshGame`).

The word is lowercased but not filtered. A word with a space or a hyphen
therefore has a position that no key can reveal, and such a game can never be
won (`NonLetterBlocksWin`, `Game.NonLetterWordNeverWon`). It ends in a loss,
or, once every key has been used with fewer than five wrong guesses, it stays
in progress with every key disabled and no message (`StuckWithoutLoss`,
`HyphenatedAlphabetStuck`, `Game.KeyboardExhausted`).

## Model

| member | source | states |
|---|---|---|
| `HangmanRules.LowerChar` | hangman_app/static/hangman_app/js/game.js:46 | the result is a lowercase letter iff the input is a letter of either case; it is never uppercase; the k-th capital maps to the k-th lowercase letter; a non-uppercase input is returned unchanged |
| `HangmanRules.ToLower` | hangman_app/static/hangman_app/js/game.js:46 | the lowercased word has the same length and lowercases each position |
| `HangmanRules.ToLowerIdempotent` | hangman_app/static/hangman_app/js/game.js:46 | lowercasing twice is the same as lowercasing once |
| `HangmanRules.KeyLetter` | hangman_app/static/hangman_app/js/game.js:76-81 | a click on any key passes a lowercase letter a to z to the guess handler |
| `HangmanRules.KeyLetterIndex` | hangman_app/static/hangman_app/js/game.js:76-81 | key i passes the i-th letter of the alphabet |
| `HangmanRules.KeyForEveryLetter` | hangman_app/static/hangman_app/js/game.js:76-81 | every lowercase letter has a key, and no two keys pass the same letter |
| `HangmanRules.Masked` | hangman_app/static/hangman_app/js/game.js:64-69 | the display is as long as the word; position i shows the word's character iff it was guessed, otherwise `_` |
| `HangmanRules.AllGuessed` | hangman_app/static/hangman_app/js/game.js:116 | when every character of the word is guessed the display equals the word itself; otherwise the display still shows a `_` |
| `HangmanRules.WrongLettersAppend` | hangman_app/static/hangman_app/js/game.js:88-93 | appending a fresh guess adds exactly one wrong letter if the letter is not in the word, and none otherwise |
| `HangmanRules.SplitGuesses` | hangman_app/static/hangman_app/js/game.js:88-93 | without duplicates, the number of guesses is the number of right letters plus the number of wrong letters, and the right letters are among the word's distinct characters |
| `HangmanRules.Remaining` | hangman_app/static/hangman_app/js/game.js:137 | the shown chances are at most 5, positive iff fewer than 5 wrong guesses were made, and not negative while at most 5 were made |
| `HangmanRules.GameStatus` | hangman_app/static/hangman_app/js/game.js:115-127 | Won iff every character is guessed; otherwise Lost iff wrong >= 5; otherwise InProgress, which holds iff some character is unguessed and chances remain |
| `HangmanRules.WinTakesPrecedence` | hangman_app/static/hangman_app/js/game.js:116-122 | a state that is both fully guessed and at the wrong-guess limit is reported as a win |
| `HangmanRules.WonIffFullyRevealed` | hangman_app/static/hangman_app/js/game.js:116 | when only letters are guessed, every character is guessed iff the display has no `_` left |
| `HangmanRules.InProgressIff` | hangman_app/static/hangman_app/js/game.js:115-127 | the game is in progress iff the display still has a `_` and chances remain |
| `HangmanRules.NonLetterBlocksWin` | hangman_app/static/hangman_app/js/game.js:46-48 | a character of the word that is not a letter a to z is always shown as `_`, and the game is never won whatever the wrong-guess count |
| `HangmanRules.StuckWithoutLoss` | hangman_app/static/hangman_app/js/game.js:115-127 | with a non-letter in the word and fewer than 5 wrong guesses, neither the win nor the loss branch fires, whatever letters were guessed |
| `HangmanRules.HyphenatedAlphabetStuck` | hangman_app/static/hangman_app/js/game.js:88-93 | for the word "abcdefghijklmnopqrstuvwxyz-" with every key's letter guessed, no guess is wrong and the status is in progress |
| `HangmanRules.FreshGame` | hangman_app/static/hangman_app/js/game.js:46-48 | after a reset the display is all `_`, and the status is in progress for a non-empty word (won only for the empty word) |
| `HangmanRules.Drawn` | hangman_app/static/hangman_app/js/game.js:158-188 | the parts drawn are the first min(wrong, 5) parts of head, torso, left arm, right arm, legs |
| `HangmanRules.Stage` | hangman_app/static/hangman_app/js/game.js:158-188 | the number of parts drawn is min(wrong, 5) |
| `HangmanRules.DrawnMonotone` | hangman_app/static/hangman_app/js/game.js:158-188 | more wrong guesses never remove a part, and each adds at most one |
| `HangmanRules.DrawnStep` | hangman_app/static/hangman_app/js/game.js:158-188 | below the limit a wrong guess unlocks exactly the next part; at the limit nothing more is drawn |
| `HangmanGame.Game.constructor` | hangman_app/static/hangman_app/js/game.js:2-5 | the session starts with no word, no guesses, no wrong guesses and no keyboard, in a playable state |
| `HangmanGame.Game.Start` | hangman_app/static/hangman_app/js/game.js:45-53 | the word is the lowercased input; the guesses are empty and the counter is 0; a fresh 26-key keyboard has every key enabled; the state is playable |
| `HangmanGame.Game.CreateKeyboard` | hangman_app/static/hangman_app/js/game.js:74-84 | a fresh keyboard of 26 keys, none disabled |
| `HangmanGame.Game.Guess` | hangman_app/static/hangman_app/js/game.js:87-101 | a repeated letter changes nothing; a fresh letter is appended once; the counter rises by 1 iff the letter is not in the word; each key is then disabled iff its letter is guessed or the game is won or lost; the counter invariant and no-duplicates are kept |
| `HangmanGame.Game.UpdateKeyboardState` | hangman_app/static/hangman_app/js/game.js:104-112 | each key is disabled iff its letter has been guessed |
| `HangmanGame.Game.DisableKeyboard` | hangman_app/static/hangman_app/js/game.js:131-133 | every key is disabled |
| `HangmanGame.Game.CheckGameStatus` | hangman_app/static/hangman_app/js/game.js:115-128 | returns the win-first verdict; on a win or loss every key is disabled, otherwise the keyboard is unchanged |
| `HangmanGame.Game.Click` | hangman_app/static/hangman_app/js/game.js:81 | a disabled key changes nothing; an enabled key guesses a fresh letter; a finished game never changes; every reachable state stays playable, so at most 5 wrong guesses are made |
| `HangmanGame.Game.RenderWord` | hangman_app/static/hangman_app/js/game.js:62-70 | the display the loop builds equals the masked word |
| `HangmanGame.Game.ChancesBounded` | hangman_app/static/hangman_app/js/game.js:136-138 | in every playable state the remaining chances lie in 0 to 5, and the figure stage equals the wrong-guess count |
| `HangmanGame.Game.GuessesBounded` | hangman_app/static/hangman_app/js/game.js:87-100 | in every playable state, the guesses made are at most the word's distinct characters plus 5 |
| `HangmanGame.Game.KeyboardExhausted` | hangman_app/static/hangman_app/js/game.js:104-127 | in a playable state where every key's letter is guessed, every key is disabled, so no click changes anything; if moreover the word has a non-letter and fewer than 5 wrong guesses were made, the game is in progress and not finished, so it never ends |
| `HangmanGame.Game.NonLetterWordNeverWon` | hangman_app/static/hangman_app/js/game.js:115-117 | a game whose word has a character outside a to z is never won |

## Left out

- The word request (`fetch`, JSON parsing, the error message on failure) is network I/O. `Start` models only the reset done once a word string has arrived. The server's own word choice (database query and random pick) is not part of this model.
- DOM plumbing is left out: element lookups, event listeners, span and button creation, the `correct`/`wrong` CSS classes on keys, the win/loss message text and the visibility of the new-game buttons. Only the enabled/disabled state of the keys is kept.
- Canvas drawing (coordinates, arcs, `Math.PI`) is floating-point rendering. Only the integer thresholds are kept, as the list of parts drawn (`Drawn`). The final threshold draws both legs, which are modelled as one part.
- The page reload of the new-game button is a browser side effect. The new-word button is the same reset as `Start`.
- HangmanRules.LowerChar: lowercases only the ASCII letters A to Z. JavaScript's `toLowerCase` also maps non-ASCII capitals. Strings are sequences of Dafny characters, without UTF-16 surrogate pairs.
- The word display, the remaining chances and the figure are not stored as fields. The model gives them as `RenderWord`, `Remaining` and `Drawn`, functions of the state. The display and the chances are redrawn after every fresh guess; the figure only after a reset and a wrong guess, which are the only changes to `wrong`, so it always equals `Drawn(wrong)`.
