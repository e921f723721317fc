/**
 The state of one browser session of the game: the current word, the letters
 guessed so far, the number of wrong guesses and the on-screen keyboard. The
 word display, the remaining chances and the figure are not stored: they are
 drawn from this state (`RenderWord`, `Remaining`, `Drawn`). The display and
 the chances are redrawn after every fresh guess, the figure after a reset and
 after every wrong guess, the only guesses that change its input.
 */
module HangmanGame {
  import opened HangmanRules

  class Game {
    var word: string
    var guessed: seq<char>
    var wrong: nat
    /** The disabled flag of each key button, in the order of `Keys`; empty
        until the first keyboard is created. */
    var disabled: array<bool>

    /** The bookkeeping that every guess keeps. */
    predicate Valid()
      reads this
    {
      && (forall k :: 0 <= k < |guessed| ==> IsLetter(guessed[k]))
      && NoDuplicates(guessed)
      && wrong == |WrongLetters(word, guessed)|
      && (disabled.Length == 0 || disabled.Length == |Keys|)
    }

    /** The status has been checked and the game is over. The check runs only
        after a fresh guess, never right after a reset. */
    predicate Finished()
      reads this
    {
      |guessed| > 0 && GameStatus(word, guessed, wrong) != InProgress
    }

    /** What holds of every state reached by clicking keys: a key is disabled
        exactly when its letter was guessed or the game is over, and so no more
        than the allowed number of wrong guesses is ever made. */
    predicate Playable()
      reads this, disabled
    {
      && Valid()
      && wrong <= MaxIncorrectGuesses
      && (disabled.Length == 0 ==> guessed == [])
      && forall i :: 0 <= i < disabled.Length ==> disabled[i] == (KeyLetter(i) in guessed || Finished())
    }

    /** The module-level state before any word has arrived. */
    constructor ()
      ensures word == [] && guessed == [] && wrong == 0 && disabled.Length == 0
      ensures Playable()
    {
      word, guessed, wrong := [], [], 0;
      disabled := new bool[0];
    }

    /** A word arrived from the server: lowercase it, clear the guesses and
        build a fresh keyboard with every key enabled. */
    method Start(w: string)
      modifies this
      ensures word == ToLower(w) && guessed == [] && wrong == 0
      ensures fresh(disabled) && disabled.Length == |Keys|
      ensures forall i :: 0 <= i < disabled.Length ==> !disabled[i]
      ensures Playable()
    {
      word := ToLower(w);
      guessed := [];
      wrong := 0;
      CreateKeyboard();
    }

    /** One new button per letter, none of them disabled. */
    method CreateKeyboard()
      modifies this`disabled
      ensures fresh(disabled) && disabled.Length == |Keys|
      ensures forall i :: 0 <= i < disabled.Length ==> !disabled[i]
    {
      var buttons := new bool[|Keys|];
      for i := 0 to buttons.Length
        invariant forall j :: 0 <= j < i ==> !buttons[j]
      {
        buttons[i] := false;
      }
      disabled := buttons;
    }

    /** The guess handler. A letter already guessed changes nothing. A fresh
        letter is appended, counts as wrong when the word does not contain it,
        re-enables every key whose letter is unguessed and triggers the status
        check. There is no game-over guard of its own. */
    method Guess(c: char)
      requires Valid() && IsLetter(c)
      modifies this, disabled
      ensures Valid()
      ensures word == old(word) && disabled == old(disabled)
      ensures c in old(guessed) ==>
        guessed == old(guessed) && wrong == old(wrong) && disabled[..] == old(disabled[..])
      ensures c !in old(guessed) ==>
        && guessed == old(guessed) + [c]
        && wrong == old(wrong) + (if c in word then 0 else 1)
        && forall i :: 0 <= i < disabled.Length ==>
             disabled[i] == (KeyLetter(i) in guessed || GameStatus(word, guessed, wrong) != InProgress)
    {
      if c !in guessed {
        WrongLettersAppend(word, guessed, c);
        guessed := guessed + [c];
        if c !in word {
          wrong := wrong + 1;
        }
        UpdateKeyboardState();
        var _ := CheckGameStatus();
      }
    }

    /** Disable exactly the keys whose letters were guessed. */
    method UpdateKeyboardState()
      requires disabled.Length == 0 || disabled.Length == |Keys|
      modifies disabled
      ensures forall i :: 0 <= i < disabled.Length ==> disabled[i] == (KeyLetter(i) in guessed)
    {
      for i := 0 to disabled.Length
        invariant forall j :: 0 <= j < i ==> disabled[j] == (KeyLetter(j) in guessed)
      {
        disabled[i] := KeyLetter(i) in guessed;
      }
    }

    /** Disable every key. */
    method DisableKeyboard()
      modifies disabled
      ensures forall i :: 0 <= i < disabled.Length ==> disabled[i]
    {
      for i := 0 to disabled.Length
        invariant forall j :: 0 <= j < i ==> disabled[j]
      {
        disabled[i] := true;
      }
    }

    /** Decide the game and, once it is won or lost, disable the keyboard. */
    method CheckGameStatus() returns (s: Status)
      modifies disabled
      ensures s == GameStatus(word, guessed, wrong)
      ensures s != InProgress ==> forall i :: 0 <= i < disabled.Length ==> disabled[i]
      ensures s == InProgress ==> disabled[..] == old(disabled[..])
    {
      if AllGuessed(word, guessed) {
        s := Won;
        DisableKeyboard();
      } else if wrong >= MaxIncorrectGuesses {
        s := Lost;
        DisableKeyboard();
      } else {
        s := InProgress;
      }
    }

    /** A click on key `i`. The browser delivers no click to a disabled button,
        so a disabled key changes nothing; an enabled one guesses its letter.
        Once the game is over every key is disabled and the state is frozen. */
    method Click(i: nat)
      requires Playable() && i < disabled.Length
      modifies this, disabled
      ensures Playable()
      ensures word == old(word) && disabled == old(disabled)
      ensures old(disabled[i]) ==>
        guessed == old(guessed) && wrong == old(wrong) && disabled[..] == old(disabled[..])
      ensures !old(disabled[i]) ==>
        && guessed == old(guessed) + [KeyLetter(i)]
        && wrong == old(wrong) + (if KeyLetter(i) in word then 0 else 1)
      ensures old(Finished()) ==> guessed == old(guessed) && wrong == old(wrong)
    {
      if !disabled[i] {
        Guess(KeyLetter(i));
      }
    }

    /** The word display: the guessed characters of the word, `_` for the rest. */
    method RenderWord() returns (shown: string)
      ensures shown == Masked(word, guessed)
    {
      shown := [];
      for k := 0 to |word|
        invariant shown == Masked(word[..k], guessed)
      {
        shown := shown + [if word[k] in guessed then word[k] else '_'];
      }
      assert word[..|word|] == word;
    }

    /** What the remaining-chances display shows never leaves 0 to 5. */
    lemma ChancesBounded()
      requires Playable()
      ensures 0 <= Remaining(wrong) <= MaxIncorrectGuesses
      ensures Stage(wrong) == wrong
    {
    }

    /** A game takes at most as many guesses as the word has distinct
        characters plus the allowed wrong guesses. */
    lemma GuessesBounded()
      requires Playable()
      ensures |guessed| <= |WordLetters(word)| + MaxIncorrectGuesses
    {
      SplitGuesses(word, guessed);
    }

    /** Once every key has been used, every button is disabled and no click
        changes the state; a word with a non-letter then stays in progress
        unless five wrong guesses were made. */
    lemma KeyboardExhausted()
      requires Playable() && disabled.Length == |Keys|
      requires forall k :: 0 <= k < |Keys| ==> KeyLetter(k) in guessed
      ensures forall k :: 0 <= k < disabled.Length ==> disabled[k]
      ensures (exists i :: 0 <= i < |word| && !IsLetter(word[i])) && wrong < MaxIncorrectGuesses ==>
              GameStatus(word, guessed, wrong) == InProgress && !Finished()
    {
      if (exists i :: 0 <= i < |word| && !IsLetter(word[i])) && wrong < MaxIncorrectGuesses {
        var i :| 0 <= i < |word| && !IsLetter(word[i]);
        StuckWithoutLoss(word, guessed, wrong, i);
      }
    }

    /** A word with a character outside a to z is never won. */
    lemma NonLetterWordNeverWon(i: nat)
      requires Valid() && i < |word| && !IsLetter(word[i])
      ensures GameStatus(word, guessed, wrong) != Won
    {
      NonLetterBlocksWin(word, guessed, i);
    }
  }
}
