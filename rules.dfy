/**
 The rules of the Hangman game played in the browser: what counts as a
 letter, how the word is lowercased, what the word display shows, how wrong
 guesses are counted, when the game is won or lost, how many chances are
 left and how much of the figure is drawn. Everything here is a pure
 function of the game state; the class in game.dfy holds that state.
 */
module HangmanRules {

  /** The number of wrong guesses that loses the game. */
  const MaxIncorrectGuesses: nat := 5

  /** The labels of the on-screen keys, in the order the keyboard creates them. */
  const Keys: string := "ABCDEFGHIJKLMNOPQRSTUVWXYZ"

  /** A letter that a key click can produce: a lowercase ASCII letter. */
  predicate IsLetter(c: char)
  {
    'a' <= c <= 'z'
  }

  predicate IsUpper(c: char)
  {
    'A' <= c <= 'Z'
  }

  /** Lowercasing of one character, on the ASCII letters. */
  function LowerChar(c: char): (r: char)
    ensures IsLetter(r) <==> IsLetter(c) || IsUpper(c)
    ensures !IsUpper(r)
    ensures !IsUpper(c) ==> r == c
    ensures IsUpper(c) ==> r as int - 'a' as int == c as int - 'A' as int
  {
    if IsUpper(c) then (c as int - 'A' as int + 'a' as int) as char else c
  }

  /** Lowercasing of a whole word, character by character. */
  function ToLower(s: string): (r: string)
    ensures |r| == |s|
    ensures forall i :: 0 <= i < |s| ==> r[i] == LowerChar(s[i])
  {
    if s == [] then [] else [LowerChar(s[0])] + ToLower(s[1..])
  }

  lemma ToLowerIdempotent(s: string)
    ensures ToLower(ToLower(s)) == ToLower(s)
  {
  }

  /** The letter that a click on key `i` passes to the guess handler. */
  function KeyLetter(i: nat): (c: char)
    requires i < |Keys|
    ensures IsLetter(c)
  {
    LowerChar(Keys[i])
  }

  /** Key `i` produces the `i`-th letter of the alphabet. */
  lemma KeyLetterIndex(i: nat)
    requires i < |Keys|
    ensures KeyLetter(i) as int == 'a' as int + i
  {
  }

  /** Every letter has exactly one key. */
  lemma KeyForEveryLetter(c: char)
    requires IsLetter(c)
    ensures exists i :: 0 <= i < |Keys| && KeyLetter(i) == c
    ensures forall i, j :: 0 <= i < j < |Keys| ==> KeyLetter(i) != KeyLetter(j)
  {
    var n := c as int - 'a' as int;
    KeyLetterIndex(n);
    forall i, j | 0 <= i < j < |Keys| ensures KeyLetter(i) != KeyLetter(j) {
      KeyLetterIndex(i);
      KeyLetterIndex(j);
    }
  }

  predicate NoDuplicates(s: seq<char>)
  {
    forall i, j :: 0 <= i < j < |s| ==> s[i] != s[j]
  }

  /** What the word display shows: every guessed character of the word, `_` elsewhere. */
  function Masked(word: string, guessed: seq<char>): (r: string)
    ensures |r| == |word|
    ensures forall i :: 0 <= i < |word| ==> r[i] == if word[i] in guessed then word[i] else '_'
  {
    if word == [] then []
    else [if word[0] in guessed then word[0] else '_'] + Masked(word[1..], guessed)
  }

  /** Every character of the word has been guessed. */
  predicate AllGuessed(word: string, guessed: seq<char>)
    ensures AllGuessed(word, guessed) ==> Masked(word, guessed) == word
    ensures !AllGuessed(word, guessed) ==> '_' in Masked(word, guessed)
  {
    forall i :: 0 <= i < |word| ==> word[i] in guessed
  }

  /** The guessed letters that do not occur in the word. */
  function WrongLetters(word: string, guessed: seq<char>): set<char>
  {
    set l | l in guessed && l !in word
  }

  /** Appending a fresh guess adds one wrong letter exactly when the letter is
      not in the word. */
  lemma WrongLettersAppend(word: string, guessed: seq<char>, c: char)
    requires c !in guessed
    ensures |WrongLetters(word, guessed + [c])| ==
            |WrongLetters(word, guessed)| + (if c in word then 0 else 1)
  {
    var before, after := WrongLetters(word, guessed), WrongLetters(word, guessed + [c]);
    if c in word {
      assert after == before;
    } else {
      assert after == before + {c};
      assert c !in before;
    }
  }

  /** The guessed letters that occur in the word. */
  function RightLetters(word: string, guessed: seq<char>): set<char>
  {
    set l | l in guessed && l in word
  }

  /** The distinct characters of the word. */
  function WordLetters(word: string): set<char>
  {
    set l | l in word
  }

  /** Without duplicates, every guess is either right or wrong, so the guesses
      number the right letters plus the wrong ones; the right letters are
      characters of the word. */
  lemma {:induction false} SplitGuesses(word: string, guessed: seq<char>)
    requires NoDuplicates(guessed)
    ensures |guessed| == |RightLetters(word, guessed)| + |WrongLetters(word, guessed)|
    ensures RightLetters(word, guessed) <= WordLetters(word)
    ensures |RightLetters(word, guessed)| <= |WordLetters(word)|
  {
    if guessed != [] {
      var g, c := guessed[..|guessed| - 1], guessed[|guessed| - 1];
      assert guessed == g + [c];
      assert NoDuplicates(g);
      assert c !in g;
      SplitGuesses(word, g);
      WrongLettersAppend(word, g, c);
      if c in word {
        assert RightLetters(word, guessed) == RightLetters(word, g) + {c};
      } else {
        assert RightLetters(word, guessed) == RightLetters(word, g);
      }
    }
    SubsetCardinality(RightLetters(word, guessed), WordLetters(word));
  }

  lemma {:induction false} SubsetCardinality(a: set<char>, b: set<char>)
    requires a <= b
    ensures |a| <= |b|
  {
    if a != {} {
      var x :| x in a;
      SubsetCardinality(a - {x}, b - {x});
    }
  }

  datatype Status = Won | Lost | InProgress

  /** The verdict of the status check: a win is tested before a loss. */
  function GameStatus(word: string, guessed: seq<char>, wrong: nat): (r: Status)
    ensures r == Won <==> AllGuessed(word, guessed)
    ensures r == Lost <==> !AllGuessed(word, guessed) && wrong >= MaxIncorrectGuesses
    ensures r == InProgress <==> !AllGuessed(word, guessed) && Remaining(wrong) > 0
  {
    if AllGuessed(word, guessed) then Won
    else if wrong >= MaxIncorrectGuesses then Lost
    else InProgress
  }

  /** The chances shown to the player. */
  function Remaining(wrong: nat): (r: int)
    ensures r <= MaxIncorrectGuesses
    ensures r > 0 <==> wrong < MaxIncorrectGuesses
    ensures wrong <= MaxIncorrectGuesses ==> 0 <= r
  {
    MaxIncorrectGuesses - wrong
  }

  /** A state that satisfies both the win and the loss condition is a win. */
  lemma WinTakesPrecedence(word: string, guessed: seq<char>, wrong: nat)
    requires AllGuessed(word, guessed) && wrong >= MaxIncorrectGuesses
    ensures GameStatus(word, guessed, wrong) == Won
  {
  }

  /** The game goes on exactly while some character is hidden and chances remain. */
  lemma InProgressIff(word: string, guessed: seq<char>, wrong: nat)
    requires forall k :: 0 <= k < |guessed| ==> IsLetter(guessed[k])
    ensures GameStatus(word, guessed, wrong) == InProgress <==>
            '_' in Masked(word, guessed) && Remaining(wrong) > 0
  {
    WonIffFullyRevealed(word, guessed);
  }

  /** Once only letters are guessed, the game is won exactly when the display
      has no blank left. */
  lemma WonIffFullyRevealed(word: string, guessed: seq<char>)
    requires forall k :: 0 <= k < |guessed| ==> IsLetter(guessed[k])
    ensures AllGuessed(word, guessed) <==> '_' !in Masked(word, guessed)
  {
    var r := Masked(word, guessed);
    if AllGuessed(word, guessed) {
      forall i | 0 <= i < |r| ensures r[i] != '_' {
        assert word[i] in guessed;
        var k :| 0 <= k < |guessed| && guessed[k] == word[i];
        assert IsLetter(guessed[k]);
      }
    } else {
      var i :| 0 <= i < |word| && word[i] !in guessed;
      assert r[i] == '_';
    }
  }

  /** The word is lowercased but not filtered: a character that is not a
      letter can never be guessed, so it stays blank and the game can never
      be won. */
  lemma NonLetterBlocksWin(word: string, guessed: seq<char>, i: nat)
    requires forall k :: 0 <= k < |guessed| ==> IsLetter(guessed[k])
    requires i < |word| && !IsLetter(word[i])
    ensures Masked(word, guessed)[i] == '_'
    ensures forall wrong: nat :: GameStatus(word, guessed, wrong) != Won
  {
  }

  /** A word with a non-letter whose letters are all guessed without five
      wrong guesses is neither won nor lost: once every key is used the game
      stays in progress. The hyphenated alphabet shows that this happens. */
  lemma StuckWithoutLoss(word: string, guessed: seq<char>, wrong: nat, i: nat)
    requires forall k :: 0 <= k < |guessed| ==> IsLetter(guessed[k])
    requires i < |word| && !IsLetter(word[i])
    requires wrong < MaxIncorrectGuesses
    ensures GameStatus(word, guessed, wrong) == InProgress
  {
    NonLetterBlocksWin(word, guessed, i);
  }

  lemma HyphenatedAlphabetStuck()
    ensures var word, guessed := "abcdefghijklmnopqrstuvwxyz-", seq(|Keys|, k requires 0 <= k < |Keys| => KeyLetter(k));
      && WrongLetters(word, guessed) == {}
      && (forall k :: 0 <= k < |Keys| ==> KeyLetter(k) in guessed)
      && GameStatus(word, guessed, |WrongLetters(word, guessed)|) == InProgress
  {
    var word, guessed := "abcdefghijklmnopqrstuvwxyz-", seq(|Keys|, k requires 0 <= k < |Keys| => KeyLetter(k));
    forall k | 0 <= k < |Keys| ensures KeyLetter(k) in word && KeyLetter(k) in guessed {
      KeyLetterIndex(k);
      assert word[k] == KeyLetter(k);
      assert guessed[k] == KeyLetter(k);
    }
    assert WrongLetters(word, guessed) == {};
    StuckWithoutLoss(word, guessed, 0, 26);
  }

  /** Right after a reset the display is all blanks, and the game is in
      progress for every non-empty word. */
  lemma FreshGame(w: string)
    ensures Masked(ToLower(w), []) == seq(|w|, _ => '_')
    ensures GameStatus(ToLower(w), [], 0) == (if w == [] then Won else InProgress)
  {
    if w != [] {
      assert ToLower(w)[0] !in [];
    }
  }

  /** The parts of the figure, in the order wrong guesses unlock them. */
  datatype Part = Head | Torso | LeftArm | RightArm | Legs

  const Figure: seq<Part> := [Head, Torso, LeftArm, RightArm, Legs]

  /** The parts drawn after `wrong` wrong guesses, one threshold per part. */
  function Drawn(wrong: nat): (r: seq<Part>)
    ensures r == Figure[..if wrong < |Figure| then wrong else |Figure|]
  {
    (if wrong > 0 then [Head] else [])
    + (if wrong > 1 then [Torso] else [])
    + (if wrong > 2 then [LeftArm] else [])
    + (if wrong > 3 then [RightArm] else [])
    + (if wrong > 4 then [Legs] else [])
  }

  /** The number of parts drawn. */
  function Stage(wrong: nat): (n: nat)
    ensures n == if wrong < MaxIncorrectGuesses then wrong else MaxIncorrectGuesses
  {
    |Drawn(wrong)|
  }

  /** More wrong guesses never erase a part, and each one adds at most one. */
  lemma DrawnMonotone(a: nat, b: nat)
    requires a <= b
    ensures Drawn(a) <= Drawn(b)
    ensures Stage(a) <= Stage(b) <= Stage(a) + (b - a)
  {
  }

  /** A wrong guess below the limit unlocks exactly the next part. */
  lemma DrawnStep(wrong: nat)
    ensures wrong < |Figure| ==> Drawn(wrong + 1) == Drawn(wrong) + [Figure[wrong]]
    ensures wrong >= |Figure| ==> Drawn(wrong + 1) == Drawn(wrong)
  {
  }
}
