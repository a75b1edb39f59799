/** The single-player game of `screens/GameScreen.js`: a secret word from the
    fixed list, an input line of at most five letters typed on the on-screen
    keyboard, an append-only guess history capped at 99 guesses, and the set of
    letters used so far. The React state hooks become the fields of `Game`; the
    value `Screen` and the functions `NewGame`, `Guess` and `KeyPress` say what
    the handlers do to them. */
module GameScreen {
  import opened Letters
  import opened WordOracle
  import ClientWords

  const MaxGuesses: nat := 99
  const GuessLength: nat := 5

  /** `{ word, commonCount }`, one row of the history. */
  datatype GuessEntry = GuessEntry(word: string, commonCount: nat)

  /** The feedback line, by the message it shows. */
  datatype Feedback =
    | NoFeedback
    | NeedFiveLetters
    | UnknownWord
    | Solved
    | CommonLetters(count: nat)
    | OutOfGuesses(secret: string)

  /** The six state hooks of the screen. */
  datatype Screen = Screen(secretWord: string, currentGuess: string, guesses: seq<GuessEntry>,
                           feedback: Feedback, gameOver: bool, usedLetters: seq<char>)

  /** What every reachable screen satisfies: the history stays within the cap,
      reaching the cap ends the game, and the used letters are listed once each. */
  ghost predicate Inv(s: Screen) {
    |s.guesses| <= MaxGuesses &&
    (|s.guesses| == MaxGuesses ==> s.gameOver) &&
    NoDup(s.usedLetters)
  }

  /** `startNewGame()`, with `pick` standing for the random index the word generator draws. */
  function NewGame(pick: nat): (s: Screen)
    requires pick < |ClientWords.WordList|
    ensures Inv(s) && !s.gameOver
    ensures s.currentGuess == "" && s.guesses == [] && s.usedLetters == [] && s.feedback == NoFeedback
    ensures s.secretWord in ClientWords.WordList
    ensures IsValidGuess(s.secretWord) && ClientWords.IsWordInList(s.secretWord)
  {
    ClientWords.SecretIsValid(pick);
    Screen(ClientWords.GenerateSecretWord(pick), "", [], NoFeedback, false, [])
  }

  /** The two checks `handleGuess` makes before it scores a guess. */
  predicate Accepted(g: string) {
    |g| == GuessLength && IsValidGuess(g) && ClientWords.IsWordInList(g)
  }

  /** `handleGuess()`. A rejected guess only changes the feedback line. An
      accepted one is scored against the secret and appended to the history,
      clears the input line, adds its letters to the used letters, and ends the
      game when it matches the secret (ignoring case) or fills the history. */
  function Guess(s: Screen): (t: Screen)
    ensures t.secretWord == s.secretWord
    ensures !Accepted(s.currentGuess) ==>
      t.guesses == s.guesses && t.currentGuess == s.currentGuess &&
      t.usedLetters == s.usedLetters && t.gameOver == s.gameOver &&
      t.feedback == (if |s.currentGuess| != GuessLength then NeedFiveLetters else UnknownWord)
    ensures Accepted(s.currentGuess) ==>
      t.guesses == s.guesses + [GuessEntry(s.currentGuess, CountCommonLetters(s.secretWord, s.currentGuess))] &&
      t.currentGuess == "" &&
      Chars(t.usedLetters) == Chars(s.usedLetters) + Chars(s.currentGuess) &&
      NoDup(t.usedLetters) &&
      (NoDup(s.usedLetters) ==> |s.usedLetters| <= |t.usedLetters| && t.usedLetters[..|s.usedLetters|] == s.usedLetters) &&
      (t.gameOver <==> s.gameOver || Lower(s.currentGuess) == Lower(s.secretWord) || |t.guesses| >= MaxGuesses)
  {
    var g := s.currentGuess;
    if |g| != GuessLength then s.(feedback := NeedFiveLetters)
    else if !IsValidGuess(g) || !ClientWords.IsWordInList(g) then s.(feedback := UnknownWord)
    else
      var count := CountCommonLetters(s.secretWord, g);
      var guesses := s.guesses + [GuessEntry(g, count)];
      var used := Distinct(s.usedLetters + g);
      var solved := Lower(g) == Lower(s.secretWord);
      DistinctSpec(s.usedLetters + g);
      assert Chars(s.usedLetters + g) == Chars(s.usedLetters) + Chars(g);
      assert NoDup(s.usedLetters) ==> |s.usedLetters| <= |used| && used[..|s.usedLetters|] == s.usedLetters by {
        if NoDup(s.usedLetters) {
          DistinctKeepsPrefix(s.usedLetters, g);
        }
      }
      Screen(s.secretWord, "", guesses,
             if |guesses| >= MaxGuesses then OutOfGuesses(s.secretWord)
             else if solved then Solved else CommonLetters(count),
             s.gameOver || solved || |guesses| >= MaxGuesses,
             used)
  }

  /** `prev.slice(0, -1)`. */
  function DropLast(s: string): string {
    if s == [] then [] else s[..|s| - 1]
  }

  /** `handleKeyPress(key)`. */
  function KeyPress(s: Screen, key: string): (t: Screen)
    ensures t.secretWord == s.secretWord
    ensures s.gameOver ==> t == s
    ensures t.guesses == s.guesses || (|t.guesses| == |s.guesses| + 1 && t.guesses[..|s.guesses|] == s.guesses)
    ensures |t.guesses| == |s.guesses| + 1 <==> !s.gameOver && key == "ENTER" && Accepted(s.currentGuess)
    ensures key != "ENTER" ==> t.guesses == s.guesses && t.feedback == s.feedback && t.gameOver == s.gameOver
  {
    if s.gameOver then s
    else if key == "DELETE" then s.(currentGuess := DropLast(s.currentGuess))
    else if key == "ENTER" then Guess(s)
    else if key == "CLEAR" then s.(currentGuess := "", usedLetters := [])
    else if |s.currentGuess| < GuessLength then s.(currentGuess := s.currentGuess + Lower(key))
    else s
  }

  /** A correct guess (ignoring case) ends the game. */
  lemma SolvingEndsGame(s: Screen)
    requires Accepted(s.currentGuess) && Lower(s.currentGuess) == Lower(s.secretWord)
    ensures Guess(s).gameOver
    ensures Guess(s).feedback == Solved || Guess(s).feedback == OutOfGuesses(s.secretWord)
  {
  }

  /** Scoring a guess from a running game keeps the invariant: in particular the
      history never grows past 99 guesses. */
  lemma GuessKeepsInv(s: Screen)
    requires Inv(s) && !s.gameOver
    ensures Inv(Guess(s))
  {
  }

  /** Every key press keeps the invariant. */
  lemma KeyPressKeepsInv(s: Screen, key: string)
    requires Inv(s)
    ensures Inv(KeyPress(s, key))
  {
    if !s.gameOver && key == "ENTER" {
      GuessKeepsInv(s);
    }
  }

  /** `DELETE` drops the last character of the input, an empty input stays empty,
      and nothing else changes. */
  lemma DeleteDropsLast(s: Screen)
    requires !s.gameOver
    ensures var t := KeyPress(s, "DELETE");
      |t.currentGuess| == (if s.currentGuess == [] then 0 else |s.currentGuess| - 1) &&
      t.currentGuess <= s.currentGuess &&
      t.guesses == s.guesses && t.usedLetters == s.usedLetters && t.gameOver == s.gameOver &&
      t.feedback == s.feedback && t.secretWord == s.secretWord
  {
  }

  /** `CLEAR` empties the input and the used letters and nothing else. */
  lemma ClearEmptiesInput(s: Screen)
    requires !s.gameOver
    ensures var t := KeyPress(s, "CLEAR");
      t.currentGuess == "" && t.usedLetters == [] && t.guesses == s.guesses && t.gameOver == s.gameOver &&
      t.feedback == s.feedback && t.secretWord == s.secretWord
  {
  }

  /** A one-character letter key is appended lower-cased only while the input is
      shorter than five; so single-character keys keep the input at most five long. */
  lemma LetterKeyBounded(s: Screen, key: string)
    requires |key| == 1
    requires |s.currentGuess| <= GuessLength
    ensures var t := KeyPress(s, key);
      |t.currentGuess| <= GuessLength &&
      (!s.gameOver && |s.currentGuess| < GuessLength ==> t == s.(currentGuess := s.currentGuess + [LowerChar(key[0])])) &&
      (|s.currentGuess| == GuessLength ==> t == s)
  {
    LowerLength(key);
    LowerAt(key, 0);
  }

  /** The screen after a run of key presses. */
  function PressAll(s: Screen, keys: seq<string>): Screen
    decreases |keys|
  {
    if keys == [] then s else PressAll(KeyPress(s, keys[0]), keys[1..])
  }

  /** From any screen that satisfies the invariant, such as a fresh game, a run
      of key presses keeps it: at most 99 guesses and duplicate-free used letters. */
  lemma {:induction false} PressAllKeepsInv(s: Screen, keys: seq<string>)
    requires Inv(s)
    ensures Inv(PressAll(s, keys))
    ensures |PressAll(s, keys).guesses| <= MaxGuesses
    decreases |keys|
  {
    if keys != [] {
      KeyPressKeepsInv(s, keys[0]);
      PressAllKeepsInv(KeyPress(s, keys[0]), keys[1..]);
    }
  }

  /** With one-character keys, as the on-screen keyboard sends besides its
      command keys, the input line never holds more than five characters. */
  lemma {:induction false} PressAllKeepsInputShort(s: Screen, keys: seq<string>)
    requires |s.currentGuess| <= GuessLength
    requires forall i :: 0 <= i < |keys| ==> |keys[i]| == 1 || keys[i] == "DELETE" || keys[i] == "ENTER" || keys[i] == "CLEAR"
    ensures |PressAll(s, keys).currentGuess| <= GuessLength
    decreases |keys|
  {
    if keys != [] {
      var k := keys[0];
      if |k| == 1 {
        LetterKeyBounded(s, k);
      }
      PressAllKeepsInputShort(KeyPress(s, k), keys[1..]);
    }
  }

  /** The screen component's state. */
  class Game {
    var secretWord: string
    var currentGuess: string
    var guesses: seq<GuessEntry>
    var feedback: Feedback
    var gameOver: bool
    var usedLetters: seq<char>

    function State(): Screen
      reads this
    {
      Screen(secretWord, currentGuess, guesses, feedback, gameOver, usedLetters)
    }

    ghost predicate Valid()
      reads this
    {
      Inv(State())
    }

    /** Mounting the screen: the effect runs `startNewGame` once. */
    constructor (pick: nat)
      requires pick < |ClientWords.WordList|
      ensures Valid() && State() == NewGame(pick)
    {
      secretWord := ClientWords.GenerateSecretWord(pick);
      currentGuess := "";
      guesses := [];
      feedback := NoFeedback;
      gameOver := false;
      usedLetters := [];
    }

    /** `startNewGame()`, also bound to the New Game button. */
    method StartNewGame(pick: nat)
      requires pick < |ClientWords.WordList|
      modifies this
      ensures Valid() && State() == NewGame(pick)
    {
      secretWord := ClientWords.GenerateSecretWord(pick);
      currentGuess := "";
      guesses := [];
      feedback := NoFeedback;
      gameOver := false;
      usedLetters := [];
    }

    /** `handleGuess()`; it is reached only from `handleKeyPress` while the game runs. */
    method HandleGuess()
      requires Valid() && !gameOver
      modifies this
      ensures Valid() && State() == Guess(old(State()))
    {
      ghost var s := State();
      GuessKeepsInv(s);
      if |currentGuess| != GuessLength {
        feedback := NeedFiveLetters;
        return;
      }
      if !IsValidGuess(currentGuess) || !ClientWords.IsWordInList(currentGuess) {
        feedback := UnknownWord;
        return;
      }
      ghost var want := Guess(s);
      var commonCount := CountCommonLetters(secretWord, currentGuess);
      var newGuesses := guesses + [GuessEntry(currentGuess, commonCount)];
      guesses := newGuesses;
      usedLetters := Distinct(usedLetters + currentGuess);
      if Lower(currentGuess) == Lower(secretWord) {
        feedback := Solved;
        gameOver := true;
      } else {
        feedback := CommonLetters(commonCount);
      }
      currentGuess := "";
      if |newGuesses| >= MaxGuesses {
        feedback := OutOfGuesses(secretWord);
        gameOver := true;
      }
      assert want.guesses == guesses && want.usedLetters == usedLetters;
      assert want.feedback == feedback && want.gameOver == gameOver;
    }

    /** `handleKeyPress(key)`. */
    method HandleKeyPress(key: string)
      requires Valid()
      modifies this
      ensures Valid() && State() == KeyPress(old(State()), key)
    {
      KeyPressKeepsInv(State(), key);
      if gameOver {
        return;
      }
      if key == "DELETE" {
        currentGuess := DropLast(currentGuess);
      } else if key == "ENTER" {
        HandleGuess();
      } else if key == "CLEAR" {
        currentGuess := "";
        usedLetters := [];
      } else if |currentGuess| < GuessLength {
        currentGuess := currentGuess + Lower(key);
      }
    }
  }
}
