/** The fixed word list of the single-player game (`utils/gameLogic.js`). */
module ClientWords {
  import opened Letters
  import opened WordOracle

  const WordList: seq<string> :=
    ["apple", "beach", "chair", "dance", "eagle", "flame", "grape", "house", "ivory", "jelly"]

  /** `generateSecretWord()`. `pick` stands for `Math.floor(Math.random() * wordList.length)`. */
  function GenerateSecretWord(pick: nat): (w: string)
    requires pick < |WordList|
    ensures w in WordList
  {
    WordList[pick]
  }

  /** `isWordInList(word)`. */
  function IsWordInList(w: string): bool {
    InList(WordList, w)
  }

  /** Every listed word is a valid guess and is found by the membership test. */
  lemma WordListWellFormed()
    ensures forall w :: w in WordList ==> IsValidGuess(w) && IsWordInList(w)
  {
    forall i | 0 <= i < |WordList|
      ensures IsValidGuess(WordList[i]) && IsWordInList(WordList[i])
    {
      LowercaseWordValid(WordList[i]);
    }
  }

  /** So every secret the generator can draw is a valid, listed, lower-case word. */
  lemma SecretIsValid(pick: nat)
    requires pick < |WordList|
    ensures IsValidGuess(GenerateSecretWord(pick)) && IsWordInList(GenerateSecretWord(pick))
    ensures Lower(GenerateSecretWord(pick)) == GenerateSecretWord(pick)
  {
    LowercaseWordValid(WordList[pick]);
  }

  /** The membership test ignores case. */
  lemma IsWordInListCaseInsensitive(w: string)
    ensures IsWordInList(w) == IsWordInList(Lower(w))
  {
    InListCaseInsensitive(WordList, w);
  }
}
