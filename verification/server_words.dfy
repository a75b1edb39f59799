/** The server-side word list of `jotto-server/gameLogic.js`. The list is module
    state that a file load fills in; here it is passed in as `wordList`. */
module ServerWords {
  import opened Letters
  import opened WordOracle

  /** The list used when the word file cannot be read. */
  const FallbackWordList: seq<string> := ["apple", "beach", "chair", "dance", "eagle"]

  /** The word returned when the list is empty. */
  const FallbackSecret: string := "apple"

  /** `generateSecretWord()`. `pick` stands for `Math.floor(Math.random() * wordList.length)`,
      which lies below the length whenever the list is non-empty. */
  function GenerateSecretWord(wordList: seq<string>, pick: nat): (w: string)
    requires wordList != [] ==> pick < |wordList|
    ensures wordList == [] ==> w == FallbackSecret
    ensures wordList != [] ==> w in wordList
  {
    if |wordList| == 0 then FallbackSecret else wordList[pick]
  }

  /** `isWordInList(word)` against the loaded list. */
  function IsWordInList(wordList: seq<string>, w: string): bool {
    InList(wordList, w)
  }

  /** Every fallback word is a valid guess and is found in the fallback list. */
  lemma FallbackWordsValid()
    ensures forall w :: w in FallbackWordList ==> IsValidGuess(w) && IsWordInList(FallbackWordList, w)
  {
    forall i | 0 <= i < |FallbackWordList|
      ensures IsValidGuess(FallbackWordList[i]) && IsWordInList(FallbackWordList, FallbackWordList[i])
    {
      LowercaseWordValid(FallbackWordList[i]);
    }
  }

  /** With the list unloaded the fallback secret is still a word of the fallback list. */
  lemma FallbackSecretInFallbackList(pick: nat)
    ensures GenerateSecretWord([], pick) in FallbackWordList
    ensures IsValidGuess(GenerateSecretWord([], pick))
  {
    FallbackWordsValid();
  }
}
