# Jotto: room server, word rules and single-player screen in Dafny

Jotto is a two-player word-deduction game. Each player picks a secret five-letter
word. The players then take turns guessing the opponent's word. After each guess
they learn only how many distinct letters the guess shares with the secret.

This project models three parts of the JottoApp repository:

- **The multiplayer room server** (`jotto-server/server.js`). Module `JottoServer`.
  The process-wide `games` map is the class `RoomTable`. A JavaScript `Map`
  keeps its keys in insertion order, so the class stores that key order (`order`)
  beside the entries (`rooms`). Each socket event handler is one method:
  `Connect`, `CreateRoom`, `JoinRoom`, `SubmitWord`, `MakeGuess` and `Disconnect`.
  A handler returns what it emits as a list of `Notification(recipient, message)`
  values. A recipient is the acting socket, the sockets of a room, or everyone.
  The generated room code, the connection id and the dictionary are parameters.
- **The word rules.** `countCommonLetters` has the same body in
  `jotto-server/server.js`, `jotto-server/gameLogic.js` and `utils/gameLogic.js`.
  `isValidGuess` and `isWordInList` have the same bodies in the two
  `gameLogic.js` files only. The server's own `isValidWord` is a different check:
  dictionary membership of the lower-cased word, with no length or letter test
  (`JottoServer.IsValidWord`). The shared rules are defined once, in
  `WordOracle`, on top of the character helpers in `Letters`.
  `ServerWords` holds the server word list and its fallbacks. `ClientWords`
  holds the fixed ten-word list of the single-player game.
- **The single-player screen** (`screens/GameScreen.js`). Module `GameScreen`.
  The React state hooks are the fields of class `Game`. Its methods
  `StartNewGame`, `HandleKeyPress` and `HandleGuess` are proved against the
  functions `NewGame`, `KeyPress` and `Guess` over the value type `Screen`.
  Lemmas about those functions state what the screen guarantees: at most 99
  guesses, an input line of at most five characters, a frozen screen once the
  game is over, and duplicate-free used letters.

The server invariant (`RoomTable.Valid`) is that every key is listed once and
every live room holds one or two players. Every handler preserves it.

## Where the code departs from the intended protocol

The model follows the code. The intended two-player protocol is stricter: a room
code is unique, a room holds two distinct players, words are fixed before play,
turns alternate, and a room ends when a player leaves. The code differs from
that in these places:

- `createRoom` does not check for a code collision. It replaces an existing room
  with the same code, and the replaced key keeps its place in the listing order.
- `submitWord` has no phase check and does not require two players. A creator
  alone in a room who submits a word triggers `gameStart` and gets the turn.
  Submitting again replaces the word and gives the turn back to `players[0]`.
- "Has a word" is JavaScript truthiness. An empty string counts as no word
  (`HasWord`).
- Nothing stops one connection from joining its own room a second time.
- `disconnect` deletes a room only when no player is left. A room left with one
  player stays live and is listed as joinable again. `currentTurn` is not
  cleared, so a newcomer can join a game that is already under way.
- `makeGuess` looks up the first player whose id differs from the guesser's and
  reads that player's word with no check. If there is no such player, or that
  player has no word yet, the handler throws before it changes anything. The
  model reports this as `threw` and leaves the table as it was.
- A guess from a player who does not hold the turn, a guess outside the
  dictionary, and a guess for a missing room are all dropped without a reply.
- A finished game emits `gameOver` and deletes the room. It does not
  re-broadcast the room listing.
- The server has no handler for the `getAvailableRooms` event that the client
  sends. The listing is pushed on connect, create, a join that fills a room, and
  disconnect.

## Model

| member | source | states |
|---|---|---|
| `Letters.DistinctSpec` | screens/GameScreen.js:73-75 | `[...new Set(s)]` keeps exactly the characters of `s` and lists each one once |
| `WordOracle.KeepInCount` | jotto-server/server.js:68 | filtering a duplicate-free letter list by a set keeps one entry per common letter |
| `WordOracle.CountCommonLetters` | jotto-server/server.js:65-69 | the score is the size of the intersection of the two words' lower-cased letter sets |
| `WordOracle.CommonLettersBound` | jotto-server/server.js:65-69 | the score is at most the distinct-letter count of either word |
| `WordOracle.CommonLettersSymmetric` | jotto-server/gameLogic.js:29-33 | swapping the two words does not change the score |
| `WordOracle.CommonLettersCaseInsensitive` | jotto-server/gameLogic.js:29-33 | lower-casing either word first does not change the score |
| `WordOracle.CommonLettersAppleApple` | jotto-server/gameLogic.js:29-33 | "apple" against itself scores 4: repeated letters count once |
| `WordOracle.CommonLettersWithItself` | utils/gameLogic.js:19-23 | a word against itself scores its number of distinct lower-cased letters |
| `WordOracle.CommonLettersChairBeach` | utils/gameLogic.js:19-23 | "chair" against "beach" scores 3 |
| `WordOracle.CommonLettersAtMostFive` | utils/gameLogic.js:19-27 | two valid guesses never share more than five letters |
| `WordOracle.MatchesLetters` | jotto-server/gameLogic.js:36 | `/^[a-zA-Z]+$/` holds iff the string is non-empty and every character is an ASCII letter |
| `WordOracle.IsValidGuess` | jotto-server/gameLogic.js:35-37 | a guess is valid iff it has exactly five characters and all are ASCII letters; any other length or a non-letter is rejected |
| `WordOracle.InListCaseInsensitive` | jotto-server/gameLogic.js:39-41 | list membership of a word equals membership of its lower-cased form |
| `ServerWords.GenerateSecretWord` | jotto-server/gameLogic.js:21-27 | an empty list yields the fallback word "apple"; otherwise the result is an element of the list |
| `ServerWords.FallbackWordsValid` | jotto-server/gameLogic.js:14 | every word of the load-failure fallback list is a valid guess and is found by the membership test |
| `ServerWords.FallbackSecretInFallbackList` | jotto-server/gameLogic.js:14-24 | the empty-list fallback secret is a valid word of the fallback list |
| `ClientWords.GenerateSecretWord` | utils/gameLogic.js:15-17 | the secret is always one of the ten listed words |
| `ClientWords.WordListWellFormed` | utils/gameLogic.js:2-13 | every listed word is a valid guess and is found by the membership test |
| `ClientWords.SecretIsValid` | utils/gameLogic.js:2-17 | every secret the generator can draw is valid, listed and already lower-case |
| `ClientWords.IsWordInListCaseInsensitive` | utils/gameLogic.js:29-31 | the membership test ignores case |
| `JottoServer.IsValidWordCaseInsensitive` | jotto-server/server.js:26-31 | the dictionary check ignores the case of the word |
| `JottoServer.IndexOfPlayer` | jotto-server/server.js:169 | `findIndex` by id returns -1 iff no player has the id, else the first index that does |
| `JottoServer.IndexOfOpponent` | jotto-server/server.js:144 | `find` of a different id gives -1 iff every player has the guesser's id, else the first other player |
| `JottoServer.RemoveAt` | jotto-server/server.js:171 | `splice(k, 1)` removes exactly the k-th player and keeps the others in order |
| `JottoServer.Without` | jotto-server/server.js:173 | deleting a key removes exactly that key from the key order and keeps the rest in order |
| `JottoServer.Available` | jotto-server/server.js:56-63 | the listing holds exactly the rooms with fewer than two players, each with its player count, in key order |
| `JottoServer.FirstRoomWith` | jotto-server/server.js:168-170 | the disconnect loop stops at the first room, in key order, that holds the connection |
| `JottoServer.RoomTable.constructor` | jotto-server/server.js:50 | the table starts empty |
| `JottoServer.RoomTable.GetAvailableRooms` | jotto-server/server.js:56-63 | a summary is listed iff its room is live with fewer than two players and the count is right; codes follow insertion order |
| `JottoServer.RoomTable.Connect` | jotto-server/server.js:81 | a new connection receives one message: the listing of every joinable room with its count, each once, in key order; nothing changes |
| `JottoServer.RoomTable.CreateRoom` | jotto-server/server.js:83-94 | the code maps to a room with only the creator (no word), no turn and no guesses, replacing any room with that code; the room is listed; the creator and everyone are notified |
| `JottoServer.RoomTable.JoinRoom` | jotto-server/server.js:96-110 | a missing or full room gives a `joinError` to the requester only, with no change; otherwise the player is appended, the count becomes exactly 2 and `waitingForWords` goes to the room |
| `JottoServer.RoomTable.SubmitWord` | jotto-server/server.js:112-139 | a missing room or an out-of-dictionary word changes nothing and replies to the submitter only; a valid word is stored lower-cased on the submitter; the turn goes to `players[0]` and `gameStart` is sent exactly when every player holds a word |
| `JottoServer.RoomTable.MakeGuess` | jotto-server/server.js:141-164 | nothing changes unless the room exists, the caller holds the turn and the word is in the dictionary; a missing opponent or word throws with no change; a correct guess sends `gameOver` and deletes the room; any other guess appends one scored record and passes the turn to the opponent |
| `JottoServer.RoomTable.Disconnect` | jotto-server/server.js:166-180 | only the first room holding the connection loses that player; the room is deleted only when empty; other rooms are untouched; a room left with one player is listed again |
| `GameScreen.NewGame` | screens/GameScreen.js:30-39 | a new game has an empty input, history and used letters, no feedback, is not over, and its secret is a valid word of the list |
| `GameScreen.Guess` | screens/GameScreen.js:56-94 | a rejected guess only sets the feedback; an accepted one appends one scored record, clears the input, makes the used letters the duplicate-free union of the old ones and the guess, and ends the game on a case-insensitive match or at 99 guesses |
| `GameScreen.KeyPress` | screens/GameScreen.js:41-54 | a key press never changes the secret and changes nothing once the game is over; it adds a record exactly when `ENTER` is pressed in a running game on an acceptable guess, and at most one; any other key leaves the history, feedback and game state alone |
| `GameScreen.SolvingEndsGame` | screens/GameScreen.js:77-79 | a guess equal to the secret ignoring case ends the game |
| `GameScreen.GuessKeepsInv` | screens/GameScreen.js:88-93 | a guess from a running game keeps the history at most 99 long, ending the game at 99 |
| `GameScreen.KeyPressKeepsInv` | screens/GameScreen.js:41-54 | every key press keeps the screen invariant |
| `GameScreen.DeleteDropsLast` | screens/GameScreen.js:44-45 | `DELETE` drops the last character, an empty input stays empty; history, used letters, game state, feedback and secret are unchanged |
| `GameScreen.ClearEmptiesInput` | screens/GameScreen.js:48-50 | `CLEAR` empties the input and the used letters; the history, game state, feedback and secret are unchanged |
| `GameScreen.LetterKeyBounded` | screens/GameScreen.js:51-52 | a one-character key is appended lower-cased while the input is shorter than five, with every other field unchanged; at five characters nothing changes |
| `GameScreen.PressAllKeepsInv` | screens/GameScreen.js:88-93 | from a valid screen, any run of key presses keeps at most 99 guesses |
| `GameScreen.PressAllKeepsInputShort` | screens/GameScreen.js:51-53 | with one-character keys besides the command keys, the input never exceeds five characters |
| `GameScreen.Game.constructor` | screens/GameScreen.js:19-28 | mounting the screen yields the state of a new game |
| `GameScreen.Game.StartNewGame` | screens/GameScreen.js:30-39 | the fields become `NewGame(pick)` |
| `GameScreen.Game.HandleGuess` | screens/GameScreen.js:56-94 | the fields become `Guess` of the old fields and the invariant is kept |
| `GameScreen.Game.HandleKeyPress` | screens/GameScreen.js:41-54 | the fields become `KeyPress` of the old fields and the key, and the invariant is kept |

## Left out

- Socket.io transport: `socket.join`, the room channels and delivery. `RoomMembers(code)` names the channel symbolically. Which sockets are still joined to it, for example after the room is deleted, is not modelled.
- The HTTPS server, TLS keys, CORS, the Express routes and the network-interface listing: setup only.
- Console logging everywhere.
- `generateRoomCode`: it uses `Math.random`. The code is a parameter of `CreateRoom`, and its base-36, upper-case, at most six-character format is not modelled.
- `Math.random` in both `generateSecretWord` functions: the drawn index is the parameter `pick`.
- Loading the dictionary (`readFileSync`, split, trim, lower-case) and the asynchronous word-list load in `jotto-server/gameLogic.js`: file I/O. The dictionary and the loaded list are parameters.
- `toLowerCase` is modelled for ASCII letters only. Other characters are left unchanged.
- An exception thrown by `makeGuess` is reported as `threw` with the table unchanged. What the Node process then does with the uncaught exception is not modelled.
- The feedback strings of the single-player screen are modelled by their kind (`Feedback`). The interpolated text is not.
- React's batching of state updates: each handler runs to completion on the state of the last render, as sequential field assignments.
- `GameScreen.Game.HandleGuess`: requires a running game, because its only caller, `handleKeyPress`, returns early once the game is over.
- screens/MultiplayerGameScreen.js, screens/AlphabetScratchpad.js, screens/HomeScreen.js, App.js and the style sheets: UI wiring and rendering.
- Concurrency: the event loop runs one handler at a time, so each handler is one atomic method call and interleavings are not modelled.
