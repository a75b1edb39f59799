/** The multiplayer room table of `jotto-server/server.js` and its five socket
    event handlers. Each handler is one atomic method call on a `RoomTable`; the
    socket I/O it performs is returned as a list of notifications, and the room
    code, the connection id and the dictionary are parameters. */
module JottoServer {
  import opened Letters
  import opened WordOracle

  datatype Option<T> = None | Some(value: T)

  type ConnId = string
  type RoomCode = string

  /** `{ id, word }`; `word` starts as `null`. */
  datatype Player = Player(id: ConnId, word: Option<string>)

  /** `{ player, word, commonCount }`, one per accepted guess. */
  datatype GuessRecord = GuessRecord(player: ConnId, word: string, commonCount: nat)

  /** `{ players, currentTurn, guesses }`, the value stored under a room code. */
  datatype Game = Game(players: seq<Player>, currentTurn: Option<ConnId>, guesses: seq<GuessRecord>)

  /** `{ code, players }` as listed by `getAvailableRooms`. */
  datatype RoomSummary = RoomSummary(code: RoomCode, players: nat)

  /** Who an emit reaches: the acting socket, every socket joined to the room's
      channel, or every connected socket. */
  datatype Recipient = Socket(id: ConnId) | RoomMembers(code: RoomCode) | Everyone

  /** The outbound events, named after the socket events they stand for
      (`GameNotFound` is the one emitted under the event name "error"). */
  datatype Message =
    | RoomCreated(code: RoomCode)
    | RoomJoined(code: RoomCode)
    | JoinError(reason: string)
    | WaitingForWords
    | WordAccepted
    | WaitingForOpponent
    | GameStart(firstPlayer: ConnId)
    | InvalidWord(reason: string)
    | GameNotFound(reason: string)
    | GuessResult(player: ConnId, word: string, commonCount: nat, nextTurn: ConnId)
    | GameOver(winner: ConnId, word: string)
    | PlayerDisconnected(id: ConnId)
    | AvailableRooms(rooms: seq<RoomSummary>)

  datatype Notification = Notification(to: Recipient, msg: Message)

  const JoinErrorText: string := "Room not found or full"
  const InvalidWordText: string := "The word is not in the dictionary. Please choose another word."
  const GameNotFoundText: string := "Game not found"

  /** `isValidWord(word)`: the lower-cased word is in the dictionary. */
  function IsValidWord(dictionary: set<string>, w: string): bool {
    Lower(w) in dictionary
  }

  /** The dictionary check ignores the case of the word. */
  lemma IsValidWordCaseInsensitive(dictionary: set<string>, w: string)
    ensures IsValidWord(dictionary, w) == IsValidWord(dictionary, Lower(w))
  {
    LowerIdempotent(w);
  }

  /** JavaScript truthiness of `p.word`: both `null` and the empty string are false. */
  predicate HasWord(p: Player) {
    p.word.Some? && p.word.value != ""
  }

  /** `players.every((p) => p.word)`. */
  predicate AllHaveWords(ps: seq<Player>) {
    forall i :: 0 <= i < |ps| ==> HasWord(ps[i])
  }

  /** `players.findIndex((p) => p.id === id)`: the first index holding `id`, or -1. */
  function IndexOfPlayer(ps: seq<Player>, id: ConnId): (k: int)
    ensures -1 <= k < |ps|
    ensures k == -1 <==> forall j :: 0 <= j < |ps| ==> ps[j].id != id
    ensures k >= 0 ==> ps[k].id == id && forall j :: 0 <= j < k ==> ps[j].id != id
  {
    if ps == [] then -1
    else if ps[0].id == id then 0
    else
      var k := IndexOfPlayer(ps[1..], id);
      if k == -1 then -1 else k + 1
  }

  /** `players.find((p) => p.id !== id)` as an index: the first player with
      another id, or -1 when there is none. */
  function IndexOfOpponent(ps: seq<Player>, id: ConnId): (k: int)
    ensures -1 <= k < |ps|
    ensures k == -1 <==> forall j :: 0 <= j < |ps| ==> ps[j].id == id
    ensures k >= 0 ==> ps[k].id != id && forall j :: 0 <= j < k ==> ps[j].id == id
  {
    if ps == [] then -1
    else if ps[0].id != id then 0
    else
      var k := IndexOfOpponent(ps[1..], id);
      if k == -1 then -1 else k + 1
  }

  /** `players.splice(k, 1)`. */
  function RemoveAt(ps: seq<Player>, k: nat): (r: seq<Player>)
    requires k < |ps|
    ensures |r| == |ps| - 1
    ensures forall j :: 0 <= j < k ==> r[j] == ps[j]
    ensures forall j :: k <= j < |r| ==> r[j] == ps[j + 1]
  {
    ps[..k] + ps[k + 1..]
  }

  /** The key order of a JavaScript `Map` after `delete(x)`. */
  function Without(s: seq<RoomCode>, x: RoomCode): (r: seq<RoomCode>)
    ensures forall y :: y in r <==> y in s && y != x
    ensures NoDup(s) ==> NoDup(r)
    ensures IsSubsequence(r, s)
  {
    if s == [] then []
    else if s[0] == x then Without(s[1..], x)
    else
      var r := Without(s[1..], x);
      assert NoDup(s) ==> s[0] !in s[1..] && NoDup(s[1..]);
      [s[0]] + r
  }

  /** `xs` is `ys` with some elements dropped and the rest kept in order. */
  predicate IsSubsequence<T(==)>(xs: seq<T>, ys: seq<T>)
    decreases |ys|
  {
    if ys == [] then xs == []
    else (xs != [] && xs[0] == ys[0] && IsSubsequence(xs[1..], ys[1..])) || IsSubsequence(xs, ys[1..])
  }

  /** The codes of a room listing, in listing order. */
  function Codes(r: seq<RoomSummary>): (cs: seq<RoomCode>)
    ensures |cs| == |r| && forall i :: 0 <= i < |r| ==> cs[i] == r[i].code
  {
    if r == [] then [] else [r[0].code] + Codes(r[1..])
  }

  /** `getAvailableRooms()` over the table's key order `order`: every room with
      fewer than two players, with its player count, in insertion order. */
  function Available(order: seq<RoomCode>, rooms: map<RoomCode, Game>): (r: seq<RoomSummary>)
    requires forall c :: c in order ==> c in rooms
    ensures IsSubsequence(Codes(r), order)
    ensures forall s :: s in r ==> s.code in order && |rooms[s.code].players| < 2 && s.players == |rooms[s.code].players|
    ensures forall c :: c in order && |rooms[c].players| < 2 ==> RoomSummary(c, |rooms[c].players|) in r
  {
    if order == [] then []
    else
      var rest := Available(order[1..], rooms);
      var g := rooms[order[0]];
      if |g.players| < 2 then
        assert Codes([RoomSummary(order[0], |g.players|)] + rest) == [order[0]] + Codes(rest);
        [RoomSummary(order[0], |g.players|)] + rest
      else rest
  }

  /** The shape every handler keeps: each code is listed once, the listed codes are
      exactly the live rooms, and every live room holds one or two players. */
  ghost predicate TableInv(order: seq<RoomCode>, rooms: map<RoomCode, Game>) {
    NoDup(order) &&
    (forall c :: c in order <==> c in rooms) &&
    (forall c :: c in rooms ==> 1 <= |rooms[c].players| <= 2)
  }

  /** Deleting a room, and its key from the key order, keeps the shape. */
  lemma DeleteKeepsInv(order: seq<RoomCode>, rooms: map<RoomCode, Game>, c: RoomCode)
    requires TableInv(order, rooms)
    ensures TableInv(Without(order, c), rooms - {c})
  {
  }

  /** Replacing a live room by one with one or two players keeps the shape. */
  lemma ReplaceKeepsInv(order: seq<RoomCode>, rooms: map<RoomCode, Game>, c: RoomCode, g: Game)
    requires TableInv(order, rooms) && c in rooms && 1 <= |g.players| <= 2
    ensures TableInv(order, rooms[c := g])
  {
  }

  /** A live room with a single player appears in the listing with count 1. */
  lemma LoneRoomListed(order: seq<RoomCode>, rooms: map<RoomCode, Game>, c: RoomCode)
    requires forall d :: d in order ==> d in rooms
    requires c in order && |rooms[c].players| == 1
    ensures RoomSummary(c, 1) in Available(order, rooms)
  {
  }

  /** The index in `order` of the first room holding `id` (`|order|` when none),
      which is where the disconnect loop stops. */
  function FirstRoomWith(order: seq<RoomCode>, rooms: map<RoomCode, Game>, id: ConnId): (i: nat)
    requires forall c :: c in order ==> c in rooms
    ensures i <= |order|
    ensures forall j :: 0 <= j < i ==> IndexOfPlayer(rooms[order[j]].players, id) == -1
    ensures i < |order| ==> IndexOfPlayer(rooms[order[i]].players, id) >= 0
  {
    if order == [] then 0
    else if IndexOfPlayer(rooms[order[0]].players, id) >= 0 then 0
    else 1 + FirstRoomWith(order[1..], rooms, id)
  }

  /** The guard of the `makeGuess` handler: the room exists, the caller holds
      the turn and the guess is in the dictionary. */
  predicate GuessAccepted(rooms: map<RoomCode, Game>, code: RoomCode, id: ConnId,
                          guess: string, dictionary: set<string>)
  {
    code in rooms && rooms[code].currentTurn == Some(id) && IsValidWord(dictionary, guess)
  }

  /** The process-wide `games` map. A JavaScript `Map` remembers insertion order,
      so it is kept as the key order `order` beside the entries `rooms`. */
  class RoomTable {
    var order: seq<RoomCode>
    var rooms: map<RoomCode, Game>

    /** The keys are listed once each, and every live room holds one or two players. */
    ghost predicate Valid()
      reads this
    {
      TableInv(order, rooms)
    }

    constructor ()
      ensures Valid() && order == [] && rooms == map[]
    {
      order := [];
      rooms := map[];
    }

    /** `getAvailableRooms()`: exactly the rooms with fewer than two players,
        each with its player count, in insertion order. */
    function GetAvailableRooms(): (r: seq<RoomSummary>)
      reads this
      requires Valid()
      ensures forall s :: s in r <==> s.code in rooms && |rooms[s.code].players| < 2 && s.players == |rooms[s.code].players|
      ensures IsSubsequence(Codes(r), order)
    {
      Available(order, rooms)
    }

    /** A new connection is sent the current room listing (each joinable room
        once, in key order) and nothing changes. */
    method Connect(sock: ConnId) returns (notes: seq<Notification>)
      requires Valid()
      ensures notes == [Notification(Socket(sock), AvailableRooms(GetAvailableRooms()))]
      ensures forall s :: s in notes[0].msg.rooms <==>
        s.code in rooms && |rooms[s.code].players| < 2 && s.players == |rooms[s.code].players|
    {
      notes := [Notification(Socket(sock), AvailableRooms(GetAvailableRooms()))];
    }

    /** The `createRoom` handler. The new room replaces any room already stored
        under `code`; a replaced key keeps its place in the key order. */
    method CreateRoom(sock: ConnId, code: RoomCode) returns (notes: seq<Notification>)
      requires Valid()
      modifies this
      ensures Valid()
      ensures rooms == old(rooms)[code := Game([Player(sock, None)], None, [])]
      ensures order == if code in old(rooms) then old(order) else old(order) + [code]
      ensures RoomSummary(code, 1) in GetAvailableRooms()
      ensures notes == [Notification(Socket(sock), RoomCreated(code)),
                        Notification(Everyone, AvailableRooms(GetAvailableRooms()))]
    {
      if code !in rooms {
        order := order + [code];
      }
      rooms := rooms[code := Game([Player(sock, None)], None, [])];
      notes := [Notification(Socket(sock), RoomCreated(code)),
                Notification(Everyone, AvailableRooms(GetAvailableRooms()))];
    }

    /** The `joinRoom` handler. A missing or full room is refused with a
        `joinError` to the requester alone; otherwise the player is appended, and
        a room that thereby fills announces `waitingForWords`. */
    method JoinRoom(sock: ConnId, code: RoomCode) returns (notes: seq<Notification>)
      requires Valid()
      modifies this
      ensures Valid()
      ensures order == old(order)
      ensures !(code in old(rooms) && |old(rooms)[code].players| < 2) ==>
        rooms == old(rooms) && notes == [Notification(Socket(sock), JoinError(JoinErrorText))]
      ensures code in old(rooms) && |old(rooms)[code].players| < 2 ==>
        var g := old(rooms)[code];
        rooms == old(rooms)[code := g.(players := g.players + [Player(sock, None)])] &&
        notes == [Notification(Socket(sock), RoomJoined(code))] +
                 (if |rooms[code].players| == 2
                  then [Notification(RoomMembers(code), WaitingForWords),
                        Notification(Everyone, AvailableRooms(GetAvailableRooms()))]
                  else [])
      ensures code in old(rooms) && |old(rooms)[code].players| < 2 ==> |rooms[code].players| == 2
    {
      if code in rooms && |rooms[code].players| < 2 {
        var g := rooms[code];
        rooms := rooms[code := g.(players := g.players + [Player(sock, None)])];
        notes := [Notification(Socket(sock), RoomJoined(code))];
        if |rooms[code].players| == 2 {
          notes := notes + [Notification(RoomMembers(code), WaitingForWords),
                            Notification(Everyone, AvailableRooms(GetAvailableRooms()))];
        }
      } else {
        notes := [Notification(Socket(sock), JoinError(JoinErrorText))];
      }
    }

    /** The `submitWord` handler. There is no phase check and no check that the
        room is full: as soon as every player present holds a word, the first
        player gets the turn and `gameStart` goes out. */
    method SubmitWord(sock: ConnId, code: RoomCode, word: string, dictionary: set<string>)
      returns (notes: seq<Notification>)
      requires Valid()
      modifies this
      ensures Valid()
      ensures order == old(order)
      ensures code !in old(rooms) ==>
        rooms == old(rooms) && notes == [Notification(Socket(sock), GameNotFound(GameNotFoundText))]
      ensures code in old(rooms) && !IsValidWord(dictionary, word) ==>
        rooms == old(rooms) && notes == [Notification(Socket(sock), InvalidWord(InvalidWordText))]
      ensures code in old(rooms) && IsValidWord(dictionary, word) &&
              IndexOfPlayer(old(rooms)[code].players, sock) == -1 ==>
        rooms == old(rooms) && notes == []
      ensures code in old(rooms) && IsValidWord(dictionary, word) &&
              IndexOfPlayer(old(rooms)[code].players, sock) >= 0 ==>
        var g := old(rooms)[code];
        var ps := g.players[IndexOfPlayer(g.players, sock) := Player(sock, Some(Lower(word)))];
        if AllHaveWords(ps) then
          rooms == old(rooms)[code := g.(players := ps, currentTurn := Some(ps[0].id))] &&
          notes == [Notification(Socket(sock), WordAccepted),
                    Notification(RoomMembers(code), GameStart(ps[0].id))]
        else
          rooms == old(rooms)[code := g.(players := ps)] &&
          notes == [Notification(Socket(sock), WordAccepted),
                    Notification(Socket(sock), WaitingForOpponent)]
    {
      if code !in rooms {
        notes := [Notification(Socket(sock), GameNotFound(GameNotFoundText))];
        return;
      }
      if !IsValidWord(dictionary, word) {
        notes := [Notification(Socket(sock), InvalidWord(InvalidWordText))];
        return;
      }
      var g := rooms[code];
      var k := IndexOfPlayer(g.players, sock);
      if k == -1 {
        notes := [];
        return;
      }
      var ps := g.players[k := Player(sock, Some(Lower(word)))];
      notes := [Notification(Socket(sock), WordAccepted)];
      if AllHaveWords(ps) {
        rooms := rooms[code := g.(players := ps, currentTurn := Some(ps[0].id))];
        notes := notes + [Notification(RoomMembers(code), GameStart(ps[0].id))];
      } else {
        rooms := rooms[code := g.(players := ps)];
        notes := notes + [Notification(Socket(sock), WaitingForOpponent)];
      }
    }

    /** The `makeGuess` handler. Anything but an in-dictionary guess from the turn
        holder of a live room is dropped without a reply. An accepted guess reads
        the first other player's word; when there is no other player, or that
        player has no word yet, the handler throws before changing anything
        (`threw`). A correct guess ends the game and deletes the room; any other
        guess is recorded and passes the turn to the opponent. */
    method MakeGuess(sock: ConnId, code: RoomCode, guess: string, dictionary: set<string>)
      returns (notes: seq<Notification>, threw: bool)
      requires Valid()
      modifies this
      ensures Valid()
      ensures !GuessAccepted(old(rooms), code, sock, guess, dictionary) ==>
        rooms == old(rooms) && order == old(order) && notes == [] && !threw
      ensures GuessAccepted(old(rooms), code, sock, guess, dictionary) ==>
        var g := old(rooms)[code];
        var k := IndexOfOpponent(g.players, sock);
        if k == -1 || g.players[k].word.None? then
          threw && rooms == old(rooms) && order == old(order) && notes == []
        else
          var opponent := g.players[k];
          var secret := opponent.word.value;
          var count := CountCommonLetters(secret, guess);
          !threw &&
          if Lower(guess) == secret then
            rooms == old(rooms) - {code} && order == Without(old(order), code) &&
            notes == [Notification(RoomMembers(code), GameOver(sock, secret))]
          else
            rooms == old(rooms)[code := g.(currentTurn := Some(opponent.id),
                                           guesses := g.guesses + [GuessRecord(sock, guess, count)])] &&
            order == old(order) &&
            notes == [Notification(RoomMembers(code), GuessResult(sock, guess, count, opponent.id))]
    {
      notes, threw := [], false;
      if code in rooms && rooms[code].currentTurn == Some(sock) && IsValidWord(dictionary, guess) {
        var g := rooms[code];
        var k := IndexOfOpponent(g.players, sock);
        if k == -1 || g.players[k].word.None? {
          threw := true;
          return;
        }
        var opponent := g.players[k];
        var commonCount := CountCommonLetters(opponent.word.value, guess);
        g := g.(guesses := g.guesses + [GuessRecord(sock, guess, commonCount)]);
        if Lower(guess) == opponent.word.value {
          // the record pushed onto the deleted room is never read again
          notes := [Notification(RoomMembers(code), GameOver(sock, opponent.word.value))];
          rooms := rooms - {code};
          order := Without(order, code);
        } else {
          rooms := rooms[code := g.(currentTurn := Some(opponent.id))];
          notes := [Notification(RoomMembers(code), GuessResult(sock, guess, commonCount, opponent.id))];
        }
      }
    }

    /** The `disconnect` handler. It walks the rooms in insertion order and
        removes the connection from the first room that holds it, and from no
        other. The room is deleted only when nobody is left; a room left with one
        player stays live and listed again. */
    method Disconnect(sock: ConnId) returns (notes: seq<Notification>)
      requires Valid()
      modifies this
      ensures Valid()
      ensures var i := FirstRoomWith(old(order), old(rooms), sock);
        if i == |old(order)| then
          rooms == old(rooms) && order == old(order) && notes == []
        else
          var c := old(order)[i];
          var g := old(rooms)[c];
          var ps := RemoveAt(g.players, IndexOfPlayer(g.players, sock));
          (if ps == [] then rooms == old(rooms) - {c} && order == Without(old(order), c)
           else rooms == old(rooms)[c := g.(players := ps)] && order == old(order)) &&
          notes == [Notification(RoomMembers(c), PlayerDisconnected(sock)),
                    Notification(Everyone, AvailableRooms(GetAvailableRooms()))]
      ensures var i := FirstRoomWith(old(order), old(rooms), sock);
        i < |old(order)| && |old(rooms)[old(order)[i]].players| == 2 ==>
          RoomSummary(old(order)[i], 1) in GetAvailableRooms()
    {
      var i := 0;
      while i < |order| && IndexOfPlayer(rooms[order[i]].players, sock) == -1
        invariant 0 <= i <= |order|
        invariant order == old(order) && rooms == old(rooms)
        invariant forall j :: 0 <= j < i ==> IndexOfPlayer(rooms[order[j]].players, sock) == -1
      {
        i := i + 1;
      }
      assert i == FirstRoomWith(order, rooms, sock);
      if i == |order| {
        notes := [];
        return;
      }
      var c := order[i];
      var g := rooms[c];
      var ps := RemoveAt(g.players, IndexOfPlayer(g.players, sock));
      if |ps| == 0 {
        DeleteKeepsInv(order, rooms, c);
        rooms := rooms - {c};
        order := Without(order, c);
      } else {
        ReplaceKeepsInv(order, rooms, c, g.(players := ps));
        rooms := rooms[c := g.(players := ps)];
        if |ps| == 1 {
          LoneRoomListed(order, rooms, c);
        }
      }
      notes := [Notification(RoomMembers(c), PlayerDisconnected(sock)),
                Notification(Everyone, AvailableRooms(GetAvailableRooms()))];
    }
  }
}
