/** The word rules. The common-letter score has the same body in
    `jotto-server/server.js`, `jotto-server/gameLogic.js` and `utils/gameLogic.js`;
    the five-letter guess check and case-insensitive list membership have the
    same bodies in the two `gameLogic.js` files only. */
module WordOracle {
  import opened Letters

  /** The distinct lower-cased characters of a word: `new Set(w.toLowerCase())`. */
  function LetterSet(w: string): set<char> {
    Chars(Lower(w))
  }

  /** `xs.filter((letter) => t.has(letter))`. */
  function KeepIn(xs: seq<char>, t: set<char>): seq<char> {
    if xs == [] then []
    else (if xs[0] in t then [xs[0]] else []) + KeepIn(xs[1..], t)
  }

  /** Filtering a duplicate-free list by a set keeps one entry per common element. */
  lemma {:induction false} KeepInCount(xs: seq<char>, t: set<char>)
    requires NoDup(xs)
    ensures |KeepIn(xs, t)| == |Chars(xs) * t|
  {
    if xs != [] {
      var rest := xs[1..];
      HeadNotInTail(xs);
      KeepInCount(rest, t);
      CommonWithHead(xs, t);
    }
  }

  /** In a duplicate-free list the head is new and the tail is duplicate-free. */
  lemma HeadNotInTail(xs: seq<char>)
    requires NoDup(xs) && xs != []
    ensures NoDup(xs[1..]) && xs[0] !in Chars(xs[1..])
  {
    assert forall i, j :: 0 <= i < j < |xs[1..]| ==> xs[1..][i] == xs[i + 1] && xs[1..][j] == xs[j + 1];
  }

  /** The common elements of a list are those of its tail plus, if common, its new head. */
  lemma CommonWithHead(xs: seq<char>, t: set<char>)
    requires xs != [] && xs[0] !in Chars(xs[1..])
    ensures |Chars(xs) * t| == |Chars(xs[1..]) * t| + (if xs[0] in t then 1 else 0)
  {
    var a := Chars(xs[1..]) * t;
    assert Chars(xs) == {xs[0]} + Chars(xs[1..]) by {
      assert xs == [xs[0]] + xs[1..];
    }
    if xs[0] in t {
      assert Chars(xs) * t == a + {xs[0]};
      assert xs[0] !in a;
    } else {
      assert Chars(xs) * t == a;
    }
  }

  /** `countCommonLetters(word1, word2)`: spread the distinct lower-cased characters
      of the first word and keep those the second word also has. The count is the
      size of the intersection of the two letter sets. */
  function CountCommonLetters(a: string, b: string): (n: nat)
    ensures n == |LetterSet(a) * LetterSet(b)|
  {
    var d := Distinct(Lower(a));
    DistinctSpec(Lower(a));
    KeepInCount(d, LetterSet(b));
    |KeepIn(d, LetterSet(b))|
  }

  /** The score does not depend on which word is the secret. */
  lemma CommonLettersSymmetric(a: string, b: string)
    ensures CountCommonLetters(a, b) == CountCommonLetters(b, a)
  {
    assert LetterSet(a) * LetterSet(b) == LetterSet(b) * LetterSet(a);
  }

  /** The score never exceeds the distinct-letter count of either word. */
  lemma CommonLettersBound(a: string, b: string)
    ensures CountCommonLetters(a, b) <= |LetterSet(a)|
    ensures CountCommonLetters(a, b) <= |LetterSet(b)|
  {
    SubsetSize(LetterSet(a) * LetterSet(b), LetterSet(a));
    SubsetSize(LetterSet(a) * LetterSet(b), LetterSet(b));
  }

  lemma SubsetSize(x: set<char>, y: set<char>)
    requires x <= y
    ensures |x| <= |y|
  {
    assert y == x + (y - x);
  }

  /** A word scored against itself counts each of its letters once. */
  lemma CommonLettersWithItself(w: string)
    ensures CountCommonLetters(w, w) == |LetterSet(w)|
  {
    assert LetterSet(w) * LetterSet(w) == LetterSet(w);
  }

  /** Lower-casing either argument first does not change the score. */
  lemma CommonLettersCaseInsensitive(a: string, b: string)
    ensures CountCommonLetters(Lower(a), b) == CountCommonLetters(a, b)
    ensures CountCommonLetters(a, Lower(b)) == CountCommonLetters(a, b)
  {
    LowerIdempotent(a);
    LowerIdempotent(b);
  }

  /** The regular expression `/^[a-zA-Z]+$/`: one or more ASCII letters and nothing else. */
  function MatchesLetters(s: string): (m: bool)
    ensures m <==> |s| > 0 && forall i :: 0 <= i < |s| ==> IsAsciiLetter(s[i])
  {
    |s| > 0 && IsAsciiLetter(s[0]) && (|s| == 1 || MatchesLetters(s[1..]))
  }

  /** `isValidGuess(guess)`: exactly five characters, every one an ASCII letter. */
  function IsValidGuess(g: string): (ok: bool)
    ensures ok <==> |g| == 5 && forall i :: 0 <= i < |g| ==> IsAsciiLetter(g[i])
  {
    |g| == 5 && MatchesLetters(g)
  }

  /** Two valid guesses share at most five letters. */
  lemma CommonLettersAtMostFive(a: string, b: string)
    requires IsValidGuess(a) && IsValidGuess(b)
    ensures CountCommonLetters(a, b) <= 5
  {
    CommonLettersBound(a, b);
    CharsBound(Lower(a));
    LowerLength(a);
  }

  /** For words without upper-case letters the score is the size of the
      intersection of their character sets. */
  lemma CommonLettersOfLowercase(a: string, b: string)
    requires forall i :: 0 <= i < |a| ==> !('A' <= a[i] <= 'Z')
    requires forall i :: 0 <= i < |b| ==> !('A' <= b[i] <= 'Z')
    ensures CountCommonLetters(a, b) == |Chars(a) * Chars(b)|
  {
    LowerOfLowercase(a);
    LowerOfLowercase(b);
  }

  /** "apple" scored against itself is 4: its distinct letters are a, p, l and e. */
  lemma CommonLettersAppleApple()
    ensures CountCommonLetters("apple", "apple") == 4
  {
    assert |Chars("apple") * Chars("apple")| == 4 by { AppleLetters(); }
    assert CountCommonLetters("apple", "apple") == |Chars("apple") * Chars("apple")| by {
      CommonLettersOfLowercase("apple", "apple");
    }
  }

  lemma AppleLetters()
    ensures Chars("apple") * Chars("apple") == {'a', 'p', 'l', 'e'}
  {
    assert Chars("apple") == {'a', 'p', 'l', 'e'};
  }

  /** "chair" and "beach" share exactly a, c and h. */
  lemma CommonLettersChairBeach()
    ensures CountCommonLetters("chair", "beach") == 3
  {
    assert |Chars("chair") * Chars("beach")| == 3 by { ChairBeachLetters(); }
    assert CountCommonLetters("chair", "beach") == |Chars("chair") * Chars("beach")| by {
      CommonLettersOfLowercase("chair", "beach");
    }
  }

  lemma ChairBeachLetters()
    ensures Chars("chair") * Chars("beach") == {'c', 'h', 'a'}
  {
    assert Chars("chair") == {'c', 'h', 'a', 'i', 'r'};
    assert Chars("beach") == {'b', 'e', 'a', 'c', 'h'};
  }

  /** A five-letter word of lower-case ASCII letters passes the guess check and
      lower-cases to itself. */
  lemma LowercaseWordValid(w: string)
    requires |w| == 5 && forall i :: 0 <= i < |w| ==> 'a' <= w[i] <= 'z'
    ensures IsValidGuess(w) && Lower(w) == w
  {
    LowerOfLowercase(w);
  }

  /** `list.includes(word.toLowerCase())`. */
  function InList(list: seq<string>, w: string): bool {
    Lower(w) in list
  }

  /** Membership ignores the case of the word asked about. */
  lemma InListCaseInsensitive(list: seq<string>, w: string)
    ensures InList(list, w) == InList(list, Lower(w))
  {
    LowerIdempotent(w);
  }
}
