/** Character-level helpers shared by the word logic: lower-casing, the set of
    characters of a string, and the duplicate-free spread `[...new Set(s)]`. */
module Letters {

  /** The regular-expression class `[a-zA-Z]`. */
  predicate IsAsciiLetter(c: char) {
    'a' <= c <= 'z' || 'A' <= c <= 'Z'
  }

  /** `toLowerCase` on one character (ASCII letters only). */
  function LowerChar(c: char): char {
    if 'A' <= c <= 'Z' then (c as int + 32) as char else c
  }

  /** `s.toLowerCase()`, character by character. */
  function Lower(s: string): string {
    if s == [] then [] else [LowerChar(s[0])] + Lower(s[1..])
  }

  /** The set of characters occurring in `s` (`new Set(s)` as a set). */
  function Chars(s: seq<char>): set<char> {
    set c | c in s
  }

  /** No element occurs twice. */
  predicate NoDup<T(==)>(s: seq<T>) {
    forall i, j :: 0 <= i < j < |s| ==> s[i] != s[j]
  }

  /** `[...new Set(s)]`: the distinct characters of `s`, in order of first occurrence. */
  function Distinct(s: seq<char>): seq<char> {
    if s == [] then []
    else
      var d := Distinct(s[..|s| - 1]);
      if s[|s| - 1] in d then d else d + [s[|s| - 1]]
  }

  lemma {:induction false} LowerLength(s: string)
    ensures |Lower(s)| == |s|
  {
    if s != [] {
      LowerLength(s[1..]);
    }
  }

  lemma {:induction false} LowerAt(s: string, i: nat)
    requires i < |s|
    ensures |Lower(s)| == |s| && Lower(s)[i] == LowerChar(s[i])
  {
    LowerLength(s);
    if i > 0 {
      LowerAt(s[1..], i - 1);
    }
  }

  /** Lower-casing twice is lower-casing once. */
  lemma {:induction false} LowerIdempotent(s: string)
    ensures Lower(Lower(s)) == Lower(s)
  {
    if s != [] {
      LowerIdempotent(s[1..]);
      assert Lower(s)[1..] == Lower(s[1..]);
    }
  }

  /** Lower-casing leaves a word without upper-case letters as it is. */
  lemma {:induction false} LowerOfLowercase(w: string)
    requires forall i :: 0 <= i < |w| ==> !('A' <= w[i] <= 'Z')
    ensures Lower(w) == w
  {
    if w != [] {
      LowerOfLowercase(w[1..]);
    }
  }

  /** A string never has more distinct characters than characters. */
  lemma {:induction false} CharsBound(s: seq<char>)
    ensures |Chars(s)| <= |s|
  {
    if s != [] {
      var t := s[..|s| - 1];
      CharsBound(t);
      assert s == t + [s[|s| - 1]];
      assert Chars(s) == Chars(t) + {s[|s| - 1]};
    }
  }

  /** `Distinct` keeps exactly the characters of its input and drops every repeat. */
  lemma {:induction false} DistinctSpec(s: seq<char>)
    ensures Chars(Distinct(s)) == Chars(s)
    ensures NoDup(Distinct(s))
  {
    if s != [] {
      var t := s[..|s| - 1];
      var x := s[|s| - 1];
      DistinctSpec(t);
      assert s == t + [x];
      assert Chars(s) == Chars(t) + {x};
      var d := Distinct(t);
      if x !in d {
        assert Chars(d + [x]) == Chars(d) + {x};
      }
    }
  }

  /** Spreading a duplicate-free prefix keeps that prefix in place. */
  lemma {:induction false} DistinctKeepsPrefix(p: seq<char>, s: seq<char>)
    requires NoDup(p)
    ensures |p| <= |Distinct(p + s)|
    ensures Distinct(p + s)[..|p|] == p
  {
    if s == [] {
      assert p + s == p;
      DistinctOfNoDup(p);
    } else {
      var t := s[..|s| - 1];
      assert p + s == (p + t) + [s[|s| - 1]];
      assert (p + s)[..|p + s| - 1] == p + t;
      DistinctKeepsPrefix(p, t);
    }
  }

  /** A duplicate-free string is its own spread. */
  lemma {:induction false} DistinctOfNoDup(p: seq<char>)
    requires NoDup(p)
    ensures Distinct(p) == p
  {
    if p != [] {
      var t := p[..|p| - 1];
      assert NoDup(t);
      DistinctOfNoDup(t);
      DistinctSpec(t);
      assert p[|p| - 1] !in Chars(t);
      assert p == t + [p[|p| - 1]];
    }
  }
}
