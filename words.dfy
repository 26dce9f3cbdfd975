/**
  Words, letters and counting shared by the game, the word-list validator
  and the progress records. Words are ASCII strings; the game only ever
  scores words made of the 26 letters 'A'..'Z'.
 */
module Words {

  /** The character is one of the 26 upper-case ASCII letters. */
  predicate IsUpper(c: char) {
    'A' <= c <= 'Z'
  }

  /** A guessable word: exactly five upper-case letters. */
  predicate IsWord(w: string) {
    |w| == 5 && forall i :: 0 <= i < |w| ==> IsUpper(w[i])
  }

  /** The k-th letter of the alphabet ('A' is letter 0). */
  function Letter(k: int): (c: char)
    requires 0 <= k < 26
    ensures IsUpper(c)
  {
    ('A' as int + k) as char
  }

  /** Position of an upper-case letter in the alphabet. */
  function LetterIndex(c: char): (k: int)
    requires IsUpper(c)
    ensures 0 <= k < 26 && Letter(k) == c
    ensures forall j :: 0 <= j < 26 && Letter(j) == c ==> j == k
  {
    c as int - 'A' as int
  }

  /** ASCII upper-casing of one character; every other character is kept. */
  function UpperChar(c: char): (u: char)
    ensures 'a' <= c <= 'z' ==> IsUpper(u) && u as int == c as int - 32
    ensures !('a' <= c <= 'z') ==> u == c
  {
    if 'a' <= c <= 'z' then (c as int - 32) as char else c
  }

  /** Upper-casing of a whole string, character by character. */
  function Upper(s: string): (u: string)
    ensures |u| == |s|
    ensures forall i :: 0 <= i < |s| ==> u[i] == UpperChar(s[i])
  {
    seq(|s|, i requires 0 <= i < |s| => UpperChar(s[i]))
  }

  /** Upper-casing leaves a string of upper-case letters alone. */
  lemma UpperOfWord(w: string)
    requires forall i :: 0 <= i < |w| ==> IsUpper(w[i])
    ensures Upper(w) == w
  {
  }

  /** Every entry of a list, upper-cased. */
  function UpperAll(list: seq<string>): (r: seq<string>)
    ensures |r| == |list|
    ensures forall i :: 0 <= i < |list| ==> r[i] == Upper(list[i])
  {
    seq(|list|, i requires 0 <= i < |list| => Upper(list[i]))
  }

  /**
    White space as `str::trim` removes it around a line read from the
    terminal: the characters with the Unicode White_Space property.
   */
  predicate IsSpace(c: char) {
    ('\U{0009}' <= c <= '\U{000D}') || c == ' ' || c == '\U{0085}' || c == '\U{00A0}' || c == '\U{1680}' ||
    ('\U{2000}' <= c <= '\U{200A}') || c == '\U{2028}' || c == '\U{2029}' || c == '\U{202F}' ||
    c == '\U{205F}' || c == '\U{3000}'
  }

  /** The string without leading and trailing white space. */
  function Trim(s: string): (t: string)
    ensures |t| <= |s|
    ensures t != [] ==> !IsSpace(t[0]) && !IsSpace(t[|t| - 1])
    ensures (s == [] || (!IsSpace(s[0]) && !IsSpace(s[|s| - 1]))) ==> t == s
    decreases |s|
  {
    if s == [] then s
    else if IsSpace(s[0]) then Trim(s[1..])
    else if IsSpace(s[|s| - 1]) then Trim(s[..|s| - 1])
    else s
  }

  /** Number of occurrences of x in s. */
  function Count<T(==)>(s: seq<T>, x: T): nat
  {
    if s == [] then 0 else Count(s[..|s| - 1], x) + (if s[|s| - 1] == x then 1 else 0)
  }

  lemma {:induction false} CountAppend<T>(a: seq<T>, b: seq<T>, x: T)
    ensures Count(a + b, x) == Count(a, x) + Count(b, x)
    decreases |b|
  {
    if b == [] {
      assert a + b == a;
    } else {
      assert (a + b)[..|a + b| - 1] == a + b[..|b| - 1];
      CountAppend(a, b[..|b| - 1], x);
    }
  }

  /** One more element of a prefix adds its own occurrence. */
  lemma CountPrefixStep<T>(s: seq<T>, n: nat, x: T)
    requires n < |s|
    ensures Count(s[..n + 1], x) == Count(s[..n], x) + (if s[n] == x then 1 else 0)
  {
    assert s[..n + 1][..n] == s[..n];
  }

  lemma {:induction false} CountPositive<T>(s: seq<T>, x: T)
    ensures Count(s, x) > 0 <==> x in s
  {
    if s != [] {
      assert s == s[..|s| - 1] + [s[|s| - 1]];
      CountPositive(s[..|s| - 1], x);
    }
  }

  /** a can be obtained from b by deleting elements, keeping the order. */
  predicate IsSubsequence<T(==)>(a: seq<T>, b: seq<T>)
    decreases |b|
  {
    if a == [] then true
    else if b == [] then false
    else if a[|a| - 1] == b[|b| - 1] then IsSubsequence(a[..|a| - 1], b[..|b| - 1])
    else IsSubsequence(a, b[..|b| - 1])
  }

  lemma {:induction false} SubsequenceShorter<T>(a: seq<T>, b: seq<T>)
    requires IsSubsequence(a, b)
    ensures |a| <= |b|
    ensures forall x :: x in a ==> x in b
    decreases |b|
  {
    if a != [] {
      if a[|a| - 1] == b[|b| - 1] {
        SubsequenceShorter(a[..|a| - 1], b[..|b| - 1]);
        assert a == a[..|a| - 1] + [a[|a| - 1]];
        assert b == b[..|b| - 1] + [b[|b| - 1]];
      } else {
        SubsequenceShorter(a, b[..|b| - 1]);
        assert b == b[..|b| - 1] + [b[|b| - 1]];
      }
    }
  }

  lemma {:induction false} SubsequenceSelf<T>(a: seq<T>)
    ensures IsSubsequence(a, a)
    decreases |a|
  {
    if a != [] {
      SubsequenceSelf(a[..|a| - 1]);
    }
  }

  lemma {:induction false} SubsequenceExtend<T>(a: seq<T>, b: seq<T>, x: T)
    requires IsSubsequence(a, b)
    ensures IsSubsequence(a, b + [x])
    decreases |b|, 1
  {
    if a != [] {
      assert (b + [x])[..|b|] == b;
      if a[|a| - 1] == x {
        // Taking x for the last element also works, but the shorter prefix must
        // then be a subsequence of b, which the next lemma provides.
        SubsequenceDropLast(a, b);
      }
    }
  }

  lemma {:induction false} SubsequenceDropLast<T>(a: seq<T>, b: seq<T>)
    requires a != [] && IsSubsequence(a, b)
    ensures IsSubsequence(a[..|a| - 1], b)
    decreases |b|, 0
  {
    if a[|a| - 1] == b[|b| - 1] {
      SubsequenceExtend(a[..|a| - 1], b[..|b| - 1], b[|b| - 1]);
      assert b[..|b| - 1] + [b[|b| - 1]] == b;
    } else {
      SubsequenceDropLast(a, b[..|b| - 1]);
      SubsequenceExtend(a[..|a| - 1], b[..|b| - 1], b[|b| - 1]);
      assert b[..|b| - 1] + [b[|b| - 1]] == b;
    }
  }

  lemma {:induction false} SubsequenceTransitive<T>(a: seq<T>, b: seq<T>, c: seq<T>)
    requires IsSubsequence(a, b) && IsSubsequence(b, c)
    ensures IsSubsequence(a, c)
    decreases |c|
  {
    if a != [] {
      var lb, lc := b[|b| - 1], c[|c| - 1];
      if lb == lc {
        if a[|a| - 1] == lb {
          SubsequenceTransitive(a[..|a| - 1], b[..|b| - 1], c[..|c| - 1]);
        } else {
          SubsequenceTransitive(a, b[..|b| - 1], c[..|c| - 1]);
        }
      } else {
        SubsequenceTransitive(a, b, c[..|c| - 1]);
        if a[|a| - 1] == lc {
          SubsequenceDropLast(a, c[..|c| - 1]);
        }
      }
    }
  }

  /** The count stored for a word, zero when it has no entry yet. */
  function Lookup(m: map<string, int>, w: string): int {
    if w in m then m[w] else 0
  }

  /** The counts after one more use of each word of ws, in order. */
  function Tally(m: map<string, int>, ws: seq<string>): map<string, int>
  {
    if ws == [] then m
    else
      var before := Tally(m, ws[..|ws| - 1]);
      var w := ws[|ws| - 1];
      before[w := Lookup(before, w) + 1]
  }

  /** Tallying one word adds one to its count. */
  lemma TallyOne(m: map<string, int>, w: string)
    ensures Tally(m, [w]) == m[w := Lookup(m, w) + 1]
  {
    assert [w][..0] == [];
  }

  /** Tallying raises every word's count by its number of occurrences. */
  lemma {:induction false} TallyLookup(m: map<string, int>, ws: seq<string>, w: string)
    ensures Lookup(Tally(m, ws), w) == Lookup(m, w) + Count(ws, w)
  {
    if ws != [] {
      TallyLookup(m, ws[..|ws| - 1], w);
    }
  }

  lemma {:induction false} TallyAppend(m: map<string, int>, a: seq<string>, b: seq<string>)
    ensures Tally(m, a + b) == Tally(Tally(m, a), b)
    decreases |b|
  {
    if b == [] {
      assert a + b == a;
    } else {
      var w := b[|b| - 1];
      assert (a + b)[..|a + b| - 1] == a + b[..|b| - 1];
      assert (a + b)[|a + b| - 1] == w;
      TallyAppend(m, a, b[..|b| - 1]);
      var before := Tally(m, a + b[..|b| - 1]);
      assert Tally(m, a + b) == before[w := Lookup(before, w) + 1];
    }
  }
}
