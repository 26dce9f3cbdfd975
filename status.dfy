/**
  The four colours a letter can have and the rule that folds the letter
  knowledge of one guess into the 26-letter alphabet state.
 */
module LetterStatus {

  /** G: right letter, right place. Y: in the answer elsewhere.
      R: guessed but not (or no more) in the answer. X: not guessed yet. */
  datatype Status = G | Y | R | X

  /** Priority used when knowledge is combined: G > Y > R > X. */
  function Rank(s: Status): nat {
    match s
    case G => 3
    case Y => 2
    case R => 1
    case X => 0
  }

  lemma RankInjective(a: Status, b: Status)
    ensures Rank(a) == Rank(b) ==> a == b
  {
  }

  /** The status of higher priority. */
  function Max(a: Status, b: Status): Status {
    if Rank(a) >= Rank(b) then a else b
  }

  /** The alphabet state with no guess made yet. */
  function Unknown(): (s: seq<Status>)
    ensures |s| == 26 && forall k :: 0 <= k < 26 ==> s[k] == X
  {
    seq(26, _ => X)
  }

  /** Pointwise maximum of two alphabet states. */
  function Merged(s1: seq<Status>, s2: seq<Status>): (r: seq<Status>)
    requires |s1| == |s2|
    ensures |r| == |s1|
  {
    seq(|s1|, i requires 0 <= i < |s1| => Max(s1[i], s2[i]))
  }

  /**
    The alphabet update after a guess: at each letter, G if either side is
    G, else Y if either side is Y, else R if either side is R, else X.
    Works on a fresh copy of s1, as the by-value array is in the program.
   */
  method Merge(s1: seq<Status>, s2: seq<Status>) returns (r: seq<Status>)
    requires |s1| == 26 && |s2| == 26
    ensures r == Merged(s1, s2)
  {
    var a := new Status[26](i requires 0 <= i < 26 => s1[i]);
    for i := 0 to 26
      invariant forall j :: 0 <= j < i ==> a[j] == Max(s1[j], s2[j])
      invariant forall j :: i <= j < 26 ==> a[j] == s1[j]
    {
      if a[i] == G || s2[i] == G {
        a[i] := G;
      } else if a[i] == Y || s2[i] == Y {
        a[i] := Y;
      } else if a[i] == R || s2[i] == R {
        a[i] := R;
      }
    }
    r := a[..];
  }

  /** The merge never lowers either side, and yields one of the two sides. */
  lemma MergedBounds(s1: seq<Status>, s2: seq<Status>, i: int)
    requires |s1| == |s2| && 0 <= i < |s1|
    ensures Rank(Merged(s1, s2)[i]) >= Rank(s1[i])
    ensures Rank(Merged(s1, s2)[i]) >= Rank(s2[i])
    ensures Merged(s1, s2)[i] == s1[i] || Merged(s1, s2)[i] == s2[i]
  {
  }

  /** It is the least such upper bound: anything above both is above the merge. */
  lemma MergedLeast(s1: seq<Status>, s2: seq<Status>, i: int, t: Status)
    requires |s1| == |s2| && 0 <= i < |s1|
    requires Rank(t) >= Rank(s1[i]) && Rank(t) >= Rank(s2[i])
    ensures Rank(t) >= Rank(Merged(s1, s2)[i])
  {
  }

  /** A letter stays unknown only when it is unknown on both sides. */
  lemma MergedUnknown(s1: seq<Status>, s2: seq<Status>, i: int)
    requires |s1| == |s2| && 0 <= i < |s1|
    ensures Merged(s1, s2)[i] == X <==> s1[i] == X && s2[i] == X
  {
  }

  lemma MergedCommutative(s1: seq<Status>, s2: seq<Status>)
    requires |s1| == |s2|
    ensures Merged(s1, s2) == Merged(s2, s1)
  {
    forall i | 0 <= i < |s1|
      ensures Merged(s1, s2)[i] == Merged(s2, s1)[i]
    {
      RankInjective(s1[i], s2[i]);
    }
  }

  lemma MergedIdempotent(s: seq<Status>)
    ensures Merged(s, s) == s
  {
  }

  lemma MergedAssociative(s1: seq<Status>, s2: seq<Status>, s3: seq<Status>)
    requires |s1| == |s2| == |s3|
    ensures Merged(Merged(s1, s2), s3) == Merged(s1, Merged(s2, s3))
  {
  }

  /** Merging in knowledge that is nowhere above the current state changes nothing. */
  lemma MergedAbsorbs(s1: seq<Status>, s2: seq<Status>)
    requires |s1| == |s2|
    requires forall i :: 0 <= i < |s1| ==> Rank(s2[i]) <= Rank(s1[i])
    ensures Merged(s1, s2) == s1
  {
  }
}
