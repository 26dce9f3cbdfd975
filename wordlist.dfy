/**
  The check applied to a word list read from a file: every entry must be a
  word of the built-in list, compared without regard to case, and no entry
  may appear twice.
 */
module ReadFileMode {
  import opened Words

  /** No two positions of s hold the same value. */
  predicate NoRepeats<T(==)>(s: seq<T>) {
    forall i, j :: 0 <= i < |s| && 0 <= j < |s| && i != j ==> s[i] != s[j]
  }

  /**
    The list check as a property of the two lists: every upper-cased entry of
    the new list is an upper-cased entry of the old one, and no two entries
    of the new list upper-case to the same word.
   */
  predicate ValidList(newList: seq<string>, oldList: seq<string>) {
    (forall i :: 0 <= i < |newList| ==> Upper(newList[i]) in UpperAll(oldList)) &&
    NoRepeats(UpperAll(newList))
  }

  /**
    Upper-cases both lists, then checks that every new entry occurs among
    the old ones, then counts the new entries, refusing the list as soon as
    one is counted twice.
   */
  method CheckValidList(newList: seq<string>, oldList: seq<string>) returns (ok: bool)
    ensures ok <==> ValidList(newList, oldList)
  {
    var entries := UpperAll(newList);
    var known := UpperAll(oldList);

    for i := 0 to |entries|
      invariant forall j :: 0 <= j < i ==> entries[j] in known
    {
      if entries[i] !in known {
        return false;
      }
    }

    var elementCount: map<string, int> := map[];
    for i := 0 to |entries|
      invariant forall w :: Lookup(elementCount, w) == Count(entries[..i], w)
      invariant NoRepeats(entries[..i])
    {
      var element := entries[i];
      CountPositive(entries[..i], element);
      forall w
        ensures Count(entries[..i + 1], w) == Count(entries[..i], w) + (if element == w then 1 else 0)
      {
        CountPrefixStep(entries, i, w);
      }
      ghost var before := elementCount;
      var x := Lookup(elementCount, element) + 1;
      elementCount := elementCount[element := x];
      if x > 1 {
        var j :| 0 <= j < i && entries[j] == element;
        assert entries[j] == entries[i];
        return false;
      }
      forall w
        ensures Lookup(elementCount, w) == Count(entries[..i + 1], w)
      {
        if w != element {
          assert Lookup(elementCount, w) == Lookup(before, w);
        }
      }
      assert element !in entries[..i];
      assert entries[..i + 1] == entries[..i] + [element];
    }
    assert entries[..|entries|] == entries;
    return true;
  }

  /** An empty list is always accepted. */
  lemma EmptyListAccepted(oldList: seq<string>)
    ensures ValidList([], oldList)
  {
  }

  /** An entry missing from the old list makes the list invalid. */
  lemma MissingEntryRejected(newList: seq<string>, oldList: seq<string>, i: int)
    requires 0 <= i < |newList| && Upper(newList[i]) !in UpperAll(oldList)
    ensures !ValidList(newList, oldList)
  {
  }

  /** Two entries that differ only in case are a repeat. */
  lemma CaseVariantsRepeat(newList: seq<string>, oldList: seq<string>, i: int, j: int)
    requires 0 <= i < |newList| && 0 <= j < |newList| && i != j
    requires Upper(newList[i]) == Upper(newList[j])
    ensures !ValidList(newList, oldList)
  {
    assert UpperAll(newList)[i] == UpperAll(newList)[j];
  }

  /** Only which words the old list holds matters, not their order, case or repetition. */
  lemma OldListAsSet(newList: seq<string>, oldList: seq<string>, otherList: seq<string>)
    requires forall w :: w in UpperAll(oldList) <==> w in UpperAll(otherList)
    ensures ValidList(newList, oldList) == ValidList(newList, otherList)
  {
  }

  /** s with the entries at i and j exchanged. */
  function Swap<T>(s: seq<T>, i: int, j: int): (t: seq<T>)
    requires 0 <= i < |s| && 0 <= j < |s|
    ensures |t| == |s| && t[i] == s[j] && t[j] == s[i]
    ensures forall k :: 0 <= k < |s| && k != i && k != j ==> t[k] == s[k]
  {
    s[i := s[j]][j := s[i]]
  }

  lemma SwapNoRepeats<T>(s: seq<T>, i: int, j: int)
    requires 0 <= i < |s| && 0 <= j < |s| && NoRepeats(s)
    ensures NoRepeats(Swap(s, i, j))
  {
    var t := Swap(s, i, j);
    forall p, q | 0 <= p < |t| && 0 <= q < |t| && p != q
      ensures t[p] != t[q]
    {
      var p' := if p == i then j else if p == j then i else p;
      var q' := if q == i then j else if q == j then i else q;
      assert t[p] == s[p'] && t[q] == s[q'] && p' != q';
    }
  }

  /** Exchanging two entries of the new list does not change the verdict, so neither does any reordering. */
  lemma NewListOrderFree(newList: seq<string>, oldList: seq<string>, i: int, j: int)
    requires 0 <= i < |newList| && 0 <= j < |newList|
    ensures ValidList(Swap(newList, i, j), oldList) == ValidList(newList, oldList)
  {
    var s := Swap(newList, i, j);
    assert UpperAll(s) == Swap(UpperAll(newList), i, j);
    assert Swap(s, i, j) == newList;
    assert UpperAll(newList) == Swap(UpperAll(s), i, j);
    if NoRepeats(UpperAll(newList)) {
      SwapNoRepeats(UpperAll(newList), i, j);
    }
    if NoRepeats(UpperAll(s)) {
      SwapNoRepeats(UpperAll(s), i, j);
    }
    forall k | 0 <= k < |newList|
      ensures Upper(newList[k]) in UpperAll(oldList) <==> Upper(s[(if k == i then j else if k == j then i else k)]) in UpperAll(oldList)
    {
    }
  }
}
