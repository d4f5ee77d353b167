/**
 * The `ArrayList` queries the game engine relies on: `indexOf`, `remove(Object)`,
 * and the index arithmetic that pairs teleporters.
 */
module Lists {

  /** `ArrayList.indexOf`: the first index holding `v`, or -1 when there is none. */
  function IndexOf<T(==)>(s: seq<T>, v: T): (i: int)
    ensures -1 <= i < |s|
    ensures i == -1 <==> v !in s
    ensures 0 <= i ==> s[i] == v && v !in s[..i]
  {
    if |s| == 0 then -1
    else if s[0] == v then 0
    else
      var j := IndexOf(s[1..], v);
      assert s[1..][..j + 1] == s[1..j + 2] by { assert j + 2 <= |s| || j == -1; }
      if j == -1 then -1 else j + 1
  }

  /** `ArrayList.remove(Object)`: drops the first occurrence of `v`, if any. */
  function RemoveFirst<T(==)>(s: seq<T>, v: T): (r: seq<T>)
    ensures v !in s ==> r == s
    ensures v in s ==> |r| == |s| - 1
    ensures forall u :: u in r ==> u in s
  {
    if |s| == 0 then s
    else
      assert s == [s[0]] + s[1..];
      if s[0] == v then s[1..]
      else
        [s[0]] + RemoveFirst(s[1..], v)
  }

  /** `remove` keeps the order of the other elements: it cuts out exactly the cell `indexOf` finds. */
  lemma {:induction false} RemoveFirstCutsIndexOf<T>(s: seq<T>, v: T)
    requires v in s
    ensures RemoveFirst(s, v) == s[..IndexOf(s, v)] + s[IndexOf(s, v) + 1..]
  {
    if s[0] != v {
      var tail := s[1..];
      assert v in tail;
      RemoveFirstCutsIndexOf(tail, v);
      ConsCut(s, IndexOf(tail, v));
    }
  }

  lemma ConsCut<T>(s: seq<T>, k: nat)
    requires k + 1 < |s|
    ensures [s[0]] + (s[1..][..k] + s[1..][k + 1..]) == s[..k + 1] + s[k + 2..]
  {
    assert [s[0]] + s[1..][..k] == s[..k + 1];
  }

  /** True when no value occurs twice in `s`. */
  predicate NoDuplicates<T(==)>(s: seq<T>)
  {
    forall i, j :: 0 <= i < j < |s| ==> s[i] != s[j]
  }

  /**
   * The index of the other half of a teleporter pair: tiles 2k and 2k+1 belong together,
   * so an even index pairs with the next one and an odd index with the previous one.
   */
  function PairIndex(i: nat): (j: nat)
    ensures j / 2 == i / 2 && j % 2 != i % 2
  {
    if i % 2 == 0 then i + 1 else i - 1
  }

  /** Pairing is symmetric: the partner of the partner is the tile itself. */
  lemma PairIndexInvolutive(i: nat)
    ensures PairIndex(PairIndex(i)) == i
  {
  }

  /** Removing from a list without repeats leaves a list without repeats that lacks the value. */
  lemma {:induction false} RemoveFirstNoDuplicates<T>(s: seq<T>, v: T)
    requires NoDuplicates(s)
    ensures NoDuplicates(RemoveFirst(s, v)) && v !in RemoveFirst(s, v)
  {
    if |s| > 0 && s[0] != v {
      var tail := s[1..];
      RemoveFirstNoDuplicates(tail, v);
      assert s[0] !in tail;
      PrependFresh(RemoveFirst(tail, v), s[0]);
    }
  }

  /** Putting a value the list lacks in front keeps it free of repeats. */
  lemma PrependFresh<T>(s: seq<T>, v: T)
    requires NoDuplicates(s) && v !in s
    ensures NoDuplicates([v] + s)
  {
  }

  /** Appending a value the list lacks keeps it free of repeats. */
  lemma AppendFresh<T>(s: seq<T>, v: T)
    requires NoDuplicates(s) && v !in s
    ensures NoDuplicates(s + [v])
  {
  }

  /** No value lies in both lists. */
  predicate Disjoint<T(==)>(a: seq<T>, b: seq<T>)
  {
    forall v :: v in a ==> v !in b
  }

  /** In a list of even length the partner of every index is in range. */
  lemma PairIndexInRange(i: nat, n: nat)
    requires i < n && n % 2 == 0
    ensures PairIndex(i) < n
  {
  }

  /** When no value repeats, `indexOf` finds exactly the position a value was read from. */
  lemma {:induction false} IndexOfNoDuplicates<T>(s: seq<T>, i: nat)
    requires i < |s| && NoDuplicates(s)
    ensures IndexOf(s, s[i]) == i
  {
  }

  /** `a` is what is left of `b` after dropping some of its first elements. */
  predicate IsSuffix<T(==)>(a: seq<T>, b: seq<T>)
  {
    |a| <= |b| && a == b[|b| - |a|..]
  }

  lemma SuffixTransitive<T>(a: seq<T>, b: seq<T>, c: seq<T>)
    requires IsSuffix(a, b) && IsSuffix(b, c)
    ensures IsSuffix(a, c)
  {
  }
}
