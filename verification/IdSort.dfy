// Sorting of id lists, and lists that are permutations of each other.

module IdSort {

  ghost predicate IntsSorted(s: seq<int>) {
    forall i, j :: 0 <= i < j < |s| ==> s[i] <= s[j]
  }

  ghost predicate NoRepeats<T>(s: seq<T>) {
    forall i, j :: 0 <= i < j < |s| ==> s[i] != s[j]
  }

  function InsertInt(x: int, s: seq<int>): seq<int> {
    if s == [] || x <= s[0] then [x] + s else [s[0]] + InsertInt(x, s[1..])
  }

  function SortInts(s: seq<int>): seq<int> {
    if s == [] then [] else InsertInt(s[0], SortInts(s[1..]))
  }

  lemma {:induction false} InsertIntContents(x: int, s: seq<int>)
    ensures multiset(InsertInt(x, s)) == multiset(s) + multiset{x}
  {
    if !(s == [] || x <= s[0]) {
      InsertIntContents(x, s[1..]);
      assert s == [s[0]] + s[1..];
    }
  }

  lemma {:induction false} InsertIntSorted(x: int, s: seq<int>)
    requires IntsSorted(s)
    ensures IntsSorted(InsertInt(x, s))
  {
    if !(s == [] || x <= s[0]) {
      InsertIntSorted(x, s[1..]);
      InsertIntContents(x, s[1..]);
      var rest := InsertInt(x, s[1..]);
      forall i | 0 <= i < |rest| ensures s[0] <= rest[i] {
        assert rest[i] in multiset(rest);
        assert rest[i] == x || rest[i] in s[1..];
      }
    }
  }

  lemma {:induction false} SortIntsCorrect(s: seq<int>)
    ensures IntsSorted(SortInts(s)) && multiset(SortInts(s)) == multiset(s) && |SortInts(s)| == |s|
  {
    if s != [] {
      SortIntsCorrect(s[1..]);
      InsertIntSorted(s[0], SortInts(s[1..]));
      InsertIntContents(s[0], SortInts(s[1..]));
      assert s == [s[0]] + s[1..];
    }
    assert |multiset(SortInts(s))| == |multiset(s)|;
  }

  /** The same sort, on ids that cannot be negative. */
  function SortNats(s: seq<nat>): (t: seq<nat>)
    ensures t == SortInts(s)
  {
    SortKeepsNats(s);
    SortInts(s)
  }

  lemma SortKeepsNats(s: seq<nat>)
    ensures forall i :: 0 <= i < |SortInts(s)| ==> SortInts(s)[i] >= 0
  {
    SortIntsCorrect(s);
    forall i | 0 <= i < |SortInts(s)| ensures SortInts(s)[i] >= 0 {
      assert SortInts(s)[i] in multiset(s);
    }
  }

  /** Dropping one element from a sequence drops it from the contents. */
  lemma RemoveAt<T>(t: seq<T>, j: nat)
    requires j < |t|
    ensures multiset(t[..j] + t[j + 1..]) == multiset(t) - multiset{t[j]}
  {
    assert t == t[..j] + [t[j]] + t[j + 1..];
  }

  lemma SameLength<T>(s: seq<T>, t: seq<T>)
    requires multiset(s) == multiset(t)
    ensures |s| == |t|
  {
    assert |multiset(s)| == |s| && |multiset(t)| == |t|;
  }

  lemma HeadOf<T>(s: seq<T>, t: seq<T>) returns (j: nat)
    requires multiset(s) == multiset(t) && s != []
    ensures j < |t| && t[j] == s[0]
    ensures multiset(s[1..]) == multiset(t[..j] + t[j + 1..])
  {
    assert s[0] in multiset(t);
    j :| 0 <= j < |t| && t[j] == s[0];
    RemoveAt(t, j);
    RemoveAt(s, 0);
    assert s[..0] + s[1..] == s[1..];
  }

  lemma LeastFirst(s: seq<int>, t: seq<int>)
    requires IntsSorted(s) && multiset(s) == multiset(t) && s != []
    ensures t != [] && s[0] <= t[0]
  {
    SameLength(s, t);
    assert t[0] in multiset(s);
  }

  lemma TailContents<T>(s: seq<T>)
    requires s != []
    ensures multiset(s[1..]) == multiset(s) - multiset{s[0]}
  {
    assert s == [s[0]] + s[1..];
  }

  lemma {:induction false} IntsSortedUnique(s: seq<int>, t: seq<int>)
    requires IntsSorted(s) && IntsSorted(t) && multiset(s) == multiset(t)
    ensures s == t
    decreases |s|
  {
    SameLength(s, t);
    if s != [] {
      LeastFirst(s, t);
      LeastFirst(t, s);
      TailContents(s);
      TailContents(t);
      IntsSortedUnique(s[1..], t[1..]);
    }
  }

  lemma {:induction false} CountedOnce<T>(s: seq<T>, x: T)
    requires NoRepeats(s)
    ensures multiset(s)[x] == if x in s then 1 else 0
  {
    if s != [] {
      CountedOnce(s[1..], x);
      assert s == [s[0]] + s[1..];
    }
  }

  lemma RepeatCounted<T>(s: seq<T>, i: nat, j: nat)
    requires i < j < |s| && s[i] == s[j]
    ensures multiset(s)[s[i]] >= 2
  {
    assert s == s[..j] + [s[j]] + s[j + 1..];
    assert s[..j][i] == s[j];
    assert s[i] in multiset(s[..j]);
  }

  lemma NoRepeatsByContents<T>(s: seq<T>, t: seq<T>)
    requires multiset(s) == multiset(t) && NoRepeats(s)
    ensures NoRepeats(t)
  {
    forall i, j | 0 <= i < j < |t| ensures t[i] != t[j] {
      if t[i] == t[j] {
        RepeatCounted(t, i, j);
        CountedOnce(s, t[i]);
      }
    }
  }

  lemma SameElements<T(!new)>(s: seq<T>, t: seq<T>)
    requires NoRepeats(s) && NoRepeats(t) && forall x :: x in s <==> x in t
    ensures multiset(s) == multiset(t)
  {
    forall x ensures multiset(s)[x] == multiset(t)[x] {
      CountedOnce(s, x);
      CountedOnce(t, x);
    }
  }

  /** A function applied to every element of a permutation. */
  function Map<T, U>(f: T -> U, s: seq<T>): (t: seq<U>)
    ensures |t| == |s|
  {
    seq(|s|, i requires 0 <= i < |s| => f(s[i]))
  }

  lemma {:induction false} MapContents<T, U>(f: T -> U, s: seq<T>, t: seq<T>)
    requires multiset(s) == multiset(t)
    ensures multiset(Map(f, s)) == multiset(Map(f, t))
  {
    SameLength(s, t);
    if s == [] {
      assert Map(f, s) == Map(f, t) == [];
    } else {
      var j := HeadOf(s, t);
      var rest := t[..j] + t[j + 1..];
      MapContents(f, s[1..], rest);
      RemoveAt(Map(f, t), j);
      assert Map(f, rest) == Map(f, t)[..j] + Map(f, t)[j + 1..];
      assert Map(f, s) == [f(s[0])] + Map(f, s[1..]);
      assert Map(f, t)[j] in multiset(Map(f, t));
    }
  }

  /** Equal ids stand side by side once the list is sorted. */
  lemma SortedUniqueByNeighbours(s: seq<int>)
    requires IntsSorted(s)
    ensures (forall i :: 0 < i < |s| ==> s[i - 1] != s[i]) <==> NoRepeats(s)
  {
    if forall i :: 0 < i < |s| ==> s[i - 1] != s[i] {
      forall i, j | 0 <= i < j < |s| ensures s[i] != s[j] {
        assert s[j - 1] != s[j] && s[i] <= s[j - 1] <= s[j];
      }
    }
  }
}
