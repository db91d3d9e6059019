// The stable union of neighbour lists: valid, not the vertex itself, and each
// id once, in order of first occurrence.

module NeighborUnion {
  import opened IdSort

  predicate Admissible(self: int, n: nat, id: int) {
    0 <= id < n && id != self
  }

  /** The admissible ids of a list that were not seen before. */
  function Unique(self: int, n: nat, seen: set<int>, ids: seq<int>): seq<int>
    decreases ids
  {
    if ids == [] then []
    else if Admissible(self, n, ids[0]) && ids[0] !in seen then [ids[0]] + Unique(self, n, seen + {ids[0]}, ids[1..])
    else Unique(self, n, seen, ids[1..])
  }

  function Union(self: int, n: nat, kept: seq<int>, incoming: seq<int>): seq<int> {
    Unique(self, n, {}, kept + incoming)
  }

  /** A list a vertex may carry. */
  ghost predicate CanonicalList(self: int, n: nat, ids: seq<int>) {
    NoRepeats(ids) && forall i :: 0 <= i < |ids| ==> Admissible(self, n, ids[i])
  }

  lemma {:induction false} UniqueIsCanonical(self: int, n: nat, seen: set<int>, ids: seq<int>)
    ensures CanonicalList(self, n, Unique(self, n, seen, ids))
    ensures forall x :: x in Unique(self, n, seen, ids) <==> x in ids && Admissible(self, n, x) && x !in seen
    ensures |Unique(self, n, seen, ids)| <= |ids|
    decreases ids
  {
    if ids != [] {
      assert ids == [ids[0]] + ids[1..];
      if Admissible(self, n, ids[0]) && ids[0] !in seen {
        UniqueIsCanonical(self, n, seen + {ids[0]}, ids[1..]);
        var rest := Unique(self, n, seen + {ids[0]}, ids[1..]);
        assert forall i :: 0 <= i < |rest| ==> rest[i] in rest;
      } else {
        UniqueIsCanonical(self, n, seen, ids[1..]);
      }
    }
  }

  /** A canonical list passes through unchanged, in front of what comes after it. */
  lemma {:induction false} CanonicalStays(self: int, n: nat, seen: set<int>, kept: seq<int>, incoming: seq<int>)
    requires CanonicalList(self, n, kept) && forall i :: 0 <= i < |kept| ==> kept[i] !in seen
    ensures Unique(self, n, seen, kept + incoming)
         == kept + Unique(self, n, seen + (set i | 0 <= i < |kept| :: kept[i]), incoming)
    decreases kept
  {
    var own := set i | 0 <= i < |kept| :: kept[i];
    if kept == [] {
      assert kept + incoming == incoming;
      assert seen + own == seen;
    } else {
      var rest := kept[1..];
      assert (kept + incoming)[1..] == rest + incoming;
      CanonicalStays(self, n, seen + {kept[0]}, rest, incoming);
      var others := set i | 0 <= i < |rest| :: rest[i];
      assert seen + own == seen + {kept[0]} + others by {
        forall x ensures x in own <==> x == kept[0] || x in others {
          if x in own && x != kept[0] {
            var i :| 0 <= i < |kept| && kept[i] == x;
            assert rest[i - 1] == x;
          }
          if x in others {
            var i :| 0 <= i < |rest| && rest[i] == x;
            assert kept[i + 1] == x;
          }
        }
      }
    }
  }

  /** Existing edges come first and none is dropped; then each new incoming edge once. */
  lemma UnionKeepsFirst(self: int, n: nat, kept: seq<int>, incoming: seq<int>)
    requires CanonicalList(self, n, kept)
    ensures kept <= Union(self, n, kept, incoming)
    ensures CanonicalList(self, n, Union(self, n, kept, incoming))
    ensures forall x :: x in Union(self, n, kept, incoming) <==> x in kept || (x in incoming && Admissible(self, n, x))
  {
    CanonicalStays(self, n, {}, kept, incoming);
    UniqueIsCanonical(self, n, {}, kept + incoming);
    assert forall i :: 0 <= i < |kept| ==> kept[i] in kept;
  }

  /** x occurs in `all` before y does. */
  ghost predicate Leads(all: seq<int>, x: int, y: int) {
    exists p :: 0 <= p < |all| && all[p] == x && y !in all[..p + 1]
  }

  ghost predicate InOrderOf(all: seq<int>, ids: seq<int>) {
    forall i, j :: 0 <= i < j < |ids| ==> Leads(all, ids[i], ids[j])
  }

  /** The ids of `all` inside the graph, without the vertex, in order of first occurrence. */
  ghost predicate Firsts(self: int, n: nat, all: seq<int>, ids: seq<int>) {
    (forall x :: x in ids <==> x in all && 0 <= x < n && x != self) && InOrderOf(all, ids)
  }

  lemma LeadsBehind(all: seq<int>, x: int, y: int)
    requires all != [] && y != all[0] && (x == all[0] || Leads(all[1..], x, y))
    ensures Leads(all, x, y)
  {
    if x == all[0] {
      assert y !in all[..1];
    } else {
      var p :| 0 <= p < |all[1..]| && all[1..][p] == x && y !in all[1..][..p + 1];
      assert all[..p + 2] == [all[0]] + all[1..][..p + 1];
      assert all[p + 1] == x && y !in all[..p + 2];
    }
  }

  lemma {:induction false} UniqueInOrder(self: int, n: nat, seen: set<int>, ids: seq<int>)
    ensures InOrderOf(ids, Unique(self, n, seen, ids))
    decreases ids
  {
    hide Leads;
    var kept := Unique(self, n, seen, ids);
    if ids != [] {
      var take := Admissible(self, n, ids[0]) && ids[0] !in seen;
      var more := if take then seen + {ids[0]} else seen;
      var rest := Unique(self, n, more, ids[1..]);
      UniqueInOrder(self, n, more, ids[1..]);
      UniqueIsCanonical(self, n, more, ids[1..]);
      forall i, j | 0 <= i < j < |rest| ensures Leads(ids, rest[i], rest[j]) {
        assert rest[j] in rest;
        LeadsBehind(ids, rest[i], rest[j]);
      }
      forall j | take && 0 <= j < |rest| ensures Leads(ids, ids[0], rest[j]) {
        assert rest[j] in rest;
        LeadsBehind(ids, ids[0], rest[j]);
      }
    }
  }

  /** The union keeps the first occurrences of both lists, one behind the other. */
  lemma UnionIsFirsts(self: int, n: nat, kept: seq<int>, incoming: seq<int>)
    ensures Firsts(self, n, kept + incoming, Union(self, n, kept, incoming))
  {
    UniqueIsCanonical(self, n, {}, kept + incoming);
    UniqueInOrder(self, n, {}, kept + incoming);
  }

  lemma LeadsOneWay(all: seq<int>, x: int, y: int)
    requires Leads(all, x, y)
    ensures !Leads(all, y, x) && x != y
  {
    var p :| 0 <= p < |all| && all[p] == x && y !in all[..p + 1];
    assert x == all[..p + 1][p];
    forall q | 0 <= q <= p ensures all[q] != y {
      assert all[..p + 1][q] == all[q];
    }
    forall q | p < q < |all| && all[q] == y ensures x in all[..q + 1] {
      assert all[..q + 1][p] == x;
    }
  }

  lemma SameFirst(all: seq<int>, s: seq<int>, t: seq<int>)
    requires InOrderOf(all, s) && InOrderOf(all, t) && s != [] && t != []
    requires forall x :: x in s <==> x in t
    ensures s[0] == t[0]
  {
    hide Leads;
    assert s[0] in s && t[0] in t;
    var i :| 0 <= i < |s| && s[i] == t[0];
    var j :| 0 <= j < |t| && t[j] == s[0];
    if Leads(all, s[0], t[0]) {
      LeadsOneWay(all, s[0], t[0]);
    }
  }

  lemma TailInOrder(all: seq<int>, s: seq<int>)
    requires InOrderOf(all, s) && s != []
    ensures InOrderOf(all, s[1..]) && s[0] !in s[1..]
  {
    hide Leads;
    forall j | 0 < j < |s| ensures s[j] != s[0] {
      LeadsOneWay(all, s[0], s[j]);
    }
  }

  lemma {:induction false} OneOrder(all: seq<int>, s: seq<int>, t: seq<int>)
    requires InOrderOf(all, s) && InOrderOf(all, t) && forall x :: x in s <==> x in t
    ensures s == t
    decreases s
  {
    assert |s| > 0 ==> s[0] in s;
    assert |t| > 0 ==> t[0] in t;
    if s != [] {
      SameFirst(all, s, t);
      TailInOrder(all, s);
      TailInOrder(all, t);
      hide InOrderOf;
      assert s == [s[0]] + s[1..] && t == [t[0]] + t[1..];
      assert forall x :: x in s[1..] <==> x in s && x != s[0];
      assert forall x :: x in t[1..] <==> x in t && x != t[0];
      OneOrder(all, s[1..], t[1..]);
    }
  }

  /** One list of first occurrences belongs to one list. */
  lemma FirstsAreUnique(self: int, n: nat, all: seq<int>, s: seq<int>, t: seq<int>)
    requires Firsts(self, n, all, s) && Firsts(self, n, all, t)
    ensures s == t
  {
    OneOrder(all, s, t);
  }

  datatype Tally = Tally(duplicates: nat, selves: nat, outOfRange: nat)

  predicate Foreign(n: nat, id: int) {
    id < 0 || id >= n
  }

  /** How many ids lie outside the graph. */
  function CountForeign(n: nat, ids: seq<int>): nat {
    if ids == [] then 0 else CountForeign(n, ids[..|ids| - 1]) + (if Foreign(n, ids[|ids| - 1]) then 1 else 0)
  }

  /** Every id is admitted, or counted as out of range, as the vertex itself, or as a duplicate. */
  method CanonicalNeighborUnion(self: int, n: nat, kept: seq<int>, incoming: seq<int>)
    returns (ids: seq<int>, tally: Tally)
    ensures ids == Union(self, n, kept, incoming)
    ensures tally.outOfRange == CountForeign(n, kept + incoming)
    ensures tally.selves == if Foreign(n, self) then 0 else multiset(kept + incoming)[self]
    ensures |ids| + tally.duplicates + tally.selves + tally.outOfRange == |kept| + |incoming|
    ensures tally.selves == 0 && tally.outOfRange == 0 <==>
      forall i :: 0 <= i < |kept + incoming| ==> Admissible(self, n, (kept + incoming)[i])
  {
    hide Unique, CountForeign;
    var all := kept + incoming;
    NothingYet(self, n, all);
    ids, tally := [], Tally(0, 0, 0);
    var seen: set<int> := {};
    for j := 0 to |all|
      invariant ids + Unique(self, n, seen, all[j..]) == Union(self, n, kept, incoming)
      invariant |ids| + tally.duplicates + tally.selves + tally.outOfRange == j
      invariant tally.outOfRange == CountForeign(n, all[..j])
      invariant tally.selves == if Foreign(n, self) then 0 else multiset(all[..j])[self]
    {
      var candidate := all[j];
      UniqueStep(self, n, seen, all, j);
      CountStep(n, self, all, j);
      if candidate < 0 || candidate >= n {
        tally := tally.(outOfRange := tally.outOfRange + 1);
      } else if candidate == self {
        tally := tally.(selves := tally.selves + 1);
      } else if candidate in seen {
        tally := tally.(duplicates := tally.duplicates + 1);
      } else {
        ids, seen := ids + [candidate], seen + {candidate};
      }
    }
    assert all[..|all|] == all;
    NoneRejected(self, n, all);
  }

  lemma {:induction false} NoneRejected(self: int, n: nat, all: seq<int>)
    ensures CountForeign(n, all) == 0 && (Foreign(n, self) || multiset(all)[self] == 0) <==>
      forall i :: 0 <= i < |all| ==> Admissible(self, n, all[i])
  {
    if all != [] {
      var last := |all| - 1;
      NoneRejected(self, n, all[..last]);
      assert all == all[..last] + [all[last]];
      assert forall i :: 0 <= i < last ==> all[..last][i] == all[i];
    }
  }

  lemma NothingYet(self: int, n: nat, all: seq<int>)
    ensures CountForeign(n, all[..0]) == 0 && all[0..] == all
    ensures forall seen :: Unique(self, n, seen, all[|all|..]) == []
  {
  }

  lemma UniqueStep(self: int, n: nat, seen: set<int>, all: seq<int>, j: nat)
    requires j < |all|
    ensures Unique(self, n, seen, all[j..]) ==
      if Admissible(self, n, all[j]) && all[j] !in seen then [all[j]] + Unique(self, n, seen + {all[j]}, all[j + 1..])
      else Unique(self, n, seen, all[j + 1..])
  {
    assert all[j..][1..] == all[j + 1..];
  }

  lemma CountStep(n: nat, x: int, all: seq<int>, j: nat)
    requires j < |all|
    ensures CountForeign(n, all[..j + 1]) == CountForeign(n, all[..j]) + (if Foreign(n, all[j]) then 1 else 0)
    ensures multiset(all[..j + 1])[x] == multiset(all[..j])[x] + (if all[j] == x then 1 else 0)
  {
    assert all[..j + 1] == all[..j] + [all[j]];
    assert all[..j + 1][..j] == all[..j];
  }
}
