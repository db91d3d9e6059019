// The order in which the staged selector offers fragments for admission: by
// value per byte, then by key. Values are compared as doubles, so a fragment
// with neither rows nor uses has no place in that order.

module FragmentOrder {
  import opened FragmentCover
  import opened FragmentSelect

  /** A quotient of doubles: 0/0 is not a number, n/0 is infinite. */
  datatype Rate = NotANumber | Finite(x: real) | Infinite

  function RateOf(c: Catalog, e: Candidate): Rate {
    var value := e.uses * (if e.key.PairKey? then 35000 else 3000);
    var bytes := 4 * Size(c, e.key);
    if bytes > 0 then Finite(value as real / bytes as real) else if value > 0 then Infinite else NotANumber
  }

  predicate Exceeds(a: Rate, b: Rate) {
    (a.Infinite? && b.Finite?) || (a.Finite? && b.Finite? && a.x > b.x)
  }

  /** The comparator of the sort. Not a number differs from everything and exceeds nothing. */
  predicate Ahead(c: Catalog, less: (Key, Key) -> bool, x: Candidate, y: Candidate) {
    var a, b := RateOf(c, x), RateOf(c, y);
    if a.NotANumber? || b.NotANumber? || a != b then Exceeds(a, b) else less(x.key, y.key)
  }

  predicate Rated(c: Catalog, e: Candidate) {
    !RateOf(c, e).NotANumber?
  }

  predicate HasRowsOrUses(c: Catalog, e: Candidate) {
    Size(c, e.key) > 0 || e.uses > 0
  }

  lemma RatedMeans(c: Catalog, e: Candidate)
    ensures Rated(c, e) <==> HasRowsOrUses(c, e)
  {
  }

  predicate Tied(c: Catalog, less: (Key, Key) -> bool, x: Candidate, y: Candidate) {
    !Ahead(c, less, x, y) && !Ahead(c, less, y, x)
  }

  /** What a sort demands of its comparator on the elements it sorts. */
  ghost predicate StrictWeakOrder(c: Catalog, less: (Key, Key) -> bool, s: seq<Candidate>) {
    && (forall x, y :: x in s && y in s && Ahead(c, less, x, y) ==> !Ahead(c, less, y, x))
    && (forall x, y, z :: x in s && y in s && z in s && Ahead(c, less, x, y) && Ahead(c, less, y, z) ==>
         Ahead(c, less, x, z))
    && (forall x, y, z :: x in s && y in s && z in s && Tied(c, less, x, y) && Tied(c, less, y, z) ==>
         Tied(c, less, x, z))
  }

  lemma AheadIsTotal(c: Catalog, less: (Key, Key) -> bool, x: Candidate, y: Candidate, z: Candidate)
    requires StrictOrder(less) && Rated(c, x) && Rated(c, y) && Rated(c, z)
    ensures Ahead(c, less, x, y) ==> !Ahead(c, less, y, x)
    ensures Ahead(c, less, x, y) && Ahead(c, less, y, z) ==> Ahead(c, less, x, z)
    ensures x.key != y.key ==> Ahead(c, less, x, y) || Ahead(c, less, y, x)
  {
    hide RateOf;
  }

  lemma UnratedIsTied(c: Catalog, less: (Key, Key) -> bool, x: Candidate, y: Candidate)
    requires !Rated(c, x)
    ensures Tied(c, less, x, y)
  {
    hide RateOf;
  }

  /** The comparator is fit for a sort exactly when every fragment has rows or
      uses, or at most one of them has. */
  lemma ComparatorIsSound(c: Catalog, less: (Key, Key) -> bool, s: seq<Candidate>)
    requires StrictOrder(less) && DistinctKeys(s)
    ensures StrictWeakOrder(c, less, s) <==>
      || (forall x :: x in s ==> HasRowsOrUses(c, x))
      || (forall x, y :: x in s && y in s && HasRowsOrUses(c, x) && HasRowsOrUses(c, y) ==> x == y)
  {
    hide Ahead, StrictOrder, Rated, HasRowsOrUses;
    forall x ensures Rated(c, x) <==> HasRowsOrUses(c, x) {
      RatedMeans(c, x);
    }
    if forall x :: x in s ==> Rated(c, x) {
      forall x, y, z | x in s && y in s && z in s
        ensures Ahead(c, less, x, y) ==> !Ahead(c, less, y, x)
        ensures Ahead(c, less, x, y) && Ahead(c, less, y, z) ==> Ahead(c, less, x, z)
        ensures x != y ==> !Tied(c, less, x, y)
      {
        AheadIsTotal(c, less, x, y, z);
        SameKey(s, x, y);
      }
      forall x | x in s ensures Tied(c, less, x, x) {
        AheadIsTotal(c, less, x, x, x);
      }
    } else if forall x, y :: x in s && y in s && Rated(c, x) && Rated(c, y) ==> x == y {
      forall x, y | x in s && y in s ensures Tied(c, less, x, y) {
        if !Rated(c, x) {
          UnratedIsTied(c, less, x, y);
        } else if !Rated(c, y) {
          UnratedIsTied(c, less, y, x);
        } else {
          AheadIsTotal(c, less, x, y, y);
        }
      }
    } else {
      var z :| z in s && !Rated(c, z);
      var x, y :| x in s && y in s && Rated(c, x) && Rated(c, y) && x != y;
      UnratedIsTied(c, less, z, x);
      UnratedIsTied(c, less, z, y);
      AheadIsTotal(c, less, x, y, y);
      SameKey(s, x, y);
      assert Tied(c, less, x, z) && Tied(c, less, z, y) && !Tied(c, less, x, y);
    }
  }

  /** Two pairs of one row each, and a pair with neither rows nor uses. */
  function UnratedCatalog(): Catalog {
    Catalog([1], [1], [0, 1, 1], [])
  }

  function UnratedCandidates(): seq<Candidate> {
    [Candidate(PairKey(0), 0), Candidate(PairKey(1), 1), Candidate(PairKey(2), 2)]
  }

  /** On three such fragments the comparator is no order: the empty one ties with
      both others, which do not tie with each other. */
  lemma UnratedBreaksTheOrder(less: (Key, Key) -> bool)
    requires StrictOrder(less)
    ensures !StrictWeakOrder(UnratedCatalog(), less, UnratedCandidates())
  {
    var c, s := UnratedCatalog(), UnratedCandidates();
    assert s[1] in s && s[2] in s && s[0] in s;
    assert !HasRowsOrUses(c, s[0]) && HasRowsOrUses(c, s[1]) && HasRowsOrUses(c, s[2]);
    ComparatorIsSound(c, less, s);
  }

  lemma SameKey(s: seq<Candidate>, x: Candidate, y: Candidate)
    requires DistinctKeys(s) && x in s && y in s
    ensures x.key == y.key ==> x == y
  {
  }

  // --- The sorted list ---

  ghost predicate InOrder(c: Catalog, less: (Key, Key) -> bool, s: seq<Candidate>) {
    forall i, j :: 0 <= i < j < |s| ==> Ahead(c, less, s[i], s[j])
  }

  ghost predicate AllRated(c: Catalog, s: seq<Candidate>) {
    forall x :: x in s ==> Rated(c, x)
  }

  /** The candidates that admission is about: pairs, and ranges of several bins. */
  function WideOnes(entries: seq<Candidate>): (s: seq<Candidate>)
    ensures forall x :: x in s <==> x in entries && Wide(x.key)
  {
    if entries == [] then []
    else
      assert entries == [entries[0]] + entries[1..];
      (if Wide(entries[0].key) then [entries[0]] else []) + WideOnes(entries[1..])
  }

  lemma {:induction false} WideOnesAreDistinct(entries: seq<Candidate>)
    requires DistinctKeys(entries)
    ensures DistinctKeys(WideOnes(entries))
  {
    if entries != [] {
      WideOnesAreDistinct(entries[1..]);
      var rest := WideOnes(entries[1..]);
      assert entries == [entries[0]] + entries[1..];
      forall j | 0 <= j < |rest| ensures rest[j].key != entries[0].key {
        assert rest[j] in rest;
        var i :| 0 <= i < |entries[1..]| && entries[1..][i] == rest[j];
        assert entries[i + 1] == rest[j];
      }
    }
  }

  method InsertSupport(c: Catalog, less: (Key, Key) -> bool, x: Candidate, s: seq<Candidate>)
    returns (t: seq<Candidate>)
    requires StrictOrder(less) && InOrder(c, less, s) && AllRated(c, s) && Rated(c, x)
    requires forall y :: y in s ==> y.key != x.key
    ensures InOrder(c, less, t) && forall y :: y in t <==> y == x || y in s
  {
    hide Ahead, StrictOrder, Rated, InOrder, AllRated;
    var at := 0;
    while at < |s| && Ahead(c, less, s[at], x)
      invariant at <= |s| && forall i :: 0 <= i < at ==> Ahead(c, less, s[i], x)
    {
      at := at + 1;
    }
    BehindTheRest(c, less, x, s, at);
    InsertedInOrder(c, less, x, s, at);
    InsertedMembers(x, s, at);
    t := s[..at] + [x] + s[at..];
  }

  /** Where the search stops, the new fragment is ahead of everything behind it. */
  lemma BehindTheRest(c: Catalog, less: (Key, Key) -> bool, x: Candidate, s: seq<Candidate>, at: nat)
    requires StrictOrder(less) && InOrder(c, less, s) && AllRated(c, s) && Rated(c, x) && at <= |s|
    requires forall y :: y in s ==> y.key != x.key
    requires at < |s| ==> !Ahead(c, less, s[at], x)
    ensures forall i :: at <= i < |s| ==> Ahead(c, less, x, s[i])
  {
    hide Ahead, StrictOrder, Rated;
    forall i | at <= i < |s| ensures Ahead(c, less, x, s[i]) {
      assert s[i] in s && s[at] in s;
      AheadIsTotal(c, less, x, s[at], s[i]);
    }
  }

  lemma InsertedInOrder(c: Catalog, less: (Key, Key) -> bool, x: Candidate, s: seq<Candidate>, at: nat)
    requires InOrder(c, less, s) && at <= |s|
    requires forall i :: 0 <= i < at ==> Ahead(c, less, s[i], x)
    requires forall i :: at <= i < |s| ==> Ahead(c, less, x, s[i])
    ensures InOrder(c, less, s[..at] + [x] + s[at..])
  {
    hide Ahead;
  }

  lemma InsertedMembers(x: Candidate, s: seq<Candidate>, at: nat)
    requires at <= |s|
    ensures forall y :: y in s[..at] + [x] + s[at..] <==> y == x || y in s
  {
    assert s == s[..at] + s[at..];
  }

  ghost predicate SameMembers(s: seq<Candidate>, t: seq<Candidate>) {
    forall x :: x in s <==> x in t
  }

  lemma OneMoreMember(wide: seq<Candidate>, i: nat, before: seq<Candidate>, after: seq<Candidate>)
    requires i < |wide| && SameMembers(before, wide[..i])
    requires forall y :: y in after <==> y == wide[i] || y in before
    ensures SameMembers(after, wide[..i + 1])
  {
    assert wide[..i + 1] == wide[..i] + [wide[i]];
  }

  /** The comparator in whole numbers, on fragments that have a rate. */
  lemma AheadMeans(c: Catalog, less: (Key, Key) -> bool, x: Candidate, y: Candidate)
    requires Rated(c, x) && Rated(c, y)
    ensures var m, n := Size(c, x.key), Size(c, y.key);
      var v, w := x.uses * (if x.key.PairKey? then 35000 else 3000), y.uses * (if y.key.PairKey? then 35000 else 3000);
      Ahead(c, less, x, y) <==>
        if m > 0 && n > 0 then v * n > w * m || (v * n == w * m && less(x.key, y.key))
        else m == 0 && (n > 0 || less(x.key, y.key))
  {
    var m, n := Size(c, x.key), Size(c, y.key);
    var v, w := x.uses * (if x.key.PairKey? then 35000 else 3000), y.uses * (if y.key.PairKey? then 35000 else 3000);
    if m > 0 && n > 0 {
      CrossProducts(v, 4 * m, w, 4 * n);
      assert v * (4 * n) == 4 * (v * n) && w * (4 * m) == 4 * (w * m);
    }
  }

  /** So is a sorted list of them. */
  lemma OrderMeans(c: Catalog, less: (Key, Key) -> bool, order: seq<Candidate>)
    requires InOrder(c, less, order) && AllRated(c, order)
    ensures forall i, j :: 0 <= i < j < |order| ==>
      var x, y := order[i], order[j];
      var m, n := Size(c, x.key), Size(c, y.key);
      var v, w := x.uses * (if x.key.PairKey? then 35000 else 3000), y.uses * (if y.key.PairKey? then 35000 else 3000);
      if m > 0 && n > 0 then v * n > w * m || (v * n == w * m && less(x.key, y.key))
      else m == 0 && (n > 0 || less(x.key, y.key))
  {
    hide Ahead, Rated;
    forall i, j | 0 <= i < j < |order|
      ensures Ahead(c, less, order[i], order[j]) && Rated(c, order[i]) && Rated(c, order[j])
    {
      assert order[i] in order && order[j] in order;
    }
    forall i, j | 0 <= i < j < |order| {
      AheadMeans(c, less, order[i], order[j]);
    }
  }

  /** The sort before admission: every wide candidate once, the richest first. */
  method SupportOrder(c: Catalog, entries: seq<Candidate>, less: (Key, Key) -> bool) returns (order: seq<Candidate>)
    requires StrictOrder(less) && DistinctKeys(entries) && AllRated(c, WideOnes(entries))
    ensures InOrder(c, less, order) && DistinctKeys(order)
    ensures forall x :: x in order <==>
      x in entries && (x.key.PairKey? || (x.key.RangeKey? && x.key.width > 1))
    ensures forall i, j :: 0 <= i < j < |order| ==>
      var x, y := order[i], order[j];
      var m, n := Size(c, x.key), Size(c, y.key);
      var v, w := x.uses * (if x.key.PairKey? then 35000 else 3000), y.uses * (if y.key.PairKey? then 35000 else 3000);
      if m > 0 && n > 0 then v * n > w * m || (v * n == w * m && less(x.key, y.key))
      else m == 0 && (n > 0 || less(x.key, y.key))
  {
    hide Ahead, StrictOrder, Rated, Wide, DistinctKeys, InOrder, AllRated, SameMembers;
    var wide := WideOnes(entries);
    WideOnesAreDistinct(entries);
    order := [];
    NoneInOrder(c, less, wide);
    for i := 0 to |wide|
      invariant InOrder(c, less, order) && SameMembers(order, wide[..i])
    {
      NextIsNew(c, wide, i, order);
      ghost var before := order;
      order := InsertSupport(c, less, wide[i], order);
      OneMoreMember(wide, i, before, order);
    }
    assert wide[..|wide|] == wide;
    InOrderIsDistinct(c, less, wide, order);
    MembersOf(order, wide);
    WideMeans();
    StillRated(c, wide, order);
    OrderMeans(c, less, order);
  }

  lemma NoneInOrder(c: Catalog, less: (Key, Key) -> bool, wide: seq<Candidate>)
    ensures InOrder(c, less, []) && SameMembers([], wide[..0])
  {
  }

  lemma MembersOf(s: seq<Candidate>, t: seq<Candidate>)
    requires SameMembers(s, t)
    ensures forall x :: x in s <==> x in t
  {
  }

  lemma WideMeans()
    ensures forall key: Key :: Wide(key) <==> key.PairKey? || (key.RangeKey? && key.width > 1)
  {
  }

  lemma StillRated(c: Catalog, wide: seq<Candidate>, order: seq<Candidate>)
    requires AllRated(c, wide) && SameMembers(order, wide)
    ensures AllRated(c, order)
  {
  }

  lemma NextIsNew(c: Catalog, wide: seq<Candidate>, i: nat, order: seq<Candidate>)
    requires DistinctKeys(wide) && AllRated(c, wide) && i < |wide| && SameMembers(order, wide[..i])
    ensures Rated(c, wide[i]) && AllRated(c, order) && forall y :: y in order ==> y.key != wide[i].key
  {
    hide Rated;
    assert wide[i] in wide;
    forall y | y in order ensures y.key != wide[i].key && Rated(c, y) {
      var j :| 0 <= j < i && wide[..i][j] == y;
      assert wide[j] == y && y in wide;
    }
  }

  lemma InOrderIsDistinct(c: Catalog, less: (Key, Key) -> bool, wide: seq<Candidate>, order: seq<Candidate>)
    requires StrictOrder(less) && DistinctKeys(wide) && AllRated(c, wide) && InOrder(c, less, order)
    requires SameMembers(order, wide)
    ensures DistinctKeys(order)
  {
    hide Ahead, StrictOrder, Rated;
    forall i, j | 0 <= i < j < |order| ensures order[i].key != order[j].key {
      assert order[i] in order && order[j] in order;
      AheadIsTotal(c, less, order[i], order[i], order[i]);
      SameKey(wide, order[i], order[j]);
    }
  }

  /** There is one such order. */
  lemma {:induction false} OrderIsUnique(c: Catalog, less: (Key, Key) -> bool, s: seq<Candidate>, t: seq<Candidate>)
    requires StrictOrder(less) && InOrder(c, less, s) && InOrder(c, less, t) && AllRated(c, s)
    requires forall x :: x in s <==> x in t
    ensures s == t
  {
    hide Ahead, StrictOrder, Rated;
    NoneWithoutTheOther(s, t);
    NoneWithoutTheOther(t, s);
    if s != [] {
      FirstIsFirst(c, less, s, t);
      assert s == [s[0]] + s[1..] && t == [t[0]] + t[1..];
      FirstOnce(c, less, s);
      FirstOnce(c, less, t);
      assert forall x :: x in s[1..] <==> x in s && x != s[0];
      assert forall x :: x in t[1..] <==> x in t && x != t[0];
      OrderIsUnique(c, less, s[1..], t[1..]);
    }
  }

  lemma NoneWithoutTheOther(s: seq<Candidate>, t: seq<Candidate>)
    requires forall x :: x in s <==> x in t
    ensures s != [] ==> t != []
  {
    if s != [] {
      assert s[0] in s;
    }
  }

  lemma FirstIsFirst(c: Catalog, less: (Key, Key) -> bool, s: seq<Candidate>, t: seq<Candidate>)
    requires StrictOrder(less) && InOrder(c, less, s) && InOrder(c, less, t) && AllRated(c, s)
    requires s != [] && t != [] && forall x :: x in s <==> x in t
    ensures s[0] == t[0]
  {
    hide Ahead, StrictOrder;
    assert s[0] in s && t[0] in t;
    var i :| 0 <= i < |t| && t[i] == s[0];
    var j :| 0 <= j < |s| && s[j] == t[0];
    AheadIsTotal(c, less, s[0], t[0], t[0]);
  }

  lemma FirstOnce(c: Catalog, less: (Key, Key) -> bool, s: seq<Candidate>)
    requires StrictOrder(less) && InOrder(c, less, s) && AllRated(c, s) && s != []
    ensures s[0] !in s[1..]
  {
    hide Ahead, StrictOrder;
    if s[0] in s[1..] {
      var i :| 0 < i < |s| && s[i] == s[0];
      assert s[0] in s;
      AheadIsTotal(c, less, s[0], s[0], s[0]);
    }
  }
}
