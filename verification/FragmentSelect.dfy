// The two layout selectors under a byte budget: the staged one, which admits
// fragments and then packs them, and the joint one, which weighs both at once
// and falls back to the staged result when that is cheaper.

module FragmentSelect {
  import opened Options
  import opened FragmentCover

  /** A development query, reduced to the fragments it needs. */
  datatype Request = Equality(a: nat) | Conjunction(p: nat) | Range(lo: nat, hi: nat) | Dnf(p: nat, q: nat)

  /** A catalog entry and how many development queries mention it. */
  datatype Candidate = Candidate(key: Key, uses: nat)

  predicate ValidRequest(q: Request) {
    q.Range? ==> q.lo <= q.hi
  }

  const DIMENSION := 128

  ghost function QueryCost(c: Catalog, q: Request, sel: Selection): int
    requires ValidRequest(q)
  {
    match q
    case Equality(a) => FragmentCost(c, AKey(a), sel)
    case Conjunction(p) => FragmentCost(c, PairKey(p), sel)
    case Range(lo, hi) => LeastCost(c, sel, lo, hi)
    case Dnf(p, r) => FragmentCost(c, PairKey(p), sel) + FragmentCost(c, PairKey(r), sel) + JOIN_CHARGE
  }

  ghost predicate ValidRequests(dev: seq<Request>) {
    forall i :: 0 <= i < |dev| ==> ValidRequest(dev[i])
  }

  ghost function TotalCost(c: Catalog, dev: seq<Request>, sel: Selection): int
    requires ValidRequests(dev)
  {
    if dev == [] then 0 else TotalCost(c, dev[..|dev| - 1], sel) + QueryCost(c, dev[|dev| - 1], sel)
  }

  /** What one more development query adds: a fragment, a cover that no tiling
      betters, or two pairs and a join. */
  lemma OneMoreQuery(c: Catalog, dev: seq<Request>, q: Request, sel: Selection)
    requires ValidRequests(dev) && ValidRequests(dev + [q])
    ensures q.Equality? ==> TotalCost(c, dev + [q], sel) == TotalCost(c, dev, sel) + FragmentCost(c, AKey(q.a), sel)
    ensures q.Conjunction? ==>
      TotalCost(c, dev + [q], sel) == TotalCost(c, dev, sel) + FragmentCost(c, PairKey(q.p), sel)
    ensures q.Range? ==> forall cover :: Chosen(c, sel, cover, q.lo, q.hi) ==>
      TotalCost(c, dev + [q], sel) == TotalCost(c, dev, sel) + cover.cost
    ensures q.Dnf? ==>
      TotalCost(c, dev + [q], sel) ==
      TotalCost(c, dev, sel) + FragmentCost(c, PairKey(q.p), sel) + FragmentCost(c, PairKey(q.q), sel) + 1500
  {
    hide FragmentCost, Chosen, Optimal;
    var all := dev + [q];
    assert ValidRequest(all[|dev|]);
    assert all[..|all| - 1] == dev;
    if q.Range? {
      forall cover | Chosen(c, sel, cover, q.lo, q.hi) ensures cover.cost == LeastCost(c, sel, q.lo, q.hi) {
        ChosenIsOptimal(c, sel, cover, q.lo, q.hi);
      }
    }
  }

  /** total_cost(): one cover per range query. */
  method ComputeTotal(c: Catalog, dev: seq<Request>, sel: Selection) returns (total: int)
    requires ValidRequests(dev)
    ensures total == TotalCost(c, dev, sel)
  {
    total := 0;
    for i := 0 to |dev|
      invariant total == TotalCost(c, dev[..i], sel)
    {
      assert dev[..i + 1][..i] == dev[..i];
      match dev[i]
      case Equality(a) => total := total + FragmentCost(c, AKey(a), sel);
      case Conjunction(p) => total := total + FragmentCost(c, PairKey(p), sel);
      case Range(lo, hi) =>
        var cover := ComputeCover(c, lo, hi, sel);
        total := total + cover.cost;
      case Dnf(p, r) =>
        total := total + FragmentCost(c, PairKey(p), sel) + FragmentCost(c, PairKey(r), sel) + JOIN_CHARGE;
    }
    assert dev[..|dev|] == dev;
  }

  lemma {:induction false} TotalCostFalls(c: Catalog, dev: seq<Request>, sel: Selection, more: Selection)
    requires ValidRequests(dev) && Within(sel, more)
    ensures TotalCost(c, dev, more) <= TotalCost(c, dev, sel)
  {
    if dev != [] {
      TotalCostFalls(c, dev[..|dev| - 1], sel, more);
      match dev[|dev| - 1]
      case Equality(a) => FragmentCostFalls(c, AKey(a), sel, more);
      case Conjunction(p) => FragmentCostFalls(c, PairKey(p), sel, more);
      case Range(lo, hi) => LeastCostFalls(c, sel, more, lo, hi);
      case Dnf(p, r) =>
        FragmentCostFalls(c, PairKey(p), sel, more);
        FragmentCostFalls(c, PairKey(r), sel, more);
    }
  }

  /** account(): four bytes per stored id, one vector per packed row. */
  function Account(c: Catalog, entries: seq<Candidate>, sel: Selection): nat {
    if entries == [] then 0
    else
      var key := entries[0].key;
      Account(c, entries[1..], sel) +
      (if key in sel.ids then 4 * Size(c, key) else 0) + (if key in sel.packed then DIMENSION * Size(c, key) else 0)
  }

  lemma {:induction false} AccountGrows(c: Catalog, entries: seq<Candidate>, sel: Selection, more: Selection)
    requires Within(sel, more)
    ensures Account(c, entries, sel) <= Account(c, entries, more)
  {
    if entries != [] {
      AccountGrows(c, entries[1..], sel, more);
    }
  }

  /** One more stored id list costs four bytes a row, one more packed copy 128. */
  lemma {:induction false} AccountOfOneMore(c: Catalog, entries: seq<Candidate>, sel: Selection, e: Candidate)
    requires e in entries && forall i, j :: 0 <= i < j < |entries| ==> entries[i].key != entries[j].key
    ensures e.key !in sel.ids ==>
      Account(c, entries, Selection(sel.ids + {e.key}, sel.packed)) == Account(c, entries, sel) + 4 * Size(c, e.key)
    ensures e.key !in sel.packed ==>
      Account(c, entries, Selection(sel.ids, sel.packed + {e.key})) == Account(c, entries, sel) + 128 * Size(c, e.key)
  {
    hide Size;
    assert entries == [entries[0]] + entries[1..];
    if e == entries[0] {
      AccountOfOthers(c, entries[1..], sel, e.key);
    } else {
      AccountOfOneMore(c, entries[1..], sel, e);
      assert entries[0].key != e.key by {
        var j :| 0 < j < |entries| && entries[j] == e;
      }
    }
  }

  lemma {:induction false} AccountOfOthers(c: Catalog, entries: seq<Candidate>, sel: Selection, key: Key)
    requires forall i :: 0 <= i < |entries| ==> entries[i].key != key
    ensures Account(c, entries, Selection(sel.ids + {key}, sel.packed)) == Account(c, entries, sel)
    ensures Account(c, entries, Selection(sel.ids, sel.packed + {key})) == Account(c, entries, sel)
  {
    if entries != [] {
      AccountOfOthers(c, entries[1..], sel, key);
    }
  }

  const EMPTY := Selection({}, {})

  lemma {:induction false} EmptyIsFree(c: Catalog, entries: seq<Candidate>)
    ensures Account(c, entries, EMPTY) == 0
  {
    if entries != [] {
      EmptyIsFree(c, entries[1..]);
    }
  }

  function AddIds(sel: Selection, key: Key): Selection {
    sel.(ids := sel.ids + {key})
  }

  function AddPacked(sel: Selection, key: Key): Selection {
    sel.(packed := sel.packed + {key})
  }

  // --- Joint selection ---

  predicate Wide(key: Key) {
    key.PairKey? || (key.RangeKey? && key.width > 1)
  }

  /** Variants of one catalog key: admit it, admit and pack it, or pack it. */
  function KeyVariants(sel: Selection, key: Key): seq<Selection> {
    if Wide(key) then
      if key !in sel.ids then [AddIds(sel, key), AddPacked(AddIds(sel, key), key)]
      else if key !in sel.packed then [AddPacked(sel, key)] else []
    else if key !in sel.packed then [AddPacked(sel, key)] else []
  }

  /** All even width-two fragments starting in [at, hi), admitted and packed together. */
  function PairRun(sel: Selection, at: nat, hi: nat): Selection
    decreases hi - at
  {
    if at >= hi then sel
    else
      PairRun(if at % 2 == 0 then AddPacked(AddIds(sel, RangeKey(2, at)), RangeKey(2, at)) else sel, at + 1, hi)
  }

  function CatalogVariants(sel: Selection, entries: seq<Candidate>): seq<Selection> {
    if entries == [] then [] else KeyVariants(sel, entries[0].key) + CatalogVariants(sel, entries[1..])
  }

  function RangeVariants(sel: Selection, dev: seq<Request>): seq<Selection> {
    if dev == [] then []
    else (if dev[0].Range? then [PairRun(sel, dev[0].lo, dev[0].hi)] else []) + RangeVariants(sel, dev[1..])
  }

  /** Every move one greedy step considers. */
  function Moves(sel: Selection, entries: seq<Candidate>, dev: seq<Request>): seq<Selection> {
    CatalogVariants(sel, entries) + RangeVariants(sel, dev)
  }

  lemma {:induction false} CatalogMoves(sel: Selection, entries: seq<Candidate>, t: Selection)
    ensures t in CatalogVariants(sel, entries) <==> exists e :: e in entries && t in KeyVariants(sel, e.key)
  {
    if entries != [] {
      CatalogMoves(sel, entries[1..], t);
      assert entries == [entries[0]] + entries[1..];
    }
  }

  lemma {:induction false} RangeMoves(sel: Selection, dev: seq<Request>, t: Selection)
    ensures t in RangeVariants(sel, dev) <==>
      exists q :: q in dev && q.Range? && t == PairRun(sel, q.lo, q.hi)
  {
    if dev != [] {
      RangeMoves(sel, dev[1..], t);
      assert dev == [dev[0]] + dev[1..];
    }
  }

  /** The width-two fragments with an even start in [lo, hi). */
  ghost function EvenPairs(lo: nat, hi: nat): set<Key> {
    set start: nat | lo <= start < hi && start % 2 == 0 :: RangeKey(2, start)
  }

  lemma {:induction false} RunMeans(sel: Selection, at: nat, hi: nat)
    ensures PairRun(sel, at, hi) == Selection(sel.ids + EvenPairs(at, hi), sel.packed + EvenPairs(at, hi))
    decreases hi - at
  {
    if at < hi {
      var key := RangeKey(2, at);
      var next := if at % 2 == 0 then AddPacked(AddIds(sel, key), key) else sel;
      RunMeans(next, at + 1, hi);
      assert EvenPairs(at, hi) == EvenPairs(at + 1, hi) + if at % 2 == 0 then {key} else {};
    }
  }

  /** The moves of a greedy step: a pair or wide range that is not stored is
      stored, or stored and packed; any other fragment that is not packed is packed;
      the even width-two fragments inside a development range are stored and packed. */
  ghost predicate IsMove(sel: Selection, entries: seq<Candidate>, dev: seq<Request>, t: Selection) {
    || (exists e :: e in entries && (e.key.PairKey? || (e.key.RangeKey? && e.key.width > 1)) && e.key !in sel.ids
          && (|| t == Selection(sel.ids + {e.key}, sel.packed)
              || t == Selection(sel.ids + {e.key}, sel.packed + {e.key})))
    || (exists e :: e in entries && (e.key.AKey? || (e.key.RangeKey? && e.key.width <= 1) || e.key in sel.ids)
          && e.key !in sel.packed && t == Selection(sel.ids, sel.packed + {e.key}))
    || (exists q :: q in dev && q.Range?
          && var run := set start: nat | q.lo <= start < q.hi && start % 2 == 0 :: RangeKey(2, start);
             t == Selection(sel.ids + run, sel.packed + run))
  }

  lemma MovesMean(sel: Selection, entries: seq<Candidate>, dev: seq<Request>, t: Selection)
    ensures t in Moves(sel, entries, dev) <==> IsMove(sel, entries, dev, t)
  {
    hide PairRun, CatalogVariants, RangeVariants;
    CatalogMoves(sel, entries, t);
    RangeMoves(sel, dev, t);
    forall q | q in dev && q.Range?
      ensures PairRun(sel, q.lo, q.hi)
           == Selection(sel.ids + EvenPairs(q.lo, q.hi), sel.packed + EvenPairs(q.lo, q.hi))
    {
      RunMeans(sel, q.lo, q.hi);
    }
    forall e | e in entries
      ensures t in KeyVariants(sel, e.key) <==>
        || ((e.key.PairKey? || (e.key.RangeKey? && e.key.width > 1)) && e.key !in sel.ids
            && (|| t == Selection(sel.ids + {e.key}, sel.packed)
                || t == Selection(sel.ids + {e.key}, sel.packed + {e.key})))
        || ((e.key.AKey? || (e.key.RangeKey? && e.key.width <= 1) || e.key in sel.ids)
            && e.key !in sel.packed && t == Selection(sel.ids, sel.packed + {e.key}))
    {
      VariantsMean(sel, e.key, t);
    }
    hide KeyVariants;
  }

  lemma VariantsMean(sel: Selection, key: Key, t: Selection)
    ensures t in KeyVariants(sel, key) <==>
      || ((key.PairKey? || (key.RangeKey? && key.width > 1)) && key !in sel.ids
          && (t == Selection(sel.ids + {key}, sel.packed) || t == Selection(sel.ids + {key}, sel.packed + {key})))
      || ((key.AKey? || (key.RangeKey? && key.width <= 1) || key in sel.ids)
          && key !in sel.packed && t == Selection(sel.ids, sel.packed + {key}))
  {
    var ids, both := AddIds(sel, key), AddPacked(AddIds(sel, key), key);
    assert ids == Selection(sel.ids + {key}, sel.packed);
    assert both == Selection(sel.ids + {key}, sel.packed + {key});
    assert AddPacked(sel, key) == Selection(sel.ids, sel.packed + {key});
  }

  /** Saving per added byte. */
  ghost function Density(c: Catalog, entries: seq<Candidate>, dev: seq<Request>, cur: Selection, t: Selection): real
    requires ValidRequests(dev) && Account(c, entries, t) > Account(c, entries, cur)
  {
    (TotalCost(c, dev, cur) - TotalCost(c, dev, t)) as real
      / (Account(c, entries, t) - Account(c, entries, cur)) as real
  }

  /** A move that fits the budget, adds bytes and lowers the cost. */
  ghost predicate Gains(c: Catalog, entries: seq<Candidate>, dev: seq<Request>, budget: nat, cur: Selection,
                        t: Selection)
    requires ValidRequests(dev)
  {
    && Account(c, entries, cur) < Account(c, entries, t) <= budget
    && TotalCost(c, dev, t) < TotalCost(c, dev, cur)
  }

  /** The move one greedy step takes: the densest gain, and the cheapest of the densest. */
  ghost predicate BestMove(c: Catalog, entries: seq<Candidate>, dev: seq<Request>, budget: nat, cur: Selection,
                           best: Selection)
    requires ValidRequests(dev)
  {
    && best in Moves(cur, entries, dev) && Gains(c, entries, dev, budget, cur, best)
    && forall t :: t in Moves(cur, entries, dev) && Gains(c, entries, dev, budget, cur, t) ==>
      && Density(c, entries, dev, cur, t) <= Density(c, entries, dev, cur, best)
      && (Density(c, entries, dev, cur, t) == Density(c, entries, dev, cur, best) ==>
           TotalCost(c, dev, best) <= TotalCost(c, dev, t))
  }

  ghost predicate NothingGains(c: Catalog, entries: seq<Candidate>, dev: seq<Request>, budget: nat, cur: Selection)
    requires ValidRequests(dev)
  {
    forall t :: t in Moves(cur, entries, dev) ==> !Gains(c, entries, dev, budget, cur, t)
  }

  /** One greedy step: the best move, or none when nothing gains. */
  method JointStep(c: Catalog, entries: seq<Candidate>, dev: seq<Request>, budget: nat, cur: Selection, current: int)
    returns (next: Option<Selection>, cost: int)
    requires ValidRequests(dev) && current == TotalCost(c, dev, cur)
    ensures next.None? <==> NothingGains(c, entries, dev, budget, cur)
    ensures next.Some? ==> BestMove(c, entries, dev, budget, cur, next.value) && cost == TotalCost(c, dev, next.value)
    ensures next.None? <==> forall t: Selection ::
      Account(c, entries, cur) < Account(c, entries, t) <= budget && (
        || (exists e :: e in entries && (e.key.PairKey? || (e.key.RangeKey? && e.key.width > 1)) && e.key !in cur.ids
              && (|| t == Selection(cur.ids + {e.key}, cur.packed)
                  || t == Selection(cur.ids + {e.key}, cur.packed + {e.key})))
        || (exists e :: e in entries && (e.key.AKey? || (e.key.RangeKey? && e.key.width <= 1) || e.key in cur.ids)
              && e.key !in cur.packed && t == Selection(cur.ids, cur.packed + {e.key}))
        || (exists q :: q in dev && q.Range?
              && var run := set start: nat | q.lo <= start < q.hi && start % 2 == 0 :: RangeKey(2, start);
                 t == Selection(cur.ids + run, cur.packed + run)))
      ==> TotalCost(c, dev, t) >= TotalCost(c, dev, cur)
    ensures next.Some? ==>
      || (exists e :: e in entries && (e.key.PairKey? || (e.key.RangeKey? && e.key.width > 1)) && e.key !in cur.ids
            && (|| next.value == Selection(cur.ids + {e.key}, cur.packed)
                || next.value == Selection(cur.ids + {e.key}, cur.packed + {e.key})))
      || (exists e :: e in entries && (e.key.AKey? || (e.key.RangeKey? && e.key.width <= 1) || e.key in cur.ids)
            && e.key !in cur.packed && next.value == Selection(cur.ids, cur.packed + {e.key}))
      || (exists q :: q in dev && q.Range?
            && var run := set start: nat | q.lo <= start < q.hi && start % 2 == 0 :: RangeKey(2, start);
               next.value == Selection(cur.ids + run, cur.packed + run))
  {
    hide Moves, Account, TotalCost, ValidRequests;
    var moves := Moves(cur, entries, dev);
    var bytes := Account(c, entries, cur);
    next, cost := None, current;
    var bestDensity := 0.0;
    for i := 0 to |moves|
      invariant next.None? ==> bestDensity == 0.0 && cost == current
      invariant next.Some? ==> next.value in moves && Gains(c, entries, dev, budget, cur, next.value)
      invariant next.Some? ==> bestDensity == Density(c, entries, dev, cur, next.value) > 0.0
      invariant next.Some? ==> cost == TotalCost(c, dev, next.value)
      invariant forall j :: 0 <= j < i && Gains(c, entries, dev, budget, cur, moves[j]) ==>
        && next.Some? && Density(c, entries, dev, cur, moves[j]) <= bestDensity
        && (Density(c, entries, dev, cur, moves[j]) == bestDensity ==> cost <= TotalCost(c, dev, moves[j]))
    {
      var t := moves[i];
      var tBytes := Account(c, entries, t);
      if tBytes <= budget && tBytes > bytes {
        var tCost := ComputeTotal(c, dev, t);
        var benefit := current - tCost;
        var density := benefit as real / (tBytes - bytes) as real;
        DensitySign(benefit, tBytes - bytes);
        if benefit > 0 && (density > bestDensity || (density == bestDensity && tCost < cost)) {
          bestDensity, cost, next := density, tCost, Some(t);
        }
      }
    }
    StopMeans(c, entries, dev, budget, cur);
    if next.Some? {
      MovesMean(cur, entries, dev, next.value);
    }
  }

  /** Nothing gains exactly when no such move that fits and adds bytes lowers the cost. */
  lemma StopMeans(c: Catalog, entries: seq<Candidate>, dev: seq<Request>, budget: nat, cur: Selection)
    requires ValidRequests(dev)
    ensures NothingGains(c, entries, dev, budget, cur) <==> forall t: Selection ::
      Account(c, entries, cur) < Account(c, entries, t) <= budget && IsMove(cur, entries, dev, t)
      ==> TotalCost(c, dev, t) >= TotalCost(c, dev, cur)
  {
    hide IsMove, Moves, Account, TotalCost, ValidRequests;
    forall t: Selection ensures t in Moves(cur, entries, dev) <==> IsMove(cur, entries, dev, t) {
      MovesMean(cur, entries, dev, t);
    }
  }

  lemma DensitySign(benefit: int, bytes: int)
    requires bytes > 0
    ensures benefit > 0 <==> benefit as real / bytes as real > 0.0
  {
  }

  lemma Scales(a: real, b: real, d: real)
    requires d > 0.0
    ensures a > b <==> a * d > b * d
    ensures a == b <==> a * d == b * d
  {
  }

  /** Quotients compare like cross products. */
  lemma CrossProducts(v: int, m: int, w: int, n: int)
    requires m > 0 && n > 0
    ensures v as real / m as real > w as real / n as real <==> v * n > w * m
    ensures v as real / m as real == w as real / n as real <==> v * n == w * m
  {
    var a, b, d := v as real / m as real, w as real / n as real, m as real * n as real;
    assert a * m as real == v as real && b * n as real == w as real;
    Scales(a, b, d);
    calc {
      a * d;
      (a * m as real) * n as real;
      v as real * n as real;
      (v * n) as real;
    }
    calc {
      b * d;
      (b * n as real) * m as real;
      w as real * m as real;
      (w * m) as real;
    }
  }

  /** The best move in whole numbers: it fits, adds bytes and lowers the cost, and
      no other such move saves more per added byte, or as much at a lower cost. */
  lemma BestMoveMeans(c: Catalog, entries: seq<Candidate>, dev: seq<Request>, budget: nat, cur: Selection,
                      best: Selection)
    requires ValidRequests(dev) && BestMove(c, entries, dev, budget, cur, best)
    ensures IsMove(cur, entries, dev, best)
    ensures Account(c, entries, cur) < Account(c, entries, best) <= budget
    ensures TotalCost(c, dev, best) < TotalCost(c, dev, cur)
    ensures forall t: Selection ::
      && IsMove(cur, entries, dev, t) && Account(c, entries, cur) < Account(c, entries, t) <= budget
      && TotalCost(c, dev, t) < TotalCost(c, dev, cur)
      ==> var saved, mine := TotalCost(c, dev, cur) - TotalCost(c, dev, t),
                             TotalCost(c, dev, cur) - TotalCost(c, dev, best);
          var added, grown := Account(c, entries, t) - Account(c, entries, cur),
                              Account(c, entries, best) - Account(c, entries, cur);
          saved * grown < mine * added
          || (saved * grown == mine * added && TotalCost(c, dev, best) <= TotalCost(c, dev, t))
  {
    hide IsMove, Moves, Account, TotalCost, ValidRequests;
    MovesMean(cur, entries, dev, best);
    forall t: Selection |
      && IsMove(cur, entries, dev, t) && Account(c, entries, cur) < Account(c, entries, t) <= budget
      && TotalCost(c, dev, t) < TotalCost(c, dev, cur)
      ensures var saved, mine := TotalCost(c, dev, cur) - TotalCost(c, dev, t),
                                 TotalCost(c, dev, cur) - TotalCost(c, dev, best);
        var added, grown := Account(c, entries, t) - Account(c, entries, cur),
                            Account(c, entries, best) - Account(c, entries, cur);
        saved * grown < mine * added
        || (saved * grown == mine * added && TotalCost(c, dev, best) <= TotalCost(c, dev, t))
    {
      MovesMean(cur, entries, dev, t);
      CrossProducts(TotalCost(c, dev, cur) - TotalCost(c, dev, t),
                    Account(c, entries, t) - Account(c, entries, cur),
                    TotalCost(c, dev, cur) - TotalCost(c, dev, best),
                    Account(c, entries, best) - Account(c, entries, cur));
    }
  }

  /** The selections a greedy run passes through: from the empty one, a best
      move each time, until nothing gains or the rounds are used up. */
  ghost predicate JointTrace(c: Catalog, entries: seq<Candidate>, dev: seq<Request>, budget: nat, rounds: nat,
                             trace: seq<Selection>)
    requires ValidRequests(dev)
  {
    && 0 < |trace| <= rounds + 1 && trace[0] == EMPTY
    && (forall i :: 0 < i < |trace| ==> BestMove(c, entries, dev, budget, trace[i - 1], trace[i]))
    && (|trace| == rounds + 1 || NothingGains(c, entries, dev, budget, trace[|trace| - 1]))
  }

  /** Every step of a greedy run raises bytes, stays in the budget and lowers cost. */
  lemma {:induction false} TraceGains(c: Catalog, entries: seq<Candidate>, dev: seq<Request>, budget: nat, rounds: nat,
                                      trace: seq<Selection>, i: nat, j: nat)
    requires ValidRequests(dev) && JointTrace(c, entries, dev, budget, rounds, trace) && i < j < |trace|
    ensures Account(c, entries, trace[i]) < Account(c, entries, trace[j]) <= budget
    ensures TotalCost(c, dev, trace[j]) < TotalCost(c, dev, trace[i])
  {
    hide Moves, Account, TotalCost, ValidRequests;
    assert BestMove(c, entries, dev, budget, trace[j - 1], trace[j]);
    if i < j - 1 {
      TraceGains(c, entries, dev, budget, rounds, trace, i, j - 1);
    }
  }

  /** Every step of a greedy run is such a move, and a run that stops early stops
      where no such move that fits and adds bytes lowers the cost. */
  lemma TraceMoves(c: Catalog, entries: seq<Candidate>, dev: seq<Request>, budget: nat, rounds: nat,
                   trace: seq<Selection>)
    requires ValidRequests(dev) && JointTrace(c, entries, dev, budget, rounds, trace)
    ensures trace[0] == Selection({}, {})
    ensures forall i :: 0 < i < |trace| ==> IsMove(trace[i - 1], entries, dev, trace[i])
    ensures |trace| <= rounds ==>
      var last := trace[|trace| - 1];
      forall t: Selection ::
        Account(c, entries, last) < Account(c, entries, t) <= budget && IsMove(last, entries, dev, t)
        ==> TotalCost(c, dev, t) >= TotalCost(c, dev, last)
  {
    hide IsMove, BestMove, NothingGains, Account, TotalCost, ValidRequests;
    forall i | 0 < i < |trace| ensures IsMove(trace[i - 1], entries, dev, trace[i]) {
      BestMoveMeans(c, entries, dev, budget, trace[i - 1], trace[i]);
    }
    StopMeans(c, entries, dev, budget, trace[|trace| - 1]);
  }

  /** joint_select: at most `rounds` greedy steps, then the cheaper of the greedy
      result and the incumbent. */
  method JointSelect(c: Catalog, entries: seq<Candidate>, dev: seq<Request>, budget: nat, incumbent: Selection,
                     rounds: nat)
    returns (result: Selection, ghost trace: seq<Selection>)
    requires ValidRequests(dev)
    ensures JointTrace(c, entries, dev, budget, rounds, trace)
    ensures var greedy := trace[|trace| - 1];
      var fallback := Account(c, entries, incumbent) <= budget
                      && TotalCost(c, dev, incumbent) < TotalCost(c, dev, greedy);
      result == if fallback then incumbent else greedy
    ensures Account(c, entries, result) <= budget
    ensures Account(c, entries, incumbent) <= budget ==> TotalCost(c, dev, result) <= TotalCost(c, dev, incumbent)
    ensures TotalCost(c, dev, result) <= TotalCost(c, dev, EMPTY)
  {
    hide BestMove, NothingGains, Account, TotalCost, ValidRequests;
    var cur := EMPTY;
    EmptyIsFree(c, entries);
    var current := ComputeTotal(c, dev, cur);
    trace := [EMPTY];
    var iteration := 0;
    while iteration < rounds
      invariant |trace| == iteration + 1 <= rounds + 1 && trace[0] == EMPTY && cur == trace[|trace| - 1]
      invariant forall i :: 0 < i < |trace| ==> BestMove(c, entries, dev, budget, trace[i - 1], trace[i])
      invariant Account(c, entries, cur) <= budget && current == TotalCost(c, dev, cur) <= TotalCost(c, dev, EMPTY)
    {
      var next, cost := JointStep(c, entries, dev, budget, cur, current);
      if next.None? {
        break;
      }
      BestMoveGains(c, entries, dev, budget, cur, next.value);
      cur, current := next.value, cost;
      trace := trace + [cur];
      iteration := iteration + 1;
    }
    var incumbentCost := ComputeTotal(c, dev, incumbent);
    if Account(c, entries, incumbent) <= budget && incumbentCost < current {
      return incumbent, trace;
    }
    result := cur;
  }

  lemma BestMoveGains(c: Catalog, entries: seq<Candidate>, dev: seq<Request>, budget: nat, cur: Selection,
                      best: Selection)
    requires ValidRequests(dev) && BestMove(c, entries, dev, budget, cur, best)
    ensures Gains(c, entries, dev, budget, cur, best)
  {
  }

  // --- Staged selection ---

  ghost predicate DistinctKeys(order: seq<Candidate>) {
    forall i, j :: 0 <= i < j < |order| ==> order[i].key != order[j].key
  }

  /** What was admitted of the first n. */
  ghost function AdmittedOf(order: seq<Candidate>, ids: set<Key>, n: nat): Selection
    requires n <= |order|
  {
    Selection(set i | 0 <= i < n && order[i].key in ids :: order[i].key, {})
  }

  /** Exactly the used fragments that fit beside those admitted before them. */
  ghost predicate Admission(c: Catalog, entries: seq<Candidate>, order: seq<Candidate>, budget: nat, sel: Selection) {
    && sel.packed == {} && (forall key :: key in sel.ids ==> exists i :: 0 <= i < |order| && order[i].key == key)
    && forall i :: 0 <= i < |order| ==>
      (order[i].key in sel.ids <==>
        && order[i].uses > 0
        && Account(c, entries, AddIds(AdmittedOf(order, sel.ids, i), order[i].key)) <= budget)
  }

  /** First phase: fragments are admitted in the given order while they fit. */
  method AdmitStage(c: Catalog, entries: seq<Candidate>, order: seq<Candidate>, budget: nat) returns (sel: Selection)
    requires DistinctKeys(order)
    ensures Admission(c, entries, order, budget, sel)
    ensures Account(c, entries, sel) <= budget
    ensures forall i :: 0 <= i < |order| && order[i].uses > 0 && order[i].key !in sel.ids ==>
      Account(c, entries, AddIds(sel, order[i].key)) > budget
  {
    hide Account;
    sel := EMPTY;
    EmptyIsFree(c, entries);
    for i := 0 to |order|
      invariant sel.packed == {} && Account(c, entries, sel) <= budget
      invariant forall key :: key in sel.ids ==> exists j :: 0 <= j < i && order[j].key == key
      invariant forall j :: 0 <= j < i ==>
        (order[j].key in sel.ids <==>
          && order[j].uses > 0
          && Account(c, entries, AddIds(AdmittedOf(order, sel.ids, j), order[j].key)) <= budget)
    {
      assert AdmittedOf(order, sel.ids, i) == sel;
      ghost var before := sel;
      if order[i].uses > 0 {
        var t := AddIds(sel, order[i].key);
        if Account(c, entries, t) <= budget {
          sel := t;
        }
      }
      forall j | 0 <= j <= i ensures AdmittedOf(order, sel.ids, j) == AdmittedOf(order, before.ids, j) {
      }
    }
    forall i | 0 <= i < |order| && order[i].uses > 0 && order[i].key !in sel.ids
      ensures Account(c, entries, AddIds(sel, order[i].key)) > budget
    {
      AccountGrows(c, entries, AddIds(AdmittedOf(order, sel.ids, i), order[i].key), AddIds(sel, order[i].key));
    }
  }

  /** Layouts that the second phase may add to a selection. */
  predicate Packable(sel: Selection, e: Candidate) {
    (!Wide(e.key) || e.key in sel.ids) && e.uses > 0 && e.key !in sel.packed
  }

  function LocalSaving(c: Catalog, sel: Selection, e: Candidate): int {
    e.uses * (FragmentCost(c, e.key, sel) - FragmentCost(c, e.key, AddPacked(sel, e.key)))
  }

  /** A layout that fits, adds bytes and saves locally. */
  predicate PackGains(c: Catalog, entries: seq<Candidate>, budget: nat, sel: Selection, e: Candidate) {
    Packable(sel, e) && LocalSaving(c, sel, e) > 0 &&
    Account(c, entries, sel) < Account(c, entries, AddPacked(sel, e.key)) <= budget
  }

  ghost function PackDensity(c: Catalog, entries: seq<Candidate>, sel: Selection, e: Candidate): real
    requires Account(c, entries, AddPacked(sel, e.key)) > Account(c, entries, sel)
  {
    LocalSaving(c, sel, e) as real / (Account(c, entries, AddPacked(sel, e.key)) - Account(c, entries, sel)) as real
  }

  ghost predicate StrictOrder(less: (Key, Key) -> bool) {
    && (forall x, y :: less(x, y) ==> !less(y, x))
    && (forall x, y, z :: less(x, y) && less(y, z) ==> less(x, z))
    && (forall x, y :: x != y ==> less(x, y) || less(y, x))
  }

  /** The layout one packing step adds: the densest gain, and the least key of the densest. */
  ghost predicate BestPack(c: Catalog, entries: seq<Candidate>, budget: nat, sel: Selection,
                           less: (Key, Key) -> bool, best: Candidate) {
    && best in entries && PackGains(c, entries, budget, sel, best)
    && forall e :: e in entries && PackGains(c, entries, budget, sel, e) ==>
      && PackDensity(c, entries, sel, e) <= PackDensity(c, entries, sel, best)
      && (PackDensity(c, entries, sel, e) == PackDensity(c, entries, sel, best) ==> !less(e.key, best.key))
  }

  ghost predicate NothingPacks(c: Catalog, entries: seq<Candidate>, budget: nat, sel: Selection) {
    forall e :: e in entries ==> !PackGains(c, entries, budget, sel, e)
  }

  /** The best layout to pack, or none when nothing gains. */
  method PackStep(c: Catalog, entries: seq<Candidate>, budget: nat, sel: Selection, less: (Key, Key) -> bool)
    returns (best: Option<Candidate>)
    requires StrictOrder(less)
    ensures best.None? <==> NothingPacks(c, entries, budget, sel)
    ensures best.Some? ==> BestPack(c, entries, budget, sel, less, best.value)
  {
    hide Account, LocalSaving, Packable;
    best := None;
    var bestDensity := 0.0;
    for i := 0 to |entries|
      invariant best.None? ==> bestDensity == 0.0
      invariant best.Some? ==> best.value in entries && PackGains(c, entries, budget, sel, best.value)
      invariant best.Some? ==> bestDensity == PackDensity(c, entries, sel, best.value) > 0.0
      invariant forall j :: 0 <= j < i && PackGains(c, entries, budget, sel, entries[j]) ==>
        && best.Some? && PackDensity(c, entries, sel, entries[j]) <= bestDensity
        && (PackDensity(c, entries, sel, entries[j]) == bestDensity ==> !less(entries[j].key, best.value.key))
    {
      var e := entries[i];
      var t := AddPacked(sel, e.key);
      var bytes, tBytes := Account(c, entries, sel), Account(c, entries, t);
      if Packable(sel, e) && tBytes <= budget && tBytes > bytes {
        var saving := LocalSaving(c, sel, e);
        var density := saving as real / (tBytes - bytes) as real;
        DensitySign(saving, tBytes - bytes);
        if saving > 0 &&
           (density > bestDensity || (density == bestDensity && (best.None? || less(e.key, best.value.key)))) {
          best, bestDensity := Some(e), density;
        }
      }
    }
  }

  /** The layouts a packing step weighs: of a used fragment that is stored, or
      need not be, and is not packed, if it saves, adds bytes and fits. */
  lemma PackGainsMeans(c: Catalog, entries: seq<Candidate>, budget: nat, sel: Selection, e: Candidate)
    ensures var t := Selection(sel.ids, sel.packed + {e.key});
      PackGains(c, entries, budget, sel, e) <==>
        && e.uses > 0 && e.key !in sel.packed
        && (e.key.AKey? || (e.key.RangeKey? && e.key.width <= 1) || e.key in sel.ids)
        && FragmentCost(c, e.key, t) < FragmentCost(c, e.key, sel)
        && Account(c, entries, sel) < Account(c, entries, t) <= budget
  {
    hide Account, FragmentCost;
    var saved := FragmentCost(c, e.key, sel) - FragmentCost(c, e.key, AddPacked(sel, e.key));
    assert AddPacked(sel, e.key) == Selection(sel.ids, sel.packed + {e.key});
    PositiveProduct(e.uses, saved);
  }

  lemma PositiveProduct(uses: nat, saved: int)
    ensures uses * saved > 0 <==> uses > 0 && saved > 0
  {
  }

  /** The best of them in whole numbers: none saves more per added byte, and none
      that saves as much has a lesser key. */
  lemma BestPackMeans(c: Catalog, entries: seq<Candidate>, budget: nat, sel: Selection, less: (Key, Key) -> bool,
                      best: Candidate)
    requires BestPack(c, entries, budget, sel, less, best)
    ensures best in entries && PackGains(c, entries, budget, sel, best)
    ensures forall e :: e in entries && PackGains(c, entries, budget, sel, e) ==>
      var t, b := Selection(sel.ids, sel.packed + {e.key}), Selection(sel.ids, sel.packed + {best.key});
      var saved := e.uses * (FragmentCost(c, e.key, sel) - FragmentCost(c, e.key, t));
      var mine := best.uses * (FragmentCost(c, best.key, sel) - FragmentCost(c, best.key, b));
      var added := Account(c, entries, t) - Account(c, entries, sel);
      var grown := Account(c, entries, b) - Account(c, entries, sel);
      saved * grown < mine * added || (saved * grown == mine * added && !less(e.key, best.key))
  {
    hide Account, FragmentCost;
    forall e | e in entries && PackGains(c, entries, budget, sel, e)
      ensures var t, b := Selection(sel.ids, sel.packed + {e.key}), Selection(sel.ids, sel.packed + {best.key});
        var saved := e.uses * (FragmentCost(c, e.key, sel) - FragmentCost(c, e.key, t));
        var mine := best.uses * (FragmentCost(c, best.key, sel) - FragmentCost(c, best.key, b));
        var added := Account(c, entries, t) - Account(c, entries, sel);
        var grown := Account(c, entries, b) - Account(c, entries, sel);
        saved * grown < mine * added || (saved * grown == mine * added && !less(e.key, best.key))
    {
      CrossProducts(LocalSaving(c, sel, e), Account(c, entries, AddPacked(sel, e.key)) - Account(c, entries, sel),
                    LocalSaving(c, sel, best),
                    Account(c, entries, AddPacked(sel, best.key)) - Account(c, entries, sel));
    }
  }

  ghost function KeysOf(entries: seq<Candidate>): set<Key> {
    set i | 0 <= i < |entries| :: entries[i].key
  }

  ghost predicate Packs(c: Catalog, entries: seq<Candidate>, budget: nat, less: (Key, Key) -> bool,
                        sel: Selection, next: Selection) {
    exists e :: BestPack(c, entries, budget, sel, less, e) && next == AddPacked(sel, e.key)
  }

  /** The selections of the staged run: an admission, then a best layout each time until nothing gains. */
  ghost predicate StagedTrace(c: Catalog, entries: seq<Candidate>, order: seq<Candidate>, budget: nat,
                              less: (Key, Key) -> bool, trace: seq<Selection>) {
    && trace != [] && Admission(c, entries, order, budget, trace[0])
    && (forall i :: 0 < i < |trace| ==> Packs(c, entries, budget, less, trace[i - 1], trace[i]))
    && NothingPacks(c, entries, budget, trace[|trace| - 1])
  }

  /** staged_select: admission first, then packing; admission is never revisited. */
  method StagedSelect(c: Catalog, entries: seq<Candidate>, order: seq<Candidate>, budget: nat,
                      less: (Key, Key) -> bool)
    returns (sel: Selection, ghost trace: seq<Selection>)
    requires DistinctKeys(order) && StrictOrder(less)
    ensures StagedTrace(c, entries, order, budget, less, trace) && sel == trace[|trace| - 1]
    ensures sel.ids == trace[0].ids && Account(c, entries, sel) <= budget
  {
    hide BestPack, NothingPacks, Admission, Account, StrictOrder;
    sel := AdmitStage(c, entries, order, budget);
    trace := [sel];
    while true
      invariant Account(c, entries, sel) <= budget
      invariant trace != [] && Admission(c, entries, order, budget, trace[0])
      invariant sel == trace[|trace| - 1] && sel.ids == trace[0].ids
      invariant forall i :: 0 < i < |trace| ==> Packs(c, entries, budget, less, trace[i - 1], trace[i])
      decreases KeysOf(entries) - sel.packed
    {
      var best := PackStep(c, entries, budget, sel, less);
      if best.None? {
        break;
      }
      BestPackGains(c, entries, budget, sel, less, best.value);
      sel := AddPacked(sel, best.value.key);
      trace := trace + [sel];
    }
  }

  lemma BestPackGains(c: Catalog, entries: seq<Candidate>, budget: nat, sel: Selection, less: (Key, Key) -> bool,
                      best: Candidate)
    requires BestPack(c, entries, budget, sel, less, best)
    ensures best.key in KeysOf(entries) && best.key !in sel.packed
    ensures Account(c, entries, AddPacked(sel, best.key)) <= budget
  {
  }

  // --- Build ---

  /** build(): neither of its two final checks can fail, in either arm. */
  method BuildSelection(c: Catalog, entries: seq<Candidate>, order: seq<Candidate>, dev: seq<Request>, budget: nat,
                        less: (Key, Key) -> bool, joint: bool, rounds: nat)
    returns (selected: Selection, predicted: int, stagedPredicted: int,
             ghost staged: seq<Selection>, ghost greedy: seq<Selection>)
    requires ValidRequests(dev) && DistinctKeys(order) && StrictOrder(less)
    ensures StagedTrace(c, entries, order, budget, less, staged)
    ensures stagedPredicted == TotalCost(c, dev, staged[|staged| - 1])
    ensures joint ==> JointTrace(c, entries, dev, budget, rounds, greedy)
    ensures selected ==
      if joint && stagedPredicted >= TotalCost(c, dev, greedy[|greedy| - 1]) then greedy[|greedy| - 1]
      else staged[|staged| - 1]
    ensures predicted == TotalCost(c, dev, selected) <= stagedPredicted <= TotalCost(c, dev, EMPTY)
    ensures Account(c, entries, selected) <= budget
  {
    hide StagedTrace, JointTrace, TotalCost, Account, StrictOrder;
    var incumbent;
    incumbent, staged := StagedSelect(c, entries, order, budget, less);
    stagedPredicted := ComputeTotal(c, dev, incumbent);
    TotalCostFalls(c, dev, EMPTY, incumbent);
    greedy := [];
    if joint {
      selected, greedy := JointSelect(c, entries, dev, budget, incumbent, rounds);
    } else {
      selected := incumbent;
    }
    predicted := ComputeTotal(c, dev, selected);
  }
}
