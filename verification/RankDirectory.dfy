// A bit set in 64-bit words with a running count before every word: the rank
// of a set bit is its object's ordinal.

module RankDirectory {

  const BITS: nat := 64

  /** A word as its bits, least significant first. */
  type Word = w: seq<bool> | |w| == 64 witness seq(64, _ => false)

  /** Population count. */
  function Ones(bits: seq<bool>): (n: nat)
    ensures n <= |bits|
  {
    if bits == [] then 0 else Ones(bits[..|bits| - 1]) + (if bits[|bits| - 1] then 1 else 0)
  }

  lemma {:induction false} OnesAdd(a: seq<bool>, b: seq<bool>)
    ensures Ones(a + b) == Ones(a) + Ones(b)
    decreases b
  {
    if b == [] {
      assert a + b == a;
    } else {
      OnesAdd(a, b[..|b| - 1]);
      assert (a + b)[..|a + b| - 1] == a + b[..|b| - 1];
    }
  }

  /** All bits in order. */
  function Flat(words: seq<Word>): (bits: seq<bool>)
    ensures |bits| == BITS * |words|
  {
    if words == [] then [] else Flat(words[..|words| - 1]) + words[|words| - 1]
  }

  lemma {:induction false} FlatPrefix(words: seq<Word>, w: nat)
    requires w <= |words|
    ensures Flat(words)[..BITS * w] == Flat(words[..w])
    decreases words
  {
    if w == |words| {
      assert words[..w] == words;
    } else {
      var most := words[..|words| - 1];
      FlatPrefix(most, w);
      assert most[..w] == words[..w];
      assert Flat(words)[..BITS * w] == Flat(most)[..BITS * w];
    }
  }

  /** Bit p is bit p % 64 of word p / 64, and the bits before it are the words before and the low bits. */
  lemma BitAt(words: seq<Word>, p: nat)
    requires p < BITS * |words|
    ensures p / BITS < |words|
    ensures Flat(words)[p] == words[p / BITS][p % BITS]
    ensures Flat(words)[..p] == Flat(words[..p / BITS]) + words[p / BITS][..p % BITS]
  {
    hide Flat;
    var w, b: nat := p / BITS, p % BITS;
    assert p == BITS * w + b && b < BITS && w < |words|;
    BitOfWord(words, w, b);
  }

  lemma BitOfWord(words: seq<Word>, w: nat, b: nat)
    requires w < |words| && b < BITS
    ensures Flat(words)[BITS * w + b] == words[w][b]
    ensures Flat(words)[..BITS * w + b] == Flat(words[..w]) + words[w][..b]
  {
    hide Flat;
    FlatThrough(words, w);
    TwoParts(Flat(words), Flat(words[..w]), words[w], b);
  }

  lemma FlatThrough(words: seq<Word>, w: nat)
    requires w < |words|
    ensures Flat(words)[..BITS * (w + 1)] == Flat(words[..w]) + words[w]
  {
    FlatPrefix(words, w + 1);
    var low := words[..w + 1];
    assert low[..|low| - 1] == words[..w];
  }

  lemma TwoParts(all: seq<bool>, low: seq<bool>, word: seq<bool>, b: nat)
    requires |low| + |word| <= |all| && b < |word| && all[..|low| + |word|] == low + word
    ensures all[|low| + b] == word[b] && all[..|low| + b] == low + word[..b]
  {
    assert all[|low| + b] == all[..|low| + |word|][|low| + b];
    assert all[..|low| + b] == all[..|low| + |word|][..|low| + b];
  }

  // --- Rank on a bit sequence ---

  function Rank(bits: seq<bool>, p: nat): nat
    requires p <= |bits|
  {
    Ones(bits[..p])
  }

  lemma RankStep(bits: seq<bool>, p: nat)
    requires p < |bits|
    ensures Rank(bits, p + 1) == Rank(bits, p) + (if bits[p] then 1 else 0)
  {
    assert bits[..p + 1][..p] == bits[..p];
  }

  lemma {:induction false} RankRises(bits: seq<bool>, p: nat, q: nat)
    requires p <= q <= |bits|
    ensures Rank(bits, p) <= Rank(bits, q)
    decreases q
  {
    if p < q {
      RankStep(bits, q - 1);
      RankRises(bits, p, q - 1);
    }
  }

  /** Set bits are ranked in order, below the number of set bits. */
  lemma RankKeepsOrder(bits: seq<bool>, p: nat, q: nat)
    requires p < q <= |bits| && bits[p]
    ensures Rank(bits, p) < Rank(bits, q)
  {
    RankStep(bits, p);
    RankRises(bits, p + 1, q);
  }

  lemma RankBelowCount(bits: seq<bool>, p: nat)
    requires p < |bits| && bits[p]
    ensures Rank(bits, p) < Ones(bits)
  {
    RankKeepsOrder(bits, p, |bits|);
    assert bits[..|bits|] == bits;
  }

  /** Every ordinal is some set bit's rank. */
  lemma {:induction false} SelectExists(bits: seq<bool>, o: nat) returns (p: nat)
    requires o < Ones(bits)
    ensures p < |bits| && bits[p] && Rank(bits, p) == o
    decreases |bits|
  {
    var last := |bits| - 1;
    var most := bits[..last];
    if o < Ones(most) {
      p := SelectExists(most, o);
      assert bits[..p] == most[..p];
    } else {
      p := last;
    }
  }

  /** Rank is a bijection from the set bits onto the ordinals: no two set bits share one. */
  lemma RankIsInjective(bits: seq<bool>, p: nat, q: nat)
    requires p < |bits| && q < |bits| && bits[p] && bits[q] && Rank(bits, p) == Rank(bits, q)
    ensures p == q
  {
    if p < q {
      RankKeepsOrder(bits, p, q);
    } else if q < p {
      RankKeepsOrder(bits, q, p);
    }
  }

  /** The set bits before a position. */
  ghost function BitsBefore(bits: seq<bool>, p: nat): set<nat>
    requires p <= |bits|
  {
    set q: nat | q < p && bits[q]
  }

  /** Rank counts them. */
  lemma {:induction false} RankCounts(bits: seq<bool>, p: nat)
    requires p <= |bits|
    ensures Rank(bits, p) == |BitsBefore(bits, p)|
  {
    if p == 0 {
      assert BitsBefore(bits, 0) == {};
    } else {
      RankStep(bits, p - 1);
      RankCounts(bits, p - 1);
      assert BitsBefore(bits, p) == BitsBefore(bits, p - 1) + if bits[p - 1] then {p - 1} else {};
    }
  }

  /** A directory's entry before word i is the number of set bits of the words before it. */
  lemma PrefixCounts(words: seq<Word>, prefix: seq<nat>)
    ensures IsPrefix(words, prefix) <==>
      |prefix| == |words| + 1 && forall i :: 0 <= i <= |words| ==> prefix[i] == |BitsBefore(Flat(words), 64 * i)|
  {
    forall i | 0 <= i <= |words| ensures Ones(Flat(words[..i])) == |BitsBefore(Flat(words), 64 * i)| {
      FlatPrefix(words, i);
      RankCounts(Flat(words), 64 * i);
    }
  }

  // --- The directory ---

  /** Running counts, one more than words. */
  ghost predicate IsPrefix(words: seq<Word>, prefix: seq<nat>) {
    |prefix| == |words| + 1 && forall i :: 0 <= i <= |words| ==> prefix[i] == Ones(Flat(words[..i]))
  }

  lemma NextPrefix(words: seq<Word>, i: nat)
    requires i < |words|
    ensures Ones(Flat(words[..i + 1])) == Ones(Flat(words[..i])) + Ones(words[i])
  {
    var low := words[..i + 1];
    assert low[..|low| - 1] == words[..i];
    OnesAdd(Flat(words[..i]), words[i]);
  }

  /** The ordinal read from a directory is the rank of the bit. */
  lemma OrdinalIsRank(words: seq<Word>, prefix: seq<nat>, p: nat)
    requires IsPrefix(words, prefix) && p < BITS * |words|
    ensures p / BITS < |words|
    ensures prefix[p / BITS] + Ones(words[p / BITS][..p % BITS]) == Rank(Flat(words), p)
  {
    BitAt(words, p);
    OnesAdd(Flat(words[..p / BITS]), words[p / BITS][..p % BITS]);
  }

  method WritePrefix(words: array<Word>, prefix: array<nat>) returns (count: nat)
    requires prefix.Length == words.Length + 1
    modifies prefix
    ensures IsPrefix(words[..], prefix[..]) && count == Ones(Flat(words[..]))
  {
    count := 0;
    for i := 0 to words.Length
      invariant words[..] == old(words[..])
      invariant count == Ones(Flat(words[..i]))
      invariant forall k :: 0 <= k < i ==> prefix[k] == Ones(Flat(words[..k]))
    {
      prefix[i] := count;
      NextPrefix(words[..], i);
      assert words[..][..i] == words[..i] && words[..][..i + 1] == words[..i + 1];
      count := count + Ones(words[i]);
    }
    prefix[words.Length] := count;
    assert forall k :: 0 <= k <= words.Length ==> words[..][..k] == words[..k];
    assert words[..words.Length] == words[..];
  }

  /** The recurrence check of an audit. */
  method CheckPrefix(words: array<Word>, prefix: array<nat>) returns (ok: bool, count: nat)
    requires prefix.Length == words.Length + 1
    ensures ok <==> IsPrefix(words[..], prefix[..])
    ensures ok ==> count == Ones(Flat(words[..]))
  {
    count := 0;
    for i := 0 to words.Length
      invariant count == Ones(Flat(words[..i]))
      invariant forall k :: 0 <= k < i ==> prefix[k] == Ones(Flat(words[..k]))
    {
      assert words[..][..i] == words[..i] && words[..][..i + 1] == words[..i + 1];
      NextPrefix(words[..], i);
      if prefix[i] != count {
        return false, count;
      }
      count := count + Ones(words[i]);
    }
    assert forall k :: 0 <= k <= words.Length ==> words[..][..k] == words[..k];
    assert words[..words.Length] == words[..];
    ok := prefix[words.Length] == count;
  }

  // --- Selecting positions ---

  ghost predicate Rising(positions: seq<nat>) {
    forall i, j :: 0 <= i < j < |positions| ==> positions[i] < positions[j]
  }

  /** Sets one bit per selected position. */
  method SetBits(positions: seq<nat>, words: array<Word>)
    requires forall i :: 0 <= i < |positions| ==> positions[i] < BITS * words.Length
    requires forall i :: 0 <= i < words.Length ==> words[i] == seq(64, _ => false)
    modifies words
    ensures forall p: nat :: p < BITS * words.Length ==> (Flat(words[..])[p] <==> p in positions)
  {
    for i := 0 to |positions|
      invariant forall p: nat :: p < BITS * words.Length ==> (words[p / BITS][p % BITS] <==> p in positions[..i])
    {
      var p := positions[i];
      assert positions[..i + 1] == positions[..i] + [p];
      words[p / BITS] := words[p / BITS][p % BITS := true];
    }
    assert positions[..|positions|] == positions;
    forall p: nat | p < BITS * words.Length ensures Flat(words[..])[p] <==> p in positions {
      BitAt(words[..], p);
    }
  }

  /** The k-th selected position has rank k. */
  lemma {:induction false} RankOfSelected(bits: seq<bool>, positions: seq<nat>, k: nat, p: nat)
    requires Rising(positions) && k <= |positions| && p <= |bits|
    requires forall q: nat :: q < |bits| ==> (bits[q] <==> q in positions)
    requires k > 0 ==> positions[k - 1] < p
    requires k < |positions| ==> p <= positions[k]
    ensures Rank(bits, p) == k
    decreases p
  {
    if p > 0 {
      RankStep(bits, p - 1);
      if p - 1 in positions {
        var j :| 0 <= j < |positions| && positions[j] == p - 1;
        assert j == k - 1;
        RankOfSelected(bits, positions, k - 1, p - 1);
      } else {
        RankOfSelected(bits, positions, k, p - 1);
      }
    }
  }
}
