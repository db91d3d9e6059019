// Selected supports packed into one arena behind a rank directory: building,
// looking up, auditing and releasing it.

module SupportArena {
  import opened Options
  import opened CompactKeys
  import opened RankDirectory

  datatype Row = Row(key: Key, position: int, cardinality: nat)

  datatype Lookup = Found(ids: seq<int>) | NoKey | Drift | AfterRelease

  /** Limits of one arena: how many objects, how many ids, and the ids' range. */
  datatype Limits = Limits(objects: nat, ids: nat, idEnd: nat)

  predicate Ascending(s: seq<int>) {
    forall i, j :: 0 <= i < j < |s| ==> s[i] < s[j]
  }

  function WordCount(s: Shape): nat {
    (Positions(s) + 63) / 64
  }

  // --- The contract of a build ---

  function CardSum(rows: seq<Row>, n: nat): nat
    requires n <= |rows|
  {
    if n == 0 then 0 else CardSum(rows, n - 1) + rows[n - 1].cardinality
  }

  lemma {:induction false} CardSumRises(rows: seq<Row>, m: nat, n: nat)
    requires m <= n <= |rows|
    ensures CardSum(rows, m) <= CardSum(rows, n)
  {
    if m < n {
      CardSumRises(rows, m, n - 1);
    }
  }

  /** The row's key has its position, and its source is complete, ascending and in range. */
  predicate GoodRow(s: Shape, limits: Limits, source: map<Key, seq<int>>, row: Row) {
    && KeyToPosition(s, row.key).Some? && KeyToPosition(s, row.key).value == row.position
    && row.key in source && |source[row.key]| == row.cardinality && Ascending(source[row.key])
    && (source[row.key] != [] ==> source[row.key][0] >= 0 && source[row.key][row.cardinality - 1] < limits.idEnd)
  }

  ghost predicate Buildable(s: Shape, limits: Limits, rows: seq<Row>, source: map<Key, seq<int>>) {
    && |rows| <= limits.objects && CardSum(rows, |rows|) <= limits.ids
    && (forall i, j :: 0 <= i < j < |rows| ==> rows[i].position < rows[j].position)
    && forall i :: 0 <= i < |rows| ==> GoodRow(s, limits, source, rows[i])
  }

  /** What an audit without payload checks. */
  ghost predicate DirectoryOk(s: Shape, words: seq<Word>, prefix: seq<nat>, offsets: seq<nat>, idCount: nat,
                              selected: nat)
  {
    && |words| == WordCount(s) && |offsets| == selected + 1
    && offsets[selected] == idCount
    && TailClear(s, words)
    && IsPrefix(words, prefix) && Ones(Flat(words)) == selected
    && (forall o :: 0 <= o < selected ==> offsets[o] <= offsets[o + 1])
  }

  /** No bit of the last word lies behind the positions. */
  predicate TailClear(s: Shape, words: seq<Word>)
    requires |words| == WordCount(s)
  {
    |words| > 0 && NoBitsFrom(words[|words| - 1], Positions(s) % 64)
  }

  predicate NoBitsFrom(w: seq<bool>, low: nat) {
    forall b :: low <= b < |w| ==> !w[b]
  }

  /** What a directory audit checks, bit by bit. */
  lemma DirectoryMeans(s: Shape, words: seq<Word>, prefix: seq<nat>, offsets: seq<nat>, idCount: nat, selected: nat)
    ensures DirectoryOk(s, words, prefix, offsets, idCount, selected) <==>
      && |words| == (Positions(s) + 63) / 64 && |prefix| == |words| + 1 && |offsets| == selected + 1
      && offsets[selected] == idCount && (forall o :: 0 <= o < selected ==> offsets[o] <= offsets[o + 1])
      && |words| > 0 && true !in words[|words| - 1][Positions(s) % 64..]
      && (forall i :: 0 <= i <= |words| ==> prefix[i] == |BitsBefore(Flat(words), 64 * i)|)
      && |BitsBefore(Flat(words), |Flat(words)|)| == selected
  {
    hide Flat, Ones, IsPrefix, BitsBefore, Positions;
    if words != [] {
      var tail := words[|words| - 1][Positions(s) % 64..];
      assert NoBitsFrom(words[|words| - 1], Positions(s) % 64) <==> true !in tail by {
        assert forall b :: 0 <= b < |tail| ==> tail[b] == words[|words| - 1][Positions(s) % 64 + b];
      }
    }
    PrefixCounts(words, prefix);
    RankCounts(Flat(words), |Flat(words)|);
    assert Flat(words)[..|Flat(words)|] == Flat(words);
  }

  /** Under a passed directory audit rank keeps the order of the selected positions, so no two share an ordinal. */
  lemma AuditedRankKeepsOrder(s: Shape, words: seq<Word>, prefix: seq<nat>, offsets: seq<nat>, idCount: nat,
                              selected: nat, p: nat, q: nat)
    requires DirectoryOk(s, words, prefix, offsets, idCount, selected)
    requires p < q < |Flat(words)| && Flat(words)[p] && Flat(words)[q]
    ensures Rank(Flat(words), p) < Rank(Flat(words), q) < selected
  {
    RankKeepsOrder(Flat(words), p, q);
    RankBelowCount(Flat(words), q);
  }

  /** Under a passed directory audit every ordinal is the rank of a selected position in the domain. */
  lemma AuditedOrdinalIsSelected(s: Shape, words: seq<Word>, prefix: seq<nat>, offsets: seq<nat>, idCount: nat,
                                 selected: nat, o: nat) returns (p: nat)
    requires DirectoryOk(s, words, prefix, offsets, idCount, selected) && o < selected
    ensures p < Positions(s) && p < |Flat(words)| && Flat(words)[p] && Rank(Flat(words), p) == o
  {
    p := SelectExists(Flat(words), o);
    SelectedIsPosition(s, words, p);
  }

  lemma SelectedIsPosition(s: Shape, words: seq<Word>, p: nat)
    requires |words| == WordCount(s) && TailClear(s, words) && p < |Flat(words)| && Flat(words)[p]
    ensures p < Positions(s)
  {
    BitAt(words, p);
  }

  /** Payload ranges of different ordinals do not overlap, and all lie in the arena. */
  lemma {:induction false} PayloadsAreDisjoint(offsets: seq<nat>, idCount: nat, selected: nat, o: nat, q: nat)
    requires |offsets| == selected + 1 && offsets[selected] == idCount
    requires forall k :: 0 <= k < selected ==> offsets[k] <= offsets[k + 1]
    requires o < q <= selected
    ensures offsets[o] <= offsets[o + 1] <= offsets[q] <= idCount
    decreases selected - o, q - o
  {
    if o + 1 < q {
      PayloadsAreDisjoint(offsets, idCount, selected, o + 1, q);
    } else if q < selected {
      PayloadsAreDisjoint(offsets, idCount, selected, q, selected);
    }
  }

  lemma OffsetsStayBelow(offsets: seq<nat>, idCount: nat, selected: nat, o: nat)
    requires |offsets| == selected + 1 && offsets[selected] == idCount
    requires forall k :: 0 <= k < selected ==> offsets[k] <= offsets[k + 1]
    requires o <= selected
    ensures offsets[o] <= idCount
    decreases selected - o
  {
    if o < selected {
      OffsetsStayBelow(offsets, idCount, selected, o + 1);
    }
  }

  method CheckAscending(s: seq<int>) returns (ok: bool)
    ensures ok <==> Ascending(s)
  {
    var i := 1;
    while i < |s|
      invariant 1 <= i && (i <= |s| ==> Ascending(s[..i]))
      invariant |s| > 0 ==> i <= |s|
    {
      if s[i] <= s[i - 1] {
        return false;
      }
      i := i + 1;
    }
    if |s| > 0 {
      assert s[..|s|] == s;
    }
    return true;
  }

  // --- The arena ---

  class CompactArena {
    const shape: Shape
    const words: array<Word>
    const prefix: array<nat>
    const offsets: array<nat>
    const ids: array<int>
    var idCount: nat
    var selected: nat
    var released: bool

    constructor (shape: Shape, objects: nat, capacity: nat)
      ensures this.shape == shape && !released && idCount == 0 && selected == objects
      ensures words.Length == WordCount(shape) && prefix.Length == words.Length + 1
      ensures offsets.Length == objects + 1 && ids.Length == capacity
      ensures fresh(words) && fresh(prefix) && fresh(offsets) && fresh(ids) && prefix != offsets && offsets[0] == 0
      ensures forall i :: 0 <= i < words.Length ==> words[i] == seq(64, _ => false)
    {
      this.shape := shape;
      words := new Word[WordCount(shape)](_ => seq(64, _ => false));
      prefix := new nat[WordCount(shape) + 1](_ => 0);
      offsets := new nat[objects + 1](_ => 0);
      ids := new int[capacity](_ => 0);
      idCount, selected, released := 0, objects, false;
    }

    /** The header contract: section sizes fit together. */
    ghost predicate Valid()
      reads this
    {
      && words.Length == WordCount(shape) && prefix.Length == words.Length + 1
      && offsets.Length == selected + 1 && idCount <= ids.Length
    }

    /** Enough of the directory to read an ordinal. */
    ghost predicate Readable()
      reads this, words, prefix
    {
      Valid() && IsPrefix(words[..], prefix[..]) && Ones(Flat(words[..])) == selected
    }

    ghost predicate Selected(p: nat)
      reads this, words
      requires Valid() && p < Positions(shape)
    {
      Flat(words[..])[p]
    }

    ghost predicate SelectedKey(key: Key)
      reads this, words
      requires Valid() && Canonical(shape, key)
    {
      PositionInRange(shape, key);
      Selected(KeyToPosition(shape, key).value)
    }

    /** The ordinal an owner stores for a key: the count before its word, and the bits before it in the word. */
    ghost function StoredOrdinal(key: Key): nat
      reads this, words, prefix
      requires Valid() && Canonical(shape, key)
    {
      PositionInRange(shape, key);
      var p := KeyToPosition(shape, key).value;
      prefix[p / BITS] + Ones(words[p / BITS][..p % BITS])
    }

    /** The payload of an ordinal: an empty or misplaced range is drift. */
    ghost function Payload(o: nat): Lookup
      reads this, offsets, ids
      requires Valid() && o < selected
    {
      if offsets[o] < offsets[o + 1] <= idCount then Found(ids[offsets[o]..offsets[o + 1]]) else Drift
    }

    /** What looking up a key must give. */
    ghost function Looked(key: Key): Lookup
      reads this, words, prefix, offsets, ids
      requires Readable()
    {
      if !Canonical(shape, key) then NoKey
      else if released then AfterRelease
      else
        PositionInRange(shape, key);
        var p := KeyToPosition(shape, key).value;
        if !Selected(p) then NoKey
        else
          RankBelowCount(Flat(words[..]), p);
          Payload(Rank(Flat(words[..]), p))
    }

    /** On any owner whose ordinal lies in the inventory, its payload; on a readable one that ordinal is the rank. */
    method Resolve(key: Key) returns (result: Lookup)
      requires Valid()
      ensures !Canonical(shape, key) ==> result == NoKey
      ensures Canonical(shape, key) && released ==> result == AfterRelease
      ensures Canonical(shape, key) && !released && !SelectedKey(key) ==> result == NoKey
      ensures Canonical(shape, key) && !released && SelectedKey(key) && StoredOrdinal(key) < selected ==>
        result == Payload(StoredOrdinal(key))
      ensures Readable() ==> result == Looked(key)
    {
      var position := KeyToPosition(shape, key);
      if position.None? {
        return NoKey;
      }
      PositionInRange(shape, key);
      if released {
        return AfterRelease;
      }
      var p := position.value;
      BitAt(words[..], p);
      if !words[p / BITS][p % BITS] {
        return NoKey;
      }
      var ordinal := prefix[p / BITS] + Ones(words[p / BITS][..p % BITS]);
      if Readable() {
        OrdinalIsRank(words[..], prefix[..], p);
        RankBelowCount(Flat(words[..]), p);
      }
      if ordinal >= selected {
        // Behind the offsets other sections begin: nothing is promised of what is read there.
        return Drift;
      }
      var start, end := offsets[ordinal], offsets[ordinal + 1];
      if !(start < end <= idCount) {
        return Drift;
      }
      return Found(ids[start..end]);
    }

    /** A foreign key is simply not contained; behind a release any other key is an error. */
    method Contains(key: Key) returns (found: Option<bool>)
      requires Valid()
      ensures !Canonical(shape, key) ==> found == Some(false)
      ensures Canonical(shape, key) ==> found == if released then None else Some(SelectedKey(key))
    {
      var position := KeyToPosition(shape, key);
      if position.None? {
        return Some(false);
      }
      PositionInRange(shape, key);
      if released {
        return None;
      }
      BitAt(words[..], position.value);
      return Some(words[position.value / BITS][position.value % BITS]);
    }

    /** Every selected position has a nonempty, ascending payload. */
    ghost predicate PayloadsOk()
      reads this, words, prefix, offsets, ids
      requires Readable()
    {
      forall p: nat :: p < Positions(shape) && Selected(p) ==> PayloadOk(p)
    }

    ghost predicate PayloadOk(p: nat)
      reads this, words, prefix, offsets, ids
      requires Readable() && p < Positions(shape) && Selected(p)
    {
      RankBelowCount(Flat(words[..]), p);
      var payload := Payload(Rank(Flat(words[..]), p));
      payload.Found? && Ascending(payload.ids)
    }

    ghost predicate Audited()
      reads this, words, prefix, offsets
    {
      Valid() && DirectoryOk(shape, words[..], prefix[..], offsets[..], idCount, selected)
    }

    /** The header contract, checked: every section has the size the shape and the counts give it. */
    method CheckHeader() returns (ok: bool)
      ensures ok <==> Valid()
    {
      ok := words.Length == WordCount(shape) && prefix.Length == words.Length + 1
        && offsets.Length == selected + 1 && idCount <= ids.Length;
    }

    method CheckTail() returns (ok: bool)
      requires Valid()
      ensures ok <==> TailClear(shape, words[..])
    {
      if words.Length == 0 {
        return false;
      }
      var last := words[words.Length - 1];
      assert words[..][|words[..]| - 1] == last;
      for b := Positions(shape) % 64 to 64
        invariant NoBitsFrom(last[..b], Positions(shape) % 64)
      {
        if last[b] {
          return false;
        }
      }
      assert last[..64] == last;
      return true;
    }

    method CheckOffsets() returns (ok: bool)
      requires Valid() && offsets[selected] == idCount
      ensures ok <==> forall o :: 0 <= o < selected ==> offsets[o] <= offsets[o + 1]
    {
      var previous := 0;
      for o := 0 to selected + 1
        invariant o == 0 ==> previous == 0
        invariant o > 0 ==> previous == offsets[o - 1]
        invariant forall k :: 0 <= k < o - 1 ==> offsets[k] <= offsets[k + 1]
      {
        var current := offsets[o];
        if current < previous {
          return false;
        }
        if current > idCount {
          if forall k :: 0 <= k < selected ==> offsets[k] <= offsets[k + 1] {
            OffsetsStayBelow(offsets[..], idCount, selected, o);
          }
          return false;
        }
        previous := current;
      }
      return true;
    }

    method CheckPayloads() returns (ok: bool)
      requires Readable() && !released
      ensures ok <==> PayloadsOk()
    {
      for p := 0 to Positions(shape)
        invariant forall q: nat :: q < p && Selected(q) ==> PayloadOk(q)
      {
        var position: nat := p;
        BitAt(words[..], position);
        if words[p / BITS][p % BITS] {
          var key := PositionToKey(shape, position);
          var view := Resolve(key.value);
          if view.Drift? {
            assert !PayloadOk(position);
            return false;
          }
          var rising := CheckAscending(view.ids);
          if !rising {
            assert !PayloadOk(position);
            return false;
          }
          assert PayloadOk(position);
        }
      }
      return true;
    }

    /** The audit: it passes exactly when the sections fit and the directory, and if asked for the payloads, are in
        order. */
    method Audit(full: bool) returns (ok: bool)
      ensures ok <==> !released && Audited() && (full ==> PayloadsOk())
    {
      if released {
        return false;
      }
      var header := CheckHeader();
      if !header || offsets[selected] != idCount {
        return false;
      }
      var tail := CheckTail();
      if !tail {
        return false;
      }
      var recurrence, count := CheckPrefix(words, prefix);
      if !recurrence || count != selected {
        return false;
      }
      var monotone := CheckOffsets();
      if !monotone {
        return false;
      }
      if !full {
        return true;
      }
      ok := CheckPayloads();
    }

    /** Gives the counts of the arena once; a second release is an error. */
    method Release() returns (counts: Option<(nat, nat)>)
      modifies this`released
      ensures released && counts == if old(released) then None else Some((selected, idCount))
    {
      counts := if released then None else Some((selected, idCount));
      released := true;
    }
  }

  // --- Building ---

  ghost predicate Nonnegative(rows: seq<Row>) {
    forall i :: 0 <= i < |rows| ==> rows[i].position >= 0
  }

  function PositionsOf(rows: seq<Row>): (positions: seq<nat>)
    requires Nonnegative(rows)
    ensures |positions| == |rows|
  {
    seq(|rows|, i requires 0 <= i < |rows| => rows[i].position as nat)
  }

  ghost predicate RisingRows(rows: seq<Row>) {
    forall i, j :: 0 <= i < j < |rows| ==> rows[i].position < rows[j].position
  }

  method CheckRows(rows: seq<Row>, positions: nat) returns (ok: bool)
    ensures ok <==> RisingRows(rows) && forall i :: 0 <= i < |rows| ==> 0 <= rows[i].position < positions
  {
    for i := 0 to |rows|
      invariant RisingRows(rows[..i])
      invariant forall k :: 0 <= k < i ==> 0 <= rows[k].position < positions
    {
      if rows[i].position < 0 || rows[i].position >= positions {
        return false;
      }
      if i > 0 && rows[i].position <= rows[i - 1].position {
        return false;
      }
      assert rows[..i + 1] == rows[..i] + [rows[i]];
    }
    assert rows[..|rows|] == rows;
    return true;
  }

  method TotalCardinality(rows: seq<Row>) returns (total: nat)
    ensures total == CardSum(rows, |rows|)
  {
    total := 0;
    for i := 0 to |rows|
      invariant total == CardSum(rows, i)
    {
      total := total + rows[i].cardinality;
    }
  }

  method CheckRow(s: Shape, limits: Limits, source: map<Key, seq<int>>, row: Row) returns (ok: bool)
    ensures ok <==> GoodRow(s, limits, source, row)
  {
    var position := KeyToPosition(s, row.key);
    if position.None? || position.value != row.position || row.key !in source {
      return false;
    }
    var ids := source[row.key];
    if |ids| != row.cardinality {
      return false;
    }
    var rising := CheckAscending(ids);
    ok := rising && (ids == [] || (ids[0] >= 0 && ids[|ids| - 1] < limits.idEnd));
  }

  /** Row k's ids stand between its two offsets. */
  ghost predicate Packed(rows: seq<Row>, source: map<Key, seq<int>>, offsets: seq<nat>, ids: seq<int>, k: nat)
    requires k < |rows| && k + 1 < |offsets|
  {
    && rows[k].key in source
    && offsets[k] == CardSum(rows, k) && offsets[k + 1] == CardSum(rows, k + 1) <= |ids|
    && ids[CardSum(rows, k)..CardSum(rows, k + 1)] == source[rows[k].key]
  }

  lemma StaysPacked(rows: seq<Row>, source: map<Key, seq<int>>, offsets: seq<nat>, ids: seq<int>,
                    offsets': seq<nat>, ids': seq<int>, k: nat, cursor: nat)
    requires k < |rows| && k + 1 < |offsets| == |offsets'| && |ids| == |ids'|
    requires Packed(rows, source, offsets, ids, k)
    requires offsets'[k] == offsets[k] && offsets'[k + 1] == offsets[k + 1]
    requires CardSum(rows, k + 1) <= cursor <= |ids| && ids'[..cursor] == ids[..cursor]
    ensures Packed(rows, source, offsets', ids', k)
  {
    CardSumRises(rows, k, k + 1);
    var a, b := CardSum(rows, k), CardSum(rows, k + 1);
    assert ids[a..b] == ids[..cursor][a..b] && ids'[a..b] == ids'[..cursor][a..b];
  }

  lemma NowPacked(rows: seq<Row>, source: map<Key, seq<int>>, offsets: seq<nat>, ids: seq<int>, k: nat)
    requires k < |rows| && k + 1 < |offsets| && rows[k].key in source
    requires offsets[k] == CardSum(rows, k) && offsets[k + 1] == CardSum(rows, k + 1) <= |ids|
    requires ids[CardSum(rows, k)..CardSum(rows, k + 1)] == source[rows[k].key]
    ensures Packed(rows, source, offsets, ids, k)
  {
  }

  lemma GoodRowSource(s: Shape, limits: Limits, source: map<Key, seq<int>>, row: Row)
    requires GoodRow(s, limits, source, row)
    ensures row.key in source && |source[row.key]| == row.cardinality
  {
  }

  /** Copies every row's source behind the one before, and notes where it ends. */
  method Pack(s: Shape, limits: Limits, rows: seq<Row>, source: map<Key, seq<int>>, offsets: array<nat>,
              ids: array<int>)
    returns (ok: bool)
    requires offsets.Length == |rows| + 1 && CardSum(rows, |rows|) <= ids.Length && offsets[0] == 0
    modifies offsets, ids
    ensures ok <==> forall i :: 0 <= i < |rows| ==> GoodRow(s, limits, source, rows[i])
    ensures ok ==> forall k: nat :: k < |rows| ==> Packed(rows, source, offsets[..], ids[..], k)
    ensures ok ==> offsets[|rows|] == CardSum(rows, |rows|)
  {
    hide GoodRow, Packed;
    var cursor := 0;
    for k := 0 to |rows|
      invariant cursor == CardSum(rows, k) == offsets[k]
      invariant forall i :: 0 <= i < k ==> GoodRow(s, limits, source, rows[i])
      invariant forall i: nat :: i < k ==> Packed(rows, source, offsets[..], ids[..], i)
    {
      var good := CheckRow(s, limits, source, rows[k]);
      if !good {
        return false;
      }
      GoodRowSource(s, limits, source, rows[k]);
      var copied, next := source[rows[k].key], cursor + rows[k].cardinality;
      CardSumRises(rows, k + 1, |rows|);
      ghost var offsetsBefore, idsBefore := offsets[..], ids[..];
      forall i | 0 <= i < |copied| {
        ids[cursor + i] := copied[i];
      }
      offsets[k + 1] := next;
      assert ids[cursor..next] == copied;
      assert ids[..][..cursor] == idsBefore[..cursor];
      forall i: nat | i < k + 1 ensures Packed(rows, source, offsets[..], ids[..], i) {
        if i < k {
          CardSumRises(rows, i + 1, k);
          StaysPacked(rows, source, offsetsBefore, idsBefore, offsets[..], ids[..], i, cursor);
        } else {
          NowPacked(rows, source, offsets[..], ids[..], k);
        }
      }
      cursor := next;
    }
    return true;
  }

  /** The arena holds exactly the rows: their positions are selected, and each payload is its source. */
  ghost predicate Holds(arena: CompactArena, rows: seq<Row>, source: map<Key, seq<int>>)
    reads arena, arena.words, arena.prefix, arena.offsets, arena.ids
  {
    && Nonnegative(rows) && RisingRows(rows)
    && arena.Readable() && arena.selected == |rows| && arena.idCount == CardSum(rows, |rows|)
    && arena.offsets[|rows|] == arena.idCount
    && (forall p: nat :: p < |Flat(arena.words[..])| ==> (Flat(arena.words[..])[p] <==> p in PositionsOf(rows)))
    && (forall k: nat :: k < |rows| ==> Packed(rows, source, arena.offsets[..], arena.ids[..], k))
    && (forall k :: 0 <= k < |rows| ==> KeyToPosition(arena.shape, rows[k].key) == Some(rows[k].position as nat))
  }

  lemma PositionsRise(rows: seq<Row>)
    requires Nonnegative(rows) && RisingRows(rows)
    ensures Rising(PositionsOf(rows))
  {
  }

  /** As many bits are set as there are rows. */
  lemma SelectedCount(words: seq<Word>, rows: seq<Row>)
    requires Nonnegative(rows) && RisingRows(rows)
    requires forall k :: 0 <= k < |rows| ==> rows[k].position < BITS * |words|
    requires forall p: nat :: p < BITS * |words| ==> (Flat(words)[p] <==> p in PositionsOf(rows))
    ensures Ones(Flat(words)) == |rows|
  {
    PositionsRise(rows);
    var positions, bits := PositionsOf(rows), Flat(words);
    RankOfSelected(bits, positions, |positions|, |bits|);
    assert bits[..|bits|] == bits;
  }

  lemma WordsCoverPositions(s: Shape)
    ensures Positions(s) <= BITS * WordCount(s)
  {
  }

  method Build(s: Shape, limits: Limits, rows: seq<Row>, source: map<Key, seq<int>>)
    returns (result: Option<CompactArena>)
    ensures result.Some? <==> Buildable(s, limits, rows, source)
    ensures result.Some? <==>
      && |rows| <= limits.objects && CardSum(rows, |rows|) <= limits.ids
      && (forall i, j :: 0 <= i < j < |rows| ==> rows[i].position < rows[j].position)
      && (forall i :: 0 <= i < |rows| ==>
           KeyToPosition(s, rows[i].key).Some? && rows[i].position == KeyToPosition(s, rows[i].key).value)
      && (forall i :: 0 <= i < |rows| ==> rows[i].key in source && |source[rows[i].key]| == rows[i].cardinality)
      && (forall i, k, m :: 0 <= i < |rows| && 0 <= k < m < |source[rows[i].key]| ==>
           source[rows[i].key][k] < source[rows[i].key][m])
      && (forall i, x :: 0 <= i < |rows| && x in source[rows[i].key] ==> 0 <= x < limits.idEnd)
    ensures result.Some? ==> fresh(result.value) && result.value.shape == s && !result.value.released
    ensures result.Some? ==> Holds(result.value, rows, source)
  {
    hide Flat, Ones, IsPrefix, GoodRow, Packed, CardSum, KeyToPosition, WordCount;
    BuildableMeans(s, limits, rows, source);
    var total := TotalCardinality(rows);
    if |rows| > limits.objects || total > limits.ids {
      return None;
    }
    var ordered := CheckRows(rows, Positions(s));
    GoodRowsAreInRange(s, limits, source, rows);
    if !ordered {
      return None;
    }
    WordsCoverPositions(s);
    var arena := new CompactArena(s, |rows|, limits.ids);
    SetBits(PositionsOf(rows), arena.words);
    var count := WritePrefix(arena.words, arena.prefix);
    SelectedCount(arena.words[..], rows);
    var packed := Pack(s, limits, rows, source, arena.offsets, arena.ids);
    if !packed {
      return None;
    }
    arena.idCount := total;
    GoodRowsHavePositions(s, limits, source, rows);
    return Some(arena);
  }

  lemma RowMeans(s: Shape, limits: Limits, source: map<Key, seq<int>>, row: Row)
    ensures GoodRow(s, limits, source, row) <==>
      && KeyToPosition(s, row.key).Some? && row.position == KeyToPosition(s, row.key).value
      && row.key in source && |source[row.key]| == row.cardinality
      && (forall k, m :: 0 <= k < m < |source[row.key]| ==> source[row.key][k] < source[row.key][m])
      && (forall x :: x in source[row.key] ==> 0 <= x < limits.idEnd)
  {
    hide KeyToPosition;
    if row.key in source {
      var ids := source[row.key];
      assert ids != [] ==> ids[0] in ids && ids[|ids| - 1] in ids;
      assert Ascending(ids) ==> forall i :: 0 <= i < |ids| ==> ids[0] <= ids[i] <= ids[|ids| - 1];
    }
  }

  /** What a build demands of its rows and of their sources. */
  lemma BuildableMeans(s: Shape, limits: Limits, rows: seq<Row>, source: map<Key, seq<int>>)
    ensures Buildable(s, limits, rows, source) <==>
      && |rows| <= limits.objects && CardSum(rows, |rows|) <= limits.ids
      && (forall i, j :: 0 <= i < j < |rows| ==> rows[i].position < rows[j].position)
      && (forall i :: 0 <= i < |rows| ==>
           KeyToPosition(s, rows[i].key).Some? && rows[i].position == KeyToPosition(s, rows[i].key).value)
      && (forall i :: 0 <= i < |rows| ==> rows[i].key in source && |source[rows[i].key]| == rows[i].cardinality)
      && (forall i, k, m :: 0 <= i < |rows| && 0 <= k < m < |source[rows[i].key]| ==>
           source[rows[i].key][k] < source[rows[i].key][m])
      && (forall i, x :: 0 <= i < |rows| && x in source[rows[i].key] ==> 0 <= x < limits.idEnd)
  {
    hide KeyToPosition, GoodRow, CardSum;
    forall i | 0 <= i < |rows| {
      RowMeans(s, limits, source, rows[i]);
    }
  }

  lemma GoodRowsHavePositions(s: Shape, limits: Limits, source: map<Key, seq<int>>, rows: seq<Row>)
    requires forall i :: 0 <= i < |rows| ==> GoodRow(s, limits, source, rows[i])
    ensures forall k :: 0 <= k < |rows| ==> rows[k].position >= 0
    ensures forall k :: 0 <= k < |rows| ==> KeyToPosition(s, rows[k].key) == Some(rows[k].position as nat)
  {
  }

  lemma GoodRowsAreInRange(s: Shape, limits: Limits, source: map<Key, seq<int>>, rows: seq<Row>)
    ensures forall i :: 0 <= i < |rows| && GoodRow(s, limits, source, rows[i]) ==> 0 <= rows[i].position < Positions(s)
  {
    forall i | 0 <= i < |rows| && GoodRow(s, limits, source, rows[i]) ensures 0 <= rows[i].position < Positions(s) {
      PositionInRange(s, rows[i].key);
    }
  }

  lemma BuiltPositionInRange(arena: CompactArena, rows: seq<Row>, source: map<Key, seq<int>>, k: nat)
    requires Holds(arena, rows, source) && k < |rows|
    ensures rows[k].position < Positions(arena.shape)
  {
    PositionInRange(arena.shape, rows[k].key);
  }

  /** The ids of a built row, read through its ordinal. */
  lemma BuiltPayload(arena: CompactArena, rows: seq<Row>, source: map<Key, seq<int>>, k: nat)
    requires Holds(arena, rows, source) && k < |rows|
    ensures var p := rows[k].position as nat;
      && p < Positions(arena.shape) && arena.Selected(p) && Rank(Flat(arena.words[..]), p) == k
    ensures rows[k].key in source
    ensures arena.Payload(k) == if source[rows[k].key] == [] then Drift else Found(source[rows[k].key])
  {
    var p, bits := rows[k].position as nat, Flat(arena.words[..]);
    BuiltPositionInRange(arena, rows, source, k);
    WordsCoverPositions(arena.shape);
    PositionsRise(rows);
    assert PositionsOf(rows)[k] == p;
    RankOfSelected(bits, PositionsOf(rows), k, p);
    assert Packed(rows, source, arena.offsets[..], arena.ids[..], k);
    CardSumRises(rows, k, k + 1);
    CardSumRises(rows, k + 1, |rows|);
    var ids := arena.ids[..][CardSum(rows, k)..CardSum(rows, k + 1)];
    assert ids == arena.ids[arena.offsets[k]..arena.offsets[k + 1]];
    assert |ids| == CardSum(rows, k + 1) - CardSum(rows, k);
  }

  /** Looking up a row's key gives its source; an empty source reads as drift. */
  lemma BuiltRowResolves(arena: CompactArena, rows: seq<Row>, source: map<Key, seq<int>>, k: nat)
    requires Holds(arena, rows, source) && !arena.released && k < |rows|
    ensures rows[k].key in source
    ensures arena.Looked(rows[k].key) == if source[rows[k].key] == [] then Drift else Found(source[rows[k].key])
  {
    hide Flat, Ones, IsPrefix, PositionsOf, CardSum, WordCount, CompactArena.Payload;
    BuiltPayload(arena, rows, source, k);
  }

  /** A key that is no row's key is not found. */
  lemma UnselectedIsRefused(arena: CompactArena, rows: seq<Row>, source: map<Key, seq<int>>, key: Key)
    requires Holds(arena, rows, source) && !arena.released
    requires forall k :: 0 <= k < |rows| ==> rows[k].key != key
    ensures arena.Looked(key) == NoKey
  {
    if Canonical(arena.shape, key) {
      PositionInRange(arena.shape, key);
      WordsCoverPositions(arena.shape);
      var p := KeyToPosition(arena.shape, key).value;
      if p in PositionsOf(rows) {
        var k :| 0 <= k < |rows| && PositionsOf(rows)[k] == p;
        assert KeyToPosition(arena.shape, rows[k].key) == Some(p);
        PositionsAreDistinct(arena.shape, rows[k].key, key);
      }
    }
  }

  /** A built arena passes the directory audit exactly when the positions do not fill the last word, or nothing in
      it is selected. */
  lemma BuiltArenaPassesAudit(arena: CompactArena, rows: seq<Row>, source: map<Key, seq<int>>)
    requires Holds(arena, rows, source) && Positions(arena.shape) > 0
    ensures arena.Audited() <==>
      Positions(arena.shape) % BITS != 0 || forall k :: 0 <= k < |rows| ==>
        rows[k].position < Positions(arena.shape) - BITS
  {
    hide Flat, Ones, IsPrefix, TailClear, PositionsOf, CardSum, KeyToPosition, WordCount;
    forall k | 0 <= k < |rows| ensures rows[k].position < Positions(arena.shape) {
      BuiltPositionInRange(arena, rows, source, k);
    }
    forall k: nat | k < |rows| ensures arena.offsets[k] <= arena.offsets[k + 1] {
      assert Packed(rows, source, arena.offsets[..], arena.ids[..], k);
      CardSumRises(rows, k, k + 1);
    }
    TailOfBuilt(arena.shape, arena.words[..], rows);
  }

  lemma SelectedIsRow(arena: CompactArena, rows: seq<Row>, source: map<Key, seq<int>>, p: nat) returns (k: nat)
    requires Holds(arena, rows, source) && p < Positions(arena.shape) && arena.Selected(p)
    ensures k < |rows| && rows[k].position == p
  {
    WordsCoverPositions(arena.shape);
    k :| k < |rows| && PositionsOf(rows)[k] == p;
  }

  /** The payloads of a built arena are in order exactly when no row's source is empty. */
  lemma BuiltPayloadsOk(arena: CompactArena, limits: Limits, rows: seq<Row>, source: map<Key, seq<int>>)
    requires Holds(arena, rows, source) && Buildable(arena.shape, limits, rows, source)
    ensures arena.PayloadsOk() <==> forall k :: 0 <= k < |rows| ==> source[rows[k].key] != []
  {
    hide Flat, Ones, IsPrefix, PositionsOf, CardSum, KeyToPosition, WordCount, CompactArena.Payload;
    forall k: nat | k < |rows| ensures rows[k].position < Positions(arena.shape) && arena.Selected(rows[k].position) {
      BuiltPayload(arena, rows, source, k);
    }
    forall k: nat | k < |rows| ensures arena.PayloadOk(rows[k].position) <==> source[rows[k].key] != [] {
      BuiltPayload(arena, rows, source, k);
      assert GoodRow(arena.shape, limits, source, rows[k]);
    }
    forall p: nat | p < Positions(arena.shape) && arena.Selected(p)
      ensures exists k :: 0 <= k < |rows| && rows[k].position == p
    {
      var k := SelectedIsRow(arena, rows, source, p);
    }
  }

  /** The audit that setup makes of what it has just built: it passes exactly when the
      last word has a free bit or nothing in it is selected, and no row is empty. */
  method AuditBuilt(arena: CompactArena, ghost limits: Limits, ghost rows: seq<Row>, ghost source: map<Key, seq<int>>)
    returns (ok: bool)
    requires Holds(arena, rows, source) && Buildable(arena.shape, limits, rows, source)
    requires !arena.released && Positions(arena.shape) > 0
    ensures ok <==>
      && (|| Positions(arena.shape) % BITS != 0
          || forall k :: 0 <= k < |rows| ==> rows[k].position < Positions(arena.shape) - BITS)
      && forall k :: 0 <= k < |rows| ==> source[rows[k].key] != []
  {
    hide CompactArena.Audited, CompactArena.PayloadsOk;
    ok := arena.Audit(true);
    BuiltArenaPassesAudit(arena, rows, source);
    BuiltPayloadsOk(arena, limits, rows, source);
  }

  lemma TailOfBuilt(s: Shape, words: seq<Word>, rows: seq<Row>)
    requires |words| == WordCount(s) && Positions(s) > 0 && Nonnegative(rows)
    requires forall k :: 0 <= k < |rows| ==> rows[k].position < Positions(s)
    requires forall p: nat :: p < |Flat(words)| ==> (Flat(words)[p] <==> p in PositionsOf(rows))
    ensures TailClear(s, words) <==>
      Positions(s) % BITS != 0 || forall k :: 0 <= k < |rows| ==> rows[k].position < Positions(s) - BITS
  {
    hide Flat, Positions;
    var w: nat, low := |words| - 1, Positions(s) % BITS;
    forall b: nat | b < BITS ensures words[w][b] <==> BITS * w + b in PositionsOf(rows) {
      BitOfWord(words, w, b);
    }
    if low != 0 {
      assert BITS * w + low == Positions(s);
    } else {
      assert BITS * w + BITS == Positions(s);
      if k :| 0 <= k < |rows| && rows[k].position >= Positions(s) - BITS {
        var b := rows[k].position - BITS * w;
        assert PositionsOf(rows)[k] == BITS * w + b;
        assert words[w][b];
      }
    }
  }
}
