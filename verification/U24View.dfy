// A checked view of an arena whose payloads are runs of three-byte ids: the
// same rank directory, with byte offsets instead of id offsets.

module U24View {
  import opened Options
  import opened CompactKeys
  import opened RankDirectory
  import opened SupportArena

  const ID_BYTES: nat := 3

  /** What opening a view checks: section sizes, offsets and the rank directory. */
  ghost predicate ViewOk(s: Shape, words: seq<Word>, prefix: seq<nat>, offsets: seq<nat>, payload: nat, selected: nat) {
    && |words| == WordCount(s) && |offsets| == selected + 1 && offsets[0] == 0 && offsets[selected] == payload
    && (forall o :: 0 <= o < selected ==> offsets[o] <= offsets[o + 1])
    && (forall o :: 0 <= o < selected ==> (offsets[o + 1] - offsets[o]) % ID_BYTES == 0)
    && IsPrefix(words, prefix) && Ones(Flat(words)) == selected
  }

  class CompactU24View {
    const shape: Shape
    const words: array<Word>
    const prefix: array<nat>
    const offsets: array<nat>
    const payload: nat
    const selected: nat

    constructor (shape: Shape, words: array<Word>, prefix: array<nat>, offsets: array<nat>, payload: nat, selected: nat)
      ensures this.shape == shape && this.words == words && this.prefix == prefix && this.offsets == offsets
      ensures this.payload == payload && this.selected == selected
    {
      this.shape, this.words, this.prefix, this.offsets := shape, words, prefix, offsets;
      this.payload, this.selected := payload, selected;
    }

    ghost predicate Valid()
      reads words, prefix, offsets
    {
      ViewOk(shape, words[..], prefix[..], offsets[..], payload, selected)
    }

    /** The byte range of a key: none for a key that is not selected. */
    ghost function Bounds(key: Key): Option<(nat, nat)>
      reads words, prefix, offsets
      requires Valid()
    {
      if !Canonical(shape, key) then None
      else
        PositionInRange(shape, key);
        var p, bits := KeyToPosition(shape, key).value, Flat(words[..]);
        if !bits[p] then None
        else
          RankBelowCount(bits, p);
          Some((offsets[Rank(bits, p)], offsets[Rank(bits, p) + 1]))
    }

    /** The drift branch of the bounds check cannot be taken on a checked view. */
    method PayloadBounds(key: Key) returns (bounds: Option<(nat, nat)>)
      requires Valid()
      ensures bounds == Bounds(key)
      ensures bounds.Some? ==> bounds.value.0 <= bounds.value.1 <= payload
      ensures bounds.Some? ==> (bounds.value.1 - bounds.value.0) % ID_BYTES == 0
    {
      var position := KeyToPosition(shape, key);
      if position.None? {
        return None;
      }
      PositionInRange(shape, key);
      var p := position.value;
      BitAt(words[..], p);
      if !words[p / BITS][p % BITS] {
        return None;
      }
      OrdinalIsRank(words[..], prefix[..], p);
      RankBelowCount(Flat(words[..]), p);
      var ordinal := prefix[p / BITS] + Ones(words[p / BITS][..p % BITS]);
      OffsetsStayBelow(offsets[..], payload, selected, ordinal + 1);
      return Some((offsets[ordinal], offsets[ordinal + 1]));
    }
  }

  /** Opening a view: it is granted exactly when the sections fit and the directory is in order. */
  method Open(shape: Shape, words: array<Word>, prefix: array<nat>, offsets: array<nat>, payload: nat, selected: nat)
    returns (view: Option<CompactU24View>)
    ensures view.Some? <==> ViewOk(shape, words[..], prefix[..], offsets[..], payload, selected)
    ensures view.Some? ==> view.value.Valid() && view.value.words == words && view.value.shape == shape
    ensures view.Some? ==> view.value.selected == selected
  {
    if words.Length != WordCount(shape) || prefix.Length != words.Length + 1 || offsets.Length != selected + 1 {
      return None;
    }
    if offsets[0] != 0 || offsets[selected] != payload {
      return None;
    }
    for o := 0 to selected
      invariant forall k :: 0 <= k < o ==> offsets[k] <= offsets[k + 1] && (offsets[k + 1] - offsets[k]) % ID_BYTES == 0
    {
      if offsets[o + 1] < offsets[o] || (offsets[o + 1] - offsets[o]) % ID_BYTES != 0 {
        return None;
      }
    }
    var recurrence, count := CheckPrefix(words, prefix);
    if !recurrence || count != selected {
      return None;
    }
    var v := new CompactU24View(shape, words, prefix, offsets, payload, selected);
    return Some(v);
  }

  /** What opening a view checks, byte range by byte range and bit by bit. */
  lemma ViewMeans(s: Shape, words: seq<Word>, prefix: seq<nat>, offsets: seq<nat>, payload: nat, selected: nat)
    ensures ViewOk(s, words, prefix, offsets, payload, selected) <==>
      && |words| == (Positions(s) + 63) / 64 && |prefix| == |words| + 1 && |offsets| == selected + 1
      && offsets[0] == 0 && offsets[selected] == payload
      && (forall o :: 0 <= o < selected ==> offsets[o] <= offsets[o + 1])
      && (forall o :: 0 <= o < selected ==> (offsets[o + 1] - offsets[o]) % 3 == 0)
      && (forall i :: 0 <= i <= |words| ==> prefix[i] == |BitsBefore(Flat(words), 64 * i)|)
      && |BitsBefore(Flat(words), |Flat(words)|)| == selected
  {
    hide Flat, Ones, IsPrefix, BitsBefore, Positions;
    PrefixCounts(words, prefix);
    RankCounts(Flat(words), |Flat(words)|);
    assert Flat(words)[..|Flat(words)|] == Flat(words);
  }

  /** A key's range lies behind those of the selected positions before its own. */
  lemma BoundsMean(view: CompactU24View, key: Key)
    requires view.Valid()
    ensures view.Bounds(key).Some? <==> Canonical(view.shape, key) && Flat(view.words[..])[PositionOf(view.shape, key)]
    ensures view.Bounds(key).Some? ==>
      var o := |BitsBefore(Flat(view.words[..]), PositionOf(view.shape, key))|;
      o < view.selected && view.Bounds(key).value == (view.offsets[o], view.offsets[o + 1])
  {
    hide Flat, Ones, IsPrefix, BitsBefore, PairStart;
    if Canonical(view.shape, key) {
      var p := PositionOf(view.shape, key);
      RankCounts(Flat(view.words[..]), p);
      if Flat(view.words[..])[p] {
        RankBelowCount(Flat(view.words[..]), p);
      }
    }
  }

  /** Two selected keys in position order have payloads in that order, without overlap. */
  lemma PayloadsInOrder(view: CompactU24View, x: Key, y: Key)
    requires view.Valid() && view.Bounds(x).Some? && view.Bounds(y).Some?
    requires KeyToPosition(view.shape, x).value < KeyToPosition(view.shape, y).value
    ensures view.Bounds(x).value.1 <= view.Bounds(y).value.0
  {
    hide Flat, Ones, IsPrefix, PairStart;
    var bits := Flat(view.words[..]);
    var p, q := PositionOf(view.shape, x), PositionOf(view.shape, y);
    RankKeepsOrder(bits, p, q);
    RankBelowCount(bits, q);
    PayloadsAreDisjoint(view.offsets[..], view.payload, view.selected, Rank(bits, p), Rank(bits, q));
  }

  ghost predicate NoStrayBits(view: CompactU24View)
    reads view.words
  {
    forall p: nat :: Positions(view.shape) <= p < |Flat(view.words[..])| ==> !Flat(view.words[..])[p]
  }

  ghost predicate HasOrdinal(view: CompactU24View, key: Key, o: nat)
    reads view.words, view.prefix, view.offsets
    requires view.Valid()
  {
    && Canonical(view.shape, key) && view.Bounds(key).Some?
    && Rank(Flat(view.words[..]), PositionOf(view.shape, key)) == o
  }

  ghost predicate Reached(view: CompactU24View, o: nat)
    reads view.words, view.prefix, view.offsets
    requires view.Valid()
  {
    exists key :: HasOrdinal(view, key, o)
  }

  function PositionOf(s: Shape, key: Key): (p: nat)
    requires Canonical(s, key)
    ensures p < Positions(s) <= BITS * WordCount(s)
  {
    PositionInRange(s, key);
    KeyToPosition(s, key).value
  }

  /** The view does not check the bits behind the last position: every ordinal has a key exactly when none of them
      is set. */
  lemma EveryOrdinalHasAKey(view: CompactU24View)
    requires view.Valid()
    ensures NoStrayBits(view) <==> forall o: nat :: o < view.selected ==> Reached(view, o)
  {
    hide Ones, Flat, IsPrefix, ViewOk, HasOrdinal;
    var bits := Flat(view.words[..]);
    if NoStrayBits(view) {
      forall o: nat | o < view.selected ensures Reached(view, o) {
        var key := OrdinalHasKey(view, o);
      }
    } else {
      var p: nat :| Positions(view.shape) <= p < |bits| && bits[p];
      ViewCounts(view);
      RankBelowCount(bits, p);
      StrayOrdinal(view, p);
    }
  }

  lemma ViewCounts(view: CompactU24View)
    requires view.Valid()
    ensures Ones(Flat(view.words[..])) == view.selected
  {
  }

  lemma OrdinalHasKey(view: CompactU24View, o: nat) returns (key: Key)
    requires view.Valid() && NoStrayBits(view) && o < view.selected
    ensures HasOrdinal(view, key, o)
  {
    hide Flat, Ones, IsPrefix, PairStart;
    var p := SelectExists(Flat(view.words[..]), o);
    key := KeyAt(view.shape, p);
  }

  /** The rank of a bit behind the last position is no key's ordinal. */
  lemma StrayOrdinal(view: CompactU24View, p: nat)
    requires view.Valid() && Positions(view.shape) <= p < |Flat(view.words[..])| && Flat(view.words[..])[p]
    ensures !Reached(view, Rank(Flat(view.words[..]), p))
  {
    hide Flat, Ones, IsPrefix, PairStart, ViewOk;
    var bits := Flat(view.words[..]);
    forall key ensures !HasOrdinal(view, key, Rank(bits, p)) {
      if Canonical(view.shape, key) && bits[PositionOf(view.shape, key)] {
        RankKeepsOrder(bits, PositionOf(view.shape, key), p);
      }
    }
  }

  /** Whenever the last word has a bit behind the last position, a view that selects
      nothing but that bit is granted; its one ordinal is no key's. */
  method StrayViewIsGranted(s: Shape) returns (view: Option<CompactU24View>)
    requires Positions(s) % BITS != 0
    ensures view.Some? && view.value.Valid() && view.value.shape == s && view.value.selected == 1
    ensures !Reached(view.value, 0)
  {
    hide Flat, Ones, Positions;
    var p := Positions(s);
    var words := new Word[WordCount(s)](_ => seq(64, _ => false));
    assert p < BITS * WordCount(s);
    SetBits([p], words);
    ghost var bits := Flat(words[..]);
    RankOfSelected(bits, [p], 1, |bits|);
    RankOfSelected(bits, [p], 0, p);
    assert bits[..|bits|] == bits;
    var prefix := new nat[words.Length + 1](_ => 0);
    var count := WritePrefix(words, prefix);
    var offsets := new nat[2](_ => 0);
    view := Open(s, words, prefix, offsets, 0, 1);
    StrayOrdinal(view.value, p);
  }

  /** Without such a bit no view can hide an ordinal. */
  lemma FullWordsHaveNoStray(view: CompactU24View)
    requires view.Valid() && Positions(view.shape) % BITS == 0
    ensures forall o: nat :: o < view.selected ==> Reached(view, o)
  {
    assert NoStrayBits(view);
    EveryOrdinalHasAKey(view);
  }

  /** Every position is some key's. */
  lemma KeyAt(s: Shape, p: nat) returns (key: Key)
    requires p < Positions(s)
    ensures Canonical(s, key) && KeyToPosition(s, key) == Some(p)
  {
    if p < PairPositions(s) {
      var a: nat := 0;
      while a + 1 < s.tokens && PairStart(s.tokens, a + 1) <= p
        invariant a < s.tokens && PairStart(s.tokens, a) <= p
        decreases s.tokens - a
      {
        a := a + 1;
      }
      StartStep(s.tokens, a);
      key := Pair(a, a + 1 + p - PairStart(s.tokens, a));
    } else {
      key := CellAt(s, p - PairPositions(s));
    }
  }
}
