// Logical positions of support objects: all pairs of tokens, in triangular
// order, then all cells of a token, an attribute and a block.

module CompactKeys {
  import opened Divisibility
  import opened Options

  datatype Shape = Shape(tokens: nat, attributes: nat, blocks: nat)

  datatype Key = Pair(a: nat, b: nat) | Cell(token: nat, attribute: nat, block: nat)

  predicate Canonical(s: Shape, key: Key) {
    match key
    case Pair(a, b) => a < b < s.tokens
    case Cell(t, a, b) => t < s.tokens && a < s.attributes && b < s.blocks
  }

  /** Where the pairs of first token a start. */
  function PairStart(tokens: nat, a: nat): nat
    requires a <= tokens
  {
    if a == 0 then 0
    else
      var width: nat := 2 * tokens - a - 1;
      a * width / 2
  }

  function PairPositions(s: Shape): nat {
    PairStart(s.tokens, s.tokens)
  }

  function Positions(s: Shape): nat {
    PairPositions(s) + s.tokens * s.attributes * s.blocks
  }

  /** The position of a key; a key outside the domain is an error. */
  function KeyToPosition(s: Shape, key: Key): Option<nat> {
    hide PairStart;
    if !Canonical(s, key) then None
    else match key
      case Pair(a, b) => Some(PairStart(s.tokens, a) + b - a - 1)
      case Cell(t, a, b) =>
        NonNegative(s.attributes * s.blocks, t);
        Some(PairPositions(s) + t * (s.attributes * s.blocks) + a * s.blocks + b)
  }

  /** Consecutive products differ by an even number. */
  lemma NextProduct(tokens: nat, a: nat)
    requires 0 < a <= tokens
    ensures a * (2 * tokens - a - 1) == (a - 1) * (2 * tokens - a) + 2 * (tokens - a)
  {
    var width := 2 * tokens - a;
    assert a * (width - 1) == a * width - a;
    assert (a - 1) * width == a * width - width;
  }

  lemma {:induction false} TwiceStart(tokens: nat, a: nat)
    requires a <= tokens
    ensures 2 * PairStart(tokens, a) == a * (2 * tokens - a - 1)
    decreases a
  {
    if a > 0 {
      TwiceStart(tokens, a - 1);
      NextProduct(tokens, a);
      Halved(a * (2 * tokens - a - 1), PairStart(tokens, a - 1) + (tokens - a));
    }
  }

  lemma Halved(product: int, half: int)
    requires product == 2 * half
    ensures product / 2 == half
  {
  }

  lemma StartStep(tokens: nat, a: nat)
    requires a < tokens
    ensures PairStart(tokens, a + 1) == PairStart(tokens, a) + (tokens - a - 1)
  {
    TwiceStart(tokens, a);
    TwiceStart(tokens, a + 1);
    assert (a + 1) * (2 * tokens - (a + 1) - 1) == a * (2 * tokens - a - 1) + 2 * (tokens - a - 1);
  }

  lemma {:induction false} StartsRise(tokens: nat, a: nat, b: nat)
    requires a < b <= tokens
    ensures PairStart(tokens, a) + (tokens - a - 1) <= PairStart(tokens, b)
  {
    StartStep(tokens, b - 1);
    if a < b - 1 {
      StartsRise(tokens, a, b - 1);
    }
  }

  lemma CellInRange(s: Shape, t: nat, a: nat, b: nat)
    requires t < s.tokens && a < s.attributes && b < s.blocks
    ensures a * s.blocks + b < s.attributes * s.blocks
    ensures t * (s.attributes * s.blocks) + a * s.blocks + b < s.tokens * s.attributes * s.blocks
  {
    NextMultiple(s.blocks, a, s.attributes);
    NextMultiple(s.attributes * s.blocks, t, s.tokens);
    assert s.tokens * s.attributes * s.blocks == s.tokens * (s.attributes * s.blocks);
  }

  lemma PositionInRange(s: Shape, key: Key)
    requires Canonical(s, key)
    ensures KeyToPosition(s, key).value < Positions(s)
    ensures key.Pair? <==> KeyToPosition(s, key).value < PairPositions(s)
  {
    hide PairStart;
    match key {
      case Pair(a, b) => StartsRise(s.tokens, a, s.tokens);
      case Cell(t, a, b) => CellInRange(s, t, a, b);
    }
  }

  /** Different keys have different positions. */
  lemma PositionsAreDistinct(s: Shape, x: Key, y: Key)
    requires Canonical(s, x) && Canonical(s, y) && KeyToPosition(s, x) == KeyToPosition(s, y)
    ensures x == y
  {
    hide PairStart;
    PositionInRange(s, x);
    PositionInRange(s, y);
    if x.Pair? {
      if x.a < y.a {
        StartsRise(s.tokens, x.a, y.a);
      } else if y.a < x.a {
        StartsRise(s.tokens, y.a, x.a);
      }
    } else {
      CellInRange(s, x.token, x.attribute, x.block);
      CellInRange(s, y.token, y.attribute, y.block);
      Digits(s.attributes * s.blocks, x.token, x.attribute * s.blocks + x.block,
             y.token, y.attribute * s.blocks + y.block);
      Digits(s.blocks, x.attribute, x.block, y.attribute, y.block);
    }
  }

  /** Positions keep the order of the keys: pairs before cells, pairs by first and
      then second token, cells by token, attribute and block. */
  lemma PositionsKeepOrder(s: Shape, x: Key, y: Key)
    requires Canonical(s, x) && Canonical(s, y)
    requires match x
      case Pair(a, b) => y.Cell? || a < y.a || (a == y.a && b < y.b)
      case Cell(t, a, b) =>
        && y.Cell?
        && (t < y.token || (t == y.token && (a < y.attribute || (a == y.attribute && b < y.block))))
    ensures KeyToPosition(s, x).value < KeyToPosition(s, y).value
  {
    hide PairStart;
    PositionInRange(s, x);
    PositionInRange(s, y);
    if x.Pair? && y.Pair? {
      if x.a < y.a {
        StartsRise(s.tokens, x.a, y.a);
      }
    } else if x.Cell? {
      CellInRange(s, x.token, x.attribute, x.block);
      CellInRange(s, y.token, y.attribute, y.block);
      if x.token < y.token {
        NextMultiple(s.attributes * s.blocks, x.token, y.token);
        NonNegative(s.attributes * s.blocks, y.token);
      } else if x.attribute < y.attribute {
        NextMultiple(s.blocks, x.attribute, y.attribute);
      }
    }
  }

  /** bisect_right over the pair starts. */
  method BisectRight(tokens: nat, position: nat) returns (at: nat)
    ensures at <= tokens
    ensures forall a: nat :: a < at ==> PairStart(tokens, a) <= position
    ensures forall a: nat :: at <= a < tokens ==> position < PairStart(tokens, a)
  {
    at := 0;
    var hi := tokens;
    while at < hi
      invariant at <= hi <= tokens
      invariant forall a: nat :: a < at ==> PairStart(tokens, a) <= position
      invariant forall a: nat :: hi <= a < tokens ==> position < PairStart(tokens, a)
    {
      var mid := (at + hi) / 2;
      if position < PairStart(tokens, mid) {
        forall a: nat | mid < a < tokens ensures position < PairStart(tokens, a) {
          StartsRise(tokens, mid, a);
        }
        hi := mid;
      } else {
        forall a: nat | a < mid ensures PairStart(tokens, a) <= position {
          StartsRise(tokens, a, mid);
        }
        at := mid + 1;
      }
    }
  }

  /** The key at a position; the pair search cannot leave the pairs. */
  method PositionToKey(s: Shape, position: nat) returns (key: Option<Key>)
    ensures key.Some? <==> position < Positions(s)
    ensures key.Some? ==> KeyToPosition(s, key.value) == Some(position)
  {
    if position >= Positions(s) {
      return None;
    }
    if position < PairPositions(s) {
      var after := BisectRight(s.tokens, position);
      assert PairStart(s.tokens, 0) == 0;
      var a := after - 1;
      assert position < PairStart(s.tokens, a + 1);
      StartStep(s.tokens, a);
      var b := a + 1 + position - PairStart(s.tokens, a);
      return Some(Pair(a, b));
    }
    return Some(CellAt(s, position - PairPositions(s)));
  }

  /** divmod by the cells of a token, then by the blocks of an attribute. */
  function CellAt(s: Shape, value: nat): (key: Key)
    requires value < s.tokens * s.attributes * s.blocks
    ensures Canonical(s, key) && KeyToPosition(s, key) == Some(PairPositions(s) + value)
  {
    WidthPositive(s, value);
    var width := s.attributes * s.blocks;
    var remainder := value % width;
    CellDigits(s, value, width);
    Cell(value / width, remainder / s.blocks, remainder % s.blocks)
  }

  lemma CellDigits(s: Shape, value: nat, width: nat)
    requires value < s.tokens * s.attributes * s.blocks && width == s.attributes * s.blocks > 0 && s.blocks > 0
    ensures value / width < s.tokens && value % width / s.blocks < s.attributes
    ensures value / width * width + value % width / s.blocks * s.blocks + value % width % s.blocks == value
  {
    assert s.tokens * s.attributes * s.blocks == s.tokens * width;
    DigitBelow(value, width, s.tokens);
    DigitBelow(value % width, s.blocks, s.attributes);
  }

  lemma DigitBelow(value: nat, width: nat, count: nat)
    requires width > 0 && value < count * width
    ensures value / width < count && value / width * width + value % width == value
  {
    Division(value, width);
    NextMultiple(width, count, value / width);
  }

  lemma WidthPositive(s: Shape, value: nat)
    requires value < s.tokens * s.attributes * s.blocks
    ensures s.attributes * s.blocks > 0 && s.blocks > 0
  {
    assert s.tokens * s.attributes * s.blocks == s.tokens * (s.attributes * s.blocks);
    assert s.attributes * s.blocks == 0 ==> s.tokens * (s.attributes * s.blocks) == 0;
    assert s.blocks == 0 ==> s.attributes * s.blocks == 0;
  }
}
