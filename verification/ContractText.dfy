// Text behind the acknowledgement and release contracts: decimal numbers,
// quoted pieces, and where a field marker can occur.

module ContractText {

  // --- Decimal numbers ---

  predicate IsDigit(c: char) {
    '0' <= c <= '9'
  }

  function DigitChar(d: nat): char
    requires d < 10
  {
    '0' + d as char
  }

  function DigitValue(c: char): (d: nat)
    requires IsDigit(c)
    ensures d < 10
  {
    (c - '0') as nat
  }

  /** std::to_string of an unsigned number. */
  function Decimal(n: nat): (s: string)
    ensures s != [] && forall i :: 0 <= i < |s| ==> IsDigit(s[i])
  {
    if n < 10 then [DigitChar(n)] else Decimal(n / 10) + [DigitChar(n % 10)]
  }

  function NumberOf(s: string): nat
    requires forall i :: 0 <= i < |s| ==> IsDigit(s[i])
  {
    if s == [] then 0 else 10 * NumberOf(s[..|s| - 1]) + DigitValue(s[|s| - 1])
  }

  lemma {:induction false} NumberOfDecimal(n: nat)
    ensures NumberOf(Decimal(n)) == n
    ensures |Decimal(n)| > 1 ==> Decimal(n)[0] != '0'
  {
    if n >= 10 {
      NumberOfDecimal(n / 10);
      var head := Decimal(n / 10);
      assert Decimal(n)[..|Decimal(n)| - 1] == head;
      if |head| == 1 {
        assert n / 10 < 10;
      }
    } else {
      assert Decimal(n)[..0] == [];
    }
  }

  /** Canonical digits: at least one, and no leading zero unless it is the only digit. */
  predicate CanonicalDigits(s: string) {
    s != [] && (forall i :: 0 <= i < |s| ==> IsDigit(s[i])) && (|s| > 1 ==> s[0] != '0')
  }

  // --- Quotes ---

  predicate Unquoted(s: string) {
    forall i :: 0 <= i < |s| ==> s[i] != '"'
  }

  /** Pieces separated by double quotes. */
  function Join(pieces: seq<string>): string
    requires pieces != []
  {
    if |pieces| == 1 then pieces[0] else pieces[0] + ['"'] + Join(pieces[1..])
  }

  function Marker(key: string): string {
    ['"'] + key + ['"', ':']
  }

  predicate OccursAt(s: string, m: string, i: nat) {
    i + |m| <= |s| && s[i..i + |m|] == m
  }

  /** Index of the quote in front of piece j. */
  function QuoteBefore(pieces: seq<string>, j: nat): nat
    requires 0 < j < |pieces|
  {
    if j == 1 then |pieces[0]| else |pieces[0]| + 1 + QuoteBefore(pieces[1..], j - 1)
  }

  ghost predicate AllUnquoted(pieces: seq<string>) {
    forall j :: 0 <= j < |pieces| ==> Unquoted(pieces[j])
  }

  /** Piece j is a key: it is followed by a piece that begins with a colon. */
  predicate KeyAt(pieces: seq<string>, key: string, j: nat) {
    0 < j && j + 1 < |pieces| && pieces[j] == key && pieces[j + 1] != [] && pieces[j + 1][0] == ':'
  }

  /** From the quote in front of piece j the text is that quote and the later pieces. */
  lemma {:induction false} SuffixAt(pieces: seq<string>, j: nat)
    requires 0 < j < |pieces|
    ensures QuoteBefore(pieces, j) < |Join(pieces)|
    ensures Join(pieces)[QuoteBefore(pieces, j)..] == ['"'] + Join(pieces[j..])
  {
    if j > 1 {
      SuffixAt(pieces[1..], j - 1);
      assert pieces[1..][j - 1..] == pieces[j..];
      var n := QuoteBefore(pieces[1..], j - 1);
      assert Join(pieces)[|pieces[0]| + 1..] == Join(pieces[1..]);
      assert Join(pieces)[|pieces[0]| + 1 + n..] == Join(pieces)[|pieces[0]| + 1..][n..];
    }
  }

  /** Two unquoted strings that end at a quote in the same text are equal. */
  lemma SameUpToQuote(x: string, y: string, s: string)
    requires Unquoted(x) && Unquoted(y)
    requires |x| < |s| && s[..|x|] == x && s[|x|] == '"'
    requires |y| < |s| && s[..|y|] == y && s[|y|] == '"'
    ensures x == y
  {
    assert forall k :: 0 <= k < |x| ==> s[k] == x[k] && x[k] != '"';
    assert forall k :: 0 <= k < |y| ==> s[k] == y[k] && y[k] != '"';
  }

  /** An occurrence repeats each character of what occurs. */
  lemma OccurrenceCharacter(s: string, m: string, i: nat, k: nat)
    requires k < |m|
    ensures OccursAt(s, m, i) ==> i + k < |s| && s[i + k] == m[k]
  {
    if OccursAt(s, m, i) {
      assert s[i..i + |m|][k] == s[i + k];
    }
  }

  /** Behind a quote the rest of the marker must follow. */
  lemma QuoteStep(s: string, rest: string, key: string, at: nat)
    requires at <= |s| && s[at..] == ['"'] + rest
    ensures OccursAt(s, Marker(key), at) <==> OccursAt(rest, key + ['"', ':'], 0)
  {
    var m, tail := Marker(key), key + ['"', ':'];
    assert m == ['"'] + tail;
    if OccursAt(s, m, at) {
      assert s[at..at + |m|] == s[at..][..|m|];
      assert rest[..|tail|] == s[at..][..|m|][1..];
    }
    if OccursAt(rest, tail, 0) {
      assert s[at..][..|m|] == ['"'] + rest[..|tail|];
      assert s[at..at + |m|] == s[at..][..|m|];
    }
  }

  /** At the first quote the marker occurs exactly when the first key follows. */
  lemma MarkerAtFirstQuote(pieces: seq<string>, key: string)
    requires |pieces| > 1 && AllUnquoted(pieces) && Unquoted(key)
    ensures OccursAt(Join(pieces), Marker(key), |pieces[0]|) <==> KeyAt(pieces, key, 1)
  {
    var s, rest := Join(pieces), Join(pieces[1..]);
    assert s[|pieces[0]|..] == ['"'] + rest;
    QuoteStep(s, rest, key, |pieces[0]|);
    if |pieces| == 2 {
      assert rest == pieces[1];
      OccurrenceCharacter(rest, key + ['"', ':'], 0, |key|);
    } else {
      var tail := Join(pieces[2..]);
      assert pieces[1..][1..] == pieces[2..];
      TailStartsLikePiece(pieces[2..]);
      KeyBeforeQuote(pieces[1], tail, key);
    }
  }

  lemma KeyBeforeQuote(piece: string, tail: string, key: string)
    requires Unquoted(piece) && Unquoted(key)
    ensures OccursAt(piece + ['"'] + tail, key + ['"', ':'], 0) <==> piece == key && tail != [] && tail[0] == ':'
  {
    var rest := piece + ['"'] + tail;
    if OccursAt(rest, key + ['"', ':'], 0) {
      assert rest[..|key|] == key && rest[|key|] == '"' && rest[|key| + 1] == ':';
      assert rest[..|piece|] == piece;
      SameUpToQuote(key, piece, rest);
    }
    if piece == key && tail != [] && tail[0] == ':' {
      assert rest[..|key| + 2] == key + ['"', ':'];
    }
  }

  /** A joined text begins with a colon exactly when its first piece does. */
  lemma TailStartsLikePiece(pieces: seq<string>)
    requires pieces != []
    ensures (Join(pieces) != [] && Join(pieces)[0] == ':') <==> (pieces[0] != [] && pieces[0][0] == ':')
  {
  }

  /** A marker occurs in the joined text exactly in front of its keys. */
  lemma {:induction false} MarkerOccurs(pieces: seq<string>, key: string, i: nat)
    requires pieces != [] && AllUnquoted(pieces) && Unquoted(key)
    ensures OccursAt(Join(pieces), Marker(key), i) <==>
      exists j: nat :: KeyAt(pieces, key, j) && i == QuoteBefore(pieces, j)
  {
    var s := Join(pieces);
    if |pieces| == 1 {
      OccurrenceCharacter(s, Marker(key), i, 0);
      return;
    }
    var rest, n := pieces[1..], |pieces[0]|;
    assert forall j: nat :: j > 0 ==> (KeyAt(rest, key, j) <==> KeyAt(pieces, key, j + 1));
    if i < n {
      assert s[i] == pieces[0][i];
      OccurrenceCharacter(s, Marker(key), i, 0);
    } else if i == n {
      MarkerAtFirstQuote(pieces, key);
      assert KeyAt(pieces, key, 1) ==> QuoteBefore(pieces, 1) == i;
    } else {
      MarkerOccurs(rest, key, i - n - 1);
      OccursLater(pieces, Marker(key), i);
      if exists j: nat :: KeyAt(rest, key, j) && i - n - 1 == QuoteBefore(rest, j) {
        var j: nat :| KeyAt(rest, key, j) && i - n - 1 == QuoteBefore(rest, j);
        assert KeyAt(pieces, key, j + 1) && i == QuoteBefore(pieces, j + 1);
      }
      if exists j: nat :: KeyAt(pieces, key, j) && i == QuoteBefore(pieces, j) {
        var j: nat :| KeyAt(pieces, key, j) && i == QuoteBefore(pieces, j);
        assert KeyAt(rest, key, j - 1) && i - n - 1 == QuoteBefore(rest, j - 1);
      }
    }
  }

  lemma OccursLater(pieces: seq<string>, m: string, i: nat)
    requires |pieces| > 1 && i > |pieces[0]|
    ensures OccursAt(Join(pieces), m, i) <==> OccursAt(Join(pieces[1..]), m, i - |pieces[0]| - 1)
  {
    var s, rest, n := Join(pieces), Join(pieces[1..]), |pieces[0]| + 1;
    assert s[n..] == rest;
    if i + |m| <= |s| {
      assert s[i..i + |m|] == rest[i - n..i - n + |m|];
    }
  }
}
