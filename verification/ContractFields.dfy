// One-line JSON objects: printing a list of fields, and reading each one back.

module ContractFields {
  import opened ContractText
  import opened ContractParse

  datatype Field = Size(key: string, n: nat) | Text(key: string, v: string)

  function PrintField(f: Field): string {
    match f
    case Size(key, n) => Marker(key) + Decimal(n)
    case Text(key, v) => Marker(key) + ['"'] + v + ['"']
  }

  /** The text from the separator `lead` on, to the end of the line. */
  function PrintFrom(lead: string, fields: seq<Field>): string
    decreases fields
  {
    if fields == [] then lead + "}\n"
    else lead + PrintField(fields[0]) + PrintFrom(Separator(fields), fields[1..])
  }

  /** What stands behind the first field. */
  function Separator(fields: seq<Field>): string {
    if |fields| <= 1 then "" else ","
  }

  function PrintObject(fields: seq<Field>): string {
    PrintFrom("{", fields)
  }

  /** Keys hold no quote and do not begin with a colon. */
  predicate CleanKey(key: string) {
    Unquoted(key) && (key != [] ==> key[0] != ':')
  }

  predicate CleanField(f: Field) {
    CleanKey(f.key) && (f.Text? ==> Plain(f.v))
  }

  ghost predicate CleanFields(fields: seq<Field>) {
    forall f :: 0 <= f < |fields| ==> CleanField(fields[f])
  }

  ghost predicate DistinctKeys(fields: seq<Field>) {
    forall f, g :: 0 <= f < g < |fields| ==> fields[f].key != fields[g].key
  }

  /** The text cut at its quotes. */
  function Pieces(lead: string, fields: seq<Field>): (pieces: seq<string>)
    ensures pieces != []
    ensures if fields == [] then pieces == [lead + "}\n"] else |pieces| > 2 && pieces[0] == lead
    decreases fields
  {
    if fields == [] then [lead + "}\n"]
    else match fields[0]
      case Size(key, n) => [lead, key] + Pieces(":" + Decimal(n) + Separator(fields), fields[1..])
      case Text(key, v) => [lead, key, ":", v] + Pieces(Separator(fields), fields[1..])
  }

  lemma JoinTwo(a: string, b: string, rest: seq<string>)
    requires rest != []
    ensures Join([a, b] + rest) == a + ['"'] + b + ['"'] + Join(rest)
  {
    assert ([a, b] + rest)[1..] == [b] + rest;
    assert ([b] + rest)[1..] == rest;
    assert Join([a, b] + rest) == a + ['"'] + (b + ['"'] + Join(rest));
  }

  /** Moving the separator into the rest of the text. */
  lemma LeadMoves(x: string, lead: string, fields: seq<Field>)
    ensures x + PrintFrom(lead, fields) == PrintFrom(x + lead, fields)
  {
    if fields == [] {
      Regroup(x, lead, "}\n", "");
    } else {
      hide PrintField, Separator;
      Regroup(x, lead, PrintField(fields[0]), PrintFrom(Separator(fields), fields[1..]));
    }
  }

  lemma Regroup(a: string, b: string, c: string, d: string)
    ensures a + (b + c + d) == (a + b) + c + d
    ensures a + (b + c) == (a + b) + c
  {
  }

  lemma SizeText(lead: string, key: string, d: string, tail: string)
    ensures lead + ['"'] + key + ['"'] + (":" + d + tail) == lead + (Marker(key) + d) + tail
  {
    var head := lead + ['"'] + key + ['"'];
    assert head + (":" + d + tail) == head + ":" + d + tail;
    assert head + ":" == lead + Marker(key);
    assert lead + Marker(key) + d == lead + (Marker(key) + d);
  }

  lemma TextText(lead: string, key: string, v: string, tail: string)
    ensures lead + ['"'] + key + ['"'] + (":" + ['"'] + v + ['"'] + tail)
         == lead + (Marker(key) + ['"'] + v + ['"']) + tail
  {
    var value := ['"'] + v + ['"'];
    assert ":" + ['"'] + v + ['"'] + tail == ":" + value + tail;
    SizeText(lead, key, value, tail);
    assert Marker(key) + ['"'] + v + ['"'] == Marker(key) + value;
  }

  /** Behind the first field stands what its pieces continue with. */
  function LeadAfter(fields: seq<Field>): string
    requires fields != []
  {
    match fields[0]
    case Size(key, n) => ":" + Decimal(n) + Separator(fields)
    case Text(key, v) => Separator(fields)
  }

  lemma JoinedStep(lead: string, fields: seq<Field>, tail: string)
    requires fields != []
    requires Join(Pieces(LeadAfter(fields), fields[1..])) == PrintFrom(LeadAfter(fields), fields[1..])
    requires tail == PrintFrom(Separator(fields), fields[1..])
    ensures Join(Pieces(lead, fields)) == lead + PrintField(fields[0]) + tail
  {
    hide Join, Decimal, Marker, PrintFrom;
    var rest := fields[1..];
    var pieces := Pieces(LeadAfter(fields), rest);
    match fields[0] {
      case Size(key, n) =>
        JoinTwo(lead, key, pieces);
        LeadMoves(":" + Decimal(n), Separator(fields), rest);
        SizeText(lead, key, Decimal(n), tail);
      case Text(key, v) =>
        JoinTwo(":", v, pieces);
        JoinTwo(lead, key, [":", v] + pieces);
        assert Pieces(lead, fields) == [lead, key] + ([":", v] + pieces);
        TextText(lead, key, v, tail);
    }
  }

  lemma {:induction false} PrintedIsJoined(lead: string, fields: seq<Field>)
    ensures Join(Pieces(lead, fields)) == PrintFrom(lead, fields)
    decreases |fields|
  {
    if fields != [] {
      PrintedIsJoined(LeadAfter(fields), fields[1..]);
      JoinedStep(lead, fields, PrintFrom(Separator(fields), fields[1..]));
    }
  }

  // --- Where the markers are ---

  function PieceIndex(fields: seq<Field>, f: nat): nat
    requires f < |fields|
  {
    if f == 0 then 1 else (if fields[0].Size? then 2 else 4) + PieceIndex(fields[1..], f - 1)
  }

  ghost predicate IsField(fields: seq<Field>, key: string, f: nat, j: nat) {
    f < |fields| && fields[f].key == key && j == PieceIndex(fields, f)
  }

  lemma {:induction false} PiecesUnquoted(lead: string, fields: seq<Field>)
    requires CleanFields(fields) && Unquoted(lead)
    ensures AllUnquoted(Pieces(lead, fields))
    decreases |fields|
  {
    if fields != [] {
      assert CleanField(fields[0]);
      PiecesUnquoted(LeadAfter(fields), fields[1..]);
    }
  }

  /** A piece is a key only as the key of a field, even where a value spells the same word. */
  lemma {:induction false} KeysAreFields(lead: string, fields: seq<Field>, key: string, j: nat)
    requires CleanFields(fields) && CleanKey(key)
    ensures KeyAt(Pieces(lead, fields), key, j) <==> exists f: nat :: IsField(fields, key, f, j)
    decreases |fields|
  {
    if fields == [] {
      NoKeyInNone(lead, key, j);
    } else {
      hide Pieces, KeyAt, IsField, CleanKey;
      var skip := if fields[0].Size? then 2 else 4;
      if j > skip {
        var before: nat := j - skip;
        KeysAreFields(LeadAfter(fields), fields[1..], key, before);
        KeyBehindFirst(lead, fields, key, j);
        FieldBehindFirst(fields, key, before, j);
      } else {
        KeyInFirst(lead, fields, key, j);
        FieldInFirst(fields, key, j);
      }
    }
  }

  lemma NoKeyInNone(lead: string, key: string, j: nat)
    ensures !KeyAt(Pieces(lead, []), key, j) && forall f: nat :: !IsField([], key, f, j)
  {
  }

  lemma KeyBehindFirst(lead: string, fields: seq<Field>, key: string, j: nat)
    requires fields != [] && j > (if fields[0].Size? then 2 else 4)
    ensures var skip := if fields[0].Size? then 2 else 4;
      KeyAt(Pieces(lead, fields), key, j) <==> KeyAt(Pieces(LeadAfter(fields), fields[1..]), key, j - skip)
  {
    hide Pieces;
    FirstPieces(lead, fields);
  }

  lemma FieldBehindFirst(fields: seq<Field>, key: string, before: nat, j: nat)
    requires fields != [] && before > 0 && j == before + (if fields[0].Size? then 2 else 4)
    ensures (exists f: nat :: IsField(fields[1..], key, f, before)) <==> exists f: nat :: IsField(fields, key, f, j)
  {
    if f: nat :| IsField(fields[1..], key, f, before) {
      assert IsField(fields, key, f + 1, j);
    }
    if f: nat :| IsField(fields, key, f, j) {
      assert IsField(fields[1..], key, f - 1, before);
    }
  }

  lemma KeyInFirst(lead: string, fields: seq<Field>, key: string, j: nat)
    requires CleanFields(fields) && CleanKey(key) && fields != [] && j <= (if fields[0].Size? then 2 else 4)
    ensures KeyAt(Pieces(lead, fields), key, j) <==> j == 1 && key == fields[0].key
  {
    assert CleanField(fields[0]);
  }

  lemma FieldInFirst(fields: seq<Field>, key: string, j: nat)
    requires fields != [] && j <= (if fields[0].Size? then 2 else 4)
    ensures (exists f: nat :: IsField(fields, key, f, j)) <==> j == 1 && key == fields[0].key
  {
    assert forall f: nat :: 0 < f < |fields| ==> PieceIndex(fields, f) > (if fields[0].Size? then 2 else 4);
    assert IsField(fields, key, 0, 1) <==> key == fields[0].key;
  }

  lemma FirstPieces(lead: string, fields: seq<Field>)
    requires fields != []
    ensures var skip := if fields[0].Size? then 2 else 4;
      && skip < |Pieces(lead, fields)|
      && Pieces(lead, fields)[skip..] == Pieces(LeadAfter(fields), fields[1..])
    ensures Pieces(lead, fields)[1..] == Pieces("", fields)[1..]
  {
  }

  /** From the quote in front of a field's key stands that field and what follows it. */
  lemma {:induction false} PiecesFrom(lead: string, fields: seq<Field>, f: nat)
    requires f < |fields|
    ensures PieceIndex(fields, f) < |Pieces(lead, fields)|
    ensures Pieces(lead, fields)[PieceIndex(fields, f)..] == Pieces("", fields[f..])[1..]
    decreases fields
  {
    hide Pieces;
    var pieces := Pieces(lead, fields);
    FirstPieces(lead, fields);
    if f == 0 {
      assert fields[0..] == fields;
    } else {
      var skip, rest := if fields[0].Size? then 2 else 4, fields[1..];
      PiecesFrom(LeadAfter(fields), rest, f - 1);
      assert rest[f - 1..] == fields[f..];
      var j := PieceIndex(rest, f - 1);
      assert PieceIndex(fields, f) == skip + j;
      assert pieces[skip + j..] == pieces[skip..][j..];
    }
  }

  function MarkerOf(fields: seq<Field>, f: nat): nat
    requires f < |fields|
  {
    PiecesFrom("{", fields, f);
    QuoteBefore(Pieces("{", fields), PieceIndex(fields, f))
  }

  lemma TextFromField(fields: seq<Field>, f: nat)
    requires f < |fields|
    ensures MarkerOf(fields, f) < |PrintObject(fields)|
    ensures PrintObject(fields)[MarkerOf(fields, f)..]
         == PrintField(fields[f]) + PrintFrom(Separator(fields[f..]), fields[f + 1..])
  {
    hide Join, Pieces, PieceIndex, QuoteBefore;
    var pieces, j := Pieces("{", fields), PieceIndex(fields, f);
    var tail := fields[f..];
    PiecesFrom("{", fields, f);
    PieceIndexPositive(fields, f);
    PrintedIsJoined("{", fields);
    SuffixAt(pieces, j);
    PrintedIsJoined("", tail);
    JoinHead(Pieces("", tail));
    assert tail[1..] == fields[f + 1..];
    assert "" + ['"'] + Join(Pieces("", tail)[1..]) == ['"'] + Join(Pieces("", tail)[1..]);
    assert "" + PrintField(tail[0]) == PrintField(tail[0]);
  }

  lemma PieceIndexPositive(fields: seq<Field>, f: nat)
    requires f < |fields|
    ensures PieceIndex(fields, f) > 0
    decreases fields
  {
  }

  lemma JoinHead(pieces: seq<string>)
    requires |pieces| > 1
    ensures Join(pieces) == pieces[0] + ['"'] + Join(pieces[1..])
  {
  }

  /** In a printed object each field's marker occurs once. */
  lemma MarkerOnce(fields: seq<Field>, f: nat, i: nat)
    requires f < |fields| && CleanFields(fields) && DistinctKeys(fields)
    ensures OccursAt(PrintObject(fields), Marker(fields[f].key), i) <==> i == MarkerOf(fields, f)
  {
    hide Join, Pieces, PieceIndex, QuoteBefore, OccursAt, Marker;
    var pieces, key := Pieces("{", fields), fields[f].key;
    assert CleanField(fields[f]);
    PiecesUnquoted("{", fields);
    PrintedIsJoined("{", fields);
    MarkerOccurs(pieces, key, i);
    KeysAreFields("{", fields, key, PieceIndex(fields, f));
    assert IsField(fields, key, f, PieceIndex(fields, f));
    if j: nat :| KeyAt(pieces, key, j) && i == QuoteBefore(pieces, j) {
      KeysAreFields("{", fields, key, j);
    }
  }

  lemma SeparatorFollows(fields: seq<Field>)
    requires fields != []
    ensures var after := PrintFrom(Separator(fields), fields[1..]);
      after != [] && (after[0] == ',' || after[0] == '}')
  {
  }

  function ValueOffset(fields: seq<Field>, f: nat): nat
    requires f < |fields|
  {
    MarkerOf(fields, f) + |Marker(fields[f].key)|
  }

  lemma ValueIsFound(fields: seq<Field>, f: nat)
    requires f < |fields| && CleanFields(fields) && DistinctKeys(fields)
    ensures ValueAt(PrintObject(fields), fields[f].key, ValueOffset(fields, f))
  {
    hide PrintObject, OccursAt, MarkerOf;
    var s, m, i := PrintObject(fields), Marker(fields[f].key), MarkerOf(fields, f);
    forall k: nat ensures OccursAt(s, m, k) <==> k == i {
      MarkerOnce(fields, f, k);
    }
    assert FirstAt(s, m, 0, i);
  }

  /** What a field prints behind its marker. */
  function ValueText(f: Field): string {
    match f
    case Size(key, n) => Decimal(n)
    case Text(key, v) => ['"'] + v + ['"']
  }

  lemma FieldIsMarked(f: Field)
    ensures PrintField(f) == Marker(f.key) + ValueText(f)
  {
  }

  lemma DropMarker(s: string, i: nat, m: string, v: string, after: string)
    requires i <= |s| && s[i..] == (m + v) + after
    ensures i + |m| <= |s| && s[i + |m|..] == v + after
  {
    assert (m + v) + after == m + (v + after);
    assert s[i + |m|..] == s[i..][|m|..];
  }

  lemma ValueStands(fields: seq<Field>, f: nat) returns (after: string)
    requires f < |fields|
    ensures after != [] && (after[0] == ',' || after[0] == '}')
    ensures ValueOffset(fields, f) <= |PrintObject(fields)|
    ensures PrintObject(fields)[ValueOffset(fields, f)..] == ValueText(fields[f]) + after
  {
    hide PrintObject, PrintFrom, PrintField, ValueText, MarkerOf, Marker;
    var s, m, i := PrintObject(fields), Marker(fields[f].key), MarkerOf(fields, f);
    TextFromField(fields, f);
    after := PrintFrom(Separator(fields[f..]), fields[f + 1..]);
    assert fields[f..][1..] == fields[f + 1..];
    SeparatorFollows(fields[f..]);
    FieldIsMarked(fields[f]);
    DropMarker(s, i, m, ValueText(fields[f]), after);
  }

  /** Reading a field of a printed object gives that field's value back. */
  lemma FieldIsRead(fields: seq<Field>, f: nat)
    requires f < |fields| && CleanFields(fields) && DistinctKeys(fields)
    ensures fields[f].Size? && fields[f].n < SIZE_LIMIT ==> HoldsSize(PrintObject(fields), fields[f].key, fields[f].n)
    ensures fields[f].Text? ==> HoldsText(PrintObject(fields), fields[f].key, fields[f].v)
  {
    hide PrintObject, ValueAt, ValueOffset, Decimal;
    var s, o := PrintObject(fields), ValueOffset(fields, f);
    ValueIsFound(fields, f);
    var after := ValueStands(fields, f);
    assert CleanField(fields[f]);
    match fields[f] {
      case Size(key, n) => ReadDigits(s, o, n, after);
      case Text(key, v) => ReadText(s, o, v, after);
    }
  }

  lemma ReadDigits(s: string, o: nat, n: nat, after: string)
    requires o <= |s| && s[o..] == Decimal(n) + after
    requires after != [] && !IsDigit(after[0])
    ensures DigitsAt(s, o, Decimal(n))
  {
    hide Decimal;
    DecimalIsCanonical(n);
    assert s[o..o + |Decimal(n)|] == s[o..][..|Decimal(n)|];
    assert s[o + |Decimal(n)|] == s[o..][|Decimal(n)|];
  }

  lemma ReadText(s: string, o: nat, v: string, after: string)
    requires o <= |s| && s[o..] == ['"'] + v + ['"'] + after && Plain(v)
    ensures TextAt(s, o, v)
  {
    var t := ['"'] + v + ['"'] + after;
    assert t[1..1 + |v|] == v;
    assert s[o] == s[o..][0];
    assert s[o + 1..o + 1 + |v|] == s[o..][1..1 + |v|];
    assert s[o + 1 + |v|] == s[o..][1 + |v|];
  }
}
