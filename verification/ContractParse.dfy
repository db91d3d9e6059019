// The strict readers of a contract payload: a field's marker must occur once,
// and its value must be a plain string or canonical digits.

module ContractParse {
  import opened Options
  import opened ContractText

  const SIZE_LIMIT: nat := 0x1_0000_0000_0000_0000

  /** What a string field may hold: no quote, no backslash, no control character. */
  predicate PlainChar(c: char) {
    c >= ' ' && c != '"' && c != '\\'
  }

  predicate Plain(s: string) {
    forall i :: 0 <= i < |s| ==> PlainChar(s[i])
  }

  // --- What the strict parsers read ---

  /** The marker occurs first at i when the search starts at `from`. */
  ghost predicate FirstAt(s: string, m: string, from: nat, i: nat) {
    from <= i && OccursAt(s, m, i) && forall k: nat :: from <= k < i ==> !OccursAt(s, m, k)
  }

  /** The value of a field starts at o: behind the first marker, with no marker from there on. */
  ghost predicate ValueAt(s: string, key: string, o: nat) {
    && |Marker(key)| <= o
    && FirstAt(s, Marker(key), 0, o - |Marker(key)|)
    && forall k: nat :: o <= k ==> !OccursAt(s, Marker(key), k)
  }

  ghost predicate TextAt(s: string, o: nat, v: string) {
    && Plain(v)
    && o + |v| + 1 < |s|
    && s[o] == '"' && s[o + 1..o + 1 + |v|] == v && s[o + 1 + |v|] == '"'
  }

  /** A run of digits from o that nothing extends. */
  ghost predicate DigitsAt(s: string, o: nat, v: string) {
    && CanonicalDigits(v)
    && o + |v| <= |s| && s[o..o + |v|] == v
    && (o + |v| < |s| ==> !IsDigit(s[o + |v|]))
  }

  ghost predicate HoldsText(s: string, key: string, v: string) {
    exists o: nat :: ValueAt(s, key, o) && TextAt(s, o, v)
  }

  ghost predicate HoldsSize(s: string, key: string, n: nat) {
    n < SIZE_LIMIT && exists o: nat :: ValueAt(s, key, o) && DigitsAt(s, o, Decimal(n))
  }

  lemma ValueAtIsUnique(s: string, key: string, o: nat, p: nat)
    requires ValueAt(s, key, o) && ValueAt(s, key, p)
    ensures o == p
  {
  }

  lemma TextAtIsUnique(s: string, o: nat, v: string, w: string)
    requires TextAt(s, o, v) && TextAt(s, o, w)
    ensures v == w
  {
    var t := s[o + 1..];
    assert t[..|v|] == v && t[..|w|] == w;
    SameUpToQuote(v, w, t);
  }

  lemma HoldsTextIsUnique(s: string, key: string, v: string, w: string)
    requires HoldsText(s, key, v) && HoldsText(s, key, w)
    ensures v == w
  {
    var o: nat :| ValueAt(s, key, o) && TextAt(s, o, v);
    var p: nat :| ValueAt(s, key, p) && TextAt(s, p, w);
    ValueAtIsUnique(s, key, o, p);
    TextAtIsUnique(s, o, v, w);
  }

  lemma DigitsAtIsUnique(s: string, o: nat, v: string, w: string)
    requires DigitsAt(s, o, v) && DigitsAt(s, o, w)
    ensures v == w
  {
    assert forall k :: 0 <= k < |v| ==> s[o + k] == v[k] && IsDigit(v[k]);
    assert forall k :: 0 <= k < |w| ==> s[o + k] == w[k] && IsDigit(w[k]);
  }

  lemma DecimalIsCanonical(n: nat)
    ensures CanonicalDigits(Decimal(n))
  {
    NumberOfDecimal(n);
  }

  /** Canonical digits are what printing their number gives. */
  lemma {:induction false} DecimalOfNumber(s: string)
    requires CanonicalDigits(s)
    ensures Decimal(NumberOf(s)) == s
  {
    var head, d := s[..|s| - 1], DigitValue(s[|s| - 1]);
    if head == [] {
      assert NumberOf(head) == 0;
      assert s == [DigitChar(d)];
    } else {
      DecimalOfNumber(head);
      if NumberOf(head) < 10 {
        assert head == [DigitChar(NumberOf(head))];
      }
      assert s == head + [DigitChar(d)];
    }
  }

  lemma HoldsSizeIsUnique(s: string, key: string, n: nat, m: nat)
    requires HoldsSize(s, key, n) && HoldsSize(s, key, m)
    ensures n == m
  {
    var o: nat :| ValueAt(s, key, o) && DigitsAt(s, o, Decimal(n));
    var p: nat :| ValueAt(s, key, p) && DigitsAt(s, p, Decimal(m));
    ValueAtIsUnique(s, key, o, p);
    DigitsAtIsUnique(s, o, Decimal(n), Decimal(m));
    NumberOfDecimal(n);
    NumberOfDecimal(m);
  }

  // --- Strict parsers ---

  method Find(s: string, m: string, from: nat) returns (at: Option<nat>)
    requires from <= |s|
    ensures at.Some? ==> FirstAt(s, m, from, at.value)
    ensures at.None? ==> forall k: nat :: from <= k ==> !OccursAt(s, m, k)
  {
    var i := from;
    while i + |m| <= |s|
      invariant from <= i
      invariant forall k: nat :: from <= k < i ==> !OccursAt(s, m, k)
      decreases |s| - i
    {
      if s[i..i + |m|] == m {
        assert OccursAt(s, m, i);
        return Some(i);
      }
      i := i + 1;
    }
    return None;
  }

  method UniqueValueOffset(payload: string, key: string) returns (offset: Option<nat>)
    ensures offset.Some? ==> ValueAt(payload, key, offset.value) && offset.value <= |payload|
    ensures offset.None? ==> forall o: nat :: !ValueAt(payload, key, o)
  {
    var marker := Marker(key);
    var found := Find(payload, marker, 0);
    if found.None? {
      return None;
    }
    var again := Find(payload, marker, found.value + |marker|);
    if again.Some? {
      return None;
    }
    return Some(found.value + |marker|);
  }

  method CanonicalStringValue(payload: string, key: string) returns (value: Option<string>)
    ensures value.Some? ==> HoldsText(payload, key, value.value)
    ensures value.None? ==> forall v: string :: !HoldsText(payload, key, v)
  {
    var offset := UniqueValueOffset(payload, key);
    if offset.None? {
      return None;
    }
    var o := offset.value;
    assert forall v: string :: HoldsText(payload, key, v) ==> TextAt(payload, o, v);
    if o >= |payload| || payload[o] != '"' {
      return None;
    }
    var begin := o + 1;
    var cursor := begin;
    while cursor < |payload| && payload[cursor] != '"'
      invariant begin <= cursor <= |payload|
      invariant forall k :: begin <= k < cursor ==> PlainChar(payload[k])
    {
      if payload[cursor] < ' ' || payload[cursor] == '\\' {
        StopsHere(payload, o, cursor);
        return None;
      }
      cursor := cursor + 1;
    }
    if cursor >= |payload| {
      StopsHere(payload, o, cursor);
      return None;
    }
    assert TextAt(payload, o, payload[begin..cursor]);
    return Some(payload[begin..cursor]);
  }

  lemma TextIsPlain(s: string, o: nat, v: string)
    ensures TextAt(s, o, v) ==> forall k :: o < k <= o + |v| ==> PlainChar(s[k])
  {
    if TextAt(s, o, v) {
      assert forall k :: o < k <= o + |v| ==> s[k] == s[o + 1..o + 1 + |v|][k - o - 1];
    }
  }

  /** A text value cannot reach over a character that is neither plain nor a quote. */
  lemma StopsHere(s: string, o: nat, cursor: nat)
    requires o < cursor <= |s|
    requires forall k :: o < k < cursor ==> s[k] != '"'
    requires cursor < |s| ==> s[cursor] != '"' && !PlainChar(s[cursor])
    ensures forall v: string :: !TextAt(s, o, v)
  {
    forall v: string ensures !TextAt(s, o, v) {
      TextIsPlain(s, o, v);
    }
  }

  method CanonicalSizeValue(payload: string, key: string) returns (value: Option<nat>)
    ensures value.Some? ==> HoldsSize(payload, key, value.value)
    ensures value.None? ==> forall n: nat :: !HoldsSize(payload, key, n)
  {
    hide ValueAt, NumberOf;
    var offset := UniqueValueOffset(payload, key);
    if offset.None? {
      return None;
    }
    var begin := offset.value;
    var end := begin;
    while end < |payload| && IsDigit(payload[end])
      invariant begin <= end <= |payload|
      invariant forall k :: begin <= k < end ==> IsDigit(payload[k])
    {
      end := end + 1;
    }
    SizeIsDigitRun(payload, key, begin, end);
    if end == begin || (end - begin > 1 && payload[begin] == '0') {
      return None;
    }
    var number := NumberOf(payload[begin..end]);
    if number >= SIZE_LIMIT {
      return None;
    }
    return Some(number);
  }

  /** A size field holds a number exactly when its run of digits is canonical and small enough. */
  lemma SizeIsDigitRun(s: string, key: string, begin: nat, end: nat)
    requires ValueAt(s, key, begin) && begin <= end <= |s|
    requires forall k :: begin <= k < end ==> IsDigit(s[k])
    requires end < |s| ==> !IsDigit(s[end])
    ensures forall n: nat :: HoldsSize(s, key, n) <==>
      CanonicalDigits(s[begin..end]) && n == NumberOf(s[begin..end]) && n < SIZE_LIMIT
  {
    hide ValueAt;
    var run := s[begin..end];
    SizeAt(s, begin, end);
    forall n: nat
      ensures HoldsSize(s, key, n) <==> CanonicalDigits(run) && n == NumberOf(run) && n < SIZE_LIMIT
    {
      if HoldsSize(s, key, n) {
        var o: nat :| ValueAt(s, key, o) && DigitsAt(s, o, Decimal(n));
        ValueAtIsUnique(s, key, o, begin);
      }
      if CanonicalDigits(run) && n == NumberOf(run) && n < SIZE_LIMIT {
        DecimalOfNumber(run);
        assert DigitsAt(s, begin, Decimal(n));
      }
    }
  }

  /** A number can only be read from all the digits at hand. */
  lemma SizeAt(s: string, begin: nat, end: nat)
    requires begin <= end <= |s|
    requires forall k :: begin <= k < end ==> IsDigit(s[k])
    requires end < |s| ==> !IsDigit(s[end])
    ensures forall n: nat :: DigitsAt(s, begin, Decimal(n)) ==>
      CanonicalDigits(s[begin..end]) && n == NumberOf(s[begin..end])
  {
    forall n: nat | DigitsAt(s, begin, Decimal(n))
      ensures CanonicalDigits(s[begin..end]) && n == NumberOf(s[begin..end])
    {
      var v := Decimal(n);
      assert forall k :: 0 <= k < |v| ==> s[begin + k] == v[k] && IsDigit(v[k]);
      assert s[begin..end] == v;
      NumberOfDecimal(n);
    }
  }
}
