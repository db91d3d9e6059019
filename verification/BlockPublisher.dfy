// The controller's side of the contract: safe state ids, block file names, and
// the sorted, escaped JSON it publishes.

module BlockPublisher {
  import opened Options
  import opened ContractText
  import opened ContractParse
  import opened ContractFields
  import opened Contract

  // --- State ids ---

  predicate SafeChar(c: char) {
    'a' <= c <= 'z' || 'A' <= c <= 'Z' || '0' <= c <= '9' || c == '.' || c == '_' || c == '-'
  }

  predicate SafeStateId(id: string) {
    1 <= |id| <= 128 && forall i :: 0 <= i < |id| ==> SafeChar(id[i])
  }

  method ValidateStateId(id: string) returns (ok: bool)
    ensures ok <==> SafeStateId(id)
    ensures ok <==> 1 <= |id| <= 128 && forall c :: c in id ==>
      'a' <= c <= 'z' || 'A' <= c <= 'Z' || '0' <= c <= '9' || c == '.' || c == '_' || c == '-'
  {
    assert forall i :: 0 <= i < |id| ==> id[i] in id;
    if |id| == 0 || |id| > 128 {
      return false;
    }
    for i := 0 to |id|
      invariant forall k :: 0 <= k < i ==> SafeChar(id[k])
    {
      if !SafeChar(id[i]) {
        return false;
      }
    }
    return true;
  }

  // --- File names ---

  const MAX_BLOCK: nat := 9999

  /** The block number in at least two digits. */
  function PaddedBlock(block: nat): string {
    if block < 10 then "0" + Decimal(block) else Decimal(block)
  }

  datatype Kind = AckName | ReleaseName | ReadyName

  function Suffix(kind: Kind): string {
    match kind
    case AckName => ".json"
    case ReleaseName => ".release.json"
    case ReadyName => ".release.ready.json"
  }

  function FileName(block: nat, kind: Kind): string {
    "block_" + PaddedBlock(block) + Suffix(kind)
  }

  lemma PaddedIsDigits(block: nat)
    ensures forall i :: 0 <= i < |PaddedBlock(block)| ==> IsDigit(PaddedBlock(block)[i])
    ensures NumberOf(PaddedBlock(block)) == block
  {
    NumberOfDecimal(block);
    if block < 10 {
      var s := PaddedBlock(block);
      assert s == ['0', DigitChar(block)];
      assert s[..1] == ['0'] && s[..1][..0] == [];
      assert NumberOf(s[..1]) == 0;
    }
  }

  lemma SplitAtDot(p: string, q: string, u: string, v: string)
    requires forall i :: 0 <= i < |p| ==> IsDigit(p[i])
    requires forall i :: 0 <= i < |q| ==> IsDigit(q[i])
    requires u != [] && u[0] == '.' && v != [] && v[0] == '.'
    requires p + u == q + v
    ensures p == q && u == v
  {
    var t := p + u;
    assert t[|p|] == '.' && t[|q|] == '.';
    assert forall k :: 0 <= k < |p| ==> t[k] == p[k];
    assert forall k :: 0 <= k < |q| ==> t[k] == q[k];
    assert t[..|p|] == p && t[..|q|] == q && t[|p|..] == u && t[|q|..] == v;
  }

  lemma SuffixIsDistinct(x: Kind, y: Kind)
    ensures Suffix(x) != [] && Suffix(x)[0] == '.'
    ensures Suffix(x) == Suffix(y) ==> x == y
  {
    assert |Suffix(x)| == |Suffix(y)| ==> x == y;
  }

  /** No two blocks, and no two kinds of file of a block, share a name. */
  lemma FileNamesAreDistinct(a: nat, b: nat, x: Kind, y: Kind)
    requires FileName(a, x) == FileName(b, y)
    ensures a == b && x == y
  {
    hide PaddedBlock, Suffix, NumberOf, IsDigit;
    PaddedIsDigits(a);
    PaddedIsDigits(b);
    SuffixIsDistinct(x, y);
    SuffixIsDistinct(y, x);
    assert FileName(a, x)[6..] == PaddedBlock(a) + Suffix(x);
    assert FileName(b, y)[6..] == PaddedBlock(b) + Suffix(y);
    SplitAtDot(PaddedBlock(a), PaddedBlock(b), Suffix(x), Suffix(y));
  }

  // --- JSON with sorted keys and ASCII escapes ---

  /** a stands before b in dictionary order. */
  predicate Before(a: string, b: string) {
    if b == [] then false
    else if a == [] then true
    else a[0] < b[0] || (a[0] == b[0] && Before(a[1..], b[1..]))
  }

  function InsertField(f: Field, sorted: seq<Field>): seq<Field> {
    if sorted == [] || Before(f.key, sorted[0].key) then [f] + sorted
    else [sorted[0]] + InsertField(f, sorted[1..])
  }

  function SortFields(fields: seq<Field>): seq<Field> {
    if fields == [] then [] else InsertField(fields[0], SortFields(fields[1..]))
  }

  function HexChar(d: nat): char
    requires d < 16
  {
    if d < 10 then '0' + d as char else 'a' + (d - 10) as char
  }

  function Unit16(n: nat): string
    requires n < 0x1_0000
  {
    "\\u" + [HexChar(n / 4096), HexChar(n / 256 % 16), HexChar(n / 16 % 16), HexChar(n % 16)]
  }

  function EscapeChar(c: char): string {
    if c == '"' then "\\\""
    else if c == '\\' then "\\\\"
    else if ' ' <= c <= '~' then [c]
    else if c == '\n' then "\\n"
    else if c == '\r' then "\\r"
    else if c == '\t' then "\\t"
    else if c as int == 8 then "\\b"
    else if c as int == 12 then "\\f"
    else if c as int < 0x1_0000 then Unit16(c as int)
    else Unit16(0xd800 + (c as int - 0x1_0000) / 1024 % 1024) + Unit16(0xdc00 + (c as int - 0x1_0000) % 1024)
  }

  function Escape(s: string): string {
    if s == [] then [] else EscapeChar(s[0]) + Escape(s[1..])
  }

  predicate PrintableAscii(s: string) {
    forall i :: 0 <= i < |s| ==> ' ' <= s[i] <= '~' && s[i] != '"' && s[i] != '\\'
  }

  /** Text is written as it is exactly when no character of it needs an escape. */
  lemma {:induction false} EscapeIsIdentity(s: string)
    ensures |Escape(s)| >= |s|
    ensures Escape(s) == s <==> PrintableAscii(s)
  {
    if s != [] {
      EscapeIsIdentity(s[1..]);
      assert s == [s[0]] + s[1..];
      if Escape(s) == s {
        assert |EscapeChar(s[0])| == 1;
        assert Escape(s)[1..] == Escape(s[1..]);
      }
    }
  }

  function EscapeField(f: Field): Field {
    match f
    case Size(key, n) => Size(Escape(key), n)
    case Text(key, v) => Text(Escape(key), Escape(v))
  }

  function EscapeFields(fields: seq<Field>): seq<Field> {
    seq(|fields|, i requires 0 <= i < |fields| => EscapeField(fields[i]))
  }

  /** A dictionary's fields, sorted by key, escaped, on one line. */
  function JsonBytes(fields: seq<Field>): string {
    PrintObject(EscapeFields(SortFields(fields)))
  }

  /** The acknowledgement's dictionary, in the order its fields are written down. */
  function AckValue(r: AckRecord, schemas: Schemas): seq<Field> {
    [Text("schema", schemas.ack), Text("state_id", r.stateId), Size("pass", r.pass),
     Size("passes_jsonl_bytes", r.passesBytes), Size("results_jsonl_bytes", r.resultsBytes)]
  }

  function ReleaseValue(r: ReleaseRecord, schemas: Schemas): seq<Field> {
    [Text("schema", schemas.release), Text("state_id", r.stateId), Size("pass", r.pass),
      Text("ack_sha256", r.ackSha256)]
  }

  /** Keys that differ first where a's character is smaller. */
  lemma {:induction false} BeforeAt(a: string, b: string, k: nat)
    requires k < |b| && k <= |a| && a[..k] == b[..k]
    requires k < |a| ==> a[k] < b[k]
    ensures Before(a, b) && !Before(b, a)
    decreases a
  {
    if k > 0 {
      assert a[..k][0] == a[0] && b[..k][0] == b[0];
      assert a[1..][..k - 1] == a[..k][1..] && b[1..][..k - 1] == b[..k][1..];
      BeforeAt(a[1..], b[1..], k - 1);
    }
  }

  lemma KeyOrder()
    ensures Before("ack_sha256", "pass") && Before("pass", "passes_jsonl_bytes")
    ensures !Before("pass", "ack_sha256") && !Before("schema", "passes_jsonl_bytes")
    ensures !Before("schema", "ack_sha256") && !Before("state_id", "ack_sha256")
    ensures Before("passes_jsonl_bytes", "results_jsonl_bytes")
    ensures !Before("schema", "pass") && !Before("schema", "results_jsonl_bytes") && Before("schema", "state_id")
    ensures !Before("state_id", "pass") && !Before("state_id", "passes_jsonl_bytes")
    ensures !Before("state_id", "results_jsonl_bytes")
  {
    BeforeAt("ack_sha256", "pass", 0);
    BeforeAt("pass", "passes_jsonl_bytes", 4);
    BeforeAt("passes_jsonl_bytes", "results_jsonl_bytes", 0);
    BeforeAt("passes_jsonl_bytes", "schema", 0);
    BeforeAt("pass", "schema", 0);
    BeforeAt("results_jsonl_bytes", "schema", 0);
    BeforeAt("schema", "state_id", 1);
    BeforeAt("pass", "state_id", 0);
    BeforeAt("passes_jsonl_bytes", "state_id", 0);
    BeforeAt("results_jsonl_bytes", "state_id", 0);
    BeforeAt("ack_sha256", "schema", 0);
    BeforeAt("ack_sha256", "state_id", 0);
  }

  /** Inserting behind every smaller key appends. */
  lemma {:induction false} InsertAtEnd(f: Field, fields: seq<Field>)
    requires forall i :: 0 <= i < |fields| ==> !Before(f.key, fields[i].key)
    ensures InsertField(f, fields) == fields + [f]
  {
    if fields != [] {
      InsertAtEnd(f, fields[1..]);
      assert fields == [fields[0]] + fields[1..];
    }
  }

  lemma AckSorts(r: AckRecord, schemas: Schemas)
    ensures SortFields(AckValue(r, schemas)) == AckFields(r, schemas)
  {
    hide Before;
    KeyOrder();
    var f, v := AckFields(r, schemas), AckValue(r, schemas);
    assert v[1..][1..][1..][1..] == [f[2]];
    assert SortFields([f[2]]) == [f[2]];
    assert v[1..][1..][1..] == [f[1], f[2]];
    assert SortFields(v[1..][1..][1..]) == [f[1], f[2]];
    assert SortFields(v[1..][1..]) == [f[0], f[1], f[2]];
    InsertAtEnd(f[4], [f[0], f[1], f[2]]);
    assert SortFields(v[1..]) == [f[0], f[1], f[2], f[4]];
    var tail := [f[0], f[1], f[2], f[4]];
    assert tail[1..] == [f[1], f[2], f[4]] && tail[1..][1..] == [f[2], f[4]] && tail[1..][1..][1..] == [f[4]];
    assert InsertField(f[3], [f[4]]) == [f[3], f[4]];
    assert InsertField(f[3], [f[2], f[4]]) == [f[2], f[3], f[4]];
    assert InsertField(f[3], [f[1], f[2], f[4]]) == [f[1], f[2], f[3], f[4]];
    assert InsertField(f[3], tail) == [f[0], f[1], f[2], f[3], f[4]];
  }

  lemma ReleaseSorts(r: ReleaseRecord, schemas: Schemas)
    ensures SortFields(ReleaseValue(r, schemas)) == ReleaseFields(r, schemas)
  {
    hide Before;
    KeyOrder();
    var f, v := ReleaseFields(r, schemas), ReleaseValue(r, schemas);
    assert v[1..][1..][1..] == [f[0]];
    assert SortFields([f[0]]) == [f[0]];
    assert v[1..][1..] == [f[1], f[0]];
    InsertAtEnd(f[1], [f[0]]);
    assert SortFields(v[1..][1..]) == [f[0], f[1]];
    InsertAtEnd(f[3], [f[0], f[1]]);
    assert SortFields(v[1..]) == [f[0], f[1], f[3]];
    var tail := [f[0], f[1], f[3]];
    assert tail[1..] == [f[1], f[3]] && tail[1..][1..] == [f[3]];
    assert InsertField(f[2], [f[3]]) == [f[2], f[3]];
    assert InsertField(f[2], [f[1], f[3]]) == [f[1], f[2], f[3]];
    assert InsertField(f[2], tail) == [f[0], f[1], f[2], f[3]];
  }

  lemma EscapeKeepsFields(fields: seq<Field>)
    requires forall i :: 0 <= i < |fields| ==> PrintableAscii(fields[i].key)
    requires forall i :: 0 <= i < |fields| && fields[i].Text? ==> PrintableAscii(fields[i].v)
    ensures EscapeFields(fields) == fields
  {
    forall i | 0 <= i < |fields| ensures EscapeField(fields[i]) == fields[i] {
      EscapeIsIdentity(fields[i].key);
      if fields[i].Text? {
        EscapeIsIdentity(fields[i].v);
      }
    }
  }

  /** The schema identifiers and a validated state id need no escapes. */
  lemma SafeIdIsPlain(id: string)
    requires SafeStateId(id)
    ensures PrintableAscii(id) && Plain(id)
  {
    assert forall i :: 0 <= i < |id| ==> SafeChar(id[i]);
  }

  /** What the controller publishes for a safe state id is the canonical acknowledgement. */
  lemma PublishedAckIsCanonical(r: AckRecord, schemas: Schemas)
    requires PrintableAscii(r.stateId) && PrintableAscii(schemas.ack)
    ensures JsonBytes(AckValue(r, schemas)) == CanonicalAck(r, schemas)
  {
    hide PrintObject, SortFields, EscapeFields;
    var f := AckFields(r, schemas);
    AckSorts(r, schemas);
    AckKeysArePrintable(r, schemas);
    hide PrintableAscii;
    EscapeKeepsFields(f);
  }

  lemma AckKeysArePrintable(r: AckRecord, schemas: Schemas)
    ensures forall i :: 0 <= i < |AckFields(r, schemas)| ==> PrintableAscii(AckFields(r, schemas)[i].key)
  {
    assert PrintableAscii("pass") && PrintableAscii("passes_jsonl_bytes") && PrintableAscii("results_jsonl_bytes");
    assert PrintableAscii("schema") && PrintableAscii("state_id");
  }

  lemma PublishedReleaseIsCanonical(r: ReleaseRecord, schemas: Schemas)
    requires PrintableAscii(r.stateId) && PrintableAscii(schemas.release) && IsDigest(r.ackSha256)
    ensures JsonBytes(ReleaseValue(r, schemas)) == CanonicalRelease(r, schemas)
  {
    hide PrintObject, SortFields, EscapeFields;
    var f := ReleaseFields(r, schemas);
    ReleaseSorts(r, schemas);
    assert forall i :: 0 <= i < 64 ==> HexDigit(r.ackSha256[i]);
    assert PrintableAscii(f[0].key) && PrintableAscii(f[1].key) && PrintableAscii(f[2].key) && PrintableAscii(f[3].key);
    EscapeKeepsFields(f);
  }

  /** The runner accepts what the controller published, and reads back the very record. */
  method AckRoundTrip(r: AckRecord, schemas: Schemas) returns (read: Option<AckRecord>)
    requires SafeStateId(r.stateId) && PrintableAscii(schemas.ack)
    requires r.pass < SIZE_LIMIT && r.passesBytes < SIZE_LIMIT && r.resultsBytes < SIZE_LIMIT
    ensures read == Some(r)
  {
    SafeIdIsPlain(r.stateId);
    PublishedAckIsCanonical(r, schemas);
    read := ValidateAck(JsonBytes(AckValue(r, schemas)), r.stateId, r.pass, schemas);
    assert AckFits(r, r.stateId, r.pass, schemas);
  }

  method ReleaseRoundTrip(r: ReleaseRecord, schemas: Schemas) returns (read: Option<ReleaseRecord>)
    requires SafeStateId(r.stateId) && PrintableAscii(schemas.release)
    requires r.pass < SIZE_LIMIT && IsDigest(r.ackSha256)
    ensures read == Some(r)
  {
    SafeIdIsPlain(r.stateId);
    PublishedReleaseIsCanonical(r, schemas);
    read := ValidateRelease(JsonBytes(ReleaseValue(r, schemas)), r.stateId, r.pass, schemas);
    assert ReleaseFits(r, r.stateId, r.pass, schemas);
  }
}
