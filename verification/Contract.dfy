// The canonical acknowledgement and release records that authorize the next
// block: their printers and the strict validators.

module Contract {
  import opened Options
  import opened ContractText
  import opened ContractParse
  import opened ContractFields

  datatype AckRecord = AckRecord(pass: nat, passesBytes: nat, resultsBytes: nat, stateId: string)

  datatype ReleaseRecord = ReleaseRecord(ackSha256: string, pass: nat, stateId: string)

  /** Schema names chosen by the user of the contract. */
  datatype Schemas = Schemas(ack: string, release: string)

  // --- Printers: one line, fields in this order ---

  function AckFields(r: AckRecord, schemas: Schemas): seq<Field> {
    [Size("pass", r.pass), Size("passes_jsonl_bytes", r.passesBytes), Size("results_jsonl_bytes", r.resultsBytes),
     Text("schema", schemas.ack), Text("state_id", r.stateId)]
  }

  function CanonicalAck(r: AckRecord, schemas: Schemas): string {
    PrintObject(AckFields(r, schemas))
  }

  function ReleaseFields(r: ReleaseRecord, schemas: Schemas): seq<Field> {
    [Text("ack_sha256", r.ackSha256), Size("pass", r.pass), Text("schema", schemas.release),
      Text("state_id", r.stateId)]
  }

  function CanonicalRelease(r: ReleaseRecord, schemas: Schemas): string {
    PrintObject(ReleaseFields(r, schemas))
  }

  // --- The printed bytes, written out ---

  lemma SizeLiteral(lead: string, key: string, n: nat, rest: seq<Field>, literal: string)
    requires lead + Marker(key) == literal
    ensures PrintFrom(lead, [Size(key, n)] + rest)
         == literal + Decimal(n) + PrintFrom(if rest == [] then "" else ",", rest)
  {
    hide Decimal, Marker;
    var fields := [Size(key, n)] + rest;
    var tail := PrintFrom(Separator(fields), rest);
    assert fields[1..] == rest;
    assert lead + (Marker(key) + Decimal(n)) + tail == (lead + Marker(key)) + Decimal(n) + tail;
  }

  lemma TextLiteral(lead: string, key: string, v: string, rest: seq<Field>, literal: string)
    requires lead + Marker(key) + ['"'] == literal
    ensures PrintFrom(lead, [Text(key, v)] + rest)
         == literal + v + ['"'] + PrintFrom(if rest == [] then "" else ",", rest)
  {
    hide Decimal, Marker;
    var fields := [Text(key, v)] + rest;
    var tail := PrintFrom(Separator(fields), rest);
    assert fields[1..] == rest;
    assert lead + (Marker(key) + ['"'] + v + ['"']) + tail == (lead + Marker(key) + ['"']) + v + ['"'] + tail;
  }

  lemma AckEnd(r: AckRecord, schemas: Schemas)
    ensures var id := ",\"state_id\":\"" + r.stateId + ['"'] + "}\n";
      PrintFrom(",", AckFields(r, schemas)[3..]) == ",\"schema\":\"" + schemas.ack + ['"'] + id
  {
    hide Decimal, PrintFrom;
    var f := AckFields(r, schemas);
    NothingLeft();
    TextLiteral(",", "state_id", r.stateId, [], ",\"state_id\":\"");
    TextLiteral(",", "schema", schemas.ack, f[4..], ",\"schema\":\"");
    assert f[4..] == [f[4]] + [] && f[3..] == [f[3]] + f[4..];
  }

  lemma AckResults(r: AckRecord, schemas: Schemas)
    ensures PrintFrom(",", AckFields(r, schemas)[2..])
         == ",\"results_jsonl_bytes\":" + Decimal(r.resultsBytes) + PrintFrom(",", AckFields(r, schemas)[3..])
  {
    hide Decimal, PrintFrom;
    var f := AckFields(r, schemas);
    assert f[2..] == [f[2]] + f[3..];
    SizeLiteral(",", "results_jsonl_bytes", r.resultsBytes, f[3..], ",\"results_jsonl_bytes\":");
  }

  lemma AckPasses(r: AckRecord, schemas: Schemas)
    ensures PrintFrom(",", AckFields(r, schemas)[1..])
         == ",\"passes_jsonl_bytes\":" + Decimal(r.passesBytes) + PrintFrom(",", AckFields(r, schemas)[2..])
  {
    hide Decimal, PrintFrom;
    var f := AckFields(r, schemas);
    assert f[1..] == [f[1]] + f[2..];
    SizeLiteral(",", "passes_jsonl_bytes", r.passesBytes, f[2..], ",\"passes_jsonl_bytes\":");
  }

  /** The acknowledgement as one literal line. */
  lemma AckBytes(r: AckRecord, schemas: Schemas)
    ensures var id := ",\"state_id\":\"" + r.stateId + ['"'] + "}\n";
      var schema := ",\"schema\":\"" + schemas.ack + ['"'] + id;
      var results := ",\"results_jsonl_bytes\":" + Decimal(r.resultsBytes) + schema;
      var passes := ",\"passes_jsonl_bytes\":" + Decimal(r.passesBytes) + results;
      CanonicalAck(r, schemas) == "{\"pass\":" + Decimal(r.pass) + passes
  {
    hide Decimal, PrintFrom;
    var f := AckFields(r, schemas);
    AckEnd(r, schemas);
    AckResults(r, schemas);
    AckPasses(r, schemas);
    SizeLiteral("{", "pass", r.pass, f[1..], "{\"pass\":");
    assert f == [f[0]] + f[1..];
  }

  lemma NothingLeft()
    ensures PrintFrom("", []) == "}\n"
  {
  }

  lemma ReleaseEnd(r: ReleaseRecord, schemas: Schemas)
    ensures var id := ",\"state_id\":\"" + r.stateId + ['"'] + "}\n";
      PrintFrom(",", ReleaseFields(r, schemas)[2..]) == ",\"schema\":\"" + schemas.release + ['"'] + id
  {
    hide Decimal, PrintFrom;
    var f := ReleaseFields(r, schemas);
    NothingLeft();
    TextLiteral(",", "state_id", r.stateId, [], ",\"state_id\":\"");
    TextLiteral(",", "schema", schemas.release, f[3..], ",\"schema\":\"");
    assert f[3..] == [f[3]] + [] && f[2..] == [f[2]] + f[3..];
  }

  /** The release as one literal line. */
  lemma ReleaseBytes(r: ReleaseRecord, schemas: Schemas)
    ensures var id := ",\"state_id\":\"" + r.stateId + ['"'] + "}\n";
      var schema := ",\"schema\":\"" + schemas.release + ['"'] + id;
      var pass := ",\"pass\":" + Decimal(r.pass) + schema;
      CanonicalRelease(r, schemas) == "{\"ack_sha256\":\"" + r.ackSha256 + ['"'] + pass
  {
    hide Decimal, PrintFrom;
    var f := ReleaseFields(r, schemas);
    ReleaseEnd(r, schemas);
    SizeLiteral(",", "pass", r.pass, f[2..], ",\"pass\":");
    TextLiteral("{", "ack_sha256", r.ackSha256, f[1..], "{\"ack_sha256\":\"");
    assert f[1..] == [f[1]] + f[2..] && f == [f[0]] + f[1..];
  }

  // --- Validators ---

  /** A record the acknowledgement of this state and pass can carry. */
  ghost predicate AckFits(r: AckRecord, stateId: string, pass: nat, schemas: Schemas) {
    && r.stateId == stateId && r.pass == pass
    && r.pass < SIZE_LIMIT && r.passesBytes < SIZE_LIMIT && r.resultsBytes < SIZE_LIMIT
    && Plain(stateId) && Plain(schemas.ack)
  }

  predicate HexDigit(c: char) {
    '0' <= c <= '9' || 'a' <= c <= 'f'
  }

  predicate IsDigest(s: string) {
    |s| == 64 && forall i :: 0 <= i < |s| ==> HexDigit(s[i])
  }

  ghost predicate ReleaseFits(r: ReleaseRecord, stateId: string, pass: nat, schemas: Schemas) {
    && r.stateId == stateId && r.pass == pass && r.pass < SIZE_LIMIT
    && IsDigest(r.ackSha256)
    && Plain(stateId) && Plain(schemas.release)
  }

  /** A printed acknowledgement holds exactly its record's fields. */
  lemma AckIsRead(r: AckRecord, schemas: Schemas)
    requires AckFits(r, r.stateId, r.pass, schemas)
    ensures HoldsSize(CanonicalAck(r, schemas), "pass", r.pass)
    ensures HoldsSize(CanonicalAck(r, schemas), "passes_jsonl_bytes", r.passesBytes)
    ensures HoldsSize(CanonicalAck(r, schemas), "results_jsonl_bytes", r.resultsBytes)
    ensures HoldsText(CanonicalAck(r, schemas), "schema", schemas.ack)
    ensures HoldsText(CanonicalAck(r, schemas), "state_id", r.stateId)
  {
    hide HoldsSize, HoldsText, PrintObject;
    var fields := AckFields(r, schemas);
    assert CleanFields(fields) && DistinctKeys(fields);
    FieldIsRead(fields, 0);
    FieldIsRead(fields, 1);
    FieldIsRead(fields, 2);
    FieldIsRead(fields, 3);
    FieldIsRead(fields, 4);
  }

  lemma ReleaseIsRead(r: ReleaseRecord, schemas: Schemas)
    requires ReleaseFits(r, r.stateId, r.pass, schemas)
    ensures HoldsText(CanonicalRelease(r, schemas), "ack_sha256", r.ackSha256)
    ensures HoldsSize(CanonicalRelease(r, schemas), "pass", r.pass)
    ensures HoldsText(CanonicalRelease(r, schemas), "schema", schemas.release)
    ensures HoldsText(CanonicalRelease(r, schemas), "state_id", r.stateId)
  {
    hide HoldsSize, HoldsText, PrintObject;
    var fields := ReleaseFields(r, schemas);
    assert CleanFields(fields) && DistinctKeys(fields);
    FieldIsRead(fields, 0);
    FieldIsRead(fields, 1);
    FieldIsRead(fields, 2);
    FieldIsRead(fields, 3);
  }

  /** Whoever holds these fields is the only record the payload can print. */
  lemma OnlyThisAck(payload: string, schemas: Schemas, r: AckRecord, other: AckRecord)
    requires HoldsSize(payload, "pass", r.pass)
    requires HoldsSize(payload, "passes_jsonl_bytes", r.passesBytes)
    requires HoldsSize(payload, "results_jsonl_bytes", r.resultsBytes)
    requires HoldsText(payload, "state_id", r.stateId)
    requires AckFits(other, other.stateId, other.pass, schemas) && payload == CanonicalAck(other, schemas)
    ensures other == r
  {
    AckIsRead(other, schemas);
    HoldsSizeIsUnique(payload, "pass", r.pass, other.pass);
    HoldsSizeIsUnique(payload, "passes_jsonl_bytes", r.passesBytes, other.passesBytes);
    HoldsSizeIsUnique(payload, "results_jsonl_bytes", r.resultsBytes, other.resultsBytes);
    HoldsTextIsUnique(payload, "state_id", r.stateId, other.stateId);
  }

  lemma OnlyThisRelease(payload: string, schemas: Schemas, r: ReleaseRecord, other: ReleaseRecord)
    requires HoldsText(payload, "ack_sha256", r.ackSha256)
    requires HoldsSize(payload, "pass", r.pass)
    requires HoldsText(payload, "state_id", r.stateId)
    requires ReleaseFits(other, other.stateId, other.pass, schemas) && payload == CanonicalRelease(other, schemas)
    ensures other == r
  {
    ReleaseIsRead(other, schemas);
    HoldsTextIsUnique(payload, "ack_sha256", r.ackSha256, other.ackSha256);
    HoldsSizeIsUnique(payload, "pass", r.pass, other.pass);
    HoldsTextIsUnique(payload, "state_id", r.stateId, other.stateId);
  }

  lemma TextIsPlainHere(payload: string, key: string, v: string)
    requires HoldsText(payload, key, v)
    ensures Plain(v)
  {
  }

  lemma PlainMeans(s: string)
    ensures Plain(s) <==> forall ch :: ch in s ==> ch >= ' ' && ch != '"' && ch != '\\'
  {
    assert forall i :: 0 <= i < |s| ==> s[i] in s;
  }

  lemma DigestMeans(s: string)
    ensures IsDigest(s) <==> |s| == 64 && forall ch :: ch in s ==> '0' <= ch <= '9' || 'a' <= ch <= 'f'
  {
    assert forall i :: 0 <= i < |s| ==> s[i] in s;
  }

  /** An acknowledgement is accepted exactly when it is the printed form of a fitting record. */
  method ValidateAck(payload: string, stateId: string, pass: nat, schemas: Schemas) returns (result: Option<AckRecord>)
    ensures result.Some? ==>
      AckFits(result.value, stateId, pass, schemas) && payload == CanonicalAck(result.value, schemas)
    ensures forall r: AckRecord :: AckFits(r, stateId, pass, schemas) && payload == CanonicalAck(r, schemas) ==>
      result == Some(r)
    ensures forall r: AckRecord :: result == Some(r) <==>
      && r.stateId == stateId && r.pass == pass
      && pass < 0x1_0000_0000_0000_0000 && r.passesBytes < 0x1_0000_0000_0000_0000
      && r.resultsBytes < 0x1_0000_0000_0000_0000
      && (forall ch :: ch in stateId || ch in schemas.ack ==> ch >= ' ' && ch != '"' && ch != '\\')
      && payload == CanonicalAck(r, schemas)
  {
    hide HoldsSize, HoldsText, CanonicalAck;
    forall r: AckRecord
      ensures AckFits(r, stateId, pass, schemas) <==>
        && r.stateId == stateId && r.pass == pass
        && pass < 0x1_0000_0000_0000_0000 && r.passesBytes < 0x1_0000_0000_0000_0000
        && r.resultsBytes < 0x1_0000_0000_0000_0000
        && (forall ch :: ch in stateId || ch in schemas.ack ==> ch >= ' ' && ch != '"' && ch != '\\')
    {
      PlainMeans(stateId);
      PlainMeans(schemas.ack);
    }
    forall r: AckRecord | AckFits(r, stateId, pass, schemas) && payload == CanonicalAck(r, schemas)
      ensures HoldsSize(payload, "pass", r.pass) && HoldsSize(payload, "passes_jsonl_bytes", r.passesBytes)
      ensures HoldsSize(payload, "results_jsonl_bytes", r.resultsBytes)
      ensures HoldsText(payload, "schema", schemas.ack) && HoldsText(payload, "state_id", r.stateId)
    {
      AckIsRead(r, schemas);
    }
    var readPass := CanonicalSizeValue(payload, "pass");
    if readPass.None? { return None; }
    var passesBytes := CanonicalSizeValue(payload, "passes_jsonl_bytes");
    if passesBytes.None? { return None; }
    var resultsBytes := CanonicalSizeValue(payload, "results_jsonl_bytes");
    if resultsBytes.None? { return None; }
    var readId := CanonicalStringValue(payload, "state_id");
    if readId.None? { return None; }
    var record := AckRecord(readPass.value, passesBytes.value, resultsBytes.value, readId.value);
    var schema := CanonicalStringValue(payload, "schema");
    if schema.None? { return None; }
    forall r: AckRecord | AckFits(r, stateId, pass, schemas) && payload == CanonicalAck(r, schemas)
      ensures r == record && schema.value == schemas.ack
    {
      OnlyThisAck(payload, schemas, record, r);
      HoldsTextIsUnique(payload, "schema", schema.value, schemas.ack);
    }
    if schema.value != schemas.ack || record.stateId != stateId || record.pass != pass {
      return None;
    }
    if payload != CanonicalAck(record, schemas) {
      return None;
    }
    TextIsPlainHere(payload, "state_id", stateId);
    TextIsPlainHere(payload, "schema", schemas.ack);
    SizeIsSmall(payload, "pass", record.pass);
    SizeIsSmall(payload, "passes_jsonl_bytes", record.passesBytes);
    SizeIsSmall(payload, "results_jsonl_bytes", record.resultsBytes);
    return Some(record);
  }

  lemma SizeIsSmall(payload: string, key: string, n: nat)
    requires HoldsSize(payload, key, n)
    ensures n < SIZE_LIMIT
  {
  }

  method LowerHex64(s: string) returns (ok: bool)
    ensures ok <==> IsDigest(s)
  {
    if |s| != 64 {
      return false;
    }
    for i := 0 to |s|
      invariant forall k :: 0 <= k < i ==> HexDigit(s[k])
    {
      if !HexDigit(s[i]) {
        return false;
      }
    }
    return true;
  }

  /** A release is accepted exactly when it is the printed form of a fitting record. */
  method ValidateRelease(payload: string, stateId: string, pass: nat, schemas: Schemas)
    returns (result: Option<ReleaseRecord>)
    ensures result.Some? ==> ReleaseFits(result.value, stateId, pass, schemas)
    ensures result.Some? ==> payload == CanonicalRelease(result.value, schemas)
    ensures forall r: ReleaseRecord ::
      ReleaseFits(r, stateId, pass, schemas) && payload == CanonicalRelease(r, schemas) ==> result == Some(r)
    ensures forall r: ReleaseRecord :: result == Some(r) <==>
      && r.stateId == stateId && r.pass == pass && pass < 0x1_0000_0000_0000_0000
      && |r.ackSha256| == 64 && (forall ch :: ch in r.ackSha256 ==> '0' <= ch <= '9' || 'a' <= ch <= 'f')
      && (forall ch :: ch in stateId || ch in schemas.release ==> ch >= ' ' && ch != '"' && ch != '\\')
      && payload == CanonicalRelease(r, schemas)
  {
    hide HoldsSize, HoldsText, CanonicalRelease, IsDigest;
    forall r: ReleaseRecord
      ensures ReleaseFits(r, stateId, pass, schemas) <==>
        && r.stateId == stateId && r.pass == pass && pass < 0x1_0000_0000_0000_0000
        && |r.ackSha256| == 64 && (forall ch :: ch in r.ackSha256 ==> '0' <= ch <= '9' || 'a' <= ch <= 'f')
        && (forall ch :: ch in stateId || ch in schemas.release ==> ch >= ' ' && ch != '"' && ch != '\\')
    {
      PlainMeans(stateId);
      PlainMeans(schemas.release);
      DigestMeans(r.ackSha256);
    }
    forall r: ReleaseRecord | ReleaseFits(r, stateId, pass, schemas) && payload == CanonicalRelease(r, schemas)
      ensures HoldsText(payload, "ack_sha256", r.ackSha256) && HoldsSize(payload, "pass", r.pass)
      ensures HoldsText(payload, "schema", schemas.release) && HoldsText(payload, "state_id", r.stateId)
    {
      ReleaseIsRead(r, schemas);
    }
    var digest := CanonicalStringValue(payload, "ack_sha256");
    if digest.None? { return None; }
    var readPass := CanonicalSizeValue(payload, "pass");
    if readPass.None? { return None; }
    var readId := CanonicalStringValue(payload, "state_id");
    if readId.None? { return None; }
    var record := ReleaseRecord(digest.value, readPass.value, readId.value);
    var schema := CanonicalStringValue(payload, "schema");
    if schema.None? { return None; }
    forall r: ReleaseRecord | ReleaseFits(r, stateId, pass, schemas) && payload == CanonicalRelease(r, schemas)
      ensures r == record && schema.value == schemas.release
    {
      OnlyThisRelease(payload, schemas, record, r);
      HoldsTextIsUnique(payload, "schema", schema.value, schemas.release);
    }
    if schema.value != schemas.release || record.stateId != stateId || record.pass != pass {
      return None;
    }
    var hex := LowerHex64(record.ackSha256);
    if !hex {
      return None;
    }
    if payload != CanonicalRelease(record, schemas) {
      return None;
    }
    TextIsPlainHere(payload, "state_id", stateId);
    TextIsPlainHere(payload, "schema", schemas.release);
    SizeIsSmall(payload, "pass", record.pass);
    return Some(record);
  }
}
