/** Records as a store adapter hands them over, and their verification under a policy. */
module Adapter {
  import opened Common
  import opened Utf
  import opened JsonText
  import opened VectorHash
  import opened Attestation
  import V = Verifier

  // ---- the stored pin field ----

  /** What a store can hold in the pin field. */
  datatype RawField = Absent | TextField(text: Text) | DictField(members: map<Text, Json>) | OtherField

  /** `pin` and `parse_error` of a record: no pin field, a parsed pin, or a field that failed to parse. */
  datatype PinField = Unpinned | Pinned(pin: Pin) | Malformed

  /** What `str.strip` removes. */
  predicate IsBlankChar(c: int) {
    0x09 <= c <= 0x0D || 0x1C <= c <= 0x20 || c == 0x85 || c == 0xA0 || c == 0x1680 || 0x2000 <= c <= 0x200A
    || c == 0x2028 || c == 0x2029 || c == 0x202F || c == 0x205F || c == 0x3000
  }

  predicate IsBlank(t: Text) {
    forall i :: 0 <= i < |t| ==> IsBlankChar(t[i])
  }

  /** `json.loads`, for which any parser may stand. */
  type Loader = Text -> Option<Json>

  /** `Pin.from_json`: the byte cap on the raw text, then the dict parser. */
  function PinFromJson(nfc: Normalizer, loads: Loader, s: Text, acceptV1: bool): Option<Pin> {
    if !SurrogateFree(s) || |Utf8Raw(s)| > MAX_PIN_JSON_BYTES then None
    else
      match loads(s)
      case None => None
      case Some(d) => FromDict(nfc, d, acceptV1)
  }

  function FieldOf(p: Option<Pin>): PinField {
    if p.Some? then Pinned(p.value) else Malformed
  }

  /** `parse_pin_field`: an empty field is malformed, not unpinned. */
  function ParsePinField(nfc: Normalizer, loads: Loader, raw: RawField): PinField {
    match raw
    case Absent => Unpinned
    case TextField(t) => if IsBlank(t) then Malformed else FieldOf(PinFromJson(nfc, loads, t, false))
    case DictField(ms) => if ms == map[] then Malformed else FieldOf(FromDict(nfc, Obj(ms), false))
    case OtherField => Malformed
  }

  /** A record is unpinned exactly when the field is absent, and a pinned one went through the strict
      dict parser. */
  lemma ParsedField(nfc: Normalizer, loads: Loader, raw: RawField)
    ensures ParsePinField(nfc, loads, raw).Unpinned? <==> raw.Absent?
    ensures (raw.TextField? && IsBlank(raw.text)) || raw == DictField(map[])
            ==> ParsePinField(nfc, loads, raw).Malformed?
    ensures var f := ParsePinField(nfc, loads, raw);
            f.Pinned? ==> exists d: Json :: FromDict(nfc, d, false) == Some(f.pin)
  {
    var f := ParsePinField(nfc, loads, raw);
    if f.Pinned? {
      var d := if raw.TextField? then loads(raw.text).value else Obj(raw.members);
      assert FromDict(nfc, d, false) == Some(f.pin);
    }
  }

  /** The text of a pin field: not blank, within the cap in UTF-8. */
  predicate IsCandidate(t: Text) {
    (exists i :: 0 <= i < |t| && !IsBlankChar(t[i])) && SurrogateFree(t) && |Utf8Raw(t)| <= 65536
  }

  /** Which texts give which pin: the candidates that load as a dict the strict parser takes. */
  lemma ParsedTextIff(nfc: Normalizer, loads: Loader, t: Text, pin: Pin)
    ensures ParsePinField(nfc, loads, TextField(t)) == Pinned(pin) <==>
            IsCandidate(t) && loads(t).Some? && FromDict(nfc, loads(t).value, false) == Some(pin)
  {
    TextFieldIs(nfc, loads, t);
    FieldIs(PinFromJson(nfc, loads, t, false), pin);
    TextLoads(nfc, loads, t, pin);
  }

  lemma FieldIs(p: Option<Pin>, pin: Pin)
    ensures FieldOf(p) == Pinned(pin) <==> p == Some(pin)
  {
  }

  lemma TextFieldIs(nfc: Normalizer, loads: Loader, t: Text)
    ensures ParsePinField(nfc, loads, TextField(t))
         == if IsBlank(t) then Malformed else FieldOf(PinFromJson(nfc, loads, t, false))
  {
  }

  lemma TextLoads(nfc: Normalizer, loads: Loader, t: Text, pin: Pin)
    ensures PinFromJson(nfc, loads, t, false) == Some(pin) <==>
            && SurrogateFree(t) && |Utf8Raw(t)| <= 65536
            && loads(t).Some? && FromDict(nfc, loads(t).value, false) == Some(pin)
  {
  }

  /** A pin stored as the dict it prints parses back whenever the dict parser takes it. */
  lemma StoredDictParses(nfc: Normalizer, loads: Loader, d: Json, pin: Pin)
    requires d.Obj? && d.members != map[] && FromDict(nfc, d, false) == Some(pin)
    ensures ParsePinField(nfc, loads, DictField(d.members)) == Pinned(pin)
  {
    ParsedDictField(nfc, loads, d.members);
  }

  lemma ParsedDictField(nfc: Normalizer, loads: Loader, ms: map<Text, Json>)
    requires ms != map[]
    ensures ParsePinField(nfc, loads, DictField(ms)) == FieldOf(FromDict(nfc, Obj(ms), false))
  {
  }

  /** So does a pin stored as its text. */
  lemma StoredTextParses(nfc: Normalizer, loads: Loader, t: Text, pin: Pin)
    requires !IsBlank(t) && PinFromJson(nfc, loads, t, false) == Some(pin)
    ensures ParsePinField(nfc, loads, TextField(t)) == Pinned(pin)
  {
  }

  // ---- records ----

  datatype Record = Record(id: Text, vector: Vector, field: PinField, metadata: map<Text, Text>)

  datatype Policy = Policy(
    sourceKey: Option<Text>, allowUnpinned: bool, enforceRecordId: bool, model: Option<Text>,
    modelHash: Option<Text>, collectionId: Option<Text>, tenantId: Option<Text>)

  /** The keyword arguments `verify_record` builds for a pinned record. */
  function WantedFor(r: Record, policy: Policy): V.Wanted
    requires r.field.Pinned?
    requires policy.sourceKey.Some? ==> policy.sourceKey.value in r.metadata
  {
    V.Wanted(
      if policy.sourceKey.Some? then Some(r.metadata[policy.sourceKey.value]) else None,
      Some(r.vector), policy.model, policy.modelHash,
      if policy.enforceRecordId && V.RecordIdKey() in r.field.pin.header.extra then Some(r.id) else None,
      policy.collectionId, policy.tenantId, None)
  }

  /** `verify_record`. */
  function VerifyRecord(env: V.Env, keys: V.Registry, legacy: bool, r: Record, policy: Policy): V.Verdict {
    match r.field
    case Malformed => V.Rejected(V.ParseError)
    case Unpinned => if policy.allowUnpinned then V.Accepted else V.Rejected(V.ParseError)
    case Pinned(pin) =>
      if policy.sourceKey.Some? && policy.sourceKey.value !in r.metadata then V.Rejected(V.SourceMismatch)
      else V.VerifyWith(env, keys, legacy, pin, WantedFor(r, policy))
  }

  /** `kwargs` filled step by step, as the source does. */
  method VerifyRecordStepwise(env: V.Env, verifier: V.Verifier, r: Record, policy: Policy) returns (verdict: V.Verdict)
    ensures verdict == VerifyRecord(env, verifier.keys, verifier.legacy, r, policy)
  {
    if r.field.Malformed? {
      return V.Rejected(V.ParseError);
    }
    if r.field.Unpinned? {
      return if policy.allowUnpinned then V.Accepted else V.Rejected(V.ParseError);
    }
    var want := V.Wanted(None, Some(r.vector), None, None, None, None, None, None);
    if policy.sourceKey.Some? {
      if policy.sourceKey.value !in r.metadata {
        return V.Rejected(V.SourceMismatch);
      }
      want := want.(source := Some(r.metadata[policy.sourceKey.value]));
    }
    if policy.enforceRecordId && V.RecordIdKey() in r.field.pin.header.extra {
      want := want.(recordId := Some(r.id));
    }
    if policy.model.Some? {
      want := want.(model := policy.model);
    }
    if policy.modelHash.Some? {
      want := want.(modelHash := policy.modelHash);
    }
    if policy.collectionId.Some? {
      want := want.(collectionId := policy.collectionId);
    }
    if policy.tenantId.Some? {
      want := want.(tenantId := policy.tenantId);
    }
    return verifier.Verify(env, r.field.pin, want);
  }

  /** What the policy asks of a pinned record besides its vector: the source under the source key, the model,
      the collection and the tenant, and a bound record id that is the record's own. */
  predicate PolicyHolds(env: V.Env, h: PinHeader, r: Record, policy: Policy) {
    && (policy.sourceKey.Some? ==>
          policy.sourceKey.value in r.metadata && V.SourceMatches(env, h, r.metadata[policy.sourceKey.value]))
    && (policy.model.Some? ==> h.model == policy.model.value)
    && (policy.modelHash.Some? ==> h.modelHash == policy.modelHash)
    && (policy.enforceRecordId && V.RecordIdKey() in h.extra ==> h.extra[V.RecordIdKey()] == r.id)
    && V.Holds(h.extra, V.CollectionIdKey(), policy.collectionId)
    && V.Holds(h.extra, V.TenantIdKey(), policy.tenantId)
  }

  /** A pinned record is accepted exactly when its pin is authentic at its own `ts`, its stored vector matches
      the header and the policy holds. */
  lemma AcceptedRecord(env: V.Env, keys: V.Registry, legacy: bool, r: Record, policy: Policy)
    requires r.field.Pinned?
    ensures VerifyRecord(env, keys, legacy, r, policy) == V.Accepted <==>
            && V.Authentic(env, keys, legacy, r.field.pin, None)
            && V.VectorMatches(env, r.field.pin.header, r.vector)
            && PolicyHolds(env, r.field.pin.header, r, policy)
  {
    if policy.sourceKey.Some? ==> policy.sourceKey.value in r.metadata {
      V.AcceptedMeans(env, keys, legacy, r.field.pin, WantedFor(r, policy));
    }
  }
}
