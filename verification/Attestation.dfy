/** Pins as the Python reference reads, prints and canonicalizes them. */
module Attestation {
  import opened Common
  import opened Utf
  import opened JsonText
  import opened Hashing
  import Base64Url
  import Timestamps

  // ---- field names ----

  /** The top-level keys a pin may have. */
  datatype Field =
    Version | Kid | Model | ModelHash | SourceHash | VecHash | VecDtype | VecDim | Ts | Extra | Sig

  function Name(f: Field): (t: Text)
  {
    match f
    case Version => Ascii("v")
    case Kid => Ascii("kid")
    case Model => Ascii("model")
    case ModelHash => Ascii("model_hash")
    case SourceHash => Ascii("source_hash")
    case VecHash => Ascii("vec_hash")
    case VecDtype => Ascii("vec_dtype")
    case VecDim => Ascii("vec_dim")
    case Ts => Ascii("ts")
    case Extra => Ascii("extra")
    case Sig => Ascii("sig")
  }

  /** The length and first letter of a name tell the field. */
  function NameKey(f: Field): (int, int) {
    match f
    case Version => (1, 'v' as int)
    case Kid => (3, 'k' as int)
    case Model => (5, 'm' as int)
    case ModelHash => (10, 'm' as int)
    case SourceHash => (11, 's' as int)
    case VecHash => (8, 'v' as int)
    case VecDtype => (9, 'v' as int)
    case VecDim => (7, 'v' as int)
    case Ts => (2, 't' as int)
    case Extra => (5, 'e' as int)
    case Sig => (3, 's' as int)
  }

  lemma NameKeyIs(f: Field)
    ensures |Name(f)| == NameKey(f).0 && Name(f)[0] == NameKey(f).1
  {
  }

  lemma NameInjective(f: Field, g: Field)
    requires Name(f) == Name(g)
    ensures f == g
  {
    NameKeyIs(f);
    NameKeyIs(g);
  }

  lemma NamesDistinct()
    ensures forall f: Field, g: Field :: Name(f) == Name(g) ==> f == g
  {
    forall f: Field, g: Field | Name(f) == Name(g)
      ensures f == g
    {
      NameInjective(f, g);
    }
  }

  /** The JSON object with the given fields. */
  function ObjectOf(m: map<Field, Json>): (ms: map<Text, Json>)
    ensures forall f :: f in m ==> Name(f) in ms && ms[Name(f)] == m[f]
    ensures forall k :: k in ms ==> exists f :: f in m && Name(f) == k
  {
    NamesDistinct();
    map f | f in m :: Name(f) := m[f]
  }

  predicate OnlyKnownFields(ms: map<Text, Json>) {
    forall k :: k in ms ==> exists f: Field :: Name(f) == k
  }

  function FieldsOf(ms: map<Text, Json>): (m: map<Field, Json>)
    ensures forall f: Field :: f in m <==> Name(f) in ms
    ensures forall f :: f in m ==> m[f] == ms[Name(f)]
  {
    map f: Field | Name(f) in ms :: ms[Name(f)]
  }

  lemma FieldsOfObject(m: map<Field, Json>)
    ensures FieldsOf(ObjectOf(m)) == m && OnlyKnownFields(ObjectOf(m))
  {
    NamesDistinct();
    assert forall f: Field :: f in FieldsOf(ObjectOf(m)) <==> f in m;
  }

  /** Updating a field updates its member. */
  lemma ObjectUpdated(m: map<Field, Json>, f: Field, v: Json)
    requires Name(f) !in ObjectOf(m - {f})
    ensures ObjectOf(m[f := v]) == map[Name(f) := v] + ObjectOf(m - {f})
  {
    var a, b := map[Name(f) := v] + ObjectOf(m - {f}), ObjectOf(m[f := v]);
    assert f in m[f := v];
    forall k | k in a
      ensures k in b && a[k] == b[k]
    {
      if k in ObjectOf(m - {f}) {
        UpdatedHas(m, f, v, k);
      }
    }
    forall k | k in b
      ensures k in a
    {
      UpdatedFrom(m, f, v, k);
    }
  }

  lemma UpdatedHas(m: map<Field, Json>, f: Field, v: Json, k: Text)
    requires k in ObjectOf(m - {f})
    ensures k in ObjectOf(m[f := v]) && ObjectOf(m[f := v])[k] == ObjectOf(m - {f})[k]
  {
    var g :| g in m - {f} && Name(g) == k;
    assert g in m[f := v];
  }

  lemma UpdatedFrom(m: map<Field, Json>, f: Field, v: Json, k: Text)
    requires k in ObjectOf(m[f := v])
    ensures k == Name(f) || k in ObjectOf(m - {f})
  {
    var g :| g in m[f := v] && Name(g) == k;
    assert g != f ==> g in m - {f};
  }

  // ---- headers ----

  /** `PinHeader`: everything a pin signs. */
  datatype PinHeader = PinHeader(
    v: nat, kid: Text, model: Text, sourceHash: Text, vecHash: Text, vecDtype: Text, vecDim: nat, ts: Text,
    modelHash: Option<Text>, extra: map<Text, Text>)

  datatype Pin = Pin(header: PinHeader, sig: Bytes)

  function StrMap(extra: map<Text, Text>): Json {
    Obj(map k | k in extra :: Str(extra[k]))
  }

  lemma StrMapInjective(a: map<Text, Text>, b: map<Text, Text>)
    requires StrMap(a) == StrMap(b)
    ensures a == b
  {
    var x, y := StrMap(a).members, StrMap(b).members;
    assert a.Keys == x.Keys == y.Keys == b.Keys;
    forall k | k in a
      ensures a[k] == b[k]
    {
      assert x[k] == y[k];
    }
  }

  /** Which keys `PinHeader.to_dict` writes: `model_hash` only when set, `extra` only when not empty. */
  predicate Present(h: PinHeader, f: Field) {
    match f
    case ModelHash => h.modelHash.Some?
    case Extra => h.extra != map[]
    case Sig => false
    case _ => true
  }

  function FieldValue(h: PinHeader, f: Field): Json
    requires Present(h, f)
  {
    match f
    case Version => Num(Decimal(h.v))
    case Kid => Str(h.kid)
    case Model => Str(h.model)
    case ModelHash => Str(h.modelHash.value)
    case SourceHash => Str(h.sourceHash)
    case VecHash => Str(h.vecHash)
    case VecDtype => Str(h.vecDtype)
    case VecDim => Num(Decimal(h.vecDim))
    case Ts => Str(h.ts)
    case Extra => StrMap(h.extra)
  }

  /** `PinHeader.to_dict`. */
  function HeaderFields(h: PinHeader): (m: map<Field, Json>)
  {
    map f: Field | Present(h, f) :: FieldValue(h, f)
  }

  lemma DecimalInjective(m: nat, n: nat)
    requires Decimal(m) == Decimal(n)
    ensures m == n
  {
    DecimalRoundTrip(m);
    DecimalRoundTrip(n);
  }

  lemma SameField(a: PinHeader, b: PinHeader, f: Field)
    requires HeaderFields(a) - {Kid} == HeaderFields(b) - {Kid} && f != Kid
    ensures Present(a, f) <==> Present(b, f)
    ensures Present(a, f) ==> FieldValue(a, f) == FieldValue(b, f)
  {
    var x, y := HeaderFields(a) - {Kid}, HeaderFields(b) - {Kid};
    assert f in x <==> f in y;
    assert f in x ==> x[f] == y[f];
  }

  /** A header is determined by its dict without `kid`, up to `kid`. */
  lemma HeaderDetermined(a: PinHeader, b: PinHeader)
    requires HeaderFields(a) - {Kid} == HeaderFields(b) - {Kid}
    ensures a == b.(kid := a.kid)
  {
    SameField(a, b, Version);
    SameField(a, b, VecDim);
    DecimalInjective(a.v, b.v);
    DecimalInjective(a.vecDim, b.vecDim);
    SameField(a, b, Model);
    SameField(a, b, ModelHash);
    SameField(a, b, SourceHash);
    SameField(a, b, VecHash);
    SameField(a, b, VecDtype);
    SameField(a, b, Ts);
    SameField(a, b, Extra);
    if a.extra != map[] {
      StrMapInjective(a.extra, b.extra);
    }
  }

  lemma HeaderFieldsInjective(a: PinHeader, b: PinHeader)
    requires HeaderFields(a) == HeaderFields(b)
    ensures a == b
  {
    HeaderDetermined(a, b);
    assert HeaderFields(a)[Kid] == HeaderFields(b)[Kid];
  }

  // ---- canonical bytes ----

  type Normalizer = Text -> Text

  /** `{nfc(k): nfc(v) for k, v in extra.items()}` on the sorted items: a later key wins. */
  function NfcItems(nfc: Normalizer, extra: map<Text, Text>, ks: seq<Text>): map<Text, Text>
    requires forall k :: k in ks ==> k in extra
  {
    if ks == [] then map[]
    else
      var k := ks[|ks| - 1];
      assert k in ks;
      NfcItems(nfc, extra, ks[..|ks| - 1])[nfc(k) := nfc(extra[k])]
  }

  function NfcExtra(nfc: Normalizer, extra: map<Text, Text>): map<Text, Text> {
    var ks := SortedKeys(extra.Keys);
    assert forall k :: k in ks ==> k in Elements(ks);
    NfcItems(nfc, extra, ks)
  }

  /** Every string that canonicalization normalizes is in normal form already. */
  ghost predicate IsNormalized(nfc: Normalizer, h: PinHeader) {
    nfc(h.kid) == h.kid && nfc(h.model) == h.model && nfc(h.ts) == h.ts
    && forall k :: k in h.extra ==> nfc(k) == k && nfc(h.extra[k]) == h.extra[k]
  }

  function Normalized(nfc: Normalizer, h: PinHeader): PinHeader {
    h.(kid := nfc(h.kid), model := nfc(h.model), ts := nfc(h.ts), extra := NfcExtra(nfc, h.extra))
  }

  lemma {:induction false} NfcItemsIdentity(nfc: Normalizer, extra: map<Text, Text>, ks: seq<Text>)
    requires forall k :: k in ks ==> k in extra
    requires forall k :: k in extra ==> nfc(k) == k && nfc(extra[k]) == extra[k]
    ensures NfcItems(nfc, extra, ks) == map k | k in ks :: extra[k]
  {
    if ks != [] {
      var front, k := ks[..|ks| - 1], ks[|ks| - 1];
      assert k in ks && forall o :: o in ks <==> o in front || o == k;
      NfcItemsIdentity(nfc, extra, front);
    }
  }

  lemma NormalizedIdentity(nfc: Normalizer, h: PinHeader)
    requires IsNormalized(nfc, h)
    ensures Normalized(nfc, h) == h
  {
    var ks := SortedKeys(h.extra.Keys);
    assert forall k :: k in ks <==> k in Elements(ks);
    NfcItemsIdentity(nfc, h.extra, ks);
    assert NfcExtra(nfc, h.extra) == h.extra;
  }

  /** ASCII bytes of a domain tag. */
  function Tag(s: string): (b: Bytes)
    requires forall i :: 0 <= i < |s| ==> s[i] < 128 as char
    ensures |b| == |s| && forall i :: 0 <= i < |s| ==> b[i] == s[i] as int
  {
    seq(|s|, i requires 0 <= i < |s| => s[i] as int)
  }

  function PinTag(): (b: Bytes)
    ensures |b| == 13
  {
    Tag("vectorpin/v2\0")
  }

  /** Compact JSON with sorted keys, as UTF-8; a lone surrogate raises. */
  function CanonicalJson(d: Json): Option<Bytes> {
    Utf8(Print(Python, d))
  }

  function Tagged(tag: Bytes, body: Option<Bytes>): Option<Bytes> {
    if body.None? then None else Some(tag + body.value)
  }

  /** `PinHeader.canonicalize`. */
  function Canonicalize(nfc: Normalizer, h: PinHeader): Option<Bytes> {
    Tagged(PinTag(), CanonicalJson(Obj(ObjectOf(HeaderFields(Normalized(nfc, h))))))
  }

  /** `_canonicalize_v1`: no tag, no `kid`, no normalization. */
  function CanonicalizeV1(h: PinHeader): Option<Bytes> {
    CanonicalJson(Obj(ObjectOf(HeaderFields(h) - {Kid})))
  }

  // ---- parsing ----

  const MAX_PIN_JSON_BYTES: nat := 65536
  const MAX_EXTRA_ENTRIES: nat := 32
  const MAX_EXTRA_KEY_BYTES: nat := 128
  const MAX_EXTRA_VALUE_BYTES: nat := 1024
  const MAX_KID_BYTES: nat := 256
  const MAX_MODEL_BYTES: nat := 1024
  const MAX_VEC_DIM: nat := 1_048_576
  const SIG_LEN: nat := 64

  predicate AllDigitsText(x: Text) {
    x != [] && forall i :: 0 <= i < |x| ==> IsDigit(x[i])
  }

  /** The value of a JSON number written as an integer; `2.0` and `2e0` decode to floats. */
  function IntOf(x: Text): Option<int> {
    if AllDigitsText(x) then Some(DecimalValue(x))
    else if x != [] && x[0] == '-' as int && AllDigitsText(x[1..]) then
      var n: int := DecimalValue(x[1..]);
      Some(-n)
    else None
  }

  lemma IntOfDecimal(n: nat)
    ensures IntOf(Decimal(n)) == Some(n)
  {
    DecimalRoundTrip(n);
  }

  function StrField(m: map<Field, Json>, f: Field): Option<Text> {
    if f in m && m[f].Str? then Some(m[f].s) else None
  }

  function IntField(m: map<Field, Json>, f: Field): Option<int> {
    if f in m && m[f].Num? then IntOf(m[f].lexeme) else None
  }

  predicate WithinCap(t: Text, limit: nat) {
    |t| <= limit && |Utf8Raw(t)| <= limit
  }

  /** Safe and normalized for a v2 pin, no lone surrogate for a v1 pin. */
  predicate StringOk(nfc: Normalizer, t: Text, strict: bool) {
    if strict then SafeText(t) && nfc(t) == t else SurrogateFree(t)
  }

  /** `%Y` starts at year 1. */
  predicate CalendarTs(ts: Text) {
    var f := Timestamps.ParseTsOf(ts);
    f.Some? && f.value.year >= 1
  }

  predicate TsOk(nfc: Normalizer, ts: Text, strict: bool) {
    if strict then CalendarTs(ts) && SafeText(ts) && nfc(ts) == ts
    else WithinCap(ts, MAX_MODEL_BYTES) && SafeText(ts)
  }

  predicate EntryOk(nfc: Normalizer, k: Text, val: Json, strict: bool) {
    && val.Str? && SurrogateFree(k) && SurrogateFree(val.s)
    && |Utf8Raw(k)| <= MAX_EXTRA_KEY_BYTES && |Utf8Raw(val.s)| <= MAX_EXTRA_VALUE_BYTES
    && StringOk(nfc, k, strict) && StringOk(nfc, val.s, strict)
  }

  /** The `extra` map a dict carries: string to string, bounded; absent means empty. */
  function ExtraOf(nfc: Normalizer, m: map<Field, Json>, strict: bool): (r: Option<map<Text, Text>>)
    ensures Extra !in m ==> r == Some(map[])
    ensures Extra in m ==>
              (r.Some? <==> m[Extra].Obj? && |m[Extra].members| <= MAX_EXTRA_ENTRIES
                            && forall k :: k in m[Extra].members ==> EntryOk(nfc, k, m[Extra].members[k], strict))
    ensures Extra in m && r.Some? ==> m[Extra] == StrMap(r.value)
  {
    if Extra !in m then Some(map[])
    else if !m[Extra].Obj? || |m[Extra].members| > MAX_EXTRA_ENTRIES then None
    else
      var raw := m[Extra].members;
      if forall k :: k in raw ==> EntryOk(nfc, k, raw[k], strict) then
        var e := map k | k in raw :: raw[k].s;
        assert StrMap(e).members == raw;
        Some(e)
      else None
  }

  /** The loop that fills `extra`, in whatever order the dict iterates. */
  method FillExtra(nfc: Normalizer, raw: map<Text, Json>, strict: bool) returns (r: Option<map<Text, Text>>)
    ensures r == ExtraOf(nfc, map[Extra := Obj(raw)], strict)
  {
    if |raw| > MAX_EXTRA_ENTRIES {
      return None;
    }
    var extra: map<Text, Text> := map[];
    var rest := raw.Keys;
    while rest != {}
      invariant rest <= raw.Keys && extra.Keys == raw.Keys - rest
      invariant forall k :: k in extra ==> EntryOk(nfc, k, raw[k], strict) && raw[k] == Str(extra[k])
      decreases |rest|
    {
      var k :| k in rest;
      if !EntryOk(nfc, k, raw[k], strict) {
        return None;
      }
      extra := extra[k := raw[k].s];
      rest := rest - {k};
    }
    FilledExtra(nfc, raw, strict, extra);
    return Some(extra);
  }

  lemma FilledExtra(nfc: Normalizer, raw: map<Text, Json>, strict: bool, extra: map<Text, Text>)
    requires |raw| <= MAX_EXTRA_ENTRIES && extra.Keys == raw.Keys
    requires forall k :: k in extra ==> EntryOk(nfc, k, raw[k], strict) && raw[k] == Str(extra[k])
    ensures ExtraOf(nfc, map[Extra := Obj(raw)], strict) == Some(extra)
  {
    assert StrMap(extra).members == raw;
    StrMapInjective(extra, ExtraOf(nfc, map[Extra := Obj(raw)], strict).value);
  }

  predicate IsOptionalHash(m: map<Field, Json>) {
    ModelHash !in m || m[ModelHash].Null? || (m[ModelHash].Str? && PyHashString(m[ModelHash].s))
  }

  /** Required hashes and the optional one: `null` counts as absent. */
  predicate HashesOk(m: map<Field, Json>) {
    && StrField(m, SourceHash).Some? && PyHashString(StrField(m, SourceHash).value)
    && StrField(m, VecHash).Some? && PyHashString(StrField(m, VecHash).value)
    && IsOptionalHash(m)
  }

  predicate NamedStringOk(nfc: Normalizer, m: map<Field, Json>, f: Field, limit: nat, strict: bool) {
    var s := StrField(m, f);
    s.Some? && s.value != [] && WithinCap(s.value, limit) && StringOk(nfc, s.value, strict)
  }

  predicate ScalarsOk(nfc: Normalizer, m: map<Field, Json>, strict: bool) {
    && NamedStringOk(nfc, m, Model, MAX_MODEL_BYTES, strict)
    && NamedStringOk(nfc, m, Kid, MAX_KID_BYTES, strict)
    && StrField(m, VecDtype).Some?
    && (StrField(m, VecDtype).value == Ascii("f32") || StrField(m, VecDtype).value == Ascii("f64"))
    && IntField(m, VecDim).Some? && 0 < IntField(m, VecDim).value <= MAX_VEC_DIM
    && HashesOk(m)
    && StrField(m, Ts).Some? && StrField(m, Ts).value != [] && TsOk(nfc, StrField(m, Ts).value, strict)
  }

  function SigOf(m: map<Field, Json>): (r: Option<Bytes>)
    ensures r.Some? ==>
              StrField(m, Sig).Some? && Base64Url.PyDecode(StrField(m, Sig).value) == r && |r.value| == SIG_LEN
  {
    var s := StrField(m, Sig);
    if s.None? || |s.value| > 4 * SIG_LEN then None
    else
      var sig := Base64Url.PyDecode(s.value);
      if sig.None? || |sig.value| != SIG_LEN then None else sig
  }

  /** The per-field part of `Pin.from_dict`. */
  function FromFields(nfc: Normalizer, m: map<Field, Json>, acceptV1: bool): (r: Option<Pin>)
  {
    var v := IntField(m, Version);
    if v.None? || !(v.value == 2 || (acceptV1 && v.value == 1)) then None
    else
      var strict := v.value == 2;
      if !ScalarsOk(nfc, m, strict) then None
      else
        var extra := ExtraOf(nfc, m, strict);
        var sig := SigOf(m);
        if extra.None? || sig.None? then None
        else
          Some(Pin(PinHeader(v.value, m[Kid].s, m[Model].s, m[SourceHash].s, m[VecHash].s, m[VecDtype].s,
                             IntField(m, VecDim).value, m[Ts].s, StrField(m, ModelHash), extra.value), sig.value))
  }

  // ---- the size guard ----

  function StringSize(j: Json): nat {
    if j.Str? then |j.s| else 0
  }

  function EntrySize(ms: map<Text, Json>): Text -> nat {
    k => |k| + (if k in ms then StringSize(ms[k]) else 0)
  }

  function ValueSize(j: Json): nat {
    match j
    case Str(s) => |s|
    case Obj(ms) => SumOver(ms.Keys, EntrySize(ms))
    case _ => 0
  }

  function FieldSize(ms: map<Text, Json>): Text -> nat {
    k => |k| + (if k in ms then ValueSize(ms[k]) else 0)
  }

  /** Code points of every string scalar and of every `extra` key and value. */
  function DictSize(ms: map<Text, Json>): nat {
    SumOver(ms.Keys, FieldSize(ms))
  }

  /** `_check_dict_size`: the running total, refused as soon as it passes the cap. */
  method CheckDictSize(ms: map<Text, Json>) returns (ok: bool)
    ensures ok <==> DictSize(ms) <= MAX_PIN_JSON_BYTES
  {
    var total, rest := 0, ms.Keys;
    while rest != {}
      invariant rest <= ms.Keys && 0 <= total <= MAX_PIN_JSON_BYTES
      invariant total + SumOver(rest, FieldSize(ms)) == DictSize(ms)
      decreases |rest|
    {
      var k :| k in rest;
      SumSplit(rest, FieldSize(ms), k);
      total := total + |k|;
      if ms[k].Str? {
        total := total + |ms[k].s|;
      } else if ms[k].Obj? {
        var inner := CountEntries(ms[k].members);
        total := total + inner;
      }
      if total > MAX_PIN_JSON_BYTES {
        return false;
      }
      rest := rest - {k};
    }
    return true;
  }

  method CountEntries(ms: map<Text, Json>) returns (total: nat)
    ensures total == ValueSize(Obj(ms))
  {
    total := 0;
    var rest := ms.Keys;
    while rest != {}
      invariant rest <= ms.Keys
      invariant total + SumOver(rest, EntrySize(ms)) == ValueSize(Obj(ms))
      decreases |rest|
    {
      var k :| k in rest;
      SumSplit(rest, EntrySize(ms), k);
      total := total + |k|;
      if ms[k].Str? {
        total := total + |ms[k].s|;
      }
      rest := rest - {k};
    }
  }

  /** `Pin.from_dict`. The order of the checks only chooses the message. */
  function FromDict(nfc: Normalizer, d: Json, acceptV1: bool): Option<Pin> {
    if !d.Obj? || !OnlyKnownFields(d.members) || DictSize(d.members) > MAX_PIN_JSON_BYTES then None
    else FromFields(nfc, FieldsOf(d.members), acceptV1)
  }

  /** The header's fields and the signature. */
  function PinFields(p: Pin): map<Field, Json> {
    map f: Field | f == Sig || Present(p.header, f) ::
      if f == Sig then Str(Base64Url.Encode(p.sig)) else FieldValue(p.header, f)
  }

  /** `Pin.to_dict`. */
  function ToDict(p: Pin): Json {
    Obj(ObjectOf(PinFields(p)))
  }

  // ---- what parsing guarantees ----

  /** A parsed pin's strings are what canonicalization signs: normalizing changes nothing. */
  lemma ParsedIsNormalized(nfc: Normalizer, d: Json, p: Pin)
    requires FromDict(nfc, d, false) == Some(p)
    ensures p.header.v == 2 && IsNormalized(nfc, p.header)
  {
    var m := FieldsOf(d.members);
    forall k | k in p.header.extra
      ensures nfc(k) == k && nfc(p.header.extra[k]) == p.header.extra[k]
    {
      assert m[Extra] == StrMap(p.header.extra);
      assert EntryOk(nfc, k, m[Extra].members[k], true);
    }
  }

  // ---- the printed dict parses back ----

  /** What a successful parse read. */
  predicate Read(nfc: Normalizer, m: map<Field, Json>, acceptV1: bool, p: Pin) {
    var h := p.header;
    && (h.v == 2 || (acceptV1 && h.v == 1)) && ScalarsOk(nfc, m, h.v == 2)
    && Carries(m, p) && ExtraOf(nfc, m, h.v == 2) == Some(h.extra)
  }

  predicate Carries(m: map<Field, Json>, p: Pin) {
    var h := p.header;
    && IntField(m, Version) == Some(h.v) && IntField(m, VecDim) == Some(h.vecDim)
    && StrField(m, Kid) == Some(h.kid) && StrField(m, Model) == Some(h.model)
    && StrField(m, SourceHash) == Some(h.sourceHash) && StrField(m, VecHash) == Some(h.vecHash)
    && StrField(m, VecDtype) == Some(h.vecDtype) && StrField(m, Ts) == Some(h.ts)
    && StrField(m, ModelHash) == h.modelHash && SigOf(m) == Some(p.sig)
  }

  lemma ParsedIffRead(nfc: Normalizer, m: map<Field, Json>, acceptV1: bool, p: Pin)
    ensures FromFields(nfc, m, acceptV1) == Some(p) <==> Read(nfc, m, acceptV1, p)
  {
  }

  /** The scalar checks look at nothing but the strings, the dimension and the optional hash. */
  lemma ScalarsAgain(nfc: Normalizer, m: map<Field, Json>, n: map<Field, Json>, strict: bool)
    requires forall f: Field :: StrField(n, f) == StrField(m, f)
    requires IntField(n, VecDim) == IntField(m, VecDim) && (ModelHash in n ==> n[ModelHash].Str?)
    ensures ScalarsOk(nfc, m, strict) ==> ScalarsOk(nfc, n, strict)
  {
    assert NamedStringOk(nfc, n, Model, MAX_MODEL_BYTES, strict)
           <==> NamedStringOk(nfc, m, Model, MAX_MODEL_BYTES, strict);
    assert NamedStringOk(nfc, n, Kid, MAX_KID_BYTES, strict) <==> NamedStringOk(nfc, m, Kid, MAX_KID_BYTES, strict);
    assert StrField(n, ModelHash) == StrField(m, ModelHash);
    assert HashesOk(m) ==> HashesOk(n);
  }

  lemma PrintedFields(p: Pin)
    ensures var n, h := PinFields(p), p.header;
            && IntField(n, Version) == Some(h.v) && IntField(n, VecDim) == Some(h.vecDim)
            && StrField(n, Kid) == Some(h.kid) && StrField(n, Model) == Some(h.model)
            && StrField(n, SourceHash) == Some(h.sourceHash) && StrField(n, VecHash) == Some(h.vecHash)
            && StrField(n, VecDtype) == Some(h.vecDtype) && StrField(n, Ts) == Some(h.ts)
            && StrField(n, ModelHash) == h.modelHash && StrField(n, Sig) == Some(Base64Url.Encode(p.sig))
            && StrField(n, Version) == None && StrField(n, VecDim) == None && StrField(n, Extra) == None
            && (Extra in n <==> h.extra != map[]) && (Extra in n ==> n[Extra] == StrMap(h.extra))
            && (ModelHash in n ==> n[ModelHash].Str?)
  {
    PrintedInts(p);
    PrintedStrings(p);
    PrintedOptions(p);
  }

  lemma PrintedInts(p: Pin)
    ensures IntField(PinFields(p), Version) == Some(p.header.v)
    ensures IntField(PinFields(p), VecDim) == Some(p.header.vecDim)
    ensures StrField(PinFields(p), Version) == None && StrField(PinFields(p), VecDim) == None
  {
    IntOfDecimal(p.header.v);
    IntOfDecimal(p.header.vecDim);
  }

  lemma PrintedStrings(p: Pin)
    ensures var n, h := PinFields(p), p.header;
            && StrField(n, Kid) == Some(h.kid) && StrField(n, Model) == Some(h.model)
            && StrField(n, SourceHash) == Some(h.sourceHash) && StrField(n, VecHash) == Some(h.vecHash)
            && StrField(n, VecDtype) == Some(h.vecDtype) && StrField(n, Ts) == Some(h.ts)
            && StrField(n, Sig) == Some(Base64Url.Encode(p.sig))
  {
  }

  lemma PrintedOptions(p: Pin)
    ensures var n, h := PinFields(p), p.header;
            && StrField(n, ModelHash) == h.modelHash && StrField(n, Extra) == None
            && (Extra in n <==> h.extra != map[]) && (Extra in n ==> n[Extra] == StrMap(h.extra))
            && (ModelHash in n ==> n[ModelHash].Str?)
  {
  }

  /** The accepted signature text is the encoding of its bytes, so it is printed unchanged. */
  lemma SigKept(m: map<Field, Json>)
    requires SigOf(m).Some?
    ensures StrField(m, Sig) == Some(Base64Url.Encode(SigOf(m).value))
  {
    var s := StrField(m, Sig).value;
    Base64Url.PortsDecodeAlike(s);
    Base64Url.EncodeDecode(s);
  }

  /** Printing keeps every string and number, and drops an empty `extra` and a null `model_hash`. */
  lemma StringsKept(m: map<Field, Json>, p: Pin, f: Field)
    requires Carries(m, p) && (Extra in m ==> m[Extra].Obj?)
    ensures StrField(PinFields(p), f) == StrField(m, f)
  {
    PrintedFields(p);
    SigKept(m);
  }

  lemma FieldsKept(nfc: Normalizer, m: map<Field, Json>, strict: bool, p: Pin)
    requires Carries(m, p) && ExtraOf(nfc, m, strict) == Some(p.header.extra)
    ensures forall f: Field :: StrField(PinFields(p), f) == StrField(m, f)
    ensures IntField(PinFields(p), VecDim) == IntField(m, VecDim)
    ensures Extra in PinFields(p) <==> Extra in m && m[Extra] != Obj(map[])
    ensures Extra in PinFields(p) ==> PinFields(p)[Extra] == m[Extra]
  {
    PrintedFields(p);
    ExtraKept(nfc, m, strict);
    forall f: Field
      ensures StrField(PinFields(p), f) == StrField(m, f)
    {
      StringsKept(m, p, f);
    }
  }

  lemma ExtraKept(nfc: Normalizer, m: map<Field, Json>, strict: bool)
    requires ExtraOf(nfc, m, strict).Some?
    ensures var e := ExtraOf(nfc, m, strict).value;
            && (e != map[] <==> Extra in m && m[Extra] != Obj(map[]))
            && (e != map[] ==> m[Extra] == StrMap(e))
  {
    var e := ExtraOf(nfc, m, strict).value;
    assert StrMap(map[]) == Obj(map[]);
    if Extra in m && m[Extra] == Obj(map[]) {
      StrMapInjective(e, map[]);
    }
  }

  lemma FromFieldsAgain(nfc: Normalizer, m: map<Field, Json>, acceptV1: bool, p: Pin)
    requires Read(nfc, m, acceptV1, p)
    ensures Read(nfc, PinFields(p), acceptV1, p)
  {
    var n := PinFields(p);
    FieldsKept(nfc, m, p.header.v == 2, p);
    PrintedFields(p);
    ScalarsAgain(nfc, m, n, p.header.v == 2);
    ExtraAgain(nfc, m, n, p.header.v == 2);
    assert SigOf(n) == SigOf(m);
  }

  lemma ExtraAgain(nfc: Normalizer, m: map<Field, Json>, n: map<Field, Json>, strict: bool)
    requires Extra in n <==> Extra in m && m[Extra] != Obj(map[])
    requires Extra in n ==> n[Extra] == m[Extra]
    ensures ExtraOf(nfc, n, strict) == ExtraOf(nfc, m, strict)
  {
    if Extra in m {
      var a := ExtraOf(nfc, m, strict);
      if Extra in n {
        if a.Some? {
          StrMapInjective(a.value, ExtraOf(nfc, n, strict).value);
        }
      } else {
        assert StrMap(map[]) == Obj(map[]);
        StrMapInjective(a.value, map[]);
      }
    }
  }

  /** Printing a parsed pin never grows it past the size guard. */
  lemma PrintedIsNoLarger(ms: map<Text, Json>, n: map<Field, Json>)
    requires n.Keys <= FieldsOf(ms).Keys
    requires forall f :: f in n ==> n[f] == FieldsOf(ms)[f] || n[f].Num?
    ensures DictSize(ObjectOf(n)) <= DictSize(ms)
  {
    var ns := ObjectOf(n);
    forall k | k in ns
      ensures k in ms && FieldSize(ns)(k) <= FieldSize(ms)(k)
    {
      var f :| f in n && Name(f) == k;
    }
    SumMonotone(ns.Keys, ms.Keys, FieldSize(ns), FieldSize(ms));
  }

  lemma PrintedIsKept(nfc: Normalizer, m: map<Field, Json>, acceptV1: bool, p: Pin, f: Field)
    requires Read(nfc, m, acceptV1, p) && f in PinFields(p)
    ensures f in m && (PinFields(p)[f] == m[f] || PinFields(p)[f].Num?)
  {
    FieldsKept(nfc, m, p.header.v == 2, p);
    var n := PinFields(p);
    assert StrField(n, f) == StrField(m, f);
  }

  lemma PrintedFits(nfc: Normalizer, ms: map<Text, Json>, acceptV1: bool, p: Pin)
    requires Read(nfc, FieldsOf(ms), acceptV1, p)
    ensures DictSize(ObjectOf(PinFields(p))) <= DictSize(ms)
  {
    var m, n := FieldsOf(ms), PinFields(p);
    forall f | f in n
      ensures f in m && (n[f] == m[f] || n[f].Num?)
    {
      PrintedIsKept(nfc, m, acceptV1, p, f);
    }
    PrintedIsNoLarger(ms, n);
  }

  /** from_dict(to_dict(p)) = p for every pin the parser accepts. */
  lemma PrintedPinParses(nfc: Normalizer, d: Json, acceptV1: bool, p: Pin)
    requires FromDict(nfc, d, acceptV1) == Some(p)
    ensures FromDict(nfc, ToDict(p), acceptV1) == Some(p)
  {
    var m := FieldsOf(d.members);
    ParsedIffRead(nfc, m, acceptV1, p);
    FromFieldsAgain(nfc, m, acceptV1, p);
    ParsedIffRead(nfc, PinFields(p), acceptV1, p);
    PrintedFits(nfc, d.members, acceptV1, p);
    DictIsParsed(nfc, PinFields(p), acceptV1);
  }

  lemma DictIsParsed(nfc: Normalizer, n: map<Field, Json>, acceptV1: bool)
    requires DictSize(ObjectOf(n)) <= MAX_PIN_JSON_BYTES
    ensures FromDict(nfc, Obj(ObjectOf(n)), acceptV1) == FromFields(nfc, n, acceptV1)
  {
    FieldsOfObject(n);
  }

  // ---- which pins the wire format can carry ----

  /** A required string: not empty, within its cap, safe and normalized (v2) or encodable (v1). */
  predicate TextRule(nfc: Normalizer, t: Text, limit: nat, strict: bool) {
    t != [] && WithinCap(t, limit) && StringOk(nfc, t, strict)
  }

  predicate ExtraRule(nfc: Normalizer, extra: map<Text, Text>, strict: bool) {
    |extra| <= MAX_EXTRA_ENTRIES && forall k :: k in extra ==> EntryOk(nfc, k, Str(extra[k]), strict)
  }

  /** The wire-format rules, stated on the pin itself. */
  predicate MeetsRules(nfc: Normalizer, p: Pin, acceptV1: bool) {
    var h, strict := p.header, p.header.v == 2;
    && (h.v == 2 || (acceptV1 && h.v == 1))
    && TextRule(nfc, h.kid, MAX_KID_BYTES, strict) && TextRule(nfc, h.model, MAX_MODEL_BYTES, strict)
    && (h.vecDtype == Ascii("f32") || h.vecDtype == Ascii("f64")) && 0 < h.vecDim <= MAX_VEC_DIM
    && PyHashString(h.sourceHash) && PyHashString(h.vecHash)
    && (h.modelHash.Some? ==> PyHashString(h.modelHash.value))
    && h.ts != [] && TsOk(nfc, h.ts, strict) && ExtraRule(nfc, h.extra, strict) && |p.sig| == SIG_LEN
  }

  lemma PrintedScalars(nfc: Normalizer, p: Pin, strict: bool)
    ensures var h := p.header;
            ScalarsOk(nfc, PinFields(p), strict) <==>
              && TextRule(nfc, h.kid, MAX_KID_BYTES, strict) && TextRule(nfc, h.model, MAX_MODEL_BYTES, strict)
              && (h.vecDtype == Ascii("f32") || h.vecDtype == Ascii("f64")) && 0 < h.vecDim <= MAX_VEC_DIM
              && PyHashString(h.sourceHash) && PyHashString(h.vecHash)
              && (h.modelHash.Some? ==> PyHashString(h.modelHash.value))
              && h.ts != [] && TsOk(nfc, h.ts, strict)
  {
    PrintedFields(p);
    PrintedHashes(p);
  }

  lemma PrintedHashes(p: Pin)
    ensures HashesOk(PinFields(p)) <==>
              PyHashString(p.header.sourceHash) && PyHashString(p.header.vecHash)
              && (p.header.modelHash.Some? ==> PyHashString(p.header.modelHash.value))
  {
    PrintedFields(p);
    assert ModelHash in PinFields(p) <==> p.header.modelHash.Some?;
  }

  lemma PrintedExtra(nfc: Normalizer, p: Pin, strict: bool)
    ensures ExtraOf(nfc, PinFields(p), strict) == Some(p.header.extra) <==> ExtraRule(nfc, p.header.extra, strict)
  {
    var m, extra := PinFields(p), p.header.extra;
    PrintedFields(p);
    if extra != map[] {
      var raw := StrMap(extra).members;
      assert raw.Keys == extra.Keys && |raw| == |raw.Keys| == |extra|;
      assert forall k :: k in raw ==> raw[k] == Str(extra[k]);
      if ExtraOf(nfc, m, strict).Some? {
        StrMapInjective(ExtraOf(nfc, m, strict).value, extra);
      }
    }
  }

  lemma PrintedSig(p: Pin)
    ensures SigOf(PinFields(p)) == Some(p.sig) <==> |p.sig| == SIG_LEN
  {
    PrintedFields(p);
    Base64Url.PyDecodesEncoding(p.sig, Base64Url.Encode(p.sig));
    Base64Url.SextetsLength(p.sig);
  }

  lemma PrintedReads(nfc: Normalizer, p: Pin, acceptV1: bool)
    ensures Read(nfc, PinFields(p), acceptV1, p) <==> MeetsRules(nfc, p, acceptV1)
  {
    PrintedFields(p);
    PrintedScalars(nfc, p, p.header.v == 2);
    PrintedExtra(nfc, p, p.header.v == 2);
    PrintedSig(p);
  }

  lemma DictReadsFields(nfc: Normalizer, m: map<Field, Json>, acceptV1: bool)
    ensures FromDict(nfc, Obj(ObjectOf(m)), acceptV1)
         == if DictSize(ObjectOf(m)) > MAX_PIN_JSON_BYTES then None else FromFields(nfc, m, acceptV1)
  {
    FieldsOfObject(m);
  }

  lemma FieldsParseIff(nfc: Normalizer, p: Pin, acceptV1: bool)
    ensures FromFields(nfc, PinFields(p), acceptV1) == Some(p) <==> MeetsRules(nfc, p, acceptV1)
  {
    PrintedReads(nfc, p, acceptV1);
    ParsedIffRead(nfc, PinFields(p), acceptV1, p);
  }

  /** Every pin the parser accepts meets the rules. */
  lemma ParsedMeetsRules(nfc: Normalizer, d: Json, acceptV1: bool, p: Pin)
    requires FromDict(nfc, d, acceptV1) == Some(p)
    ensures MeetsRules(nfc, p, acceptV1)
  {
    PrintedPinParses(nfc, d, acceptV1, p);
    DictReadsFields(nfc, PinFields(p), acceptV1);
    FieldsParseIff(nfc, p, acceptV1);
  }
}
