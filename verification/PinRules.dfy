/** Which dicts the Python reference reads as which pin, with the rules of the wire format spelled out. */
module PinRules {
  import opened Common
  import opened Utf
  import opened JsonText
  import opened Hashing
  import opened Attestation
  import Base64Url
  import SizeGuard

  // ---- the rules (sections 3.1 and 4.1 of the protocol) ----

  /** No control character, no bidirectional embedding, override or isolate, no surrogate. */
  predicate IsAllowed(c: int) {
    c >= 0x20 && !(0x202A <= c <= 0x202E) && !(0x2066 <= c <= 0x2069) && !(0xD800 <= c <= 0xDFFF)
  }

  predicate IsEncodable(t: Text) {
    forall i :: 0 <= i < |t| ==> !(0xD800 <= t[i] <= 0xDFFF)
  }

  /** A v2 string is in normal form and holds allowed characters only; a v1 string just has a UTF-8 form. */
  predicate IsStringOf(nfc: Normalizer, v: nat, t: Text) {
    if v == 2 then nfc(t) == t && forall i :: 0 <= i < |t| ==> IsAllowed(t[i]) else IsEncodable(t)
  }

  /** A hash string, or one with the final newline that Python's `$` lets through. */
  ghost predicate IsHash(t: Text) {
    exists d: Digest :: t == Prefixed(d) || t == Prefixed(d) + [10]
  }

  /** A v2 time is a normal calendar time; a v1 time is any short text without forbidden characters. */
  predicate IsTime(nfc: Normalizer, v: nat, t: Text) {
    && t != [] && (forall i :: 0 <= i < |t| ==> IsAllowed(t[i]))
    && if v == 2 then CalendarTs(t) && nfc(t) == t else |Utf8Raw(t)| <= 1024
  }

  predicate AreExtra(nfc: Normalizer, v: nat, extra: map<Text, Text>) {
    && |extra| <= 32
    && forall k :: k in extra ==>
         && IsStringOf(nfc, v, k) && |Utf8Raw(k)| <= 128
         && IsStringOf(nfc, v, extra[k]) && |Utf8Raw(extra[k])| <= 1024
  }

  ghost predicate FollowsRules(nfc: Normalizer, p: Pin, acceptV1: bool) {
    var h := p.header;
    && (h.v == 2 || (acceptV1 && h.v == 1)) && |p.sig| == 64
    && h.kid != [] && IsStringOf(nfc, h.v, h.kid) && |Utf8Raw(h.kid)| <= 256
    && h.model != [] && IsStringOf(nfc, h.v, h.model) && |Utf8Raw(h.model)| <= 1024
    && (h.vecDtype == Ascii("f32") || h.vecDtype == Ascii("f64")) && 1 <= h.vecDim <= 1048576
    && IsHash(h.sourceHash) && IsHash(h.vecHash) && (h.modelHash.Some? ==> IsHash(h.modelHash.value))
    && IsTime(nfc, h.v, h.ts) && AreExtra(nfc, h.v, h.extra)
  }

  lemma SafeMeans(t: Text)
    ensures SafeText(t) <==> forall i :: 0 <= i < |t| ==> IsAllowed(t[i])
  {
    if SafeText(t) {
      assert forall i :: 0 <= i < |t| ==> !IsBanned(t[i]) && !IsSurrogate(t[i]);
    }
    if forall i :: 0 <= i < |t| ==> IsAllowed(t[i]) {
      assert forall i :: 0 <= i < |t| ==> IsAllowed(t[i]) && !IsBanned(t[i]) && !IsSurrogate(t[i]);
    }
  }

  lemma StringMeans(nfc: Normalizer, v: nat, t: Text)
    ensures StringOk(nfc, t, v == 2) <==> IsStringOf(nfc, v, t)
  {
    SafeMeans(t);
  }

  lemma {:induction false} NotShorter(t: Text)
    ensures |t| <= |Utf8Raw(t)|
  {
    if t != [] {
      NotShorter(t[1..]);
    }
  }

  lemma TextMeans(nfc: Normalizer, v: nat, t: Text, limit: nat)
    ensures TextRule(nfc, t, limit, v == 2) <==> t != [] && IsStringOf(nfc, v, t) && |Utf8Raw(t)| <= limit
  {
    NotShorter(t);
    StringMeans(nfc, v, t);
  }

  lemma HashMeans(t: Text)
    ensures PyHashString(t) <==> IsHash(t)
  {
    HashStringsAreDigests(t);
    if t != [] && t[|t| - 1] == 10 {
      HashStringsAreDigests(t[..|t| - 1]);
      assert t == t[..|t| - 1] + [10];
    }
    forall d: Digest | t == Prefixed(d) + [10]
      ensures PyHashString(t)
    {
      assert t[..|t| - 1] == Prefixed(d);
      PrefixedSpells(d);
    }
  }

  lemma TimeMeans(nfc: Normalizer, v: nat, t: Text)
    ensures t != [] && TsOk(nfc, t, v == 2) <==> IsTime(nfc, v, t)
  {
    NotShorter(t);
    SafeMeans(t);
  }

  lemma EntryMeans(nfc: Normalizer, v: nat, k: Text, val: Text)
    ensures EntryOk(nfc, k, Str(val), v == 2) <==>
            && IsStringOf(nfc, v, k) && |Utf8Raw(k)| <= 128 && IsStringOf(nfc, v, val) && |Utf8Raw(val)| <= 1024
  {
    StringMeans(nfc, v, k);
    StringMeans(nfc, v, val);
    EncodableString(nfc, v, k);
    EncodableString(nfc, v, val);
  }

  lemma EncodableString(nfc: Normalizer, v: nat, t: Text)
    ensures IsStringOf(nfc, v, t) ==> SurrogateFree(t)
  {
  }

  lemma ExtraMeans(nfc: Normalizer, v: nat, extra: map<Text, Text>)
    ensures ExtraRule(nfc, extra, v == 2) <==> AreExtra(nfc, v, extra)
  {
    forall k | k in extra
      ensures EntryOk(nfc, k, Str(extra[k]), v == 2) <==>
              && IsStringOf(nfc, v, k) && |Utf8Raw(k)| <= 128
              && IsStringOf(nfc, v, extra[k]) && |Utf8Raw(extra[k])| <= 1024
    {
      EntryMeans(nfc, v, k, extra[k]);
    }
  }

  lemma RulesMean(nfc: Normalizer, p: Pin, acceptV1: bool)
    ensures MeetsRules(nfc, p, acceptV1) <==> FollowsRules(nfc, p, acceptV1)
  {
    var h := p.header;
    TextMeans(nfc, h.v, h.kid, 256);
    TextMeans(nfc, h.v, h.model, 1024);
    HashMeans(h.sourceHash);
    HashMeans(h.vecHash);
    if h.modelHash.Some? {
      HashMeans(h.modelHash.value);
    }
    TimeMeans(nfc, h.v, h.ts);
    ExtraMeans(nfc, h.v, h.extra);
  }

  // ---- which dicts carry which pin ----

  predicate IsString(ms: map<Text, Json>, name: string, value: Text) {
    Ascii(name) in ms && ms[Ascii(name)] == Str(value)
  }

  /** A number written as an integer. */
  predicate IsInteger(ms: map<Text, Json>, name: string, value: nat) {
    Ascii(name) in ms && ms[Ascii(name)].Num? && IntOf(ms[Ascii(name)].lexeme) == Some(value)
  }

  predicate CarriesNumbers(ms: map<Text, Json>, h: PinHeader) {
    IsInteger(ms, "v", h.v) && IsInteger(ms, "vec_dim", h.vecDim)
  }

  predicate CarriesTexts(ms: map<Text, Json>, h: PinHeader) {
    && IsString(ms, "kid", h.kid) && IsString(ms, "model", h.model) && IsString(ms, "ts", h.ts)
    && IsString(ms, "source_hash", h.sourceHash) && IsString(ms, "vec_hash", h.vecHash)
    && IsString(ms, "vec_dtype", h.vecDtype)
  }

  /** An absent `model_hash` may be written as null, an empty `extra` as an empty object. */
  predicate CarriesOptions(ms: map<Text, Json>, h: PinHeader) {
    && (match h.modelHash
        case Some(t) => IsString(ms, "model_hash", t)
        case None => Ascii("model_hash") in ms ==> ms[Ascii("model_hash")] == Null)
    && if Ascii("extra") in ms then ms[Ascii("extra")] == StrMap(h.extra) else h.extra == map[]
  }

  ghost predicate CarriesSig(ms: map<Text, Json>, sig: Bytes) {
    && Ascii("sig") in ms && ms[Ascii("sig")].Str? && Base64Url.Decode(ms[Ascii("sig")].s) == Some(sig)
  }

  lemma StringIs(ms: map<Text, Json>, f: Field, value: Text)
    ensures StrField(FieldsOf(ms), f) == Some(value) <==> Name(f) in ms && ms[Name(f)] == Str(value)
  {
  }

  lemma NumbersCarried(ms: map<Text, Json>, h: PinHeader)
    ensures CarriesNumbers(ms, h) <==>
            IntField(FieldsOf(ms), Version) == Some(h.v) && IntField(FieldsOf(ms), VecDim) == Some(h.vecDim)
  {
  }

  lemma TextsCarried(ms: map<Text, Json>, h: PinHeader)
    ensures var m := FieldsOf(ms);
            CarriesTexts(ms, h) <==>
            && StrField(m, Kid) == Some(h.kid) && StrField(m, Model) == Some(h.model) && StrField(m, Ts) == Some(h.ts)
            && StrField(m, SourceHash) == Some(h.sourceHash) && StrField(m, VecHash) == Some(h.vecHash)
            && StrField(m, VecDtype) == Some(h.vecDtype)
  {
    StringIs(ms, Kid, h.kid);
    StringIs(ms, Model, h.model);
    StringIs(ms, Ts, h.ts);
    StringIs(ms, SourceHash, h.sourceHash);
    StringIs(ms, VecHash, h.vecHash);
    StringIs(ms, VecDtype, h.vecDtype);
  }

  lemma SigCarried(ms: map<Text, Json>, sig: Bytes)
    ensures SigOf(FieldsOf(ms)) == Some(sig) <==> CarriesSig(ms, sig) && |sig| == 64
  {
    if Name(Sig) in ms && ms[Name(Sig)].Str? {
      var s := ms[Name(Sig)].s;
      Base64Url.PortsDecodeAlike(s);
      if Base64Url.Decode(s) == Some(sig) && |sig| == 64 {
        Base64Url.EncodeDecode(s);
        Base64Url.SextetsLength(sig);
      }
    }
  }

  lemma ModelHashCarried(ms: map<Text, Json>, modelHash: Option<Text>)
    requires modelHash.Some? ==> PyHashString(modelHash.value)
    ensures IsOptionalHash(FieldsOf(ms)) && StrField(FieldsOf(ms), ModelHash) == modelHash <==>
            match modelHash
            case Some(t) => IsString(ms, "model_hash", t)
            case None => Ascii("model_hash") in ms ==> ms[Ascii("model_hash")] == Null
  {
  }

  lemma ExtraCarried(nfc: Normalizer, ms: map<Text, Json>, strict: bool, extra: map<Text, Text>)
    requires ExtraRule(nfc, extra, strict)
    ensures ExtraOf(nfc, FieldsOf(ms), strict) == Some(extra) <==>
            if Ascii("extra") in ms then ms[Ascii("extra")] == StrMap(extra) else extra == map[]
  {
    var m := FieldsOf(ms);
    if Extra in m && m[Extra] == StrMap(extra) {
      var raw := m[Extra].members;
      assert raw.Keys == extra.Keys && |raw| == |raw.Keys| == |extra|;
      StrMapInjective(ExtraOf(nfc, m, strict).value, extra);
    }
  }

  lemma CarriedScalars(nfc: Normalizer, m: map<Field, Json>, p: Pin, acceptV1: bool)
    requires Attestation.Carries(m, p) && MeetsRules(nfc, p, acceptV1) && IsOptionalHash(m)
    ensures ScalarsOk(nfc, m, p.header.v == 2)
  {
    assert NamedStringOk(nfc, m, Model, MAX_MODEL_BYTES, p.header.v == 2);
    assert NamedStringOk(nfc, m, Kid, MAX_KID_BYTES, p.header.v == 2);
    assert HashesOk(m);
  }

  lemma ReadWhenRules(nfc: Normalizer, m: map<Field, Json>, acceptV1: bool, p: Pin)
    requires MeetsRules(nfc, p, acceptV1)
    ensures Read(nfc, m, acceptV1, p) <==>
            && Attestation.Carries(m, p) && IsOptionalHash(m)
            && ExtraOf(nfc, m, p.header.v == 2) == Some(p.header.extra)
  {
    if Attestation.Carries(m, p) && IsOptionalHash(m) {
      CarriedScalars(nfc, m, p, acceptV1);
    }
  }

  ghost predicate CarriesPin(ms: map<Text, Json>, p: Pin) {
    CarriesNumbers(ms, p.header) && CarriesTexts(ms, p.header) && CarriesOptions(ms, p.header) && CarriesSig(ms, p.sig)
  }

  lemma FieldsCarried(ms: map<Text, Json>, nfc: Normalizer, acceptV1: bool, p: Pin)
    requires MeetsRules(nfc, p, acceptV1)
    ensures Attestation.Carries(FieldsOf(ms), p) && IsOptionalHash(FieldsOf(ms)) <==>
            && CarriesNumbers(ms, p.header) && CarriesTexts(ms, p.header) && CarriesSig(ms, p.sig)
            && (match p.header.modelHash
                case Some(t) => IsString(ms, "model_hash", t)
                case None => Ascii("model_hash") in ms ==> ms[Ascii("model_hash")] == Null)
  {
    NumbersCarried(ms, p.header);
    TextsCarried(ms, p.header);
    SigCarried(ms, p.sig);
    ModelHashCarried(ms, p.header.modelHash);
  }

  /** Main result. A dict is read as a pin exactly when it has no unknown member, carries the pin's fields, and the pin
      follows the rules; nothing but a dict is read at all. */
  lemma DictIff(nfc: Normalizer, d: Json, acceptV1: bool, p: Pin)
    ensures FromDict(nfc, d, acceptV1) == Some(p) <==>
            d.Obj? && OnlyKnownFields(d.members) && CarriesPin(d.members, p) && FollowsRules(nfc, p, acceptV1)
  {
    RulesMean(nfc, p, acceptV1);
    SizeGuard.GuardDecidesNothing(nfc, d, acceptV1);
    if FromDict(nfc, d, acceptV1) == Some(p) {
      ParsedMeetsRules(nfc, d, acceptV1, p);
    }
    if d.Obj? && OnlyKnownFields(d.members) && MeetsRules(nfc, p, acceptV1) {
      ParsedIffRead(nfc, FieldsOf(d.members), acceptV1, p);
      ReadWhenRules(nfc, FieldsOf(d.members), acceptV1, p);
      FieldsCarried(d.members, nfc, acceptV1, p);
      ExtraCarried(nfc, d.members, p.header.v == 2, p.header.extra);
    }
  }
}
