/** The Python and the TypeScript parser on one dict, over code points here and over code units there: exactly when
    they accept it alike, and that they then read the same pin. */
module PortParsers {
  import opened Common
  import opened Utf
  import opened JsonText
  import opened Hashing
  import opened Attestation
  import opened TsPins
  import opened TsCanonical
  import Base64Url
  import SizeGuard
  import Timestamps

  // ---- the same dict in both languages ----

  /** Every string of the value is well-formed Unicode. */
  ghost predicate Clean(j: Json)
    decreases j
  {
    match j
    case Str(s) => SurrogateFree(s)
    case Arr(es) => forall i :: 0 <= i < |es| ==> Clean(es[i])
    case Obj(m) => forall k :: k in m ==> SurrogateFree(k) && Clean(m[k])
    case _ => true
  }

  lemma KeysBack(keys: set<Text>)
    requires CleanKeys(keys)
    ensures forall u :: u in UnitKeys(keys) ==> IsUnits(u) && WellFormed16(u) && Decode16(u) in keys
    ensures forall k :: k in keys ==> Utf16(k) in UnitKeys(keys) && WellFormed16(Utf16(k)) && Decode16(Utf16(k)) == k
  {
    forall k | k in keys
      ensures WellFormed16(Utf16(k)) && Decode16(Utf16(k)) == k
    {
      DecodeBack(k);
    }
  }

  /** The value over code-unit strings. */
  ghost function Units(j: Json): Json
    requires Clean(j)
    decreases j
  {
    match j
    case Str(s) => Str(Utf16(s))
    case Arr(es) => Arr(seq(|es|, i requires 0 <= i < |es| => Units(es[i])))
    case Obj(m) =>
      KeysBack(m.Keys);
      Obj(map u | u in UnitKeys(m.Keys) :: Units(m[Decode16(u)]))
    case _ => j
  }

  lemma UnitMembers(m: map<Text, Json>)
    requires Clean(Obj(m))
    ensures Units(Obj(m)).Obj?
    ensures var n := Units(Obj(m)).members;
            && (forall k :: k in m ==> Utf16(k) in n && n[Utf16(k)] == Units(m[k]))
            && (forall u :: u in n ==> exists k :: k in m && Utf16(k) == u)
  {
    KeysBack(m.Keys);
  }

  ghost predicate CleanFields(m: map<Field, Json>) {
    forall f :: f in m ==> Clean(m[f])
  }

  ghost function UnitFieldsOf(m: map<Field, Json>): map<Field, Json>
    requires CleanFields(m)
  {
    map f | f in m :: Units(m[f])
  }

  lemma NameIsItself(f: Field)
    ensures Utf16(Name(f)) == Name(f) && SurrogateFree(Name(f))
  {
    NameIsAscii(f);
    Timestamps.AsciiText(Name(f));
  }

  lemma NameBack(k: Text, f: Field)
    requires SurrogateFree(k)
    ensures Utf16(k) == Name(f) <==> k == Name(f)
  {
    NameIsItself(f);
    if Utf16(k) == Name(f) {
      Utf16Injective(k, Name(f));
    }
  }

  lemma NameInUnits(ms: map<Text, Json>, f: Field)
    requires Clean(Obj(ms))
    ensures var ns := Units(Obj(ms)).members;
            (Name(f) in ns <==> Name(f) in ms) && (Name(f) in ms ==> ns[Name(f)] == Units(ms[Name(f)]))
  {
    UnitMembers(ms);
    NameIsItself(f);
    var ns := Units(Obj(ms)).members;
    if Name(f) in ns {
      var k :| k in ms && Utf16(k) == Name(f);
      NameBack(k, f);
    }
  }

  lemma FieldsOfUnits(ms: map<Text, Json>)
    requires Clean(Obj(ms))
    ensures CleanFields(FieldsOf(ms)) && FieldsOf(Units(Obj(ms)).members) == UnitFieldsOf(FieldsOf(ms))
  {
    forall f: Field
      ensures var ns := Units(Obj(ms)).members;
              (Name(f) in ns <==> Name(f) in ms) && (Name(f) in ms ==> ns[Name(f)] == Units(ms[Name(f)]))
    {
      NameInUnits(ms, f);
    }
  }

  lemma KnownUnits(ms: map<Text, Json>)
    requires Clean(Obj(ms))
    ensures OnlyKnownFields(Units(Obj(ms)).members) <==> OnlyKnownFields(ms)
  {
    var ns := Units(Obj(ms)).members;
    UnitMembers(ms);
    if OnlyKnownFields(ns) {
      forall k | k in ms
        ensures exists f: Field :: Name(f) == k
      {
        var f: Field :| Name(f) == Utf16(k);
        NameBack(k, f);
      }
    }
    if OnlyKnownFields(ms) {
      forall u | u in ns
        ensures exists f: Field :: Name(f) == u
      {
        var k :| k in ms && Utf16(k) == u;
        var f: Field :| Name(f) == k;
        NameIsItself(f);
      }
    }
  }

  // ---- strings ----

  /** The two normalizers call the same texts normal. */
  ghost predicate NormalAlike(nfc: Normalizer, nfc16: Normalizer) {
    forall t: Text :: SurrogateFree(t) ==> (nfc16(Utf16(t)) == Utf16(t) <==> nfc(t) == t)
  }

  lemma CapAlike(t: Text, limit: nat)
    requires SurrogateFree(t)
    ensures UnitsWithinCap(Utf16(t), limit) <==> |Utf8Raw(t)| <= limit
    ensures WithinCap(t, limit) <==> |Utf8Raw(t)| <= limit
    ensures Utf16(t) == [] <==> t == []
  {
    ByteCapsAgree(t, limit);
  }

  lemma StringAlike(nfc: Normalizer, nfc16: Normalizer, t: Text, strict: bool)
    requires SurrogateFree(t) && NormalAlike(nfc, nfc16)
    ensures UnitsOk(nfc16, Utf16(t), strict) <==> StringOk(nfc, t, strict)
  {
    EncodeIsWellFormed16(t);
    UnitScanIsCodePointScan(t);
    assert nfc16(Utf16(t)) == Utf16(t) <==> nfc(t) == t;
  }

  lemma FieldAlike(m: map<Field, Json>, f: Field)
    requires CleanFields(m)
    ensures var s := StrField(m, f);
            && StrField(UnitFieldsOf(m), f) == (if s.None? then None else Some(Utf16(s.value)))
            && (s.Some? ==> SurrogateFree(s.value))
  {
  }

  lemma NamedAlike(nfc: Normalizer, nfc16: Normalizer, m: map<Field, Json>, f: Field, limit: nat, strict: bool)
    requires CleanFields(m) && NormalAlike(nfc, nfc16)
    ensures TsNamedOk(nfc16, UnitFieldsOf(m), f, limit, strict) <==> NamedStringOk(nfc, m, f, limit, strict)
  {
    FieldAlike(m, f);
    if StrField(m, f).Some? {
      CapAlike(StrField(m, f).value, limit);
      StringAlike(nfc, nfc16, StrField(m, f).value, strict);
    }
  }

  /** ASCII text is the same in both. */
  lemma SameAscii(t: Text)
    ensures Timestamps.IsAscii(t) || Timestamps.IsAscii(Utf16(t)) ==> Utf16(t) == t
  {
    Timestamps.AsciiEncodingOnly(t);
    if Timestamps.IsAscii(t) {
      Timestamps.AsciiText(t);
    }
  }

  lemma HashIsAscii(t: Text)
    requires IsHashString(t)
    ensures Timestamps.IsAscii(t)
  {
    assert forall i :: 0 <= i < 7 ==> t[i] == t[..7][i] == Ascii("sha256:")[i] && t[i] < 0x80;
  }

  lemma HashAlike(t: Text)
    ensures IsHashString(Utf16(t)) <==> IsHashString(t)
  {
    SameAscii(t);
    if IsHashString(t) {
      HashIsAscii(t);
    }
    if IsHashString(Utf16(t)) {
      HashIsAscii(Utf16(t));
    }
  }

  lemma WordAlike(t: Text, word: Text)
    requires Timestamps.IsAscii(word)
    ensures Utf16(t) == word <==> t == word
  {
    SameAscii(t);
  }

  lemma TsShapeAlike(t: Text)
    ensures Timestamps.IsValidCalendarTs(Utf16(t)) <==> Timestamps.ParseTsOf(t).Some?
    ensures Timestamps.ParseTsOf(t).Some? ==> |Utf8Raw(t)| == 20
  {
    SameAscii(t);
    Timestamps.TsCheckIsCivil(Utf16(t));
    if Timestamps.HasTsShape(t) {
      Timestamps.ShapeIsAscii(t);
      Timestamps.AsciiText(t);
    }
    if Timestamps.HasTsShape(Utf16(t)) {
      Timestamps.ShapeIsAscii(Utf16(t));
    }
  }

  lemma AlphabetIsAscii(t: Text)
    requires Base64Url.InAlphabet(t)
    ensures Timestamps.IsAscii(t)
  {
  }

  lemma DecodeAlike(t: Text)
    ensures Base64Url.Decode(Utf16(t)) == Base64Url.PyDecode(t)
    ensures Base64Url.PyDecode(t).Some? ==> Utf16(t) == t
  {
    SameAscii(t);
    Base64Url.PortsDecodeAlike(Utf16(t));
    if Base64Url.InAlphabet(t) {
      AlphabetIsAscii(t);
    }
    if Base64Url.InAlphabet(Utf16(t)) {
      AlphabetIsAscii(Utf16(t));
    }
  }

  lemma SigAlike(m: map<Field, Json>)
    requires CleanFields(m)
    ensures TsSigOf(UnitFieldsOf(m)) == SigOf(m)
  {
    FieldAlike(m, Sig);
    if StrField(m, Sig).Some? {
      DecodeAlike(StrField(m, Sig).value);
    }
  }

  // ---- numbers ----

  /** What doubles make of an integer literal beyond 2^53 or below zero: nothing a version or a dimension can be. */
  ghost predicate IsSane(decode: Text -> Option<int>) {
    forall x: Text :: IntOf(x).Some? && !(AllDigitsText(x) && DecimalValue(x) <= MAX_EXACT) ==>
                        decode(x).None? || decode(x).value <= 0 || decode(x).value >= MAX_EXACT
  }

  lemma NumberAlike(decode: Text -> Option<int>, x: Text, n: int)
    requires IsSane(decode) && IntOf(x).Some? && 0 < n < MAX_EXACT
    ensures NumberOf(decode, x) == Some(n) <==> IntOf(x) == Some(n)
  {
  }

  lemma NumFieldAlike(decode: Text -> Option<int>, m: map<Field, Json>, f: Field, n: int)
    requires CleanFields(m) && IsSane(decode) && IntField(m, f).Some? && 0 < n < MAX_EXACT
    ensures NumField(decode, UnitFieldsOf(m), f) == Some(n) <==> IntField(m, f) == Some(n)
  {
    NumberAlike(decode, m[f].lexeme, n);
  }

  // ---- what each asks that the other does not ----

  predicate NoReserved(m: map<Field, Json>) {
    Extra in m && m[Extra].Obj? ==> forall k :: k in m[Extra].members ==> !IsForbidden(k)
  }

  /** TypeScript alone: no reserved key in `extra`, and no hash string with a final newline. */
  predicate TsAsks(m: map<Field, Json>) {
    NoReserved(m) && TsHashesOk(m)
  }

  /** Python alone: the numbers written as integers, the year of a v2 timestamp at least 1, and a v1 timestamp with
      neither control nor bidi characters. */
  predicate PyAsks(m: map<Field, Json>) {
    && IntField(m, Version).Some? && IntField(m, VecDim).Some? && StrField(m, Ts).Some?
    && (if IntField(m, Version).value == 2 then CalendarTs(StrField(m, Ts).value) else SafeText(StrField(m, Ts).value))
  }

  lemma HashesAlike(m: map<Field, Json>)
    requires CleanFields(m)
    ensures TsHashesOk(UnitFieldsOf(m)) <==> TsHashesOk(m)
    ensures TsHashesOk(m) ==> HashesOk(m)
  {
    FieldAlike(m, SourceHash);
    FieldAlike(m, VecHash);
    HashFieldAlike(m, SourceHash);
    HashFieldAlike(m, VecHash);
    HashFieldAlike(m, ModelHash);
    assert ModelHash in m ==> (UnitFieldsOf(m)[ModelHash].Null? <==> m[ModelHash].Null?);
  }

  lemma HashFieldAlike(m: map<Field, Json>, f: Field)
    requires CleanFields(m)
    ensures var u := UnitFieldsOf(m);
            (f in u && u[f].Str? && IsHashString(u[f].s)) <==> (f in m && m[f].Str? && IsHashString(m[f].s))
  {
    if f in m && m[f].Str? {
      HashAlike(m[f].s);
    }
  }

  predicate IsDtype(s: Option<Text>) {
    s.Some? && (s.value == Ascii("f32") || s.value == Ascii("f64"))
  }

  lemma DtypeAlike(m: map<Field, Json>)
    requires CleanFields(m)
    ensures var s, u := StrField(m, VecDtype), StrField(UnitFieldsOf(m), VecDtype);
            IsDtype(u) <==> IsDtype(s)
  {
    FieldAlike(m, VecDtype);
    if StrField(m, VecDtype).Some? {
      WordAlike(StrField(m, VecDtype).value, Ascii("f32"));
      WordAlike(StrField(m, VecDtype).value, Ascii("f64"));
    }
  }

  lemma TsAlike(nfc: Normalizer, nfc16: Normalizer, m: map<Field, Json>, strict: bool)
    requires CleanFields(m) && NormalAlike(nfc, nfc16) && StrField(m, Ts).Some?
    requires if strict then Timestamps.ParseTsOf(StrField(m, Ts).value).Some? ==> CalendarTs(StrField(m, Ts).value)
             else SafeText(StrField(m, Ts).value)
    ensures var u := UnitFieldsOf(m);
            (TsNamedOk(nfc16, u, Ts, MAX_MODEL_BYTES, strict)
             && (strict ==> Timestamps.IsValidCalendarTs(StrField(u, Ts).value)))
            <==> StrField(m, Ts).value != [] && TsOk(nfc, StrField(m, Ts).value, strict)
  {
    FieldAlike(m, Ts);
    NamedAlike(nfc, nfc16, m, Ts, MAX_MODEL_BYTES, strict);
    TsShapeAlike(StrField(m, Ts).value);
    CapAlike(StrField(m, Ts).value, MAX_MODEL_BYTES);
  }

  // ---- the extra map ----

  lemma ForbiddenAlike(k: Text)
    ensures IsForbidden(Utf16(k)) <==> IsForbidden(k)
  {
    SameAscii(k);
    ForbiddenIsAscii(k);
    ForbiddenIsAscii(Utf16(k));
  }

  lemma ForbiddenIsAscii(k: Text)
    ensures IsForbidden(k) ==> Timestamps.IsAscii(k)
  {
  }

  lemma EntryAlike(nfc: Normalizer, nfc16: Normalizer, k: Text, val: Json, strict: bool)
    requires SurrogateFree(k) && Clean(val) && NormalAlike(nfc, nfc16)
    ensures TsEntryOk(nfc16, Utf16(k), Units(val), strict) <==> !IsForbidden(k) && EntryOk(nfc, k, val, strict)
  {
    ForbiddenAlike(k);
    CapAlike(k, MAX_EXTRA_KEY_BYTES);
    StringAlike(nfc, nfc16, k, strict);
    if val.Str? {
      CapAlike(val.s, MAX_EXTRA_VALUE_BYTES);
      StringAlike(nfc, nfc16, val.s, strict);
    }
  }

  lemma {:induction false} UnitCount(keys: set<Text>)
    requires CleanKeys(keys)
    ensures |UnitKeys(keys)| == |keys|
    decreases |keys|
  {
    if keys == {} {
      assert UnitKeys(keys) == {};
    } else {
      var k :| k in keys;
      var rest := keys - {k};
      UnitCount(rest);
      KeyIsNew(keys, k);
      assert UnitKeys(keys) == UnitKeys(rest) + {Utf16(k)};
      assert |keys| == |rest| + 1;
    }
  }

  lemma KeyIsNew(keys: set<Text>, k: Text)
    requires CleanKeys(keys) && k in keys
    ensures Utf16(k) !in UnitKeys(keys - {k})
  {
    if Utf16(k) in UnitKeys(keys - {k}) {
      var o :| o in keys - {k} && Utf16(o) == Utf16(k);
      Utf16Injective(o, k);
    }
  }

  lemma MembersAlike(m: map<Text, Json>)
    requires Clean(Obj(m))
    ensures |Units(Obj(m)).members| == |m|
  {
    UnitKeysOf(m);
    UnitCount(m.Keys);
    var n := Units(Obj(m)).members;
    assert |n.Keys| == |n| && |m.Keys| == |m|;
  }

  lemma UnitKeysOf(m: map<Text, Json>)
    requires Clean(Obj(m))
    ensures Units(Obj(m)).members.Keys == UnitKeys(m.Keys)
  {
    UnitMembers(m);
  }

  lemma EntriesAlike(nfc: Normalizer, nfc16: Normalizer, m: map<Text, Json>, strict: bool)
    requires Clean(Obj(m)) && NormalAlike(nfc, nfc16)
    ensures var n := Units(Obj(m)).members;
            (forall u :: u in n ==> TsEntryOk(nfc16, u, n[u], strict))
            <==> (forall k :: k in m ==> !IsForbidden(k) && EntryOk(nfc, k, m[k], strict))
  {
    UnitMembers(m);
    forall k | k in m
      ensures TsEntryOk(nfc16, Utf16(k), Units(m[k]), strict) <==> !IsForbidden(k) && EntryOk(nfc, k, m[k], strict)
    {
      EntryAlike(nfc, nfc16, k, m[k], strict);
    }
  }

  lemma ExtraAlike(nfc: Normalizer, nfc16: Normalizer, m: map<Field, Json>, strict: bool)
    requires CleanFields(m) && NormalAlike(nfc, nfc16)
    ensures TsExtraOf(nfc16, UnitFieldsOf(m), strict).Some?
            <==> ExtraOf(nfc, m, strict).Some? && NoReserved(m)
  {
    if Extra in m && m[Extra].Obj? {
      MembersAlike(m[Extra].members);
      EntriesAlike(nfc, nfc16, m[Extra].members, strict);
    }
  }

  lemma CleanExtra(nfc: Normalizer, m: map<Field, Json>, strict: bool)
    requires ExtraOf(nfc, m, strict).Some?
    ensures var e := ExtraOf(nfc, m, strict).value;
            CleanKeys(e.Keys) && forall k :: k in e ==> SurrogateFree(e[k])
  {
    var e := ExtraOf(nfc, m, strict).value;
    if Extra in m {
      forall k | k in e
        ensures SurrogateFree(k) && SurrogateFree(e[k])
      {
        assert k in StrMap(e).members && StrMap(e).members[k] == Str(e[k]);
        assert EntryOk(nfc, k, m[Extra].members[k], strict);
      }
    }
  }

  lemma StrMapKeys(e: map<Text, Text>)
    ensures StrMap(e).members.Keys == e.Keys
  {
  }

  lemma StrMapUnits(e: map<Text, Text>)
    requires CleanKeys(e.Keys) && (forall k :: k in e ==> SurrogateFree(e[k])) && Clean(StrMap(e))
    ensures Units(StrMap(e)) == StrMap(UnitMap(e))
  {
    UnitKeysOf(StrMap(e).members);
    StrMapKeys(e);
    StrMapKeys(UnitMap(e));
    forall u | u in UnitKeys(e.Keys)
      ensures Units(StrMap(e)).members[u] == StrMap(UnitMap(e)).members[u]
    {
      var k :| k in e && Utf16(k) == u;
      StrMapUnit(e, k);
    }
    SameMap(Units(StrMap(e)).members, StrMap(UnitMap(e)).members);
  }

  lemma SameMap(a: map<Text, Json>, b: map<Text, Json>)
    requires a.Keys == b.Keys && forall k :: k in a.Keys ==> a[k] == b[k]
    ensures a == b
  {
  }

  lemma StrMapUnit(e: map<Text, Text>, k: Text)
    requires CleanKeys(e.Keys) && k in e && SurrogateFree(e[k]) && Clean(StrMap(e))
    ensures Utf16(k) in Units(StrMap(e)).members && Utf16(k) in StrMap(UnitMap(e)).members
    ensures Units(StrMap(e)).members[Utf16(k)] == StrMap(UnitMap(e)).members[Utf16(k)]
  {
    UnitMembers(StrMap(e).members);
    assert StrMap(e).members[k] == Str(e[k]);
  }

  /** Both read the same map. */
  lemma ExtraSame(nfc: Normalizer, nfc16: Normalizer, m: map<Field, Json>, strict: bool)
    requires CleanFields(m) && ExtraOf(nfc, m, strict).Some? && TsExtraOf(nfc16, UnitFieldsOf(m), strict).Some?
    ensures CleanKeys(ExtraOf(nfc, m, strict).value.Keys)
    ensures TsExtraOf(nfc16, UnitFieldsOf(m), strict).value == UnitMap(ExtraOf(nfc, m, strict).value)
  {
    var e, t := ExtraOf(nfc, m, strict).value, TsExtraOf(nfc16, UnitFieldsOf(m), strict).value;
    CleanExtra(nfc, m, strict);
    if Extra in m {
      StrMapUnits(e);
      assert UnitFieldsOf(m)[Extra] == Units(m[Extra]);
      StrMapInjective(t, UnitMap(e));
    } else {
      assert UnitMap(e) == map[];
    }
  }

  // ---- the whole parsers ----

  lemma ScalarsAlike(nfc: Normalizer, nfc16: Normalizer, decode: Text -> Option<int>, m: map<Field, Json>, strict: bool)
    requires CleanFields(m) && NormalAlike(nfc, nfc16) && IsSane(decode)
    requires PyAsks(m) && TsHashesOk(m) && (strict <==> IntField(m, Version).value == 2)
    ensures TsScalarsOk(nfc16, decode, UnitFieldsOf(m), strict) <==> ScalarsOk(nfc, m, strict)
  {
    NamedAlike(nfc, nfc16, m, Model, MAX_MODEL_BYTES, strict);
    NamedAlike(nfc, nfc16, m, Kid, MAX_KID_BYTES, strict);
    TsAlike(nfc, nfc16, m, strict);
    DtypeAlike(m);
    HashesAlike(m);
    DimensionAlike(decode, m);
    FieldAlike(m, Ts);
  }

  lemma DimensionAlike(decode: Text -> Option<int>, m: map<Field, Json>)
    requires CleanFields(m) && IsSane(decode) && IntField(m, VecDim).Some?
    ensures var a, b := NumField(decode, UnitFieldsOf(m), VecDim), IntField(m, VecDim);
            (a.Some? && 0 < a.value <= MAX_VEC_DIM) <==> 0 < b.value <= MAX_VEC_DIM
    ensures var a, b := NumField(decode, UnitFieldsOf(m), VecDim), IntField(m, VecDim);
            0 < b.value <= MAX_VEC_DIM ==> a == b
  {
    var a, b := NumField(decode, UnitFieldsOf(m), VecDim), IntField(m, VecDim);
    if a.Some? && 0 < a.value <= MAX_VEC_DIM {
      NumFieldAlike(decode, m, VecDim, a.value);
    }
    if 0 < b.value <= MAX_VEC_DIM {
      NumFieldAlike(decode, m, VecDim, b.value);
    }
  }

  predicate IsVersion(v: Option<int>, acceptV1: bool) {
    v.Some? && (v.value == 2 || (acceptV1 && v.value == 1))
  }

  lemma VersionAlike(decode: Text -> Option<int>, m: map<Field, Json>, acceptV1: bool)
    requires CleanFields(m) && IsSane(decode) && IntField(m, Version).Some?
    ensures var a, b := NumField(decode, UnitFieldsOf(m), Version), IntField(m, Version);
            (IsVersion(a, acceptV1) <==> IsVersion(b, acceptV1)) && (IsVersion(b, acceptV1) ==> a == b)
  {
    NumFieldAlike(decode, m, Version, 1);
    NumFieldAlike(decode, m, Version, 2);
  }

  lemma PyAccepts(nfc: Normalizer, m: map<Field, Json>, acceptV1: bool)
    ensures FromFields(nfc, m, acceptV1).Some? <==>
              var v := IntField(m, Version);
              && IsVersion(v, acceptV1) && ScalarsOk(nfc, m, v.value == 2)
              && ExtraOf(nfc, m, v.value == 2).Some? && SigOf(m).Some?
  {
  }

  lemma TsAccepts(nfc: Normalizer, decode: Text -> Option<int>, m: map<Field, Json>, acceptV1: bool)
    ensures TsFromFields(nfc, decode, m, acceptV1).Some? <==>
              var v := NumField(decode, m, Version);
              && IsVersion(v, acceptV1) && TsScalarsOk(nfc, decode, m, v.value == 2)
              && TsExtraOf(nfc, m, v.value == 2).Some? && TsSigOf(m).Some?
  {
  }

  /** On the same fields, each parser's extra demands decide. */
  lemma FieldsAlike(
    nfc: Normalizer, nfc16: Normalizer, decode: Text -> Option<int>, m: map<Field, Json>, acceptV1: bool)
    requires CleanFields(m) && NormalAlike(nfc, nfc16) && IsSane(decode) && PyAsks(m) && TsAsks(m)
    ensures TsFromFields(nfc16, decode, UnitFieldsOf(m), acceptV1).Some? <==> FromFields(nfc, m, acceptV1).Some?
  {
    PyAccepts(nfc, m, acceptV1);
    TsAccepts(nfc16, decode, UnitFieldsOf(m), acceptV1);
    VersionAlike(decode, m, acceptV1);
    var strict := IntField(m, Version).value == 2;
    ScalarsAlike(nfc, nfc16, decode, m, strict);
    ExtraAlike(nfc, nfc16, m, strict);
    SigAlike(m);
  }

  lemma PyAcceptsMeans(nfc: Normalizer, m: map<Field, Json>, acceptV1: bool)
    requires FromFields(nfc, m, acceptV1).Some?
    ensures PyAsks(m)
  {
  }

  lemma TsAcceptsMeans(
    nfc: Normalizer, nfc16: Normalizer, decode: Text -> Option<int>, m: map<Field, Json>, acceptV1: bool)
    requires CleanFields(m) && NormalAlike(nfc, nfc16)
    requires TsFromFields(nfc16, decode, UnitFieldsOf(m), acceptV1).Some?
    ensures TsAsks(m)
  {
    HashesAlike(m);
    TsAccepts(nfc16, decode, UnitFieldsOf(m), acceptV1);
    ExtraAlike(nfc, nfc16, m, NumField(decode, UnitFieldsOf(m), Version).value == 2);
  }

  /** The pin over code-unit strings. */
  ghost function UnitPin(p: Pin): Pin
    requires IsClean(p.header)
  {
    Pin(UnitsOf(p.header), p.sig)
  }

  lemma PinsAlike(
    nfc: Normalizer, nfc16: Normalizer, decode: Text -> Option<int>, m: map<Field, Json>, acceptV1: bool,
    p: Pin, q: TsPin)
    requires CleanFields(m) && IsSane(decode)
    requires FromFields(nfc, m, acceptV1) == Some(p)
    requires TsFromFields(nfc16, decode, UnitFieldsOf(m), acceptV1) == Some(q)
    ensures IsClean(p.header) && q == TsPin(UnitPin(p), Extra in m)
  {
    NumbersAlike(nfc, nfc16, decode, m, acceptV1, p, q);
    ExtrasAlike(nfc, nfc16, decode, m, acceptV1, p, q);
    StringsAlike(nfc, nfc16, decode, m, acceptV1, p, q);
    SigsAlike(nfc, nfc16, decode, m, acceptV1, p, q);
    SameHeader(p.header, q.pin.header);
  }

  lemma NumbersAlike(
    nfc: Normalizer, nfc16: Normalizer, decode: Text -> Option<int>, m: map<Field, Json>, acceptV1: bool,
    p: Pin, q: TsPin)
    requires CleanFields(m) && IsSane(decode)
    requires FromFields(nfc, m, acceptV1) == Some(p)
    requires TsFromFields(nfc16, decode, UnitFieldsOf(m), acceptV1) == Some(q)
    ensures q.pin.header.v == p.header.v && q.pin.header.vecDim == p.header.vecDim
  {
    ParsedIffRead(nfc, m, acceptV1, p);
    TsParsedIffRead(nfc16, decode, UnitFieldsOf(m), acceptV1, q);
    VersionAlike(decode, m, acceptV1);
    DimensionAlike(decode, m);
  }

  lemma ExtrasAlike(
    nfc: Normalizer, nfc16: Normalizer, decode: Text -> Option<int>, m: map<Field, Json>, acceptV1: bool,
    p: Pin, q: TsPin)
    requires CleanFields(m) && p.header.v == q.pin.header.v
    requires FromFields(nfc, m, acceptV1) == Some(p)
    requires TsFromFields(nfc16, decode, UnitFieldsOf(m), acceptV1) == Some(q)
    ensures CleanKeys(p.header.extra.Keys) && forall k :: k in p.header.extra ==> SurrogateFree(p.header.extra[k])
    ensures q.pin.header.extra == UnitMap(p.header.extra) && (q.extraGiven <==> Extra in m)
  {
    ParsedIffRead(nfc, m, acceptV1, p);
    TsParsedIffRead(nfc16, decode, UnitFieldsOf(m), acceptV1, q);
    ExtraSame(nfc, nfc16, m, p.header.v == 2);
    CleanExtra(nfc, m, p.header.v == 2);
  }

  lemma SigsAlike(
    nfc: Normalizer, nfc16: Normalizer, decode: Text -> Option<int>, m: map<Field, Json>, acceptV1: bool,
    p: Pin, q: TsPin)
    requires CleanFields(m)
    requires FromFields(nfc, m, acceptV1) == Some(p)
    requires TsFromFields(nfc16, decode, UnitFieldsOf(m), acceptV1) == Some(q)
    ensures q.pin.sig == p.sig
  {
    ParsedIffRead(nfc, m, acceptV1, p);
    TsParsedIffRead(nfc16, decode, UnitFieldsOf(m), acceptV1, q);
    SigAlike(m);
  }

  lemma StringsAlike(
    nfc: Normalizer, nfc16: Normalizer, decode: Text -> Option<int>, m: map<Field, Json>, acceptV1: bool,
    p: Pin, q: TsPin)
    requires CleanFields(m)
    requires FromFields(nfc, m, acceptV1) == Some(p)
    requires TsFromFields(nfc16, decode, UnitFieldsOf(m), acceptV1) == Some(q)
    ensures var h, u := p.header, q.pin.header;
            && SurrogateFree(h.kid) && SurrogateFree(h.model) && SurrogateFree(h.sourceHash)
            && SurrogateFree(h.vecHash) && SurrogateFree(h.vecDtype) && SurrogateFree(h.ts)
            && (h.modelHash.Some? ==> SurrogateFree(h.modelHash.value))
            && u.kid == Utf16(h.kid) && u.model == Utf16(h.model) && u.sourceHash == Utf16(h.sourceHash)
            && u.vecHash == Utf16(h.vecHash) && u.vecDtype == Utf16(h.vecDtype) && u.ts == Utf16(h.ts)
            && u.modelHash == (if h.modelHash.Some? then Some(Utf16(h.modelHash.value)) else None)
  {
    ParsedIffRead(nfc, m, acceptV1, p);
    TsParsedIffRead(nfc16, decode, UnitFieldsOf(m), acceptV1, q);
    FieldsAreUnits(m);
  }

  lemma FieldsAreUnits(m: map<Field, Json>)
    requires CleanFields(m)
    ensures forall f: Field :: StrField(m, f).Some? ==>
              SurrogateFree(StrField(m, f).value) && StrField(UnitFieldsOf(m), f) == Some(Utf16(StrField(m, f).value))
    ensures forall f: Field :: StrField(m, f).None? ==> StrField(UnitFieldsOf(m), f).None?
  {
    forall f: Field
      ensures StrField(m, f).Some? ==>
                SurrogateFree(StrField(m, f).value) && StrField(UnitFieldsOf(m), f) == Some(Utf16(StrField(m, f).value))
      ensures StrField(m, f).None? ==> StrField(UnitFieldsOf(m), f).None?
    {
      FieldAlike(m, f);
    }
  }

  lemma SameHeader(h: PinHeader, u: PinHeader)
    requires IsClean(h) && u.v == h.v && u.vecDim == h.vecDim && u.extra == UnitMap(h.extra)
    requires u.kid == Utf16(h.kid) && u.model == Utf16(h.model) && u.sourceHash == Utf16(h.sourceHash)
    requires u.vecHash == Utf16(h.vecHash) && u.vecDtype == Utf16(h.vecDtype) && u.ts == Utf16(h.ts)
    requires u.modelHash == if h.modelHash.Some? then Some(Utf16(h.modelHash.value)) else None
    ensures u == UnitsOf(h)
  {
  }

  /** What each of two readings of one dict tells about the other. */
  ghost predicate ReadAlike(py: Option<Pin>, ts: Option<TsPin>, m: map<Field, Json>) {
    && (py.Some? ==> (ts.Some? <==> TsAsks(m)))
    && (ts.Some? ==> (py.Some? <==> PyAsks(m)))
    && (py.Some? && ts.Some? ==> IsClean(py.value.header) && ts.value == TsPin(UnitPin(py.value), Extra in m))
  }

  lemma FieldsReadAlike(
    nfc: Normalizer, nfc16: Normalizer, decode: Text -> Option<int>, m: map<Field, Json>, acceptV1: bool)
    requires CleanFields(m) && NormalAlike(nfc, nfc16) && IsSane(decode)
    ensures ReadAlike(FromFields(nfc, m, acceptV1), TsFromFields(nfc16, decode, UnitFieldsOf(m), acceptV1), m)
  {
    var py, ts := FromFields(nfc, m, acceptV1), TsFromFields(nfc16, decode, UnitFieldsOf(m), acceptV1);
    if py.Some? {
      PyAcceptsMeans(nfc, m, acceptV1);
    }
    if ts.Some? {
      TsAcceptsMeans(nfc, nfc16, decode, m, acceptV1);
    }
    if PyAsks(m) && TsAsks(m) {
      FieldsAlike(nfc, nfc16, decode, m, acceptV1);
    }
    if py.Some? && ts.Some? {
      PinsAlike(nfc, nfc16, decode, m, acceptV1, py.value, ts.value);
    }
  }

  /** Main result. A dict the Python parser accepts is accepted by the TypeScript one exactly when it meets what that
      one asks in addition, and the other way round; and what both accept they read as the same pin. */
  lemma PortsParseAlike(nfc: Normalizer, nfc16: Normalizer, decode: Text -> Option<int>, d: Json, acceptV1: bool)
    requires Clean(d) && NormalAlike(nfc, nfc16) && IsSane(decode)
    ensures var py, ts := FromDict(nfc, d, acceptV1), TsFromDict(nfc16, decode, Units(d), acceptV1);
            if d.Obj? then ReadAlike(py, ts, FieldsOf(d.members)) else py.None? && ts.None?
  {
    SizeGuard.GuardDecidesNothing(nfc, d, acceptV1);
    if d.Obj? {
      FieldsReadAlike(nfc, nfc16, decode, CleanFieldsOf(d.members), acceptV1);
      UnitsAreRead(nfc16, decode, d.members, acceptV1);
    }
  }

  ghost function CleanFieldsOf(ms: map<Text, Json>): (m: map<Field, Json>)
    requires Clean(Obj(ms))
    ensures m == FieldsOf(ms) && CleanFields(m)
  {
    FieldsOfUnits(ms);
    FieldsOf(ms)
  }

  lemma UnitsAreRead(nfc16: Normalizer, decode: Text -> Option<int>, ms: map<Text, Json>, acceptV1: bool)
    requires Clean(Obj(ms))
    ensures TsFromDict(nfc16, decode, Units(Obj(ms)), acceptV1)
         == if OnlyKnownFields(ms) then TsFromFields(nfc16, decode, UnitFieldsOf(CleanFieldsOf(ms)), acceptV1) else None
  {
    FieldsOfUnits(ms);
    KnownUnits(ms);
  }
}
