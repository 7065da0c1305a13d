/** A pin the parser accepts can always be canonicalized, so verifying it never aborts on its content. */
module Encodable {
  import opened Common
  import opened Utf
  import opened JsonText
  import opened Hashing
  import opened Attestation
  import V = Verifier
  import VH = VectorHash

  /** Every string and number in the value has a UTF-8 form. */
  ghost predicate HasUtf8(j: Json)
    decreases j
  {
    match j
    case Num(x) => SurrogateFree(x)
    case Str(s) => SurrogateFree(s)
    case Arr(es) => forall i :: 0 <= i < |es| ==> HasUtf8(es[i])
    case Obj(m) => forall k :: k in m ==> SurrogateFree(k) && HasUtf8(m[k])
    case _ => true
  }

  /** What is printed has a UTF-8 form when its strings do. */
  lemma {:induction false} PrintFree(j: Json)
    requires HasUtf8(j)
    ensures SurrogateFree(Print(Python, j))
    decreases j
  {
    match j
    case Str(s) => QuoteFree(s);
    case Arr(es) =>
      forall i | 0 <= i < |es|
        ensures SurrogateFree(Print(Python, es[i]))
      {
        PrintFree(es[i]);
      }
      var parts := seq(|es|, i requires 0 <= i < |es| => Print(Python, es[i]));
      JoinFree(parts);
      BracketFree('[' as int, Join(parts), ']' as int);
    case Obj(m) =>
      var ks, parts := PrintedParts(Python, j);
      forall i | 0 <= i < |parts|
        ensures SurrogateFree(parts[i])
      {
        PrintFree(m[ks[i]]);
        MemberFree(ks[i], Print(Python, m[ks[i]]));
      }
      JoinFree(parts);
      BracketFree('{' as int, Join(parts), '}' as int);
    case _ =>
  }

  lemma NameFree(f: Field)
    ensures SurrogateFree(Name(f))
  {
    assert "v"[0] < 128 as char;
    LiteralFree("v");
    LiteralFree("kid");
    LiteralFree("model");
    LiteralFree("model_hash");
    LiteralFree("source_hash");
    LiteralFree("vec_hash");
    LiteralFree("vec_dtype");
    LiteralFree("vec_dim");
    LiteralFree("ts");
    LiteralFree("extra");
    LiteralFree("sig");
  }

  lemma LiteralFree(s: string)
    requires forall i :: 0 <= i < |s| ==> s[i] < 128 as char
    ensures SurrogateFree(Ascii(s))
  {
    assert forall i :: 0 <= i < |s| ==> Ascii(s)[i] == s[i] as int < 128;
  }

  lemma DecimalFree(n: nat)
    ensures SurrogateFree(Decimal(n))
  {
    assert forall i :: 0 <= i < |Decimal(n)| ==> IsDigit(Decimal(n)[i]);
  }

  lemma HashStringFree(t: Text)
    requires IsHashString(t)
    ensures SurrogateFree(t)
  {
    LiteralFree("sha256:");
    assert t[..7] == Ascii("sha256:");
    forall i | 0 <= i < |t|
      ensures !IsSurrogate(t[i])
    {
      assert i < 7 ==> t[i] == Ascii("sha256:")[i];
    }
  }

  lemma PyHashFree(t: Text)
    requires PyHashString(t)
    ensures SurrogateFree(t)
  {
    if IsHashString(t) {
      HashStringFree(t);
    } else {
      HashStringFree(t[..|t| - 1]);
      assert forall i :: 0 <= i < |t| - 1 ==> t[i] == t[..|t| - 1][i];
    }
  }

  /** Every string of a parsed header has a UTF-8 form. */
  lemma ParsedFieldFree(nfc: Normalizer, m: map<Field, Json>, acceptV1: bool, p: Pin, f: Field)
    requires Read(nfc, m, acceptV1, p) && Present(p.header, f)
    ensures HasUtf8(FieldValue(p.header, f))
  {
    match f
    case Version => DecimalFree(p.header.v);
    case VecDim => DecimalFree(p.header.vecDim);
    case Extra => ParsedExtraFree(nfc, m, p.header.v == 2, p.header.extra);
    case ModelHash | SourceHash | VecHash => ParsedHashFree(nfc, m, acceptV1, p, f);
    case _ => ParsedTextFree(nfc, m, acceptV1, p, f);
  }

  lemma ParsedTextFree(nfc: Normalizer, m: map<Field, Json>, acceptV1: bool, p: Pin, f: Field)
    requires Read(nfc, m, acceptV1, p) && (f == Kid || f == Model || f == Ts || f == VecDtype)
    ensures HasUtf8(FieldValue(p.header, f))
  {
    if f == VecDtype {
      LiteralFree("f32");
      LiteralFree("f64");
    }
  }

  lemma ParsedHashFree(nfc: Normalizer, m: map<Field, Json>, acceptV1: bool, p: Pin, f: Field)
    requires Read(nfc, m, acceptV1, p) && Present(p.header, f) && (f == ModelHash || f == SourceHash || f == VecHash)
    ensures HasUtf8(FieldValue(p.header, f))
  {
    if f == ModelHash {
      PyHashFree(p.header.modelHash.value);
    } else if f == SourceHash {
      PyHashFree(p.header.sourceHash);
    } else {
      PyHashFree(p.header.vecHash);
    }
  }

  lemma ParsedExtraFree(nfc: Normalizer, m: map<Field, Json>, strict: bool, extra: map<Text, Text>)
    requires ExtraOf(nfc, m, strict) == Some(extra)
    ensures HasUtf8(StrMap(extra))
  {
    forall k | k in extra
      ensures SurrogateFree(k) && SurrogateFree(extra[k])
    {
      assert Extra in m && m[Extra] == StrMap(extra) && EntryOk(nfc, k, m[Extra].members[k], strict);
    }
  }

  lemma HeaderObjectFree(nfc: Normalizer, m: map<Field, Json>, acceptV1: bool, p: Pin, fields: map<Field, Json>)
    requires Read(nfc, m, acceptV1, p)
    requires forall f :: f in fields ==> Present(p.header, f) && fields[f] == FieldValue(p.header, f)
    ensures HasUtf8(Obj(ObjectOf(fields)))
  {
    var ms := ObjectOf(fields);
    forall k | k in ms
      ensures SurrogateFree(k) && HasUtf8(ms[k])
    {
      var f :| f in fields && Name(f) == k;
      NameFree(f);
      ParsedFieldFree(nfc, m, acceptV1, p, f);
    }
  }

  lemma LegacyCanonicalizes(nfc: Normalizer, m: map<Field, Json>, acceptV1: bool, p: Pin)
    requires Read(nfc, m, acceptV1, p)
    ensures CanonicalizeV1(p.header).Some?
  {
    HeaderObjectFree(nfc, m, acceptV1, p, HeaderFields(p.header) - {Kid});
    PrintFree(Obj(ObjectOf(HeaderFields(p.header) - {Kid})));
  }

  lemma NormalizedEncodes(nfc: Normalizer, h: PinHeader)
    requires IsNormalized(nfc, h) && HasUtf8(Obj(ObjectOf(HeaderFields(h))))
    ensures Canonicalize(nfc, h).Some?
  {
    NormalizedIdentity(nfc, h);
    PrintFree(Obj(ObjectOf(HeaderFields(h))));
  }

  lemma WholeHeaderFree(nfc: Normalizer, m: map<Field, Json>, acceptV1: bool, p: Pin)
    requires Read(nfc, m, acceptV1, p)
    ensures HasUtf8(Obj(ObjectOf(HeaderFields(p.header))))
  {
    HeaderObjectFree(nfc, m, acceptV1, p, HeaderFields(p.header));
  }

  lemma StrictCanonicalizes(nfc: Normalizer, m: map<Field, Json>, acceptV1: bool, p: Pin)
    requires Read(nfc, m, acceptV1, p) && p.header.v == 2
    ensures Canonicalize(nfc, p.header).Some?
  {
    ReadIsNormalized(nfc, m, acceptV1, p);
    WholeHeaderFree(nfc, m, acceptV1, p);
    NormalizedEncodes(nfc, p.header);
  }

  lemma ReadVersion(nfc: Normalizer, m: map<Field, Json>, acceptV1: bool, p: Pin)
    requires Read(nfc, m, acceptV1, p)
    ensures p.header.v == 1 || p.header.v == 2
  {
  }

  lemma DictIsRead(nfc: Normalizer, d: Json, acceptV1: bool, p: Pin)
    requires FromDict(nfc, d, acceptV1) == Some(p)
    ensures d.Obj? && Read(nfc, FieldsOf(d.members), acceptV1, p)
  {
    ParsedIffRead(nfc, FieldsOf(d.members), acceptV1, p);
  }

  /** Canonicalizing an accepted pin never raises, on the strict path and on the legacy one. */
  lemma ParsedPinCanonicalizes(env: V.Env, d: Json, acceptV1: bool, p: Pin)
    requires FromDict(env.nfc, d, acceptV1) == Some(p)
    ensures V.CanonicalFor(env, p.header).Some?
  {
    DictIsRead(env.nfc, d, acceptV1, p);
    ReadVersion(env.nfc, FieldsOf(d.members), acceptV1, p);
    if p.header.v == 1 {
      LegacyCanonicalizes(env.nfc, FieldsOf(d.members), acceptV1, p);
    } else {
      StrictCanonicalizes(env.nfc, FieldsOf(d.members), acceptV1, p);
    }
  }

  lemma ReadIsNormalized(nfc: Normalizer, m: map<Field, Json>, acceptV1: bool, p: Pin)
    requires Read(nfc, m, acceptV1, p) && p.header.v == 2
    ensures IsNormalized(nfc, p.header)
  {
    forall k | k in p.header.extra
      ensures nfc(k) == k && nfc(p.header.extra[k]) == p.header.extra[k]
    {
      assert m[Extra] == StrMap(p.header.extra);
      assert EntryOk(nfc, k, m[Extra].members[k], true);
    }
  }

  /** Verifying a pin the dict parser accepted reports `ParseError` exactly when the window raises, or the
      pin is authentic and the caller's source has no UTF-8 form or its vector, of the pinned length and
      no wider than the pinned dtype, holds an element that is not finite: nothing in the pin aborts it. */
  lemma ParsedPinNeverAborts(
    env: V.Env, keys: V.Registry, legacy: bool, d: Json, acceptV1: bool, p: Pin, want: V.Wanted)
    requires FromDict(env.nfc, d, acceptV1) == Some(p)
    ensures var h := p.header;
            V.VerifyWith(env, keys, legacy, p, want) == V.Rejected(V.ParseError) <==>
            && (h.v == 2 || (legacy && h.v == 1)) && |p.sig| == SIG_LEN && h.kid in keys
            && (|| V.WindowRaises(env, keys[h.kid], h.ts, want.trustedTime)
                || (V.Authentic(env, keys, legacy, p, want.trustedTime)
                    && (|| V.BadSource(env, want)
                        || (V.SourceOk(env, h, want) && want.vector.Some? && NotFinite(h, want.vector.value)))))
  {
    ParsedPinCanonicalizes(env, d, acceptV1, p);
    ParsedDtype(env.nfc, d, acceptV1, p);
    V.ParseErrorMeans(env, keys, legacy, p, want);
  }

  /** A vector of the right shape with an infinity or a NaN in it. */
  predicate NotFinite(h: PinHeader, v: VH.Vector) {
    && v.FloatVector? && |v.floats| == h.vecDim && VH.FormatOf(h.vecDtype).Some?
    && !VH.IsWiderThan(v, VH.FormatOf(h.vecDtype).value) && !VH.AllFinite(v.format, v.floats)
  }

  lemma ParsedDtype(nfc: Normalizer, d: Json, acceptV1: bool, p: Pin)
    requires FromDict(nfc, d, acceptV1) == Some(p)
    ensures VH.FormatOf(p.header.vecDtype).Some?
  {
    ParsedIffRead(nfc, FieldsOf(d.members), acceptV1, p);
  }
}
