/** The honest signing step: what `Signer.pin` puts into a header, and that a verifier accepts it. */
module Signing {
  import opened Common
  import opened Utf
  import opened JsonText
  import opened Hashing
  import opened Floats
  import opened VectorHash
  import opened Attestation
  import SizeGuard
  import Timestamps
  import V = Verifier

  /** The arguments of `Signer.pin`; `extra` as the dict's items in order, `ts` already formatted. */
  datatype Request = Request(
    source: Text, model: Text, vector: Vector, vecDtype: Option<Text>, modelHash: Option<Text>, ts: Text,
    extra: seq<(Text, Text)>)

  /** `_normalize_str`: normal form, refused when it holds a banned character. */
  function NormalizeStr(nfc: Normalizer, t: Text): (r: Option<Text>)
    ensures r.Some? ==> r.value == nfc(t) && SafeText(r.value)
  {
    if SafeText(nfc(t)) then Some(nfc(t)) else None
  }

  /** The normalized `extra`: a later item replaces an earlier one whose key has the same normal form. */
  function ExtraNorm(nfc: Normalizer, items: seq<(Text, Text)>): Option<map<Text, Text>> {
    if items == [] then Some(map[])
    else
      var n := |items| - 1;
      var front := ExtraNorm(nfc, items[..n]);
      var k, val := NormalizeStr(nfc, items[n].0), NormalizeStr(nfc, items[n].1);
      if front.None? || k.None? || val.None? then None else Some(front.value[k.value := val.value])
  }

  lemma {:induction false} ExtraFails(nfc: Normalizer, items: seq<(Text, Text)>, n: nat)
    requires n <= |items| && ExtraNorm(nfc, items[..n]).None?
    ensures ExtraNorm(nfc, items).None?
    decreases |items|
  {
    if n == |items| {
      assert items[..n] == items;
    } else {
      assert items[..|items| - 1][..n] == items[..n];
      ExtraFails(nfc, items[..|items| - 1], n);
    }
  }

  /** The loop that fills `extra_norm`. */
  method NormalizeExtra(nfc: Normalizer, items: seq<(Text, Text)>) returns (r: Option<map<Text, Text>>)
    ensures r == ExtraNorm(nfc, items)
  {
    var extra: map<Text, Text> := map[];
    var i := 0;
    while i < |items|
      invariant 0 <= i <= |items| && ExtraNorm(nfc, items[..i]) == Some(extra)
    {
      assert items[..i + 1][..i] == items[..i];
      var k, val := NormalizeStr(nfc, items[i].0), NormalizeStr(nfc, items[i].1);
      if k.None? || val.None? {
        ExtraFails(nfc, items, i + 1);
        return None;
      }
      extra := extra[k.value := val.value];
      i := i + 1;
    }
    assert items[..i] == items;
    return Some(extra);
  }

  ghost predicate IsIdempotent(nfc: Normalizer) {
    forall t: Text :: nfc(nfc(t)) == nfc(t)
  }

  lemma {:induction false} ExtraIsNormal(nfc: Normalizer, items: seq<(Text, Text)>)
    requires IsIdempotent(nfc) && ExtraNorm(nfc, items).Some?
    ensures var e := ExtraNorm(nfc, items).value; forall k :: k in e ==> nfc(k) == k && nfc(e[k]) == e[k]
  {
    if items != [] {
      ExtraIsNormal(nfc, items[..|items| - 1]);
    }
  }

  /** The dtype to hash under: the given one, or the array's own. */
  function TargetFormat(req: Request): Option<Format> {
    if req.vecDtype.None? then NativeFormat(req.vector) else FormatOf(req.vecDtype.value)
  }

  function FormatName(f: Format): Text { if f == F32 then Ascii("f32") else Ascii("f64") }

  /** What a signing commits to: the header, and the strings behind its two hashes. */
  datatype Made = Made(header: PinHeader, vectorBytes: Bytes, sourceBytes: Bytes)

  /** `Signer.pin` up to the signature; `None` where it raises. */
  function PinHeaderOf(env: V.Env, kid: Text, req: Request): Option<Made> {
    var to := TargetFormat(req);
    if req.vector.Shaped? || Length(req.vector) == Some(0) || to.None? then None
    else
      var cast: Vector := Cast(req.vector, to.value);
      var model := NormalizeStr(env.nfc, req.model);
      var source := Utf8(env.nfc(env.nfc(req.source)));
      var extra := ExtraNorm(env.nfc, req.extra);
      if !AllFinite(to.value, cast.floats) then None
      else if req.vector.FloatVector? && !AllFinite(req.vector.format, req.vector.floats) then None
      else if model.None? || model.value == [] || source.None? || extra.None? || env.nfc(req.ts) != req.ts then None
      else
        var bytes := CanonicalVectorBytes(cast, to.value).value;
        Some(Made(
          PinHeader(2, kid, model.value, HashBytes(env.sha, source.value), HashBytes(env.sha, bytes),
                    FormatName(to.value), |cast.floats|, req.ts, req.modelHash, extra.value),
          bytes, source.value))
  }

  lemma FormatNames(f: Format)
    requires f == F32 || f == F64
    ensures FormatOf(FormatName(f)) == Some(f)
  {
    assert Ascii("f32")[1] == '3' as int && Ascii("f64")[1] == '6' as int;
  }

  lemma TargetIsCanonical(req: Request)
    requires TargetFormat(req).Some?
    ensures TargetFormat(req).value == F32 || TargetFormat(req).value == F64
  {
  }

  /** What every signed header satisfies. */
  ghost predicate IsMade(env: V.Env, m: Made) {
    && m.header.v == 2 && IsNormalized(env.nfc, m.header)
    && m.header.vecHash == HashBytes(env.sha, m.vectorBytes)
    && m.header.sourceHash == HashBytes(env.sha, m.sourceBytes)
  }

  /** A signed header is in normal form and carries the hashes of the strings behind it. */
  lemma SignedHeaders(env: V.Env, kid: Text, req: Request)
    requires IsIdempotent(env.nfc) && env.nfc(kid) == kid && PinHeaderOf(env, kid, req).Some?
    ensures var made := PinHeaderOf(env, kid, req).value;
            && IsMade(env, made) && made.header.kid == kid && made.header.model == env.nfc(req.model)
            && made.header.ts == req.ts && made.header.modelHash == req.modelHash
            && Some(made.header.extra) == ExtraNorm(env.nfc, req.extra)
  {
    ExtraIsNormal(env.nfc, req.extra);
  }

  // ---- what the hash of a pin is the hash of ----

  /** What the cast array must hold for each element of the given one: a conversion of a float, a nearest number to an
      integer, with its sign. */
  ghost predicate IsCastOf(to: Format, v: Vector, xs: seq<Float>) {
    match v
    case FloatVector(from, floats) =>
      |xs| == |floats| && forall i :: 0 <= i < |xs| ==> xs[i] == Convert(from, to, floats[i])
    case IntVector(ints) =>
      |xs| == |ints|
      && forall i :: 0 <= i < |xs| ==>
           (xs[i].neg <==> ints[i] < 0) && IsNearest(to, IntValue(to, ints[i]), xs[i].mag)
    case Shaped(_) => false
  }

  lemma FloatCastMeans(to: Format, from: Format, floats: seq<Float>)
    requires ArePatterns(from, floats)
    ensures IsCastOf(to, FloatVector(from, floats), ConvertAll(from, to, floats))
  {
    forall i | 0 <= i < |floats|
      ensures ConvertAll(from, to, floats)[i] == Convert(from, to, floats[i])
    {
      ConvertAllAt(from, to, floats, i);
    }
  }

  lemma IntCastMeans(to: Format, ints: seq<int>)
    requires AllFinite(to, FromInts(to, ints))
    ensures IsCastOf(to, IntVector(ints), FromInts(to, ints))
  {
    var xs := FromInts(to, ints);
    forall i | 0 <= i < |xs|
      ensures (xs[i].neg <==> ints[i] < 0) && IsNearest(to, IntValue(to, ints[i]), xs[i].mag)
    {
      assert IsFinite(to, xs[i]);
      FromIntsAt(to, ints, i);
      FromIntMeans(to, ints[i]);
    }
  }

  lemma CastMeans(to: Format, v: Vector)
    requires !v.Shaped? && AllFinite(to, Cast(v, to).floats)
    ensures IsCastOf(to, v, Cast(v, to).floats)
  {
    if v.FloatVector? {
      FloatCastMeans(to, v.format, v.floats);
    } else {
      IntCastMeans(to, v.ints);
    }
  }

  lemma PinnedCast(env: V.Env, kid: Text, req: Request)
    requires PinHeaderOf(env, kid, req).Some?
    ensures !req.vector.Shaped? && TargetFormat(req).Some?
    ensures var made, to := PinHeaderOf(env, kid, req).value, TargetFormat(req).value;
            var xs := Cast(req.vector, to).floats;
            && made.vectorBytes == Pack(to, xs) && made.header.vecDtype == FormatName(to)
            && made.header.vecDim == |xs| && AllFinite(to, xs)
            && made.header.vecHash == HashBytes(env.sha, made.vectorBytes)
  {
    var to := TargetFormat(req).value;
    ConvertAllToItself(to, Cast(req.vector, to).floats);
  }

  /** Whatever the width of the vector, a reader of the hashed bytes finds under the header's dtype one element for each
      of the vector's, its conversion; and a store that keeps just these elements verifies against the header. */
  lemma PinnedBytes(env: V.Env, kid: Text, req: Request)
    requires PinHeaderOf(env, kid, req).Some?
    ensures var made, to := PinHeaderOf(env, kid, req).value, TargetFormat(req);
            && to.Some? && FormatOf(made.header.vecDtype) == to
            && |made.vectorBytes| == made.header.vecDim * ItemSize(to.value)
            && var xs := Unpack(to.value, made.vectorBytes);
               && |xs| == made.header.vecDim && AllFinite(to.value, xs) && ArePatterns(to.value, xs)
               && IsCastOf(to.value, req.vector, xs)
               && V.VectorMatches(env, made.header, FloatVector(to.value, xs))
  {
    var to := TargetFormat(req).value;
    PinnedCast(env, kid, req);
    var cast: Vector := Cast(req.vector, to);
    TargetIsCanonical(req);
    FormatNames(to);
    UnpackPack(to, cast.floats);
    PackLength(to, cast.floats);
    CastMeans(to, req.vector);
    ConvertAllToItself(to, cast.floats);
  }

  // ---- what can be signed, and what `extra` becomes ----

  predicate ItemsAreSafe(nfc: Normalizer, items: seq<(Text, Text)>) {
    forall i :: 0 <= i < |items| ==> SafeText(nfc(items[i].0)) && SafeText(nfc(items[i].1))
  }

  lemma {:induction false} ExtraDefinedIff(nfc: Normalizer, items: seq<(Text, Text)>)
    ensures ExtraNorm(nfc, items).Some? <==> ItemsAreSafe(nfc, items)
  {
    if items != [] {
      var n := |items| - 1;
      ExtraDefinedIff(nfc, items[..n]);
      assert forall i :: 0 <= i < n ==> items[..n][i] == items[i];
    }
  }

  /** Item `i` is the last one whose key has the normal form `k`. */
  predicate IsLastItem(nfc: Normalizer, items: seq<(Text, Text)>, k: Text, i: nat) {
    i < |items| && nfc(items[i].0) == k && forall j :: i < j < |items| ==> nfc(items[j].0) != k
  }

  predicate HasItem(nfc: Normalizer, items: seq<(Text, Text)>, k: Text) {
    exists i :: 0 <= i < |items| && nfc(items[i].0) == k
  }

  lemma HasItemStep(nfc: Normalizer, items: seq<(Text, Text)>, k: Text)
    requires items != []
    ensures HasItem(nfc, items, k) <==> nfc(items[|items| - 1].0) == k || HasItem(nfc, items[..|items| - 1], k)
  {
    var n := |items| - 1;
    assert forall i :: 0 <= i < n ==> items[..n][i] == items[i];
    if HasItem(nfc, items, k) && nfc(items[n].0) != k {
      var i :| 0 <= i < |items| && nfc(items[i].0) == k;
      assert nfc(items[..n][i].0) == k;
    }
  }

  lemma ExtraStep(nfc: Normalizer, items: seq<(Text, Text)>, k: Text)
    requires items != [] && ExtraNorm(nfc, items).Some?
    ensures ExtraNorm(nfc, items[..|items| - 1]).Some?
    ensures var (e, front) := (ExtraNorm(nfc, items).value, ExtraNorm(nfc, items[..|items| - 1]).value);
            var item := items[|items| - 1];
            && (k in e <==> nfc(item.0) == k || k in front)
            && (k in e ==> e[k] == if nfc(item.0) == k then nfc(item.1) else front[k])
  {
  }

  /** The keys of `extra` are the normal forms of the given keys. */
  lemma {:induction false} ExtraHas(nfc: Normalizer, items: seq<(Text, Text)>, k: Text)
    requires ExtraNorm(nfc, items).Some?
    ensures k in ExtraNorm(nfc, items).value <==> HasItem(nfc, items, k)
  {
    if items != [] {
      ExtraStep(nfc, items, k);
      ExtraHas(nfc, items[..|items| - 1], k);
      HasItemStep(nfc, items, k);
    }
  }

  /** Each with the normal form of the value given last. */
  lemma {:induction false} ExtraIsLast(nfc: Normalizer, items: seq<(Text, Text)>, k: Text, i: nat)
    requires ExtraNorm(nfc, items).Some? && IsLastItem(nfc, items, k, i)
    ensures k in ExtraNorm(nfc, items).value && ExtraNorm(nfc, items).value[k] == nfc(items[i].1)
  {
    var n := |items| - 1;
    ExtraStep(nfc, items, k);
    if i < n {
      assert IsLastItem(nfc, items[..n], k, i);
      ExtraIsLast(nfc, items[..n], k, i);
    }
  }

  /** Every element is finite and stays so in the format. */
  ghost predicate StaysFinite(to: Format, v: Vector) {
    match v
    case FloatVector(from, xs) =>
      forall i :: 0 <= i < |xs| ==>
        IsFinite(from, xs[i]) && (from != to ==> IsBelowInfinity(to, Value(from, xs[i].mag)))
    case IntVector(ns) => forall i :: 0 <= i < |ns| ==> IsBelowInfinity(to, IntValue(to, ns[i]))
    case Shaped(_) => false
  }

  lemma FloatStaysFinite(to: Format, from: Format, xs: seq<Float>, i: nat)
    requires i < |xs| && ArePatterns(from, xs)
    ensures IsFinite(from, xs[i]) && IsFinite(to, ConvertAll(from, to, xs)[i]) <==>
            IsFinite(from, xs[i]) && (from != to ==> IsBelowInfinity(to, Value(from, xs[i].mag)))
  {
    ConvertAllAt(from, to, xs, i);
    if from != to {
      ConvertMeans(from, to, xs[i]);
    }
  }

  lemma FloatsStayFinite(to: Format, from: Format, xs: seq<Float>)
    requires ArePatterns(from, xs)
    ensures AllFinite(from, xs) && AllFinite(to, ConvertAll(from, to, xs)) <==> StaysFinite(to, FloatVector(from, xs))
  {
    forall i | 0 <= i < |xs|
      ensures IsFinite(from, xs[i]) && IsFinite(to, ConvertAll(from, to, xs)[i]) <==>
              IsFinite(from, xs[i]) && (from != to ==> IsBelowInfinity(to, Value(from, xs[i].mag)))
    {
      FloatStaysFinite(to, from, xs, i);
    }
  }

  lemma IntsStayFinite(to: Format, ns: seq<int>)
    ensures AllFinite(to, FromInts(to, ns)) <==> StaysFinite(to, IntVector(ns))
  {
    forall i | 0 <= i < |ns|
      ensures IsFinite(to, FromInts(to, ns)[i]) <==> IsBelowInfinity(to, IntValue(to, ns[i]))
    {
      FromIntsAt(to, ns, i);
      FromIntMeans(to, ns[i]);
    }
  }

  /** The dtype in force: the given one, or the array's own. */
  predicate IsTarget(req: Request, dtype: Text, to: Format) {
    && ((dtype == Ascii("f32") && to == F32) || (dtype == Ascii("f64") && to == F64))
    && match req.vecDtype
       case Some(given) => dtype == given
       case None =>
         req.vector.FloatVector?
         && (if to == F32 then req.vector.format == F16 || req.vector.format == F32 else req.vector.format == F64)
  }

  lemma TargetMeans(req: Request, to: Format)
    ensures TargetFormat(req) == Some(to) <==> (to == F32 || to == F64) && IsTarget(req, FormatName(to), to)
  {
    FormatsDiffer();
    NativeFormatMeans(req.vector);
  }

  lemma FormatsDiffer()
    ensures Ascii("f32") != Ascii("f64")
  {
    assert Ascii("f32")[1] == '3' as int && Ascii("f64")[1] == '6' as int;
  }

  /** The texts a signing needs: a safe model that is not empty, a source with a UTF-8 form, safe items and a time in
      normal form. */
  predicate TextsCanBeSigned(nfc: Normalizer, req: Request) {
    && nfc(req.model) != [] && SafeText(nfc(req.model)) && SurrogateFree(nfc(nfc(req.source)))
    && ItemsAreSafe(nfc, req.extra) && nfc(req.ts) == req.ts
  }

  /** Which requests are signed: a one-dimensional vector that is not empty and stays finite under its dtype, and
      texts that can be signed. The header names that dtype. */
  lemma SignsIff(env: V.Env, kid: Text, req: Request)
    ensures PinHeaderOf(env, kid, req).Some? <==>
            && !req.vector.Shaped? && Length(req.vector) != Some(0) && TargetFormat(req).Some?
            && StaysFinite(TargetFormat(req).value, req.vector) && TextsCanBeSigned(env.nfc, req)
    ensures PinHeaderOf(env, kid, req).Some? ==>
              IsTarget(req, PinHeaderOf(env, kid, req).value.header.vecDtype, TargetFormat(req).value)
  {
    ExtraDefinedIff(env.nfc, req.extra);
    if !req.vector.Shaped? && TargetFormat(req).Some? {
      var to := TargetFormat(req).value;
      TargetMeans(req, to);
      if req.vector.FloatVector? {
        FloatsStayFinite(to, req.vector.format, req.vector.floats);
      } else {
        IntsStayFinite(to, req.vector.ints);
      }
      SignsAt(env, kid, req, to);
    }
  }

  lemma SignsAt(env: V.Env, kid: Text, req: Request, to: Format)
    requires !req.vector.Shaped? && TargetFormat(req) == Some(to)
    requires ExtraNorm(env.nfc, req.extra).Some? <==> ItemsAreSafe(env.nfc, req.extra)
    ensures PinHeaderOf(env, kid, req).Some? <==>
            && Length(req.vector) != Some(0) && AllFinite(to, Cast(req.vector, to).floats)
            && (req.vector.FloatVector? ==> AllFinite(req.vector.format, req.vector.floats))
            && TextsCanBeSigned(env.nfc, req)
    ensures PinHeaderOf(env, kid, req).Some? ==> PinHeaderOf(env, kid, req).value.header.vecDtype == FormatName(to)
  {
  }

  // ---- an honest pin verifies ----

  lemma CastFinite(from: Format, to: Format, xs: seq<Float>)
    requires AllFinite(to, ConvertAll(from, to, xs))
    ensures AllFinite(from, xs)
  {
    forall i | 0 <= i < |xs|
      ensures IsFinite(from, xs[i])
    {
      ConvertAllAt(from, to, xs, i);
      assert IsFinite(to, ConvertAll(from, to, xs)[i]);
    }
  }

  lemma {:induction false} CastOnce(from: Format, to: Format, xs: seq<Float>)
    ensures ConvertAll(to, to, ConvertAll(from, to, xs)) == ConvertAll(from, to, xs)
  {
    var ys := ConvertAll(from, to, xs);
    forall i | 0 <= i < |ys|
      ensures ConvertAll(to, to, ys)[i] == ys[i]
    {
      ConvertAllAt(to, to, ys, i);
    }
  }

  /** The vector that was pinned matches its own header exactly when it is a float vector no wider than the
      dtype it was pinned under. */
  lemma PinnedVectorMatches(env: V.Env, kid: Text, req: Request)
    requires PinHeaderOf(env, kid, req).Some?
    ensures V.VectorMatches(env, PinHeaderOf(env, kid, req).value.header, req.vector)
            <==> !IsWiderThan(req.vector, TargetFormat(req).value)
  {
    var to := TargetFormat(req).value;
    TargetIsCanonical(req);
    FormatNames(to);
    if req.vector.FloatVector? {
      CastFinite(req.vector.format, to, req.vector.floats);
      CastOnce(req.vector.format, to, req.vector.floats);
    }
  }

  /** With the default dtype the pinned vector always matches its own header. */
  lemma DefaultDtypeMatches(env: V.Env, kid: Text, req: Request)
    requires req.vecDtype.None? && PinHeaderOf(env, kid, req).Some?
    ensures V.VectorMatches(env, PinHeaderOf(env, kid, req).value.header, req.vector)
  {
    PinnedVectorMatches(env, kid, req);
  }

  lemma PinnedSourceMatches(env: V.Env, kid: Text, req: Request)
    requires IsIdempotent(env.nfc) && PinHeaderOf(env, kid, req).Some?
    ensures V.SourceMatches(env, PinHeaderOf(env, kid, req).value.header, req.source)
  {
    assert env.nfc(env.nfc(req.source)) == env.nfc(req.source);
  }

  /** The ground truth supplied is what was pinned. */
  predicate IsPinned(h: PinHeader, req: Request, want: V.Wanted) {
    && (want.source.Some? ==> want.source.value == req.source)
    && (want.vector.Some? ==>
          want.vector.value == req.vector
          && TargetFormat(req).Some? && !IsWiderThan(req.vector, TargetFormat(req).value))
    && V.ModelOk(h, want) && V.Holds(h.extra, V.RecordIdKey(), want.recordId)
    && V.Holds(h.extra, V.CollectionIdKey(), want.collectionId) && V.Holds(h.extra, V.TenantIdKey(), want.tenantId)
  }

  /** Sign, then verify: against what was pinned, for a vector no wider than its dtype, the pin is accepted
      exactly when the key's window admits it, at any trusted time or none. */
  lemma HonestPinVerifies(
    env: V.Env, keys: V.Registry, legacy: bool, kid: Text, req: Request, sig: Bytes, want: V.Wanted)
    requires IsIdempotent(env.nfc) && env.nfc(kid) == kid && PinHeaderOf(env, kid, req).Some?
    requires IsPinned(PinHeaderOf(env, kid, req).value.header, req, want)
    requires kid in keys && |sig| == SIG_LEN
    requires var message := Canonicalize(env.nfc, PinHeaderOf(env, kid, req).value.header);
             message.Some? && env.accepts(keys[kid].publicKey, message.value, sig)
    ensures V.VerifyWith(env, keys, legacy, Pin(PinHeaderOf(env, kid, req).value.header, sig), want) == V.Accepted
            <==> V.WindowOk(env, keys[kid], req.ts, want.trustedTime)
  {
    SignedHeaders(env, kid, req);
    if want.vector.Some? {
      PinnedVectorMatches(env, kid, req);
    }
    PinnedSourceMatches(env, kid, req);
    V.AcceptedMeans(env, keys, legacy, Pin(PinHeaderOf(env, kid, req).value.header, sig), want);
  }

  // ---- which signed pins parse ----

  lemma {:induction false} ExtraIsSafe(nfc: Normalizer, items: seq<(Text, Text)>)
    requires ExtraNorm(nfc, items).Some?
    ensures var e := ExtraNorm(nfc, items).value; forall k :: k in e ==> SafeText(k) && SafeText(e[k])
  {
    if items != [] {
      ExtraIsSafe(nfc, items[..|items| - 1]);
    }
  }

  /** The rules of the wire format that signing leaves unchecked: the byte and entry caps, the shape of
      `model_hash`, and a timestamp of years 1 to 9999 in four digits. */
  predicate WithinLimits(h: PinHeader) {
    && |Utf8Raw(h.kid)| <= MAX_KID_BYTES && |Utf8Raw(h.model)| <= MAX_MODEL_BYTES && h.vecDim <= MAX_VEC_DIM
    && (h.modelHash.Some? ==> PyHashString(h.modelHash.value)) && CalendarTs(h.ts)
    && |h.extra| <= MAX_EXTRA_ENTRIES
    && forall k :: k in h.extra ==>
         |Utf8Raw(k)| <= MAX_EXTRA_KEY_BYTES && |Utf8Raw(h.extra[k])| <= MAX_EXTRA_VALUE_BYTES
  }

  lemma TextRuleIff(nfc: Normalizer, t: Text, limit: nat)
    requires t != [] && SafeText(t) && nfc(t) == t
    ensures TextRule(nfc, t, limit, true) <==> |Utf8Raw(t)| <= limit
  {
  }

  lemma ExtraRuleIff(nfc: Normalizer, extra: map<Text, Text>)
    requires forall k :: k in extra ==> SafeText(k) && SafeText(extra[k]) && nfc(k) == k && nfc(extra[k]) == extra[k]
    ensures ExtraRule(nfc, extra, true) <==>
            |extra| <= MAX_EXTRA_ENTRIES
            && forall k :: k in extra ==>
                 |Utf8Raw(k)| <= MAX_EXTRA_KEY_BYTES && |Utf8Raw(extra[k])| <= MAX_EXTRA_VALUE_BYTES
  {
    forall k | k in extra
      ensures EntryOk(nfc, k, Str(extra[k]), true) <==>
              |Utf8Raw(k)| <= MAX_EXTRA_KEY_BYTES && |Utf8Raw(extra[k])| <= MAX_EXTRA_VALUE_BYTES
    {
    }
  }

  lemma TsRuleIff(nfc: Normalizer, ts: Text)
    requires nfc(ts) == ts
    ensures ts != [] && TsOk(nfc, ts, true) <==> CalendarTs(ts)
  {
    if CalendarTs(ts) {
      CalendarIsSafe(ts);
    }
  }

  lemma CalendarIsSafe(ts: Text)
    requires CalendarTs(ts)
    ensures ts != [] && SafeText(ts)
  {
    assert Timestamps.HasTsShape(ts);
  }

  lemma MadeFields(env: V.Env, kid: Text, req: Request)
    requires PinHeaderOf(env, kid, req).Some?
    ensures var h := PinHeaderOf(env, kid, req).value.header;
            && h.v == 2 && h.kid == kid && h.model == env.nfc(req.model) && h.model != [] && SafeText(h.model)
            && (h.vecDtype == Ascii("f32") || h.vecDtype == Ascii("f64")) && h.vecDim > 0
            && env.nfc(h.ts) == h.ts && Some(h.extra) == ExtraNorm(env.nfc, req.extra)
  {
  }

  lemma MadeHashes(env: V.Env, kid: Text, req: Request)
    requires PinHeaderOf(env, kid, req).Some?
    ensures var h := PinHeaderOf(env, kid, req).value.header; IsHashString(h.sourceHash) && IsHashString(h.vecHash)
  {
    var made := PinHeaderOf(env, kid, req).value;
    HashBytesIsHashString(env.sha, made.vectorBytes);
    HashBytesIsHashString(env.sha, made.sourceBytes);
  }

  /** Everything else the wire format asks, signing guarantees. */
  lemma SignedMeetsRulesIff(env: V.Env, kid: Text, req: Request, sig: Bytes)
    requires IsIdempotent(env.nfc) && env.nfc(kid) == kid && SafeText(kid) && kid != []
    requires PinHeaderOf(env, kid, req).Some?
    ensures var h := PinHeaderOf(env, kid, req).value.header;
            MeetsRules(env.nfc, Pin(h, sig), false) <==> WithinLimits(h) && |sig| == SIG_LEN
  {
    var h := PinHeaderOf(env, kid, req).value.header;
    MadeFields(env, kid, req);
    MadeHashes(env, kid, req);
    ExtraIsSafe(env.nfc, req.extra);
    ExtraIsNormal(env.nfc, req.extra);
    RulesIff(env.nfc, h, sig);
  }

  lemma RulesIff(nfc: Normalizer, h: PinHeader, sig: Bytes)
    requires h.v == 2 && h.kid != [] && SafeText(h.kid) && nfc(h.kid) == h.kid
    requires h.model != [] && SafeText(h.model) && nfc(h.model) == h.model && nfc(h.ts) == h.ts
    requires (h.vecDtype == Ascii("f32") || h.vecDtype == Ascii("f64")) && h.vecDim > 0
    requires IsHashString(h.sourceHash) && IsHashString(h.vecHash)
    requires forall k :: k in h.extra ==>
               SafeText(k) && SafeText(h.extra[k]) && nfc(k) == k && nfc(h.extra[k]) == h.extra[k]
    ensures MeetsRules(nfc, Pin(h, sig), false) <==> WithinLimits(h) && |sig| == SIG_LEN
  {
    TextRuleIff(nfc, h.kid, MAX_KID_BYTES);
    TextRuleIff(nfc, h.model, MAX_MODEL_BYTES);
    TsRuleIff(nfc, h.ts);
    ExtraRuleIff(nfc, h.extra);
  }

  /** A signed pin parses back exactly when its header is within the limits and the signature has 64 bytes. */
  lemma SignedPinParsesIff(env: V.Env, kid: Text, req: Request, sig: Bytes)
    requires IsIdempotent(env.nfc) && env.nfc(kid) == kid && SafeText(kid) && kid != []
    requires PinHeaderOf(env, kid, req).Some?
    ensures var pin := Pin(PinHeaderOf(env, kid, req).value.header, sig);
            FromDict(env.nfc, ToDict(pin), false) == Some(pin)
            <==> WithinLimits(pin.header) && |sig| == SIG_LEN
  {
    SignedMeetsRulesIff(env, kid, req, sig);
    SizeGuard.ParsesBackIff(env.nfc, Pin(PinHeaderOf(env, kid, req).value.header, sig), false);
  }

  /** So not every signed pin parses: whatever can be signed can be signed with an empty `model_hash` too, and then
      the parser refuses it under every signature. */
  lemma SignedPinCanBeRefused(env: V.Env, kid: Text, req: Request, sig: Bytes)
    requires PinHeaderOf(env, kid, req).Some?
    ensures var made := PinHeaderOf(env, kid, req.(modelHash := Some([])));
            made.Some? && FromDict(env.nfc, ToDict(Pin(made.value.header, sig)), false) == None
  {
    BadModelHashSigns(env, kid, req);
    EmptyModelHashRefused(env.nfc, Pin(PinHeaderOf(env, kid, req.(modelHash := Some([]))).value.header, sig));
  }

  lemma BadModelHashSigns(env: V.Env, kid: Text, req: Request)
    requires PinHeaderOf(env, kid, req).Some?
    ensures var made := PinHeaderOf(env, kid, req.(modelHash := Some([])));
            made.Some? && made.value.header.modelHash == Some([])
  {
  }

  lemma EmptyModelHashRefused(nfc: Normalizer, p: Pin)
    requires p.header.modelHash == Some([])
    ensures FromDict(nfc, ToDict(p), false) == None
  {
    PrintedOptions(p);
    assert !HashesOk(PinFields(p));
    DictReadsFields(nfc, PinFields(p), false);
  }
}
