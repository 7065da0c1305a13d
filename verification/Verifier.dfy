/** The pin verifier: key registry, validity window, signature, content and replay checks. */
module Verifier {
  import opened Common
  import opened Utf
  import opened Hashing
  import opened Floats
  import opened VectorHash
  import opened Attestation

  /** A parsed timestamp; comparing one without a zone to an aware instant raises. */
  datatype Moment = Aware(seconds: int) | Naive

  /** What the system calls but does not define: the hash, NFC, Ed25519 verification of a message
      under a public key, and the timestamp parser of the validity window. */
  datatype Env = Env(
    sha: Hash, nfc: Normalizer, accepts: (Bytes, Bytes, Bytes) -> bool, instant: Text -> Option<Moment>)

  /** A registered public key; the window includes `validFrom` and excludes `validUntil`. */
  datatype KeyEntry = KeyEntry(publicKey: Bytes, validFrom: Option<int>, validUntil: Option<int>)

  type Registry = map<Text, KeyEntry>

  datatype VerifyError =
    | UnsupportedVersion | UnknownKey | KeyExpired | ParseError | SignatureInvalid | VectorTampered
    | SourceMismatch | ModelMismatch | ShapeMismatch | RecordMismatch | CollectionMismatch | TenantMismatch

  datatype Verdict = Accepted | Rejected(error: VerifyError)

  /** The ground truth a caller supplies; what is absent is not checked. */
  datatype Wanted = Wanted(
    source: Option<Text>, vector: Option<Vector>, model: Option<Text>, modelHash: Option<Text>,
    recordId: Option<Text>, collectionId: Option<Text>, tenantId: Option<Text>, trustedTime: Option<Moment>)

  /** `hash_text`: NFC, UTF-8, SHA-256; refuses text without a UTF-8 form. */
  function HashText(env: Env, t: Text): Option<Text> {
    var b := Utf8(env.nfc(t));
    if b.None? then None else Some(HashBytes(env.sha, b.value))
  }

  /** `_canonical_for`: the bytes the signer would have signed. */
  function CanonicalFor(env: Env, h: PinHeader): Option<Bytes> {
    if h.v == 1 then CanonicalizeV1(h) else Canonicalize(env.nfc, h)
  }

  // ---- the steps ----

  function CheckVersion(h: PinHeader, legacy: bool): Option<VerifyError> {
    if h.v == 2 || (legacy && h.v == 1) then None else Some(UnsupportedVersion)
  }

  function CheckBounds(entry: KeyEntry, at: int): Option<VerifyError> {
    if entry.validFrom.Some? && at < entry.validFrom.value then Some(KeyExpired)
    else if entry.validUntil.Some? && at >= entry.validUntil.value then Some(KeyExpired)
    else None
  }

  /** The window is evaluated at the trusted time when there is one, else at the signer's `ts`. */
  function CheckWindow(env: Env, entry: KeyEntry, ts: Text, trusted: Option<Moment>): Option<VerifyError> {
    if trusted == Some(Naive) then Some(ParseError)
    else if entry.validFrom.None? && entry.validUntil.None? && trusted.None? then None
    else
      match env.instant(ts)
      case None => Some(KeyExpired)
      case Some(Naive) => Some(ParseError)
      case Some(Aware(pinTime)) =>
        if trusted.Some? && pinTime > trusted.value.seconds then Some(KeyExpired)
        else CheckBounds(entry, if trusted.Some? then trusted.value.seconds else pinTime)
  }

  function CheckSignature(env: Env, entry: KeyEntry, pin: Pin): Option<VerifyError> {
    match CanonicalFor(env, pin.header)
    case None => Some(ParseError)
    case Some(message) => if env.accepts(entry.publicKey, message, pin.sig) then None else Some(SignatureInvalid)
  }

  function CheckSource(env: Env, h: PinHeader, source: Text): Option<VerifyError> {
    match HashText(env, source)
    case None => Some(ParseError)
    case Some(hash) => if hash != h.sourceHash then Some(SourceMismatch) else None
  }

  function CheckVector(env: Env, h: PinHeader, v: Vector): Option<VerifyError> {
    if Length(v) != Some(h.vecDim) || !v.FloatVector? then Some(ShapeMismatch)
    else
      match FormatOf(h.vecDtype)
      case None => Some(ParseError)
      case Some(to) =>
        if IsWiderThan(v, to) then Some(ShapeMismatch)
        else if !AllFinite(v.format, v.floats) then Some(ParseError)
        else if HashVector(env.sha, v, to) != Some(h.vecHash) then Some(VectorTampered)
        else None
  }

  function CheckModel(h: PinHeader, want: Wanted): Option<VerifyError> {
    if want.model.Some? && want.model.value != h.model then Some(ModelMismatch)
    else if want.modelHash.Some? && h.modelHash != want.modelHash then Some(ModelMismatch)
    else None
  }

  function RecordIdKey(): Text { Ascii("vectorpin.record_id") }

  function CollectionIdKey(): Text { Ascii("vectorpin.collection_id") }

  function TenantIdKey(): Text { Ascii("vectorpin.tenant_id") }

  predicate Holds(extra: map<Text, Text>, key: Text, expected: Option<Text>) {
    expected.Some? ==> key in extra && extra[key] == expected.value
  }

  function CheckReplay(h: PinHeader, want: Wanted): Option<VerifyError> {
    if !Holds(h.extra, RecordIdKey(), want.recordId) then Some(RecordMismatch)
    else if !Holds(h.extra, CollectionIdKey(), want.collectionId) then Some(CollectionMismatch)
    else if !Holds(h.extra, TenantIdKey(), want.tenantId) then Some(TenantMismatch)
    else None
  }

  /** The checks after the signature. */
  function CheckContent(env: Env, h: PinHeader, want: Wanted): Option<VerifyError> {
    var source := if want.source.Some? then CheckSource(env, h, want.source.value) else None;
    if source.Some? then source
    else
      var vector := if want.vector.Some? then CheckVector(env, h, want.vector.value) else None;
      if vector.Some? then vector
      else
        var model := CheckModel(h, want);
        if model.Some? then model else CheckReplay(h, want)
  }

  /** `_verify_inner`, with exceptions as `ParseError`: the first failing step decides. */
  function FirstError(env: Env, keys: Registry, legacy: bool, pin: Pin, want: Wanted): Option<VerifyError> {
    var version := CheckVersion(pin.header, legacy);
    if version.Some? then version
    else if |pin.sig| != SIG_LEN then Some(SignatureInvalid)
    else if pin.header.kid !in keys then Some(UnknownKey)
    else
      var entry := keys[pin.header.kid];
      var window := CheckWindow(env, entry, pin.header.ts, want.trustedTime);
      if window.Some? then window
      else
        var signature := CheckSignature(env, entry, pin);
        if signature.Some? then signature else CheckContent(env, pin.header, want)
  }

  /** `Verifier.verify` over a registry. */
  function VerifyWith(env: Env, keys: Registry, legacy: bool, pin: Pin, want: Wanted): Verdict {
    var e := FirstError(env, keys, legacy, pin, want);
    if e.None? then Accepted else Rejected(e.value)
  }

  class Verifier {
    var keys: Registry
    const legacy: bool

    /** `Verifier(public_keys, accept_v1_legacy=..)`; `LegacyV1Verifier` passes true. */
    constructor (publicKeys: Registry, acceptV1Legacy: bool)
      ensures keys == publicKeys && legacy == acceptV1Legacy
    {
      keys := publicKeys;
      legacy := acceptV1Legacy;
    }

    /** `add_key`: a given bound overrides the entry's own; the registration replaces any earlier
        one under the same id, and no other key's pins, manifests or summaries are judged anew. */
    method AddKey(kid: Text, key: KeyEntry, validFrom: Option<int>, validUntil: Option<int>)
      modifies this`keys
      ensures keys.Keys == old(keys).Keys + {kid}
      ensures forall k :: k in old(keys) && k != kid ==> keys[k] == old(keys)[k]
      ensures keys[kid].publicKey == key.publicKey
      ensures keys[kid].validFrom == if validFrom.Some? then validFrom else key.validFrom
      ensures keys[kid].validUntil == if validUntil.Some? then validUntil else key.validUntil
      ensures forall k: Text :: PublicKeyFor(k) == if k == kid then Some(key.publicKey) else old(PublicKeyFor(k))
      ensures forall env: Env, pin: Pin, want: Wanted :: pin.header.kid != kid ==>
                Verify(env, pin, want) == old(Verify(env, pin, want))
    {
      ghost var before := keys;
      var entry := key;
      if validFrom.Some? || validUntil.Some? {
        entry := KeyEntry(
          entry.publicKey,
          if validFrom.Some? then validFrom else entry.validFrom,
          if validUntil.Some? then validUntil else entry.validUntil);
      }
      keys := keys[kid := entry];
      forall env: Env, pin: Pin, want: Wanted | pin.header.kid != kid
        ensures Verify(env, pin, want) == VerifyWith(env, before, legacy, pin, want)
      {
        RotationKeepsOthers(env, before, keys, legacy, kid, pin, want);
      }
    }

    /** `public_key_for`: the window plays no part. */
    function PublicKeyFor(kid: Text): Option<Bytes>
      reads this
    {
      PublicKeyIn(keys, kid)
    }

    function Verify(env: Env, pin: Pin, want: Wanted): Verdict
      reads this
    {
      VerifyWith(env, keys, legacy, pin, want)
    }
  }

  function PublicKeyIn(keys: Registry, kid: Text): Option<Bytes> {
    if kid in keys then Some(keys[kid].publicKey) else None
  }

  // ---- what acceptance means ----

  /** The window admits a pin made at `pinTime`, seen at the trusted time if there is one. */
  predicate InWindow(entry: KeyEntry, pinTime: int, trusted: Option<Moment>) {
    var at := if trusted.Some? && trusted.value.Aware? then trusted.value.seconds else pinTime;
    && pinTime <= at
    && (entry.validFrom.Some? ==> entry.validFrom.value <= at)
    && (entry.validUntil.Some? ==> at < entry.validUntil.value)
  }

  predicate WindowOk(env: Env, entry: KeyEntry, ts: Text, trusted: Option<Moment>) {
    trusted != Some(Naive)
    && (entry.validFrom.Some? || entry.validUntil.Some? || trusted.Some? ==>
          && env.instant(ts).Some? && env.instant(ts).value.Aware?
          && InWindow(entry, env.instant(ts).value.seconds, trusted))
  }

  lemma WindowDecides(env: Env, entry: KeyEntry, ts: Text, trusted: Option<Moment>)
    ensures CheckWindow(env, entry, ts, trusted) == None <==> WindowOk(env, entry, ts, trusted)
  {
  }

  /** The stored vector is a finite one of the pinned length, no wider than the pinned dtype, and
      its canonical bytes have the pinned hash. */
  predicate VectorMatches(env: Env, h: PinHeader, v: Vector) {
    && v.FloatVector? && |v.floats| == h.vecDim && AllFinite(v.format, v.floats)
    && FormatOf(h.vecDtype).Some? && !IsWiderThan(v, FormatOf(h.vecDtype).value)
    && HashBytes(env.sha, CanonicalVectorBytes(v, FormatOf(h.vecDtype).value).value) == h.vecHash
  }

  predicate SourceMatches(env: Env, h: PinHeader, source: Text) {
    SurrogateFree(env.nfc(source)) && HashBytes(env.sha, Utf8Raw(env.nfc(source))) == h.sourceHash
  }

  /** A pin is accepted exactly when its version is allowed, a 64-byte signature on its canonical
      bytes verifies under the key registered for its `kid`, that key's window admits it, and every
      ground truth supplied agrees. */
  lemma AcceptedMeans(env: Env, keys: Registry, legacy: bool, pin: Pin, want: Wanted)
    ensures VerifyWith(env, keys, legacy, pin, want) == Accepted <==>
            var h := pin.header;
            && (h.v == 2 || (legacy && h.v == 1)) && |pin.sig| == SIG_LEN && h.kid in keys
            && WindowOk(env, keys[h.kid], h.ts, want.trustedTime)
            && CanonicalFor(env, h).Some? && env.accepts(keys[h.kid].publicKey, CanonicalFor(env, h).value, pin.sig)
            && (want.source.Some? ==> SourceMatches(env, h, want.source.value))
            && (want.vector.Some? ==> VectorMatches(env, h, want.vector.value))
            && (want.model.Some? ==> h.model == want.model.value)
            && (want.modelHash.Some? ==> h.modelHash == want.modelHash)
            && Holds(h.extra, RecordIdKey(), want.recordId)
            && Holds(h.extra, CollectionIdKey(), want.collectionId)
            && Holds(h.extra, TenantIdKey(), want.tenantId)
  {
    var h := pin.header;
    if h.kid in keys {
      WindowDecides(env, keys[h.kid], h.ts, want.trustedTime);
    }
    if want.vector.Some? {
      VectorDecides(env, h, want.vector.value);
    }
    if want.source.Some? {
      SourceDecides(env, h, want.source.value);
    }
  }

  /** An expected id must be the string bound in `extra` under its own key; an absent key does not match. */
  predicate Binds(extra: map<Text, Text>, key: string, expected: Option<Text>) {
    match expected
    case None => true
    case Some(id) => Ascii(key) in extra && extra[Ascii(key)] == id
  }

  /** Which replay error is reported: that of the first id that is expected and not bound. */
  lemma ReplayMeans(h: PinHeader, want: Wanted)
    ensures var record := Binds(h.extra, "vectorpin.record_id", want.recordId);
            var collection := Binds(h.extra, "vectorpin.collection_id", want.collectionId);
            var tenant := Binds(h.extra, "vectorpin.tenant_id", want.tenantId);
            && (CheckReplay(h, want) == None <==> record && collection && tenant)
            && (CheckReplay(h, want) == Some(RecordMismatch) <==> !record)
            && (CheckReplay(h, want) == Some(CollectionMismatch) <==> record && !collection)
            && (CheckReplay(h, want) == Some(TenantMismatch) <==> record && collection && !tenant)
  {
    HoldsMeans(h.extra, "vectorpin.record_id", want.recordId);
    HoldsMeans(h.extra, "vectorpin.collection_id", want.collectionId);
    HoldsMeans(h.extra, "vectorpin.tenant_id", want.tenantId);
  }

  lemma HoldsMeans(extra: map<Text, Text>, key: string, expected: Option<Text>)
    ensures Holds(extra, Ascii(key), expected) <==> Binds(extra, key, expected)
  {
  }

  /** An accepted pin binds every id that is expected. */
  lemma AcceptedBinds(env: Env, keys: Registry, legacy: bool, pin: Pin, want: Wanted)
    requires VerifyWith(env, keys, legacy, pin, want) == Accepted
    ensures Binds(pin.header.extra, "vectorpin.record_id", want.recordId)
    ensures Binds(pin.header.extra, "vectorpin.collection_id", want.collectionId)
    ensures Binds(pin.header.extra, "vectorpin.tenant_id", want.tenantId)
  {
    AcceptedMeans(env, keys, legacy, pin, want);
    HoldsMeans(pin.header.extra, "vectorpin.record_id", want.recordId);
    HoldsMeans(pin.header.extra, "vectorpin.collection_id", want.collectionId);
    HoldsMeans(pin.header.extra, "vectorpin.tenant_id", want.tenantId);
  }

  /** Everything up to and including the signature holds. */
  predicate Authentic(env: Env, keys: Registry, legacy: bool, pin: Pin, trusted: Option<Moment>) {
    var h := pin.header;
    && (h.v == 2 || (legacy && h.v == 1)) && |pin.sig| == SIG_LEN && h.kid in keys
    && WindowOk(env, keys[h.kid], h.ts, trusted)
    && CanonicalFor(env, h).Some? && env.accepts(keys[h.kid].publicKey, CanonicalFor(env, h).value, pin.sig)
  }

  predicate SourceOk(env: Env, h: PinHeader, want: Wanted) {
    want.source.Some? ==> SourceMatches(env, h, want.source.value)
  }

  predicate VectorOk(env: Env, h: PinHeader, want: Wanted) {
    want.vector.Some? ==> VectorMatches(env, h, want.vector.value)
  }

  predicate ModelOk(h: PinHeader, want: Wanted) {
    (want.model.Some? ==> h.model == want.model.value) && (want.modelHash.Some? ==> h.modelHash == want.modelHash)
  }

  lemma AuthenticIffNoEarlyError(env: Env, keys: Registry, legacy: bool, pin: Pin, want: Wanted)
    ensures Authentic(env, keys, legacy, pin, want.trustedTime) ==>
              FirstError(env, keys, legacy, pin, want) == CheckContent(env, pin.header, want)
    ensures !Authentic(env, keys, legacy, pin, want.trustedTime) ==>
              var e := FirstError(env, keys, legacy, pin, want);
              e == Some(UnsupportedVersion) || e == Some(SignatureInvalid) || e == Some(UnknownKey)
              || e == Some(KeyExpired) || e == Some(ParseError)
  {
    if pin.header.kid in keys {
      WindowDecides(env, keys[pin.header.kid], pin.header.ts, want.trustedTime);
    }
  }

  /** Each content error is reported exactly when the pin is authentic, every earlier check passes, and
      its own fails. */
  lemma ContentErrorMeans(env: Env, keys: Registry, legacy: bool, pin: Pin, want: Wanted)
    ensures var h := pin.header;
            var verdict := VerifyWith(env, keys, legacy, pin, want);
            var authentic := Authentic(env, keys, legacy, pin, want.trustedTime);
            var upToVector := authentic && SourceOk(env, h, want) && VectorOk(env, h, want);
            var upToModel := upToVector && ModelOk(h, want);
            && (verdict == Rejected(SourceMismatch) <==>
                  authentic && want.source.Some? && SurrogateFree(env.nfc(want.source.value))
                  && !SourceOk(env, h, want))
            && (verdict == Rejected(ShapeMismatch) <==>
                  authentic && SourceOk(env, h, want) && want.vector.Some? && WrongShape(h, want.vector.value))
            && (verdict == Rejected(VectorTampered) <==>
                  authentic && SourceOk(env, h, want) && want.vector.Some? && Readable(h, want.vector.value)
                  && !VectorOk(env, h, want))
            && (verdict == Rejected(ModelMismatch) <==> upToVector && !ModelOk(h, want))
            && (verdict == Rejected(RecordMismatch) <==> upToModel && !Holds(h.extra, RecordIdKey(), want.recordId))
            && (verdict == Rejected(CollectionMismatch) <==>
                  upToModel && Holds(h.extra, RecordIdKey(), want.recordId)
                  && !Holds(h.extra, CollectionIdKey(), want.collectionId))
            && (verdict == Rejected(TenantMismatch) <==>
                  upToModel && Holds(h.extra, RecordIdKey(), want.recordId)
                  && Holds(h.extra, CollectionIdKey(), want.collectionId)
                  && !Holds(h.extra, TenantIdKey(), want.tenantId))
  {
    AuthenticIffNoEarlyError(env, keys, legacy, pin, want);
    ContentErrors(env, pin.header, want);
  }

  /** A vector whose hash is compared: the pinned length, no wider than the pinned dtype, finite. */
  predicate Readable(h: PinHeader, v: Vector) {
    && v.FloatVector? && |v.floats| == h.vecDim && FormatOf(h.vecDtype).Some?
    && !IsWiderThan(v, FormatOf(h.vecDtype).value) && AllFinite(v.format, v.floats)
  }

  /** Not a float vector of the pinned length, or wider than the pinned dtype. */
  predicate WrongShape(h: PinHeader, v: Vector) {
    || !v.FloatVector? || |v.floats| != h.vecDim
    || (FormatOf(h.vecDtype).Some? && IsWiderThan(v, FormatOf(h.vecDtype).value))
  }

  /** Of the right shape, but the dtype is unknown or an element is not finite. */
  predicate NotHashable(h: PinHeader, v: Vector) {
    && v.FloatVector? && |v.floats| == h.vecDim
    && (FormatOf(h.vecDtype).None?
        || (!IsWiderThan(v, FormatOf(h.vecDtype).value) && !AllFinite(v.format, v.floats)))
  }

  lemma VectorError(env: Env, h: PinHeader, v: Vector)
    ensures CheckVector(env, h, v) == Some(VectorTampered) <==> Readable(h, v) && !VectorMatches(env, h, v)
    ensures CheckVector(env, h, v) == Some(ShapeMismatch) <==> WrongShape(h, v)
    ensures CheckVector(env, h, v) == Some(ParseError) <==> NotHashable(h, v)
    ensures CheckVector(env, h, v).Some? ==> CheckVector(env, h, v).value in {VectorTampered, ShapeMismatch, ParseError}
  {
  }

  lemma ContentErrors(env: Env, h: PinHeader, want: Wanted)
    ensures var e := CheckContent(env, h, want);
            var upToVector := SourceOk(env, h, want) && VectorOk(env, h, want);
            var upToModel := upToVector && ModelOk(h, want);
            && (e == Some(SourceMismatch) <==>
                  want.source.Some? && SurrogateFree(env.nfc(want.source.value)) && !SourceOk(env, h, want))
            && (e == Some(ShapeMismatch) <==>
                  SourceOk(env, h, want) && want.vector.Some? && WrongShape(h, want.vector.value))
            && (e == Some(VectorTampered) <==>
                  SourceOk(env, h, want) && want.vector.Some? && Readable(h, want.vector.value)
                  && !VectorOk(env, h, want))
            && (e == Some(ModelMismatch) <==> upToVector && !ModelOk(h, want))
            && (e == Some(RecordMismatch) <==> upToModel && !Holds(h.extra, RecordIdKey(), want.recordId))
            && (e == Some(CollectionMismatch) <==>
                  upToModel && Holds(h.extra, RecordIdKey(), want.recordId)
                  && !Holds(h.extra, CollectionIdKey(), want.collectionId))
            && (e == Some(TenantMismatch) <==>
                  upToModel && Holds(h.extra, RecordIdKey(), want.recordId)
                  && Holds(h.extra, CollectionIdKey(), want.collectionId)
                  && !Holds(h.extra, TenantIdKey(), want.tenantId))
  {
    if want.source.Some? {
      SourceDecides(env, h, want.source.value);
    }
    if want.vector.Some? {
      VectorDecides(env, h, want.vector.value);
      VectorError(env, h, want.vector.value);
    }
  }

  /** Each early error is reported exactly when its own check is the first to fail. */
  lemma EarlyErrorMeans(env: Env, keys: Registry, legacy: bool, pin: Pin, want: Wanted)
    ensures var h := pin.header;
            var verdict := VerifyWith(env, keys, legacy, pin, want);
            var versionOk := h.v == 2 || (legacy && h.v == 1);
            var inWindow := versionOk && |pin.sig| == SIG_LEN && h.kid in keys
                            && WindowOk(env, keys[h.kid], h.ts, want.trustedTime);
            && (verdict == Rejected(UnsupportedVersion) <==> !versionOk)
            && (verdict == Rejected(UnknownKey) <==> versionOk && |pin.sig| == SIG_LEN && h.kid !in keys)
            && (verdict == Rejected(SignatureInvalid) <==>
                  (versionOk && |pin.sig| != SIG_LEN)
                  || (inWindow && CanonicalFor(env, h).Some?
                      && !env.accepts(keys[h.kid].publicKey, CanonicalFor(env, h).value, pin.sig)))
            && (verdict == Rejected(KeyExpired) <==>
                  versionOk && |pin.sig| == SIG_LEN && h.kid in keys
                  && !WindowOk(env, keys[h.kid], h.ts, want.trustedTime)
                  && want.trustedTime != Some(Naive) && env.instant(h.ts) != Some(Naive))
  {
    AuthenticIffNoEarlyError(env, keys, legacy, pin, want);
    ContentErrorKinds(env, pin.header, want);
    if pin.header.kid in keys {
      WindowDecides(env, keys[pin.header.kid], pin.header.ts, want.trustedTime);
      WindowErrors(env, keys[pin.header.kid], pin.header.ts, want.trustedTime);
    }
  }

  predicate BadSource(env: Env, want: Wanted) {
    want.source.Some? && !SurrogateFree(env.nfc(want.source.value))
  }

  /** The window cannot be evaluated: a time without a zone meets an aware one. */
  predicate WindowRaises(env: Env, entry: KeyEntry, ts: Text, trusted: Option<Moment>) {
    || trusted == Some(Naive)
    || ((entry.validFrom.Some? || entry.validUntil.Some? || trusted.Some?) && env.instant(ts) == Some(Naive))
  }

  lemma WindowParseError(env: Env, entry: KeyEntry, ts: Text, trusted: Option<Moment>)
    ensures CheckWindow(env, entry, ts, trusted) == Some(ParseError) <==> WindowRaises(env, entry, ts, trusted)
  {
  }

  lemma ContentParseError(env: Env, h: PinHeader, want: Wanted)
    ensures CheckContent(env, h, want) == Some(ParseError) <==>
              BadSource(env, want)
              || (SourceOk(env, h, want) && want.vector.Some? && NotHashable(h, want.vector.value))
  {
    if want.source.Some? {
      SourceDecides(env, h, want.source.value);
    }
    if want.vector.Some? {
      VectorError(env, h, want.vector.value);
    }
  }

  /** `ParseError` is reported exactly when the pin passes the version, length and key checks and then the
      window raises, or the header has no canonical bytes, or, for an authentic pin, the caller's source
      has no UTF-8 form or its vector cannot be hashed. */
  lemma ParseErrorMeans(env: Env, keys: Registry, legacy: bool, pin: Pin, want: Wanted)
    ensures var h := pin.header;
            VerifyWith(env, keys, legacy, pin, want) == Rejected(ParseError) <==>
            && (h.v == 2 || (legacy && h.v == 1)) && |pin.sig| == SIG_LEN && h.kid in keys
            && (|| WindowRaises(env, keys[h.kid], h.ts, want.trustedTime)
                || (WindowOk(env, keys[h.kid], h.ts, want.trustedTime) && CanonicalFor(env, h).None?)
                || (Authentic(env, keys, legacy, pin, want.trustedTime)
                    && (|| BadSource(env, want)
                        || (SourceOk(env, h, want) && want.vector.Some? && NotHashable(h, want.vector.value)))))
  {
    var h := pin.header;
    if h.kid in keys {
      WindowDecides(env, keys[h.kid], h.ts, want.trustedTime);
      WindowParseError(env, keys[h.kid], h.ts, want.trustedTime);
      ContentParseError(env, h, want);
    }
  }

  lemma WindowErrors(env: Env, entry: KeyEntry, ts: Text, trusted: Option<Moment>)
    ensures CheckWindow(env, entry, ts, trusted) == Some(KeyExpired) <==>
              !WindowOk(env, entry, ts, trusted) && trusted != Some(Naive) && env.instant(ts) != Some(Naive)
    ensures CheckWindow(env, entry, ts, trusted).Some? ==>
              CheckWindow(env, entry, ts, trusted).value in {KeyExpired, ParseError}
  {
  }

  lemma ContentErrorKinds(env: Env, h: PinHeader, want: Wanted)
    ensures CheckContent(env, h, want) != Some(UnsupportedVersion) && CheckContent(env, h, want) != Some(UnknownKey)
    ensures CheckContent(env, h, want) != Some(SignatureInvalid) && CheckContent(env, h, want) != Some(KeyExpired)
  {
    if want.vector.Some? {
      VectorError(env, h, want.vector.value);
    }
  }

  lemma VectorDecides(env: Env, h: PinHeader, v: Vector)
    ensures CheckVector(env, h, v) == None <==> VectorMatches(env, h, v)
  {
  }

  lemma SourceDecides(env: Env, h: PinHeader, source: Text)
    ensures CheckSource(env, h, source) == None <==> SourceMatches(env, h, source)
  {
  }

  /** The registries agree on every id but `kid`. */
  ghost predicate AgreeOff(a: Registry, b: Registry, kid: Text) {
    forall k: Text :: k != kid ==> (k in a <==> k in b) && (k in a && k in b ==> a[k] == b[k])
  }

  /** Registering, replacing or dropping a key never changes the verdict on another key's pins. */
  lemma RotationKeepsOthers(
    env: Env, before: Registry, after: Registry, legacy: bool, kid: Text, pin: Pin, want: Wanted)
    requires AgreeOff(before, after, kid) && pin.header.kid != kid
    ensures VerifyWith(env, after, legacy, pin, want) == VerifyWith(env, before, legacy, pin, want)
  {
    var k := pin.header.kid;
    assert (k in before <==> k in after) && (k in before ==> before[k] == after[k]);
  }

  /** Two finite stored vectors of one native width that verify against one pin are the same bit for
      bit, or two strings with one digest are at hand. */
  lemma OnePinOneVector(env: Env, h: PinHeader, u: Vector, v: Vector)
    requires VectorMatches(env, h, u) && VectorMatches(env, h, v) && u.format == v.format
    ensures u == v
            || CollisionIn(env.sha, {CanonicalVectorBytes(u, FormatOf(h.vecDtype).value).value,
                                     CanonicalVectorBytes(v, FormatOf(h.vecDtype).value).value})
  {
    PrecisionRuleSuffices(env.sha, u, v, FormatOf(h.vecDtype).value);
  }

  /** A hash string with the newline that Python's parser lets through never matches: a pin that carries one is
      parsed but accepted for no vector and no source. */
  lemma NewlineNeverMatches(env: Env, h: PinHeader, v: Vector, source: Text)
    ensures PyHashString(h.vecHash) && VectorMatches(env, h, v) ==> IsHashString(h.vecHash)
    ensures PyHashString(h.sourceHash) && SourceMatches(env, h, source) ==> IsHashString(h.sourceHash)
  {
    if VectorMatches(env, h, v) {
      HashBytesIsHashString(env.sha, CanonicalVectorBytes(v, FormatOf(h.vecDtype).value).value);
    }
    if SourceMatches(env, h, source) {
      HashBytesIsHashString(env.sha, Utf8Raw(env.nfc(source)));
    }
  }

  /** From the store to the pin: two finite arrays of one format, read under one declared dtype and
      both matching one pin, are the same bit for bit, or a collision is at hand. Neither the reading
      nor the hashing loses a bit that the pin does not fix. */
  lemma OnePinOneStoredVector(env: Env, h: PinHeader, u: Vector, v: Vector, native: Option<Format>)
    requires u.FloatVector? && v.FloatVector? && u.format == v.format
    requires AllFinite(u.format, u.floats) && AllFinite(v.format, v.floats)
    requires var r, s := VectorFromStore(Array(u), native), VectorFromStore(Array(v), native);
             r.Ok? && s.Ok? && VectorMatches(env, h, r.value) && VectorMatches(env, h, s.value)
    ensures var r, s := VectorFromStore(Array(u), native).value, VectorFromStore(Array(v), native).value;
            u == v
            || CollisionIn(env.sha, {CanonicalVectorBytes(r, FormatOf(h.vecDtype).value).value,
                                     CanonicalVectorBytes(s, FormatOf(h.vecDtype).value).value})
  {
    var r, s := VectorFromStore(Array(u), native).value, VectorFromStore(Array(v), native).value;
    OnePinOneVector(env, h, r, s);
    if r == s {
      StoreReadInjective(u, v, native);
    }
  }
}
