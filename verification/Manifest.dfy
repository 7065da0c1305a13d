/** Signed collection manifests and signed audit summaries. */
module Manifest {
  import opened Common
  import opened Utf
  import opened JsonText
  import opened Hashing
  import opened Merkle
  import A = Attestation
  import Base64Url
  import V = Verifier

  // ---- the manifest ----

  datatype CollectionManifest = CollectionManifest(
    collectionId: Text, count: nat, merkleRoot: Text, ts: Text, kid: Text, sig: Bytes, v: nat)

  /** The keys under the signature. */
  datatype SignedField = Version | CollectionId | Count | MerkleRootHash | Ts | Kid

  function SignedName(f: SignedField): (t: Text) {
    match f
    case Version => Ascii("v")
    case CollectionId => Ascii("collection_id")
    case Count => Ascii("count")
    case MerkleRootHash => Ascii("merkle_root")
    case Ts => Ascii("ts")
    case Kid => Ascii("kid")
  }

  lemma SignedNamesDistinct()
    ensures forall f: SignedField, g: SignedField :: SignedName(f) == SignedName(g) ==> f == g
  {
    forall f: SignedField, g: SignedField | SignedName(f) == SignedName(g)
      ensures f == g
    {
      SignedNameLength(f);
      SignedNameLength(g);
    }
  }

  lemma SignedNameLength(f: SignedField)
    ensures |SignedName(f)| == match f case Version => 1 case CollectionId => 13 case Count => 5
                                       case MerkleRootHash => 11 case Ts => 2 case Kid => 3
  {
  }

  function SignedValue(m: CollectionManifest, f: SignedField): Json {
    match f
    case Version => Num(Decimal(m.v))
    case CollectionId => Str(m.collectionId)
    case Count => Num(Decimal(m.count))
    case MerkleRootHash => Str(m.merkleRoot)
    case Ts => Str(m.ts)
    case Kid => Str(m.kid)
  }

  /** `signed_dict`. */
  function SignedDict(m: CollectionManifest): (ms: map<Text, Json>)
    ensures forall f: SignedField :: SignedName(f) in ms && ms[SignedName(f)] == SignedValue(m, f)
    ensures forall k :: k in ms ==> exists f: SignedField :: SignedName(f) == k
  {
    SignedNamesDistinct();
    map f | f in {Version, CollectionId, Count, MerkleRootHash, Ts, Kid} :: SignedName(f) := SignedValue(m, f)
  }

  /** The signed dict determines every field but the signature. */
  lemma SignedDictInjective(a: CollectionManifest, b: CollectionManifest)
    requires SignedDict(a) == SignedDict(b)
    ensures a.(sig := b.sig) == b
  {
    SameSigned(a, b, Version);
    SameSigned(a, b, Count);
    A.DecimalInjective(a.v, b.v);
    A.DecimalInjective(a.count, b.count);
    SameSigned(a, b, CollectionId);
    SameSigned(a, b, MerkleRootHash);
    SameSigned(a, b, Ts);
    SameSigned(a, b, Kid);
  }

  lemma SameSigned(a: CollectionManifest, b: CollectionManifest, f: SignedField)
    requires SignedDict(a) == SignedDict(b)
    ensures SignedValue(a, f) == SignedValue(b, f)
  {
    assert SignedDict(a)[SignedName(f)] == SignedDict(b)[SignedName(f)];
  }

  function ManifestTag(): (b: Bytes)
    ensures |b| == 22
  {
    A.Tag("vectorpin/manifest/v1\0")
  }

  function SummaryTag(): (b: Bytes)
    ensures |b| == 27
  {
    A.Tag("vectorpin/audit-summary/v1\0")
  }

  /** `MANIFEST_DOMAIN_TAG + manifest.canonical_payload()`. */
  function ManifestBytes(m: CollectionManifest): Option<Bytes> {
    A.Tagged(ManifestTag(), A.CanonicalJson(Obj(SignedDict(m))))
  }

  /** A key id and the private-key operation. */
  datatype Signer = Signer(keyId: Text, sign: Bytes -> Bytes)

  /** `_validate_id`. */
  predicate IdOk(nfc: A.Normalizer, t: Text, limit: nat) {
    t != [] && |Utf8Raw(t)| <= limit && SafeText(t) && nfc(t) == t
  }

  /** `build_manifest`; `None` where it raises. */
  ghost function BuildManifest(env: V.Env, signer: Signer, collectionId: Text, entries: seq<Entry>, ts: Text)
    : Option<CollectionManifest>
  {
    match MerkleRootOf(env.sha, entries)
    case Err(_) => None
    case Ok(root) =>
      if !IdOk(env.nfc, collectionId, 1024) || !A.CalendarTs(ts) then None
      else
        var unsigned := CollectionManifest(collectionId, |entries|, root, ts, signer.keyId, [], 1);
        match ManifestBytes(unsigned)
        case None => None
        case Some(message) => Some(unsigned.(sig := signer.sign(message)))
  }

  /** `build_manifest`: root, then the checks, then the signature. */
  method MakeManifest(env: V.Env, signer: Signer, collectionId: Text, entries: seq<Entry>, ts: Text)
    returns (r: Option<CollectionManifest>)
    ensures r == BuildManifest(env, signer, collectionId, entries, ts)
  {
    var root := MerkleRoot(env.sha, entries);
    if root.Err? || !IdOk(env.nfc, collectionId, 1024) || !A.CalendarTs(ts) {
      return None;
    }
    var unsigned := CollectionManifest(collectionId, |entries|, root.value, ts, signer.keyId, [], 1);
    var message := ManifestBytes(unsigned);
    if message.None? {
      return None;
    }
    return Some(unsigned.(sig := signer.sign(message.value)));
  }

  datatype ManifestError =
    | ParseError | UnknownKey | SignatureInvalid | CollectionMismatch | CountMismatch | RootMismatch

  datatype ManifestVerdict = Matches | Fails(error: ManifestError)

  /** `verify_manifest` as a function: key, signature, collection, count, root; exceptions are
      `ParseError`. */
  ghost function ManifestVerdictOf(
    env: V.Env, keys: V.Registry, m: CollectionManifest, entries: seq<Entry>, expectedCollection: Option<Text>)
    : ManifestVerdict
  {
    var key := V.PublicKeyIn(keys, m.kid);
    if key.None? then Fails(UnknownKey)
    else
      match ManifestBytes(m)
      case None => Fails(ParseError)
      case Some(message) =>
        if !env.accepts(key.value, message, m.sig) then Fails(SignatureInvalid)
        else if expectedCollection.Some? && m.collectionId != expectedCollection.value then Fails(CollectionMismatch)
        else if |entries| != m.count then Fails(CountMismatch)
        else
          match MerkleRootOf(env.sha, entries)
          case Err(_) => Fails(ParseError)
          case Ok(root) => if root != m.merkleRoot then Fails(RootMismatch) else Matches
  }

  /** `verify_manifest`, asking the verifier for the key. */
  method VerifyManifest(
    env: V.Env, verifier: V.Verifier, m: CollectionManifest, entries: seq<Entry>, expectedCollection: Option<Text>)
    returns (r: ManifestVerdict)
    ensures r == ManifestVerdictOf(env, verifier.keys, m, entries, expectedCollection)
  {
    var key := verifier.PublicKeyFor(m.kid);
    if key.None? {
      return Fails(UnknownKey);
    }
    var message := ManifestBytes(m);
    if message.None? {
      return Fails(ParseError);
    }
    if !env.accepts(key.value, message.value, m.sig) {
      return Fails(SignatureInvalid);
    }
    if expectedCollection.Some? && m.collectionId != expectedCollection.value {
      return Fails(CollectionMismatch);
    }
    if |entries| != m.count {
      return Fails(CountMismatch);
    }
    var observed := MerkleRoot(env.sha, entries);
    match observed
    case Err(_) => return Fails(ParseError);
    case Ok(root) =>
      if root != m.merkleRoot {
        return Fails(RootMismatch);
      }
      return Matches;
  }

  /** A manifest matches a record set exactly when a signature on its fields verifies under its key,
      the collection is the expected one, and the record count and the Merkle root are the signed ones. */
  lemma MatchesMeans(
    env: V.Env, keys: V.Registry, m: CollectionManifest, entries: seq<Entry>, expectedCollection: Option<Text>)
    ensures ManifestVerdictOf(env, keys, m, entries, expectedCollection) == Matches <==>
            && m.kid in keys && ManifestBytes(m).Some?
            && env.accepts(keys[m.kid].publicKey, ManifestBytes(m).value, m.sig)
            && (expectedCollection.Some? ==> m.collectionId == expectedCollection.value)
            && |entries| == m.count && MerkleRootOf(env.sha, entries) == Ok(m.merkleRoot)
  {
  }

  /** Each error is reported exactly when its own check is the first to fail. */
  lemma FailsMeans(
    env: V.Env, keys: V.Registry, m: CollectionManifest, entries: seq<Entry>, expectedCollection: Option<Text>)
    ensures var verdict := ManifestVerdictOf(env, keys, m, entries, expectedCollection);
            var signed := m.kid in keys && ManifestBytes(m).Some?
                          && env.accepts(keys[m.kid].publicKey, ManifestBytes(m).value, m.sig);
            var expected := expectedCollection.Some? ==> m.collectionId == expectedCollection.value;
            && (verdict == Fails(UnknownKey) <==> m.kid !in keys)
            && (verdict == Fails(SignatureInvalid) <==> m.kid in keys && ManifestBytes(m).Some? && !signed)
            && (verdict == Fails(CollectionMismatch) <==> signed && !expected)
            && (verdict == Fails(CountMismatch) <==> signed && expected && |entries| != m.count)
            && (verdict == Fails(RootMismatch) <==>
                  signed && expected && |entries| == m.count && MerkleRootOf(env.sha, entries).Ok?
                  && MerkleRootOf(env.sha, entries).value != m.merkleRoot)
            && (verdict == Fails(ParseError) <==>
                  (m.kid in keys && ManifestBytes(m).None?)
                  || (signed && expected && |entries| == m.count && MerkleRootOf(env.sha, entries).Err?))
  {
  }

  /** Only the public key registered for the manifest's id counts: the validity window plays no part. */
  lemma WindowPlaysNoPart(
    env: V.Env, a: V.Registry, b: V.Registry, m: CollectionManifest, entries: seq<Entry>, expected: Option<Text>)
    requires V.PublicKeyIn(a, m.kid) == V.PublicKeyIn(b, m.kid)
    ensures ManifestVerdictOf(env, a, m, entries, expected) == ManifestVerdictOf(env, b, m, entries, expected)
  {
  }

  /** The verdict does not depend on the order in which the records were walked. */
  lemma VerdictOrderFree(
    env: V.Env, keys: V.Registry, m: CollectionManifest, a: seq<Entry>, b: seq<Entry>, expected: Option<Text>)
    requires multiset(a) == multiset(b)
    ensures ManifestVerdictOf(env, keys, m, a, expected) == ManifestVerdictOf(env, keys, m, b, expected)
  {
    MerkleRootOrderFree(env.sha, a, b);
    assert |a| == |multiset(a)| == |multiset(b)| == |b|;
  }

  /** Two record sets that match one manifest are the same set, or two strings with one digest are
      among those hashed. */
  lemma OneManifestOneSet(
    env: V.Env, keys: V.Registry, m: CollectionManifest, a: seq<Entry>, b: seq<Entry>, expected: Option<Text>)
    requires ManifestVerdictOf(env, keys, m, a, expected) == Matches
    requires ManifestVerdictOf(env, keys, m, b, expected) == Matches
    requires NulFreeHashes(a) && NulFreeHashes(b)
    ensures Elements(a) == Elements(b)
            || CollisionIn(env.sha, HashedStrings(env.sha, a) + HashedStrings(env.sha, b))
  {
    MatchesMeans(env, keys, m, a, expected);
    MatchesMeans(env, keys, m, b, expected);
    MerkleBinding(env.sha, a, b);
  }

  lemma BuiltMeans(env: V.Env, signer: Signer, collectionId: Text, entries: seq<Entry>, ts: Text)
    returns (m: CollectionManifest)
    requires BuildManifest(env, signer, collectionId, entries, ts).Some?
    ensures BuildManifest(env, signer, collectionId, entries, ts) == Some(m)
    ensures m.collectionId == collectionId && m.count == |entries| && m.kid == signer.keyId && m.v == 1 && m.ts == ts
    ensures MerkleRootOf(env.sha, entries) == Ok(m.merkleRoot)
    ensures ManifestBytes(m).Some? && m.sig == signer.sign(ManifestBytes(m).value)
  {
    m := BuildManifest(env, signer, collectionId, entries, ts).value;
    SigIsUnsigned(m, []);
  }

  lemma SigIsUnsigned(m: CollectionManifest, sig: Bytes)
    ensures ManifestBytes(m.(sig := sig)) == ManifestBytes(m)
  {
    var n := m.(sig := sig);
    assert forall f: SignedField :: SignedValue(n, f) == SignedValue(m, f);
    assert SignedDict(n) == SignedDict(m);
  }

  /** An honest manifest matches every listing of the records it was built from. */
  lemma BuiltManifestMatches(
    env: V.Env, keys: V.Registry, signer: Signer, collectionId: Text, entries: seq<Entry>, ts: Text, walked: seq<Entry>)
    requires signer.keyId in keys
    requires forall message: Bytes :: env.accepts(keys[signer.keyId].publicKey, message, signer.sign(message))
    requires BuildManifest(env, signer, collectionId, entries, ts).Some?
    requires multiset(walked) == multiset(entries)
    ensures var m := BuildManifest(env, signer, collectionId, entries, ts).value;
            ManifestVerdictOf(env, keys, m, walked, Some(collectionId)) == Matches
  {
    var m := BuiltMeans(env, signer, collectionId, entries, ts);
    MerkleRootOrderFree(env.sha, entries, walked);
    assert |walked| == |multiset(walked)| == |multiset(entries)| == |entries|;
    MatchesMeans(env, keys, m, walked, Some(collectionId));
  }

  // ---- signed audit summaries ----

  function SummaryKid(): Text { Ascii("summary_kid") }

  function SummaryTs(): Text { Ascii("summary_ts") }

  function SummarySig(): Text { Ascii("summary_sig") }

  lemma SummaryNamesDistinct()
    ensures SummaryKid() != SummaryTs() && SummaryTs() != SummarySig() && SummaryKid() != SummarySig()
  {
    assert |SummaryTs()| == 10 && |SummaryKid()| == 11 && |SummarySig()| == 11;
    assert SummaryKid()[8] == 'k' as int && SummarySig()[8] == 's' as int;
  }

  /** The bytes a summary signature covers. */
  function SummaryBytes(body: map<Text, Json>): Option<Bytes> {
    A.Tagged(SummaryTag(), A.CanonicalJson(Obj(body)))
  }

  /** What a summary's signature must cover: everything but the signature. */
  function SummaryBody(summary: map<Text, Json>): map<Text, Json> {
    summary - {SummarySig()}
  }

  /** What is signed: the report without signature fields, the signer and the time. */
  function SignedBody(kid: Text, summary: map<Text, Json>, ts: Text): map<Text, Json> {
    (summary - {SummaryKid(), SummaryTs(), SummarySig()})[SummaryKid() := Str(kid)][SummaryTs() := Str(ts)]
  }

  lemma SignedBodyFields(kid: Text, summary: map<Text, Json>, ts: Text, sig: Json)
    ensures var body := SignedBody(kid, summary, ts);
            var signed := body[SummarySig() := sig];
            && SummaryBody(signed) == body && signed[SummarySig()] == sig
            && SummaryKid() in signed && signed[SummaryKid()] == Str(kid)
            && SummaryTs() in signed && signed[SummaryTs()] == Str(ts)
            && (forall k :: k in summary && k != SummaryKid() && k != SummaryTs() && k != SummarySig()
                            ==> k in signed && signed[k] == summary[k])
  {
    SummaryNamesDistinct();
    assert SummaryBody(SignedBody(kid, summary, ts)[SummarySig() := sig]) == SignedBody(kid, summary, ts);
  }

  /** `sign_audit_summary`; `None` where encoding raises. */
  function SignSummary(signer: Signer, summary: map<Text, Json>, ts: Text): Option<map<Text, Json>> {
    var body := SignedBody(signer.keyId, summary, ts);
    match SummaryBytes(body)
    case None => None
    case Some(message) => Some(body[SummarySig() := Str(Base64Url.Encode(signer.sign(message)))])
  }

  /** What signing writes: the signer's id, the time, and the signature over all but itself. */
  lemma SignedSummaryShows(signer: Signer, summary: map<Text, Json>, ts: Text)
    requires SignSummary(signer, summary, ts).Some?
    ensures var signed := SignSummary(signer, summary, ts).value;
            var message := SummaryBytes(signed - {SummarySig()});
            && SummaryKid() in signed && signed[SummaryKid()] == Str(signer.keyId)
            && SummaryTs() in signed && signed[SummaryTs()] == Str(ts) && message.Some?
            && SummarySig() in signed && signed[SummarySig()] == Str(Base64Url.Encode(signer.sign(message.value)))
  {
    var body := SignedBody(signer.keyId, summary, ts);
    SignedBodyFields(signer.keyId, summary, ts, Str(Base64Url.Encode(signer.sign(SummaryBytes(body).value))));
  }

  predicate HasString(ms: map<Text, Json>, k: Text) { k in ms && ms[k].Str? }

  /** The signer a summary names, and the signature it carries. */
  function SummarySigner(ms: map<Text, Json>): Text {
    if HasString(ms, SummaryKid()) then ms[SummaryKid()].s else []
  }

  function SummarySigOf(ms: map<Text, Json>): Option<Bytes> {
    if HasString(ms, SummarySig()) then Base64Url.PyDecode(ms[SummarySig()].s) else None
  }

  /** `verify_audit_summary`. */
  function SummaryVerdictOf(env: V.Env, keys: V.Registry, summary: Json): ManifestVerdict {
    if !summary.Obj? then Fails(ParseError)
    else
      var ms := summary.members;
      if !HasString(ms, SummaryKid()) || !HasString(ms, SummarySig()) then Fails(ParseError)
      else if !HasString(ms, SummaryTs()) || !A.CalendarTs(ms[SummaryTs()].s) then Fails(ParseError)
      else
        var sig := Base64Url.PyDecode(ms[SummarySig()].s);
        if sig.None? || |sig.value| != 64 then Fails(ParseError)
        else
          var key := V.PublicKeyIn(keys, ms[SummaryKid()].s);
          if key.None? then Fails(UnknownKey)
          else
            match SummaryBytes(SummaryBody(ms))
            case None => Fails(ParseError)
            case Some(message) =>
              if env.accepts(key.value, message, sig.value) then Matches else Fails(SignatureInvalid)
  }

  /** The three fields a signed summary must have, the time a calendar one and the signature of 64 bytes. */
  predicate IsSealed(ms: map<Text, Json>) {
    && HasString(ms, SummaryKid()) && HasString(ms, SummaryTs()) && A.CalendarTs(ms[SummaryTs()].s)
    && SummarySigOf(ms).Some? && |SummarySigOf(ms).value| == 64
  }

  /** Which verdict a summary gets: parse error without the fields or the bytes, then the key, then the signature. */
  lemma SummaryVerdictMeans(env: V.Env, keys: V.Registry, summary: Json)
    ensures var verdict := SummaryVerdictOf(env, keys, summary);
            if !summary.Obj? || !IsSealed(summary.members) then verdict == Fails(ParseError)
            else
              var ms := summary.members;
              var message := SummaryBytes(SummaryBody(ms));
              && (verdict == Fails(UnknownKey) <==> SummarySigner(ms) !in keys)
              && (verdict == Fails(ParseError) <==> SummarySigner(ms) in keys && message.None?)
              && (verdict == Matches <==>
                    SummarySigner(ms) in keys && message.Some?
                    && env.accepts(keys[SummarySigner(ms)].publicKey, message.value, SummarySigOf(ms).value))
              && (verdict == Fails(SignatureInvalid) <==>
                    SummarySigner(ms) in keys && message.Some?
                    && !env.accepts(keys[SummarySigner(ms)].publicKey, message.value, SummarySigOf(ms).value))
  {
  }

  /** What a verifying summary shows. */
  lemma SummaryMatchMeans(env: V.Env, keys: V.Registry, ms: map<Text, Json>)
    requires SummaryVerdictOf(env, keys, Obj(ms)) == Matches
    ensures SummarySigner(ms) in keys && SummarySigOf(ms).Some? && SummaryBytes(SummaryBody(ms)).Some?
    ensures env.accepts(keys[SummarySigner(ms)].publicKey, SummaryBytes(SummaryBody(ms)).value, SummarySigOf(ms).value)
  {
  }

  /** As for manifests, only the public key registered for the signer's id counts. */
  lemma WindowPlaysNoPartInSummaries(env: V.Env, a: V.Registry, b: V.Registry, summary: Json)
    requires summary.Obj? ==>
               V.PublicKeyIn(a, SummarySigner(summary.members)) == V.PublicKeyIn(b, SummarySigner(summary.members))
    ensures SummaryVerdictOf(env, a, summary) == SummaryVerdictOf(env, b, summary)
  {
  }

  /** A freshly signed summary verifies and keeps every key of the report. */
  lemma SignedSummaryVerifies(env: V.Env, keys: V.Registry, signer: Signer, summary: map<Text, Json>, ts: Text)
    requires signer.keyId in keys && A.CalendarTs(ts)
    requires forall message: Bytes :: |signer.sign(message)| == 64
    requires forall message: Bytes :: env.accepts(keys[signer.keyId].publicKey, message, signer.sign(message))
    requires SignSummary(signer, summary, ts).Some?
    ensures var signed := SignSummary(signer, summary, ts).value;
            && SummaryVerdictOf(env, keys, Obj(signed)) == Matches
            && (forall k :: k in summary && k != SummaryKid() && k != SummaryTs() && k != SummarySig()
                            ==> k in signed && signed[k] == summary[k])
  {
    var sig := signer.sign(SummaryBytes(SignedBody(signer.keyId, summary, ts)).value);
    SignedBodyFields(signer.keyId, summary, ts, Str(Base64Url.Encode(sig)));
    Base64Url.PortsDecodeAlike(Base64Url.Encode(sig));
    Base64Url.DecodeEncode(sig);
  }
}
