/** The manifest a run writes to a file, and what a later run reads from it. */
module StoredManifest {
  import opened Common
  import opened Utf
  import opened JsonText
  import opened Hashing
  import opened Merkle
  import opened Manifest
  import opened Audit
  import opened Adapter
  import opened Encodable
  import A = Attestation
  import Base64Url
  import Signing
  import StoredText
  import T = TsPins
  import V = Verifier

  // ---- the wire form ----

  const MAX_MANIFEST_JSON_BYTES: nat := 65536
  const MAX_SIG_TEXT: nat := 256

  function SigName(): Text { Ascii("sig") }

  lemma SigNameApart(f: SignedField)
    ensures SignedName(f) != SigName()
  {
    SignedNameLength(f);
    assert SignedName(Kid)[0] == 'k' as int && SigName()[0] == 's' as int;
  }

  /** `CollectionManifest.to_dict`. */
  function ToDict(m: CollectionManifest): map<Text, Json> {
    SignedDict(m)[SigName() := Str(Base64Url.Encode(m.sig))]
  }

  predicate OnlyKnown(ms: map<Text, Json>) {
    forall k :: k in ms ==> k == SigName() || exists f: SignedField :: k == SignedName(f)
  }

  function StrAt(ms: map<Text, Json>, k: Text): Option<Text> {
    if k in ms && ms[k].Str? then Some(ms[k].s) else None
  }

  function IntAt(ms: map<Text, Json>, k: Text): Option<int> {
    if k in ms && ms[k].Num? then A.IntOf(ms[k].lexeme) else None
  }

  predicate IdAt(nfc: A.Normalizer, ms: map<Text, Json>, f: SignedField, limit: nat) {
    StrAt(ms, SignedName(f)).Some? && IdOk(nfc, StrAt(ms, SignedName(f)).value, limit)
  }

  function SigAt(ms: map<Text, Json>): (r: Option<Bytes>)
    ensures r.Some? ==> |r.value| == 64
  {
    var s := StrAt(ms, SigName());
    if s.None? || |s.value| > MAX_SIG_TEXT then None
    else
      var sig := Base64Url.PyDecode(s.value);
      if sig.None? || |sig.value| != 64 then None else sig
  }

  /** The checks of `from_dict` on the single members; their order only chooses the message. */
  predicate MembersOk(nfc: A.Normalizer, ms: map<Text, Json>) {
    && IntAt(ms, SignedName(Version)) == Some(1)
    && IntAt(ms, SignedName(Count)).Some? && IntAt(ms, SignedName(Count)).value >= 0
    && StrAt(ms, SignedName(MerkleRootHash)).Some? && IsHashString(StrAt(ms, SignedName(MerkleRootHash)).value)
    && SigAt(ms).Some?
    && IdAt(nfc, ms, CollectionId, 1024)
    && StrAt(ms, SignedName(Ts)).Some? && A.CalendarTs(StrAt(ms, SignedName(Ts)).value)
    && IdAt(nfc, ms, Kid, 256)
  }

  /** `CollectionManifest.from_dict`. */
  function FromDict(nfc: A.Normalizer, d: Json): Option<CollectionManifest> {
    if !d.Obj? || !OnlyKnown(d.members) || !MembersOk(nfc, d.members) then None
    else
      var ms := d.members;
      Some(CollectionManifest(
        ms[SignedName(CollectionId)].s, IntAt(ms, SignedName(Count)).value, ms[SignedName(MerkleRootHash)].s,
        ms[SignedName(Ts)].s, ms[SignedName(Kid)].s, SigAt(ms).value, 1))
  }

  /** `CollectionManifest.from_json`. */
  function FromJson(nfc: A.Normalizer, loads: Loader, s: Text): Option<CollectionManifest> {
    if |Utf8Raw(s)| > MAX_MANIFEST_JSON_BYTES then None
    else
      match loads(s)
      case None => None
      case Some(d) => FromDict(nfc, d)
  }

  /** The file `--write-manifest` leaves: `to_json` and a newline. */
  function FileText(m: CollectionManifest): Text {
    Print(PythonAscii, Obj(ToDict(m))) + [10]
  }

  // ---- which manifests the dict form carries ----

  /** The rules of `from_dict`, stated on the manifest itself. */
  predicate MeetsRules(nfc: A.Normalizer, m: CollectionManifest) {
    && m.v == 1 && IsHashString(m.merkleRoot) && |m.sig| == 64 && A.CalendarTs(m.ts)
    && IdOk(nfc, m.collectionId, 1024) && IdOk(nfc, m.kid, 256)
  }

  lemma MemberIs(m: CollectionManifest, f: SignedField)
    ensures SignedName(f) in ToDict(m) && ToDict(m)[SignedName(f)] == SignedValue(m, f)
  {
    SigNameApart(f);
  }

  lemma NumbersAt(m: CollectionManifest)
    ensures IntAt(ToDict(m), SignedName(Version)) == Some(m.v) && IntAt(ToDict(m), SignedName(Count)) == Some(m.count)
  {
    MemberIs(m, Version);
    MemberIs(m, Count);
    A.IntOfDecimal(m.v);
    A.IntOfDecimal(m.count);
  }

  lemma StringsAt(m: CollectionManifest)
    ensures var ms := ToDict(m);
            && StrAt(ms, SignedName(CollectionId)) == Some(m.collectionId)
            && StrAt(ms, SignedName(MerkleRootHash)) == Some(m.merkleRoot)
            && StrAt(ms, SignedName(Ts)) == Some(m.ts) && StrAt(ms, SignedName(Kid)) == Some(m.kid)
  {
    MemberIs(m, CollectionId);
    MemberIs(m, MerkleRootHash);
    MemberIs(m, Ts);
    MemberIs(m, Kid);
  }

  lemma SignatureAt(m: CollectionManifest)
    ensures SigAt(ToDict(m)) == if |m.sig| == 64 then Some(m.sig) else None
  {
    Base64Url.PyDecodesEncoding(m.sig, Base64Url.Encode(m.sig));
    Base64Url.SextetsLength(m.sig);
  }

  lemma NoOtherMember(m: CollectionManifest)
    ensures OnlyKnown(ToDict(m))
  {
    forall k | k in ToDict(m) && k != SigName()
      ensures exists f: SignedField :: k == SignedName(f)
    {
      var f: SignedField :| SignedName(f) == k;
    }
  }

  lemma MembersOkIff(nfc: A.Normalizer, m: CollectionManifest)
    ensures MembersOk(nfc, ToDict(m)) <==> MeetsRules(nfc, m)
  {
    NumbersAt(m);
    StringsAt(m);
    SignatureAt(m);
  }

  /** Whatever is read from a printed manifest is that manifest, and it is read exactly when it meets the rules. */
  lemma DictReadsBack(nfc: A.Normalizer, m: CollectionManifest)
    ensures FromDict(nfc, Obj(ToDict(m))) == if MeetsRules(nfc, m) then Some(m) else None
  {
    NoOtherMember(m);
    MembersOkIff(nfc, m);
    NumbersAt(m);
    StringsAt(m);
    SignatureAt(m);
  }

  predicate CarriesNumbers(ms: map<Text, Json>, m: CollectionManifest) {
    && IntAt(ms, Ascii("v")) == Some(m.v) && IntAt(ms, Ascii("count")) == Some(m.count)
    && SigAt(ms) == Some(m.sig)
  }

  predicate CarriesStrings(ms: map<Text, Json>, m: CollectionManifest) {
    && StrAt(ms, Ascii("collection_id")) == Some(m.collectionId) && StrAt(ms, Ascii("kid")) == Some(m.kid)
    && StrAt(ms, Ascii("merkle_root")) == Some(m.merkleRoot) && StrAt(ms, Ascii("ts")) == Some(m.ts)
  }

  lemma CarriedMembersOk(nfc: A.Normalizer, ms: map<Text, Json>, m: CollectionManifest)
    requires CarriesNumbers(ms, m) && CarriesStrings(ms, m)
    ensures MembersOk(nfc, ms) <==> MeetsRules(nfc, m)
  {
  }

  lemma ReadsMembers(nfc: A.Normalizer, ms: map<Text, Json>) returns (m: CollectionManifest)
    requires MembersOk(nfc, ms)
    ensures CarriesNumbers(ms, m) && CarriesStrings(ms, m)
    ensures OnlyKnown(ms) ==> FromDict(nfc, Obj(ms)) == Some(m)
  {
    m := CollectionManifest(
      ms[SignedName(CollectionId)].s, IntAt(ms, SignedName(Count)).value, ms[SignedName(MerkleRootHash)].s,
      ms[SignedName(Ts)].s, ms[SignedName(Kid)].s, SigAt(ms).value, 1);
  }

  lemma CarriedOnce(ms: map<Text, Json>, m: CollectionManifest, n: CollectionManifest)
    requires CarriesNumbers(ms, m) && CarriesStrings(ms, m) && CarriesNumbers(ms, n) && CarriesStrings(ms, n)
    ensures m == n
  {
  }

  /** Which dicts are read as the manifest: those with no other member that carry its fields, if it meets the rules. */
  lemma ParsedIff(nfc: A.Normalizer, ms: map<Text, Json>, m: CollectionManifest)
    ensures FromDict(nfc, Obj(ms)) == Some(m) <==>
            OnlyKnown(ms) && MeetsRules(nfc, m) && CarriesNumbers(ms, m) && CarriesStrings(ms, m)
  {
    if MembersOk(nfc, ms) {
      var read := ReadsMembers(nfc, ms);
      CarriedMembersOk(nfc, ms, read);
      if CarriesNumbers(ms, m) && CarriesStrings(ms, m) {
        CarriedOnce(ms, m, read);
      }
    } else if CarriesNumbers(ms, m) && CarriesStrings(ms, m) {
      CarriedMembersOk(nfc, ms, m);
    }
  }

  // ---- the file ----

  lemma SignedNameFree(f: SignedField)
    ensures SurrogateFree(SignedName(f))
  {
    match f
    case Version => LiteralFree("v");
    case CollectionId => LiteralFree("collection_id");
    case Count => LiteralFree("count");
    case MerkleRootHash => LiteralFree("merkle_root");
    case Ts => LiteralFree("ts");
    case Kid => LiteralFree("kid");
  }

  /** The strings of the manifest are well-formed Unicode. */
  predicate IsClean(m: CollectionManifest) {
    SurrogateFree(m.collectionId) && SurrogateFree(m.merkleRoot) && SurrogateFree(m.ts) && SurrogateFree(m.kid)
  }

  lemma ValueIsClean(m: CollectionManifest, f: SignedField)
    requires IsClean(m)
    ensures HasUtf8(SignedValue(m, f)) && T.IsPlain(SignedValue(m, f))
  {
    match f
    case Version => DecimalFree(m.v);
    case Count => DecimalFree(m.count);
    case _ =>
  }

  lemma SignedIsClean(m: CollectionManifest)
    requires IsClean(m)
    ensures HasUtf8(Obj(SignedDict(m)))
  {
    var ms := SignedDict(m);
    forall k | k in ms
      ensures SurrogateFree(k) && HasUtf8(ms[k])
    {
      var f: SignedField :| SignedName(f) == k;
      SignedNameFree(f);
      ValueIsClean(m, f);
    }
  }

  lemma DictIsClean(m: CollectionManifest)
    requires IsClean(m)
    ensures HasUtf8(Obj(ToDict(m))) && T.IsPlain(Obj(ToDict(m)))
  {
    var ms := ToDict(m);
    LiteralFree("sig");
    StoredText.SigIsClean(m.sig);
    forall k | k in ms
      ensures SurrogateFree(k) && HasUtf8(ms[k]) && T.IsPlain(ms[k])
    {
      if k != SigName() {
        var f: SignedField :| SignedName(f) == k;
        SignedNameFree(f);
        ValueIsClean(m, f);
      }
    }
  }

  lemma FileIsAscii(m: CollectionManifest)
    requires IsClean(m)
    ensures |Utf8Raw(FileText(m))| == |FileText(m)|
  {
    DictIsClean(m);
    StoredText.PrintIsAscii(Obj(ToDict(m)));
    StoredText.AsciiConcat(Print(PythonAscii, Obj(ToDict(m))), [10]);
    StoredText.Timestamps.AsciiText(FileText(m));
  }

  lemma FileLoads(m: CollectionManifest)
    requires IsClean(m)
    ensures Parse(PythonAscii, FileText(m)) == Some(Obj(ToDict(m)))
  {
    DictIsClean(m);
    StoredText.CleanIsPrintable(Obj(ToDict(m)));
    ReadPrintedObject(PythonAscii, Obj(ToDict(m)), [10]);
    assert SkipSpace([10]) == [];
  }

  /** What is read from the file of a manifest with well-formed strings: that manifest or nothing. */
  lemma FileReadsBack(nfc: A.Normalizer, loads: Loader, m: CollectionManifest)
    requires StoredText.IsJsonLoads(loads) && IsClean(m)
    ensures FromJson(nfc, loads, FileText(m))
         == if MeetsRules(nfc, m) && |FileText(m)| <= MAX_MANIFEST_JSON_BYTES then Some(m) else None
  {
    FileIsAscii(m);
    FileLoads(m);
    DictReadsBack(nfc, m);
  }

  // ---- which manifests can be built ----

  lemma {:induction false} EscapedFree(s: Text)
    requires SurrogateFree(EscapeAll(Python, s))
    ensures SurrogateFree(s)
  {
    if s != [] {
      ConcatFree(Escape(Python, s[0]), EscapeAll(Python, s[1..]));
      EscapedFree(s[1..]);
      if IsSurrogate(s[0]) {
        SurrogateStays(s[0]);
      }
      assert s == [s[0]] + s[1..];
    }
  }

  lemma SurrogateStays(c: CodePoint)
    requires IsSurrogate(c)
    ensures !SurrogateFree(Escape(Python, c))
  {
    assert Escape(Python, c)[0] == c;
  }

  lemma {:induction false} JoinedFree(parts: seq<Text>, i: nat)
    requires i < |parts| && SurrogateFree(Join(parts))
    ensures SurrogateFree(parts[i])
    decreases i
  {
    if |parts| > 1 {
      ConcatFree(parts[0] + [',' as int], Join(parts[1..]));
      ConcatFree(parts[0], [',' as int]);
      if i > 0 {
        JoinedFree(parts[1..], i - 1);
      }
    }
  }

  /** Text with a UTF-8 form prints strings with one. */
  lemma PrintedStringFree(ms: map<Text, Json>, k: Text, s: Text)
    requires k in ms && ms[k] == Str(s) && SurrogateFree(Print(Python, Obj(ms)))
    ensures SurrogateFree(s)
  {
    var ks, parts := PrintedParts(Python, Obj(ms));
    var i := IndexIn(ks, k);
    ConcatFree(['{' as int] + Join(parts), ['}' as int]);
    ConcatFree(['{' as int], Join(parts));
    JoinedFree(parts, i);
    ConcatFree(Quote(Python, k) + [':' as int], Quote(Python, s));
    ConcatFree([0x22] + EscapeAll(Python, s), [0x22]);
    ConcatFree([0x22], EscapeAll(Python, s));
    EscapedFree(s);
  }

  lemma CleanHasBytes(m: CollectionManifest)
    requires IsClean(m)
    ensures ManifestBytes(m).Some?
  {
    SignedIsClean(m);
    PrintFree(Obj(SignedDict(m)));
  }

  lemma KidMember(m: CollectionManifest, k: Text)
    requires k == SignedName(Kid)
    ensures k in SignedDict(m) && SignedDict(m)[k] == Str(m.kid)
  {
    assert SignedDict(m)[SignedName(Kid)] == SignedValue(m, Kid);
  }

  lemma BytesMeanCleanKid(m: CollectionManifest)
    requires SurrogateFree(Print(Python, Obj(SignedDict(m))))
    ensures SurrogateFree(m.kid)
  {
    KidMember(m, SignedName(Kid));
    PrintedStringFree(SignedDict(m), SignedName(Kid), m.kid);
  }

  lemma BytesMeanText(m: CollectionManifest)
    requires ManifestBytes(m).Some?
    ensures SurrogateFree(Print(Python, Obj(SignedDict(m))))
  {
  }

  lemma BytesDefined(m: CollectionManifest)
    requires SurrogateFree(m.collectionId) && SurrogateFree(m.ts) && SurrogateFree(m.merkleRoot)
    ensures ManifestBytes(m).Some? <==> SurrogateFree(m.kid)
  {
    if SurrogateFree(m.kid) {
      CleanHasBytes(m);
    } else if ManifestBytes(m).Some? {
      BytesMeanText(m);
      BytesMeanCleanKid(m);
    }
  }

  lemma CalendarIsClean(ts: Text)
    requires A.CalendarTs(ts)
    ensures SurrogateFree(ts)
  {
    Signing.CalendarIsSafe(ts);
  }

  lemma RootIsHashString(sha: Hash, entries: seq<Entry>)
    requires MerkleRootOf(sha, entries).Ok?
    ensures IsHashString(MerkleRootOf(sha, entries).value) && SurrogateFree(MerkleRootOf(sha, entries).value)
  {
    RootSpells(sha, entries);
    HashStringFree(MerkleRootOf(sha, entries).value);
  }

  /** A manifest can be built exactly for distinct ids, strings with a UTF-8 form, an id of the collection that passes
      the field rules and a calendar time. */
  lemma BuildsIff(env: V.Env, signer: Signer, collectionId: Text, entries: seq<Entry>, ts: Text)
    ensures BuildManifest(env, signer, collectionId, entries, ts).Some? <==>
            && (forall i, j :: 0 <= i < j < |entries| ==> entries[i].id != entries[j].id)
            && (forall i :: 0 <= i < |entries| ==> SurrogateFree(entries[i].id) && SurrogateFree(entries[i].vecHash))
            && IdOk(env.nfc, collectionId, 1024) && A.CalendarTs(ts) && SurrogateFree(signer.keyId)
  {
    RootDefinedIff(env.sha, entries);
    if MerkleRootOf(env.sha, entries).Ok? && IdOk(env.nfc, collectionId, 1024) && A.CalendarTs(ts) {
      RootIsHashString(env.sha, entries);
      CalendarIsClean(ts);
      BytesDefined(CollectionManifest(collectionId, |entries|, MerkleRootOf(env.sha, entries).value, ts,
                                      signer.keyId, [], 1));
    }
  }

  lemma BuiltIsClean(env: V.Env, signer: Signer, collectionId: Text, entries: seq<Entry>, ts: Text)
    returns (m: CollectionManifest)
    requires BuildManifest(env, signer, collectionId, entries, ts).Some?
    ensures BuildManifest(env, signer, collectionId, entries, ts) == Some(m)
    ensures IsClean(m) && m.v == 1 && IsHashString(m.merkleRoot) && A.CalendarTs(m.ts)
    ensures IdOk(env.nfc, m.collectionId, 1024) && m.kid == signer.keyId
  {
    m := BuiltMeans(env, signer, collectionId, entries, ts);
    BuildsIff(env, signer, collectionId, entries, ts);
    RootIsHashString(env.sha, entries);
    CalendarIsClean(ts);
  }

  /** The file of a built manifest reads back as it exactly when the key id passes the field rules, the signature has
      64 bytes and the text is within the cap; else nothing is read. */
  lemma BuiltFileReads(
    env: V.Env, signer: Signer, collectionId: Text, entries: seq<Entry>, ts: Text, loads: Loader, m: CollectionManifest)
    requires StoredText.IsJsonLoads(loads) && BuildManifest(env, signer, collectionId, entries, ts) == Some(m)
    ensures FromJson(env.nfc, loads, FileText(m))
         == if IdOk(env.nfc, signer.keyId, 256) && |m.sig| == 64 && |FileText(m)| <= MAX_MANIFEST_JSON_BYTES
            then Some(m) else None
  {
    var built := BuiltIsClean(env, signer, collectionId, entries, ts);
    FileReadsBack(env.nfc, loads, built);
  }

  // ---- two audits through a file ----

  lemma WrittenFileReads(run: Run, out: Output, feed: seq<Step>, loads: Loader, m: CollectionManifest)
    requires StoredText.IsJsonLoads(loads) && EndOf(run, out, feed).written == Some(m)
    ensures FromJson(run.env.nfc, loads, FileText(m)).Some? ==> FromJson(run.env.nfc, loads, FileText(m)) == Some(m)
  {
    WrittenIsBuilt(run, out, feed, m);
    var s := out.writeManifest.value;
    BuiltFileReads(run.env, s.signer, CollectionName(run.policy, out), EntriesOf(Walked(feed)), s.ts, loads, m);
  }

  /** Main result. An audit writes its manifest to a file, a later one reads the file and ends without a failure: the
      two walked the same set of (id, hash) pairs, and every pinned vector of the later one has the hash recorded for
      its id; or two strings with one digest are among those hashed. */
  lemma SecondAuditFromFile(
    first: Run, out: Output, before: seq<Step>, second: Run, after: seq<Step>, loads: Loader, m: CollectionManifest)
    requires StoredText.IsJsonLoads(loads) && EndOf(first, out, before).written == Some(m) && second.env == first.env
    requires second.manifest.Some? && second.manifest == FromJson(first.env.nfc, loads, FileText(m))
    requires forall i :: 0 <= i < |Walked(before)| ==> IsParsed(first.env.nfc, Walked(before)[i])
    requires forall i :: 0 <= i < |Walked(after)| ==> IsParsed(first.env.nfc, Walked(after)[i])
    requires SummaryOf(second, after).failed == 0
    ensures var a, b := EntriesOf(Walked(before)), EntriesOf(Walked(after));
            || CollisionIn(first.env.sha, HashedStrings(first.env.sha, a) + HashedStrings(first.env.sha, b))
            || (Elements(b) == Elements(a)
                && forall i :: 0 <= i < |Walked(after)| ==> IsCommitted(first.env, Walked(after)[i], a))
  {
    WrittenFileReads(first, out, before, loads, m);
    SecondAuditSound(first, out, before, second, after);
  }

  // ---- what is written ----

  /** Each walked record is entered with the hash of its pin, and with none when it has no pin or one that does not
      parse. */
  lemma EntriesMean(rs: seq<Record>, i: nat)
    requires i < |rs|
    ensures EntriesOf(rs)[i].id == rs[i].id
    ensures match rs[i].field
            case Pinned(pin) => EntriesOf(rs)[i].vecHash == pin.header.vecHash
            case Unpinned => EntriesOf(rs)[i].vecHash == []
            case Malformed => EntriesOf(rs)[i].vecHash == []
  {
    EntryAt(rs, i);
  }

  /** How a run ends: the manifest is written exactly when one is asked for and can be built, whatever happens to the
      report; the report is printed when no manifest failed and it has bytes to sign, if it is signed; the exit code
      is there with the report. */
  lemma EndMeans(run: Run, out: Output, feed: seq<Step>)
    ensures var end, rs := EndOf(run, out, feed), Walked(feed);
            var report := Report(out, SummaryOf(run, feed), AbortOf(feed), end.written.Some?);
            && (end.written.Some? <==>
                  out.writeManifest.Some?
                  && BuildManifest(run.env, out.writeManifest.value.signer, CollectionName(run.policy, out),
                                   EntriesOf(rs), out.writeManifest.value.ts).Some?)
            && (end.printed.Some? <==>
                  && (out.writeManifest.Some? ==> end.written.Some?)
                  && (out.summarySigner.Some? ==>
                        SummaryBytes(SignedBody(out.summarySigner.value.signer.keyId, report,
                                                out.summarySigner.value.ts)).Some?))
            && (end.exit.Some? <==> end.printed.Some?)
  {
  }

  /** The manifest a run writes names the policy's collection, or the label when there is none, counts the records
      walked, and spells the root of their tree. */
  lemma WrittenShows(run: Run, out: Output, feed: seq<Step>, m: CollectionManifest)
    requires EndOf(run, out, feed).written == Some(m)
    ensures out.writeManifest.Some?
    ensures m.collectionId == match run.policy.collectionId
                              case Some(name) => if name == [] then out.labelValue else name
                              case None => out.labelValue
    ensures m.count == |Walked(feed)| && m.v == 1
    ensures m.kid == out.writeManifest.value.signer.keyId && m.ts == out.writeManifest.value.ts
    ensures Spells(m.merkleRoot, TreeDigest(run.env.sha, SortById(EntriesOf(Walked(feed)))))
    ensures ManifestBytes(m).Some? && m.sig == out.writeManifest.value.signer.sign(ManifestBytes(m).value)
  {
    WrittenIsBuilt(run, out, feed, m);
    var s := out.writeManifest.value;
    var built := BuiltMeans(run.env, s.signer, CollectionName(run.policy, out), EntriesOf(Walked(feed)), s.ts);
    RootSpells(run.env.sha, EntriesOf(Walked(feed)));
  }
}
