/** What a reader finds in signed bytes: after the domain tag, UTF-8 of JSON whose members, under their names on the
    wire, hold the fields of the message. */
module SignedForm {
  import opened Common
  import opened Utf
  import opened JsonText
  import opened Attestation
  import opened SignedBytes
  import D = Utf8Decoder
  import M = Manifest
  import Timestamps

  // ---- tag, encoding, text ----

  lemma TagIsText(s: string)
    requires forall i :: 0 <= i < |s| ==> s[i] < 128 as char
    ensures Tag(s) == Utf8Raw(Ascii(s))
  {
    Timestamps.AsciiText(Ascii(s));
    assert Tag(s) == Ascii(s);
  }

  /** The domain tags: the names, each ended by a zero byte. */
  lemma TagsAre()
    ensures PinTag() == Utf8Raw(Ascii("vectorpin/v2\0"))
    ensures M.ManifestTag() == Utf8Raw(Ascii("vectorpin/manifest/v1\0"))
    ensures M.SummaryTag() == Utf8Raw(Ascii("vectorpin/audit-summary/v1\0"))
  {
    TagIsText("vectorpin/v2\0");
    TagIsText("vectorpin/manifest/v1\0");
    TagIsText("vectorpin/audit-summary/v1\0");
  }

  /** The bytes are the tag and UTF-8 of a text that `json.loads` reads as the JSON of the message. */
  ghost predicate AreReadAs(b: Bytes, tag: Bytes, ms: map<Text, Json>) {
    && |b| >= |tag| && b[..|tag|] == tag
    && var text := D.Decode(b[|tag|..]);
       text.Some? && Parse(Python, text.value) == Some(Obj(ms)) && text.value == Print(Python, Obj(ms))
  }

  lemma BodyReads(tag: Bytes, ms: map<Text, Json>)
    requires WellFormed(Python, Obj(ms)) && CanonicalJson(Obj(ms)).Some?
    ensures AreReadAs(tag + CanonicalJson(Obj(ms)).value, tag, ms)
  {
    var body := CanonicalJson(Obj(ms)).value;
    D.Decodes(Print(Python, Obj(ms)));
    ParsePrint(Python, Obj(ms));
    assert (tag + body)[..|tag|] == tag && (tag + body)[|tag|..] == body;
  }

  /** Every signed message is read back from its bytes. */
  lemma SignedBytesRead(nfc: Normalizer, m: Message)
    requires IsMessage(m) && BytesOf(nfc, m).Some?
    ensures AreReadAs(BytesOf(nfc, m).value, TagOf(m), JsonOf(nfc, m))
  {
    JsonWellFormed(nfc, m);
    BodyReads(TagOf(m), JsonOf(nfc, m));
  }

  // ---- the members of a header ----

  predicate Shows(ms: map<Text, Json>, name: Text, value: Json) {
    name in ms && ms[name] == value
  }

  predicate ShowsIf(ms: map<Text, Json>, name: Text, present: bool, value: Json) {
    if present then Shows(ms, name, value) else name !in ms
  }

  predicate ShowsHashes(ms: map<Text, Json>, h: PinHeader) {
    && Shows(ms, Ascii("source_hash"), Str(h.sourceHash)) && Shows(ms, Ascii("vec_hash"), Str(h.vecHash))
    && ShowsIf(ms, Ascii("model_hash"), h.modelHash.Some?, Str(if h.modelHash.Some? then h.modelHash.value else []))
  }

  predicate ShowsNumbers(ms: map<Text, Json>, h: PinHeader) {
    && Shows(ms, Ascii("v"), Num(Decimal(h.v))) && Shows(ms, Ascii("vec_dim"), Num(Decimal(h.vecDim)))
    && Shows(ms, Ascii("vec_dtype"), Str(h.vecDtype))
  }

  predicate ShowsTexts(ms: map<Text, Json>, h: PinHeader) {
    && Shows(ms, Ascii("kid"), Str(h.kid)) && Shows(ms, Ascii("model"), Str(h.model))
    && Shows(ms, Ascii("ts"), Str(h.ts)) && ShowsIf(ms, Ascii("extra"), h.extra != map[], StrMap(h.extra))
  }

  /** The members a header must have, by name, and no other. */
  ghost predicate ShowsHeader(ms: map<Text, Json>, h: PinHeader) {
    && ShowsHashes(ms, h) && ShowsNumbers(ms, h) && ShowsTexts(ms, h)
    && forall k :: k in ms ==> exists f: Field :: f != Sig && Name(f) == k
  }

  lemma FieldShown(h: PinHeader, f: Field)
    ensures var ms := ObjectOf(HeaderFields(h));
            if Present(h, f) then Shows(ms, Name(f), FieldValue(h, f)) else Name(f) !in ms
  {
    var m := HeaderFields(h);
    if Present(h, f) {
      assert f in m && m[f] == FieldValue(h, f);
    } else if Name(f) in ObjectOf(m) {
      var g :| g in m && Name(g) == Name(f);
      NameInjective(g, f);
    }
  }

  lemma NoOtherNames(h: PinHeader, k: Text)
    requires k in ObjectOf(HeaderFields(h))
    ensures exists f: Field :: f != Sig && Name(f) == k
  {
    var f :| f in HeaderFields(h) && Name(f) == k;
    assert Present(h, f);
  }

  lemma HashesShown(h: PinHeader)
    ensures ShowsHashes(ObjectOf(HeaderFields(h)), h)
  {
    FieldShown(h, SourceHash);
    FieldShown(h, VecHash);
    ModelHashShown(h);
  }

  lemma ModelHashShown(h: PinHeader)
    ensures ShowsIf(ObjectOf(HeaderFields(h)), Ascii("model_hash"), h.modelHash.Some?,
                    Str(if h.modelHash.Some? then h.modelHash.value else []))
  {
    FieldShown(h, ModelHash);
  }

  lemma NumbersShown(h: PinHeader)
    ensures ShowsNumbers(ObjectOf(HeaderFields(h)), h)
  {
    FieldShown(h, Version);
    FieldShown(h, VecDim);
    FieldShown(h, VecDtype);
  }

  lemma TextsShown(h: PinHeader)
    ensures ShowsTexts(ObjectOf(HeaderFields(h)), h)
  {
    FieldShown(h, Kid);
    FieldShown(h, Model);
    FieldShown(h, Ts);
    FieldShown(h, Extra);
  }

  lemma HeaderShown(h: PinHeader)
    ensures ShowsHeader(ObjectOf(HeaderFields(h)), h)
  {
    HashesShown(h);
    NumbersShown(h);
    TextsShown(h);
    forall k | k in ObjectOf(HeaderFields(h))
      ensures exists f: Field :: f != Sig && Name(f) == k
    {
      NoOtherNames(h, k);
    }
  }

  // ---- normalization ----

  /** The key at `i` is the last one with the normal form `k`. */
  predicate IsLastAt(nfc: Normalizer, ks: seq<Text>, i: nat, k: Text) {
    i < |ks| && nfc(ks[i]) == k && forall j :: i < j < |ks| ==> nfc(ks[j]) != k
  }

  predicate HasForm(nfc: Normalizer, ks: seq<Text>, k: Text) {
    exists i :: 0 <= i < |ks| && nfc(ks[i]) == k
  }

  predicate IsValueOfLast(nfc: Normalizer, extra: map<Text, Text>, ks: seq<Text>, k: Text, value: Text)
    requires forall o :: o in ks ==> o in extra
  {
    exists i :: 0 <= i < |ks| && IsLastAt(nfc, ks, i, k) && value == nfc(extra[ks[i]])
  }

  lemma {:induction false} ItemsMeans(nfc: Normalizer, extra: map<Text, Text>, ks: seq<Text>, k: Text)
    requires forall o :: o in ks ==> o in extra
    ensures HasForm(nfc, ks, k) <==> k in NfcItems(nfc, extra, ks)
    ensures k in NfcItems(nfc, extra, ks) ==> IsValueOfLast(nfc, extra, ks, k, NfcItems(nfc, extra, ks)[k])
  {
    if ks != [] {
      var n := |ks| - 1;
      assert ks[n] in ks;
      if nfc(ks[n]) == k {
        assert IsLastAt(nfc, ks, n, k);
      } else {
        ItemsMeans(nfc, extra, ks[..n], k);
        FormStep(nfc, ks, k);
        if k in NfcItems(nfc, extra, ks[..n]) {
          ValueStep(nfc, extra, ks, k, NfcItems(nfc, extra, ks[..n])[k]);
        }
      }
    }
  }

  lemma FormStep(nfc: Normalizer, ks: seq<Text>, k: Text)
    requires ks != [] && nfc(ks[|ks| - 1]) != k
    ensures HasForm(nfc, ks, k) <==> HasForm(nfc, ks[..|ks| - 1], k)
  {
    var front := ks[..|ks| - 1];
    assert forall i :: 0 <= i < |front| ==> front[i] == ks[i];
    if HasForm(nfc, ks, k) {
      var i :| 0 <= i < |ks| && nfc(ks[i]) == k;
      assert nfc(front[i]) == k;
    }
  }

  lemma ValueStep(nfc: Normalizer, extra: map<Text, Text>, ks: seq<Text>, k: Text, value: Text)
    requires ks != [] && (forall o :: o in ks ==> o in extra) && nfc(ks[|ks| - 1]) != k
    requires IsValueOfLast(nfc, extra, ks[..|ks| - 1], k, value)
    ensures IsValueOfLast(nfc, extra, ks, k, value)
  {
    var front := ks[..|ks| - 1];
    assert forall i :: 0 <= i < |front| ==> front[i] == ks[i];
    var i :| 0 <= i < |front| && IsLastAt(nfc, front, i, k) && value == nfc(extra[front[i]]);
    assert IsLastAt(nfc, ks, i, k);
  }

  /** What canonicalization normalizes: `kid`, `model`, `ts` and the keys and values of `extra`, where of several keys
      with one normal form the last in sorted order counts. */
  lemma NormalizedMeans(nfc: Normalizer, h: PinHeader)
    ensures var g := Normalized(nfc, h);
            && g.v == h.v && g.kid == nfc(h.kid) && g.model == nfc(h.model) && g.ts == nfc(h.ts)
            && g.sourceHash == h.sourceHash && g.vecHash == h.vecHash && g.vecDtype == h.vecDtype
            && g.vecDim == h.vecDim && g.modelHash == h.modelHash
    ensures forall k :: k in Normalized(nfc, h).extra <==> exists o :: o in h.extra && nfc(o) == k
    ensures forall k :: k in Normalized(nfc, h).extra ==> ComesFromLast(nfc, h.extra, k, Normalized(nfc, h).extra[k])
  {
    forall k
      ensures k in Normalized(nfc, h).extra <==> exists o :: o in h.extra && nfc(o) == k
      ensures k in Normalized(nfc, h).extra ==> ComesFromLast(nfc, h.extra, k, Normalized(nfc, h).extra[k])
    {
      NfcExtraMeans(nfc, h.extra, k);
    }
  }

  /** The value is that of the greatest key with the normal form `k`. */
  ghost predicate ComesFromLast(nfc: Normalizer, extra: map<Text, Text>, k: Text, value: Text) {
    exists o :: o in extra && nfc(o) == k && value == nfc(extra[o])
                && forall p :: p in extra && nfc(p) == k ==> !LexLess(o, p)
  }

  lemma NfcExtraMeans(nfc: Normalizer, extra: map<Text, Text>, k: Text)
    ensures k in NfcExtra(nfc, extra) <==> exists o :: o in extra && nfc(o) == k
    ensures k in NfcExtra(nfc, extra) ==> ComesFromLast(nfc, extra, k, NfcExtra(nfc, extra)[k])
  {
    var ks := SortedKeys(extra.Keys);
    assert forall o :: o in ks <==> o in Elements(ks);
    assert forall i :: 0 <= i < |ks| ==> ks[i] in extra;
    ItemsMeans(nfc, extra, ks, k);
    if k in NfcExtra(nfc, extra) {
      var i :| 0 <= i < |ks| && IsLastAt(nfc, ks, i, k) && NfcExtra(nfc, extra)[k] == nfc(extra[ks[i]]);
      LastIsGreatest(nfc, extra, ks, i, k);
    }
    if exists o :: o in extra && nfc(o) == k {
      var o :| o in extra && nfc(o) == k;
      var j :| 0 <= j < |ks| && ks[j] == o;
      assert nfc(ks[j]) == k && HasForm(nfc, ks, k);
    }
  }

  lemma LastIsGreatest(nfc: Normalizer, extra: map<Text, Text>, ks: seq<Text>, i: nat, k: Text)
    requires StrictlySorted(ks) && Elements(ks) == extra.Keys && IsLastAt(nfc, ks, i, k)
    ensures forall p :: p in extra && nfc(p) == k ==> !LexLess(ks[i], p)
  {
    forall p | p in extra && nfc(p) == k
      ensures !LexLess(ks[i], p)
    {
      assert p in Elements(ks);
      var j :| 0 <= j < |ks| && ks[j] == p;
      if j < i {
        LexAsymmetric(ks[j], ks[i]);
      } else {
        LexIrreflexive(p);
      }
    }
  }

  /** Main result. The signed bytes of a v2 pin are its tag and UTF-8 of JSON that shows the normalized header. */
  lemma PinBytesShow(nfc: Normalizer, h: PinHeader) returns (ms: map<Text, Json>)
    requires Canonicalize(nfc, h).Some?
    ensures AreReadAs(Canonicalize(nfc, h).value, Utf8Raw(Ascii("vectorpin/v2\0")), ms)
    ensures ShowsHeader(ms, Normalized(nfc, h))
  {
    ms := JsonOf(nfc, PinMessage(h));
    BytesAre(nfc, PinMessage(h));
    SignedBytesRead(nfc, PinMessage(h));
    HeaderShown(Normalized(nfc, h));
    TagsAre();
  }

  /** The signed bytes of a v1 pin are UTF-8 of JSON that shows the header as it is, without `kid`. */
  lemma LegacyBytesShow(h: PinHeader) returns (ms: map<Text, Json>)
    requires CanonicalizeV1(h).Some?
    ensures AreReadAs(CanonicalizeV1(h).value, [], ms)
    ensures Ascii("kid") !in ms && ShowsHeader(ms[Ascii("kid") := Str(h.kid)], h)
  {
    var nfc: Normalizer := t => t;
    ms := JsonOf(nfc, LegacyMessage(h));
    BytesAre(nfc, LegacyMessage(h));
    SignedBytesRead(nfc, LegacyMessage(h));
    HeaderShown(h);
    WithoutKid(h);
  }

  lemma KidApart(m: map<Field, Json>)
    ensures Name(Kid) !in ObjectOf(m - {Kid})
  {
    if Name(Kid) in ObjectOf(m - {Kid}) {
      var f :| f in m - {Kid} && Name(f) == Name(Kid);
      NameInjective(f, Kid);
    }
  }

  lemma KidField(h: PinHeader)
    ensures HeaderFields(h)[Kid := Str(h.kid)] == HeaderFields(h)
  {
    assert Kid in HeaderFields(h) && HeaderFields(h)[Kid] == Str(h.kid);
  }

  lemma InsertFirst(ms: map<Text, Json>, k: Text, v: Json)
    requires k !in ms
    ensures map[k := v] + ms == ms[k := v]
  {
  }

  lemma WithoutKid(h: PinHeader)
    ensures var ms := ObjectOf(HeaderFields(h) - {Kid});
            Name(Kid) !in ms && ms[Name(Kid) := Str(h.kid)] == ObjectOf(HeaderFields(h))
  {
    KidApart(HeaderFields(h));
    KidField(h);
    ObjectUpdated(HeaderFields(h), Kid, Str(h.kid));
    InsertFirst(ObjectOf(HeaderFields(h) - {Kid}), Name(Kid), Str(h.kid));
  }

  // ---- manifests and summaries ----

  /** The members a signed manifest must have, by name. */
  ghost predicate ShowsManifest(ms: map<Text, Json>, c: M.CollectionManifest) {
    && Shows(ms, Ascii("v"), Num(Decimal(c.v))) && Shows(ms, Ascii("collection_id"), Str(c.collectionId))
    && Shows(ms, Ascii("count"), Num(Decimal(c.count))) && Shows(ms, Ascii("merkle_root"), Str(c.merkleRoot))
    && Shows(ms, Ascii("ts"), Str(c.ts)) && Shows(ms, Ascii("kid"), Str(c.kid))
    && forall k :: k in ms ==> exists f: M.SignedField :: M.SignedName(f) == k
  }

  lemma ManifestShown(c: M.CollectionManifest)
    ensures ShowsManifest(M.SignedDict(c), c)
  {
    var ms := M.SignedDict(c);
    assert Shows(ms, M.SignedName(M.Version), M.SignedValue(c, M.Version));
    assert Shows(ms, M.SignedName(M.CollectionId), M.SignedValue(c, M.CollectionId));
    assert Shows(ms, M.SignedName(M.Count), M.SignedValue(c, M.Count));
    assert Shows(ms, M.SignedName(M.MerkleRootHash), M.SignedValue(c, M.MerkleRootHash));
    assert Shows(ms, M.SignedName(M.Ts), M.SignedValue(c, M.Ts));
    assert Shows(ms, M.SignedName(M.Kid), M.SignedValue(c, M.Kid));
  }

  /** The signed bytes of a manifest are its tag and UTF-8 of JSON that shows its fields. */
  lemma ManifestBytesShow(c: M.CollectionManifest) returns (ms: map<Text, Json>)
    requires M.ManifestBytes(c).Some?
    ensures AreReadAs(M.ManifestBytes(c).value, Utf8Raw(Ascii("vectorpin/manifest/v1\0")), ms) && ShowsManifest(ms, c)
  {
    var nfc: Normalizer := t => t;
    ms := JsonOf(nfc, ManifestMessage(c));
    BytesAre(nfc, ManifestMessage(c));
    SignedBytesRead(nfc, ManifestMessage(c));
    ManifestShown(c);
    TagsAre();
  }

  /** The signed bytes of a summary are its tag and UTF-8 of JSON that is its body. */
  lemma SummaryBytesShow(body: map<Text, Json>)
    requires WellFormed(Python, Obj(body)) && M.SummaryBytes(body).Some?
    ensures AreReadAs(M.SummaryBytes(body).value, Utf8Raw(Ascii("vectorpin/audit-summary/v1\0")), body)
  {
    var nfc: Normalizer := t => t;
    BytesAre(nfc, SummaryMessage(body));
    SignedBytesRead(nfc, SummaryMessage(body));
    TagsAre();
  }
}
