/** The signed bytes of the four message kinds are uniquely decodable: one domain for each kind, and
    within a kind the bytes determine the content. */
module SignedBytes {
  import opened Common
  import opened Utf
  import opened JsonText
  import opened Attestation
  import M = Manifest

  /** Everything an Ed25519 key of the system signs. */
  datatype Message =
    | PinMessage(header: PinHeader)
    | LegacyMessage(header: PinHeader)
    | ManifestMessage(manifest: M.CollectionManifest)
    | SummaryMessage(body: map<Text, Json>)

  /** A summary's numbers are written as JSON numbers. */
  ghost predicate IsMessage(m: Message) {
    m.SummaryMessage? ==> WellFormed(Python, Obj(m.body))
  }

  function JsonOf(nfc: Normalizer, m: Message): map<Text, Json> {
    match m
    case PinMessage(h) => ObjectOf(HeaderFields(Normalized(nfc, h)))
    case LegacyMessage(h) => ObjectOf(HeaderFields(h) - {Kid})
    case ManifestMessage(c) => M.SignedDict(c)
    case SummaryMessage(body) => body
  }

  function TagOf(m: Message): Bytes {
    match m
    case PinMessage(_) => PinTag()
    case LegacyMessage(_) => []
    case ManifestMessage(_) => M.ManifestTag()
    case SummaryMessage(_) => M.SummaryTag()
  }

  /** The bytes signed for a message. */
  function BytesOf(nfc: Normalizer, m: Message): Option<Bytes> {
    Tagged(TagOf(m), CanonicalJson(Obj(JsonOf(nfc, m))))
  }

  /** These are the bytes the system's own functions sign. */
  lemma BytesAre(nfc: Normalizer, m: Message)
    ensures m.PinMessage? ==> BytesOf(nfc, m) == Canonicalize(nfc, m.header)
    ensures m.LegacyMessage? ==> BytesOf(nfc, m) == CanonicalizeV1(m.header)
    ensures m.ManifestMessage? ==> BytesOf(nfc, m) == M.ManifestBytes(m.manifest)
    ensures m.SummaryMessage? ==> BytesOf(nfc, m) == M.SummaryBytes(m.body)
  {
    if m.LegacyMessage? {
      var body := CanonicalJson(Obj(JsonOf(nfc, m)));
      if body.Some? {
        assert [] + body.value == body.value;
      }
    }
  }

  // ---- the JSON determines the content ----

  lemma HeaderJsonWellFormed(h: PinHeader, drop: set<Field>)
    ensures WellFormed(Python, Obj(ObjectOf(HeaderFields(h) - drop)))
  {
    var m := HeaderFields(h) - drop;
    var ms := ObjectOf(m);
    forall k | k in ms
      ensures WellFormed(Python, ms[k])
    {
      var f :| f in m && Name(f) == k;
      FieldWellFormed(h, f);
    }
  }

  lemma FieldWellFormed(h: PinHeader, f: Field)
    requires Present(h, f)
    ensures WellFormed(Python, FieldValue(h, f))
  {
    if f == Version {
      DecimalIsLexeme(Python, h.v);
    } else if f == VecDim {
      DecimalIsLexeme(Python, h.vecDim);
    }
  }

  lemma ManifestJsonWellFormed(c: M.CollectionManifest)
    ensures WellFormed(Python, Obj(M.SignedDict(c)))
  {
    var ms := M.SignedDict(c);
    forall k | k in ms
      ensures WellFormed(Python, ms[k])
    {
      var f: M.SignedField :| M.SignedName(f) == k;
      assert ms[k] == M.SignedValue(c, f);
      SignedValueWellFormed(c, f);
    }
  }

  lemma SignedValueWellFormed(c: M.CollectionManifest, f: M.SignedField)
    ensures WellFormed(Python, M.SignedValue(c, f))
  {
    DecimalIsLexeme(Python, c.v);
    DecimalIsLexeme(Python, c.count);
  }

  lemma JsonWellFormed(nfc: Normalizer, m: Message)
    requires IsMessage(m)
    ensures WellFormed(Python, Obj(JsonOf(nfc, m)))
  {
    match m
    case PinMessage(h) =>
      HeaderJsonWellFormed(Normalized(nfc, h), {});
      assert HeaderFields(Normalized(nfc, h)) - {} == HeaderFields(Normalized(nfc, h));
    case LegacyMessage(h) => HeaderJsonWellFormed(h, {Kid});
    case ManifestMessage(c) => ManifestJsonWellFormed(c);
    case SummaryMessage(_) =>
  }

  lemma ObjectOfInjective(m: map<Field, Json>, n: map<Field, Json>)
    requires ObjectOf(m) == ObjectOf(n)
    ensures m == n
  {
    FieldsOfObject(m);
    FieldsOfObject(n);
  }

  /** The same content: all header fields of a v2 pin after normalization, all but `kid` of a v1 pin,
      all but the signature of a manifest, all of a summary's body. */
  predicate SameContent(nfc: Normalizer, a: Message, b: Message) {
    match (a, b)
    case (PinMessage(g), PinMessage(h)) => Normalized(nfc, g) == Normalized(nfc, h)
    case (LegacyMessage(g), LegacyMessage(h)) => g == h.(kid := g.kid)
    case (ManifestMessage(c), ManifestMessage(d)) => c == d.(sig := c.sig)
    case (SummaryMessage(x), SummaryMessage(y)) => x == y
    case _ => false
  }

  predicate SameKind(a: Message, b: Message) {
    (a.PinMessage? <==> b.PinMessage?) && (a.LegacyMessage? <==> b.LegacyMessage?)
    && (a.ManifestMessage? <==> b.ManifestMessage?)
  }

  lemma JsonDetermines(nfc: Normalizer, a: Message, b: Message)
    requires SameKind(a, b) && JsonOf(nfc, a) == JsonOf(nfc, b)
    ensures SameContent(nfc, a, b)
  {
    match a
    case PinMessage(g) =>
      ObjectOfInjective(HeaderFields(Normalized(nfc, g)), HeaderFields(Normalized(nfc, b.header)));
      HeaderFieldsInjective(Normalized(nfc, g), Normalized(nfc, b.header));
    case LegacyMessage(g) =>
      ObjectOfInjective(HeaderFields(g) - {Kid}, HeaderFields(b.header) - {Kid});
      HeaderDetermined(g, b.header);
    case ManifestMessage(c) => M.SignedDictInjective(c, b.manifest);
    case SummaryMessage(_) =>
  }

  // ---- the bytes determine the JSON and the kind ----

  lemma BodyInjective(x: map<Text, Json>, y: map<Text, Json>)
    requires WellFormed(Python, Obj(x)) && WellFormed(Python, Obj(y))
    requires CanonicalJson(Obj(x)).Some? && CanonicalJson(Obj(x)) == CanonicalJson(Obj(y))
    ensures x == y
  {
    Utf8Injective(Print(Python, Obj(x)), Print(Python, Obj(y)));
    PrintInjective(Python, Obj(x), Obj(y));
  }

  /** A printed object starts with a brace. */
  lemma BodyStart(ms: map<Text, Json>)
    requires CanonicalJson(Obj(ms)).Some?
    ensures CanonicalJson(Obj(ms)).value != [] && CanonicalJson(Obj(ms)).value[0] == 0x7B
  {
    var ks, parts := PrintedParts(Python, Obj(ms));
    var t := Print(Python, Obj(ms));
    assert t[0] == 0x7B;
    assert Utf8Raw(t) == Utf8Char(t[0]) + Utf8Raw(t[1..]);
  }

  /** The letter that tells the tags apart. */
  lemma TagLetters()
    ensures PinTag()[0] == 'v' as int && PinTag()[10] == 'v' as int
    ensures M.ManifestTag()[0] == 'v' as int && M.ManifestTag()[10] == 'm' as int
    ensures M.SummaryTag()[0] == 'v' as int && M.SummaryTag()[10] == 'a' as int
  {
  }

  /** First letter, and the letter after `vectorpin/` when there is a tag. */
  lemma KindLetters(nfc: Normalizer, m: Message)
    requires BytesOf(nfc, m).Some?
    ensures var b := BytesOf(nfc, m).value;
            && b != [] && (b[0] == 0x7B <==> m.LegacyMessage?)
            && (m.PinMessage? ==> |b| > 10 && b[10] == 'v' as int)
            && (m.ManifestMessage? ==> |b| > 10 && b[10] == 'm' as int)
            && (m.SummaryMessage? ==> |b| > 10 && b[10] == 'a' as int)
  {
    TagLetters();
    BodyStart(JsonOf(nfc, m));
  }

  /** Messages of different kinds never have the same signed bytes. */
  lemma KindsNeverCoincide(nfc: Normalizer, a: Message, b: Message)
    requires BytesOf(nfc, a).Some? && BytesOf(nfc, a) == BytesOf(nfc, b)
    ensures SameKind(a, b)
  {
    KindLetters(nfc, a);
    KindLetters(nfc, b);
  }

  lemma SameTagSameBody(nfc: Normalizer, a: Message, b: Message)
    requires SameKind(a, b) && BytesOf(nfc, a).Some? && BytesOf(nfc, a) == BytesOf(nfc, b)
    ensures CanonicalJson(Obj(JsonOf(nfc, a))) == CanonicalJson(Obj(JsonOf(nfc, b)))
  {
    var tag := TagOf(a);
    assert tag == TagOf(b);
    var x, y := CanonicalJson(Obj(JsonOf(nfc, a))).value, CanonicalJson(Obj(JsonOf(nfc, b))).value;
    assert (tag + x)[|tag|..] == x && (tag + y)[|tag|..] == y;
  }

  /** Main result. Equal signed bytes mean one kind and the same content. */
  lemma SignedBytesDecodable(nfc: Normalizer, a: Message, b: Message)
    requires IsMessage(a) && IsMessage(b)
    requires BytesOf(nfc, a).Some? && BytesOf(nfc, a) == BytesOf(nfc, b)
    ensures SameContent(nfc, a, b)
  {
    KindsNeverCoincide(nfc, a, b);
    SameTagSameBody(nfc, a, b);
    JsonWellFormed(nfc, a);
    JsonWellFormed(nfc, b);
    BodyInjective(JsonOf(nfc, a), JsonOf(nfc, b));
    JsonDetermines(nfc, a, b);
  }

  /** For pins the strict parser accepts, the bytes determine every header field. */
  lemma ParsedPinBytesDecodable(nfc: Normalizer, d: Json, e: Json, p: Pin, q: Pin)
    requires FromDict(nfc, d, false) == Some(p) && FromDict(nfc, e, false) == Some(q)
    requires Canonicalize(nfc, p.header).Some? && Canonicalize(nfc, p.header) == Canonicalize(nfc, q.header)
    ensures p.header == q.header
  {
    SignedBytesDecodable(nfc, PinMessage(p.header), PinMessage(q.header));
    ParsedIsNormalized(nfc, d, p);
    ParsedIsNormalized(nfc, e, q);
    NormalizedIdentity(nfc, p.header);
    NormalizedIdentity(nfc, q.header);
  }

  /** A v1 signature says nothing about the key id: any other one gives the same signed bytes. */
  lemma LegacyKidUnsigned(h: PinHeader, kid: Text)
    ensures CanonicalizeV1(h.(kid := kid)) == CanonicalizeV1(h)
  {
    var g := h.(kid := kid);
    assert forall f: Field :: f != Kid ==> (Present(g, f) <==> Present(h, f));
    assert forall f: Field :: f != Kid && Present(h, f) ==> FieldValue(g, f) == FieldValue(h, f);
    assert HeaderFields(g) - {Kid} == HeaderFields(h) - {Kid};
  }
}
