/** The text form of a pin in the Python port: `to_json` escapes all but ASCII, `from_json` caps the escaped text, so a
    pin can be too long for the text form although the dict form takes it. */
module StoredText {
  import opened Common
  import opened Utf
  import opened JsonText
  import opened Hashing
  import opened Attestation
  import opened Adapter
  import opened Encodable
  import Base64Url
  import SizeGuard
  import Timestamps
  import T = TsPins

  /** `Pin.to_json`. */
  function ToJson(p: Pin): Text {
    Print(PythonAscii, ToDict(p))
  }

  /** The loader is `json.loads`. */
  ghost predicate IsJsonLoads(loads: Loader) {
    forall s: Text :: loads(s) == Parse(PythonAscii, s)
  }

  // ---- the text is ASCII ----

  lemma AsciiConcat(a: Text, b: Text)
    requires Timestamps.IsAscii(a) && Timestamps.IsAscii(b)
    ensures Timestamps.IsAscii(a + b)
  {
  }

  lemma EscapeIsAscii(c: CodePoint)
    ensures Timestamps.IsAscii(Escape(PythonAscii, c))
  {
    if c >= 0x10000 {
      UnicodeIsAscii(Utf16Char(c)[0]);
      UnicodeIsAscii(Utf16Char(c)[1]);
      AsciiConcat(UnicodeEscape(Utf16Char(c)[0]), UnicodeEscape(Utf16Char(c)[1]));
    } else {
      UnicodeIsAscii(c);
    }
  }

  lemma UnicodeIsAscii(c: int)
    requires 0 <= c < 0x10000
    ensures Timestamps.IsAscii(UnicodeEscape(c))
  {
  }

  lemma {:induction false} EscapeAllIsAscii(s: Text)
    ensures Timestamps.IsAscii(EscapeAll(PythonAscii, s))
  {
    if s != [] {
      EscapeIsAscii(s[0]);
      EscapeAllIsAscii(s[1..]);
      AsciiConcat(Escape(PythonAscii, s[0]), EscapeAll(PythonAscii, s[1..]));
    }
  }

  lemma QuoteIsAscii(s: Text)
    ensures Timestamps.IsAscii(Quote(PythonAscii, s))
  {
    EscapeAllIsAscii(s);
    AsciiConcat([0x22], EscapeAll(PythonAscii, s));
    AsciiConcat([0x22] + EscapeAll(PythonAscii, s), [0x22]);
  }

  lemma {:induction false} JoinIsAscii(parts: seq<Text>)
    requires forall i :: 0 <= i < |parts| ==> Timestamps.IsAscii(parts[i])
    ensures Timestamps.IsAscii(Join(parts))
  {
    if |parts| > 1 {
      JoinIsAscii(parts[1..]);
      AsciiConcat(parts[0], [',' as int]);
      AsciiConcat(parts[0] + [',' as int], Join(parts[1..]));
    }
  }

  lemma MemberIsAscii(k: Text, v: Text)
    requires Timestamps.IsAscii(v)
    ensures Timestamps.IsAscii(Quote(PythonAscii, k) + [':' as int] + v)
  {
    QuoteIsAscii(k);
    AsciiConcat(Quote(PythonAscii, k), [':' as int]);
    AsciiConcat(Quote(PythonAscii, k) + [':' as int], v);
  }

  lemma BracesAreAscii(body: Text)
    requires Timestamps.IsAscii(body)
    ensures Timestamps.IsAscii(['{' as int] + body + ['}' as int])
  {
    AsciiConcat(['{' as int], body);
    AsciiConcat(['{' as int] + body, ['}' as int]);
  }

  lemma {:induction false} PrintIsAscii(j: Json)
    requires T.IsPlain(j)
    ensures Timestamps.IsAscii(Print(PythonAscii, j))
    decreases j
  {
    match j
    case Num(x) =>
      var n: nat :| x == Decimal(n);
      DecimalIsAscii(n);
    case Str(s) => QuoteIsAscii(s);
    case Obj(m) =>
      var ks, parts := PrintedParts(PythonAscii, j);
      forall i | 0 <= i < |parts|
        ensures Timestamps.IsAscii(parts[i])
      {
        PrintIsAscii(m[ks[i]]);
        MemberIsAscii(ks[i], Print(PythonAscii, m[ks[i]]));
      }
      JoinIsAscii(parts);
      BracesAreAscii(Join(parts));
  }

  lemma DecimalIsAscii(n: nat)
    ensures Timestamps.IsAscii(Decimal(n))
  {
  }

  /** So the cap on UTF-8 bytes counts its characters. */
  lemma TextIsAscii(p: Pin)
    ensures SurrogateFree(ToJson(p)) && |Utf8Raw(ToJson(p))| == |ToJson(p)|
  {
    T.PrintedDictIsPlain(p);
    PrintIsAscii(ToDict(p));
    Timestamps.AsciiText(ToJson(p));
  }

  // ---- it reads back ----

  lemma {:induction false} CleanIsPrintable(j: Json)
    requires T.IsPlain(j) && HasUtf8(j)
    ensures WellFormed(PythonAscii, j)
    decreases j
  {
    match j
    case Num(x) =>
      var n: nat :| x == Decimal(n);
      DecimalIsLexeme(PythonAscii, n);
    case Str(s) =>
    case Obj(m) =>
      forall k | k in m
        ensures Printable(PythonAscii, k) && WellFormed(PythonAscii, m[k])
      {
        CleanIsPrintable(m[k]);
      }
  }

  lemma SigIsClean(sig: Bytes)
    ensures SurrogateFree(Base64Url.Encode(sig))
  {
    Base64Url.DecodeEncode(sig);
    Base64Url.PortsDecodeAlike(Base64Url.Encode(sig));
    AlphabetIsClean(Base64Url.Encode(sig));
  }

  lemma AlphabetIsClean(t: Text)
    requires Base64Url.InAlphabet(t)
    ensures SurrogateFree(t)
  {
  }

  /** Every string of a pin that meets the rules is well-formed Unicode. */
  lemma RulesAreClean(nfc: Normalizer, p: Pin, acceptV1: bool)
    requires MeetsRules(nfc, p, acceptV1)
    ensures HasUtf8(ToDict(p))
  {
    PrintedReads(nfc, p, acceptV1);
    forall k | k in ToDict(p).members
      ensures SurrogateFree(k) && HasUtf8(ToDict(p).members[k])
    {
      var f :| f in PinFields(p) && Name(f) == k;
      NameFree(f);
      FieldIsClean(nfc, p, acceptV1, f);
    }
  }

  lemma FieldIsClean(nfc: Normalizer, p: Pin, acceptV1: bool, f: Field)
    requires Read(nfc, PinFields(p), acceptV1, p) && f in PinFields(p)
    ensures HasUtf8(PinFields(p)[f])
  {
    if f == Sig {
      SigIsClean(p.sig);
    } else {
      ParsedFieldFree(nfc, PinFields(p), acceptV1, p, f);
    }
  }

  lemma TextParses(nfc: Normalizer, p: Pin, acceptV1: bool)
    requires MeetsRules(nfc, p, acceptV1)
    ensures Parse(PythonAscii, ToJson(p)) == Some(ToDict(p))
  {
    RulesAreClean(nfc, p, acceptV1);
    T.PrintedDictIsPlain(p);
    CleanIsPrintable(ToDict(p));
    ParsePrint(PythonAscii, ToDict(p));
  }

  lemma LoadedIsParsed(nfc: Normalizer, loads: Loader, s: Text, acceptV1: bool, p: Pin)
    requires PinFromJson(nfc, loads, s, acceptV1) == Some(p)
    ensures MeetsRules(nfc, p, acceptV1) && |Utf8Raw(s)| <= MAX_PIN_JSON_BYTES
  {
    ParsedMeetsRules(nfc, loads(s).value, acceptV1, p);
  }

  /** Main result. from_json(to_json(p)) = p exactly for the pins that meet the wire-format rules and whose escaped text
      is within the cap. */
  lemma TextParsesBackIff(nfc: Normalizer, loads: Loader, p: Pin, acceptV1: bool)
    requires IsJsonLoads(loads)
    ensures PinFromJson(nfc, loads, ToJson(p), acceptV1) == Some(p)
            <==> MeetsRules(nfc, p, acceptV1) && |ToJson(p)| <= MAX_PIN_JSON_BYTES
  {
    TextIsAscii(p);
    if PinFromJson(nfc, loads, ToJson(p), acceptV1) == Some(p) {
      LoadedIsParsed(nfc, loads, ToJson(p), acceptV1, p);
    }
    if MeetsRules(nfc, p, acceptV1) && |ToJson(p)| <= MAX_PIN_JSON_BYTES {
      TextParses(nfc, p, acceptV1);
      SizeGuard.ParsesBackIff(nfc, p, acceptV1);
    }
  }

  /** For a pin the dict parser accepts the text form is lossless or refused, as its escaped length says. */
  lemma AcceptedPinAsText(nfc: Normalizer, loads: Loader, d: Json, acceptV1: bool, p: Pin)
    requires IsJsonLoads(loads) && FromDict(nfc, d, acceptV1) == Some(p)
    ensures PinFromJson(nfc, loads, ToJson(p), acceptV1)
         == if |ToJson(p)| <= MAX_PIN_JSON_BYTES then Some(p) else None
  {
    ParsedMeetsRules(nfc, d, acceptV1, p);
    TextParsesBackIff(nfc, loads, p, acceptV1);
    TextIsAscii(p);
  }

  lemma TextStarts(p: Pin)
    ensures !IsBlank(ToJson(p))
  {
    var ks, parts := PrintedParts(PythonAscii, ToDict(p));
    assert ToJson(p)[0] == '{' as int && !IsBlankChar(ToJson(p)[0]);
  }

  // ---- and it can be too long ----

  lemma {:induction false} EscapedLength(s: Text)
    requires forall i :: 0 <= i < |s| ==> s[i] >= 0x7F
    ensures |EscapeAll(PythonAscii, s)| >= 6 * |s|
  {
    if s != [] {
      EscapedLength(s[1..]);
    }
  }

  lemma {:induction false} JoinLength(parts: seq<Text>, n: nat)
    requires forall i :: 0 <= i < |parts| ==> |parts[i]| >= n
    ensures |Join(parts)| >= |parts| * n
  {
    if |parts| > 1 {
      JoinLength(parts[1..], n);
      assert |parts| * n == n + |parts[1..]| * n;
    } else if |parts| == 1 {
      assert |parts| * n == n;
    }
  }

  lemma {:induction false} JoinHolds(parts: seq<Text>, i: nat)
    requires i < |parts|
    ensures |Join(parts)| >= |parts[i]|
    decreases i
  {
    if i > 0 {
      JoinHolds(parts[1..], i - 1);
    }
  }

  lemma MemberLength(d: Dialect, j: Json, k: Text)
    requires j.Obj? && k in j.members
    ensures |Print(d, j)| >= |Print(d, j.members[k])|
  {
    var ks, parts := PrintedParts(d, j);
    var i := IndexIn(ks, k);
    JoinHolds(parts, i);
  }

  /** A value of at least 341 characters, none of them printable ASCII. */
  predicate IsLong(v: Text) {
    |v| >= 341 && forall i :: 0 <= i < |v| ==> v[i] >= 0x7F
  }

  lemma LongPart(k: Text, v: Text)
    requires IsLong(v)
    ensures |Quote(PythonAscii, k) + [':' as int] + Quote(PythonAscii, v)| >= 2051
  {
    EscapedLength(v);
  }

  lemma ManyKeys(extra: map<Text, Text>, ks: seq<Text>)
    requires Elements(ks) == StrMap(extra).members.Keys
    ensures |ks| >= |extra| && forall i :: 0 <= i < |ks| ==> ks[i] in extra
  {
    assert StrMap(extra).members.Keys == extra.Keys && |extra.Keys| == |extra|;
    assert forall k :: k in extra.Keys ==> k in Elements(ks);
    SizeGuard.SubsetOfList(extra.Keys, ks);
  }

  lemma LongExtraText(extra: map<Text, Text>)
    requires |extra| >= 32 && forall k :: k in extra ==> IsLong(extra[k])
    ensures |Print(PythonAscii, StrMap(extra))| > MAX_PIN_JSON_BYTES
  {
    var ks, parts := PrintedParts(PythonAscii, StrMap(extra));
    ManyKeys(extra, ks);
    forall i | 0 <= i < |parts|
      ensures |parts[i]| >= 2051
    {
      LongPart(ks[i], extra[ks[i]]);
    }
    JoinLength(parts, 2051);
  }

  /** With 32 such values in `extra`, each within its own cap of 1,024 bytes, the text is too long. */
  lemma LongText(p: Pin)
    requires |p.header.extra| >= 32 && forall k :: k in p.header.extra ==> IsLong(p.header.extra[k])
    ensures |ToJson(p)| > MAX_PIN_JSON_BYTES
  {
    var extra := p.header.extra;
    LongExtraText(extra);
    assert Extra in PinFields(p) && PinFields(p)[Extra] == StrMap(extra);
    MemberLength(PythonAscii, ToDict(p), Name(Extra));
  }

  function Letters(n: nat): (ks: set<Text>)
    requires n <= 32
    ensures |ks| == n && forall k :: k in ks ==> |k| == 1 && 'A' as int <= k[0] < 'A' as int + n
  {
    if n == 0 then {} else Letters(n - 1) + {['A' as int + n - 1]}
  }

  /** Euro signs under each of the keys. */
  function EuroExtra(keys: set<Text>): map<Text, Text> {
    map k | k in keys :: Euros()
  }

  /** 341 euro signs: 1,023 bytes. */
  function Euros(): Text {
    seq(341, _ => 0x20AC)
  }

  function LongPin(sha: Hash): Pin {
    var p := T.SamplePin(sha);
    p.(header := p.header.(extra := EuroExtra(Letters(MAX_EXTRA_ENTRIES))))
  }

  lemma {:induction false} ThreeBytesEach(t: Text)
    requires forall i :: 0 <= i < |t| ==> t[i] == 0x20AC
    ensures |Utf8Raw(t)| == 3 * |t|
  {
    if t != [] {
      ThreeBytesEach(t[1..]);
    }
  }

  lemma SafeRule(nfc: Normalizer, t: Text, limit: nat)
    requires t != [] && |t| <= limit && nfc(t) == t && forall i :: 0 <= i < |t| ==> 0x20 <= t[i] < 0x80
    ensures TextRule(nfc, t, limit, true)
  {
    Timestamps.AsciiText(t);
  }

  lemma EurosAreSafe(nfc: Normalizer)
    requires nfc(Euros()) == Euros()
    ensures StringOk(nfc, Euros(), true) && |Utf8Raw(Euros())| <= MAX_EXTRA_VALUE_BYTES && IsLong(Euros())
  {
    ThreeBytesEach(Euros());
  }

  lemma LongEntry(nfc: Normalizer, k: Text)
    requires |k| == 1 && 'A' as int <= k[0] < 0x80 && nfc(k) == k && nfc(Euros()) == Euros()
    ensures EntryOk(nfc, k, Str(Euros()), true)
  {
    SafeRule(nfc, k, MAX_EXTRA_KEY_BYTES);
    EurosAreSafe(nfc);
  }

  lemma LongExtraRule(nfc: Normalizer, keys: set<Text>)
    requires |keys| <= MAX_EXTRA_ENTRIES && forall k :: k in keys ==> |k| == 1 && 'A' as int <= k[0] < 0x80
    requires forall k :: k in keys ==> nfc(k) == k && nfc(Euros()) == Euros()
    ensures ExtraRule(nfc, EuroExtra(keys), true) && |EuroExtra(keys)| == |keys|
  {
    assert EuroExtra(keys).Keys == keys && |EuroExtra(keys).Keys| == |EuroExtra(keys)|;
    forall k | k in keys
      ensures EntryOk(nfc, k, Str(Euros()), true)
    {
      LongEntry(nfc, k);
    }
  }

  lemma SampleRules(nfc: Normalizer, sha: Hash)
    requires var h := T.SamplePin(sha).header; nfc(h.kid) == h.kid && nfc(h.model) == h.model && nfc(h.ts) == h.ts
    ensures FromDict(nfc, ToDict(T.SamplePin(sha)), false) == Some(T.SamplePin(sha))
  {
    var p := T.SamplePin(sha);
    HashBytesIsHashString(sha, []);
    SafeRule(nfc, p.header.kid, MAX_KID_BYTES);
    SafeRule(nfc, p.header.model, MAX_MODEL_BYTES);
    SampleTime(nfc, p.header.ts);
    SizeGuard.ParsesBackIff(nfc, p, false);
  }

  lemma SampleTime(nfc: Normalizer, ts: Text)
    requires ts == Timestamps.FormatTs(Timestamps.Civil.Fields(2025, 1, 1, 0, 0, 0)) && nfc(ts) == ts
    ensures ts != [] && TsOk(nfc, ts, true)
  {
    Timestamps.FormatThenParse(Timestamps.Civil.Fields(2025, 1, 1, 0, 0, 0));
    assert Timestamps.HasTsShape(ts);
  }

  lemma ParsesWithExtra(nfc: Normalizer, p: Pin, extra: map<Text, Text>)
    requires FromDict(nfc, ToDict(p), false) == Some(p) && ExtraRule(nfc, extra, true)
    ensures var q := p.(header := p.header.(extra := extra)); FromDict(nfc, ToDict(q), false) == Some(q)
  {
    SizeGuard.ParsesBackIff(nfc, p, false);
    SizeGuard.ParsesBackIff(nfc, p.(header := p.header.(extra := extra)), false);
  }

  lemma LongPinParses(nfc: Normalizer, sha: Hash)
    requires IsNormalized(nfc, LongPin(sha).header)
    ensures FromDict(nfc, ToDict(LongPin(sha)), false) == Some(LongPin(sha))
  {
    var p, keys := LongPin(sha), Letters(MAX_EXTRA_ENTRIES);
    forall k | k in keys
      ensures nfc(k) == k && nfc(Euros()) == Euros()
    {
      assert k in p.header.extra && p.header.extra[k] == Euros();
    }
    SampleRules(nfc, sha);
    LongExtraRule(nfc, keys);
    ParsesWithExtra(nfc, T.SamplePin(sha), p.header.extra);
  }

  lemma LongPinIsLong(sha: Hash)
    ensures |ToJson(LongPin(sha))| > MAX_PIN_JSON_BYTES
  {
    var p, keys := LongPin(sha), Letters(MAX_EXTRA_ENTRIES);
    assert p.header.extra.Keys == keys && |p.header.extra.Keys| == |p.header.extra|;
    LongText(p);
  }

  /** A pin that the dict parser takes and whose own text `from_json` refuses: 32 `extra` values of 341 euro signs. */
  lemma LongPinIsRefusedAsText(nfc: Normalizer, loads: Loader, sha: Hash)
    requires IsJsonLoads(loads) && IsNormalized(nfc, LongPin(sha).header)
    ensures FromDict(nfc, ToDict(LongPin(sha)), false) == Some(LongPin(sha))
    ensures PinFromJson(nfc, loads, ToJson(LongPin(sha)), false) == None
  {
    LongPinParses(nfc, sha);
    LongPinIsLong(sha);
    AcceptedPinAsText(nfc, loads, ToDict(LongPin(sha)), false, LongPin(sha));
  }
}
