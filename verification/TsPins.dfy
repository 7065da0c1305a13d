/** The wire printer and parser of the TypeScript port. Strings are sequences of UTF-16 code units,
    so sorted keys come in code-unit order. */
module TsPins {
  import opened Common
  import opened Utf
  import opened JsonText
  import opened Hashing
  import opened Attestation
  import Base64Url
  import Timestamps

  /** A parsed pin; `extra` can be absent, or given and empty. */
  datatype TsPin = TsPin(pin: Pin, extraGiven: bool)

  // ---- the raw-text check for number literals ----

  /** `\s` of a JavaScript regular expression. */
  predicate IsJsSpace(c: int) {
    0x09 <= c <= 0x0D || c == 0x20 || c == 0xA0 || c == 0x1680 || 0x2000 <= c <= 0x200A || c == 0x2028
    || c == 0x2029 || c == 0x202F || c == 0x205F || c == 0x3000 || c == 0xFEFF
  }

  function SkipJsSpace(t: Text): (r: Text)
  {
    if t != [] && IsJsSpace(t[0]) then SkipJsSpace(t[1..]) else t
  }

  /** `\d+\.`, `\d*\.\d+` or `\d+(\.\d+)?[eE]`. */
  predicate IsNonInteger(t: Text) {
    var n := Digits(t);
    && n < |t|
    && ((t[n] == '.' as int && (n > 0 || Digits(t[n + 1..]) > 0))
        || (n > 0 && (t[n] == 'e' as int || t[n] == 'E' as int)))
  }

  predicate StartsNonInteger(t: Text) {
    IsNonInteger(if t != [] && t[0] == '-' as int then t[1..] else t)
  }

  /** The rest of the pattern, after the quoted key. */
  predicate MatchesAfterKey(t: Text) {
    var u := SkipJsSpace(t);
    u != [] && u[0] == ':' as int && StartsNonInteger(SkipJsSpace(u[1..]))
  }

  predicate MatchesKey(t: Text, name: Text) {
    StartsWith(t, [0x22] + name + [0x22]) && MatchesAfterKey(t[|name| + 2..])
  }

  predicate MatchesAt(t: Text) {
    MatchesKey(t, Name(Version)) || MatchesKey(t, Name(VecDim))
  }

  /** `NON_INTEGER_LITERAL_RE.test`. */
  predicate Fires(t: Text) {
    exists i :: 0 <= i < |t| && MatchesAt(t[i..])
  }

  // ---- it never fires on printed pins ----

  /** The pattern matches nowhere in `t` when `rest` follows. */
  ghost predicate Quiet(t: Text, rest: Text) {
    forall i :: 0 <= i < |t| ==> !MatchesAt((t + rest)[i..])
  }

  lemma QuietConcat(a: Text, b: Text, rest: Text)
    requires Quiet(a, b + rest) && Quiet(b, rest)
    ensures Quiet(a + b, rest)
  {
    forall i | 0 <= i < |a + b|
      ensures !MatchesAt((a + b + rest)[i..])
    {
      if i < |a| {
        Assoc(a, b, rest);
        assert !MatchesAt((a + (b + rest))[i..]);
      } else {
        assert (a + b + rest)[i..] == (b + rest)[i - |a|..];
      }
    }
  }

  lemma MatchStartsWithQuote(t: Text)
    requires MatchesAt(t)
    ensures t != [] && t[0] == 0x22
  {
    var name := if MatchesKey(t, Name(Version)) then Name(Version) else Name(VecDim);
    assert t[..|name| + 2][0] == ([0x22] + name + [0x22])[0];
  }

  lemma QuietWithoutQuotes(t: Text, rest: Text)
    requires forall i :: 0 <= i < |t| ==> t[i] != 0x22
    ensures Quiet(t, rest)
  {
    forall i | 0 <= i < |t|
      ensures !MatchesAt((t + rest)[i..])
    {
      assert (t + rest)[i..][0] == t[i];
      if MatchesAt((t + rest)[i..]) {
        MatchStartsWithQuote((t + rest)[i..]);
        assert false;
      }
    }
  }

  /** Inside a printed string every quote is preceded by a backslash. */
  lemma {:induction false} QuotesAreEscaped(s: Text, p: nat)
    requires p < |EscapeAll(JavaScript, s)| && EscapeAll(JavaScript, s)[p] == 0x22
    ensures p > 0 && EscapeAll(JavaScript, s)[p - 1] == 0x5C
    decreases |s|
  {
    var n := if StartsWithPair(JavaScript, s) then 2 else 1;
    var head := if n == 2 then s[..2] else Escape(JavaScript, s[0]);
    assert EscapeAll(JavaScript, s) == head + EscapeAll(JavaScript, s[n..]);
    assert forall i :: 0 <= i < |head| ==> EscapeAll(JavaScript, s)[i] == head[i];
    assert n == 2 ==> head[0] == s[0] && head[1] == s[1];
    if p >= |head| {
      QuotesAreEscaped(s[n..], p - |head|);
      assert EscapeAll(JavaScript, s)[p - 1] == EscapeAll(JavaScript, s[n..])[p - |head| - 1];
    } else if n == 1 {
      EscapeHasNoBareQuote(s[0], p);
    }
  }

  lemma EscapeHasNoBareQuote(c: CodePoint, p: nat)
    requires p < |Escape(JavaScript, c)| && Escape(JavaScript, c)[p] == 0x22
    ensures p > 0 && Escape(JavaScript, c)[p - 1] == 0x5C
  {
  }

  /** Neither a quote nor a backslash: what the two key names are made of. */
  predicate IsPlainName(name: Text) {
    name != [] && forall j :: 0 <= j < |name| ==> name[j] != 0x22 && name[j] != 0x5C
  }

  lemma QuotedNameAt(q: Text, i: nat, name: Text)
    requires i <= |q| && StartsWith(q[i..], [0x22] + name + [0x22])
    ensures i + |name| + 1 < |q| && q[i] == 0x22 && q[i + |name| + 1] == 0x22
    ensures forall k :: i < k < i + |name| + 1 ==> q[k] == name[k - i - 1]
  {
    var quoted := [0x22] + name + [0x22];
    assert q[i..][..|quoted|] == quoted;
    assert q[i + 0] == quoted[0] && q[i + (|name| + 1)] == quoted[|name| + 1];
    forall k | i < k < i + |name| + 1
      ensures q[k] == name[k - i - 1]
    {
      assert q[k] == q[i..][k - i] == quoted[k - i];
    }
  }

  lemma EscapedInQuote(s: Text, rest: Text, p: nat)
    requires 0 < p < |Quote(JavaScript, s)| - 1 && (Quote(JavaScript, s) + rest)[p] == 0x22
    ensures (Quote(JavaScript, s) + rest)[p - 1] == 0x5C
  {
    assert EscapeAll(JavaScript, s)[p - 1] == 0x22;
    QuotesAreEscaped(s, p - 1);
    assert (Quote(JavaScript, s) + rest)[p - 1] == EscapeAll(JavaScript, s)[p - 2];
  }

  /** A quoted name found inside a printed string ends with that string. */
  lemma NameEndsString(s: Text, rest: Text, i: nat, name: Text)
    requires i < |Quote(JavaScript, s)| && IsPlainName(name) && (rest != [] ==> rest[0] != name[0])
    requires StartsWith((Quote(JavaScript, s) + rest)[i..], [0x22] + name + [0x22])
    ensures i + |name| + 2 == |Quote(JavaScript, s)|
  {
    var q, last, p := Quote(JavaScript, s) + rest, |Quote(JavaScript, s)| - 1, i + |name| + 1;
    QuotedNameAt(q, i, name);
    assert q[last] == 0x22;
    assert q[i + 1] == name[0];
    assert i < last;
    assert forall k :: i < k < p ==> q[k] != 0x22;
    assert p <= last;
    assert q[p - 1] == name[|name| - 1];
    if p < last {
      EscapedInQuote(s, rest, p);
    }
  }

  lemma KeyNames()
    ensures IsPlainName(Name(Version)) && IsPlainName(Name(VecDim))
    ensures Name(Version)[0] == 'v' as int && Name(VecDim)[0] == 'v' as int
  {
  }

  /** A printed string is quiet unless what follows it is a colon and a non-integer number. */
  lemma QuotedIsQuiet(s: Text, rest: Text)
    requires rest != [] ==> rest[0] != 'v' as int
    requires !MatchesAfterKey(rest)
    ensures Quiet(Quote(JavaScript, s), rest)
  {
    KeyNames();
    forall i | 0 <= i < |Quote(JavaScript, s)|
      ensures !MatchesAt((Quote(JavaScript, s) + rest)[i..])
    {
      QuotedKeyIsQuiet(s, rest, i, Name(Version));
      QuotedKeyIsQuiet(s, rest, i, Name(VecDim));
    }
  }

  lemma QuotedKeyIsQuiet(s: Text, rest: Text, i: nat, name: Text)
    requires i < |Quote(JavaScript, s)| && IsPlainName(name) && (rest != [] ==> rest[0] != name[0])
    requires !MatchesAfterKey(rest)
    ensures !MatchesKey((Quote(JavaScript, s) + rest)[i..], name)
  {
    var t := (Quote(JavaScript, s) + rest)[i..];
    if StartsWith(t, [0x22] + name + [0x22]) {
      NameEndsString(s, rest, i, name);
      assert t[|name| + 2..] == rest;
    }
  }

  lemma DelimitedIsHarmless(rest: Text)
    requires Delimited(rest)
    ensures !MatchesAfterKey(rest)
  {
  }

  /** Only integers in minimal form, strings, and objects of such. */
  ghost predicate IsPlain(j: Json)
    decreases j
  {
    match j
    case Num(x) => exists n: nat :: x == Decimal(n)
    case Str(_) => true
    case Obj(m) => forall k :: k in m ==> IsPlain(m[k])
    case _ => false
  }

  /** Quiet before any delimiter, and never read as a non-integer number. */
  ghost predicate IsQuietText(p: Text) {
    forall rest: Text :: Delimited(rest) ==> Quiet(p, rest) && !StartsNonInteger(SkipJsSpace(p + rest))
  }

  lemma QuotedText(s: Text)
    ensures IsQuietText(Quote(JavaScript, s))
  {
    forall rest: Text | Delimited(rest)
      ensures Quiet(Quote(JavaScript, s), rest) && !StartsNonInteger(SkipJsSpace(Quote(JavaScript, s) + rest))
    {
      DelimitedIsHarmless(rest);
      QuotedIsQuiet(s, rest);
      assert (Quote(JavaScript, s) + rest)[0] == 0x22;
    }
  }

  lemma DecimalText(n: nat)
    ensures IsQuietText(Decimal(n))
  {
    var x := Decimal(n);
    forall rest: Text | Delimited(rest)
      ensures Quiet(x, rest) && !StartsNonInteger(SkipJsSpace(x + rest))
    {
      QuietWithoutQuotes(x, rest);
      AllDigits(x);
      DigitsStop(x, rest);
      assert (x + rest)[0] == x[0] && IsDigit(x[0]);
      assert |x| < |x + rest| ==> (x + rest)[|x|] == rest[0];
    }
  }

  /** A member is quiet: its key is followed by a value that is no non-integer number. */
  lemma MemberText(k: Text, q: Text)
    requires IsQuietText(q)
    ensures forall rest: Text :: Delimited(rest) ==> Quiet(Quote(JavaScript, k) + [':' as int] + q, rest)
  {
    var colon: Text := [':' as int];
    forall rest: Text | Delimited(rest)
      ensures Quiet(Quote(JavaScript, k) + colon + q, rest)
    {
      assert Quiet(q, rest) && !StartsNonInteger(SkipJsSpace(q + rest));
      var after := colon + (q + rest);
      assert after[0] == ':' as int && after[1..] == q + rest && SkipJsSpace(after) == after;
      QuotedIsQuiet(k, after);
      QuietWithoutQuotes(colon, q + rest);
      QuietConcat(Quote(JavaScript, k), colon, q + rest);
      assert colon + (q + rest) == after;
      QuietConcat(Quote(JavaScript, k) + colon, q, rest);
    }
  }

  lemma {:induction false} JoinedText(parts: seq<Text>, rest: Text)
    requires forall i :: 0 <= i < |parts| ==> forall r: Text :: Delimited(r) ==> Quiet(parts[i], r)
    requires Delimited(rest)
    ensures Quiet(Join(parts), rest)
  {
    if |parts| > 1 {
      var comma: Text := [',' as int];
      var tail := Join(parts[1..]);
      JoinedText(parts[1..], rest);
      QuietWithoutQuotes(comma, tail + rest);
      assert Delimited(comma + (tail + rest));
      QuietConcat(parts[0], comma, tail + rest);
      QuietConcat(parts[0] + comma, tail, rest);
    }
  }

  lemma {:induction false} PlainText(j: Json)
    requires IsPlain(j)
    ensures IsQuietText(Print(JavaScript, j))
    decreases j
  {
    match j
    case Num(x) =>
      var n: nat :| x == Decimal(n);
      DecimalText(n);
    case Str(s) => QuotedText(s);
    case Obj(m) =>
      var ks, parts := PrintedParts(JavaScript, j);
      forall i | 0 <= i < |parts|
        ensures forall r: Text :: Delimited(r) ==> Quiet(parts[i], r)
      {
        PlainText(m[ks[i]]);
        MemberText(ks[i], Print(JavaScript, m[ks[i]]));
      }
      ObjectTextIsQuiet(Print(JavaScript, j), parts);
  }

  lemma BraceIsNoNumber(t: Text)
    requires t != [] && t[0] == '{' as int
    ensures !StartsNonInteger(SkipJsSpace(t))
  {
  }

  lemma ObjectTextIsQuiet(t: Text, parts: seq<Text>)
    requires t == ['{' as int] + Join(parts) + ['}' as int]
    requires forall i :: 0 <= i < |parts| ==> forall r: Text :: Delimited(r) ==> Quiet(parts[i], r)
    ensures IsQuietText(t)
  {
    forall rest: Text | Delimited(rest)
      ensures Quiet(t, rest) && !StartsNonInteger(SkipJsSpace(t + rest))
    {
      var close: Text := ['}' as int];
      assert (close + rest)[0] == '}' as int;
      JoinedText(parts, close + rest);
      BracedIsQuiet(Join(parts), rest);
      BraceIsNoNumber(t + rest);
    }
  }

  lemma BracedIsQuiet(body: Text, rest: Text)
    requires Quiet(body, ['}' as int] + rest)
    ensures Quiet(['{' as int] + body + ['}' as int], rest)
  {
    var open: Text, close: Text := ['{' as int], ['}' as int];
    QuietWithoutQuotes(open, body + (close + rest));
    QuietWithoutQuotes(close, rest);
    QuietConcat(open, body, close + rest);
    QuietConcat(open + body, close, rest);
  }

  /** Main step: the raw-text check never fires on printed integers and strings, whatever the strings
      hold. */
  lemma NeverFiresOnPrinted(j: Json)
    requires IsPlain(j)
    ensures !Fires(Print(JavaScript, j))
  {
    PlainText(j);
    var t := Print(JavaScript, j);
    assert Delimited([]) && Quiet(t, []);
    assert t + [] == t;
  }

  // ---- the parser ----

  /** `assertByteCap`; every JavaScript string is made of code units. */
  predicate UnitsWithinCap(t: Text, limit: nat) {
    IsUnits(t) && |t| <= limit && Utf8Length16(t) <= limit
  }

  /** No lone surrogate, and for a v2 pin no control or bidi unit and normal form. */
  predicate UnitsOk(nfc: Normalizer, t: Text, strict: bool) {
    IsUnits(t) && WellFormed16(t) && (strict ==> SafeUnits(t) && nfc(t) == t)
  }

  predicate IsForbidden(k: Text) {
    k == Ascii("__proto__") || k == Ascii("constructor") || k == Ascii("prototype")
  }

  predicate TsEntryOk(nfc: Normalizer, k: Text, val: Json, strict: bool) {
    && !IsForbidden(k) && UnitsWithinCap(k, MAX_EXTRA_KEY_BYTES)
    && val.Str? && UnitsWithinCap(val.s, MAX_EXTRA_VALUE_BYTES)
    && UnitsOk(nfc, k, strict) && UnitsOk(nfc, val.s, strict)
  }

  /** The sanitized `extra`; absent reads as empty here, `extraGiven` keeps the difference. */
  function TsExtraOf(nfc: Normalizer, m: map<Field, Json>, strict: bool): (r: Option<map<Text, Text>>)
    ensures Extra !in m ==> r == Some(map[])
    ensures Extra in m ==>
              (r.Some? <==> m[Extra].Obj? && |m[Extra].members| <= MAX_EXTRA_ENTRIES
                            && forall k :: k in m[Extra].members ==> TsEntryOk(nfc, k, m[Extra].members[k], strict))
    ensures Extra in m && r.Some? ==> m[Extra] == StrMap(r.value)
  {
    if Extra !in m then Some(map[])
    else if !m[Extra].Obj? || |m[Extra].members| > MAX_EXTRA_ENTRIES then None
    else
      var raw := m[Extra].members;
      if forall k :: k in raw ==> TsEntryOk(nfc, k, raw[k], strict) then
        var e := map k | k in raw :: raw[k].s;
        assert StrMap(e).members == raw;
        Some(e)
      else None
  }

  /** The loop that fills `sanitized`, in whatever order the object lists its keys. */
  method Sanitize(nfc: Normalizer, raw: map<Text, Json>, strict: bool) returns (r: Option<map<Text, Text>>)
    ensures r == TsExtraOf(nfc, map[Extra := Obj(raw)], strict)
  {
    if |raw| > MAX_EXTRA_ENTRIES {
      return None;
    }
    var sanitized: map<Text, Text> := map[];
    var rest := raw.Keys;
    while rest != {}
      invariant rest <= raw.Keys && sanitized.Keys == raw.Keys - rest
      invariant forall k :: k in sanitized ==> TsEntryOk(nfc, k, raw[k], strict) && raw[k] == Str(sanitized[k])
      decreases |rest|
    {
      var k :| k in rest;
      if !TsEntryOk(nfc, k, raw[k], strict) {
        return None;
      }
      sanitized := sanitized[k := raw[k].s];
      rest := rest - {k};
    }
    assert StrMap(sanitized).members == raw;
    StrMapInjective(sanitized, TsExtraOf(nfc, map[Extra := Obj(raw)], strict).value);
    return Some(sanitized);
  }

  /** 2^53: integers up to here are exact JavaScript numbers. */
  const MAX_EXACT: nat := 0x20_0000_0000_0000

  /** The integer a number literal denotes after `JSON.parse`, if it is one. A digit string up to 2^53
      denotes itself; `decode` stands for what doubles make of every other literal. */
  function NumberOf(decode: Text -> Option<int>, x: Text): Option<int> {
    if AllDigitsText(x) && DecimalValue(x) <= MAX_EXACT then Some(DecimalValue(x)) else decode(x)
  }

  function NumField(decode: Text -> Option<int>, m: map<Field, Json>, f: Field): Option<int> {
    if f in m && m[f].Num? then NumberOf(decode, m[f].lexeme) else None
  }

  predicate TsNamedOk(nfc: Normalizer, m: map<Field, Json>, f: Field, limit: nat, strict: bool) {
    var s := StrField(m, f);
    s.Some? && s.value != [] && UnitsWithinCap(s.value, limit) && UnitsOk(nfc, s.value, strict)
  }

  /** Required hashes and the optional one: `null` counts as absent. */
  predicate TsHashesOk(m: map<Field, Json>) {
    && StrField(m, SourceHash).Some? && IsHashString(StrField(m, SourceHash).value)
    && StrField(m, VecHash).Some? && IsHashString(StrField(m, VecHash).value)
    && (ModelHash !in m || m[ModelHash].Null? || (m[ModelHash].Str? && IsHashString(m[ModelHash].s)))
  }

  predicate TsScalarsOk(nfc: Normalizer, decode: Text -> Option<int>, m: map<Field, Json>, strict: bool) {
    && TsNamedOk(nfc, m, Model, MAX_MODEL_BYTES, strict)
    && TsNamedOk(nfc, m, Kid, MAX_KID_BYTES, strict)
    && TsNamedOk(nfc, m, Ts, MAX_MODEL_BYTES, strict)
    && (strict ==> Timestamps.IsValidCalendarTs(StrField(m, Ts).value))
    && StrField(m, VecDtype).Some?
    && (StrField(m, VecDtype).value == Ascii("f32") || StrField(m, VecDtype).value == Ascii("f64"))
    && NumField(decode, m, VecDim).Some? && 0 < NumField(decode, m, VecDim).value <= MAX_VEC_DIM
    && TsHashesOk(m)
  }

  ghost function TsSigOf(m: map<Field, Json>): Option<Bytes> {
    var s := StrField(m, Sig);
    if s.None? || |s.value| > 4 * SIG_LEN then None
    else
      var sig := Base64Url.Decode(s.value);
      if sig.None? || |sig.value| != SIG_LEN then None else sig
  }

  /** The per-field part of `pinFromDict`. */
  ghost function TsFromFields(nfc: Normalizer, decode: Text -> Option<int>, m: map<Field, Json>, acceptV1: bool)
    : Option<TsPin>
  {
    var v := NumField(decode, m, Version);
    if v.None? || !(v.value == 2 || (acceptV1 && v.value == 1)) then None
    else
      var strict := v.value == 2;
      var extra := TsExtraOf(nfc, m, strict);
      var sig := TsSigOf(m);
      if !TsScalarsOk(nfc, decode, m, strict) || extra.None? || sig.None? then None
      else
        Some(TsPin(
          Pin(PinHeader(v.value, m[Kid].s, m[Model].s, m[SourceHash].s, m[VecHash].s, m[VecDtype].s,
                        NumField(decode, m, VecDim).value, m[Ts].s, StrField(m, ModelHash), extra.value), sig.value),
          Extra in m))
  }

  /** `pinFromDict`. */
  ghost function TsFromDict(nfc: Normalizer, decode: Text -> Option<int>, d: Json, acceptV1: bool): Option<TsPin> {
    if !d.Obj? || !OnlyKnownFields(d.members) then None
    else TsFromFields(nfc, decode, FieldsOf(d.members), acceptV1)
  }

  /** `pinFromJSON`. */
  ghost function FromJson(nfc: Normalizer, decode: Text -> Option<int>, s: Text, acceptV1: bool): Option<TsPin> {
    if !UnitsWithinCap(s, MAX_PIN_JSON_BYTES) || Fires(s) then None
    else
      match Parse(JavaScript, s)
      case None => None
      case Some(d) => TsFromDict(nfc, decode, d, acceptV1)
  }

  /** `pinToJSON`: an absent and an empty `extra` print alike. */
  function ToJson(p: TsPin): Text {
    Print(JavaScript, ToDict(p.pin))
  }

  // ---- round trip ----

  /** What a successful parse read. */
  ghost predicate TsRead(nfc: Normalizer, decode: Text -> Option<int>, m: map<Field, Json>, acceptV1: bool, p: TsPin) {
    var h := p.pin.header;
    && (h.v == 2 || (acceptV1 && h.v == 1)) && TsScalarsOk(nfc, decode, m, h.v == 2)
    && TsCarries(decode, m, p.pin) && TsExtraOf(nfc, m, h.v == 2) == Some(h.extra)
    && (p.extraGiven <==> Extra in m)
  }

  ghost predicate TsCarries(decode: Text -> Option<int>, m: map<Field, Json>, p: Pin) {
    var h := p.header;
    && NumField(decode, m, Version) == Some(h.v) && NumField(decode, m, VecDim) == Some(h.vecDim)
    && StrField(m, Kid) == Some(h.kid) && StrField(m, Model) == Some(h.model)
    && StrField(m, SourceHash) == Some(h.sourceHash) && StrField(m, VecHash) == Some(h.vecHash)
    && StrField(m, VecDtype) == Some(h.vecDtype) && StrField(m, Ts) == Some(h.ts)
    && StrField(m, ModelHash) == h.modelHash && TsSigOf(m) == Some(p.sig)
  }

  lemma TsParsedIffRead(nfc: Normalizer, decode: Text -> Option<int>, m: map<Field, Json>, acceptV1: bool, p: TsPin)
    ensures TsFromFields(nfc, decode, m, acceptV1) == Some(p) <==> TsRead(nfc, decode, m, acceptV1, p)
  {
    if TsFromFields(nfc, decode, m, acceptV1) == Some(p) {
      TsParsedIsRead(nfc, decode, m, acceptV1, p);
    }
  }

  lemma TsParsedIsRead(nfc: Normalizer, decode: Text -> Option<int>, m: map<Field, Json>, acceptV1: bool, p: TsPin)
    requires TsFromFields(nfc, decode, m, acceptV1) == Some(p)
    ensures TsRead(nfc, decode, m, acceptV1, p)
  {
  }

  lemma PrintedNumbers(decode: Text -> Option<int>, p: Pin)
    requires p.header.v <= MAX_EXACT && p.header.vecDim <= MAX_EXACT
    ensures NumField(decode, PinFields(p), Version) == Some(p.header.v)
    ensures NumField(decode, PinFields(p), VecDim) == Some(p.header.vecDim)
  {
    DecimalRoundTrip(p.header.v);
    DecimalRoundTrip(p.header.vecDim);
  }

  lemma TsSigKept(m: map<Field, Json>)
    requires TsSigOf(m).Some?
    ensures StrField(m, Sig) == Some(Base64Url.Encode(TsSigOf(m).value))
  {
    Base64Url.EncodeDecode(StrField(m, Sig).value);
  }

  lemma TsStringsKept(decode: Text -> Option<int>, m: map<Field, Json>, p: Pin, f: Field)
    requires TsCarries(decode, m, p) && (Extra in m ==> m[Extra].Obj?)
    ensures StrField(PinFields(p), f) == StrField(m, f)
  {
    PrintedFields(p);
    TsSigKept(m);
  }

  lemma TsScalarsAgain(
    nfc: Normalizer, decode: Text -> Option<int>, m: map<Field, Json>, n: map<Field, Json>, strict: bool)
    requires forall f: Field :: StrField(n, f) == StrField(m, f)
    requires NumField(decode, n, VecDim) == NumField(decode, m, VecDim) && (ModelHash in n ==> n[ModelHash].Str?)
    ensures TsScalarsOk(nfc, decode, m, strict) ==> TsScalarsOk(nfc, decode, n, strict)
  {
    assert TsNamedOk(nfc, n, Model, MAX_MODEL_BYTES, strict) <==> TsNamedOk(nfc, m, Model, MAX_MODEL_BYTES, strict);
    assert TsNamedOk(nfc, n, Kid, MAX_KID_BYTES, strict) <==> TsNamedOk(nfc, m, Kid, MAX_KID_BYTES, strict);
    assert TsNamedOk(nfc, n, Ts, MAX_MODEL_BYTES, strict) <==> TsNamedOk(nfc, m, Ts, MAX_MODEL_BYTES, strict);
    assert StrField(n, Ts) == StrField(m, Ts) && StrField(n, VecDtype) == StrField(m, VecDtype);
    assert StrField(n, ModelHash) == StrField(m, ModelHash);
    assert TsHashesOk(m) ==> TsHashesOk(n);
  }

  lemma TsExtraAgain(nfc: Normalizer, m: map<Field, Json>, n: map<Field, Json>, strict: bool, extra: map<Text, Text>)
    requires TsExtraOf(nfc, m, strict) == Some(extra)
    requires Extra in n <==> extra != map[]
    requires Extra in n ==> n[Extra] == StrMap(extra)
    ensures TsExtraOf(nfc, n, strict) == Some(extra)
  {
    if Extra in n {
      assert Extra in m && m[Extra] == n[Extra];
      StrMapInjective(extra, TsExtraOf(nfc, n, strict).value);
    }
  }

  /** The printed fields read as the same pin, with `extra` absent when it is empty. */
  lemma ReadAgain(nfc: Normalizer, decode: Text -> Option<int>, m: map<Field, Json>, acceptV1: bool, p: TsPin)
    requires TsRead(nfc, decode, m, acceptV1, p)
    ensures TsRead(nfc, decode, PinFields(p.pin), acceptV1, TsPin(p.pin, p.pin.header.extra != map[]))
  {
    var n, h := PinFields(p.pin), p.pin.header;
    PrintedFields(p.pin);
    PrintedNumbers(decode, p.pin);
    forall f: Field
      ensures StrField(n, f) == StrField(m, f)
    {
      TsStringsKept(decode, m, p.pin, f);
    }
    TsScalarsAgain(nfc, decode, m, n, h.v == 2);
    TsExtraAgain(nfc, m, n, h.v == 2, h.extra);
    assert TsSigOf(n) == TsSigOf(m);
  }

  lemma PrintedDictIsPlain(p: Pin)
    ensures IsPlain(ToDict(p)) && WellFormed(JavaScript, ToDict(p))
  {
    var ms := ToDict(p).members;
    forall k | k in ms
      ensures IsPlain(ms[k]) && WellFormed(JavaScript, ms[k])
    {
      var f :| f in PinFields(p) && Name(f) == k;
      PlainFieldValue(p, f);
      FieldValueIsJson(p, f);
    }
  }

  lemma FieldValueIsJson(p: Pin, f: Field)
    requires f in PinFields(p)
    ensures WellFormed(JavaScript, PinFields(p)[f])
  {
    if f == Version {
      DecimalIsLexeme(JavaScript, p.header.v);
    } else if f == VecDim {
      DecimalIsLexeme(JavaScript, p.header.vecDim);
    }
  }

  lemma PlainFieldValue(p: Pin, f: Field)
    requires f in PinFields(p)
    ensures IsPlain(PinFields(p)[f])
  {
  }

  lemma JsonReadsDict(nfc: Normalizer, decode: Text -> Option<int>, acceptV1: bool, p: TsPin)
    requires UnitsWithinCap(ToJson(p), MAX_PIN_JSON_BYTES)
    ensures FromJson(nfc, decode, ToJson(p), acceptV1) == TsFromDict(nfc, decode, ToDict(p.pin), acceptV1)
  {
    PrintedDictIsPlain(p.pin);
    NeverFiresOnPrinted(ToDict(p.pin));
    ParsePrint(JavaScript, ToDict(p.pin));
  }

  lemma DictReadsFields(nfc: Normalizer, decode: Text -> Option<int>, m: map<Field, Json>, acceptV1: bool)
    ensures TsFromDict(nfc, decode, Obj(ObjectOf(m)), acceptV1) == TsFromFields(nfc, decode, m, acceptV1)
  {
    FieldsOfObject(m);
  }

  /** pinFromDict(pinToDict(p)) is the same pin with `extra` absent when it is empty. */
  lemma DictRoundTrip(nfc: Normalizer, decode: Text -> Option<int>, d: Json, acceptV1: bool, p: TsPin)
    requires TsFromDict(nfc, decode, d, acceptV1) == Some(p)
    ensures TsFromDict(nfc, decode, ToDict(p.pin), acceptV1) == Some(TsPin(p.pin, p.pin.header.extra != map[]))
    ensures !p.extraGiven ==> p.pin.header.extra == map[]
  {
    var m, q := FieldsOf(d.members), TsPin(p.pin, p.pin.header.extra != map[]);
    TsParsedIffRead(nfc, decode, m, acceptV1, p);
    ReadAgain(nfc, decode, m, acceptV1, p);
    TsParsedIffRead(nfc, decode, PinFields(p.pin), acceptV1, q);
    DictReadsFields(nfc, decode, PinFields(p.pin), acceptV1);
  }

  /** Main result. pinFromJSON(pinToJSON(p)) = p for an accepted pin exactly when the text fits the size
      cap and `extra` was not given as an empty object, which is printed as if it were absent. */
  lemma RoundTrip(nfc: Normalizer, decode: Text -> Option<int>, d: Json, acceptV1: bool, p: TsPin)
    requires TsFromDict(nfc, decode, d, acceptV1) == Some(p)
    ensures FromJson(nfc, decode, ToJson(p), acceptV1) == Some(p)
            <==> UnitsWithinCap(ToJson(p), MAX_PIN_JSON_BYTES) && !(p.extraGiven && p.pin.header.extra == map[])
  {
    DictRoundTrip(nfc, decode, d, acceptV1, p);
    if UnitsWithinCap(ToJson(p), MAX_PIN_JSON_BYTES) {
      JsonReadsDict(nfc, decode, acceptV1, p);
    }
  }

  // ---- the round trip does fail ----

  lemma AsciiUnits(t: Text)
    requires Timestamps.IsAscii(t)
    ensures IsUnits(t) && WellFormed16(t) && Utf8Length16(t) == |t|
  {
    Timestamps.AsciiText(t);
    EncodeIsWellFormed16(t);
    Utf8Length16Is(t);
  }

  lemma SafeAscii(nfc: Normalizer, t: Text, limit: nat)
    requires forall i :: 0 <= i < |t| ==> 0x20 <= t[i] < 0x80
    requires |t| <= limit && nfc(t) == t
    ensures UnitsWithinCap(t, limit) && UnitsOk(nfc, t, true)
  {
    AsciiUnits(t);
  }

  /** A pin of the empty source by key `k` and model `m`. */
  function SamplePin(sha: Hash): Pin {
    var ts := Timestamps.FormatTs(Timestamps.Civil.Fields(2025, 1, 1, 0, 0, 0));
    Pin(PinHeader(2, Ascii("k"), Ascii("m"), HashBytes(sha, []), HashBytes(sha, []), Ascii("f32"), 1, ts, None, map[]),
        seq(SIG_LEN, _ => 0))
  }

  /** The fields of a pin whose strings are fine pass the scalar checks. */
  lemma FineScalars(nfc: Normalizer, decode: Text -> Option<int>, p: Pin)
    requires var h := p.header;
      && h.kid != [] && UnitsWithinCap(h.kid, MAX_KID_BYTES) && UnitsOk(nfc, h.kid, true)
      && h.model != [] && UnitsWithinCap(h.model, MAX_MODEL_BYTES) && UnitsOk(nfc, h.model, true)
      && h.ts != [] && UnitsWithinCap(h.ts, MAX_MODEL_BYTES) && UnitsOk(nfc, h.ts, true)
      && Timestamps.IsValidCalendarTs(h.ts) && h.vecDtype == Ascii("f32") && 0 < h.vecDim <= MAX_VEC_DIM && h.v == 2
      && IsHashString(h.sourceHash) && IsHashString(h.vecHash) && h.modelHash.None?
    ensures TsScalarsOk(nfc, decode, PinFields(p), true)
  {
    PrintedFields(p);
    PrintedNumbers(decode, p);
  }

  lemma SampleTs(nfc: Normalizer, ts: Text)
    requires ts == Timestamps.FormatTs(Timestamps.Civil.Fields(2025, 1, 1, 0, 0, 0)) && nfc(ts) == ts
    ensures ts != [] && UnitsWithinCap(ts, MAX_MODEL_BYTES) && UnitsOk(nfc, ts, true)
    ensures Timestamps.IsValidCalendarTs(ts)
  {
    Timestamps.FormatThenParse(Timestamps.Civil.Fields(2025, 1, 1, 0, 0, 0));
    Timestamps.TsCheckIsCivil(ts);
    assert Timestamps.HasTsShape(ts);
    SafeAscii(nfc, ts, MAX_MODEL_BYTES);
  }

  lemma SampleRead(nfc: Normalizer, decode: Text -> Option<int>, sha: Hash)
    requires var h := SamplePin(sha).header; nfc(h.kid) == h.kid && nfc(h.model) == h.model && nfc(h.ts) == h.ts
    ensures TsRead(nfc, decode, PinFields(SamplePin(sha)), false, TsPin(SamplePin(sha), false))
  {
    var p := SamplePin(sha);
    HashBytesIsHashString(sha, []);
    SafeAscii(nfc, p.header.kid, MAX_KID_BYTES);
    SafeAscii(nfc, p.header.model, MAX_MODEL_BYTES);
    SampleTs(nfc, p.header.ts);
    FineScalars(nfc, decode, p);
    PrintedFields(p);
    PrintedNumbers(decode, p);
    Base64Url.SextetsLength(p.sig);
    Base64Url.DecodeEncode(p.sig);
  }

  lemma AddedExtra(decode: Text -> Option<int>, m: map<Field, Json>, p: Pin)
    requires Extra !in m
    ensures var n := m[Extra := Obj(map[])];
            && (forall f: Field :: StrField(n, f) == StrField(m, f))
            && (forall f: Field :: NumField(decode, n, f) == NumField(decode, m, f))
            && TsSigOf(n) == TsSigOf(m) && (TsCarries(decode, m, p) ==> TsCarries(decode, n, p))
  {
    var n := m[Extra := Obj(map[])];
    forall f: Field
      ensures StrField(n, f) == StrField(m, f) && NumField(decode, n, f) == NumField(decode, m, f)
    {
    }
    assert StrField(n, Sig) == StrField(m, Sig);
  }

  lemma EmptyExtraOf(nfc: Normalizer, n: map<Field, Json>, strict: bool)
    requires Extra in n && n[Extra] == Obj(map[])
    ensures TsExtraOf(nfc, n, strict) == Some(map[])
  {
    assert StrMap(map[]) == Obj(map[]);
    StrMapInjective(map[], TsExtraOf(nfc, n, strict).value);
  }

  /** Giving an empty `extra` to a pin without one reads as that pin with `extra` given. */
  lemma GivenEmpty(nfc: Normalizer, decode: Text -> Option<int>, acceptV1: bool, p: Pin)
    requires p.header.extra == map[] && TsRead(nfc, decode, PinFields(p), acceptV1, TsPin(p, false))
    ensures TsRead(nfc, decode, PinFields(p)[Extra := Obj(map[])], acceptV1, TsPin(p, true))
  {
    var m, n := PinFields(p), PinFields(p)[Extra := Obj(map[])];
    AddedExtra(decode, m, p);
    EmptyExtraOf(nfc, n, p.header.v == 2);
    ModelHashIsString(p);
    TsScalarsAgain(nfc, decode, m, n, p.header.v == 2);
  }

  lemma ModelHashIsString(p: Pin)
    ensures ModelHash in PinFields(p) ==> PinFields(p)[ModelHash].Str?
  {
  }

  /** A concrete pin the round trip changes: `extra` given as `{}` comes back absent. */
  lemma EmptyExtraIsLost(nfc: Normalizer, decode: Text -> Option<int>, sha: Hash)
    requires var h := SamplePin(sha).header; nfc(h.kid) == h.kid && nfc(h.model) == h.model && nfc(h.ts) == h.ts
    ensures var p := TsPin(SamplePin(sha), true);
            && TsFromDict(nfc, decode, Obj(ObjectOf(PinFields(p.pin)[Extra := Obj(map[])])), false) == Some(p)
            && TsFromDict(nfc, decode, ToDict(p.pin), false) == Some(TsPin(p.pin, false))
  {
    var p := TsPin(SamplePin(sha), true);
    var m := PinFields(p.pin)[Extra := Obj(map[])];
    SampleRead(nfc, decode, sha);
    GivenEmpty(nfc, decode, false, p.pin);
    TsParsedIffRead(nfc, decode, m, false, p);
    DictReadsFields(nfc, decode, m, false);
    DictRoundTrip(nfc, decode, Obj(ObjectOf(m)), false, p);
  }
}
