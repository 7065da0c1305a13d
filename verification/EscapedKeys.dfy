/** What the raw-text check of the TypeScript parser misses: exactly the literals of keys written with an escape. */
module EscapedKeys {
  import opened Common
  import opened Utf
  import opened JsonText
  import opened Attestation
  import opened RawText
  import opened TsPins
  import opened TsLiterals

  // ---- spelled keys ----

  /** The spelled key denotes the key. */
  predicate Spells(m: Member) {
    ReadString(JavaScript, m.spelled + [0x22]) == Some((m.key, []))
  }

  predicate NoBackslash(t: Text) {
    forall i :: 0 <= i < |t| ==> t[i] != 0x5C
  }

  /** The key is written with an escape. */
  predicate IsEscaped(m: Member) {
    !NoBackslash(m.spelled)
  }

  /** One of the two keys that hold a number. */
  predicate IsNumberKey(k: Text) {
    k == Name(Version) || k == Name(VecDim)
  }

  lemma CharLocal(t: Text, u: Text)
    requires ReadChar(t).Some?
    ensures ReadChar(t[..ReadChar(t).value.1] + u) == ReadChar(t)
  {
    var n := ReadChar(t).value.1;
    assert forall i :: 0 <= i < n ==> (t[..n] + u)[i] == t[i];
  }

  lemma {:induction false} StringLocal(t: Text)
    requires ReadString(JavaScript, t).Some?
    ensures var (s, rest) := ReadString(JavaScript, t).value;
            ReadString(JavaScript, BodyOf(t, rest) + [0x22]) == Some((s, []))
    decreases |t|
  {
    if t[0] == 0x22 {
      assert BodyOf(t, t[1..]) == [];
    } else {
      var (c, n) := ReadChar(t).value;
      StringLocal(t[n..]);
      LocalStep(t, c, n, ReadString(JavaScript, t[n..]).value.0, ReadString(JavaScript, t[n..]).value.1);
    }
  }

  lemma LocalStep(t: Text, c: CodePoint, n: nat, s: Text, rest: Text)
    requires t != [] && t[0] != 0x22 && ReadChar(t) == Some((c, n)) && ReadString(JavaScript, t[n..]) == Some((s, rest))
    requires ReadString(JavaScript, BodyOf(t[n..], rest) + [0x22]) == Some((s, []))
    ensures ReadString(JavaScript, BodyOf(t, rest) + [0x22]) == Some(([c] + s, []))
  {
    var more := BodyOf(t[n..], rest) + [0x22];
    LocalBody(t, n, rest);
    CharLocal(t, more);
    assert n > 0 && (t[..n] + more)[0] == t[0] && (t[..n] + more)[n..] == more;
    ReadStringStep(JavaScript, t[..n] + more, c, n, s, []);
  }

  lemma LocalBody(t: Text, n: nat, rest: Text)
    requires n <= |t| && |rest| < |t[n..]|
    ensures BodyOf(t, rest) + [0x22] == t[..n] + (BodyOf(t[n..], rest) + [0x22])
  {
    assert BodyOf(t, rest) == t[..n] + BodyOf(t[n..], rest);
    Assoc(t[..n], BodyOf(t[n..], rest), [0x22]);
  }

  /** What a string without an escape denotes is what is written. */
  lemma {:induction false} Verbatim(body: Text, s: Text)
    requires ReadString(JavaScript, body + [0x22]) == Some((s, [])) && NoBackslash(body)
    ensures s == body
  {
    if body != [] {
      var t := body + [0x22];
      assert t[0] == body[0] && t[1..] == body[1..] + [0x22];
      Verbatim(body[1..], ReadString(JavaScript, t[1..]).value.0);
    }
  }

  /** A quote in the spelling is a quote in the key. */
  lemma {:induction false} QuoteKept(body: Text, s: Text)
    requires ReadString(JavaScript, body + [0x22]) == Some((s, [])) && 0x22 in body
    ensures 0x22 in s
    decreases |body|
  {
    var t := body + [0x22];
    assert t[0] == body[0];
    var (c, n) := ReadChar(t).value;
    var u := ReadString(JavaScript, t[n..]).value.0;
    assert s == [c] + u;
    DropKeepsRest(body, [0x22], n);
    if 0x22 in body[n..] {
      QuoteKept(body[n..], u);
      assert 0x22 in u;
    } else {
      QuoteIsFirst(body, n);
      CharQuote(t, c, n);
    }
  }

  lemma QuoteIsFirst(body: Text, n: nat)
    requires n <= |body| && 0x22 in body && 0x22 !in body[n..]
    ensures exists i :: 0 <= i < n && body[i] == 0x22
  {
    assert body == body[..n] + body[n..];
    assert 0x22 in body[..n];
  }

  lemma CharQuote(t: Text, c: CodePoint, n: nat)
    requires ReadChar(t) == Some((c, n)) && exists i :: 0 <= i < n && t[i] == 0x22
    ensures c == 0x22
  {
  }

  /** Every member read from a text spells its key. */
  lemma {:induction false} AllSpell(t: Text)
    requires RawMembers(t).Some?
    ensures forall i :: 0 <= i < |RawMembers(t).value.0| ==> Spells(RawMembers(t).value.0[i])
    decreases |t|
  {
    var k, after, v, rest := MembersHead(t);
    StringLocal(SkipSpace(t)[1..]);
    var u := SkipSpace(rest);
    if u[0] == ',' as int {
      AllSpell(u[1..]);
    }
  }

  lemma ObjectMembers(s: Text, ms: seq<Member>)
    requires RawOf(s) == Some(RawObj(ms))
    ensures ms != [] ==>
              && SkipSpace(s) != [] && RawMembers(SkipSpace(s)[1..]).Some?
              && RawMembers(SkipSpace(s)[1..]).value.0 == ms
  {
    var t := SkipSpace(s);
    ObjectStarts(s);
    var u := SkipSpace(t[1..]);
    if u != [] && u[0] == '}' as int {
      EmptyObject(s);
    } else {
      OpenMembers(s);
    }
  }

  lemma ObjectStarts(text: Text)
    requires RawValue(text).Some? && RawValue(text).value.0.RawObj?
    ensures SkipSpace(text) != [] && SkipSpace(text)[0] == '{' as int
  {
  }

  lemma EmptyObject(text: Text)
    requires SkipSpace(text) != [] && SkipSpace(text)[0] == '{' as int
    requires var u := SkipSpace(SkipSpace(text)[1..]); u != [] && u[0] == '}' as int
    ensures RawValue(text).Some? && RawValue(text).value.0 == RawObj([])
  {
  }

  lemma TextSpells(s: Text, ms: seq<Member>)
    requires RawOf(s) == Some(RawObj(ms))
    ensures forall i :: 0 <= i < |ms| ==> Spells(ms[i])
  {
    ObjectMembers(s, ms);
    if ms != [] {
      AllSpell(SkipSpace(s)[1..]);
    }
  }

  // ---- the spelling of a watched key ----

  lemma PlainField(f: Field)
    ensures IsPlainName(Name(f))
  {
  }

  lemma LongerHasQuote(spelled: Text, name: Text)
    requires LooksLike(spelled, name)
    ensures spelled == name || 0x22 in spelled
  {
    var w, i := [0x22] + spelled, |spelled| - |name|;
    assert w[i..] == [0x22] + name;
    assert w[i..][0] == w[i];
    if i > 0 {
      assert w[i] == spelled[i - 1];
    } else {
      assert w[0..] == w;
      assert w[1..] == spelled && ([0x22] + name)[1..] == name;
    }
  }

  /** Of the names a pin may use, a watched spelling is one of the two names themselves. */
  lemma WatchedIsName(m: Member, f: Field)
    requires Spells(m) && m.key == Name(f) && IsWatched(m.spelled)
    ensures m.spelled == m.key && IsNumberKey(m.key) && !IsEscaped(m)
  {
    PlainField(f);
    PlainField(Version);
    PlainField(VecDim);
    if 0x22 in m.spelled {
      QuoteKept(m.spelled, m.key);
    }
    if LooksLike(m.spelled, Name(Version)) {
      LongerHasQuote(m.spelled, Name(Version));
    } else {
      LongerHasQuote(m.spelled, Name(VecDim));
    }
    Verbatim(m.spelled, m.key);
  }

  lemma NameIsWatched(m: Member)
    requires Spells(m) && IsNumberKey(m.key) && !IsEscaped(m)
    ensures IsWatched(m.spelled)
  {
    Verbatim(m.spelled, m.key);
    assert ([0x22] + m.spelled)[0..] == [0x22] + m.spelled;
  }

  // ---- which member decides ----

  /** The last member with a key decides its value. */
  lemma {:induction false} DecidingMember(ms: seq<Member>, k: Text) returns (i: nat)
    requires k in MapOf(PairsIn(ms))
    ensures i < |ms| && ms[i].key == k && MapOf(PairsIn(ms))[k] == Denotes(ms[i].value)
    ensures forall j :: i < j < |ms| ==> ms[j].key != k
    decreases |ms|
  {
    PairsTail(ms);
    if k in MapOf(PairsIn(ms[1..])) {
      var d := DecidingMember(ms[1..], k);
      i := d + 1;
      assert forall j :: i < j < |ms| ==> ms[j] == ms[1..][j - 1];
    } else {
      i := 0;
      forall j | 0 < j < |ms|
        ensures ms[j].key != k
      {
        KeyIsIn(ms[1..], j - 1);
      }
    }
  }

  lemma PairsTail(ms: seq<Member>)
    ensures ms != [] ==> MapOf(PairsIn(ms)) == map[ms[0].key := Denotes(ms[0].value)] + MapOf(PairsIn(ms[1..]))
    ensures ms == [] ==> MapOf(PairsIn(ms)) == map[]
  {
    if ms != [] {
      assert PairsIn(ms)[1..] == PairsIn(ms[1..]);
    }
  }

  lemma {:induction false} KeyIsIn(ms: seq<Member>, i: nat)
    requires i < |ms|
    ensures ms[i].key in MapOf(PairsIn(ms))
    decreases i
  {
    PairsTail(ms);
    if i > 0 {
      KeyIsIn(ms[1..], i - 1);
    }
  }

  predicate DistinctKeys(ms: seq<Member>) {
    forall i, j :: 0 <= i < j < |ms| ==> ms[i].key != ms[j].key
  }

  lemma DistinctDecides(ms: seq<Member>, i: nat)
    requires DistinctKeys(ms) && i < |ms|
    ensures ms[i].key in MapOf(PairsIn(ms)) && MapOf(PairsIn(ms))[ms[i].key] == Denotes(ms[i].value)
  {
    KeyIsIn(ms, i);
    var j := DecidingMember(ms, ms[i].key);
  }

  // ---- what the check misses ----

  /** A literal the check lets through although it is not written as an integer belongs to a key written with an
      escape. */
  lemma MissedIsEscaped(s: Text, ms: seq<Member>, k: Text) returns (i: nat)
    requires RawOf(s) == Some(RawObj(ms)) && !Fires(s) && IsNumberKey(k)
    requires var d := MapOf(PairsIn(ms)); k in d && d[k].Num? && IntOf(d[k].lexeme).None?
    ensures i < |ms| && ms[i].key == k && IsEscaped(ms[i]) && IsNonIntegerLiteral(ms[i].value)
    ensures forall j :: i < j < |ms| ==> ms[j].key != k
  {
    i := DecidingMember(ms, k);
    TextSpells(s, ms);
    FiresIff(s);
    assert !HasWatchedLiteral(ms[i]);
    if !IsEscaped(ms[i]) {
      NameIsWatched(ms[i]);
    }
  }

  lemma NoBackslashConcat(a: Text, b: Text)
    ensures NoBackslash(a + b) <==> NoBackslash(a) && NoBackslash(b)
  {
    if NoBackslash(a + b) {
      assert forall i :: 0 <= i < |a| ==> a[i] == (a + b)[i];
      assert forall i :: 0 <= i < |b| ==> b[i] == (a + b)[|a| + i];
    }
  }

  lemma PlainSkip(t: Text)
    requires NoBackslash(t)
    ensures NoBackslash(SkipSpace(t)) && (SkipSpace(t) != [] ==> NoBackslash(SkipSpace(t)[1..]))
  {
    var c := SpaceCut(t);
    NoBackslashConcat(c, SkipSpace(t));
  }

  lemma PlainString(t: Text)
    requires NoBackslash(t) && ReadString(JavaScript, t).Some?
    ensures NoBackslash(BodyOf(t, ReadString(JavaScript, t).value.1)) && NoBackslash(ReadString(JavaScript, t).value.1)
  {
    var rest := ReadString(JavaScript, t).value.1;
    StringCut(t);
    NoBackslashConcat(BodyOf(t, rest) + [0x22], rest);
    NoBackslashConcat(BodyOf(t, rest), [0x22]);
  }

  lemma PlainValue(t: Text)
    requires NoBackslash(t) && RawValue(t).Some? && Follows(RawValue(t).value.1)
    ensures NoBackslash(RawValue(t).value.1)
  {
    var c := ValueCut(t);
    NoBackslashConcat(c, RawValue(t).value.1);
  }

  lemma {:induction false} PlainMembers(t: Text)
    requires NoBackslash(t) && RawMembers(t).Some?
    ensures forall i :: 0 <= i < |RawMembers(t).value.0| ==> !IsEscaped(RawMembers(t).value.0[i])
    decreases |t|
  {
    var k, after, v, rest := MembersHead(t);
    PlainSkip(t);
    PlainString(SkipSpace(t)[1..]);
    PlainSkip(after);
    PlainValue(SkipSpace(after)[1..]);
    PlainSkip(rest);
    var u := SkipSpace(rest);
    if u[0] == ',' as int {
      PlainMembers(u[1..]);
    }
  }

  lemma LeafIsNoObject(s: Text)
    requires RawOf(s).Some? && Denotes(RawOf(s).value).Obj?
    ensures RawOf(s).value.RawObj?
  {
    var t := SkipSpace(s);
    ParseIsRaw(s);
    if t != [] && t[0] != '{' as int && t[0] != '[' as int {
      SkipTwice(s);
      NotAnObject(t);
    }
  }

  lemma NotAnObject(t: Text)
    requires t != [] && SkipSpace(t) == t && t[0] != '{' as int && t[0] != '[' as int
    ensures ReadValue(JavaScript, t).Some? ==> !ReadValue(JavaScript, t).value.0.Obj?
  {
  }

  /** In a text without a backslash the check sees every literal of the two number fields: what passes it is
      written as an integer. */
  lemma IntegerUnlessEscaped(s: Text, d: map<Text, Json>, k: Text)
    requires !Fires(s) && Parse(JavaScript, s) == Some(Obj(d)) && NoBackslash(s)
    requires IsNumberKey(k) && k in d && d[k].Num?
    ensures IntOf(d[k].lexeme).Some?
  {
    ParseIsRaw(s);
    LeafIsNoObject(s);
    var ms := RawOf(s).value.members;
    DenotesObj(ms);
    if IntOf(d[k].lexeme).None? {
      var i := MissedIsEscaped(s, ms, k);
      ObjectMembers(s, ms);
      PlainSkip(s);
      PlainMembers(SkipSpace(s)[1..]);
    }
  }

  // ---- exactly when a pin's literals are caught ----

  /** No object of a pin's text repeats a key. */
  predicate NoRepeats(ms: seq<Member>) {
    && DistinctKeys(ms)
    && forall i :: 0 <= i < |ms| ==> ms[i].value.RawObj? ==> DistinctKeys(ms[i].value.members)
  }

  predicate AllStrings(m: map<Text, Json>) {
    forall k :: k in m ==> m[k].Str?
  }

  /** What the parser accepts holds no array, and no object but one of strings. */
  predicate IsFlat(j: Json) {
    j.Num? || j.Str? || j.Null? || (j.Obj? && AllStrings(j.members))
  }

  lemma AcceptedIsFlat(nfc: Normalizer, decode: Text -> Option<int>, m: map<Field, Json>, acceptV1: bool, f: Field)
    requires TsFromFields(nfc, decode, m, acceptV1).Some? && f in m
    ensures IsFlat(m[f])
  {
    var p := TsFromFields(nfc, decode, m, acceptV1).value;
    TsParsedIsRead(nfc, decode, m, acceptV1, p);
    if f == ModelHash {
      assert TsHashesOk(m);
    } else if f == Extra {
      assert m[Extra] == StrMap(p.pin.header.extra);
    } else if f == Version || f == VecDim {
      assert NumField(decode, m, f).Some?;
    } else {
      NamedIsString(decode, m, p.pin, f);
    }
  }

  lemma NamedIsString(decode: Text -> Option<int>, m: map<Field, Json>, p: Pin, f: Field)
    requires TsCarries(decode, m, p) && f !in {Version, VecDim, ModelHash, Extra}
    ensures StrField(m, f).Some?
  {
  }

  lemma FlatIsUnseen(r: Raw)
    requires IsFlat(Denotes(r)) && (r.RawObj? ==> DistinctKeys(r.members))
    ensures !Sees(r)
  {
    if r.RawObj? {
      DenotesObj(r.members);
      forall i | 0 <= i < |r.members|
        ensures !SeesMember(r.members[i])
      {
        DistinctDecides(r.members, i);
        StringIsUnseen(r.members[i]);
      }
    } else if r.RawArr? {
      DenotesArr(r.elems);
    }
  }

  lemma StringIsUnseen(m: Member)
    requires Denotes(m.value).Str?
    ensures !SeesMember(m)
  {
  }

  lemma MembersAreFlat(nfc: Normalizer, decode: Text -> Option<int>, ms: seq<Member>, acceptV1: bool, i: nat)
    requires NoRepeats(ms) && TsFromDict(nfc, decode, Denotes(RawObj(ms)), acceptV1).Some? && i < |ms|
    ensures !Sees(ms[i].value) && exists f: Field :: Name(f) == ms[i].key
  {
    DenotesObj(ms);
    var d := MapOf(PairsIn(ms));
    DistinctDecides(ms, i);
    var f: Field :| Name(f) == ms[i].key;
    AcceptedIsFlat(nfc, decode, FieldsOf(d), acceptV1, f);
    FlatIsUnseen(ms[i].value);
  }

  /** The literal of a number field, not written as an integer, under a key that is. */
  predicate IsCaught(m: Member) {
    IsNumberKey(m.key) && IsNonIntegerLiteral(m.value) && !IsEscaped(m)
  }

  /** On the text of a pin the check fires exactly when it holds such a literal. */
  lemma CaughtIff(nfc: Normalizer, decode: Text -> Option<int>, s: Text, ms: seq<Member>, acceptV1: bool)
    requires RawOf(s) == Some(RawObj(ms)) && NoRepeats(ms)
    requires TsFromDict(nfc, decode, Denotes(RawObj(ms)), acceptV1).Some?
    ensures Fires(s) <==> exists i :: 0 <= i < |ms| && IsCaught(ms[i])
  {
    FiresIff(s);
    SeesObject(ms);
    forall i | 0 <= i < |ms|
      ensures SeesMember(ms[i]) <==> IsCaught(ms[i])
    {
      SeenIffCaught(nfc, decode, s, ms, acceptV1, i);
    }
    SomeMember(ms);
  }

  lemma SeesObject(ms: seq<Member>)
    ensures Sees(RawObj(ms)) <==> SeesInMembers(ms)
  {
  }

  lemma SomeMember(ms: seq<Member>)
    requires forall i :: 0 <= i < |ms| ==> (SeesMember(ms[i]) <==> IsCaught(ms[i]))
    ensures SeesInMembers(ms) <==> exists i :: 0 <= i < |ms| && IsCaught(ms[i])
  {
  }

  lemma SeenIffCaught(
    nfc: Normalizer, decode: Text -> Option<int>, s: Text, ms: seq<Member>, acceptV1: bool, i: nat)
    requires RawOf(s) == Some(RawObj(ms)) && NoRepeats(ms)
    requires TsFromDict(nfc, decode, Denotes(RawObj(ms)), acceptV1).Some? && i < |ms|
    ensures SeesMember(ms[i]) <==> IsCaught(ms[i])
  {
    TextSpells(s, ms);
    MembersAreFlat(nfc, decode, ms, acceptV1, i);
    SeenIsCaught(ms[i]);
  }

  lemma SeenIsCaught(m: Member)
    requires Spells(m) && !Sees(m.value) && exists f: Field :: Name(f) == m.key
    ensures SeesMember(m) <==> IsCaught(m)
  {
    var f: Field :| Name(f) == m.key;
    if IsWatched(m.spelled) {
      WatchedIsName(m, f);
    }
    if IsNumberKey(m.key) && !IsEscaped(m) {
      NameIsWatched(m);
    }
  }

  /** Main result. `pinFromJSON` accepts the text of a pin, no key repeated, exactly when it fits the cap and every
      literal of `v` and `vec_dim` is written as an integer or stands under a key written with an escape. */
  lemma AcceptedIff(nfc: Normalizer, decode: Text -> Option<int>, s: Text, ms: seq<Member>, acceptV1: bool)
    requires RawOf(s) == Some(RawObj(ms)) && NoRepeats(ms)
    requires TsFromDict(nfc, decode, Denotes(RawObj(ms)), acceptV1).Some?
    ensures FromJson(nfc, decode, s, acceptV1).Some? <==>
              && UnitsWithinCap(s, MAX_PIN_JSON_BYTES)
              && forall i :: 0 <= i < |ms| && IsNumberKey(ms[i].key) && IsNonIntegerLiteral(ms[i].value) ==>
                               IsEscaped(ms[i])
  {
    CaughtIff(nfc, decode, s, ms, acceptV1);
    ParseIsRaw(s);
    if exists i :: 0 <= i < |ms| && IsCaught(ms[i]) {
      var i :| 0 <= i < |ms| && IsCaught(ms[i]);
      assert IsNumberKey(ms[i].key) && IsNonIntegerLiteral(ms[i].value) && !IsEscaped(ms[i]);
    }
  }

  // ---- and it does miss them ----

  /** `"\u0076"`, which denotes `v`. */
  function EscapedV(): Text {
    Quoted(UnicodeEscape('v' as int))
  }

  /** `"\u0076":2.0`. */
  function EscapedMember(): Text {
    EscapedV() + [':' as int] + Ascii("2.0")
  }

  lemma TwoIsLexeme()
    ensures IsLexeme(JavaScript, Ascii("2.0")) && IntOf(Ascii("2.0")) == None
  {
    var x := Ascii("2.0");
    assert Digits(x) == 1;
    assert x[1..][1..] == ['0' as int] && Digits(['0' as int]) == 1;
    assert x[1..][2..] == [];
    assert x[0..] == x;
    assert !IsDigit(x[1]);
  }

  lemma EscapedKeyReads(after: Text)
    ensures ReadString(JavaScript, (EscapedV() + after)[1..]) == Some((Name(Version), after))
  {
    var e := UnicodeEscape('v' as int);
    var t := [0x22] + after;
    QuotedAssoc(e, after);
    assert (EscapedV() + after)[1..] == e + t;
    ReadUnicode('v' as int, t);
    assert (e + t)[6..] == t && t[1..] == after;
    assert ReadString(JavaScript, t) == Some(([], after));
    ReadStringStep(JavaScript, e + t, 'v' as int, 6, [], after);
    assert Name(Version) == ['v' as int] + [];
  }

  lemma MemberAssoc(after: Text)
    ensures EscapedMember() + after == EscapedV() + ([':' as int] + (Ascii("2.0") + after))
  {
    Assoc(EscapedV(), [':' as int], Ascii("2.0"));
    Assoc(EscapedV(), [':' as int] + Ascii("2.0"), after);
    Assoc([':' as int], Ascii("2.0"), after);
  }

  /** What the reader finds at the member. */
  lemma EscapedMemberReads(after: Text) returns (c: Text)
    requires Delimited(after)
    ensures var t := EscapedMember() + after;
            && SkipSpace(t) == t && t != [] && t[0] == 0x22
            && ReadString(JavaScript, t[1..]) == Some((Name(Version), c))
    ensures SkipSpace(c) == c && c != [] && c[0] == ':' as int
    ensures ReadValue(JavaScript, c[1..]) == Some((Num(Ascii("2.0")), after))
  {
    c := [':' as int] + (Ascii("2.0") + after);
    MemberAssoc(after);
    EscapedKeyReads(c);
    EscapedStart(c);
    ValueReads(after);
  }

  lemma EscapedStart(c: Text)
    ensures var t := EscapedV() + c; SkipSpace(t) == t && t != [] && t[0] == 0x22
  {
  }

  lemma ValueReads(after: Text)
    requires Delimited(after)
    ensures var c := [':' as int] + (Ascii("2.0") + after);
            SkipSpace(c) == c && ReadValue(JavaScript, c[1..]) == Some((Num(Ascii("2.0")), after))
  {
    TwoIsLexeme();
    ColonReads(Ascii("2.0"), after);
  }

  lemma ColonReads(x: Text, after: Text)
    requires IsLexeme(JavaScript, x) && Delimited(after)
    ensures var c := [':' as int] + (x + after);
            SkipSpace(c) == c && ReadValue(JavaScript, c[1..]) == Some((Num(x), after))
  {
    ReadValueNumber(JavaScript, x, after);
    assert ([':' as int] + (x + after))[1..] == x + after;
  }

  lemma ReadEscapedLast(rest: Text)
    ensures ReadMembers(JavaScript, EscapedMember() + (['}' as int] + rest))
         == Some(([(Name(Version), Num(Ascii("2.0")))], rest))
  {
    var after := ['}' as int] + rest;
    var c := EscapedMemberReads(after);
    assert after[1..] == rest;
  }

  lemma ReadEscapedFirst(more: Text, ps: seq<(Text, Json)>, rest: Text)
    requires ReadMembers(JavaScript, more) == Some((ps, rest))
    ensures ReadMembers(JavaScript, EscapedMember() + ([',' as int] + more))
         == Some(([(Name(Version), Num(Ascii("2.0")))] + ps, rest))
  {
    var after := [',' as int] + more;
    var c := EscapedMemberReads(after);
    assert after[1..] == more;
    assert SkipSpace(after) == after;
  }

  /** The check is quiet on the member: the escape hides the name. */
  lemma EscapedIsQuiet(after: Text)
    ensures Quiet(EscapedMember(), after)
  {
    var e, tail := UnicodeEscape('v' as int), [':' as int] + Ascii("2.0");
    EscapeHidesName();
    QuotedQuietIff(e, tail + after);
    QuietWithoutQuotes(tail, after);
    QuietConcat(EscapedV(), tail, after);
    Assoc(EscapedV(), [':' as int], Ascii("2.0"));
  }

  lemma EscapeHidesName()
    ensures var e := UnicodeEscape('v' as int); !IsWatched(e) && InnerQuotes(e)
  {
    var e := UnicodeEscape('v' as int);
    OtherEnd(e, Name(Version));
    OtherEnd(e, Name(VecDim));
  }

  lemma OtherEnd(spelled: Text, name: Text)
    requires spelled != [] && name != [] && spelled[|spelled| - 1] != name[|name| - 1]
    ensures !LooksLike(spelled, name)
  {
    var w, q := [0x22] + spelled, [0x22] + name;
    if |w| >= |q| {
      assert w[|w| - |q|..][|q| - 1] == w[|w| - 1];
    }
  }

  /** The smallest such text: `{"\u0076":2.0}`. */
  lemma EscapedKeyIsMissed()
    ensures var t: Text := ['{' as int] + EscapedMember() + ['}' as int];
            !Fires(t) && Parse(JavaScript, t) == Some(Obj(map[Name(Version) := Num(Ascii("2.0"))]))
  {
    var t := ['{' as int] + EscapedMember() + ['}' as int];
    EscapedIsQuiet(['}' as int] + []);
    BracedIsQuiet(EscapedMember(), []);
    assert t + [] == t;
    ReadEscapedLast([]);
    var tail := EscapedMember() + ['}' as int];
    assert t == ['{' as int] + tail && ['}' as int] + [] == ['}' as int];
    ReadValueObject(JavaScript, tail);
    assert MapOf([(Name(Version), Num(Ascii("2.0")))]) == map[Name(Version) := Num(Ascii("2.0"))];
  }

  /** A pin's fields but its version. */
  function OtherFields(p: Pin): map<Field, Json> {
    PinFields(p) - {Version}
  }

  /** A pin's fields with `2.0` for the version. */
  function EscapedFields(p: Pin): map<Field, Json> {
    PinFields(p)[Version := Num(Ascii("2.0"))]
  }

  /** The pin's text with the member `"\u0076":2.0` for its version. */
  function EscapedText(p: Pin): Text {
    var other := Print(JavaScript, Obj(ObjectOf(OtherFields(p))));
    ['{' as int] + EscapedMember() + [',' as int] + other[1..]
  }

  /** The members of the printed rest: they read as the other fields, and are quiet. */
  ghost predicate ArePartsOf(p: Pin, parts: seq<Text>, ps: seq<(Text, Json)>) {
    && Print(JavaScript, Obj(ObjectOf(OtherFields(p)))) == ['{' as int] + Join(parts) + ['}' as int]
    && ps != [] && PartsRead(JavaScript, parts, ps) && MapOf(ps) == ObjectOf(OtherFields(p))
    && forall i :: 0 <= i < |parts| ==> forall r: Text :: Delimited(r) ==> Quiet(parts[i], r)
  }

  lemma OtherIsPlain(p: Pin, k: Text)
    requires k in ObjectOf(OtherFields(p))
    ensures var v := ObjectOf(OtherFields(p))[k]; IsPlain(v) && WellFormed(JavaScript, v)
  {
    var f :| f in OtherFields(p) && Name(f) == k;
    PlainFieldValue(p, f);
    FieldValueIsJson(p, f);
  }

  lemma OtherParts(p: Pin) returns (parts: seq<Text>, ps: seq<(Text, Json)>)
    ensures ArePartsOf(p, parts, ps)
  {
    var m := ObjectOf(OtherFields(p));
    forall k | k in m
      ensures IsPlain(m[k]) && WellFormed(JavaScript, m[k])
    {
      OtherIsPlain(p, k);
    }
    HasOthers(p);
    parts, ps := PlainParts(m);
  }

  lemma PlainParts(m: map<Text, Json>) returns (parts: seq<Text>, ps: seq<(Text, Json)>)
    requires m != map[] && forall k :: k in m ==> IsPlain(m[k]) && WellFormed(JavaScript, m[k])
    ensures Print(JavaScript, Obj(m)) == ['{' as int] + Join(parts) + ['}' as int]
    ensures ps != [] && PartsRead(JavaScript, parts, ps) && MapOf(ps) == m
    ensures forall i :: 0 <= i < |parts| ==> forall r: Text :: Delimited(r) ==> Quiet(parts[i], r)
  {
    var ks: seq<Text>;
    ks, parts := PrintedParts(JavaScript, Obj(m));
    ps := PairsOf(m, ks);
    assert ks == [] ==> Elements(ks) == {};
    forall i | 0 <= i < |ks|
      ensures ReadsMember(JavaScript, parts[i], ps[i].0, ps[i].1)
      ensures forall r: Text :: Delimited(r) ==> Quiet(parts[i], r)
    {
      PlainPart(parts[i], ks[i], m[ks[i]]);
    }
  }

  lemma HasOthers(p: Pin)
    ensures Name(Kid) in ObjectOf(OtherFields(p))
  {
    assert Kid in OtherFields(p);
  }

  lemma PlainPart(part: Text, k: Text, v: Json)
    requires part == Quote(JavaScript, k) + [':' as int] + Print(JavaScript, v)
    requires IsPlain(v) && WellFormed(JavaScript, v)
    ensures ReadsMember(JavaScript, part, k, v)
    ensures forall r: Text :: Delimited(r) ==> Quiet(part, r)
  {
    var q := Print(JavaScript, v);
    ReadPrinted(JavaScript, v);
    MemberPart(JavaScript, k, v, q);
    PlainText(v);
    MemberText(k, q);
  }

  lemma EscapedTextIs(p: Pin, body: Text)
    requires Print(JavaScript, Obj(ObjectOf(OtherFields(p)))) == ['{' as int] + body + ['}' as int]
    ensures EscapedText(p) == ['{' as int] + (EscapedMember() + ([',' as int] + body)) + ['}' as int]
    ensures EscapedText(p) == ['{' as int] + (EscapedMember() + ([',' as int] + (body + ['}' as int])))
  {
    var open: Text, close: Text, comma: Text := ['{' as int], ['}' as int], [',' as int];
    assert (open + body + close)[1..] == body + close;
    Regroup(open, EscapedMember(), comma, body, close);
  }

  lemma Regroup(open: Text, e: Text, comma: Text, body: Text, close: Text)
    ensures open + e + comma + (body + close) == open + (e + (comma + (body + close)))
    ensures open + e + comma + (body + close) == open + (e + (comma + body)) + close
  {
    Assoc(open + e, comma, body + close);
    Assoc(open, e, comma + (body + close));
    Assoc(comma, body, close);
    Assoc(e, comma + body, close);
    Assoc(open, e + (comma + body), close);
  }

  lemma EscapedTextIsQuiet(p: Pin, parts: seq<Text>, ps: seq<(Text, Json)>)
    requires ArePartsOf(p, parts, ps)
    ensures !Fires(EscapedText(p))
  {
    var close: Text, comma: Text, e, body := ['}' as int], [',' as int], EscapedMember(), Join(parts);
    EscapedTextIs(p, body);
    JoinedText(parts, close);
    QuietWithoutQuotes(comma, body + close);
    QuietConcat(comma, body, close);
    EscapedIsQuiet(comma + body + close);
    QuietConcat(e, comma + body, close);
    assert close + [] == close && EscapedText(p) + [] == EscapedText(p);
    BracedIsQuiet(e + (comma + body), []);
  }

  lemma EscapedTextReads(p: Pin, parts: seq<Text>, ps: seq<(Text, Json)>)
    requires ArePartsOf(p, parts, ps)
    ensures Parse(JavaScript, EscapedText(p)) == Some(Obj(MapOf([(Name(Version), Num(Ascii("2.0")))] + ps)))
  {
    var close: Text, e, body := ['}' as int], EscapedMember(), Join(parts);
    var more := body + close;
    EscapedTextIs(p, body);
    ReadMembersJoined(JavaScript, parts, ps, []);
    assert more + [] == more;
    ReadEscapedFirst(more, ps, []);
    var tail := e + ([',' as int] + more);
    assert tail[0] == 0x22;
    ReadValueObject(JavaScript, tail);
  }

  lemma EscapedDict(p: Pin, ps: seq<(Text, Json)>)
    requires MapOf(ps) == ObjectOf(OtherFields(p))
    ensures MapOf([(Name(Version), Num(Ascii("2.0")))] + ps) == ObjectOf(EscapedFields(p))
  {
    OtherNames(p);
    UpdatedDict(PinFields(p), Version, Num(Ascii("2.0")), ps);
  }

  lemma UpdatedDict(m: map<Field, Json>, f: Field, v: Json, ps: seq<(Text, Json)>)
    requires MapOf(ps) == ObjectOf(m - {f}) && Name(f) !in ObjectOf(m - {f})
    ensures MapOf([(Name(f), v)] + ps) == ObjectOf(m[f := v])
  {
    FirstMember(Name(f), v, ps);
    ObjectUpdated(m, f, v);
  }

  lemma FirstMember(k: Text, v: Json, ps: seq<(Text, Json)>)
    ensures MapOf([(k, v)] + ps) == map[k := v] + MapOf(ps)
  {
    assert ([(k, v)] + ps)[1..] == ps;
  }

  lemma OtherNames(p: Pin)
    ensures Name(Version) !in ObjectOf(OtherFields(p))
  {
    NamesDistinct();
  }

  lemma EscapedParses(p: Pin)
    ensures !Fires(EscapedText(p)) && Parse(JavaScript, EscapedText(p)) == Some(Obj(ObjectOf(EscapedFields(p))))
  {
    var parts, ps := OtherParts(p);
    EscapedTextIsQuiet(p, parts, ps);
    EscapedTextReads(p, parts, ps);
    EscapedDict(p, ps);
  }

  lemma SameStrings(m: map<Field, Json>, x: Text)
    requires StrField(m, Version).None?
    ensures forall f: Field :: StrField(m[Version := Num(x)], f) == StrField(m, f)
    ensures TsSigOf(m[Version := Num(x)]) == TsSigOf(m)
  {
    var n := m[Version := Num(x)];
    forall f: Field
      ensures StrField(n, f) == StrField(m, f)
    {
    }
    assert StrField(n, Sig) == StrField(m, Sig);
  }

  lemma SameNumbers(decode: Text -> Option<int>, m: map<Field, Json>, x: Text)
    requires IntOf(x).None?
    ensures NumField(decode, m[Version := Num(x)], VecDim) == NumField(decode, m, VecDim)
    ensures NumField(decode, m[Version := Num(x)], Version) == decode(x)
  {
  }

  lemma SameButVersion(decode: Text -> Option<int>, m: map<Field, Json>, x: Text, p: Pin)
    requires IntOf(x).None? && decode(x) == Some(p.header.v)
    requires StrField(m, Version).None? && TsCarries(decode, m, p)
    ensures TsCarries(decode, m[Version := Num(x)], p)
  {
    SameStrings(m, x);
    SameNumbers(decode, m, x);
  }

  /** The fields with `2.0` read as the same pin. */
  lemma EscapedReads(nfc: Normalizer, decode: Text -> Option<int>, acceptV1: bool, p: TsPin)
    requires TsRead(nfc, decode, PinFields(p.pin), acceptV1, p)
    requires p.pin.header.v == 2 && decode(Ascii("2.0")) == Some(2)
    ensures TsRead(nfc, decode, EscapedFields(p.pin), acceptV1, p)
  {
    TwoIsLexeme();
    PrintedFields(p.pin);
    ReadsWithout(nfc, decode, acceptV1, p, Ascii("2.0"));
  }

  lemma ReadsWithout(nfc: Normalizer, decode: Text -> Option<int>, acceptV1: bool, p: TsPin, x: Text)
    requires TsRead(nfc, decode, PinFields(p.pin), acceptV1, p) && StrField(PinFields(p.pin), Version).None?
    requires IntOf(x).None? && decode(x) == Some(p.pin.header.v)
    ensures TsRead(nfc, decode, PinFields(p.pin)[Version := Num(x)], acceptV1, p)
  {
    var m, n := PinFields(p.pin), PinFields(p.pin)[Version := Num(x)];
    SameButVersion(decode, m, x, p.pin);
    SameStrings(m, x);
    SameNumbers(decode, m, x);
    ModelHashIsString(p.pin);
    TsScalarsAgain(nfc, decode, m, n, p.pin.header.v == 2);
    assert TsExtraOf(nfc, n, p.pin.header.v == 2) == TsExtraOf(nfc, m, p.pin.header.v == 2);
  }

  lemma PythonRefuses(nfc: Normalizer, m: map<Field, Json>, acceptV1: bool)
    requires Version in m && m[Version] == Num(Ascii("2.0"))
    ensures FromDict(nfc, Obj(ObjectOf(m)), acceptV1) == None
  {
    TwoIsLexeme();
    Attestation.DictReadsFields(nfc, m, acceptV1);
  }

  /** Every v2 pin has such a text: it is accepted as that pin, whereas the Python parser refuses what it holds. */
  lemma EscapedPinAccepted(nfc: Normalizer, decode: Text -> Option<int>, d: Json, acceptV1: bool, p: TsPin)
    requires TsFromDict(nfc, decode, d, acceptV1) == Some(p) && p.pin.header.v == 2
    requires decode(Ascii("2.0")) == Some(2) && UnitsWithinCap(EscapedText(p.pin), MAX_PIN_JSON_BYTES)
    ensures FromJson(nfc, decode, EscapedText(p.pin), acceptV1) == Some(TsPin(p.pin, p.pin.header.extra != map[]))
    ensures var held := Parse(JavaScript, EscapedText(p.pin)); held.Some? && FromDict(nfc, held.value, acceptV1) == None
  {
    var q, m := TsPin(p.pin, p.pin.header.extra != map[]), EscapedFields(p.pin);
    TsParsedIffRead(nfc, decode, FieldsOf(d.members), acceptV1, p);
    ReadAgain(nfc, decode, FieldsOf(d.members), acceptV1, p);
    EscapedReads(nfc, decode, acceptV1, q);
    TsParsedIffRead(nfc, decode, m, acceptV1, q);
    TsPins.DictReadsFields(nfc, decode, m, acceptV1);
    EscapedParses(p.pin);
    PythonRefuses(nfc, m, acceptV1);
  }
}
