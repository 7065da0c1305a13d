/** The canonical bytes of the TypeScript port. Its objects list keys by UTF-16 code unit, Python's by code
    point, so the two ports sign the same bytes exactly when the two orders of the `extra` keys agree. */
module TsCanonical {
  import opened Common
  import opened Utf
  import opened JsonText
  import opened Attestation

  // ---- code units and code points ----

  lemma {:induction false} Utf16Concat(a: Text, b: Text)
    ensures Utf16(a + b) == Utf16(a) + Utf16(b)
  {
    if a == [] {
      assert a + b == b;
    } else {
      Utf16Concat(a[1..], b);
      assert (a + b)[1..] == a[1..] + b;
      Assoc(Utf16Char(a[0]), Utf16(a[1..]), Utf16(b));
    }
  }

  lemma {:induction false} UnitsAreThemselves(t: Text)
    requires IsUnits(t)
    ensures Utf16(t) == t
  {
    if t != [] {
      UnitsAreThemselves(t[1..]);
    }
  }

  lemma {:induction false} DecodeBack(t: Text)
    requires SurrogateFree(t)
    ensures WellFormed16(Utf16(t)) && Decode16(Utf16(t)) == t
  {
    EncodeIsWellFormed16(t);
    if t != [] {
      DecodeBack(t[1..]);
      DecodeOne(t[0], Utf16(t[1..]));
      assert t == [t[0]] + t[1..];
    }
  }

  lemma DecodeOne(c: CodePoint, rest: Text)
    requires !IsSurrogate(c) && IsUnits(rest) && WellFormed16(rest)
    ensures WellFormed16(Utf16Char(c) + rest) && Decode16(Utf16Char(c) + rest) == [c] + Decode16(rest)
  {
    var u := Utf16Char(c) + rest;
    assert u[|Utf16Char(c)|..] == rest;
  }

  lemma Utf16Injective(a: Text, b: Text)
    requires SurrogateFree(a) && SurrogateFree(b) && Utf16(a) == Utf16(b)
    ensures a == b
  {
    DecodeBack(a);
    DecodeBack(b);
  }

  /** `TextEncoder.encode`: UTF-8, with U+FFFD for a lone surrogate. */
  function TextEncode(u: Text): Bytes
    requires IsUnits(u)
  {
    if u == [] then []
    else if IsHigh(u[0]) && |u| >= 2 && IsLow(u[1]) then
      Utf8Char(0x10000 + (u[0] - 0xD800) * 1024 + (u[1] - 0xDC00)) + TextEncode(u[2..])
    else Utf8Char(if IsSurrogate(u[0]) then 0xFFFD else u[0]) + TextEncode(u[1..])
  }

  lemma {:induction false} TextEncodeIsUtf8(t: Text)
    requires SurrogateFree(t)
    ensures TextEncode(Utf16(t)) == Utf8Raw(t)
  {
    if t != [] {
      var u := Utf16(t);
      TextEncodeIsUtf8(t[1..]);
      assert u[|Utf16Char(t[0])|..] == Utf16(t[1..]);
    }
  }

  // ---- printing in the two dialects ----

  lemma {:induction false} EscapesOfUnits(s: Text)
    requires SurrogateFree(s)
    ensures EscapeAll(JavaScript, Utf16(s)) == Utf16(EscapeAll(Python, s))
  {
    if s != [] {
      EscapesOfUnits(s[1..]);
      EscapeOfUnit(s[0], Utf16(s[1..]));
      Utf16Concat(Escape(Python, s[0]), EscapeAll(Python, s[1..]));
    }
  }

  lemma EscapeOfUnit(c: CodePoint, rest: Text)
    requires !IsSurrogate(c)
    ensures EscapeAll(JavaScript, Utf16Char(c) + rest) == Utf16(Escape(Python, c)) + EscapeAll(JavaScript, rest)
  {
    if c < 0x10000 {
      UnitsAreThemselves(Escape(Python, c));
      EscapeOfSmall(c, rest);
    } else {
      EscapeOfPair(c, rest);
    }
  }

  lemma EscapeOfSmall(c: CodePoint, rest: Text)
    requires !IsSurrogate(c) && c < 0x10000
    ensures EscapeAll(JavaScript, [c] + rest) == Escape(Python, c) + EscapeAll(JavaScript, rest)
  {
    var u := [c] + rest;
    assert u[1..] == rest && !StartsWithPair(JavaScript, u);
  }

  lemma EscapeOfPair(c: CodePoint, rest: Text)
    requires c >= 0x10000
    ensures EscapeAll(JavaScript, Utf16Char(c) + rest) == Utf16(Escape(Python, c)) + EscapeAll(JavaScript, rest)
  {
    var u := Utf16Char(c) + rest;
    assert u[2..] == rest && StartsWithPair(JavaScript, u);
    assert u[..2] == Utf16Char(c) == Utf16([c]);
  }

  /** `JSON.stringify` of a string is the code-unit form of Python's quoted string. */
  lemma QuoteOfUnits(s: Text)
    requires SurrogateFree(s)
    ensures Quote(JavaScript, Utf16(s)) == Utf16(Quote(Python, s))
  {
    EscapesOfUnits(s);
    Utf16Concat([0x22] + EscapeAll(Python, s), [0x22]);
    Utf16Concat([0x22], EscapeAll(Python, s));
    UnitsAreThemselves([0x22]);
  }

  /** The `key:value` parts of an object whose values are printed already. */
  function Parts(d: Dialect, ks: seq<Text>, texts: map<Text, Text>): (ps: seq<Text>)
    requires forall i :: 0 <= i < |ks| ==> ks[i] in texts
    ensures |ps| == |ks| && forall i :: 0 <= i < |ks| ==> ps[i] == Quote(d, ks[i]) + [':' as int] + texts[ks[i]]
  {
    seq(|ks|, i requires 0 <= i < |ks| => Quote(d, ks[i]) + [':' as int] + texts[ks[i]])
  }

  function Braced(parts: seq<Text>): Text {
    ['{' as int] + Join(parts) + ['}' as int]
  }

  /** An object prints its members' texts in key order. */
  lemma PrintIsBraced(d: Dialect, m: map<Text, Json>, ks: seq<Text>, texts: map<Text, Text>)
    requires StrictlySorted(ks) && Elements(ks) == m.Keys == texts.Keys
    requires forall k :: k in m ==> texts[k] == Print(d, m[k])
    ensures forall i :: 0 <= i < |ks| ==> ks[i] in texts
    ensures Print(d, Obj(m)) == Braced(Parts(d, ks, texts))
  {
    var ns, parts := PrintedParts(d, Obj(m));
    StrictlySortedUnique(ns, ks);
    assert forall i :: 0 <= i < |ks| ==> ks[i] in Elements(ks);
    assert parts == Parts(d, ks, texts);
  }

  lemma {:induction false} JoinOfUnits(us: seq<Text>, ps: seq<Text>)
    requires |us| == |ps| && forall i :: 0 <= i < |ps| ==> us[i] == Utf16(ps[i])
    ensures Join(us) == Utf16(Join(ps))
  {
    if |ps| > 1 {
      JoinOfUnits(us[1..], ps[1..]);
      Utf16Concat(ps[0] + [',' as int], Join(ps[1..]));
      Utf16Concat(ps[0], [',' as int]);
      UnitsAreThemselves([',' as int]);
    }
  }

  lemma BracedOfUnits(us: seq<Text>, ps: seq<Text>)
    requires |us| == |ps| && forall i :: 0 <= i < |ps| ==> us[i] == Utf16(ps[i])
    ensures Braced(us) == Utf16(Braced(ps))
  {
    JoinOfUnits(us, ps);
    Utf16Concat(['{' as int] + Join(ps), ['}' as int]);
    Utf16Concat(['{' as int], Join(ps));
    UnitsAreThemselves(['{' as int]);
    UnitsAreThemselves(['}' as int]);
  }

  lemma PartOfUnits(k: Text, v: Text)
    requires SurrogateFree(k)
    ensures Quote(JavaScript, Utf16(k)) + [':' as int] + Utf16(v) == Utf16(Quote(Python, k) + [':' as int] + v)
  {
    QuoteOfUnits(k);
    Utf16Concat(Quote(Python, k) + [':' as int], v);
    Utf16Concat(Quote(Python, k), [':' as int]);
    UnitsAreThemselves([':' as int]);
  }

  // ---- the order of the keys ----

  /** `Object.keys(..).sort()` and `sorted(..)` order these keys alike. */
  ghost predicate UnitOrderAgrees(keys: set<Text>) {
    forall a, b :: a in keys && b in keys && LexLess(a, b) ==> LexLess(Utf16(a), Utf16(b))
  }

  /** Two keys are ordered differently exactly when, where they first differ, the smaller one has a code point
      from U+E000 to U+FFFF and the larger one a code point beyond U+FFFF, whose first unit is a surrogate. */
  lemma OrdersDifferIff(a: Text, b: Text)
    requires SurrogateFree(a) && SurrogateFree(b) && LexLess(a, b)
    ensures !LexLess(Utf16(a), Utf16(b)) <==>
            exists k :: 0 <= k < |a| && k < |b| && a[..k] == b[..k] && 0xE000 <= a[k] < 0x10000 <= b[k]
  {
    var k := LexWitness(a, b);
    forall j | 0 <= j < |a| && j < |b| && a[..j] == b[..j] && 0xE000 <= a[j] < 0x10000 <= b[j]
      ensures j == k && k < |a|
    {
      FirstDifferenceIsUnique(a, b, j, k);
    }
    if k == |a| {
      PrefixFirst(a, b);
    } else {
      UnitOrderAt(a, b, k);
    }
  }

  lemma PrefixFirst(a: Text, b: Text)
    requires |a| < |b| && a == b[..|a|]
    ensures LexLess(Utf16(a), Utf16(b))
  {
    SplitUnits(b, |a|);
    UnitsLess(Utf16(a), [], Utf16(b[|a|..]));
    assert Utf16(a) + [] == Utf16(a);
  }

  lemma FirstDifferenceIsUnique(a: Text, b: Text, j: nat, k: nat)
    requires j < |a| && j < |b| && a[..j] == b[..j] && a[j] != b[j]
    requires k <= |a| && k < |b| && a[..k] == b[..k] && (k == |a| || a[k] != b[k])
    ensures j == k
  {
    AgreeBefore(a, b, j);
    AgreeBefore(a, b, k);
  }

  lemma AgreeBefore(a: Text, b: Text, k: nat)
    requires k <= |a| && k <= |b| && a[..k] == b[..k]
    ensures forall j :: 0 <= j < k ==> a[j] == b[j]
  {
    forall j | 0 <= j < k
      ensures a[j] == b[j]
    {
      assert a[j] == a[..k][j] && b[j] == b[..k][j];
    }
  }

  lemma SplitUnits(t: Text, k: nat)
    requires k <= |t|
    ensures Utf16(t) == Utf16(t[..k]) + Utf16(t[k..])
  {
    Utf16Concat(t[..k], t[k..]);
    TakeDrop(t, k);
  }

  lemma TakeDrop(t: Text, k: nat)
    requires k <= |t|
    ensures t[..k] + t[k..] == t
  {
  }

  lemma {:induction false} UnitsLess(p: Text, x: Text, y: Text)
    ensures LexLess(p + x, p + y) <==> LexLess(x, y)
  {
    if p == [] {
      assert p + x == x && p + y == y;
    } else {
      UnitsLess(p[1..], x, y);
      assert (p + x)[1..] == p[1..] + x && (p + y)[1..] == p[1..] + y;
    }
  }

  lemma UnitOrderAt(a: Text, b: Text, k: nat)
    requires SurrogateFree(a) && SurrogateFree(b) && k < |a| && k < |b| && a[..k] == b[..k] && a[k] < b[k]
    ensures LexLess(Utf16(a), Utf16(b)) <==> !(0xE000 <= a[k] < 0x10000 <= b[k])
  {
    SplitUnits(a, k);
    SplitUnits(b, k);
    UnitsLess(Utf16(a[..k]), Utf16(a[k..]), Utf16(b[k..]));
    assert a[k..][0] == a[k] && b[k..][0] == b[k];
    assert Utf16(a[k..]) == Utf16Char(a[k]) + Utf16(a[k..][1..]);
    assert Utf16(b[k..]) == Utf16Char(b[k]) + Utf16(b[k..][1..]);
    CharOrder(a[k], b[k], Utf16(a[k..][1..]), Utf16(b[k..][1..]));
  }

  lemma CharOrder(c: CodePoint, d: CodePoint, x: Text, y: Text)
    requires !IsSurrogate(c) && !IsSurrogate(d) && c < d
    ensures LexLess(Utf16Char(c) + x, Utf16Char(d) + y) <==> !(0xE000 <= c < 0x10000 <= d)
  {
    var u, v := Utf16Char(c) + x, Utf16Char(d) + y;
    assert u[0] == Utf16Char(c)[0] && v[0] == Utf16Char(d)[0];
    if c >= 0x10000 {
      assert u[1] == Utf16Char(c)[1] && v[1] == Utf16Char(d)[1];
      assert u[1..][0] == u[1] && v[1..][0] == v[1];
      HalvesOrdered(c - 0x10000, d - 0x10000);
    }
  }

  lemma HalvesOrdered(m: nat, n: nat)
    requires m < n
    ensures m / 1024 <= n / 1024 && (m / 1024 == n / 1024 ==> m % 1024 < n % 1024)
  {
  }

  ghost predicate CleanKeys(keys: set<Text>) {
    forall k :: k in keys ==> SurrogateFree(k)
  }

  ghost function UnitKeys(keys: set<Text>): set<Text> {
    set k | k in keys :: Utf16(k)
  }

  /** The keys in the order of `Object.keys(..).sort()`. */
  function Decoded(us: seq<Text>): (ks: seq<Text>)
    requires forall i :: 0 <= i < |us| ==> IsUnits(us[i]) && WellFormed16(us[i])
    ensures |ks| == |us| && forall i :: 0 <= i < |us| ==> ks[i] == Decode16(us[i])
  {
    seq(|us|, i requires 0 <= i < |us| => Decode16(us[i]))
  }

  /** `ks` lists the keys so that their code-unit forms are sorted. */
  ghost predicate IsTsOrder(keys: set<Text>, ks: seq<Text>) {
    && Elements(ks) == keys && (forall i :: 0 <= i < |ks| ==> ks[i] in keys)
    && |ks| == |SortedKeys(UnitKeys(keys))|
    && forall i :: 0 <= i < |ks| ==> SortedKeys(UnitKeys(keys))[i] == Utf16(ks[i])
  }

  lemma TsOrderExists(keys: set<Text>) returns (ks: seq<Text>)
    requires CleanKeys(keys)
    ensures IsTsOrder(keys, ks)
  {
    var us := SortedKeys(UnitKeys(keys));
    forall i | 0 <= i < |us|
      ensures IsUnits(us[i]) && WellFormed16(us[i]) && Decode16(us[i]) in keys && Utf16(Decode16(us[i])) == us[i]
    {
      UnitKeyBack(keys, us[i]);
    }
    ks := Decoded(us);
    forall k | k in keys
      ensures k in ks
    {
      assert Utf16(k) in Elements(us);
      var i :| 0 <= i < |us| && us[i] == Utf16(k);
      DecodeBack(k);
      assert ks[i] == k;
    }
    assert forall k :: k in ks ==> k in keys;
  }

  lemma UnitKeyBack(keys: set<Text>, u: Text)
    requires CleanKeys(keys) && u in Elements(SortedKeys(UnitKeys(keys)))
    ensures IsUnits(u) && WellFormed16(u) && Decode16(u) in keys && Utf16(Decode16(u)) == u
  {
    var k :| k in keys && Utf16(k) == u;
    DecodeBack(k);
  }

  /** That listing is Python's exactly when the two orders agree. */
  lemma TsOrderIsSortedIff(keys: set<Text>, ks: seq<Text>)
    requires CleanKeys(keys) && IsTsOrder(keys, ks)
    ensures ks == SortedKeys(keys) <==> UnitOrderAgrees(keys)
  {
    var us := SortedKeys(UnitKeys(keys));
    if UnitOrderAgrees(keys) {
      forall i, j | 0 <= i < j < |ks|
        ensures LexLess(ks[i], ks[j])
      {
        assert LexLess(us[i], us[j]);
        SortedPair(keys, ks[i], ks[j]);
      }
      StrictlySortedUnique(ks, SortedKeys(keys));
    }
    if ks == SortedKeys(keys) {
      forall a, b | a in keys && b in keys && LexLess(a, b)
        ensures LexLess(Utf16(a), Utf16(b))
      {
        var i, j := PositionsOrdered(ks, a, b);
        assert us[i] == Utf16(a) && us[j] == Utf16(b);
      }
    }
  }

  lemma SortedPair(keys: set<Text>, a: Text, b: Text)
    requires UnitOrderAgrees(keys) && a in keys && b in keys && LexLess(Utf16(a), Utf16(b))
    ensures LexLess(a, b)
  {
    LexTotal(a, b);
    if a == b {
      LexIrreflexive(Utf16(a));
    } else if LexLess(b, a) {
      LexAsymmetric(Utf16(a), Utf16(b));
    }
  }

  lemma PositionsOrdered(ks: seq<Text>, a: Text, b: Text) returns (i: nat, j: nat)
    requires StrictlySorted(ks) && a in ks && b in ks && LexLess(a, b)
    ensures i < j < |ks| && ks[i] == a && ks[j] == b
  {
    i :| 0 <= i < |ks| && ks[i] == a;
    j :| 0 <= j < |ks| && ks[j] == b;
    if i == j {
      LexIrreflexive(a);
    } else if j < i {
      LexAsymmetric(a, b);
    }
  }

  // ---- the header's text for a given order of `extra` ----

  predicate Lists(keys: set<Text>, ks: seq<Text>) {
    (forall i :: 0 <= i < |ks| ==> ks[i] in keys) && forall k :: k in keys ==> k in ks
  }

  function ValueTexts(extra: map<Text, Text>): map<Text, Text> {
    map k | k in extra :: Quote(Python, extra[k])
  }

  function ExtraText(extra: map<Text, Text>, order: seq<Text>): Text
    requires Lists(extra.Keys, order)
  {
    Braced(Parts(Python, order, ValueTexts(extra)))
  }

  function HeaderObject(h: PinHeader): map<Text, Json> {
    ObjectOf(HeaderFields(h))
  }

  function MemberTexts(h: PinHeader, order: seq<Text>): map<Text, Text>
    requires Lists(h.extra.Keys, order)
  {
    map k | k in HeaderObject(h) ::
      if k == Name(Extra) then ExtraText(h.extra, order) else Print(Python, HeaderObject(h)[k])
  }

  function FieldNames(h: PinHeader): (ns: seq<Text>)
    ensures StrictlySorted(ns) && Elements(ns) == HeaderObject(h).Keys
    ensures forall i :: 0 <= i < |ns| ==> ns[i] in HeaderObject(h)
  {
    assert forall i :: 0 <= i < |SortedKeys(HeaderObject(h).Keys)| ==>
        SortedKeys(HeaderObject(h).Keys)[i] in Elements(SortedKeys(HeaderObject(h).Keys));
    SortedKeys(HeaderObject(h).Keys)
  }

  function HeaderParts(h: PinHeader, order: seq<Text>): seq<Text>
    requires Lists(h.extra.Keys, order)
  {
    Parts(Python, FieldNames(h), MemberTexts(h, order))
  }

  function HeaderText(h: PinHeader, order: seq<Text>): Text
    requires Lists(h.extra.Keys, order)
  {
    Braced(HeaderParts(h, order))
  }

  lemma SortedLists(keys: set<Text>)
    ensures Lists(keys, SortedKeys(keys))
  {
    var ks := SortedKeys(keys);
    assert forall i :: 0 <= i < |ks| ==> ks[i] in Elements(ks);
    assert forall k :: k in keys ==> k in Elements(ks);
  }

  lemma TsOrderLists(keys: set<Text>, ks: seq<Text>)
    requires IsTsOrder(keys, ks)
    ensures Lists(keys, ks)
  {
    assert forall k :: k in keys ==> k in Elements(ks);
  }

  /** Python's text is the one with the keys by code point. */
  lemma PythonText(h: PinHeader)
    ensures Lists(h.extra.Keys, SortedKeys(h.extra.Keys))
    ensures Print(Python, Obj(HeaderObject(h))) == HeaderText(h, SortedKeys(h.extra.Keys))
  {
    var order := SortedKeys(h.extra.Keys);
    SortedLists(h.extra.Keys);
    if h.extra != map[] {
      ExtraPrints(h.extra);
    }
    forall k | k in HeaderObject(h)
      ensures MemberTexts(h, order)[k] == Print(Python, HeaderObject(h)[k])
    {
      if k == Name(Extra) {
        ExtraMember(h);
      }
    }
    PrintIsBraced(Python, HeaderObject(h), FieldNames(h), MemberTexts(h, order));
  }

  lemma ExtraMember(h: PinHeader)
    requires Name(Extra) in HeaderObject(h)
    ensures h.extra != map[] && HeaderObject(h)[Name(Extra)] == StrMap(h.extra)
  {
    FieldsOfObject(HeaderFields(h));
    assert Extra in FieldsOf(HeaderObject(h));
  }

  lemma ExtraPrints(extra: map<Text, Text>)
    ensures Lists(extra.Keys, SortedKeys(extra.Keys))
    ensures Print(Python, StrMap(extra)) == ExtraText(extra, SortedKeys(extra.Keys))
  {
    SortedLists(extra.Keys);
    var m := StrMap(extra).members;
    assert m.Keys == extra.Keys;
    PrintIsBraced(Python, m, SortedKeys(extra.Keys), ValueTexts(extra));
  }

  // ---- what TypeScript prints ----

  /** Every string of the header is well-formed Unicode. */
  ghost predicate IsClean(h: PinHeader) {
    && SurrogateFree(h.kid) && SurrogateFree(h.model) && SurrogateFree(h.sourceHash) && SurrogateFree(h.vecHash)
    && SurrogateFree(h.vecDtype) && SurrogateFree(h.ts) && (h.modelHash.Some? ==> SurrogateFree(h.modelHash.value))
    && CleanKeys(h.extra.Keys) && forall k :: k in h.extra ==> SurrogateFree(h.extra[k])
  }

  /** The map over code-unit strings. */
  ghost function UnitMap(extra: map<Text, Text>): (m: map<Text, Text>)
    requires CleanKeys(extra.Keys)
    ensures m.Keys == UnitKeys(extra.Keys)
    ensures forall k :: k in extra ==> m[Utf16(k)] == Utf16(extra[k])
  {
    assert forall a, b :: a in extra && b in extra && Utf16(a) == Utf16(b) ==> a == b by {
      forall a, b | a in extra && b in extra && Utf16(a) == Utf16(b)
        ensures a == b
      {
        Utf16Injective(a, b);
      }
    }
    map k | k in extra :: Utf16(k) := Utf16(extra[k])
  }

  /** The same header over code-unit strings. */
  ghost function UnitsOf(h: PinHeader): PinHeader
    requires IsClean(h)
  {
    PinHeader(h.v, Utf16(h.kid), Utf16(h.model), Utf16(h.sourceHash), Utf16(h.vecHash), Utf16(h.vecDtype), h.vecDim,
              Utf16(h.ts), if h.modelHash.Some? then Some(Utf16(h.modelHash.value)) else None, UnitMap(h.extra))
  }

  /** `nfcOrThrow` passes. */
  predicate NfcPasses(nfc: Normalizer, s: Text) {
    IsUnits(s) && WellFormed16(s) && nfc(Decode16(s)) == Decode16(s)
  }

  /** All the strings `canonicalizeHeader` checks pass. */
  ghost predicate ChecksPass(nfc: Normalizer, u: PinHeader) {
    && NfcPasses(nfc, u.kid) && NfcPasses(nfc, u.model) && NfcPasses(nfc, u.ts)
    && (u.modelHash.Some? ==> NfcPasses(nfc, u.modelHash.value)) && ExtraPasses(nfc, u.extra)
  }

  /** `canonicalizeHeader`; `None` where it throws. Version and dimension are integers a double holds. */
  ghost function CanonicalTs(nfc: Normalizer, u: PinHeader): Option<Bytes> {
    var text := Print(JavaScript, Obj(HeaderObject(u)));
    if !ChecksPass(nfc, u) || !IsUnits(text) then None else Some(PinTag() + TextEncode(text))
  }

  lemma PassesIffNormal(nfc: Normalizer, s: Text)
    requires SurrogateFree(s)
    ensures NfcPasses(nfc, Utf16(s)) <==> nfc(s) == s
  {
    DecodeBack(s);
  }

  predicate EntryPasses(nfc: Normalizer, m: map<Text, Text>, k: Text)
    requires k in m
  {
    NfcPasses(nfc, k) && NfcPasses(nfc, m[k])
  }

  predicate EntryIsNormal(nfc: Normalizer, extra: map<Text, Text>, k: Text)
    requires k in extra
  {
    nfc(k) == k && nfc(extra[k]) == extra[k]
  }

  ghost predicate ExtraPasses(nfc: Normalizer, m: map<Text, Text>) {
    forall k :: k in m ==> EntryPasses(nfc, m, k)
  }

  lemma ExtraPassesIff(nfc: Normalizer, extra: map<Text, Text>)
    requires CleanKeys(extra.Keys) && forall k :: k in extra ==> SurrogateFree(extra[k])
    ensures ExtraPasses(nfc, UnitMap(extra)) <==> forall k :: k in extra ==> EntryIsNormal(nfc, extra, k)
  {
    var m := UnitMap(extra);
    forall k | k in extra
      ensures Utf16(k) in m && (EntryPasses(nfc, m, Utf16(k)) <==> EntryIsNormal(nfc, extra, k))
    {
      PassesIffNormal(nfc, k);
      PassesIffNormal(nfc, extra[k]);
    }
    forall u | u in m
      ensures exists k :: k in extra && Utf16(k) == u
    {
      assert u in UnitKeys(extra.Keys);
    }
  }

  /** The checks pass exactly for headers in normal form, the model hash included. */
  lemma ChecksPassIff(nfc: Normalizer, h: PinHeader)
    requires IsClean(h)
    ensures ChecksPass(nfc, UnitsOf(h))
            <==> IsNormalized(nfc, h) && (h.modelHash.Some? ==> nfc(h.modelHash.value) == h.modelHash.value)
  {
    PassesIffNormal(nfc, h.kid);
    PassesIffNormal(nfc, h.model);
    PassesIffNormal(nfc, h.ts);
    if h.modelHash.Some? {
      PassesIffNormal(nfc, h.modelHash.value);
    }
    ExtraPassesIff(nfc, h.extra);
    NormalizedMeans(nfc, h);
    UnitFields(h);
  }

  lemma UnitFields(h: PinHeader)
    requires IsClean(h)
    ensures var u := UnitsOf(h);
            && u.kid == Utf16(h.kid) && u.model == Utf16(h.model) && u.ts == Utf16(h.ts)
            && (u.modelHash.Some? <==> h.modelHash.Some?)
            && (h.modelHash.Some? ==> u.modelHash.value == Utf16(h.modelHash.value)) && u.extra == UnitMap(h.extra)
  {
  }

  lemma NormalizedMeans(nfc: Normalizer, h: PinHeader)
    ensures IsNormalized(nfc, h) <==>
            && nfc(h.kid) == h.kid && nfc(h.model) == h.model && nfc(h.ts) == h.ts
            && forall k :: k in h.extra ==> EntryIsNormal(nfc, h.extra, k)
  {
  }

  lemma NumberOfUnits(n: nat)
    ensures Utf16(Decimal(n)) == Decimal(n)
  {
    UnitsAreThemselves(Decimal(n));
  }

  lemma SamePresence(h: PinHeader, f: Field)
    requires IsClean(h)
    ensures Present(UnitsOf(h), f) <==> Present(h, f)
  {
    if h.extra != map[] {
      var k :| k in h.extra;
      assert Utf16(k) in UnitMap(h.extra);
    } else {
      assert UnitMap(h.extra) == map[];
    }
  }

  lemma SameFieldNames(h: PinHeader)
    requires IsClean(h)
    ensures HeaderObject(UnitsOf(h)).Keys == HeaderObject(h).Keys && FieldNames(UnitsOf(h)) == FieldNames(h)
  {
    forall f: Field
      ensures Present(UnitsOf(h), f) <==> Present(h, f)
    {
      SamePresence(h, f);
    }
    assert HeaderFields(UnitsOf(h)).Keys == HeaderFields(h).Keys;
    forall k
      ensures k in HeaderObject(UnitsOf(h)) <==> k in HeaderObject(h)
    {
    }
  }

  /** The text of a string field. */
  function StringOf(h: PinHeader, f: Field): Option<Text> {
    match f
    case Kid => Some(h.kid)
    case Model => Some(h.model)
    case ModelHash => h.modelHash
    case SourceHash => Some(h.sourceHash)
    case VecHash => Some(h.vecHash)
    case VecDtype => Some(h.vecDtype)
    case Ts => Some(h.ts)
    case _ => None
  }

  lemma StringField(h: PinHeader, f: Field)
    requires Present(h, f) && f != Version && f != VecDim && f != Extra
    ensures StringOf(h, f).Some? && FieldValue(h, f) == Str(StringOf(h, f).value)
  {
  }

  lemma StringOfUnits(h: PinHeader, f: Field)
    requires IsClean(h) && StringOf(h, f).Some?
    ensures SurrogateFree(StringOf(h, f).value) && StringOf(UnitsOf(h), f) == Some(Utf16(StringOf(h, f).value))
  {
  }

  lemma NumberValueOfUnits(h: PinHeader, f: Field)
    requires IsClean(h) && (f == Version || f == VecDim)
    ensures Print(JavaScript, FieldValue(UnitsOf(h), f)) == Utf16(Print(Python, FieldValue(h, f)))
  {
    NumberOfUnits(h.v);
    NumberOfUnits(h.vecDim);
  }

  /** A field other than `extra` prints alike. */
  lemma ValueOfUnits(h: PinHeader, f: Field)
    requires IsClean(h) && Present(h, f) && Present(UnitsOf(h), f) && f != Extra
    ensures Print(JavaScript, FieldValue(UnitsOf(h), f)) == Utf16(Print(Python, FieldValue(h, f)))
  {
    if f == Version || f == VecDim {
      NumberValueOfUnits(h, f);
    } else {
      StringValueOfUnits(h, f);
    }
  }

  lemma StringValueOfUnits(h: PinHeader, f: Field)
    requires IsClean(h) && Present(h, f) && Present(UnitsOf(h), f) && f != Version && f != VecDim && f != Extra
    ensures Print(JavaScript, FieldValue(UnitsOf(h), f)) == Utf16(Print(Python, FieldValue(h, f)))
  {
    StringField(h, f);
    StringField(UnitsOf(h), f);
    StringOfUnits(h, f);
    QuoteOfUnits(StringOf(h, f).value);
  }

  /** `extra` prints as Python would print it in the order of the code units. */
  lemma ExtraOfUnits(extra: map<Text, Text>, order: seq<Text>)
    requires CleanKeys(extra.Keys) && (forall k :: k in extra ==> SurrogateFree(extra[k]))
    requires IsTsOrder(extra.Keys, order) && Lists(extra.Keys, order)
    ensures Print(JavaScript, StrMap(UnitMap(extra))) == Utf16(ExtraText(extra, order))
  {
    var m := UnitMap(extra);
    var us := SortedKeys(m.Keys);
    var texts := map u | u in m :: Quote(JavaScript, m[u]);
    assert StrMap(m).members.Keys == m.Keys;
    PrintIsBraced(JavaScript, StrMap(m).members, us, texts);
    var js, py := Parts(JavaScript, us, texts), Parts(Python, order, ValueTexts(extra));
    forall i | 0 <= i < |order|
      ensures js[i] == Utf16(py[i])
    {
      var k := order[i];
      assert us[i] == Utf16(k) && texts[us[i]] == Quote(JavaScript, Utf16(extra[k]));
      QuoteOfUnits(extra[k]);
      PartOfUnits(k, Quote(Python, extra[k]));
    }
    BracedOfUnits(js, py);
  }

  function PrintedMembers(u: PinHeader): map<Text, Text> {
    map k | k in HeaderObject(u) :: Print(JavaScript, HeaderObject(u)[k])
  }

  lemma MemberOfUnits(h: PinHeader, order: seq<Text>, k: Text)
    requires IsClean(h) && IsTsOrder(h.extra.Keys, order) && Lists(h.extra.Keys, order)
    requires k in HeaderObject(h) && k in HeaderObject(UnitsOf(h))
    ensures Print(JavaScript, HeaderObject(UnitsOf(h))[k]) == Utf16(MemberTexts(h, order)[k])
  {
    var f :| f in HeaderFields(h) && Name(f) == k;
    SamePresence(h, f);
    assert f in HeaderFields(UnitsOf(h));
    if f == Extra {
      ExtraOfUnits(h.extra, order);
    } else {
      if k == Name(Extra) {
        NameInjective(f, Extra);
      }
      ValueOfUnits(h, f);
    }
  }

  lemma NameIsClean(h: PinHeader, k: Text)
    requires k in HeaderObject(h)
    ensures IsUnits(k) && SurrogateFree(k) && Utf16(k) == k
  {
    var f :| f in HeaderFields(h) && Name(f) == k;
    NameIsAscii(f);
    UnitsAreThemselves(k);
  }

  lemma NameIsAscii(f: Field)
    ensures forall i :: 0 <= i < |Name(f)| ==> Name(f)[i] < 0x80
  {
  }

  /** The text `canonicalJsonStringify` returns: Python's for the order of the code units. */
  lemma TsText(h: PinHeader, order: seq<Text>)
    requires IsClean(h) && IsTsOrder(h.extra.Keys, order) && Lists(h.extra.Keys, order)
    ensures Print(JavaScript, Obj(HeaderObject(UnitsOf(h)))) == Utf16(HeaderText(h, order))
  {
    var u := UnitsOf(h);
    SameFieldNames(h);
    PrintIsBraced(JavaScript, HeaderObject(u), FieldNames(u), PrintedMembers(u));
    var js, py := Parts(JavaScript, FieldNames(u), PrintedMembers(u)), HeaderParts(h, order);
    forall i | 0 <= i < |py|
      ensures js[i] == Utf16(py[i])
    {
      var k := FieldNames(h)[i];
      MemberOfUnits(h, order, k);
      NameIsClean(h, k);
      PartOfUnits(k, MemberTexts(h, order)[k]);
    }
    BracedOfUnits(js, py);
  }

  // ---- the text tells the order ----

  lemma {:induction false} JoinTells(a: seq<Text>, b: seq<Text>, j: nat)
    requires |a| == |b| && j < |a| && Join(a) == Join(b)
    requires forall i :: 0 <= i < |a| && i != j ==> a[i] == b[i]
    ensures a[j] == b[j]
  {
    if |a| > 1 {
      var comma := [',' as int];
      if j == 0 {
        assert a[1..] == b[1..];
        CancelRight(a[0], b[0], comma + Join(a[1..]));
        Assoc(a[0], comma, Join(a[1..]));
        Assoc(b[0], comma, Join(a[1..]));
      } else {
        CancelLeft(a[0] + comma, Join(a[1..]), Join(b[1..]));
        JoinTells(a[1..], b[1..], j - 1);
      }
    }
  }

  lemma CancelLeft(p: Text, x: Text, y: Text)
    ensures p + x == p + y ==> x == y
  {
    assert x == (p + x)[|p|..] && y == (p + y)[|p|..];
  }

  lemma CancelRight(x: Text, y: Text, s: Text)
    ensures x + s == y + s ==> x == y
  {
    if x + s == y + s {
      assert |x| == |y|;
      assert x == (x + s)[..|x|] && y == (y + s)[..|y|];
    }
  }

  lemma BracedTells(a: seq<Text>, b: seq<Text>)
    requires Braced(a) == Braced(b)
    ensures Join(a) == Join(b)
  {
    CancelRight(['{' as int] + Join(a), ['{' as int] + Join(b), ['}' as int]);
    CancelLeft(['{' as int], Join(a), Join(b));
  }

  /** A listing's member texts read back as its keys, in order. */
  lemma ExtraReadsBack(extra: map<Text, Text>, order: seq<Text>) returns (ps: seq<(Text, Json)>)
    requires Lists(extra.Keys, order) && order != []
    ensures |ps| == |order| && forall i :: 0 <= i < |order| ==> ps[i].0 == order[i]
    ensures ReadMembers(Python, Join(Parts(Python, order, ValueTexts(extra))) + ['}' as int] + []) == Some((ps, []))
  {
    ps := seq(|order|, i requires 0 <= i < |order| => (order[i], Str(extra[order[i]])));
    var parts := Parts(Python, order, ValueTexts(extra));
    forall i | 0 <= i < |ps|
      ensures ReadsMember(Python, parts[i], ps[i].0, ps[i].1)
    {
      ReadPrinted(Python, Str(extra[order[i]]));
      MemberPart(Python, order[i], Str(extra[order[i]]), Quote(Python, extra[order[i]]));
    }
    ReadMembersJoined(Python, parts, ps, []);
  }

  lemma ExtraTextTells(extra: map<Text, Text>, a: seq<Text>, b: seq<Text>)
    requires Lists(extra.Keys, a) && Lists(extra.Keys, b) && extra != map[]
    requires ExtraText(extra, a) == ExtraText(extra, b)
    ensures a == b
  {
    NotEmptyOrder(extra, a);
    NotEmptyOrder(extra, b);
    BracedTells(Parts(Python, a, ValueTexts(extra)), Parts(Python, b, ValueTexts(extra)));
    var ps := ExtraReadsBack(extra, a);
    var qs := ExtraReadsBack(extra, b);
    assert ps == qs;
  }

  /** Equal header texts list the `extra` keys in one order. */
  lemma HeaderTextTells(h: PinHeader, a: seq<Text>, b: seq<Text>)
    requires Lists(h.extra.Keys, a) && Lists(h.extra.Keys, b) && h.extra != map[]
    requires HeaderText(h, a) == HeaderText(h, b)
    ensures a == b
  {
    var j := ExtraPosition(h);
    ExtraTextsMeet(h, a, b, j);
    ExtraTextTells(h.extra, a, b);
  }

  lemma ExtraTextsMeet(h: PinHeader, a: seq<Text>, b: seq<Text>, j: nat)
    requires Lists(h.extra.Keys, a) && Lists(h.extra.Keys, b) && HeaderText(h, a) == HeaderText(h, b)
    requires j < |FieldNames(h)| && FieldNames(h)[j] == Name(Extra)
    ensures ExtraText(h.extra, a) == ExtraText(h.extra, b)
  {
    ExtraPartsMeet(h, a, b, j);
    ExtraPart(h, a, j);
    ExtraPart(h, b, j);
    CancelLeft(Quote(Python, FieldNames(h)[j]) + [':' as int], ExtraText(h.extra, a), ExtraText(h.extra, b));
  }

  lemma ExtraPartsMeet(h: PinHeader, a: seq<Text>, b: seq<Text>, j: nat)
    requires Lists(h.extra.Keys, a) && Lists(h.extra.Keys, b) && HeaderText(h, a) == HeaderText(h, b)
    requires j < |FieldNames(h)| && FieldNames(h)[j] == Name(Extra)
    ensures HeaderParts(h, a)[j] == HeaderParts(h, b)[j]
  {
    var x, y := HeaderParts(h, a), HeaderParts(h, b);
    BracedTells(x, y);
    forall i | 0 <= i < |x| && i != j
      ensures x[i] == y[i]
    {
      OtherPart(h, a, b, i, j);
    }
    JoinTells(x, y, j);
  }

  lemma ExtraPart(h: PinHeader, order: seq<Text>, j: nat)
    requires Lists(h.extra.Keys, order) && j < |FieldNames(h)| && FieldNames(h)[j] == Name(Extra)
    ensures HeaderParts(h, order)[j] == Quote(Python, FieldNames(h)[j]) + [':' as int] + ExtraText(h.extra, order)
  {
  }

  lemma OtherPart(h: PinHeader, a: seq<Text>, b: seq<Text>, i: nat, j: nat)
    requires Lists(h.extra.Keys, a) && Lists(h.extra.Keys, b)
    requires i < |FieldNames(h)| && j < |FieldNames(h)| && i != j && FieldNames(h)[j] == Name(Extra)
    ensures HeaderParts(h, a)[i] == HeaderParts(h, b)[i]
  {
    NotExtra(h, i, j);
  }

  lemma NotEmptyOrder(extra: map<Text, Text>, order: seq<Text>)
    requires Lists(extra.Keys, order) && extra != map[]
    ensures order != []
  {
    var k :| k in extra;
    assert k in order;
  }

  lemma ExtraPosition(h: PinHeader) returns (j: nat)
    requires h.extra != map[]
    ensures j < |FieldNames(h)| && FieldNames(h)[j] == Name(Extra)
  {
    assert Extra in HeaderFields(h);
    assert Name(Extra) in Elements(FieldNames(h));
    j :| 0 <= j < |FieldNames(h)| && FieldNames(h)[j] == Name(Extra);
  }

  lemma NotExtra(h: PinHeader, i: nat, j: nat)
    requires i < |FieldNames(h)| && j < |FieldNames(h)| && i != j && FieldNames(h)[j] == Name(Extra)
    ensures FieldNames(h)[i] != Name(Extra)
  {
    LexIrreflexive(Name(Extra));
    if i < j {
      assert LexLess(FieldNames(h)[i], FieldNames(h)[j]);
    } else {
      assert LexLess(FieldNames(h)[j], FieldNames(h)[i]);
    }
  }

  // ---- main result ----

  lemma HeaderTextIsClean(h: PinHeader, order: seq<Text>)
    requires IsClean(h) && Lists(h.extra.Keys, order)
    ensures SurrogateFree(HeaderText(h, order))
  {
    var parts := HeaderParts(h, order);
    forall i | 0 <= i < |parts|
      ensures SurrogateFree(parts[i])
    {
      var k := FieldNames(h)[i];
      NameIsClean(h, k);
      MemberIsClean(h, order, k);
      MemberFree(k, MemberTexts(h, order)[k]);
    }
    BracedIsClean(parts);
  }

  lemma BracedIsClean(parts: seq<Text>)
    requires forall i :: 0 <= i < |parts| ==> SurrogateFree(parts[i])
    ensures SurrogateFree(Braced(parts))
  {
    JoinFree(parts);
    BracketFree('{' as int, Join(parts), '}' as int);
  }

  lemma MemberIsClean(h: PinHeader, order: seq<Text>, k: Text)
    requires IsClean(h) && Lists(h.extra.Keys, order) && k in HeaderObject(h)
    ensures SurrogateFree(MemberTexts(h, order)[k])
  {
    var f :| f in HeaderFields(h) && Name(f) == k;
    if f == Extra {
      ExtraIsClean(h.extra, order);
    } else {
      if k == Name(Extra) {
        NameInjective(f, Extra);
      }
      ValueIsClean(h, f);
    }
  }

  lemma ExtraIsClean(extra: map<Text, Text>, order: seq<Text>)
    requires CleanKeys(extra.Keys) && (forall k :: k in extra ==> SurrogateFree(extra[k])) && Lists(extra.Keys, order)
    ensures SurrogateFree(ExtraText(extra, order))
  {
    var parts := Parts(Python, order, ValueTexts(extra));
    forall i | 0 <= i < |parts|
      ensures SurrogateFree(parts[i])
    {
      QuoteFree(extra[order[i]]);
      MemberFree(order[i], Quote(Python, extra[order[i]]));
    }
    BracedIsClean(parts);
  }

  lemma ValueIsClean(h: PinHeader, f: Field)
    requires IsClean(h) && Present(h, f) && f != Extra
    ensures SurrogateFree(Print(Python, FieldValue(h, f)))
  {
    if f != Version && f != VecDim {
      StringField(h, f);
      StringOfUnits(h, f);
      QuoteFree(StringOf(h, f).value);
    }
  }

  lemma PythonBytes(nfc: Normalizer, h: PinHeader)
    requires IsClean(h) && IsNormalized(nfc, h)
    ensures Lists(h.extra.Keys, SortedKeys(h.extra.Keys))
    ensures Canonicalize(nfc, h) == Some(PinTag() + Utf8Raw(HeaderText(h, SortedKeys(h.extra.Keys))))
  {
    NormalizedIdentity(nfc, h);
    PythonText(h);
    HeaderTextIsClean(h, SortedKeys(h.extra.Keys));
  }

  lemma TsBytes(nfc: Normalizer, h: PinHeader, order: seq<Text>)
    requires IsClean(h) && IsNormalized(nfc, h)
    requires h.modelHash.Some? ==> nfc(h.modelHash.value) == h.modelHash.value
    requires IsTsOrder(h.extra.Keys, order) && Lists(h.extra.Keys, order)
    ensures CanonicalTs(nfc, UnitsOf(h)) == Some(PinTag() + Utf8Raw(HeaderText(h, order)))
  {
    ChecksPassIff(nfc, h);
    TsText(h, order);
    HeaderTextIsClean(h, order);
    TextEncodeIsUtf8(HeaderText(h, order));
  }

  /** Main result. For every header of well-formed strings in normal form, TypeScript and Python sign the same
      bytes exactly when the code-unit order of the `extra` keys is their code-point order. */
  lemma PortsSignAlikeIff(nfc: Normalizer, h: PinHeader)
    requires IsClean(h) && IsNormalized(nfc, h)
    requires h.modelHash.Some? ==> nfc(h.modelHash.value) == h.modelHash.value
    ensures CanonicalTs(nfc, UnitsOf(h)).Some? && Canonicalize(nfc, h).Some?
    ensures CanonicalTs(nfc, UnitsOf(h)) == Canonicalize(nfc, h) <==> UnitOrderAgrees(h.extra.Keys)
  {
    var order := TsOrderExists(h.extra.Keys);
    TsOrderLists(h.extra.Keys, order);
    PythonBytes(nfc, h);
    TsBytes(nfc, h, order);
    TsOrderIsSortedIff(h.extra.Keys, order);
    BytesTellOrder(h, order, SortedKeys(h.extra.Keys));
  }

  lemma BytesTellOrder(h: PinHeader, a: seq<Text>, b: seq<Text>)
    requires IsTsOrder(h.extra.Keys, a) && b == SortedKeys(h.extra.Keys)
    requires Lists(h.extra.Keys, a) && Lists(h.extra.Keys, b)
    ensures PinTag() + Utf8Raw(HeaderText(h, a)) == PinTag() + Utf8Raw(HeaderText(h, b)) <==> a == b
  {
    var x, y := Utf8Raw(HeaderText(h, a)), Utf8Raw(HeaderText(h, b));
    assert x == (PinTag() + x)[13..] && y == (PinTag() + y)[13..];
    if x == y {
      Utf8Injective(HeaderText(h, a), HeaderText(h, b));
      if h.extra == map[] {
        assert Elements(a) == {} == Elements(b);
        NoElements(a);
        NoElements(b);
      } else {
        HeaderTextTells(h, a, b);
      }
    }
  }

  lemma NoElements(s: seq<Text>)
    requires Elements(s) == {}
    ensures s == []
  {
    if s != [] {
      InElements(s, 0);
    }
  }

  /** A header the ports sign differently: `extra` with the keys U+E000 and U+10000. */
  lemma PortsCanDisagree(nfc: Normalizer, h: PinHeader)
    requires IsClean(h) && IsNormalized(nfc, h) && h.extra == map[[0xE000] := [], [0x10000] := []]
    requires h.modelHash.Some? ==> nfc(h.modelHash.value) == h.modelHash.value
    ensures CanonicalTs(nfc, UnitsOf(h)) != Canonicalize(nfc, h)
  {
    var a: Text, b: Text := [0xE000], [0x10000];
    assert a in h.extra && b in h.extra && LexLess(a, b);
    UnitOrderAt(a, b, 0);
    PortsSignAlikeIff(nfc, h);
  }
}
