/** The Rust port's canonical JSON: entries pushed, sorted by their UTF-8 bytes and inserted into an
    insertion-ordered map. It prints what the Python port prints. */
module RustCanonical {
  import opened Common
  import opened Utf
  import opened JsonText
  import opened Attestation

  // ---- order ----

  predicate BytesLess(a: Text, b: Text) { LexLess(Utf8Raw(a), Utf8Raw(b)) }

  ghost predicate SortedByBytes(ks: seq<Text>) {
    forall i, j :: 0 <= i < j < |ks| ==> BytesLess(ks[i], ks[j])
  }

  /** Listing keys by UTF-8 bytes (section 1 of RFC 3629) is listing them by code point. */
  lemma KeyOrderAgrees(s: set<Text>, ks: seq<Text>)
    requires Elements(ks) == s
    ensures SortedByBytes(ks) <==> ks == SortedKeys(s)
  {
    forall i, j | 0 <= i < j < |ks|
      ensures BytesLess(ks[i], ks[j]) <==> LexLess(ks[i], ks[j])
    {
      Utf8PreservesOrder(ks[i], ks[j]);
    }
    if SortedByBytes(ks) {
      StrictlySortedUnique(ks, SortedKeys(s));
    }
  }

  // ---- association lists ----

  type Items = seq<(Text, Text)>

  function KeysOf(ps: Items): (ks: seq<Text>)
    ensures |ks| == |ps| && forall i :: 0 <= i < |ps| ==> ks[i] == ps[i].0
  {
    seq(|ps|, i requires 0 <= i < |ps| => ps[i].0)
  }

  /** Inserting the pairs one after the other; a later one replaces an earlier one. */
  function Collected(ps: Items): map<Text, Text> {
    if ps == [] then map[] else Collected(ps[..|ps| - 1])[ps[|ps| - 1].0 := ps[|ps| - 1].1]
  }

  lemma CollectedSnoc(ps: Items, k: Text, v: Text)
    ensures Collected(ps + [(k, v)]) == Collected(ps)[k := v]
  {
    assert (ps + [(k, v)])[..|ps|] == ps;
  }

  lemma {:induction false} CollectedKeys(ps: Items)
    ensures Collected(ps).Keys == Elements(KeysOf(ps))
  {
    if ps != [] {
      var front := ps[..|ps| - 1];
      CollectedKeys(front);
      assert KeysOf(ps) == KeysOf(front) + [ps[|ps| - 1].0];
    }
  }

  /** Insertion from the right, past strictly greater keys only: a stable sort. */
  function InsertStable(p: (Text, Text), s: Items): (r: Items)
    ensures |r| == |s| + 1
  {
    if s == [] || !BytesLess(p.0, s[|s| - 1].0) then s + [p]
    else InsertStable(p, s[..|s| - 1]) + [s[|s| - 1]]
  }

  /** `sort_by(|a, b| a.0.cmp(&b.0))`. */
  function SortStable(ps: Items): (r: Items)
    ensures |r| == |ps|
  {
    if ps == [] then [] else InsertStable(ps[|ps| - 1], SortStable(ps[..|ps| - 1]))
  }

  lemma {:induction false} InsertKeepsLast(p: (Text, Text), s: Items)
    ensures Collected(InsertStable(p, s)) == Collected(s)[p.0 := p.1]
  {
    if s == [] || !BytesLess(p.0, s[|s| - 1].0) {
      CollectedSnoc(s, p.0, p.1);
    } else {
      var front, last := s[..|s| - 1], s[|s| - 1];
      InsertKeepsLast(p, front);
      CollectedSnoc(InsertStable(p, front), last.0, last.1);
      LexIrreflexive(Utf8Raw(p.0));
    }
  }

  /** Sorting does not change which value a repeated key ends up with. */
  lemma {:induction false} SortKeepsLast(ps: Items)
    ensures Collected(SortStable(ps)) == Collected(ps)
  {
    if ps != [] {
      SortKeepsLast(ps[..|ps| - 1]);
      InsertKeepsLast(ps[|ps| - 1], SortStable(ps[..|ps| - 1]));
    }
  }

  /** No key is greater than a later one. */
  ghost predicate InOrder(ps: Items) {
    forall i, j :: 0 <= i < j < |ps| ==> !BytesLess(ps[j].0, ps[i].0)
  }

  lemma NotLessTransitive(a: Text, b: Text, c: Text)
    requires !BytesLess(b, a) && !BytesLess(c, b)
    ensures !BytesLess(c, a)
  {
    var x, y, z := Utf8Raw(a), Utf8Raw(b), Utf8Raw(c);
    LexTotal(x, y);
    LexTotal(y, z);
    if LexLess(z, x) {
      if x == y {
      } else if y == z {
      } else {
        LexTransitive(x, y, z);
        LexAsymmetric(x, z);
      }
    }
  }

  lemma {:induction false} InsertInOrder(p: (Text, Text), s: Items)
    requires InOrder(s)
    ensures InOrder(InsertStable(p, s))
    ensures forall q :: q in InsertStable(p, s) <==> q == p || q in s
  {
    if s == [] {
    } else if !BytesLess(p.0, s[|s| - 1].0) {
      forall i | 0 <= i < |s|
        ensures !BytesLess(p.0, s[i].0)
      {
        if i < |s| - 1 {
          NotLessTransitive(s[i].0, s[|s| - 1].0, p.0);
        }
      }
    } else {
      var front, last := s[..|s| - 1], s[|s| - 1];
      InsertInOrder(p, front);
      LexAsymmetric(Utf8Raw(p.0), Utf8Raw(last.0));
      var r := InsertStable(p, front);
      forall q | q in r
        ensures !BytesLess(last.0, q.0)
      {
        if q != p {
          var i :| 0 <= i < |front| && front[i] == q;
          assert s[i] == q;
        }
      }
    }
  }

  lemma {:induction false} SortInOrder(ps: Items)
    ensures InOrder(SortStable(ps))
  {
    if ps != [] {
      SortInOrder(ps[..|ps| - 1]);
      InsertInOrder(ps[|ps| - 1], SortStable(ps[..|ps| - 1]));
    }
  }

  // ---- the insertion-ordered map ----

  /** `Map::insert`: an existing key keeps its place. */
  function Put(m: Items, k: Text, v: Text): Items {
    if exists i :: 0 <= i < |m| && m[i].0 == k then Replaced(m, k, v) else m + [(k, v)]
  }

  function Replaced(m: Items, k: Text, v: Text): Items {
    if m == [] then []
    else if m[|m| - 1].0 == k then m[..|m| - 1] + [(k, v)]
    else Replaced(m[..|m| - 1], k, v) + [m[|m| - 1]]
  }

  /** Keys in strictly increasing byte order. */
  ghost predicate IsSortedMap(m: Items) {
    forall i, j :: 0 <= i < j < |m| ==> BytesLess(m[i].0, m[j].0)
  }

  /** A key not below the last one replaces the last entry or goes after it. */
  lemma PutLast(m: Items, k: Text, v: Text)
    requires IsSortedMap(m) && (m != [] ==> !BytesLess(k, m[|m| - 1].0))
    ensures Put(m, k, v) == (if m != [] && m[|m| - 1].0 == k then m[..|m| - 1] else m) + [(k, v)]
  {
    if m != [] && m[|m| - 1].0 != k {
      forall i | 0 <= i < |m|
        ensures m[i].0 != k
      {
        if i < |m| - 1 {
          assert BytesLess(m[i].0, m[|m| - 1].0);
        }
      }
    }
  }

  lemma PutSorted(m: Items, k: Text, v: Text)
    requires IsSortedMap(m) && (m != [] ==> !BytesLess(k, m[|m| - 1].0))
    ensures IsSortedMap(Put(m, k, v)) && Collected(Put(m, k, v)) == Collected(m)[k := v]
    ensures Put(m, k, v) != [] && Put(m, k, v)[|Put(m, k, v)| - 1].0 == k
  {
    PutLast(m, k, v);
    var keep := if m != [] && m[|m| - 1].0 == k then m[..|m| - 1] else m;
    CollectedSnoc(keep, k, v);
    forall i | 0 <= i < |keep|
      ensures BytesLess(keep[i].0, k)
    {
      KeyBelow(m, keep, k, i);
    }
  }

  lemma KeyBelow(m: Items, keep: Items, k: Text, i: nat)
    requires IsSortedMap(m) && m != [] && !BytesLess(k, m[|m| - 1].0) && i < |keep|
    requires keep == if m[|m| - 1].0 == k then m[..|m| - 1] else m
    ensures BytesLess(keep[i].0, k)
  {
    var last := m[|m| - 1].0;
    LexTotal(Utf8Raw(last), Utf8Raw(k));
    if Utf8Raw(last) == Utf8Raw(k) {
      Utf8Injective(last, k);
    }
    if i < |m| - 1 {
      assert BytesLess(m[i].0, last);
      if last != k {
        LexTransitive(Utf8Raw(m[i].0), Utf8Raw(last), Utf8Raw(k));
      }
    }
  }

  /** The first `i` sorted pairs are in the map, the last key inserted at its end. */
  ghost predicate HoldsPrefix(m: Items, sorted: Items, i: nat)
    requires i <= |sorted|
  {
    && IsSortedMap(m) && Collected(m) == Collected(sorted[..i])
    && (m != [] ==> i > 0 && m[|m| - 1].0 == sorted[i - 1].0)
  }

  lemma PutNext(m: Items, sorted: Items, i: nat)
    requires i < |sorted| && InOrder(sorted) && HoldsPrefix(m, sorted, i)
    ensures HoldsPrefix(Put(m, sorted[i].0, sorted[i].1), sorted, i + 1)
  {
    var k, v := sorted[i].0, sorted[i].1;
    PutSorted(m, k, v);
    assert sorted[..i + 1] == sorted[..i] + [(k, v)];
    CollectedSnoc(sorted[..i], k, v);
  }

  /** Sort, then insert one by one. */
  method SortAndInsert(ps: Items) returns (m: Items)
    ensures IsSortedMap(m) && Collected(m) == Collected(ps)
  {
    var sorted := SortStable(ps);
    SortInOrder(ps);
    SortKeepsLast(ps);
    m := [];
    var i := 0;
    while i < |sorted|
      invariant 0 <= i <= |sorted| && HoldsPrefix(m, sorted, i)
    {
      PutNext(m, sorted, i);
      m := Put(m, sorted[i].0, sorted[i].1);
      i := i + 1;
    }
    assert sorted[..i] == sorted;
  }

  // ---- printing ----

  function Member(p: (Text, Text)): Text { Quote(Python, p.0) + [':' as int] + p.1 }

  function Members(m: Items): (parts: seq<Text>)
    ensures |parts| == |m| && forall i :: 0 <= i < |m| ==> parts[i] == Member(m[i])
  {
    seq(|m|, i requires 0 <= i < |m| => Member(m[i]))
  }

  /** `serde_json` on an insertion-ordered map whose values are already printed. */
  function PrintItems(m: Items): Text {
    ['{' as int] + Join(Members(m)) + ['}' as int]
  }

  lemma LastPut(m: Items, k: Text, p: (Text, Text))
    ensures Collected(m + [p]) == Collected(m)[p.0 := p.1]
    ensures k != p.0 && k in Collected(m) ==> k in Collected(m + [p]) && Collected(m + [p])[k] == Collected(m)[k]
  {
    CollectedSnoc(m, p.0, p.1);
  }

  lemma {:induction false} CollectedAt(m: Items, i: nat)
    requires IsSortedMap(m) && i < |m|
    ensures m[i].0 in Collected(m) && Collected(m)[m[i].0] == m[i].1
    decreases |m|
  {
    var n := |m| - 1;
    assert m == m[..n] + [m[n]];
    LastPut(m[..n], m[i].0, m[n]);
    if i < n {
      CollectedAt(m[..n], i);
      assert BytesLess(m[i].0, m[n].0);
      LexIrreflexive(Utf8Raw(m[i].0));
    }
  }

  /** In byte order, with values that print as the object's, it prints the object. */
  lemma ItemsPrintObject(m: Items, ms: map<Text, Json>)
    requires IsSortedMap(m)
    requires Collected(m) == map k | k in ms :: Print(Python, ms[k])
    ensures PrintItems(m) == Print(Python, Obj(ms))
  {
    var ks, parts := PrintedParts(Python, Obj(ms));
    CollectedKeys(m);
    assert SortedByBytes(KeysOf(m));
    assert Collected(m).Keys == ms.Keys;
    KeyOrderAgrees(ms.Keys, KeysOf(m));
    StrictlySortedUnique(ks, SortedKeys(ms.Keys));
    forall i | 0 <= i < |m|
      ensures Members(m)[i] == parts[i]
    {
      CollectedAt(m, i);
      assert KeysOf(m)[i] == ks[i];
    }
    assert Members(m) == parts;
  }

  // ---- the canonical body ----

  /** What is pushed for a field. */
  function FieldText(nfc: Normalizer, h: PinHeader, f: Field): Text {
    match f
    case Version => Decimal(h.v)
    case Kid => Quote(Python, nfc(h.kid))
    case Model => Quote(Python, nfc(h.model))
    case ModelHash => if h.modelHash.Some? then Quote(Python, h.modelHash.value) else []
    case SourceHash => Quote(Python, h.sourceHash)
    case VecHash => Quote(Python, h.vecHash)
    case VecDtype => Quote(Python, h.vecDtype)
    case VecDim => Decimal(h.vecDim)
    case Ts => Quote(Python, nfc(h.ts))
    case Extra => Print(Python, StrMap(NfcExtra(nfc, h.extra)))
    case Sig => []
  }

  function Texts(nfc: Normalizer, h: PinHeader, done: set<Field>): (r: map<Text, Text>)
    ensures forall k :: k in r <==> exists f :: f in done && Name(f) == k
    ensures forall f :: f in done ==> r[Name(f)] == FieldText(nfc, h, f)
  {
    NamesDistinct();
    map f | f in done :: Name(f) := FieldText(nfc, h, f)
  }

  lemma TextsGrow(nfc: Normalizer, h: PinHeader, done: set<Field>, f: Field)
    ensures Texts(nfc, h, done + {f}) == Texts(nfc, h, done)[Name(f) := FieldText(nfc, h, f)]
  {
    NamesDistinct();
  }

  /** What `entries.push((name, value))` adds for a field. */
  function FieldEntry(nfc: Normalizer, h: PinHeader, f: Field): (Text, Text) {
    (Name(f), FieldText(nfc, h, f))
  }

  /** The pushed entries of a list of fields. */
  function EntriesFor(nfc: Normalizer, h: PinHeader, fs: seq<Field>): (r: Items)
    ensures |r| == |fs| && forall i :: 0 <= i < |fs| ==> r[i] == FieldEntry(nfc, h, fs[i])
  {
    seq(|fs|, i requires 0 <= i < |fs| => FieldEntry(nfc, h, fs[i]))
  }

  lemma EntriesConcat(nfc: Normalizer, h: PinHeader, a: seq<Field>, b: seq<Field>)
    ensures EntriesFor(nfc, h, a + b) == EntriesFor(nfc, h, a) + EntriesFor(nfc, h, b)
  {
  }

  lemma EntriesSnoc(nfc: Normalizer, h: PinHeader, fs: seq<Field>)
    requires fs != []
    ensures EntriesFor(nfc, h, fs) == EntriesFor(nfc, h, fs[..|fs| - 1]) + [FieldEntry(nfc, h, fs[|fs| - 1])]
  {
  }

  lemma ElementsSnoc<T(!new)>(s: seq<T>)
    requires s != []
    ensures Elements(s) == Elements(s[..|s| - 1]) + {s[|s| - 1]}
  {
  }

  lemma {:induction false} EntriesCollect(nfc: Normalizer, h: PinHeader, fs: seq<Field>)
    ensures Collected(EntriesFor(nfc, h, fs)) == Texts(nfc, h, Elements(fs))
  {
    if fs == [] {
      assert EntriesFor(nfc, h, fs) == [];
    } else {
      var front, p := fs[..|fs| - 1], FieldEntry(nfc, h, fs[|fs| - 1]);
      EntriesCollect(nfc, h, front);
      EntriesSnoc(nfc, h, fs);
      CollectedSnoc(EntriesFor(nfc, h, front), p.0, p.1);
      ElementsSnoc(fs);
      TextsGrow(nfc, h, Elements(front), fs[|fs| - 1]);
    }
  }

  lemma FieldTextPrints(nfc: Normalizer, h: PinHeader, f: Field)
    requires Present(Normalized(nfc, h), f)
    ensures FieldText(nfc, h, f) == Print(Python, FieldValue(Normalized(nfc, h), f))
  {
  }

  lemma TextsAreThePrinted(nfc: Normalizer, h: PinHeader, done: set<Field>)
    requires forall f: Field :: f in done <==> Present(Normalized(nfc, h), f)
    ensures var ms := ObjectOf(HeaderFields(Normalized(nfc, h)));
            Texts(nfc, h, done) == map k | k in ms :: Print(Python, ms[k])
  {
    var m := HeaderFields(Normalized(nfc, h));
    var ms := ObjectOf(m);
    forall k
      ensures k in Texts(nfc, h, done) <==> k in ms
      ensures k in ms ==> Texts(nfc, h, done)[k] == Print(Python, ms[k])
    {
      if k in ms {
        var f :| f in m && Name(f) == k;
        FieldTextPrints(nfc, h, f);
      }
    }
  }

  /** NFC on every key and value, in the order given. */
  function NfcPairs(nfc: Normalizer, extra: Items): (r: Items)
    ensures |r| == |extra|
  {
    if extra == [] then []
    else NfcPairs(nfc, extra[..|extra| - 1]) + [(nfc(extra[|extra| - 1].0), Quote(Python, nfc(extra[|extra| - 1].1)))]
  }

  /** The `BTreeMap` that holds `extra` iterates in byte order. */
  ghost predicate Holds(btree: Items, extra: map<Text, Text>) {
    IsSortedMap(btree) && Collected(btree) == extra
  }

  function QuotedValues(m: map<Text, Text>): map<Text, Text> {
    map k | k in m :: Quote(Python, m[k])
  }

  lemma QuotedPut(m: map<Text, Text>, k: Text, v: Text)
    ensures QuotedValues(m[k := v]) == QuotedValues(m)[k := Quote(Python, v)]
  {
  }

  lemma NfcItemsLast(nfc: Normalizer, btree: Items, extra: map<Text, Text>)
    requires btree != [] && forall k :: k in KeysOf(btree) ==> k in extra
    ensures forall k :: k in KeysOf(btree[..|btree| - 1]) ==> k in extra
    ensures var k := btree[|btree| - 1].0;
            k in extra && NfcItems(nfc, extra, KeysOf(btree))
                          == NfcItems(nfc, extra, KeysOf(btree[..|btree| - 1]))[nfc(k) := nfc(extra[k])]
  {
    var front := btree[..|btree| - 1];
    assert KeysOf(btree)[..|btree| - 1] == KeysOf(front);
    assert forall k :: k in KeysOf(front) ==> k in KeysOf(btree);
    assert KeysOf(btree)[|btree| - 1] in KeysOf(btree);
  }

  lemma {:induction false} NfcPairsCollect(nfc: Normalizer, btree: Items, extra: map<Text, Text>)
    requires forall i :: 0 <= i < |btree| ==> btree[i].0 in extra && extra[btree[i].0] == btree[i].1
    requires forall k :: k in KeysOf(btree) ==> k in extra
    ensures Collected(NfcPairs(nfc, btree)) == QuotedValues(NfcItems(nfc, extra, KeysOf(btree)))
  {
    if btree != [] {
      var front, last := btree[..|btree| - 1], btree[|btree| - 1];
      NfcItemsLast(nfc, btree, extra);
      NfcPairsCollect(nfc, front, extra);
      CollectedSnoc(NfcPairs(nfc, front), nfc(last.0), Quote(Python, nfc(last.1)));
      QuotedPut(NfcItems(nfc, extra, KeysOf(front)), nfc(last.0), nfc(last.1));
    }
  }

  lemma NfcPairsOfTree(nfc: Normalizer, btree: Items, extra: map<Text, Text>)
    requires Holds(btree, extra)
    ensures Collected(NfcPairs(nfc, btree)) == QuotedValues(NfcExtra(nfc, extra))
  {
    CollectedKeys(btree);
    assert SortedByBytes(KeysOf(btree));
    KeyOrderAgrees(extra.Keys, KeysOf(btree));
    forall i | 0 <= i < |btree|
      ensures btree[i].0 in extra && extra[btree[i].0] == btree[i].1
    {
      CollectedAt(btree, i);
    }
    forall k | k in KeysOf(btree)
      ensures k in extra
    {
      assert k in Elements(KeysOf(btree));
    }
    NfcPairsCollect(nfc, btree, extra);
  }

  /** `extra`, normalized, sorted again, inserted and printed. */
  method ExtraText(nfc: Normalizer, btree: Items, ghost extra: map<Text, Text>) returns (t: Text)
    requires Holds(btree, extra)
    ensures t == Print(Python, StrMap(NfcExtra(nfc, extra)))
  {
    var m := SortAndInsert(NfcPairs(nfc, btree));
    NfcPairsOfTree(nfc, btree, extra);
    ghost var e := NfcExtra(nfc, extra);
    ItemsPrintObject(m, StrMap(e).members);
    t := PrintItems(m);
  }

  lemma NfcKeepsEmptiness(nfc: Normalizer, extra: map<Text, Text>)
    ensures NfcExtra(nfc, extra) == map[] <==> extra == map[]
  {
    var ks := SortedKeys(extra.Keys);
    assert forall k :: k in ks <==> k in Elements(ks);
    if extra == map[] {
      assert extra.Keys == {};
    } else {
      var k :| k in extra;
      assert k in ks;
      assert nfc(ks[|ks| - 1]) in NfcExtra(nfc, extra);
    }
  }

  lemma TreeEmptiness(nfc: Normalizer, h: PinHeader, btree: Items)
    requires Holds(btree, h.extra)
    ensures |btree| > 0 <==> Present(Normalized(nfc, h), Extra)
    ensures forall f: Field :: f != Extra ==> (Present(Normalized(nfc, h), f) <==> Present(h, f))
  {
    NfcKeepsEmptiness(nfc, h.extra);
    if |btree| > 0 {
      assert btree[|btree| - 1].0 in Collected(btree);
    }
  }

  /** The fields in the order in which the source pushes them. */
  function PushOrder(h: PinHeader, hasExtra: bool): seq<Field> {
    [Version, Kid, Model] + (if h.modelHash.Some? then [ModelHash] else [])
    + [SourceHash, VecHash, VecDtype, VecDim, Ts] + (if hasExtra then [Extra] else [])
  }

  lemma PushOrderIsPresent(nfc: Normalizer, h: PinHeader, btree: Items)
    requires Holds(btree, h.extra)
    ensures forall f: Field :: f in PushOrder(h, |btree| > 0) <==> Present(Normalized(nfc, h), f)
  {
    TreeEmptiness(nfc, h, btree);
  }

  /** The pushes of `canonical_json_body`. */
  method PushFields(nfc: Normalizer, h: PinHeader, btree: Items) returns (entries: Items)
    requires Holds(btree, h.extra)
    ensures entries == EntriesFor(nfc, h, PushOrder(h, |btree| > 0))
  {
    entries := EntriesFor(nfc, h, [Version, Kid, Model]);
    ghost var pushed: seq<Field> := [Version, Kid, Model];
    if h.modelHash.Some? {
      entries := entries + EntriesFor(nfc, h, [ModelHash]);
      EntriesConcat(nfc, h, pushed, [ModelHash]);
      pushed := pushed + [ModelHash];
    } else {
      assert pushed + [] == pushed;
    }
    entries := entries + EntriesFor(nfc, h, [SourceHash, VecHash, VecDtype, VecDim, Ts]);
    EntriesConcat(nfc, h, pushed, [SourceHash, VecHash, VecDtype, VecDim, Ts]);
    pushed := pushed + [SourceHash, VecHash, VecDtype, VecDim, Ts];
    if |btree| > 0 {
      var text := ExtraText(nfc, btree, h.extra);
      entries := entries + [(Name(Extra), text)];
      EntriesConcat(nfc, h, pushed, [Extra]);
      assert EntriesFor(nfc, h, [Extra]) == [FieldEntry(nfc, h, Extra)];
    } else {
      assert pushed + [] == pushed;
    }
  }

  lemma EntriesAreTheObject(nfc: Normalizer, h: PinHeader, btree: Items)
    requires Holds(btree, h.extra)
    ensures var ms := ObjectOf(HeaderFields(Normalized(nfc, h)));
            Collected(EntriesFor(nfc, h, PushOrder(h, |btree| > 0))) == map k | k in ms :: Print(Python, ms[k])
  {
    var fs := PushOrder(h, |btree| > 0);
    EntriesCollect(nfc, h, fs);
    PushOrderIsPresent(nfc, h, btree);
    assert forall f: Field :: f in Elements(fs) <==> f in fs;
    TextsAreThePrinted(nfc, h, Elements(fs));
  }

  /** `canonical_json_body`, with `h.extra` held in a `BTreeMap`. It prints the same JSON as the Python
      port for every header. */
  method CanonicalBody(nfc: Normalizer, h: PinHeader, btree: Items) returns (body: Text)
    requires Holds(btree, h.extra)
    ensures body == Print(Python, Obj(ObjectOf(HeaderFields(Normalized(nfc, h)))))
  {
    var entries := PushFields(nfc, h, btree);
    var m := SortAndInsert(entries);
    EntriesAreTheObject(nfc, h, btree);
    ItemsPrintObject(m, ObjectOf(HeaderFields(Normalized(nfc, h))));
    body := PrintItems(m);
  }
}
