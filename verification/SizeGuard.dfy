/** The total-size guard of the Python dict parser refuses nothing that the rules for the single fields accept. */
module SizeGuard {
  import opened Common
  import opened Utf
  import opened JsonText
  import opened Hashing
  import opened Attestation

  /** No field but `extra` has more code points, key included. */
  const MAX_FIELD: nat := 1035

  /** No `extra` entry has more code points. */
  const MAX_ENTRY: nat := MAX_EXTRA_KEY_BYTES + MAX_EXTRA_VALUE_BYTES

  lemma {:induction false} SumBound(s: set<Text>, w: Text -> nat, bound: nat)
    requires forall k :: k in s ==> w(k) <= bound
    ensures SumOver(s, w) <= |s| * bound
    decreases |s|
  {
    if s != {} {
      var k := Least(s);
      SumBound(s - {k}, w, bound);
      assert |s| == |s - {k}| + 1;
      assert |s| * bound == |s - {k}| * bound + bound;
    }
  }

  lemma {:induction false} SubsetOfList(s: set<Text>, ks: seq<Text>)
    requires forall k :: k in s ==> k in ks
    ensures |s| <= |ks|
    decreases |ks|
  {
    if ks == [] {
      assert s == {};
    } else {
      var t := s - {ks[0]};
      assert ks == [ks[0]] + ks[1..];
      SubsetOfList(t, ks[1..]);
      assert s <= t + {ks[0]};
      SmallerSet(s, t, ks[0]);
    }
  }

  lemma SmallerSet(s: set<Text>, t: set<Text>, k: Text)
    requires t == s - {k}
    ensures |s| <= |t| + 1
  {
    if k in s {
      assert s == t + {k};
    } else {
      assert s == t;
    }
  }

  function FieldList(): (ks: seq<Text>)
    ensures |ks| == 11
  {
    [Name(Version), Name(Kid), Name(Model), Name(ModelHash), Name(SourceHash), Name(VecHash), Name(VecDtype),
     Name(VecDim), Name(Ts), Name(Extra), Name(Sig)]
  }

  lemma FewFields(ms: map<Text, Json>)
    requires OnlyKnownFields(ms)
    ensures |ms.Keys| <= 11
  {
    forall k | k in ms.Keys
      ensures k in FieldList()
    {
      var f: Field :| Name(f) == k;
      IsListed(f);
    }
    SubsetOfList(ms.Keys, FieldList());
  }

  lemma IsListed(f: Field)
    ensures Name(f) in FieldList()
  {
    var i := match f
      case Version => 0 case Kid => 1 case Model => 2 case ModelHash => 3 case SourceHash => 4 case VecHash => 5
      case VecDtype => 6 case VecDim => 7 case Ts => 8 case Extra => 9 case Sig => 10;
    assert FieldList()[i] == Name(f);
  }

  /** What the size of a field depends on. */
  lemma SmallString(m: map<Field, Json>, f: Field, limit: nat)
    requires f in m && StrField(m, f).Some? && |StrField(m, f).value| <= limit
    ensures ValueSize(m[f]) <= limit
  {
  }

  lemma SmallNamed(nfc: Normalizer, m: map<Field, Json>, f: Field, limit: nat, strict: bool)
    requires NamedStringOk(nfc, m, f, limit, strict)
    ensures ValueSize(m[f]) <= limit
  {
    SmallString(m, f, limit);
  }

  lemma SmallHashes(m: map<Field, Json>)
    requires HashesOk(m)
    ensures ValueSize(m[SourceHash]) <= 72 && ValueSize(m[VecHash]) <= 72
    ensures ModelHash in m ==> ValueSize(m[ModelHash]) <= 72
  {
    SmallString(m, SourceHash, 72);
    SmallString(m, VecHash, 72);
    if ModelHash in m && m[ModelHash].Str? {
      SmallString(m, ModelHash, 72);
    }
  }

  lemma SmallTs(nfc: Normalizer, m: map<Field, Json>, strict: bool)
    requires StrField(m, Ts).Some? && TsOk(nfc, StrField(m, Ts).value, strict)
    ensures ValueSize(m[Ts]) <= MAX_MODEL_BYTES
  {
    SmallString(m, Ts, MAX_MODEL_BYTES);
  }

  lemma SmallValue(nfc: Normalizer, m: map<Field, Json>, acceptV1: bool, p: Pin, f: Field)
    requires Read(nfc, m, acceptV1, p) && f in m && f != Extra
    ensures ValueSize(m[f]) <= 1024
  {
    var strict := p.header.v == 2;
    match f
    case Version => assert m[f].Num?;
    case VecDim => assert m[f].Num?;
    case Kid => SmallNamed(nfc, m, Kid, MAX_KID_BYTES, strict);
    case Model => SmallNamed(nfc, m, Model, MAX_MODEL_BYTES, strict);
    case ModelHash => SmallHashes(m);
    case SourceHash => SmallHashes(m);
    case VecHash => SmallHashes(m);
    case VecDtype => SmallString(m, f, 3);
    case Ts => SmallTs(nfc, m, strict);
    case Sig => SmallString(m, f, 4 * SIG_LEN);
  }

  lemma SmallEntry(nfc: Normalizer, m: map<Field, Json>, strict: bool, k: Text)
    requires Extra in m && ExtraOf(nfc, m, strict).Some? && k in m[Extra].members
    ensures EntrySize(m[Extra].members)(k) <= MAX_ENTRY
  {
    assert EntryOk(nfc, k, m[Extra].members[k], strict);
  }

  lemma SmallExtra(nfc: Normalizer, m: map<Field, Json>, strict: bool)
    requires Extra in m && ExtraOf(nfc, m, strict).Some?
    ensures ValueSize(m[Extra]) <= MAX_EXTRA_ENTRIES * MAX_ENTRY
  {
    forall k | k in m[Extra].members
      ensures EntrySize(m[Extra].members)(k) <= MAX_ENTRY
    {
      SmallEntry(nfc, m, strict, k);
    }
    EntriesBound(m[Extra].members);
  }

  lemma EntriesBound(raw: map<Text, Json>)
    requires |raw| <= MAX_EXTRA_ENTRIES && forall k :: k in raw ==> EntrySize(raw)(k) <= MAX_ENTRY
    ensures ValueSize(Obj(raw)) <= MAX_EXTRA_ENTRIES * MAX_ENTRY
  {
    SumBound(raw.Keys, EntrySize(raw), MAX_ENTRY);
    assert |raw.Keys| == |raw|;
  }

  lemma SmallField(nfc: Normalizer, ms: map<Text, Json>, acceptV1: bool, p: Pin, k: Text)
    requires Read(nfc, FieldsOf(ms), acceptV1, p) && OnlyKnownFields(ms) && k in ms && k != Name(Extra)
    ensures FieldSize(ms)(k) <= MAX_FIELD
  {
    var f: Field :| Name(f) == k;
    SmallValue(nfc, FieldsOf(ms), acceptV1, p, f);
    SmallSum(ms, f);
  }

  lemma SmallSum(ms: map<Text, Json>, f: Field)
    requires Name(f) in ms && ValueSize(FieldsOf(ms)[f]) <= 1024
    ensures FieldSize(ms)(Name(f)) <= MAX_FIELD
  {
    FieldSizeIs(ms, f);
    ShortName(f);
  }

  lemma ShortName(f: Field)
    ensures |Name(f)| <= 11
  {
    NameKeyIs(f);
  }

  lemma FieldSizeIs(ms: map<Text, Json>, f: Field)
    requires Name(f) in ms
    ensures FieldSize(ms)(Name(f)) == |Name(f)| + ValueSize(FieldsOf(ms)[f])
  {
  }

  lemma TotalBound(s: set<Text>, w: Text -> nat, x: Text, big: nat)
    requires |s| <= 11 && (x in s ==> w(x) <= big) && forall k :: k in s && k != x ==> w(k) <= MAX_FIELD
    ensures SumOver(s, w) <= big + 11 * MAX_FIELD
  {
    var others := s - {x};
    SumBound(others, w, MAX_FIELD);
    if x in s {
      SumSplit(s, w, x);
      SmallerSet(s, others, x);
      assert s == others + {x};
    } else {
      assert others == s;
    }
  }

  lemma ExtraField(nfc: Normalizer, ms: map<Text, Json>, strict: bool)
    requires Name(Extra) in ms && ExtraOf(nfc, FieldsOf(ms), strict).Some?
    ensures FieldSize(ms)(Name(Extra)) <= 5 + MAX_EXTRA_ENTRIES * MAX_ENTRY
  {
    SmallExtra(nfc, FieldsOf(ms), strict);
    NameKeyIs(Extra);
    FieldSizeIs(ms, Extra);
  }

  /** What the fields accept is within the guard. */
  lemma AcceptedIsSmall(nfc: Normalizer, ms: map<Text, Json>, acceptV1: bool, p: Pin)
    requires Read(nfc, FieldsOf(ms), acceptV1, p) && OnlyKnownFields(ms)
    ensures DictSize(ms) <= MAX_PIN_JSON_BYTES
  {
    FewFields(ms);
    forall k | k in ms.Keys && k != Name(Extra)
      ensures FieldSize(ms)(k) <= MAX_FIELD
    {
      SmallField(nfc, ms, acceptV1, p, k);
    }
    if Name(Extra) in ms {
      ExtraField(nfc, ms, p.header.v == 2);
    }
    TotalBound(ms.Keys, FieldSize(ms), Name(Extra), 5 + MAX_EXTRA_ENTRIES * MAX_ENTRY);
  }

  /** The guard decides nothing: a dict it refuses has a field that is refused, too. */
  lemma GuardDecidesNothing(nfc: Normalizer, d: Json, acceptV1: bool)
    ensures FromDict(nfc, d, acceptV1)
         == if d.Obj? && OnlyKnownFields(d.members) then FromFields(nfc, FieldsOf(d.members), acceptV1) else None
  {
    if d.Obj? && OnlyKnownFields(d.members) {
      var r := FromFields(nfc, FieldsOf(d.members), acceptV1);
      if r.Some? {
        ParsedIffRead(nfc, FieldsOf(d.members), acceptV1, r.value);
        AcceptedIsSmall(nfc, d.members, acceptV1, r.value);
      }
    }
  }

  /** A pin survives printing and parsing exactly when it meets the wire-format rules. */
  lemma ParsesBackIff(nfc: Normalizer, p: Pin, acceptV1: bool)
    ensures FromDict(nfc, ToDict(p), acceptV1) == Some(p) <==> MeetsRules(nfc, p, acceptV1)
  {
    FieldsOfObject(PinFields(p));
    GuardDecidesNothing(nfc, ToDict(p), acceptV1);
    FieldsParseIff(nfc, p, acceptV1);
  }
}
