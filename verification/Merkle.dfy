/** The Merkle root over (record id, vector hash) pairs of a collection manifest. */
module Merkle {
  import opened Common
  import opened Utf
  import opened Hashing

  datatype Entry = Entry(id: Text, vecHash: Text)

  datatype MerkleError = DuplicateId | NotEncodable

  // ---- sorting by record id ----

  function InsertById(e: Entry, s: seq<Entry>): (r: seq<Entry>)
    ensures multiset(r) == multiset{e} + multiset(s)
  {
    if s == [] then [e]
    else if LexLess(s[0].id, e.id) then
      assert s == [s[0]] + s[1..];
      [s[0]] + InsertById(e, s[1..])
    else [e] + s
  }

  /** `sorted(entries, key=lambda e: e[0])`: stable, by code point. */
  function SortById(s: seq<Entry>): (r: seq<Entry>)
    ensures multiset(r) == multiset(s)
  {
    if s == [] then []
    else
      assert s == [s[0]] + s[1..];
      InsertById(s[0], SortById(s[1..]))
  }

  ghost predicate SortedById(s: seq<Entry>) {
    forall i, j :: 0 <= i < j < |s| ==> !LexLess(s[j].id, s[i].id)
  }

  lemma {:induction false} InsertKeepsSorted(e: Entry, s: seq<Entry>)
    requires SortedById(s)
    ensures SortedById(InsertById(e, s))
  {
    var r := InsertById(e, s);
    if s != [] && LexLess(s[0].id, e.id) {
      InsertKeepsSorted(e, s[1..]);
      forall j | 1 <= j < |r|
        ensures !LexLess(r[j].id, r[0].id)
      {
        assert r[j] in multiset(r[1..]);
        assert r[j] == e || r[j] in s[1..];
        LexAsymmetric(s[0].id, e.id);
      }
    } else if s != [] {
      forall j | 1 <= j < |r|
        ensures !LexLess(r[j].id, e.id)
      {
        if j > 1 && LexLess(s[j - 1].id, e.id) {
          LexTotal(s[0].id, e.id);
          if s[0].id != e.id {
            LexTransitive(s[j - 1].id, e.id, s[0].id);
          }
        }
      }
    }
  }

  lemma {:induction false} SortSorts(s: seq<Entry>)
    ensures SortedById(SortById(s))
  {
    if s != [] {
      SortSorts(s[1..]);
      InsertKeepsSorted(s[0], SortById(s[1..]));
    }
  }

  ghost predicate UniqueIds(s: seq<Entry>) {
    forall i, j :: 0 <= i < j < |s| ==> s[i].id != s[j].id
  }

  ghost function IdSet(s: seq<Entry>): set<Text> {
    set e | e in s :: e.id
  }

  lemma {:induction false} UniqueByCount(s: seq<Entry>)
    ensures |IdSet(s)| <= |s|
    ensures UniqueIds(s) <==> |IdSet(s)| == |s|
  {
    if s == [] {
      assert IdSet(s) == {};
    } else {
      UniqueByCount(s[1..]);
      IdSetHead(s);
      UniqueHead(s);
    }
  }

  lemma IdSetHead(s: seq<Entry>)
    requires s != []
    ensures IdSet(s) == {s[0].id} + IdSet(s[1..])
  {
    assert forall e :: e in s <==> e == s[0] || e in s[1..];
    assert s[0] in s;
  }

  lemma UniqueHead(s: seq<Entry>)
    requires s != []
    ensures UniqueIds(s) <==> UniqueIds(s[1..]) && s[0].id !in IdSet(s[1..])
  {
    var rest := s[1..];
    assert forall i :: 0 <= i < |rest| ==> rest[i] == s[i + 1] && rest[i].id in IdSet(rest);
    assert forall j :: 1 <= j < |s| ==> s[j] == rest[j - 1];
    if s[0].id in IdSet(rest) {
      var e :| e in rest && e.id == s[0].id;
      var k :| 0 <= k < |rest| && rest[k] == e;
      assert s[k + 1].id == s[0].id;
    }
  }

  /** Whether ids repeat does not depend on the order the walk yields the records in. */
  lemma UniqueIdsPermutation(a: seq<Entry>, b: seq<Entry>)
    requires multiset(a) == multiset(b)
    ensures UniqueIds(a) <==> UniqueIds(b)
  {
    UniqueByCount(a);
    UniqueByCount(b);
    assert |a| == |multiset(a)| == |b|;
    assert forall e :: e in a <==> e in multiset(a);
    assert forall e :: e in b <==> e in multiset(b);
    assert IdSet(a) == IdSet(b);
  }

  ghost predicate AdjacentIdsDiffer(s: seq<Entry>) {
    forall i :: 1 <= i < |s| ==> s[i].id != s[i - 1].id
  }

  /** On a sorted list the adjacent check finds every repeated id. */
  lemma AdjacentCheckIsUniqueness(s: seq<Entry>)
    requires SortedById(s)
    ensures AdjacentIdsDiffer(s) <==> UniqueIds(s)
  {
    if AdjacentIdsDiffer(s) {
      forall i, j | 0 <= i < j < |s|
        ensures s[i].id != s[j].id
      {
        LexTotal(s[i].id, s[i + 1].id);
        if j > i + 1 {
          assert !LexLess(s[j].id, s[i + 1].id);
        }
      }
    }
  }

  function Ids(s: seq<Entry>): (ids: seq<Text>)
    ensures |ids| == |s| && forall i :: 0 <= i < |s| ==> ids[i] == s[i].id
  {
    seq(|s|, i requires 0 <= i < |s| => s[i].id)
  }

  /** Two duplicate-free listings of one set of entries sort to the same list. */
  lemma SortDeterminedBySet(a: seq<Entry>, b: seq<Entry>)
    requires UniqueIds(a) && UniqueIds(b) && Elements(a) == Elements(b)
    ensures SortById(a) == SortById(b)
  {
    SortedUniqueIsStrict(a);
    SortedUniqueIsStrict(b);
    SameElements(a);
    SameElements(b);
    StrictListsAgree(SortById(a), SortById(b));
  }

  lemma StrictListsAgree(x: seq<Entry>, y: seq<Entry>)
    requires StrictlySorted(Ids(x)) && StrictlySorted(Ids(y)) && Elements(x) == Elements(y)
    ensures x == y
  {
    SubsetIds(x, y);
    SubsetIds(y, x);
    StrictlySortedUnique(Ids(x), Ids(y));
    forall i | 0 <= i < |x|
      ensures x[i] == y[i]
    {
      assert x[i] in Elements(y);
      var j :| 0 <= j < |y| && y[j] == x[i];
      assert Ids(x)[i] == Ids(y)[i] && Ids(y)[j] == Ids(y)[i];
      LexIrreflexive(Ids(y)[i]);
      assert j == i;
    }
  }

  lemma SubsetIds(x: seq<Entry>, y: seq<Entry>)
    requires Elements(x) <= Elements(y)
    ensures Elements(Ids(x)) <= Elements(Ids(y))
  {
    forall k | k in Elements(Ids(x))
      ensures k in Elements(Ids(y))
    {
      var i :| 0 <= i < |x| && Ids(x)[i] == k;
      assert x[i] in Elements(x);
      var j :| 0 <= j < |y| && y[j] == x[i];
      assert Ids(y)[j] == k;
    }
  }

  lemma SameElements(s: seq<Entry>)
    ensures Elements(SortById(s)) == Elements(s)
  {
    assert forall e :: e in s <==> e in multiset(s);
    assert forall e :: e in SortById(s) <==> e in multiset(SortById(s));
  }

  lemma SortedUniqueIsStrict(s: seq<Entry>)
    requires UniqueIds(s)
    ensures UniqueIds(SortById(s)) && StrictlySorted(Ids(SortById(s)))
    ensures |SortById(s)| == |s|
  {
    var r := SortById(s);
    SortSorts(s);
    UniqueIdsPermutation(s, r);
    assert |multiset(r)| == |multiset(s)|;
    forall i, j | 0 <= i < j < |r|
      ensures LexLess(Ids(r)[i], Ids(r)[j])
    {
      LexTotal(r[i].id, r[j].id);
    }
  }

  // ---- leaves and levels ----

  ghost predicate Encodable(e: Entry) {
    SurrogateFree(e.id) && SurrogateFree(e.vecHash)
  }

  /** The bytes hashed for one record: prefix 0, id, NUL, vector hash. */
  function LeafInput(e: Entry): Bytes {
    [0] + Utf8Raw(e.id) + [0] + Utf8Raw(e.vecHash)
  }

  /** The bytes hashed for an interior node: prefix 1 and the two child digests. */
  function NodeInput(l: Bytes, r: Bytes): Bytes {
    [1] + l + r
  }

  function Leaves(sha: Hash, items: seq<Entry>): (level: seq<Bytes>)
    ensures |level| == |items|
    ensures forall i :: 0 <= i < |items| ==> level[i] == sha(LeafInput(items[i]))
  {
    seq(|items|, i requires 0 <= i < |items| => sha(LeafInput(items[i])))
  }

  /** An odd level duplicates its last node. */
  function Padded(level: seq<Bytes>): (p: seq<Bytes>)
    requires level != []
    ensures |p| % 2 == 0 && |p| == (|level| + 1) / 2 * 2
    ensures forall i :: 0 <= i < |level| ==> p[i] == level[i]
    ensures |level| % 2 == 1 ==> p[|p| - 1] == level[|level| - 1]
  {
    if |level| % 2 == 1 then level + [level[|level| - 1]] else level
  }

  /** The level above: one digest per pair of the padded level. */
  function Parents(sha: Hash, level: seq<Bytes>): (up: seq<Bytes>)
    requires level != []
    ensures |up| == (|level| + 1) / 2
  {
    if |level| <= 2 then [sha(NodeInput(level[0], level[|level| - 1]))]
    else [sha(NodeInput(level[0], level[1]))] + Parents(sha, level[2..])
  }

  lemma {:induction false} ParentAt(sha: Hash, level: seq<Bytes>, i: nat)
    requires level != [] && i < (|level| + 1) / 2
    ensures Parents(sha, level)[i] == sha(NodeInput(Padded(level)[2 * i], Padded(level)[2 * i + 1]))
  {
    if i > 0 {
      ParentAt(sha, level[2..], i - 1);
      PaddedTail(level, i);
      assert Parents(sha, level)[i] == Parents(sha, level[2..])[i - 1];
    }
  }

  lemma PaddedTail(level: seq<Bytes>, i: nat)
    requires |level| > 2 && 0 < i < (|level| + 1) / 2
    ensures Padded(level[2..])[2 * (i - 1)] == Padded(level)[2 * i]
    ensures Padded(level[2..])[2 * (i - 1) + 1] == Padded(level)[2 * i + 1]
  {
    assert Padded(level[2..]) == Padded(level)[2..];
  }

  /** What the level loop computes. Each pass strictly shrinks a level of two or more. */
  function LevelRoot(sha: Hash, level: seq<Bytes>): Bytes
    requires level != []
    decreases |level|
  {
    if |level| == 1 then level[0] else LevelRoot(sha, Parents(sha, level))
  }

  /** `merkle_root`, as a function of the entries. */
  ghost function MerkleRootOf(sha: Hash, entries: seq<Entry>): Result<Text, MerkleError>
  {
    var items := SortById(entries);
    if !UniqueIds(entries) then Err(DuplicateId)
    else if items == [] then Ok(HashBytes(sha, []))
    else if exists i :: 0 <= i < |items| && !Encodable(items[i]) then Err(NotEncodable)
    else Ok(Prefixed(LevelRoot(sha, Leaves(sha, items))))
  }

  /** Which collections have a root: those without a repeated id whose strings have a UTF-8 form. */
  lemma RootDefinedIff(sha: Hash, entries: seq<Entry>)
    ensures MerkleRootOf(sha, entries) == Err(DuplicateId) <==>
              exists i, j :: 0 <= i < j < |entries| && entries[i].id == entries[j].id
    ensures MerkleRootOf(sha, entries).Ok? <==>
              && (forall i, j :: 0 <= i < j < |entries| ==> entries[i].id != entries[j].id)
              && forall i :: 0 <= i < |entries| ==> SurrogateFree(entries[i].id) && SurrogateFree(entries[i].vecHash)
  {
    SortSorts(entries);
    var items := SortById(entries);
    forall e: Entry
      ensures e in items <==> e in entries
    {
      assert e in items <==> e in multiset(items);
      assert e in entries <==> e in multiset(entries);
    }
    assert (exists i :: 0 <= i < |items| && !Encodable(items[i])) <==>
           exists i :: 0 <= i < |entries| && !Encodable(entries[i]) by {
      SomeUnencodable(items, entries);
      SomeUnencodable(entries, items);
    }
  }

  lemma SomeUnencodable(a: seq<Entry>, b: seq<Entry>)
    requires forall e: Entry :: e in a ==> e in b
    ensures (exists i :: 0 <= i < |a| && !Encodable(a[i])) ==> exists i :: 0 <= i < |b| && !Encodable(b[i])
  {
    if exists i :: 0 <= i < |a| && !Encodable(a[i]) {
      var i :| 0 <= i < |a| && !Encodable(a[i]);
      assert a[i] in b;
      var j :| 0 <= j < |b| && b[j] == a[i];
    }
  }

  /** `merkle_root` as the source runs it: an adjacent-id check over the sorted list, the
      leaf list, then a loop that pads and halves the level until one digest is left. */
  method MerkleRoot(sha: Hash, entries: seq<Entry>) returns (r: Result<Text, MerkleError>)
    ensures r == MerkleRootOf(sha, entries)
    ensures r.Ok? ==> Spells(r.value, TreeDigest(sha, SortById(entries)))
  {
    RootSpells(sha, entries);
    var items := SortById(entries);
    SortSorts(entries);
    AdjacentCheckIsUniqueness(items);
    UniqueIdsPermutation(entries, items);
    var i := 1;
    while i < |items|
      invariant 1 <= i && (i <= |items| || items == [])
      invariant forall k :: 1 <= k < i && k < |items| ==> items[k].id != items[k - 1].id
    {
      if items[i].id == items[i - 1].id {
        return Err(DuplicateId);
      }
      i := i + 1;
    }
    if items == [] {
      return Ok(HashBytes(sha, []));
    }
    var leaves := BuildLeaves(sha, items);
    if leaves.None? {
      return Err(NotEncodable);
    }
    var root := ReduceLevels(sha, leaves.value);
    return Ok(Prefixed(root));
  }

  method BuildLeaves(sha: Hash, items: seq<Entry>) returns (r: Option<seq<Bytes>>)
    ensures r == if exists i :: 0 <= i < |items| && !Encodable(items[i]) then None else Some(Leaves(sha, items))
  {
    var level: seq<Bytes> := [];
    var i := 0;
    while i < |items|
      invariant 0 <= i <= |items| && level == Leaves(sha, items[..i])
      invariant forall k :: 0 <= k < i ==> Encodable(items[k])
    {
      var encodes := CanEncode(items[i]);
      if !encodes {
        return None;
      }
      level := level + [sha(LeafInput(items[i]))];
      i := i + 1;
    }
    assert items[..i] == items;
    return Some(level);
  }

  method ReduceLevels(sha: Hash, leaves: seq<Bytes>) returns (root: Bytes)
    requires leaves != []
    ensures root == LevelRoot(sha, leaves)
  {
    var level := leaves;
    while |level| > 1
      invariant level != [] && LevelRoot(sha, level) == LevelRoot(sha, leaves)
      decreases |level|
    {
      ghost var before := level;
      if |level| % 2 == 1 {
        level := level + [level[|level| - 1]];
      }
      assert level == Padded(before);
      level := seq(|level| / 2, k requires 0 <= k < |level| / 2 =>
        sha(NodeInput(level[2 * k], level[2 * k + 1])));
      forall k | 0 <= k < |level|
        ensures level[k] == Parents(sha, before)[k]
      {
        ParentAt(sha, before, k);
      }
      assert level == Parents(sha, before);
    }
    return level[0];
  }

  /** Whether both strings of an entry encode: the scan `str.encode` does. */
  method CanEncode(e: Entry) returns (ok: bool)
    ensures ok <==> Encodable(e)
  {
    ok := (forall i :: 0 <= i < |e.id| ==> !IsSurrogate(e.id[i]))
      && (forall i :: 0 <= i < |e.vecHash| ==> !IsSurrogate(e.vecHash[i]));
  }

  // ---- the loop computes a tree ----

  /** The tree of height `h`: split after `2^(h-1)` leaves; a missing right half is replaced
      by the left one. It covers every leaf when there are at most `2^h`. */
  function TreeRoot(sha: Hash, leaves: seq<Bytes>, h: nat): Bytes
    requires leaves != []
  {
    if h == 0 then leaves[0]
    else if |leaves| <= Pow2(h - 1) then
      var l := TreeRoot(sha, leaves, h - 1);
      sha(NodeInput(l, l))
    else
      var half := Pow2(h - 1);
      sha(NodeInput(TreeRoot(sha, leaves[..half], h - 1), TreeRoot(sha, leaves[half..], h - 1)))
  }

  /** The least height that holds `n` leaves. */
  function Height(n: nat): (h: nat)
    requires n >= 1
    ensures n <= Pow2(h) && (h > 0 ==> Pow2(h - 1) < n)
  {
    if n == 1 then 0 else 1 + Height((n + 1) / 2)
  }

  /** The digest a root must spell: of the empty string, or of the tree of least height over the sorted records. */
  function TreeDigest(sha: Hash, x: seq<Entry>): Bytes {
    if x == [] then sha([]) else TreeRoot(sha, Leaves(sha, x), Height(|x|))
  }

  lemma {:induction false} TreeIsDigest(sha: Hash, leaves: seq<Bytes>, h: nat)
    requires leaves != [] && AllDigests(leaves)
    ensures |TreeRoot(sha, leaves, h)| == 32
  {
    if h == 0 {
      assert |leaves[0]| == 32;
    }
  }

  /** The digits of a root, read as bytes, are the tree's digest. */
  lemma RootSpells(sha: Hash, entries: seq<Entry>)
    ensures MerkleRootOf(sha, entries).Ok? ==>
              Spells(MerkleRootOf(sha, entries).value, TreeDigest(sha, SortById(entries)))
  {
    var x := SortById(entries);
    if x == [] {
      HashBytesSpells(sha, []);
    } else {
      LoopIsTree(sha, Leaves(sha, x));
      TreeIsDigest(sha, Leaves(sha, x), Height(|x|));
      PrefixedSpells(TreeRoot(sha, Leaves(sha, x), Height(|x|)));
    }
  }

  /** The digest of one record's leaf string, byte by byte. */
  function LeafDigest(sha: Hash, e: Entry): Bytes {
    sha([0x00] + Utf8Raw(e.id) + [0x00] + Utf8Raw(e.vecHash))
  }

  /** The trees of one, two and three records, byte by byte. */
  lemma SmallTrees(sha: Hash, a: Entry, b: Entry, c: Entry)
    ensures TreeDigest(sha, [a]) == LeafDigest(sha, a)
    ensures TreeDigest(sha, [a, b]) == sha([0x01] + LeafDigest(sha, a) + LeafDigest(sha, b))
    ensures TreeDigest(sha, [a, b, c])
         == sha([0x01] + sha([0x01] + LeafDigest(sha, a) + LeafDigest(sha, b))
                + sha([0x01] + LeafDigest(sha, c) + LeafDigest(sha, c)))
  {
    LoopIsTree(sha, Leaves(sha, [a]));
    LoopIsTree(sha, Leaves(sha, [a, b]));
    LoopIsTree(sha, Leaves(sha, [a, b, c]));
    TwoLeaves(sha, a, b);
    ThreeLeaves(sha, a, b, c);
  }

  lemma TwoLeaves(sha: Hash, a: Entry, b: Entry)
    ensures LevelRoot(sha, Leaves(sha, [a, b])) == sha([0x01] + LeafDigest(sha, a) + LeafDigest(sha, b))
  {
    var level := Leaves(sha, [a, b]);
    assert Parents(sha, level) == [sha(NodeInput(level[0], level[1]))];
  }

  lemma ThreeLeaves(sha: Hash, a: Entry, b: Entry, c: Entry)
    ensures LevelRoot(sha, Leaves(sha, [a, b, c]))
         == sha([0x01] + sha([0x01] + LeafDigest(sha, a) + LeafDigest(sha, b))
                + sha([0x01] + LeafDigest(sha, c) + LeafDigest(sha, c)))
  {
    var level := Leaves(sha, [a, b, c]);
    assert level[2..] == [level[2]];
    assert Parents(sha, level[2..]) == [sha(NodeInput(level[2], level[2]))];
    var up := Parents(sha, level);
    assert up == [sha(NodeInput(level[0], level[1])), sha(NodeInput(level[2], level[2]))];
    assert Parents(sha, up) == [sha(NodeInput(up[0], up[1]))];
    assert LevelRoot(sha, up) == LevelRoot(sha, Parents(sha, up)) == Parents(sha, up)[0];
    assert LevelRoot(sha, level) == LevelRoot(sha, up);
  }

  lemma {:induction false} ParentsOfSplit(sha: Hash, level: seq<Bytes>, k: nat)
    requires 0 < 2 * k < |level|
    ensures Parents(sha, level) == Parents(sha, level[..2 * k]) + Parents(sha, level[2 * k..])
  {
    if k > 1 {
      ParentsOfSplit(sha, level[2..], k - 1);
      assert level[2..][..2 * (k - 1)] == level[..2 * k][2..];
      assert level[2..][2 * (k - 1)..] == level[2 * k..];
      ParentsStep(sha, level);
      ParentsStep(sha, level[..2 * k]);
      Assoc([sha(NodeInput(level[0], level[1]))], Parents(sha, level[..2 * k][2..]), Parents(sha, level[2 * k..]));
    } else {
      ParentsStep(sha, level);
      assert Parents(sha, level[..2]) == [sha(NodeInput(level[0], level[1]))];
    }
  }

  lemma ParentsStep(sha: Hash, level: seq<Bytes>)
    requires |level| > 2
    ensures Parents(sha, level) == [sha(NodeInput(level[0], level[1]))] + Parents(sha, level[2..])
  {
  }

  /** One pass of the loop lowers the tree by one level. */
  lemma {:induction false} PassLowersTree(sha: Hash, level: seq<Bytes>, h: nat)
    requires level != []
    ensures TreeRoot(sha, level, h + 1) == TreeRoot(sha, Parents(sha, level), h)
    decreases h, 1
  {
    if h == 0 {
      PassOverPair(sha, level);
    } else if |level| <= 2 * Pow2(h - 1) {
      PassOverSmall(sha, level, h, Pow2(h - 1));
    } else {
      var q := Pow2(h - 1);
      PassOverHalves(sha, level[..2 * q], level[2 * q..], h, q);
      assert level == level[..2 * q] + level[2 * q..];
    }
  }

  lemma {:induction false} PassOverSmall(sha: Hash, level: seq<Bytes>, h: nat, q: nat)
    requires level != [] && h > 0 && q == Pow2(h - 1) && |level| <= 2 * q
    ensures TreeRoot(sha, level, h + 1) == TreeRoot(sha, Parents(sha, level), h)
    decreases h, 0
  {
    PassLowersTree(sha, level, h - 1);
  }

  lemma {:induction false} PassOverHalves(sha: Hash, left: seq<Bytes>, right: seq<Bytes>, h: nat, q: nat)
    requires h > 0 && q == Pow2(h - 1) && |left| == 2 * q && right != []
    ensures TreeRoot(sha, left + right, h + 1) == TreeRoot(sha, Parents(sha, left + right), h)
    decreases h, 0
  {
    PassLowersOne(sha, left, h);
    PassLowersOne(sha, right, h);
    JoinHalves(sha, left, right, h, q);
  }

  lemma {:induction false} PassLowersOne(sha: Hash, level: seq<Bytes>, h: nat)
    requires level != [] && h > 0
    ensures TreeRoot(sha, level, h) == TreeRoot(sha, Parents(sha, level), h - 1)
    decreases h - 1, 2
  {
    PassLowersTree(sha, level, h - 1);
  }

  lemma JoinHalves(sha: Hash, left: seq<Bytes>, right: seq<Bytes>, h: nat, q: nat)
    requires h > 0 && q == Pow2(h - 1) && |left| == 2 * q && right != []
    requires TreeRoot(sha, left, h) == TreeRoot(sha, Parents(sha, left), h - 1)
    requires TreeRoot(sha, right, h) == TreeRoot(sha, Parents(sha, right), h - 1)
    ensures TreeRoot(sha, left + right, h + 1) == TreeRoot(sha, Parents(sha, left + right), h)
  {
    var level, up := left + right, Parents(sha, left + right);
    assert level[..2 * q] == left && level[2 * q..] == right;
    ParentsOfSplit(sha, level, q);
    assert up[..q] == Parents(sha, left) && up[q..] == Parents(sha, right);
  }

  lemma PassOverPair(sha: Hash, level: seq<Bytes>)
    requires level != []
    ensures TreeRoot(sha, level, 1) == TreeRoot(sha, Parents(sha, level), 0)
  {
    assert Pow2(0) == 1 && Pow2(1) == 2;
    if |level| > 1 {
      assert level[..1][0] == level[0] && level[1..][0] == level[1];
    }
    assert Parents(sha, level)[0] == sha(NodeInput(level[0], if |level| > 1 then level[1] else level[0]));
  }

  /** The level loop computes the root of the recursive tree of least height. */
  lemma {:induction false} LoopIsTree(sha: Hash, level: seq<Bytes>)
    requires level != []
    ensures LevelRoot(sha, level) == TreeRoot(sha, level, Height(|level|))
    decreases |level|
  {
    if |level| > 1 {
      PassLowersOne(sha, level, Height(|level|));
      LoopIsTree(sha, Parents(sha, level));
    }
  }

  // ---- binding ----

  /** The interior-node strings hashed for one level. */
  ghost function LevelInputs(level: seq<Bytes>): set<Bytes>
    requires level != []
  {
    set i | 0 <= i < |Padded(level)| / 2 :: NodeInput(Padded(level)[2 * i], Padded(level)[2 * i + 1])
  }

  /** All interior-node strings hashed from a level up to the root. */
  ghost function NodeInputs(sha: Hash, level: seq<Bytes>): set<Bytes>
    requires level != []
    decreases |level|
  {
    if |level| == 1 then {} else LevelInputs(level) + NodeInputs(sha, Parents(sha, level))
  }

  ghost function LeafInputs(items: seq<Entry>): set<Bytes> {
    set i | 0 <= i < |items| :: LeafInput(items[i])
  }

  /** Every string `merkle_root` hashes for these entries. */
  ghost function HashedStrings(sha: Hash, entries: seq<Entry>): set<Bytes>
  {
    var items := SortById(entries);
    if items == [] then {[]} else LeafInputs(items) + NodeInputs(sha, Leaves(sha, items))
  }

  ghost predicate Distinct(level: seq<Bytes>) {
    forall i, j :: 0 <= i < j < |level| ==> level[i] != level[j]
  }

  /** Every node of a level is a digest. */
  ghost predicate AllDigests(level: seq<Bytes>) {
    forall i :: 0 <= i < |level| ==> |level[i]| == 32
  }

  lemma NodeInputInjective(a: Bytes, b: Bytes, c: Bytes, d: Bytes)
    requires |a| == |c| == 32 && NodeInput(a, b) == NodeInput(c, d)
    ensures a == c && b == d
  {
    assert a == NodeInput(a, b)[1..33] && c == NodeInput(c, d)[1..33];
    assert b == NodeInput(a, b)[33..] && d == NodeInput(c, d)[33..];
  }

  /** The node string at position `i` of the level above is among the hashed strings. */
  lemma LevelInputAt(level: seq<Bytes>, i: nat)
    requires level != [] && i < |Padded(level)| / 2
    ensures NodeInput(Padded(level)[2 * i], Padded(level)[2 * i + 1]) in LevelInputs(level)
  {
  }

  lemma ParentsAreDigests(sha: Hash, level: seq<Bytes>)
    requires level != []
    ensures AllDigests(Parents(sha, level))
  {
    forall i | 0 <= i < |Parents(sha, level)|
      ensures |Parents(sha, level)[i]| == 32
    {
      ParentAt(sha, level, i);
    }
  }

  /** Without a collision, distinct nodes have distinct parents: this is where odd-level
      duplication could have made two lists look alike. */
  lemma DistinctParents(sha: Hash, level: seq<Bytes>, s: set<Bytes>)
    requires |level| > 1 && Distinct(level) && AllDigests(level)
    requires LevelInputs(level) <= s && !CollisionIn(sha, s)
    ensures Distinct(Parents(sha, level)) && AllDigests(Parents(sha, level))
  {
    ParentsAreDigests(sha, level);
    var p, up := Padded(level), Parents(sha, level);
    forall i, j | 0 <= i < j < |up|
      ensures up[i] != up[j]
    {
      var x, y := NodeInput(p[2 * i], p[2 * i + 1]), NodeInput(p[2 * j], p[2 * j + 1]);
      LevelInputAt(level, i);
      LevelInputAt(level, j);
      ParentAt(sha, level, i);
      ParentAt(sha, level, j);
      assert p[2 * i] == level[2 * i] && p[2 * j] == level[2 * j];
      if x == y {
        NodeInputInjective(p[2 * i], p[2 * i + 1], p[2 * j], p[2 * j + 1]);
      }
    }
  }

  /** Equal parent levels of distinct levels come from equal levels. */
  lemma EqualParents(sha: Hash, a: seq<Bytes>, b: seq<Bytes>, s: set<Bytes>)
    requires a != [] && b != [] && Distinct(a) && Distinct(b) && AllDigests(a) && AllDigests(b)
    requires LevelInputs(a) + LevelInputs(b) <= s && !CollisionIn(sha, s)
    requires Parents(sha, a) == Parents(sha, b)
    ensures a == b
  {
    assert |Padded(a)| == |Padded(b)|;
    forall k | 0 <= k < |Padded(a)|
      ensures Padded(a)[k] == Padded(b)[k]
    {
      EqualPaddedAt(sha, a, b, s, k);
    }
    PaddingIsUnambiguous(a, b);
  }

  lemma EqualPaddedAt(sha: Hash, a: seq<Bytes>, b: seq<Bytes>, s: set<Bytes>, k: nat)
    requires a != [] && b != [] && AllDigests(a) && AllDigests(b) && k < |Padded(a)| == |Padded(b)|
    requires LevelInputs(a) + LevelInputs(b) <= s && !CollisionIn(sha, s)
    requires Parents(sha, a) == Parents(sha, b)
    ensures Padded(a)[k] == Padded(b)[k]
  {
    var i := HalfIndex(|a|, k);
    SamePair(sha, a, i, b, i, s);
  }

  /** Which pair of a padded level of `n` nodes position `k` belongs to. */
  lemma HalfIndex(n: nat, k: nat) returns (i: nat)
    requires k < (n + 1) / 2 * 2
    ensures i < (n + 1) / 2 && (k == 2 * i || k == 2 * i + 1)
  {
    i := k / 2;
  }

  /** On distinct levels the duplicated last node can be told from a real one. */
  lemma PaddingIsUnambiguous(a: seq<Bytes>, b: seq<Bytes>)
    requires a != [] && b != [] && Distinct(a) && Distinct(b) && Padded(a) == Padded(b)
    ensures a == b
  {
    var n := |Padded(a)|;
    assert |a| == n || |a| == n - 1;
    assert |b| == n || |b| == n - 1;
    assert |a| == n - 1 ==> Padded(a)[n - 1] == Padded(a)[n - 2];
    assert |b| == n - 1 ==> Padded(b)[n - 1] == Padded(b)[n - 2];
  }

  /** Each child digest inside a string hashed above a level is the digest of a string hashed
      at or above the level below. */
  lemma {:induction false} ChildrenAreNodes(sha: Hash, level: seq<Bytes>, x: Bytes) returns (y: Bytes)
    requires level != [] && AllDigests(level) && x in NodeInputs(sha, Parents(sha, level))
    ensures |x| == 65 && y in NodeInputs(sha, level) && sha(y) == x[1..33]
    decreases |level|
  {
    var up := Parents(sha, level);
    if |up| > 1 && x in LevelInputs(up) {
      y := ChildIsNode(sha, level, x);
    } else {
      ParentsAreDigests(sha, level);
      y := ChildrenAreNodes(sha, up, x);
    }
  }

  lemma ChildIsNode(sha: Hash, level: seq<Bytes>, x: Bytes) returns (y: Bytes)
    requires |level| > 1 && x in LevelInputs(Parents(sha, level))
    ensures |x| == 65 && y in LevelInputs(level) && sha(y) == x[1..33]
  {
    var up := Parents(sha, level);
    ParentsAreDigests(sha, level);
    var i :| 0 <= i < |Padded(up)| / 2 && x == NodeInput(Padded(up)[2 * i], Padded(up)[2 * i + 1]);
    NodeInputParts(up, i);
    var k := 2 * i;
    assert k < |up|;
    y := NodeInput(Padded(level)[2 * k], Padded(level)[2 * k + 1]);
    LevelInputAt(level, k);
    ParentAt(sha, level, k);
  }

  lemma NodeInputParts(level: seq<Bytes>, i: nat)
    requires level != [] && AllDigests(level) && i < |Padded(level)| / 2
    ensures var x := NodeInput(Padded(level)[2 * i], Padded(level)[2 * i + 1]);
            |x| == 65 && x[1..33] == level[2 * i]
  {
    var l, r := Padded(level)[2 * i], Padded(level)[2 * i + 1];
    assert l == level[2 * i];
    assert r == level[if 2 * i + 1 < |level| then 2 * i + 1 else |level| - 1];
    assert ([1] + l + r)[1..33] == l;
  }

  ghost predicate TopsMeet(sha: Hash, a: seq<Bytes>, b: seq<Bytes>)
    requires a != [] && b != []
  {
    exists x :: x in NodeInputs(sha, b) && sha(x) == a[0]
  }

  /** Equal roots, no collision: the levels are equal, or the first node of one is an
      interior node above the other (the trees have different heights). */
  lemma {:induction false} RootsMeet(sha: Hash, a: seq<Bytes>, b: seq<Bytes>, s: set<Bytes>)
    requires a != [] && b != [] && LevelRoot(sha, a) == LevelRoot(sha, b)
    requires Distinct(a) && Distinct(b) && AllDigests(a) && AllDigests(b)
    requires NodeInputs(sha, a) + NodeInputs(sha, b) <= s && !CollisionIn(sha, s)
    ensures a == b || TopsMeet(sha, a, b) || TopsMeet(sha, b, a)
    decreases |a| + |b|
  {
    if |a| == 1 && |b| == 1 {
      assert a == b;
    } else if |a| == 1 {
      var x := RootIsNode(sha, b);
    } else if |b| == 1 {
      var x := RootIsNode(sha, a);
    } else {
      var c, d := Parents(sha, a), Parents(sha, b);
      DistinctParents(sha, a, s);
      DistinctParents(sha, b, s);
      RootsMeet(sha, c, d, s);
      if c == d {
        EqualParents(sha, a, b, s);
      } else if TopsMeet(sha, c, d) {
        TopsDescend(sha, a, b, s);
      } else {
        TopsDescend(sha, b, a, s);
      }
    }
  }

  /** Equal sets of parents come from equal sets of children; no distinctness is needed. */
  lemma EqualParentSets(sha: Hash, a: seq<Bytes>, b: seq<Bytes>, s: set<Bytes>)
    requires a != [] && b != [] && AllDigests(a) && AllDigests(b)
    requires LevelInputs(a) + LevelInputs(b) <= s && !CollisionIn(sha, s)
    requires Elements(Parents(sha, a)) == Elements(Parents(sha, b))
    ensures Elements(a) == Elements(b)
  {
    ParentSetCovers(sha, a, b, s);
    ParentSetCovers(sha, b, a, s);
  }

  lemma ParentSetCovers(sha: Hash, a: seq<Bytes>, b: seq<Bytes>, s: set<Bytes>)
    requires a != [] && b != [] && AllDigests(a) && AllDigests(b)
    requires LevelInputs(a) + LevelInputs(b) <= s && !CollisionIn(sha, s)
    requires Elements(Parents(sha, a)) <= Elements(Parents(sha, b))
    ensures Elements(a) <= Elements(b)
  {
    forall x | x in Elements(a)
      ensures x in Elements(b)
    {
      var k :| 0 <= k < |a| && a[k] == x;
      ChildCovered(sha, a, b, s, k);
    }
  }

  /** The pair that holds a child of `a` has its digest among the parents of `b`, so it is a pair
      of `b`. */
  lemma ChildCovered(sha: Hash, a: seq<Bytes>, b: seq<Bytes>, s: set<Bytes>, k: nat)
    requires a != [] && b != [] && AllDigests(a) && AllDigests(b) && k < |a|
    requires LevelInputs(a) + LevelInputs(b) <= s && !CollisionIn(sha, s)
    requires Elements(Parents(sha, a)) <= Elements(Parents(sha, b))
    ensures a[k] in Elements(b)
  {
    var i := HalfIndex(|a|, k);
    var j := ParentCovered(sha, a, b, i);
    SamePair(sha, a, i, b, j, s);
    PairMember(a, k, i, b, j);
  }

  lemma PairMember(a: seq<Bytes>, k: nat, i: nat, b: seq<Bytes>, j: nat)
    requires a != [] && b != [] && k < |a| && (k == 2 * i || k == 2 * i + 1)
    requires 2 * i + 1 < |Padded(a)| && 2 * j + 1 < |Padded(b)|
    requires Padded(a)[2 * i] == Padded(b)[2 * j] && Padded(a)[2 * i + 1] == Padded(b)[2 * j + 1]
    ensures a[k] in Elements(b)
  {
    if k == 2 * i {
      PaddedIsMember(b, 2 * j);
    } else {
      PaddedIsMember(b, 2 * j + 1);
    }
  }

  lemma ParentCovered(sha: Hash, a: seq<Bytes>, b: seq<Bytes>, i: nat) returns (j: nat)
    requires a != [] && b != [] && i < |Parents(sha, a)|
    requires Elements(Parents(sha, a)) <= Elements(Parents(sha, b))
    ensures j < |Parents(sha, b)| && Parents(sha, b)[j] == Parents(sha, a)[i]
  {
    InElements(Parents(sha, a), i);
    j :| 0 <= j < |Parents(sha, b)| && Parents(sha, b)[j] == Parents(sha, a)[i];
  }

  lemma PaddedIsMember(level: seq<Bytes>, k: nat)
    requires level != [] && k < |Padded(level)|
    ensures Padded(level)[k] in Elements(level)
  {
    InElements(level, if k < |level| then k else |level| - 1);
  }

  /** Equal parents have equal pairs of children. */
  lemma SamePair(sha: Hash, a: seq<Bytes>, i: nat, b: seq<Bytes>, j: nat, s: set<Bytes>)
    requires a != [] && b != [] && AllDigests(a) && AllDigests(b)
    requires LevelInputs(a) + LevelInputs(b) <= s && !CollisionIn(sha, s)
    requires i < |Parents(sha, a)| && j < |Parents(sha, b)| && Parents(sha, a)[i] == Parents(sha, b)[j]
    ensures 2 * i + 1 < |Padded(a)| && 2 * j + 1 < |Padded(b)|
    ensures Padded(a)[2 * i] == Padded(b)[2 * j] && Padded(a)[2 * i + 1] == Padded(b)[2 * j + 1]
  {
    LevelInputAt(a, i);
    LevelInputAt(b, j);
    ParentAt(sha, a, i);
    ParentAt(sha, b, j);
    assert Padded(a)[2 * i] == a[2 * i] && Padded(b)[2 * j] == b[2 * j];
    NodeInputInjective(Padded(a)[2 * i], Padded(a)[2 * i + 1], Padded(b)[2 * j], Padded(b)[2 * j + 1]);
  }

  /** Equal roots, no collision: the two levels hold the same set of nodes, or the trees have
      different heights. */
  lemma {:induction false} RootSetsMeet(sha: Hash, a: seq<Bytes>, b: seq<Bytes>, s: set<Bytes>)
    requires a != [] && b != [] && LevelRoot(sha, a) == LevelRoot(sha, b)
    requires AllDigests(a) && AllDigests(b)
    requires NodeInputs(sha, a) + NodeInputs(sha, b) <= s && !CollisionIn(sha, s)
    ensures Elements(a) == Elements(b) || TopsMeet(sha, a, b) || TopsMeet(sha, b, a)
    decreases |a| + |b|
  {
    if |a| == 1 && |b| == 1 {
      assert a == b;
    } else if |a| == 1 {
      var x := RootIsNode(sha, b);
    } else if |b| == 1 {
      var x := RootIsNode(sha, a);
    } else {
      ParentsAreDigests(sha, a);
      ParentsAreDigests(sha, b);
      RootSetsMeet(sha, Parents(sha, a), Parents(sha, b), s);
      SetsDescend(sha, a, b, s);
    }
  }

  lemma SetsDescend(sha: Hash, a: seq<Bytes>, b: seq<Bytes>, s: set<Bytes>)
    requires |a| > 1 && |b| > 1 && AllDigests(a) && AllDigests(b)
    requires NodeInputs(sha, a) + NodeInputs(sha, b) <= s && !CollisionIn(sha, s)
    requires var c, d := Parents(sha, a), Parents(sha, b);
             Elements(c) == Elements(d) || TopsMeet(sha, c, d) || TopsMeet(sha, d, c)
    ensures Elements(a) == Elements(b) || TopsMeet(sha, a, b) || TopsMeet(sha, b, a)
  {
    var c, d := Parents(sha, a), Parents(sha, b);
    if TopsMeet(sha, c, d) {
      TopsDescend(sha, a, b, s);
    } else if TopsMeet(sha, d, c) {
      TopsDescend(sha, b, a, s);
    } else {
      EqualParentSets(sha, a, b, s);
    }
  }

  lemma {:induction false} RootIsNode(sha: Hash, level: seq<Bytes>) returns (x: Bytes)
    requires |level| > 1
    ensures x in NodeInputs(sha, level) && sha(x) == LevelRoot(sha, level)
    decreases |level|
  {
    var up := Parents(sha, level);
    if |up| == 1 {
      LevelInputAt(level, 0);
      x := NodeInput(Padded(level)[0], Padded(level)[1]);
      ParentAt(sha, level, 0);
    } else {
      x := RootIsNode(sha, up);
    }
  }

  lemma TopsDescend(sha: Hash, a: seq<Bytes>, b: seq<Bytes>, s: set<Bytes>)
    requires |a| > 1 && |b| > 1 && AllDigests(a) && AllDigests(b)
    requires NodeInputs(sha, a) + NodeInputs(sha, b) <= s && !CollisionIn(sha, s)
    requires TopsMeet(sha, Parents(sha, a), Parents(sha, b))
    ensures TopsMeet(sha, a, b)
  {
    var x :| x in NodeInputs(sha, Parents(sha, b)) && sha(x) == Parents(sha, a)[0];
    FirstParentInput(sha, a, x, s);
    var y := ChildrenAreNodes(sha, b, x);
  }

  lemma FirstParentInput(sha: Hash, a: seq<Bytes>, x: Bytes, s: set<Bytes>)
    requires |a| > 1 && AllDigests(a) && LevelInputs(a) <= s && x in s && !CollisionIn(sha, s)
    requires sha(x) == Parents(sha, a)[0]
    ensures |x| == 65 && x[1..33] == a[0]
  {
    LevelInputAt(a, 0);
    ParentAt(sha, a, 0);
    NodeInputParts(a, 0);
    assert NodeInput(Padded(a)[0], Padded(a)[1]) in s;
  }

  predicate NulFree(t: Text) {
    forall i :: 0 <= i < |t| ==> t[i] != 0
  }

  lemma {:induction false} Utf8NulFree(t: Text)
    requires NulFree(t)
    ensures forall i :: 0 <= i < |Utf8Raw(t)| ==> Utf8Raw(t)[i] != 0
  {
    if t != [] {
      Utf8NulFree(t[1..]);
      assert forall i :: 0 <= i < |Utf8Char(t[0])| ==> Utf8Char(t[0])[i] != 0;
    }
  }

  /** With NUL-free vector hashes the leaf string determines the record, even when ids hold
      NUL characters: the last zero byte is the separator. */
  lemma LeafInputInjective(x: Entry, y: Entry)
    requires NulFree(x.vecHash) && NulFree(y.vecHash) && LeafInput(x) == LeafInput(y)
    ensures x == y
  {
    Utf8NulFree(x.vecHash);
    Utf8NulFree(y.vecHash);
    LastZeroSplits([0] + Utf8Raw(x.id), Utf8Raw(x.vecHash), [0] + Utf8Raw(y.id), Utf8Raw(y.vecHash));
    assert Utf8Raw(x.id) == ([0] + Utf8Raw(x.id))[1..] && Utf8Raw(y.id) == ([0] + Utf8Raw(y.id))[1..];
    Utf8Injective(x.id, y.id);
    Utf8Injective(x.vecHash, y.vecHash);
  }

  lemma LastZeroSplits(a: Bytes, c: Bytes, b: Bytes, d: Bytes)
    requires a + [0] + c == b + [0] + d
    requires (forall i :: 0 <= i < |c| ==> c[i] != 0) && (forall i :: 0 <= i < |d| ==> d[i] != 0)
    ensures a == b && c == d
  {
    var l := a + [0] + c;
    LastZeroAt(a, c);
    LastZeroAt(b, d);
    assert |a| == |b|;
    assert a == l[..|a|] && b == (b + [0] + d)[..|b|];
    assert c == l[|a| + 1..] && d == (b + [0] + d)[|b| + 1..];
  }

  lemma LastZeroAt(a: Bytes, c: Bytes)
    requires forall i :: 0 <= i < |c| ==> c[i] != 0
    ensures (a + [0] + c)[|a|] == 0
    ensures forall i :: |a| < i < |a + [0] + c| ==> (a + [0] + c)[i] != 0
  {
    forall i | |a| < i < |a + [0] + c|
      ensures (a + [0] + c)[i] != 0
    {
      assert (a + [0] + c)[i] == c[i - |a| - 1];
    }
  }

  lemma {:induction false} Utf8Concat(p: Text, q: Text)
    ensures Utf8Raw(p + q) == Utf8Raw(p) + Utf8Raw(q)
  {
    if p == [] {
      assert p + q == q;
    } else {
      Utf8Concat(p[1..], q);
      assert (p + q)[1..] == p[1..] + q;
      Assoc(Utf8Char(p[0]), Utf8Raw(p[1..]), Utf8Raw(q));
    }
  }

  lemma Utf8AroundNul(p: Text, q: Text)
    ensures Utf8Raw(p + [0] + q) == Utf8Raw(p) + [0] + Utf8Raw(q)
  {
    Utf8Concat(p + [0], q);
    Utf8Concat(p, [0]);
    assert Utf8Raw([0]) == Utf8Char(0) + Utf8Raw([]);
  }

  lemma SplitAtNul(t: Text) returns (p: Text, q: Text)
    requires !NulFree(t)
    ensures t == p + [0] + q
  {
    var k :| 0 <= k < |t| && t[k] == 0;
    p, q := t[..k], t[k + 1..];
  }

  lemma SurrogateFreeAroundNul(p: Text, q: Text)
    ensures SurrogateFree(p + [0] + q) <==> SurrogateFree(p) && SurrogateFree(q)
  {
    var t := p + [0] + q;
    if SurrogateFree(t) {
      assert forall i :: 0 <= i < |p| ==> p[i] == t[i];
      assert forall i :: 0 <= i < |q| ==> q[i] == t[|p| + 1 + i];
    }
  }

  /** A NUL in the id can be read as the separator ... */
  lemma NulInId(p: Text, q: Text, h: Text)
    ensures LeafInput(Entry(p, q + [0] + h)) == LeafInput(Entry(p + [0] + q, h))
  {
    Utf8AroundNul(p, q);
    Utf8AroundNul(q, h);
    Regroup([0], Utf8Raw(p), Utf8Raw(q), Utf8Raw(h));
  }

  lemma Regroup(z: Bytes, a: Bytes, b: Bytes, c: Bytes)
    ensures z + a + z + (b + z + c) == z + (a + z + b) + z + c
  {
    var u := z + a + z;
    Assoc(z, a + z, b);
    Assoc(z, a, z);
    Assoc(u, b + z, c);
    Assoc(u, b, z);
  }

  /** ... and so can one in the hash: the record has a different reading. */
  lemma OtherReading(x: Entry) returns (y: Entry)
    requires !NulFree(x.id) || !NulFree(x.vecHash)
    ensures y != x && LeafInput(y) == LeafInput(x) && (Encodable(y) <==> Encodable(x))
  {
    if !NulFree(x.id) {
      var p, q := SplitAtNul(x.id);
      y := Entry(p, q + [0] + x.vecHash);
      NulInId(p, q, x.vecHash);
      SurrogateFreeAroundNul(p, q);
      SurrogateFreeAroundNul(q, x.vecHash);
    } else {
      var p, q := SplitAtNul(x.vecHash);
      y := Entry(x.id + [0] + p, q);
      NulInId(x.id, p, q);
      SurrogateFreeAroundNul(p, q);
      SurrogateFreeAroundNul(x.id, p);
    }
  }

  /** The separator of a record without NULs is the only zero byte after the prefix. */
  lemma OnlyReading(x: Entry, y: Entry)
    requires NulFree(x.id) && NulFree(x.vecHash) && LeafInput(y) == LeafInput(x)
    ensures y == x
  {
    var a, b, c, d := Utf8Raw(x.id), Utf8Raw(x.vecHash), Utf8Raw(y.id), Utf8Raw(y.vecHash);
    Utf8NulFree(x.id);
    Utf8NulFree(x.vecHash);
    OneZero(a, b, c, d);
    Utf8Injective(x.id, y.id);
    Utf8Injective(x.vecHash, y.vecHash);
  }

  lemma OneZero(a: Bytes, b: Bytes, c: Bytes, d: Bytes)
    requires [0] + a + [0] + b == [0] + c + [0] + d
    requires (forall i :: 0 <= i < |a| ==> a[i] != 0) && (forall i :: 0 <= i < |b| ==> b[i] != 0)
    ensures a == c && b == d
  {
    var l, m := [0] + a + [0] + b, [0] + c + [0] + d;
    assert m[|c| + 1] == 0;
    assert forall i :: 0 < i <= |a| ==> l[i] == a[i - 1];
    assert forall i :: |a| + 1 < i < |l| ==> l[i] == b[i - |a| - 2];
    assert |a| == |c|;
    assert a == l[1..|a| + 1] && c == m[1..|c| + 1] && b == l[|a| + 2..] && d == m[|c| + 2..];
  }

  /** Exactly the records that hold a NUL somewhere share their leaf string with another record,
      which encodes whenever they do. */
  lemma AmbiguousIffNul(x: Entry)
    ensures (exists y: Entry :: y != x && (Encodable(y) <==> Encodable(x)) && LeafInput(y) == LeafInput(x))
            <==> !NulFree(x.id) || !NulFree(x.vecHash)
    ensures (exists y: Entry :: y != x && LeafInput(y) == LeafInput(x)) <==> !NulFree(x.id) || !NulFree(x.vecHash)
  {
    if NulFree(x.id) && NulFree(x.vecHash) {
      forall y: Entry | LeafInput(y) == LeafInput(x)
        ensures y == x
      {
        OnlyReading(x, y);
      }
    } else {
      var y := OtherReading(x);
    }
  }

  ghost predicate NulFreeHashes(entries: seq<Entry>) {
    forall i :: 0 <= i < |entries| ==> NulFree(entries[i].vecHash)
  }

  /** Main result. Whatever the records hold, equal Merkle roots mean equal sets of leaf strings,
      or two different strings hashed while computing them collide. */
  lemma LeafStringsBound(sha: Hash, a: seq<Entry>, b: seq<Entry>)
    requires MerkleRootOf(sha, a).Ok? && MerkleRootOf(sha, a) == MerkleRootOf(sha, b)
    ensures LeafInputs(SortById(a)) == LeafInputs(SortById(b))
            || CollisionIn(sha, HashedStrings(sha, a) + HashedStrings(sha, b))
  {
    var s := HashedStrings(sha, a) + HashedStrings(sha, b);
    if !CollisionIn(sha, s) {
      var x, y := SortById(a), SortById(b);
      SameElements(a);
      SameElements(b);
      if x == [] && y == [] {
      } else if x == [] {
        EmptyRootDiffers(sha, b, s);
      } else if y == [] {
        EmptyRootDiffers(sha, a, s);
      } else {
        PrefixedInjective(LevelRoot(sha, Leaves(sha, x)), LevelRoot(sha, Leaves(sha, y)));
        LeafSetsMeet(sha, x, y, s);
      }
    }
  }

  lemma LeafSetsMeet(sha: Hash, x: seq<Entry>, y: seq<Entry>, s: set<Bytes>)
    requires x != [] && y != [] && LevelRoot(sha, Leaves(sha, x)) == LevelRoot(sha, Leaves(sha, y))
    requires LeafInputs(x) + NodeInputs(sha, Leaves(sha, x)) <= s
    requires LeafInputs(y) + NodeInputs(sha, Leaves(sha, y)) <= s && !CollisionIn(sha, s)
    ensures LeafInputs(x) == LeafInputs(y)
  {
    var p, q := Leaves(sha, x), Leaves(sha, y);
    RootSetsMeet(sha, p, q, s);
    LeafIsNotAbove(sha, x, y, s);
    LeafIsNotAbove(sha, y, x, s);
    SameDigestsSameStrings(sha, x, y, s);
    SameDigestsSameStrings(sha, y, x, s);
  }

  lemma SameDigestsSameStrings(sha: Hash, x: seq<Entry>, y: seq<Entry>, s: set<Bytes>)
    requires Elements(Leaves(sha, x)) <= Elements(Leaves(sha, y))
    requires LeafInputs(x) + LeafInputs(y) <= s && !CollisionIn(sha, s)
    ensures LeafInputs(x) <= LeafInputs(y)
  {
    forall z | z in LeafInputs(x)
      ensures z in LeafInputs(y)
    {
      var i :| 0 <= i < |x| && z == LeafInput(x[i]);
      InElements(Leaves(sha, x), i);
      var j :| 0 <= j < |y| && Leaves(sha, y)[j] == Leaves(sha, x)[i];
      assert LeafInput(y[j]) in LeafInputs(y);
    }
  }

  /** With NUL-free hashes the set of leaf strings is the set of (id, vector hash) pairs. */
  lemma MerkleBinding(sha: Hash, a: seq<Entry>, b: seq<Entry>)
    requires MerkleRootOf(sha, a).Ok? && MerkleRootOf(sha, a) == MerkleRootOf(sha, b)
    requires NulFreeHashes(a) && NulFreeHashes(b)
    ensures Elements(a) == Elements(b) || CollisionIn(sha, HashedStrings(sha, a) + HashedStrings(sha, b))
  {
    LeafStringsBound(sha, a, b);
    SameElements(a);
    SameElements(b);
    SortedNulFree(a);
    SortedNulFree(b);
    if LeafInputs(SortById(a)) == LeafInputs(SortById(b)) {
      StringsTellEntries(SortById(a), SortById(b));
      StringsTellEntries(SortById(b), SortById(a));
    }
  }

  lemma StringsTellEntries(x: seq<Entry>, y: seq<Entry>)
    requires NulFreeHashes(x) && NulFreeHashes(y) && LeafInputs(x) <= LeafInputs(y)
    ensures Elements(x) <= Elements(y)
  {
    forall e | e in Elements(x)
      ensures e in Elements(y)
    {
      var i :| 0 <= i < |x| && x[i] == e;
      assert LeafInput(x[i]) in LeafInputs(x);
      var j :| 0 <= j < |y| && LeafInput(y[j]) == LeafInput(x[i]);
      LeafInputInjective(x[i], y[j]);
      InElements(y, j);
    }
  }

  lemma EmptyRootDiffers(sha: Hash, b: seq<Entry>, s: set<Bytes>)
    requires SortById(b) != [] && HashedStrings(sha, b) + {[]} <= s && !CollisionIn(sha, s)
    ensures Prefixed(LevelRoot(sha, Leaves(sha, SortById(b)))) != HashBytes(sha, [])
  {
    var y := SortById(b);
    var level := Leaves(sha, y);
    var root := LevelRoot(sha, level);
    var x := LeafInput(y[0]);
    assert x in s;
    if |y| > 1 {
      x := RootIsNode(sha, level);
      NodeInputShape(sha, level, x);
    }
    assert x in s && [] in s && x != [] && sha(x) == root;
    if Prefixed(root) == HashBytes(sha, []) {
      PrefixedInjective(root, sha([]));
    }
  }

  lemma {:induction false} NodeInputShape(sha: Hash, level: seq<Bytes>, x: Bytes)
    requires level != [] && x in NodeInputs(sha, level)
    ensures x != [] && x[0] == 1
    decreases |level|
  {
    if x !in LevelInputs(level) {
      NodeInputShape(sha, Parents(sha, level), x);
    }
  }

  /** One clean collection is enough: when no id and no hash of `a` holds a NUL, its root binds its set of
      records against every other accepted collection, whatever that one holds. */
  lemma CleanCollectionBound(sha: Hash, a: seq<Entry>, b: seq<Entry>)
    requires MerkleRootOf(sha, a).Ok? && MerkleRootOf(sha, a) == MerkleRootOf(sha, b)
    requires forall i :: 0 <= i < |a| ==> NulFree(a[i].id) && NulFree(a[i].vecHash)
    ensures Elements(a) == Elements(b) || CollisionIn(sha, HashedStrings(sha, a) + HashedStrings(sha, b))
  {
    LeafStringsBound(sha, a, b);
    if LeafInputs(SortById(a)) == LeafInputs(SortById(b)) {
      SameElements(a);
      SameElements(b);
      SortedAreClean(a);
      CleanStringsTell(SortById(a), SortById(b));
    }
  }

  ghost predicate AllClean(s: seq<Entry>) {
    forall i :: 0 <= i < |s| ==> NulFree(s[i].id) && NulFree(s[i].vecHash)
  }

  lemma SortedAreClean(a: seq<Entry>)
    requires AllClean(a)
    ensures AllClean(SortById(a))
  {
    var x := SortById(a);
    SameElements(a);
    forall i | 0 <= i < |x|
      ensures NulFree(x[i].id) && NulFree(x[i].vecHash)
    {
      InElements(x, i);
      var j :| 0 <= j < |a| && a[j] == x[i];
    }
  }

  lemma CleanStringsTell(x: seq<Entry>, y: seq<Entry>)
    requires AllClean(x) && LeafInputs(x) == LeafInputs(y)
    ensures Elements(x) == Elements(y)
  {
    forall i | 0 <= i < |x|
      ensures x[i] in Elements(y)
    {
      assert LeafInput(x[i]) in LeafInputs(x);
      var j :| 0 <= j < |y| && LeafInput(y[j]) == LeafInput(x[i]);
      OnlyReading(x[i], y[j]);
      InElements(y, j);
    }
    forall j | 0 <= j < |y|
      ensures y[j] in Elements(x)
    {
      assert LeafInput(y[j]) in LeafInputs(y);
      var i :| 0 <= i < |x| && LeafInput(x[i]) == LeafInput(y[j]);
      OnlyReading(x[i], y[j]);
      InElements(x, i);
    }
  }

  /** When each collection's leaf strings are pairwise different, equal roots also mean the same
      list of leaf strings, hence the same number of records. */
  lemma LeafListsBound(sha: Hash, a: seq<Entry>, b: seq<Entry>)
    requires MerkleRootOf(sha, a).Ok? && MerkleRootOf(sha, a) == MerkleRootOf(sha, b)
    requires DistinctStrings(SortById(a)) && DistinctStrings(SortById(b))
    ensures LeafStrings(SortById(a)) == LeafStrings(SortById(b))
            || CollisionIn(sha, HashedStrings(sha, a) + HashedStrings(sha, b))
  {
    var s := HashedStrings(sha, a) + HashedStrings(sha, b);
    if !CollisionIn(sha, s) {
      var x, y := SortById(a), SortById(b);
      if x == [] && y == [] {
      } else if x == [] {
        SameElements(a);
        EmptyRootDiffers(sha, b, s);
      } else if y == [] {
        SameElements(b);
        EmptyRootDiffers(sha, a, s);
      } else {
        PrefixedInjective(LevelRoot(sha, Leaves(sha, x)), LevelRoot(sha, Leaves(sha, y)));
        LeafListsMeet(sha, x, y, s);
      }
    }
  }

  function LeafStrings(items: seq<Entry>): (ls: seq<Bytes>)
    ensures |ls| == |items| && forall i :: 0 <= i < |items| ==> ls[i] == LeafInput(items[i])
  {
    seq(|items|, i requires 0 <= i < |items| => LeafInput(items[i]))
  }

  ghost predicate DistinctStrings(items: seq<Entry>) {
    Distinct(LeafStrings(items))
  }

  lemma LeafListsMeet(sha: Hash, x: seq<Entry>, y: seq<Entry>, s: set<Bytes>)
    requires x != [] && y != [] && LevelRoot(sha, Leaves(sha, x)) == LevelRoot(sha, Leaves(sha, y))
    requires DistinctStrings(x) && DistinctStrings(y)
    requires LeafInputs(x) + NodeInputs(sha, Leaves(sha, x)) <= s
    requires LeafInputs(y) + NodeInputs(sha, Leaves(sha, y)) <= s && !CollisionIn(sha, s)
    ensures LeafStrings(x) == LeafStrings(y)
  {
    var p, q := Leaves(sha, x), Leaves(sha, y);
    LeavesDistinct(sha, x, s);
    LeavesDistinct(sha, y, s);
    RootsMeet(sha, p, q, s);
    LeafIsNotAbove(sha, x, y, s);
    LeafIsNotAbove(sha, y, x, s);
    assert p == q;
    forall i | 0 <= i < |x|
      ensures LeafInput(x[i]) == LeafInput(y[i])
    {
      assert p[i] == q[i] && LeafInput(x[i]) in LeafInputs(x) && LeafInput(y[i]) in LeafInputs(y);
    }
  }

  /** Without that condition the number of records is not bound: repeating the last digest of an odd
      level of three or more leaves every root as it is. */
  lemma RepeatedLastKeepsRoot(sha: Hash, level: seq<Bytes>)
    requires |level| > 1 && |level| % 2 == 1
    ensures LevelRoot(sha, level + [level[|level| - 1]]) == LevelRoot(sha, level)
  {
    var longer := level + [level[|level| - 1]];
    assert Padded(level) == longer == Padded(longer);
    forall i | 0 <= i < |Parents(sha, level)|
      ensures Parents(sha, level)[i] == Parents(sha, longer)[i]
    {
      ParentAt(sha, level, i);
      ParentAt(sha, longer, i);
    }
    assert Parents(sha, level) == Parents(sha, longer);
  }

  ghost predicate AllEncodable(s: seq<Entry>) {
    forall i :: 0 <= i < |s| ==> Encodable(s[i])
  }

  /** So a root need not bind the number of records: every accepted collection of three or more records, odd in
      number, whose record of greatest id has a NUL in its hash shares its root under every hash function with a
      collection of one record more. */
  lemma CountNotBound(a: seq<Entry>) returns (b: seq<Entry>)
    requires UniqueIds(a) && AllEncodable(a) && |a| > 1 && |a| % 2 == 1
    requires |SortById(a)| == |a| && !NulFree(SortById(a)[|a| - 1].vecHash)
    ensures |b| == |a| + 1
    ensures forall sha: Hash :: MerkleRootOf(sha, a).Ok? && MerkleRootOf(sha, b) == MerkleRootOf(sha, a)
  {
    var x := SortById(a);
    SortedUniqueIsStrict(a);
    SortedEncodable(a);
    var y := LaterReading(x[|a| - 1]);
    b := x + [y];
    forall sha: Hash
      ensures MerkleRootOf(sha, a).Ok? && MerkleRootOf(sha, b) == MerkleRootOf(sha, a)
    {
      SharedRoot(sha, a, x, y);
    }
  }

  /** One more record with the leaf string of the last one keeps the root of an odd collection. */
  lemma SharedRoot(sha: Hash, a: seq<Entry>, x: seq<Entry>, y: Entry)
    requires UniqueIds(a) && SortById(a) == x && AllEncodable(x) && StrictlySorted(Ids(x))
    requires |x| > 1 && |x| % 2 == 1
    requires LexLess(x[|x| - 1].id, y.id) && LeafInput(y) == LeafInput(x[|x| - 1]) && Encodable(y)
    ensures MerkleRootOf(sha, a).Ok? && MerkleRootOf(sha, x + [y]) == MerkleRootOf(sha, a)
  {
    RootOfSorted(sha, a, x);
    LongerRoot(sha, x, y);
    SharedLevelRoot(sha, x, y);
  }

  lemma LongerRoot(sha: Hash, x: seq<Entry>, y: Entry)
    requires AllEncodable(x) && StrictlySorted(Ids(x)) && |x| > 1
    requires LexLess(x[|x| - 1].id, y.id) && Encodable(y)
    ensures MerkleRootOf(sha, x + [y]) == Ok(Prefixed(LevelRoot(sha, Leaves(sha, x + [y]))))
  {
    OneMoreSorted(x, y);
    RootOfSorted(sha, x + [y], x + [y]);
  }

  lemma SharedLevelRoot(sha: Hash, x: seq<Entry>, y: Entry)
    requires |x| > 1 && |x| % 2 == 1 && LeafInput(y) == LeafInput(x[|x| - 1])
    ensures LevelRoot(sha, Leaves(sha, x + [y])) == LevelRoot(sha, Leaves(sha, x))
  {
    LeavesSnoc(sha, x, y);
    RepeatedLastKeepsRoot(sha, Leaves(sha, x));
  }

  lemma LeavesSnoc(sha: Hash, x: seq<Entry>, y: Entry)
    ensures Leaves(sha, x + [y]) == Leaves(sha, x) + [sha(LeafInput(y))]
  {
  }

  /** The other reading that takes a part of the hash into the id: its id comes later. */
  lemma LaterReading(x: Entry) returns (y: Entry)
    requires Encodable(x) && !NulFree(x.vecHash)
    ensures LexLess(x.id, y.id) && LeafInput(y) == LeafInput(x) && Encodable(y)
  {
    var p, q := SplitAtNul(x.vecHash);
    y := MovedReading(x.id, p, q);
  }

  lemma MovedReading(id: Text, p: Text, q: Text) returns (y: Entry)
    requires Encodable(Entry(id, p + [0] + q))
    ensures y == Entry(id + [0] + p, q)
    ensures LexLess(id, y.id) && LeafInput(y) == LeafInput(Entry(id, p + [0] + q)) && Encodable(y)
  {
    y := Entry(id + [0] + p, q);
    NulInId(id, p, q);
    SurrogateFreeAroundNul(p, q);
    SurrogateFreeAroundNul(id, p);
    LongerIsLater(id, [0] + p);
    Assoc(id, [0], p);
  }

  lemma LongerIsLater(id: Text, more: Text)
    requires more != []
    ensures LexLess(id, id + more)
  {
    LexCommonPrefix(id, [], more);
    assert id + [] == id;
  }

  lemma SortedEncodable(a: seq<Entry>)
    requires AllEncodable(a)
    ensures AllEncodable(SortById(a))
  {
    var x := SortById(a);
    SameElements(a);
    forall i | 0 <= i < |x|
      ensures Encodable(x[i])
    {
      InElements(x, i);
      var j :| 0 <= j < |a| && a[j] == x[i];
    }
  }

  lemma OneMoreSorted(x: seq<Entry>, y: Entry)
    requires x != [] && StrictlySorted(Ids(x)) && LexLess(x[|x| - 1].id, y.id)
    ensures UniqueIds(x + [y]) && SortById(x + [y]) == x + [y]
  {
    IdsSnoc(x, y);
    StrictSnoc(Ids(x), y.id);
    StrictIsSorted(x + [y]);
  }

  lemma IdsSnoc(x: seq<Entry>, y: Entry)
    ensures Ids(x + [y]) == Ids(x) + [y.id]
  {
  }

  lemma StrictSnoc(ks: seq<Text>, k: Text)
    requires StrictlySorted(ks) && ks != [] && LexLess(ks[|ks| - 1], k)
    ensures StrictlySorted(ks + [k])
  {
    var all := ks + [k];
    forall i, j | 0 <= i < j < |all|
      ensures LexLess(all[i], all[j])
    {
      if j == |ks| && i < |ks| - 1 {
        LexTransitive(ks[i], ks[|ks| - 1], k);
      }
    }
  }

  /** A list in strict order of ids is its own sorting. */
  lemma StrictIsSorted(b: seq<Entry>)
    requires StrictlySorted(Ids(b))
    ensures UniqueIds(b) && SortById(b) == b
  {
    forall i, j | 0 <= i < j < |b|
      ensures b[i].id != b[j].id
    {
      assert LexLess(Ids(b)[i], Ids(b)[j]);
      LexIrreflexive(b[i].id);
    }
    SortedUniqueIsStrict(b);
    SameElements(b);
    StrictListsAgree(SortById(b), b);
  }

  lemma RootOfSorted(sha: Hash, a: seq<Entry>, x: seq<Entry>)
    requires UniqueIds(a) && SortById(a) == x && x != [] && AllEncodable(x)
    ensures MerkleRootOf(sha, a) == Ok(Prefixed(LevelRoot(sha, Leaves(sha, x))))
  {
  }

  function SampleLast(): Entry { Entry([3], [4, 0, 5]) }

  function SampleExtra(): Entry { Entry([3, 0, 4], [5]) }

  function SampleThree(): (s: seq<Entry>)
    ensures |s| == 3 && s[2] == SampleLast()
  {
    [Entry([1], []), Entry([2], []), SampleLast()]
  }

  /** Such collections exist: three records, the last with the hash 4, NUL, 5, and the same with one record more. */
  lemma CountNotBoundSample(sha: Hash)
    ensures MerkleRootOf(sha, SampleThree()).Ok?
    ensures MerkleRootOf(sha, SampleThree()) == MerkleRootOf(sha, SampleThree() + [SampleExtra()])
  {
    SampleReading();
    SampleSorted();
    SampleEncodable();
    StrictIsSorted(SampleThree());
    LongerIsLater([3], [0, 4]);
    assert [3] + [0, 4] == SampleExtra().id;
    SharedRoot(sha, SampleThree(), SampleThree(), SampleExtra());
  }

  lemma SampleEncodable()
    ensures AllEncodable(SampleThree()) && Encodable(SampleExtra())
  {
  }

  lemma SampleReading()
    ensures LeafInput(SampleExtra()) == LeafInput(SampleLast())
  {
    NulInId([3], [4], [5]);
    assert [4] + [0] + [5] == [4, 0, 5] && [3] + [0] + [4] == [3, 0, 4];
  }

  lemma SampleSorted()
    ensures StrictlySorted(Ids(SampleThree()))
  {
    var one: Text, two: Text, three: Text := [1], [2], [3];
    assert StrictlySorted([one]);
    StrictSnoc([one], two);
    StrictSnoc([one] + [two], three);
    assert Ids(SampleThree()) == [one] + [two] + [three];
  }

  /** Unique ids and NUL-free hashes make the leaf strings different. */
  lemma NulFreeStringsDiffer(a: seq<Entry>)
    requires UniqueIds(a) && NulFreeHashes(a)
    ensures DistinctStrings(SortById(a))
  {
    var x := SortById(a);
    SortedUniqueIsStrict(a);
    SortedNulFree(a);
    forall i, j | 0 <= i < j < |x|
      ensures LeafStrings(x)[i] != LeafStrings(x)[j]
    {
      if LeafInput(x[i]) == LeafInput(x[j]) {
        LeafInputInjective(x[i], x[j]);
      }
    }
  }

  /** The first leaf of one tree is no interior node of the other: the prefixes differ. */
  lemma LeafIsNotAbove(sha: Hash, x: seq<Entry>, y: seq<Entry>, s: set<Bytes>)
    requires x != [] && y != [] && LeafInputs(x) + NodeInputs(sha, Leaves(sha, y)) <= s && !CollisionIn(sha, s)
    ensures !TopsMeet(sha, Leaves(sha, x), Leaves(sha, y))
  {
    assert LeafInput(x[0]) in LeafInputs(x);
    LeafIsNoNode(sha, x[0], Leaves(sha, y), s);
  }

  lemma LeafIsNoNode(sha: Hash, e: Entry, level: seq<Bytes>, s: set<Bytes>)
    requires level != [] && LeafInput(e) in s && NodeInputs(sha, level) <= s && !CollisionIn(sha, s)
    ensures !exists x :: x in NodeInputs(sha, level) && sha(x) == sha(LeafInput(e))
  {
    forall x | x in NodeInputs(sha, level)
      ensures sha(x) != sha(LeafInput(e))
    {
      NodeInputShape(sha, level, x);
      assert LeafInput(e)[0] == 0;
    }
  }

  lemma SortedNulFree(a: seq<Entry>)
    requires NulFreeHashes(a)
    ensures NulFreeHashes(SortById(a))
  {
    var x := SortById(a);
    SameElements(a);
    forall i | 0 <= i < |x|
      ensures NulFree(x[i].vecHash)
    {
      assert x[i] in Elements(x);
      var j :| 0 <= j < |a| && a[j] == x[i];
    }
  }

  /** Hence for NUL-free hashes the root also binds the order of the leaves and the number of records. */
  lemma NulFreeListsBound(sha: Hash, a: seq<Entry>, b: seq<Entry>)
    requires MerkleRootOf(sha, a).Ok? && MerkleRootOf(sha, a) == MerkleRootOf(sha, b)
    requires NulFreeHashes(a) && NulFreeHashes(b)
    ensures (SortById(a) == SortById(b) && |a| == |b|)
            || CollisionIn(sha, HashedStrings(sha, a) + HashedStrings(sha, b))
  {
    NulFreeStringsDiffer(a);
    NulFreeStringsDiffer(b);
    LeafListsBound(sha, a, b);
    if LeafStrings(SortById(a)) == LeafStrings(SortById(b)) {
      SortedNulFree(a);
      SortedNulFree(b);
      SortedUniqueIsStrict(a);
      SortedUniqueIsStrict(b);
      EqualStringsEqualEntries(SortById(a), SortById(b));
    }
  }

  lemma EqualStringsEqualEntries(x: seq<Entry>, y: seq<Entry>)
    requires NulFreeHashes(x) && NulFreeHashes(y) && LeafStrings(x) == LeafStrings(y)
    ensures x == y
  {
    assert |x| == |LeafStrings(x)| == |LeafStrings(y)| == |y|;
    forall i | 0 <= i < |x|
      ensures x[i] == y[i]
    {
      assert LeafStrings(x)[i] == LeafStrings(y)[i];
      LeafInputInjective(x[i], y[i]);
    }
  }

  lemma LeavesDistinct(sha: Hash, x: seq<Entry>, s: set<Bytes>)
    requires DistinctStrings(x) && LeafInputs(x) <= s && !CollisionIn(sha, s)
    ensures Distinct(Leaves(sha, x)) && AllDigests(Leaves(sha, x))
  {
    forall i, j | 0 <= i < j < |x|
      ensures sha(LeafInput(x[i])) != sha(LeafInput(x[j]))
    {
      assert LeafStrings(x)[i] != LeafStrings(x)[j];
      assert LeafInput(x[i]) in LeafInputs(x) && LeafInput(x[j]) in LeafInputs(x);
    }
  }

  /** The NUL condition is needed: a record with a NUL in its id or hash has another reading, and
      the two one-record collections have one root under every hash function. */
  lemma NulMakesLeavesAmbiguous(x: Entry) returns (y: Entry)
    requires Encodable(x) && (!NulFree(x.id) || !NulFree(x.vecHash))
    ensures Elements([x]) != Elements([y])
    ensures forall sha: Hash :: MerkleRootOf(sha, [x]).Ok? && MerkleRootOf(sha, [x]) == MerkleRootOf(sha, [y])
  {
    y := OtherReading(x);
    assert x in Elements([x]) && x !in Elements([y]);
    forall sha: Hash
      ensures MerkleRootOf(sha, [x]).Ok? && MerkleRootOf(sha, [x]) == MerkleRootOf(sha, [y])
    {
      OneRecordRoot(sha, x);
      OneRecordRoot(sha, y);
    }
  }

  lemma OneRecordRoot(sha: Hash, e: Entry)
    requires Encodable(e)
    ensures MerkleRootOf(sha, [e]) == Ok(Prefixed(sha(LeafInput(e))))
  {
    assert SortById([e]) == [e];
  }

  /** The root describes a set: any order of the same entries gives the same result, and a
      repeated id fails in every order. */
  lemma MerkleRootOrderFree(sha: Hash, a: seq<Entry>, b: seq<Entry>)
    requires multiset(a) == multiset(b)
    ensures MerkleRootOf(sha, a) == MerkleRootOf(sha, b)
  {
    UniqueIdsPermutation(a, b);
    if UniqueIds(a) {
      assert forall e :: e in a <==> e in multiset(a);
      assert forall e :: e in b <==> e in multiset(b);
      assert Elements(a) == Elements(b);
      SortDeterminedBySet(a, b);
    }
  }
}
