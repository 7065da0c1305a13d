/** When two collections share their Merkle root: under every hash function or by a collision, and from the sorted
    list of one of them, whether there is another. */
module SharedRoots {
  import opened Common
  import opened Utf
  import opened Hashing
  import opened Merkle

  /** The tree behind a root: leaf strings, and the pairs the loop makes of a level. */
  datatype Tree = Tip(text: Bytes) | Fork(left: Tree, right: Tree)

  // ---- the tree of a list ----

  /** The level above, the last node of an odd level taken twice. */
  function PairUp(level: seq<Tree>): (up: seq<Tree>)
    ensures |up| == (|level| + 1) / 2
  {
    seq((|level| + 1) / 2, i requires 0 <= i < (|level| + 1) / 2 =>
      Fork(level[2 * i], level[if 2 * i + 1 < |level| then 2 * i + 1 else 2 * i]))
  }

  function Top(level: seq<Tree>): Tree
    requires level != []
    decreases |level|
  {
    if |level| == 1 then level[0] else Top(PairUp(level))
  }

  function Tips(x: seq<Entry>): (level: seq<Tree>)
    ensures |level| == |x|
  {
    seq(|x|, i requires 0 <= i < |x| => Tip(LeafInput(x[i])))
  }

  /** Two lists of records have one tree, or neither has any. */
  predicate SameTree(x: seq<Entry>, y: seq<Entry>) {
    if x == [] || y == [] then x == y else Top(Tips(x)) == Top(Tips(y))
  }

  /** The digest a tree stands for. */
  function DigestOf(sha: Hash, t: Tree): (d: Bytes)
    ensures |d| == 32
  {
    match t
    case Tip(b) => sha(b)
    case Fork(l, r) => sha(NodeInput(DigestOf(sha, l), DigestOf(sha, r)))
  }

  function Digests(sha: Hash, level: seq<Tree>): (ds: seq<Bytes>)
    ensures |ds| == |level| && forall i :: 0 <= i < |level| ==> ds[i] == DigestOf(sha, level[i])
  {
    seq(|level|, i requires 0 <= i < |level| => DigestOf(sha, level[i]))
  }

  lemma DigestsUp(sha: Hash, level: seq<Tree>)
    requires level != []
    ensures Digests(sha, PairUp(level)) == Parents(sha, Digests(sha, level))
  {
    var ds, up := Digests(sha, level), PairUp(level);
    forall i | 0 <= i < |up|
      ensures Digests(sha, up)[i] == Parents(sha, ds)[i]
    {
      ParentAt(sha, ds, i);
      PaddedPair(ds, i);
    }
  }

  lemma PaddedPair(level: seq<Bytes>, i: nat)
    requires level != [] && 2 * i < |level|
    ensures Padded(level)[2 * i] == level[2 * i]
    ensures Padded(level)[2 * i + 1] == level[if 2 * i + 1 < |level| then 2 * i + 1 else 2 * i]
  {
  }

  lemma {:induction false} TopDigest(sha: Hash, level: seq<Tree>)
    requires level != []
    ensures LevelRoot(sha, Digests(sha, level)) == DigestOf(sha, Top(level))
    decreases |level|
  {
    if |level| > 1 {
      DigestsUp(sha, level);
      TopDigest(sha, PairUp(level));
    }
  }

  lemma RootIsTop(sha: Hash, x: seq<Entry>)
    requires x != []
    ensures LevelRoot(sha, Leaves(sha, x)) == DigestOf(sha, Top(Tips(x)))
  {
    assert Digests(sha, Tips(x)) == Leaves(sha, x);
    TopDigest(sha, Tips(x));
  }

  // ---- one tree, one root ----

  /** What `merkle_root` asks of a collection. */
  ghost predicate IsAccepted(a: seq<Entry>) {
    UniqueIds(a) && AllEncodable(a)
  }

  lemma AcceptedRoot(sha: Hash, a: seq<Entry>)
    requires IsAccepted(a)
    ensures var x := SortById(a);
            MerkleRootOf(sha, a) == Ok(if x == [] then HashBytes(sha, []) else Prefixed(LevelRoot(sha, Leaves(sha, x))))
  {
    SortedEncodable(a);
  }

  /** Collections with one tree share their root under every hash function. */
  lemma SameTreeSameRoot(a: seq<Entry>, b: seq<Entry>)
    requires IsAccepted(a) && IsAccepted(b) && SameTree(SortById(a), SortById(b))
    ensures forall sha: Hash :: MerkleRootOf(sha, a).Ok? && MerkleRootOf(sha, a) == MerkleRootOf(sha, b)
  {
    forall sha: Hash
      ensures MerkleRootOf(sha, a).Ok? && MerkleRootOf(sha, a) == MerkleRootOf(sha, b)
    {
      AcceptedRoot(sha, a);
      AcceptedRoot(sha, b);
      if SortById(a) != [] {
        RootIsTop(sha, SortById(a));
        RootIsTop(sha, SortById(b));
      }
    }
  }

  /** The strings hashed for a tree. */
  ghost function InputsOf(sha: Hash, t: Tree): set<Bytes> {
    match t
    case Tip(b) => {b}
    case Fork(l, r) => {NodeInput(DigestOf(sha, l), DigestOf(sha, r))} + InputsOf(sha, l) + InputsOf(sha, r)
  }

  /** Every tip is a leaf string: it starts with 0, as no interior string does. */
  predicate HasLeafTips(t: Tree) {
    match t
    case Tip(b) => b != [] && b[0] == 0
    case Fork(l, r) => HasLeafTips(l) && HasLeafTips(r)
  }

  lemma NodeStart(l: Bytes, r: Bytes)
    ensures NodeInput(l, r) != [] && NodeInput(l, r)[0] == 1
  {
  }

  lemma NoCollision(sha: Hash, s: set<Bytes>, x: Bytes, y: Bytes)
    requires !CollisionIn(sha, s) && x in s && y in s && sha(x) == sha(y)
    ensures x == y
  {
  }

  /** Without a collision a digest stands for one tree only. */
  lemma {:induction false} DigestTells(sha: Hash, t: Tree, u: Tree, s: set<Bytes>)
    requires DigestOf(sha, t) == DigestOf(sha, u) && HasLeafTips(t) && HasLeafTips(u)
    requires InputsOf(sha, t) + InputsOf(sha, u) <= s && !CollisionIn(sha, s)
    ensures t == u
  {
    var x := InputAt(sha, t, s);
    var y := InputAt(sha, u, s);
    NoCollision(sha, s, x, y);
    if t.Fork? && u.Fork? {
      NodeInputInjective(DigestOf(sha, t.left), DigestOf(sha, t.right), DigestOf(sha, u.left), DigestOf(sha, u.right));
      DigestTells(sha, t.left, u.left, s);
      DigestTells(sha, t.right, u.right, s);
    }
  }

  /** The string whose digest the tree's is. */
  lemma InputAt(sha: Hash, t: Tree, s: set<Bytes>) returns (x: Bytes)
    requires HasLeafTips(t) && InputsOf(sha, t) <= s
    ensures x in s && sha(x) == DigestOf(sha, t) && x != [] && (x[0] == 0 <==> t.Tip?)
    ensures t.Tip? ==> x == t.text
    ensures t.Fork? ==> x == NodeInput(DigestOf(sha, t.left), DigestOf(sha, t.right))
  {
    if t.Tip? {
      x := t.text;
    } else {
      x := NodeInput(DigestOf(sha, t.left), DigestOf(sha, t.right));
      NodeStart(DigestOf(sha, t.left), DigestOf(sha, t.right));
    }
  }

  ghost predicate AreCovered(sha: Hash, level: seq<Tree>, s: set<Bytes>) {
    forall i :: 0 <= i < |level| ==> InputsOf(sha, level[i]) <= s && HasLeafTips(level[i])
  }

  lemma CoveredUp(sha: Hash, level: seq<Tree>, s: set<Bytes>)
    requires level != [] && AreCovered(sha, level, s) && LevelInputs(Digests(sha, level)) <= s
    ensures AreCovered(sha, PairUp(level), s)
  {
    var ds, up := Digests(sha, level), PairUp(level);
    forall i | 0 <= i < |up|
      ensures InputsOf(sha, up[i]) <= s && HasLeafTips(up[i])
    {
      LevelInputAt(ds, i);
      PaddedPair(ds, i);
    }
  }

  lemma {:induction false} TopIsCovered(sha: Hash, level: seq<Tree>, s: set<Bytes>)
    requires level != [] && AreCovered(sha, level, s) && NodeInputs(sha, Digests(sha, level)) <= s
    ensures InputsOf(sha, Top(level)) <= s && HasLeafTips(Top(level))
    decreases |level|
  {
    if |level| > 1 {
      CoveredUp(sha, level, s);
      DigestsUp(sha, level);
      TopIsCovered(sha, PairUp(level), s);
    }
  }

  lemma TreeIsCovered(sha: Hash, x: seq<Entry>, s: set<Bytes>)
    requires x != [] && LeafInputs(x) + NodeInputs(sha, Leaves(sha, x)) <= s
    ensures InputsOf(sha, Top(Tips(x))) <= s && HasLeafTips(Top(Tips(x)))
  {
    assert Digests(sha, Tips(x)) == Leaves(sha, x);
    forall i | 0 <= i < |x|
      ensures InputsOf(sha, Tips(x)[i]) <= s && HasLeafTips(Tips(x)[i])
    {
      assert LeafInput(x[i]) in LeafInputs(x);
    }
    TopIsCovered(sha, Tips(x), s);
  }

  /** Collections that share their root under some hash function have one tree, or two of the strings hashed for the
      two roots collide. */
  lemma SameRootSameTree(sha: Hash, a: seq<Entry>, b: seq<Entry>)
    requires IsAccepted(a) && IsAccepted(b) && MerkleRootOf(sha, a) == MerkleRootOf(sha, b)
    ensures SameTree(SortById(a), SortById(b)) || CollisionIn(sha, HashedStrings(sha, a) + HashedStrings(sha, b))
  {
    var s := HashedStrings(sha, a) + HashedStrings(sha, b);
    if !CollisionIn(sha, s) {
      var x, y := SortById(a), SortById(b);
      AcceptedRoot(sha, a);
      AcceptedRoot(sha, b);
      if x == [] && y == [] {
      } else if x == [] {
        EmptyRootDiffers(sha, b, s);
      } else if y == [] {
        EmptyRootDiffers(sha, a, s);
      } else {
        TreesMeet(sha, x, y, s);
      }
    }
  }

  lemma TreesMeet(sha: Hash, x: seq<Entry>, y: seq<Entry>, s: set<Bytes>)
    requires x != [] && y != [] && Prefixed(LevelRoot(sha, Leaves(sha, x))) == Prefixed(LevelRoot(sha, Leaves(sha, y)))
    requires LeafInputs(x) + NodeInputs(sha, Leaves(sha, x)) <= s
    requires LeafInputs(y) + NodeInputs(sha, Leaves(sha, y)) <= s && !CollisionIn(sha, s)
    ensures SameTree(x, y)
  {
    PrefixedInjective(LevelRoot(sha, Leaves(sha, x)), LevelRoot(sha, Leaves(sha, y)));
    RootIsTop(sha, x);
    RootIsTop(sha, y);
    TreeIsCovered(sha, x, s);
    TreeIsCovered(sha, y, s);
    DigestTells(sha, Top(Tips(x)), Top(Tips(y)), s);
  }

  // ---- lists with one tree ----

  function HeightOf(t: Tree): nat {
    match t
    case Tip(_) => 0
    case Fork(l, _) => 1 + HeightOf(l)
  }

  predicate IsUniform(level: seq<Tree>, h: nat) {
    forall i :: 0 <= i < |level| ==> HeightOf(level[i]) == h
  }

  lemma UniformUp(level: seq<Tree>, h: nat)
    requires IsUniform(level, h)
    ensures IsUniform(PairUp(level), h + 1)
  {
  }

  lemma {:induction false} TopHeight(level: seq<Tree>, h: nat)
    requires level != [] && IsUniform(level, h)
    ensures HeightOf(Top(level)) >= h && (|level| > 1 ==> HeightOf(Top(level)) > h)
    decreases |level|
  {
    if |level| > 1 {
      UniformUp(level, h);
      TopHeight(PairUp(level), h + 1);
    }
  }

  /** Of two levels with one top the shorter is the beginning of the longer. */
  lemma {:induction false} ShorterIsPrefix(a: seq<Tree>, b: seq<Tree>, h: nat)
    requires a != [] && b != [] && |b| <= |a| && IsUniform(a, h) && IsUniform(b, h) && Top(a) == Top(b)
    ensures b == a[..|b|]
    decreases |a|
  {
    TopHeight(a, h);
    TopHeight(b, h);
    if |b| == 1 {
      assert |a| == 1;
    } else {
      UniformUp(a, h);
      UniformUp(b, h);
      ShorterIsPrefix(PairUp(a), PairUp(b), h + 1);
      PrefixDown(a, b);
    }
  }

  lemma PrefixDown(a: seq<Tree>, b: seq<Tree>)
    requires |b| <= |a| && PairUp(b) == PairUp(a)[..|PairUp(b)|]
    ensures b == a[..|b|]
  {
    forall k | 0 <= k < |b|
      ensures b[k] == a[k]
    {
      var i := k / 2;
      assert PairUp(b)[i] == PairUp(a)[i];
    }
  }

  lemma SameStrings(x: seq<Entry>, y: seq<Entry>)
    requires SameTree(x, y) && |y| <= |x|
    ensures forall i :: 0 <= i < |y| ==> LeafInput(y[i]) == LeafInput(x[i])
  {
    if x != [] && y != [] {
      ShorterIsPrefix(Tips(x), Tips(y), 0);
      forall i | 0 <= i < |y|
        ensures LeafInput(y[i]) == LeafInput(x[i])
      {
        assert Tips(y)[i] == Tips(x)[..|y|][i];
      }
    }
  }

  // ---- reading one record otherwise ----

  /** `y` is another reading of the leaf string of record `i` that keeps the order of the ids. */
  predicate FitsAt(x: seq<Entry>, i: nat, y: Entry)
    requires i < |x|
  {
    && y != x[i] && LeafInput(y) == LeafInput(x[i])
    && (i > 0 ==> LexLess(x[i - 1].id, y.id)) && (i + 1 < |x| ==> LexLess(y.id, x[i + 1].id))
  }

  /** Some record can be read otherwise where it stands. */
  ghost predicate IsReadable(x: seq<Entry>) {
    exists i, y: Entry :: 0 <= i < |x| && FitsAt(x, i, y)
  }

  lemma Adjacent(x: seq<Entry>, i: nat)
    requires StrictlySorted(Ids(x)) && i + 1 < |x|
    ensures LexLess(x[i].id, x[i + 1].id)
  {
    assert LexLess(Ids(x)[i], Ids(x)[i + 1]);
  }

  /** Lists in strict order with the same leaf strings. */
  ghost predicate AreReadings(x: seq<Entry>, y: seq<Entry>) {
    && |x| == |y| && StrictlySorted(Ids(x)) && StrictlySorted(Ids(y))
    && forall i :: 0 <= i < |x| ==> LeafInput(y[i]) == LeafInput(x[i])
  }

  lemma {:induction false} LaterFits(x: seq<Entry>, y: seq<Entry>, i: nat)
    requires AreReadings(x, y) && i < |x| && LexLess(x[i].id, y[i].id)
    ensures IsReadable(x)
    decreases |x| - i
  {
    LexIrreflexive(x[i].id);
    if i + 1 == |x| || LexLess(y[i].id, x[i + 1].id) {
      if i > 0 {
        Adjacent(x, i - 1);
        LexTransitive(x[i - 1].id, x[i].id, y[i].id);
      }
      assert FitsAt(x, i, y[i]);
    } else {
      Adjacent(y, i);
      LexTotal(y[i].id, x[i + 1].id);
      if x[i + 1].id != y[i].id {
        LexTransitive(x[i + 1].id, y[i].id, y[i + 1].id);
      }
      LaterFits(x, y, i + 1);
    }
  }

  lemma {:induction false} EarlierFits(x: seq<Entry>, y: seq<Entry>, i: nat)
    requires AreReadings(x, y) && i < |x| && LexLess(y[i].id, x[i].id)
    ensures IsReadable(x)
    decreases i
  {
    LexIrreflexive(x[i].id);
    if i == 0 || LexLess(x[i - 1].id, y[i].id) {
      if i + 1 < |x| {
        Adjacent(x, i);
        LexTransitive(y[i].id, x[i].id, x[i + 1].id);
      }
      assert FitsAt(x, i, y[i]);
    } else {
      Adjacent(y, i - 1);
      LexTotal(y[i].id, x[i - 1].id);
      if x[i - 1].id != y[i].id {
        LexTransitive(y[i - 1].id, y[i].id, x[i - 1].id);
      }
      EarlierFits(x, y, i - 1);
    }
  }

  lemma SameIdSameEntry(x: Entry, y: Entry)
    requires LeafInput(x) == LeafInput(y) && x.id == y.id
    ensures x == y
  {
    assert Utf8Raw(x.vecHash) == LeafInput(x)[|Utf8Raw(x.id)| + 2..];
    assert Utf8Raw(y.vecHash) == LeafInput(y)[|Utf8Raw(y.id)| + 2..];
    Utf8Injective(x.vecHash, y.vecHash);
  }

  /** If the whole list can be read otherwise, one record alone can. */
  lemma OneIsEnough(x: seq<Entry>, y: seq<Entry>)
    requires AreReadings(x, y) && x != y
    ensures IsReadable(x)
  {
    var i :| 0 <= i < |x| && x[i] != y[i];
    LexTotal(x[i].id, y[i].id);
    if LexLess(x[i].id, y[i].id) {
      LaterFits(x, y, i);
    } else if LexLess(y[i].id, x[i].id) {
      EarlierFits(x, y, i);
    } else {
      SameIdSameEntry(x[i], y[i]);
    }
  }

  // ---- another collection of one tree ----

  /** The list can be continued by other readings of its own leaf strings that leave the tree as it is. */
  ghost predicate CanGrow(x: seq<Entry>) {
    exists e: seq<Entry> :: e != [] && StrictlySorted(Ids(x + e)) && AllEncodable(x + e) && SameTree(x, x + e)
  }

  /** A shorter beginning of the list has its tree. */
  predicate CanShrink(x: seq<Entry>) {
    exists m :: 0 < m < |x| && SameTree(x[..m], x)
  }

  /** Another collection has the tree of `x`. */
  ghost predicate IsShared(a: seq<Entry>) {
    exists b: seq<Entry> :: IsAccepted(b) && Elements(b) != Elements(a) && SameTree(SortById(a), SortById(b))
  }

  lemma AcceptedIsStrict(a: seq<Entry>)
    requires IsAccepted(a)
    ensures StrictlySorted(Ids(SortById(a))) && AllEncodable(SortById(a)) && Elements(SortById(a)) == Elements(a)
  {
    SortedUniqueIsStrict(a);
    SortedEncodable(a);
    SameElements(a);
  }

  /** A different list in strict order with the same tree is another collection. */
  lemma OtherList(a: seq<Entry>, y: seq<Entry>)
    requires IsAccepted(a) && StrictlySorted(Ids(y)) && AllEncodable(y) && y != SortById(a)
    requires SameTree(SortById(a), y)
    ensures IsShared(a)
  {
    AcceptedIsStrict(a);
    StrictIsSorted(y);
    if Elements(y) == Elements(a) {
      StrictListsAgree(SortById(a), y);
    }
  }

  lemma TextIsKept(x: Entry, y: Entry)
    requires LeafInput(x) == LeafInput(y)
    ensures x.id + [0] + x.vecHash == y.id + [0] + y.vecHash
  {
    Utf8AroundNul(x.id, x.vecHash);
    Utf8AroundNul(y.id, y.vecHash);
    LeafTail(x);
    LeafTail(y);
    Utf8Injective(x.id + [0] + x.vecHash, y.id + [0] + y.vecHash);
  }

  lemma LeafTail(x: Entry)
    ensures LeafInput(x)[1..] == Utf8Raw(x.id) + [0] + Utf8Raw(x.vecHash)
  {
  }

  lemma ReadingEncodes(x: Entry, y: Entry)
    requires LeafInput(x) == LeafInput(y) && Encodable(x)
    ensures Encodable(y)
  {
    TextIsKept(x, y);
    SurrogateFreeAroundNul(x.id, x.vecHash);
    SurrogateFreeAroundNul(y.id, y.vecHash);
  }

  lemma {:induction false} StrictFromAdjacent(ks: seq<Text>, i: nat, j: nat)
    requires i < j < |ks| && forall k :: 0 <= k < |ks| - 1 ==> LexLess(ks[k], ks[k + 1])
    ensures LexLess(ks[i], ks[j])
    decreases j
  {
    if j > i + 1 {
      StrictFromAdjacent(ks, i, j - 1);
      LexTransitive(ks[i], ks[j - 1], ks[j]);
    }
  }

  lemma ReplacedIsStrict(x: seq<Entry>, i: nat, y: Entry)
    requires StrictlySorted(Ids(x)) && i < |x| && FitsAt(x, i, y)
    ensures StrictlySorted(Ids(x[i := y]))
  {
    var ks := Ids(x[i := y]);
    forall k | 0 <= k < |ks| - 1
      ensures LexLess(ks[k], ks[k + 1])
    {
      Adjacent(x, k);
    }
    forall m, n | 0 <= m < n < |ks|
      ensures LexLess(ks[m], ks[n])
    {
      StrictFromAdjacent(ks, m, n);
    }
  }

  lemma ReplacedHasTree(x: seq<Entry>, i: nat, y: Entry)
    requires i < |x| && LeafInput(y) == LeafInput(x[i])
    ensures SameTree(x, x[i := y])
  {
    assert Tips(x[i := y]) == Tips(x);
  }

  lemma ReadableIsShared(a: seq<Entry>)
    requires IsAccepted(a) && IsReadable(SortById(a))
    ensures IsShared(a)
  {
    var x := SortById(a);
    AcceptedIsStrict(a);
    var i, y: Entry :| 0 <= i < |x| && FitsAt(x, i, y);
    ReplacedIsOther(x, i, y);
    OtherList(a, x[i := y]);
  }

  lemma ReplacedIsOther(x: seq<Entry>, i: nat, y: Entry)
    requires StrictlySorted(Ids(x)) && AllEncodable(x) && i < |x| && FitsAt(x, i, y)
    ensures var z := x[i := y];
            StrictlySorted(Ids(z)) && AllEncodable(z) && z != x && SameTree(x, z)
  {
    ReplacedIsStrict(x, i, y);
    ReplacedHasTree(x, i, y);
    ReadingEncodes(x[i], y);
    assert x[i := y][i] != x[i];
  }

  lemma GrowingIsShared(a: seq<Entry>)
    requires IsAccepted(a) && CanGrow(SortById(a))
    ensures IsShared(a)
  {
    var x := SortById(a);
    var e: seq<Entry> :| e != [] && StrictlySorted(Ids(x + e)) && AllEncodable(x + e) && SameTree(x, x + e);
    assert |x + e| != |x|;
    OtherList(a, x + e);
  }

  lemma ShrinkingIsShared(a: seq<Entry>)
    requires IsAccepted(a) && CanShrink(SortById(a))
    ensures IsShared(a)
  {
    var x := SortById(a);
    AcceptedIsStrict(a);
    var m :| 0 < m < |x| && SameTree(x[..m], x);
    PrefixIsStrict(x, m);
    assert |x[..m]| != |x|;
    OtherList(a, x[..m]);
  }

  lemma PrefixIsStrict(x: seq<Entry>, m: nat)
    requires StrictlySorted(Ids(x)) && AllEncodable(x) && m <= |x|
    ensures StrictlySorted(Ids(x[..m])) && AllEncodable(x[..m])
  {
    assert Ids(x[..m]) == Ids(x)[..m];
  }

  lemma SharedMeans(a: seq<Entry>, b: seq<Entry>)
    requires IsAccepted(a) && IsAccepted(b) && Elements(b) != Elements(a) && SameTree(SortById(a), SortById(b))
    ensures var x := SortById(a); IsReadable(x) || CanGrow(x) || CanShrink(x)
  {
    AcceptedIsStrict(a);
    AcceptedIsStrict(b);
    if |SortById(b)| < |SortById(a)| {
      ShorterMeans(SortById(a), SortById(b));
    } else {
      LongerMeans(SortById(a), SortById(b));
    }
  }

  lemma ShorterMeans(x: seq<Entry>, y: seq<Entry>)
    requires SameTree(x, y) && |y| < |x|
    ensures CanShrink(x)
  {
    SameStrings(x, y);
    var m := |y|;
    assert Tips(x[..m]) == Tips(y);
    assert SameTree(x[..m], x);
  }

  lemma LongerMeans(x: seq<Entry>, y: seq<Entry>)
    requires SameTree(x, y) && |x| <= |y| && x != y
    requires StrictlySorted(Ids(x)) && StrictlySorted(Ids(y)) && AllEncodable(y)
    ensures IsReadable(x) || CanGrow(x)
  {
    var n := |x|;
    SameStrings(y, x);
    PrefixIsStrict(y, n);
    if y[..n] == x {
      assert y == x + y[n..];
      assert y[n..] != [];
    } else {
      OneIsEnough(x, y[..n]);
    }
  }

  /** Main result. Another accepted collection has the tree of `a`, hence its root under every hash function, exactly
      when in the sorted list of `a` one record can be read otherwise where it stands, or the list can be continued by
      other readings of its own leaf strings, or a shorter beginning of it has the same tree. */
  lemma SharedIff(a: seq<Entry>)
    requires IsAccepted(a)
    ensures IsShared(a) <==> var x := SortById(a); IsReadable(x) || CanGrow(x) || CanShrink(x)
  {
    var x := SortById(a);
    if IsReadable(x) {
      ReadableIsShared(a);
    }
    if CanGrow(x) {
      GrowingIsShared(a);
    }
    if CanShrink(x) {
      ShrinkingIsShared(a);
    }
    if IsShared(a) {
      var b: seq<Entry> :| IsAccepted(b) && Elements(b) != Elements(a) && SameTree(SortById(a), SortById(b));
      SharedMeans(a, b);
    }
  }

  // ---- odd collections grow when the last hash holds a NUL ----

  lemma LaterNeedsNul(x: Entry, y: Entry)
    requires LeafInput(y) == LeafInput(x) && LexLess(x.id, y.id)
    ensures !NulFree(x.vecHash)
  {
    TextIsKept(x, y);
    var t, k, n := x.id + [0] + x.vecHash, |y.id|, |x.id|;
    assert t[k] == 0 && t[..k] == y.id && t[..n] == x.id;
    if k <= n {
      assert y.id == x.id[..k];
      PrefixIsNotLater(x.id, k);
    } else {
      assert x.vecHash[k - n - 1] == 0;
    }
  }

  lemma {:induction false} PrefixIsNotLater(id: Text, k: nat)
    requires k <= |id|
    ensures !LexLess(id, id[..k])
  {
    if k > 0 {
      PrefixIsNotLater(id[1..], k - 1);
      assert id[..k][1..] == id[1..][..k - 1];
    }
  }

  lemma LastPair(level: seq<Tree>)
    requires |level| % 2 == 1
    ensures PairUp(level)[|level| / 2] == Fork(level[|level| - 1], level[|level| - 1])
  {
  }

  lemma PairAt(level: seq<Tree>, i: nat)
    requires 2 * i + 1 < |level|
    ensures PairUp(level)[i] == Fork(level[2 * i], level[2 * i + 1])
  {
  }

  /** What a longer level with the same top has after the last node of an odd one is that node again. */
  lemma NextNode(a: seq<Tree>, b: seq<Tree>)
    requires |a| > 1 && |a| % 2 == 1 && |b| > |a| && IsUniform(a, 0) && IsUniform(b, 0) && Top(a) == Top(b)
    ensures b[|a|] == a[|a| - 1]
  {
    var i := |a| / 2;
    UniformUp(a, 0);
    UniformUp(b, 0);
    ShorterIsPrefix(PairUp(b), PairUp(a), 1);
    LastPair(a);
    PairAt(b, i);
    assert PairUp(a)[i] == PairUp(b)[..|PairUp(a)|][i];
  }

  /** The first record a longer list of the same tree has more re-reads the last record of an odd one. */
  lemma NextString(x: seq<Entry>, y: seq<Entry>)
    requires |x| > 1 && |x| % 2 == 1 && |y| > |x| && SameTree(x, y)
    ensures LeafInput(y[|x|]) == LeafInput(x[|x| - 1])
  {
    NextNode(Tips(x), Tips(y));
    assert Tips(y)[|x|] == Tips(x)[|x| - 1];
  }

  lemma RepeatedHasTree(x: seq<Entry>, y: Entry)
    requires |x| > 1 && |x| % 2 == 1 && LeafInput(y) == LeafInput(x[|x| - 1])
    ensures SameTree(x, x + [y])
  {
    var a, b := Tips(x), Tips(x + [y]);
    assert forall i :: 0 <= i < |x| ==> b[i] == a[i];
    assert b[|x|] == a[|x| - 1];
    assert PairUp(b) == PairUp(a);
  }

  lemma GrowthNeedsNul(x: seq<Entry>, e: seq<Entry>)
    requires |x| > 1 && |x| % 2 == 1 && e != [] && StrictlySorted(Ids(x + e)) && SameTree(x, x + e)
    ensures !NulFree(x[|x| - 1].vecHash)
  {
    var n := |x|;
    NextString(x, x + e);
    Adjacent(x + e, n - 1);
    LaterNeedsNul(x[n - 1], (x + e)[n]);
  }

  lemma NulGrows(x: seq<Entry>)
    requires |x| > 1 && |x| % 2 == 1 && StrictlySorted(Ids(x)) && AllEncodable(x) && !NulFree(x[|x| - 1].vecHash)
    ensures CanGrow(x)
  {
    var y := LaterReading(x[|x| - 1]);
    RepeatedHasTree(x, y);
    IdsSnoc(x, y);
    StrictSnoc(Ids(x), y.id);
    assert [y] != [] && AllEncodable(x + [y]);
  }

  /** An odd list of three or more records can be continued exactly when the hash of its last record holds a NUL. */
  lemma OddGrowsIff(x: seq<Entry>)
    requires |x| > 1 && |x| % 2 == 1 && StrictlySorted(Ids(x)) && AllEncodable(x)
    ensures CanGrow(x) <==> !NulFree(x[|x| - 1].vecHash)
  {
    if CanGrow(x) {
      var e: seq<Entry> :| e != [] && StrictlySorted(Ids(x + e)) && AllEncodable(x + e) && SameTree(x, x + e);
      GrowthNeedsNul(x, e);
    }
    if !NulFree(x[|x| - 1].vecHash) {
      NulGrows(x);
    }
  }
}
