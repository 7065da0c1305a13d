/** Vocabulary shared by every part of the model: optional values, bytes, text and
    the lexicographic order that sorting by key uses. */
module Common {
  datatype Option<+T> = None | Some(value: T)

  datatype Result<+T, +E> = Ok(value: T) | Err(error: E)

  type Byte = b: int | 0 <= b < 256

  type Bytes = seq<Byte>

  /** A SHA-256 digest: exactly 32 bytes. The hash itself is always a parameter. */
  type Digest = d: Bytes | |d| == 32 witness seq(32, _ => 0)

  /** A code point or a UTF-16 code unit. Surrogates are included: a Python `str` and a
      JavaScript string can both hold a lone one. */
  type CodePoint = c: int | 0 <= c < 0x110000

  type Text = seq<CodePoint>

  /** The text of an ASCII (or any) string literal. */
  function Ascii(s: string): (t: Text)
    ensures |t| == |s|
    ensures forall i :: 0 <= i < |s| ==> t[i] == s[i] as int
  {
    seq(|s|, i requires 0 <= i < |s| => s[i] as int)
  }

  lemma Assoc<T>(a: seq<T>, b: seq<T>, c: seq<T>)
    ensures (a + b) + c == a + (b + c)
  {
  }

  // ---- lexicographic order ----

  /** Strict lexicographic order; a proper prefix comes first. */
  predicate LexLess(a: seq<int>, b: seq<int>)
  {
    b != [] && (a == [] || a[0] < b[0] || (a[0] == b[0] && LexLess(a[1..], b[1..])))
  }

  lemma {:induction false} LexIrreflexive(a: seq<int>)
    ensures !LexLess(a, a)
  {
    if a != [] {
      LexIrreflexive(a[1..]);
    }
  }

  lemma {:induction false} LexTransitive(a: seq<int>, b: seq<int>, c: seq<int>)
    requires LexLess(a, b) && LexLess(b, c)
    ensures LexLess(a, c)
  {
    if a != [] && a[0] == b[0] && b[0] == c[0] {
      LexTransitive(a[1..], b[1..], c[1..]);
    }
  }

  lemma {:induction false} LexTotal(a: seq<int>, b: seq<int>)
    ensures a == b || LexLess(a, b) || LexLess(b, a)
  {
    if a != [] && b != [] && a[0] == b[0] {
      LexTotal(a[1..], b[1..]);
      assert a == [a[0]] + a[1..] && b == [b[0]] + b[1..];
    }
  }

  lemma LexAsymmetric(a: seq<int>, b: seq<int>)
    requires LexLess(a, b)
    ensures !LexLess(b, a)
  {
    if LexLess(b, a) {
      LexTransitive(a, b, a);
      LexIrreflexive(a);
    }
  }

  /** Two sequences that first differ at position `k` are ordered by that position. */
  lemma {:induction false} LexFirstDifference(a: seq<int>, b: seq<int>, k: nat)
    requires k < |a| && k < |b| && a[..k] == b[..k] && a[k] < b[k]
    ensures LexLess(a, b)
  {
    if k > 0 {
      assert a[0] == a[..k][0] == b[..k][0] == b[0];
      assert a[1..][..k - 1] == a[..k][1..] == b[..k][1..] == b[1..][..k - 1];
      LexFirstDifference(a[1..], b[1..], k - 1);
    }
  }

  /** Conversely an ordered pair is a proper prefix or has a first difference. */
  lemma {:induction false} LexWitness(a: seq<int>, b: seq<int>) returns (k: nat)
    requires LexLess(a, b)
    ensures k <= |a| && k < |b| && a[..k] == b[..k]
    ensures k == |a| || a[k] < b[k]
  {
    if a == [] || a[0] < b[0] {
      k := 0;
    } else {
      var j := LexWitness(a[1..], b[1..]);
      k := j + 1;
      assert a[..k] == [a[0]] + a[1..][..j] && b[..k] == [b[0]] + b[1..][..j];
    }
  }

  // ---- strictly sorted key sequences ----

  ghost predicate StrictlySorted(ks: seq<Text>)
  {
    forall i, j :: 0 <= i < j < |ks| ==> LexLess(ks[i], ks[j])
  }

  ghost function Elements<T(!new)>(s: seq<T>): set<T>
  {
    set x | x in s
  }

  lemma InElements<T(!new)>(s: seq<T>, i: nat)
    requires i < |s|
    ensures s[i] in Elements(s)
  {
  }

  /** A set of keys can be listed in strictly increasing order in only one way. */
  lemma {:induction false} StrictlySortedUnique(a: seq<Text>, b: seq<Text>)
    requires StrictlySorted(a) && StrictlySorted(b) && Elements(a) == Elements(b)
    ensures a == b
  {
    if a == [] {
      assert Elements(a) == {};
      if b != [] {
        InElements(b, 0);
      }
    } else {
      InElements(a, 0);
      assert b != [];
      InElements(b, 0);
      StrictlySortedHead(a, b);
      StrictlySortedTail(a);
      StrictlySortedTail(b);
      assert Elements(a[1..]) == Elements(b[1..]);
      StrictlySortedUnique(a[1..], b[1..]);
      assert a == [a[0]] + a[1..] && b == [b[0]] + b[1..];
    }
  }

  lemma StrictlySortedHead(a: seq<Text>, b: seq<Text>)
    requires StrictlySorted(a) && StrictlySorted(b) && a != [] && b != []
    requires a[0] in b && b[0] in a
    ensures a[0] == b[0]
  {
    var i :| 0 <= i < |b| && b[i] == a[0];
    var j :| 0 <= j < |a| && a[j] == b[0];
    if i > 0 && j > 0 {
      LexAsymmetric(b[0], b[i]);
    }
  }

  lemma StrictlySortedTail(a: seq<Text>)
    requires StrictlySorted(a) && a != []
    ensures StrictlySorted(a[1..]) && Elements(a[1..]) == Elements(a) - {a[0]}
  {
    forall x | x in Elements(a) - {a[0]}
      ensures x in Elements(a[1..])
    {
      var i :| 0 <= i < |a| && a[i] == x;
      assert a[1..][i - 1] == x;
    }
    forall x | x in Elements(a[1..])
      ensures x in Elements(a) - {a[0]}
    {
      var i :| 0 <= i < |a[1..]| && a[1..][i] == x;
      assert a[i + 1] == x && LexLess(a[0], a[i + 1]);
      LexIrreflexive(x);
    }
  }

  lemma StrictlySortedCons(k: Text, rest: seq<Text>)
    requires StrictlySorted(rest) && forall o :: o in rest ==> LexLess(k, o)
    ensures StrictlySorted([k] + rest) && Elements([k] + rest) == {k} + Elements(rest)
  {
    var all := [k] + rest;
    forall x
      ensures x in Elements(all) <==> x in {k} + Elements(rest)
    {
      assert x in all <==> x == k || x in rest;
    }
    forall i, j | 0 <= i < j < |all|
      ensures LexLess(all[i], all[j])
    {
      assert all[j] == rest[j - 1] && rest[j - 1] in rest;
      assert i > 0 ==> all[i] == rest[i - 1];
    }
  }

  /** A non-empty set of keys has a least one. */
  lemma {:induction false} LeastExists(s: set<Text>) returns (k: Text)
    requires s != {}
    ensures k in s && forall o :: o in s && o != k ==> LexLess(k, o)
    decreases |s|
  {
    k :| k in s;
    if exists x :: x in s && x != k {
      var x :| x in s && x != k;
      var m := LeastExists(s - {k});
      LexTotal(k, m);
      if LexLess(m, k) {
        k := m;
      } else {
        forall o | o in s && o != k
          ensures LexLess(k, o)
        {
          if o != m {
            LexTransitive(k, m, o);
          }
        }
      }
    }
  }

  lemma LexAntisymmetric(s: set<Text>)
    ensures forall a, b :: a in s && b in s && LexLess(a, b) ==> !LexLess(b, a)
  {
    forall a, b | a in s && b in s && LexLess(a, b)
      ensures !LexLess(b, a)
    {
      LexAsymmetric(a, b);
    }
  }

  function Least(s: set<Text>): (k: Text)
    requires s != {}
    ensures k in s && forall o :: o in s && o != k ==> LexLess(k, o)
  {
    LexAntisymmetric(s);
    assert exists k :: k in s && forall o :: o in s && o != k ==> LexLess(k, o) by {
      var k := LeastExists(s);
    }
    var k :| k in s && forall o :: o in s && o != k ==> LexLess(k, o);
    k
  }

  /** The keys of a map in the order `sort_keys` and `Object.keys(..).sort()` give. */
  function SortedKeys(s: set<Text>): (ks: seq<Text>)
    ensures StrictlySorted(ks) && Elements(ks) == s
    decreases |s|
  {
    if s == {} then []
    else
      var k := Least(s);
      var rest := SortedKeys(s - {k});
      assert forall o :: o in rest ==> o in Elements(rest);
      StrictlySortedCons(k, rest);
      [k] + rest
  }

  function Pow2(n: nat): (p: nat)
    ensures p >= 1
  {
    if n == 0 then 1 else 2 * Pow2(n - 1)
  }

  // ---- division facts ----

  /** Quotient and remainder are determined by their equation. */
  lemma DivUnique(x: int, m: int, q: int, r: int)
    requires 0 < m && 0 <= r < m && x == m * q + r
    ensures x / m == q && x % m == r
  {
    var d := q - x / m;
    assert m * d == m * q - m * (x / m) == x % m - r;
    assert d >= 1 ==> m * d >= m;
    assert d <= -1 ==> m * d <= -m;
  }

  // ---- sums over a set of keys ----

  function SumOver(s: set<Text>, w: Text -> nat): nat {
    if s == {} then 0
    else
      var k := Least(s);
      w(k) + SumOver(s - {k}, w)
  }

  /** Any key may be counted first. */
  lemma {:induction false} SumSplit(s: set<Text>, w: Text -> nat, k: Text)
    requires k in s
    ensures SumOver(s, w) == w(k) + SumOver(s - {k}, w)
    decreases |s|
  {
    var m := Least(s);
    if k != m {
      SumSplit(s - {m}, w, k);
      SumSplit(s - {k}, w, m);
      assert s - {m} - {k} == s - {k} - {m};
    }
  }

  lemma {:induction false} SumMonotone(s: set<Text>, t: set<Text>, v: Text -> nat, w: Text -> nat)
    requires s <= t && forall k :: k in s ==> v(k) <= w(k)
    ensures SumOver(s, v) <= SumOver(t, w)
    decreases |s|
  {
    if s != {} {
      var k := Least(s);
      SumSplit(t, w, k);
      SumMonotone(s - {k}, t - {k}, v, w);
    }
  }
}
