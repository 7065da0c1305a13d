/** SHA-256 as an arbitrary function to 32 bytes, and the `sha256:<hex>` text form.
    Nothing here assumes the hash injective (it cannot be): results conclude that a
    collision lies among the strings that were actually hashed. */
module Hashing {
  import opened Common
  import opened JsonText

  type Hash = Bytes -> Digest

  /** Two different strings of `s` have the same digest. */
  ghost predicate CollisionIn(sha: Hash, s: set<Bytes>) {
    exists x, y :: x in s && y in s && x != y && sha(x) == sha(y)
  }

  /** `bytes.hex()`: two lowercase digits per byte. */
  function Hex(b: Bytes): (t: Text)
    ensures |t| == 2 * |b|
  {
    if b == [] then [] else [HexDigit(b[0] / 16), HexDigit(b[0] % 16)] + Hex(b[1..])
  }

  lemma {:induction false} HexInjective(a: Bytes, b: Bytes)
    requires Hex(a) == Hex(b)
    ensures a == b
  {
    if a != [] && b != [] {
      var x, y := Hex(a), Hex(b);
      assert HexDigit(a[0] / 16) == x[0] == y[0] == HexDigit(b[0] / 16);
      assert HexDigit(a[0] % 16) == x[1] == y[1] == HexDigit(b[0] % 16);
      assert Hex(a[1..]) == x[2..] == y[2..] == Hex(b[1..]);
      HexInjective(a[1..], b[1..]);
      assert a == [a[0]] + a[1..] && b == [b[0]] + b[1..];
    }
  }

  /** `sha256:<64 lowercase hex digits>`. */
  predicate IsHashString(t: Text)
  {
    StartsWith(t, Ascii("sha256:")) && |t| == 71
    && forall i :: 7 <= i < 71 ==> IsDigit(t[i]) || 'a' as int <= t[i] <= 'f' as int
  }

  /** What Python's pattern for it matches: `$` also matches before a final newline. */
  predicate PyHashString(t: Text) {
    IsHashString(t) || (t != [] && t[|t| - 1] == 10 && IsHashString(t[..|t| - 1]))
  }

  function Prefixed(d: Bytes): (t: Text)
  {
    Ascii("sha256:") + Hex(d)
  }

  /** `hash_bytes`. */
  function HashBytes(sha: Hash, data: Bytes): Text
  {
    Prefixed(sha(data))
  }

  lemma PrefixedInjective(a: Bytes, b: Bytes)
    requires Prefixed(a) == Prefixed(b)
    ensures a == b
  {
    assert Hex(a) == Prefixed(a)[7..] && Hex(b) == Prefixed(b)[7..];
    HexInjective(a, b);
  }

  lemma {:induction false} HexDigits(b: Bytes)
    ensures forall i :: 0 <= i < |Hex(b)| ==> IsDigit(Hex(b)[i]) || 'a' as int <= Hex(b)[i] <= 'f' as int
  {
    if b != [] {
      HexDigits(b[1..]);
      var t := Hex(b);
      forall i | 0 <= i < |t|
        ensures IsDigit(t[i]) || 'a' as int <= t[i] <= 'f' as int
      {
        if i >= 2 {
          assert t[i] == Hex(b[1..])[i - 2];
        }
      }
    }
  }

  /** The numbers that pairs of hexadecimal digits denote, the first digit the higher one. */
  function ReadHex(t: Text): (b: seq<int>)
    ensures |b| == |t| / 2
    ensures forall i :: 0 <= i < |b| ==> b[i] == 16 * HexValue(t[2 * i]) + HexValue(t[2 * i + 1])
  {
    seq(|t| / 2, i requires 0 <= i < |t| / 2 => 16 * HexValue(t[2 * i]) + HexValue(t[2 * i + 1]))
  }

  lemma {:induction false} HexDenotes(b: Bytes, i: nat)
    requires i < |b|
    ensures 16 * HexValue(Hex(b)[2 * i]) + HexValue(Hex(b)[2 * i + 1]) == b[i]
  {
    if i == 0 {
      HexBack(b[0] / 16);
      HexBack(b[0] % 16);
    } else {
      HexDenotes(b[1..], i - 1);
      assert Hex(b)[2 * i] == Hex(b[1..])[2 * (i - 1)] && Hex(b)[2 * i + 1] == Hex(b[1..])[2 * (i - 1) + 1];
    }
  }

  /** The text is `sha256:` and 64 lowercase digits that spell the digest. */
  predicate Spells(t: Text, d: Bytes) {
    IsHashString(t) && ReadHex(t[7..]) == d
  }

  lemma PrefixedSpells(d: Digest)
    ensures Spells(Prefixed(d), d)
  {
    var t := Prefixed(d);
    HexDigits(d);
    assert t[..7] == Ascii("sha256:") && t[7..] == Hex(d);
    assert forall i :: 7 <= i < 71 ==> t[i] == Hex(d)[i - 7];
    forall i | 0 <= i < |d|
      ensures ReadHex(Hex(d))[i] == d[i]
    {
      HexDenotes(d, i);
    }
  }

  /** Every hash the system prints spells the digest of its string. */
  lemma HashBytesSpells(sha: Hash, data: Bytes)
    ensures Spells(HashBytes(sha, data), sha(data))
  {
    PrefixedSpells(sha(data));
  }

  lemma DigitBack(c: int)
    requires IsDigit(c) || 'a' as int <= c <= 'f' as int
    ensures 0 <= HexValue(c) < 16 && HexDigit(HexValue(c)) == c
  {
  }

  /** Any even number of lowercase digits are the digits of some bytes. */
  lemma {:induction false} DigitsAreHex(t: Text) returns (b: Bytes)
    requires |t| % 2 == 0 && forall i :: 0 <= i < |t| ==> IsDigit(t[i]) || 'a' as int <= t[i] <= 'f' as int
    ensures Hex(b) == t
  {
    if t == [] {
      b := [];
    } else {
      DigitBack(t[0]);
      DigitBack(t[1]);
      var high, low := HexValue(t[0]), HexValue(t[1]);
      var tail := DigitsAreHex(t[2..]);
      b := [16 * high + low] + tail;
      assert b[0] / 16 == high && b[0] % 16 == low && b[1..] == tail;
      assert t == [t[0], t[1]] + t[2..];
    }
  }

  /** The shape the parsers demand is exactly that of the printed digests. */
  lemma HashStringsAreDigests(t: Text)
    ensures IsHashString(t) <==> exists d: Digest :: t == Prefixed(d)
  {
    if IsHashString(t) {
      var d := DigitsAreHex(t[7..]);
      assert t[..7] == Ascii("sha256:") && t == t[..7] + t[7..];
      assert |d| == 32 && t == Prefixed(d);
    }
    if exists d: Digest :: t == Prefixed(d) {
      var d: Digest :| t == Prefixed(d);
      PrefixedSpells(d);
    }
  }

  /** Every hash the system prints has the shape the parsers demand. */
  lemma HashBytesIsHashString(sha: Hash, data: Bytes)
    ensures IsHashString(HashBytes(sha, data))
  {
    var t := HashBytes(sha, data);
    HexDigits(sha(data));
    assert t[..7] == Ascii("sha256:");
    assert forall i :: 7 <= i < 71 ==> t[i] == Hex(sha(data))[i - 7];
  }

  /** Equal printed hashes of different strings are a collision between those strings. */
  lemma HashBytesBinding(sha: Hash, x: Bytes, y: Bytes)
    requires HashBytes(sha, x) == HashBytes(sha, y)
    ensures x == y || CollisionIn(sha, {x, y})
  {
    PrefixedInjective(sha(x), sha(y));
  }
}
