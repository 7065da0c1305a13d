/** UTF-8 and UTF-16 as the three ports use them: Rust compares and caps UTF-8 bytes,
    Python scans code points, TypeScript scans UTF-16 code units. */
module Utf {
  import opened Common

  predicate IsSurrogate(c: int) {
    0xD800 <= c <= 0xDFFF
  }

  /** No surrogate code point: the text has a UTF-8 encoding. */
  predicate SurrogateFree(t: Text) {
    forall i :: 0 <= i < |t| ==> !IsSurrogate(t[i])
  }

  // ---- UTF-8 (section 3 of RFC 3629) ----

  function Utf8Char(c: CodePoint): (r: Bytes)
    ensures 1 <= |r| <= 4
  {
    if c < 0x80 then [c]
    else if c < 0x800 then [0xC0 + c / 64, 0x80 + c % 64]
    else if c < 0x10000 then [0xE0 + c / 4096, 0x80 + c / 64 % 64, 0x80 + c % 64]
    else [0xF0 + c / 262144, 0x80 + c / 4096 % 64, 0x80 + c / 64 % 64, 0x80 + c % 64]
  }

  /** The UTF-8 bytes of a text, surrogates encoded like any other three-byte code point
      (Python's `surrogatepass`). */
  function Utf8Raw(t: Text): (r: Bytes)
    ensures |r| >= |t|
  {
    if t == [] then [] else Utf8Char(t[0]) + Utf8Raw(t[1..])
  }

  /** `str.encode("utf-8")`: refuses a lone surrogate. */
  function Utf8(t: Text): (r: Option<Bytes>)
    ensures r.Some? <==> SurrogateFree(t)
    ensures r.Some? ==> r.value == Utf8Raw(t)
  {
    if SurrogateFree(t) then Some(Utf8Raw(t)) else None
  }

  /** The encodings of two code points first differ where the smaller has the smaller byte. */
  lemma Utf8CharOrder(a: CodePoint, b: CodePoint) returns (k: nat)
    requires a < b
    ensures k < |Utf8Char(a)| && k < |Utf8Char(b)|
    ensures Utf8Char(a)[..k] == Utf8Char(b)[..k] && Utf8Char(a)[k] < Utf8Char(b)[k]
  {
    if b < 0x80 || (a < 0x80 <= b) || (a < 0x800 <= b) || (a < 0x10000 <= b) {
      k := 0;
    } else if b < 0x800 {
      k := if a / 64 < b / 64 then 0 else 1;
    } else if b < 0x10000 {
      assert a / 4096 == a / 64 / 64 && b / 4096 == b / 64 / 64;
      k := if a / 4096 < b / 4096 then 0 else if a / 64 < b / 64 then 1 else 2;
    } else {
      k := Utf8FourByteOrder(a, b);
    }
  }

  lemma Utf8FourByteOrder(a: CodePoint, b: CodePoint) returns (k: nat)
    requires 0x10000 <= a < b
    ensures k < 4 && Utf8Char(a)[..k] == Utf8Char(b)[..k] && Utf8Char(a)[k] < Utf8Char(b)[k]
  {
    if a / 262144 < b / 262144 {
      k := 0;
    } else if a / 4096 < b / 4096 {
      assert a / 4096 / 64 == a / 262144 && b / 4096 / 64 == b / 262144;
      k := 1;
    } else if a / 64 < b / 64 {
      assert a / 64 / 64 == a / 4096 && b / 64 / 64 == b / 4096;
      k := 2;
    } else {
      k := 3;
    }
  }

  /** Byte order of UTF-8 is code-point order, so Rust's `String` order and Python's `str`
      order list the same keys the same way. */
  lemma {:induction false} Utf8PreservesOrder(a: Text, b: Text)
    ensures LexLess(Utf8Raw(a), Utf8Raw(b)) <==> LexLess(a, b)
  {
    LexTotal(a, b);
    if LexLess(a, b) {
      Utf8Order(a, b);
    } else if a == b {
      LexIrreflexive(a);
      LexIrreflexive(Utf8Raw(a));
    } else {
      Utf8Order(b, a);
      LexAsymmetric(b, a);
      LexAsymmetric(Utf8Raw(b), Utf8Raw(a));
    }
  }

  lemma {:induction false} Utf8Order(a: Text, b: Text)
    requires LexLess(a, b)
    ensures LexLess(Utf8Raw(a), Utf8Raw(b))
  {
    if a == [] {
      assert Utf8Raw(b) != [];
    } else if a[0] == b[0] {
      Utf8Order(a[1..], b[1..]);
      LexCommonPrefix(Utf8Char(a[0]), Utf8Raw(a[1..]), Utf8Raw(b[1..]));
    } else {
      var k := Utf8CharOrder(a[0], b[0]);
      var x, y := Utf8Raw(a), Utf8Raw(b);
      assert x[..k] == Utf8Char(a[0])[..k] && y[..k] == Utf8Char(b[0])[..k];
      LexFirstDifference(x, y, k);
    }
  }

  lemma {:induction false} LexCommonPrefix(p: seq<int>, a: seq<int>, b: seq<int>)
    requires LexLess(a, b)
    ensures LexLess(p + a, p + b)
  {
    if p == [] {
      assert p + a == a && p + b == b;
    } else {
      LexCommonPrefix(p[1..], a, b);
      assert (p + a)[1..] == p[1..] + a && (p + b)[1..] == p[1..] + b;
    }
  }

  lemma Utf8Injective(a: Text, b: Text)
    requires Utf8Raw(a) == Utf8Raw(b)
    ensures a == b
  {
    LexTotal(a, b);
    LexIrreflexive(Utf8Raw(a));
    if LexLess(a, b) {
      Utf8Order(a, b);
    } else if LexLess(b, a) {
      Utf8Order(b, a);
    }
  }

  // ---- UTF-16 ----

  /** A code unit of a JavaScript string. */
  predicate IsUnits(u: Text) {
    forall i :: 0 <= i < |u| ==> u[i] < 0x10000
  }

  function Utf16Char(c: CodePoint): (r: Text)
    ensures 1 <= |r| <= 2 && IsUnits(r)
  {
    if c < 0x10000 then [c]
    else [0xD800 + (c - 0x10000) / 1024, 0xDC00 + (c - 0x10000) % 1024]
  }

  function Utf16(t: Text): (u: Text)
    ensures IsUnits(u)
  {
    if t == [] then [] else Utf16Char(t[0]) + Utf16(t[1..])
  }

  predicate IsHigh(c: int) { 0xD800 <= c <= 0xDBFF }

  predicate IsLow(c: int) { 0xDC00 <= c <= 0xDFFF }

  /** Every surrogate unit belongs to a high-low pair. */
  predicate WellFormed16(u: Text)
  {
    if u == [] then true
    else if IsHigh(u[0]) then |u| >= 2 && IsLow(u[1]) && WellFormed16(u[2..])
    else !IsLow(u[0]) && WellFormed16(u[1..])
  }

  /** The scalar values a well-formed code-unit string denotes. */
  function Decode16(u: Text): (t: Text)
    requires IsUnits(u) && WellFormed16(u)
  {
    if u == [] then []
    else if IsHigh(u[0]) then [0x10000 + (u[0] - 0xD800) * 1024 + (u[1] - 0xDC00)] + Decode16(u[2..])
    else [u[0]] + Decode16(u[1..])
  }

  lemma {:induction false} Decode16Encodes(u: Text)
    requires IsUnits(u) && WellFormed16(u)
    ensures SurrogateFree(Decode16(u)) && Utf16(Decode16(u)) == u
  {
    if u != [] {
      var n := if IsHigh(u[0]) then 2 else 1;
      Decode16Encodes(u[n..]);
      var t := Decode16(u);
      assert t[1..] == Decode16(u[n..]);
      assert t == [t[0]] + t[1..];
      assert Utf16Char(t[0]) == u[..n];
      assert u == u[..n] + u[n..];
    }
  }

  lemma {:induction false} EncodeIsWellFormed16(t: Text)
    requires SurrogateFree(t)
    ensures WellFormed16(Utf16(t))
  {
    if t != [] {
      EncodeIsWellFormed16(t[1..]);
      var u, c := Utf16(t), Utf16Char(t[0]);
      assert u[|c|..] == Utf16(t[1..]);
    }
  }

  /** The surrogate scan of the TypeScript port: a loop that skips the low half of a pair.
      It passes exactly the UTF-16 encodings of surrogate-free texts. */
  method NoLoneSurrogates(u: Text) returns (ok: bool)
    requires IsUnits(u)
    ensures ok <==> exists t: Text :: SurrogateFree(t) && Utf16(t) == u
  {
    var i := 0;
    while i < |u|
      invariant 0 <= i <= |u|
      invariant WellFormed16(u) <==> WellFormed16(u[i..])
    {
      var cu := u[i];
      if 0xD800 <= cu <= 0xDBFF {
        var next := if i + 1 < |u| then u[i + 1] else 0;
        if 0xDC00 <= next <= 0xDFFF {
          assert u[i..][2..] == u[i + 2..];
          i := i + 2;
          continue;
        }
        WellFormedMeansEncoding(u);
        return false;
      }
      if 0xDC00 <= cu <= 0xDFFF {
        WellFormedMeansEncoding(u);
        return false;
      }
      assert u[i..][1..] == u[i + 1..];
      i := i + 1;
    }
    WellFormedMeansEncoding(u);
    return true;
  }

  lemma WellFormedMeansEncoding(u: Text)
    requires IsUnits(u)
    ensures WellFormed16(u) <==> exists t: Text :: SurrogateFree(t) && Utf16(t) == u
  {
    if WellFormed16(u) {
      Decode16Encodes(u);
    } else {
      forall t: Text | SurrogateFree(t)
        ensures Utf16(t) != u
      {
        EncodeIsWellFormed16(t);
      }
    }
  }

  // ---- the string safety scan (section 3.1 of the protocol) ----

  predicate IsBanned(c: int) {
    c < 0x20 || 0x202A <= c <= 0x202E || 0x2066 <= c <= 0x2069
  }

  /** Python's `_check_string_safe`: no control, bidi-override or surrogate code point. */
  predicate SafeText(t: Text) {
    NoBanned(t) && SurrogateFree(t)
  }

  /** TypeScript's `assertSafeString`: the surrogate scan, then the same ranges per unit. */
  predicate SafeUnits(u: Text)
    requires IsUnits(u)
  {
    WellFormed16(u) && NoBanned(u)
  }

  /** No surrogate half falls in a banned range, so scanning units is scanning code points. */
  lemma {:induction false} UnitScanIsCodePointScan(t: Text)
    requires SurrogateFree(t)
    ensures SafeUnits(Utf16(t)) <==> SafeText(t)
  {
    EncodeIsWellFormed16(t);
    UnitRanges(t);
  }

  lemma {:induction false} UnitRanges(t: Text)
    requires SurrogateFree(t)
    ensures NoBanned(Utf16(t)) <==> NoBanned(t)
  {
    if t != [] {
      UnitRanges(t[1..]);
      NoBannedConcat(Utf16Char(t[0]), Utf16(t[1..]));
      NoBannedConcat([t[0]], t[1..]);
      assert t == [t[0]] + t[1..];
      assert NoBanned([t[0]]) <==> !IsBanned([t[0]][0]);
      assert NoBanned(Utf16Char(t[0])) <==> !IsBanned(Utf16Char(t[0])[0]);
    }
  }

  predicate NoBanned(t: Text) {
    forall i :: 0 <= i < |t| ==> !IsBanned(t[i])
  }

  lemma NoBannedConcat(a: Text, b: Text)
    ensures NoBanned(a + b) <==> NoBanned(a) && NoBanned(b)
  {
    if NoBanned(a + b) {
      assert forall i :: 0 <= i < |a| ==> a[i] == (a + b)[i];
      assert forall i :: 0 <= i < |b| ==> b[i] == (a + b)[|a| + i];
    }
  }

  /** Bytes `TextEncoder` emits for a code-unit string: a lone surrogate becomes U+FFFD. */
  function Utf8Length16(u: Text): (n: nat)
    requires IsUnits(u)
    ensures n >= |u|
  {
    if u == [] then 0
    else if IsHigh(u[0]) && |u| >= 2 && IsLow(u[1]) then 4 + Utf8Length16(u[2..])
    else if IsSurrogate(u[0]) then 3 + Utf8Length16(u[1..])
    else |Utf8Char(u[0])| + Utf8Length16(u[1..])
  }

  lemma {:induction false} Utf8Length16Is(t: Text)
    requires SurrogateFree(t)
    ensures Utf8Length16(Utf16(t)) == |Utf8Raw(t)|
  {
    if t != [] {
      Utf8Length16Is(t[1..]);
      var u, c := Utf16(t), Utf16Char(t[0]);
      assert u[|c|..] == Utf16(t[1..]);
    }
  }

  /** The cheap length pre-check of `assertByteCap` (code units) and of `_check_byte_cap`
      (code points) never changes the verdict: both caps decide "UTF-8 fits in `limit`". */
  lemma ByteCapsAgree(t: Text, limit: nat)
    requires SurrogateFree(t)
    ensures !(|Utf16(t)| > limit || Utf8Length16(Utf16(t)) > limit) <==> |Utf8Raw(t)| <= limit
    ensures !(|t| > limit || |Utf8Raw(t)| > limit) <==> |Utf8Raw(t)| <= limit
  {
    Utf8Length16Is(t);
  }
}
