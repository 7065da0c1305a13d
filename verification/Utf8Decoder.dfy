/** A strict UTF-8 decoder by the table of section 4 of RFC 3629: it undoes the encoding, and nothing else decodes. */
module Utf8Decoder {
  import opened Common
  import opened Utf

  predicate IsTail(x: Byte) { 0x80 <= x <= 0xBF }

  /** What may follow a lead byte: it rules out overlong forms, surrogates and what is beyond U+10FFFF. */
  predicate SecondFits(lead: Byte, x: Byte) {
    if lead == 0xE0 then 0xA0 <= x <= 0xBF
    else if lead == 0xED then 0x80 <= x <= 0x9F
    else if lead == 0xF0 then 0x90 <= x <= 0xBF
    else if lead == 0xF4 then 0x80 <= x <= 0x8F
    else IsTail(x)
  }

  /** The payload bits put together. */
  function Bits2(x: int, y: int): int { (x - 0xC0) * 64 + (y - 0x80) }

  function Bits3(x: int, y: int, z: int): int { (x - 0xE0) * 4096 + (y - 0x80) * 64 + (z - 0x80) }

  function Bits4(x: int, y: int, z: int, w: int): int {
    (x - 0xF0) * 262144 + (y - 0x80) * 4096 + (z - 0x80) * 64 + (w - 0x80)
  }

  /** One character: its code point and how many bytes it takes. */
  function DecodeChar(b: Bytes): (r: Option<(CodePoint, nat)>)
    ensures r.Some? ==> 1 <= r.value.1 <= |b|
  {
    if b == [] then None
    else if b[0] <= 0x7F then Some((b[0], 1))
    else if |b| >= 2 && 0xC2 <= b[0] <= 0xDF && IsTail(b[1]) then
      Some((Bits2(b[0], b[1]), 2))
    else if |b| >= 3 && 0xE0 <= b[0] <= 0xEF && SecondFits(b[0], b[1]) && IsTail(b[2]) then
      Some((Bits3(b[0], b[1], b[2]), 3))
    else if |b| >= 4 && 0xF0 <= b[0] <= 0xF4 && SecondFits(b[0], b[1]) && IsTail(b[2]) && IsTail(b[3]) then
      Some((Bits4(b[0], b[1], b[2], b[3]), 4))
    else None
  }

  /** The text bytes are the UTF-8 form of, if they are one. */
  function Decode(b: Bytes): Option<Text>
    decreases |b|
  {
    if b == [] then Some([])
    else
      match DecodeChar(b)
      case None => None
      case Some((c, n)) =>
        match Decode(b[n..])
        case None => None
        case Some(t) => Some([c] + t)
  }

  // ---- decoding an encoding ----

  lemma TwoDigits(c: int)
    requires 0x80 <= c < 0x800
    ensures 2 <= c / 64 <= 0x1F && 0 <= c % 64 < 64 && (c / 64) * 64 + c % 64 == c
  {
  }

  lemma ThreeDigits(c: int)
    requires 0x800 <= c < 0x10000
    ensures 0 <= c / 4096 <= 0xF && 0 <= c / 64 % 64 < 64 && 0 <= c % 64 < 64
    ensures (c / 4096) * 4096 + (c / 64 % 64) * 64 + c % 64 == c
    ensures c / 4096 == 0 ==> c / 64 % 64 >= 0x20
    ensures c / 4096 == 0xD && !IsSurrogate(c) ==> c / 64 % 64 < 0x20
  {
    assert c / 64 == c / 4096 * 64 + c / 64 % 64;
  }

  lemma FourDigits(c: int)
    requires 0x10000 <= c < 0x110000
    ensures 0 <= c / 262144 <= 4 && 0 <= c / 4096 % 64 < 64 && 0 <= c / 64 % 64 < 64 && 0 <= c % 64 < 64
    ensures (c / 262144) * 262144 + (c / 4096 % 64) * 4096 + (c / 64 % 64) * 64 + c % 64 == c
    ensures c / 262144 == 0 ==> c / 4096 % 64 >= 0x10
    ensures c / 262144 == 4 ==> c / 4096 % 64 < 0x10
  {
    assert c / 64 == c / 4096 * 64 + c / 64 % 64;
    assert c / 4096 == c / 262144 * 64 + c / 4096 % 64;
  }

  lemma CharDecodes(c: CodePoint, rest: Bytes)
    requires !IsSurrogate(c)
    ensures DecodeChar(Utf8Char(c) + rest) == Some((c, |Utf8Char(c)|))
  {
    var e, b := Utf8Char(c), Utf8Char(c) + rest;
    assert forall i :: 0 <= i < |e| ==> b[i] == e[i];
    if 0x80 <= c < 0x800 {
      TwoDigits(c);
    } else if 0x800 <= c < 0x10000 {
      ThreeDigits(c);
    } else if c >= 0x10000 {
      FourDigits(c);
    }
  }

  /** The encoded bytes of a text without surrogates are UTF-8, and decode to it. */
  lemma {:induction false} Decodes(t: Text)
    requires SurrogateFree(t)
    ensures Decode(Utf8Raw(t)) == Some(t)
  {
    if t != [] {
      Decodes(t[1..]);
      CharDecodes(t[0], Utf8Raw(t[1..]));
      assert Utf8Raw(t)[|Utf8Char(t[0])|..] == Utf8Raw(t[1..]);
      assert t == [t[0]] + t[1..];
    }
  }

  // ---- nothing else decodes ----

  lemma TwoBack(x: Byte, y: Byte)
    requires 0xC2 <= x <= 0xDF && IsTail(y)
    ensures var c := Bits2(x, y);
            0x80 <= c < 0x800 && 0xC0 + c / 64 == x && 0x80 + c % 64 == y
  {
  }

  lemma ThreeBack(x: Byte, y: Byte, z: Byte)
    requires 0xE0 <= x <= 0xEF && SecondFits(x, y) && IsTail(z)
    ensures var c := Bits3(x, y, z);
            && 0x800 <= c < 0x10000 && !IsSurrogate(c)
            && 0xE0 + c / 4096 == x && 0x80 + c / 64 % 64 == y && 0x80 + c % 64 == z
  {
    var p: int, q: int := x, y;
    assert Bits3(x, y, z) / 64 == (p - 0xE0) * 64 + (q - 0x80);
  }

  lemma FourBack(x: Byte, y: Byte, z: Byte, w: Byte)
    requires 0xF0 <= x <= 0xF4 && SecondFits(x, y) && IsTail(z) && IsTail(w)
    ensures var c := Bits4(x, y, z, w);
            && 0x10000 <= c < 0x110000 && 0xF0 + c / 262144 == x && 0x80 + c / 4096 % 64 == y
            && 0x80 + c / 64 % 64 == z && 0x80 + c % 64 == w
  {
    var p: int, q: int, r: int := x, y, z;
    assert Bits4(x, y, z, w) / 64 == (p - 0xF0) * 4096 + (q - 0x80) * 64 + (r - 0x80);
    assert Bits4(x, y, z, w) / 4096 == (p - 0xF0) * 64 + (q - 0x80);
  }

  lemma CharEncodes(b: Bytes)
    requires DecodeChar(b).Some?
    ensures var (c, n) := DecodeChar(b).value; !IsSurrogate(c) && Utf8Char(c) == b[..n]
  {
    var (c, n) := DecodeChar(b).value;
    if n == 2 {
      TwoBack(b[0], b[1]);
    } else if n == 3 {
      ThreeBack(b[0], b[1], b[2]);
    } else if n == 4 {
      FourBack(b[0], b[1], b[2], b[3]);
    }
  }

  lemma {:induction false} DecodedEncodes(b: Bytes)
    requires Decode(b).Some?
    ensures SurrogateFree(Decode(b).value) && Utf8Raw(Decode(b).value) == b
    decreases |b|
  {
    if b != [] {
      var (c, n) := DecodeChar(b).value;
      CharEncodes(b);
      DecodedEncodes(b[n..]);
      EncodedStep(b, c, n, Decode(b[n..]).value);
    }
  }

  lemma EncodedStep(b: Bytes, c: CodePoint, n: nat, t: Text)
    requires n <= |b| && Utf8Char(c) == b[..n] && Utf8Raw(t) == b[n..] && SurrogateFree(t) && !IsSurrogate(c)
    ensures SurrogateFree([c] + t) && Utf8Raw([c] + t) == b
  {
    assert ([c] + t)[1..] == t && b == b[..n] + b[n..];
  }

  /** Bytes decode exactly when they are the encoding of a text without surrogates, and to that text. */
  lemma DecodesIff(b: Bytes, t: Text)
    ensures Decode(b) == Some(t) <==> SurrogateFree(t) && Utf8Raw(t) == b
  {
    if Decode(b) == Some(t) {
      DecodedEncodes(b);
    }
    if SurrogateFree(t) && Utf8Raw(t) == b {
      Decodes(t);
    }
  }
}
