/** The strict base64url codec of the TypeScript port, and Python's re-encode test.
    A string encodes bytes when both are numerals of one number: symbols in base 64, bytes in
    base 256, shifted by the unused low bits of the last symbol. */
module Base64Url {
  import opened Common

  // ---- the alphabet (section 5 of RFC 4648) ----

  type Sextet = v: int | 0 <= v < 64

  /** `B64URL_ALPHABET[v]`. */
  function Symbol(v: Sextet): (c: CodePoint)
  {
    if v < 26 then 'A' as int + v
    else if v < 52 then 'a' as int + (v - 26)
    else if v < 62 then '0' as int + (v - 52)
    else if v == 62 then '-' as int
    else '_' as int
  }

  /** `B64URL_LOOKUP`: the value of a symbol, -1 outside the alphabet. */
  function Lookup(c: int): (v: int)
    ensures -1 <= v < 64
  {
    if 'A' as int <= c <= 'Z' as int then c - 'A' as int
    else if 'a' as int <= c <= 'z' as int then c - 'a' as int + 26
    else if '0' as int <= c <= '9' as int then c - '0' as int + 52
    else if c == '-' as int then 62
    else if c == '_' as int then 63
    else -1
  }

  /** Table 2 of RFC 4648, in rows of eight. */
  function Row(r: int): (s: string)
    requires 0 <= r < 8
    ensures |s| == 8
  {
    match r
    case 0 => "ABCDEFGH"
    case 1 => "IJKLMNOP"
    case 2 => "QRSTUVWX"
    case 3 => "YZabcdef"
    case 4 => "ghijklmn"
    case 5 => "opqrstuv"
    case 6 => "wxyz0123"
    case _ => "456789-_"
  }

  function InTable(v: Sextet): int { Row(v / 8)[v % 8] as int }

  lemma SymbolIs(v: Sextet)
    ensures Symbol(v) == InTable(v)
  {
  }

  /** The symbols and their values are those of the table, and nothing else is a symbol. */
  lemma AlphabetIs(c: int)
    ensures Lookup(c) >= 0 <==> exists v: Sextet :: InTable(v) == c
    ensures Lookup(c) >= 0 ==> InTable(Lookup(c)) == c
  {
    if Lookup(c) >= 0 {
      SymbolIs(Lookup(c));
    }
    forall v: Sextet | InTable(v) == c
      ensures Lookup(c) == v
    {
      SymbolIs(v);
    }
  }

  /** `B64URL_RE`: every unit is a symbol. */
  predicate InAlphabet(s: Text) {
    forall i :: 0 <= i < |s| ==> Lookup(s[i]) >= 0
  }

  function Symbols(vs: seq<Sextet>): (s: Text)
    ensures |s| == |vs| && forall i :: 0 <= i < |s| ==> s[i] == Symbol(vs[i])
  {
    seq(|vs|, i requires 0 <= i < |vs| => Symbol(vs[i]))
  }

  function Values(s: Text): (vs: seq<Sextet>)
    requires InAlphabet(s)
    ensures |vs| == |s| && forall i :: 0 <= i < |s| ==> vs[i] == Lookup(s[i])
  {
    seq(|s|, i requires 0 <= i < |s| => Lookup(s[i]))
  }

  lemma ValuesOfSymbols(vs: seq<Sextet>)
    ensures InAlphabet(Symbols(vs)) && Values(Symbols(vs)) == vs
  {
    assert forall v: Sextet :: Lookup(Symbol(v)) == v;
  }

  lemma SymbolsOfValues(s: Text)
    requires InAlphabet(s)
    ensures Symbols(Values(s)) == s
  {
    assert forall c: CodePoint :: Lookup(c) >= 0 ==> Symbol(Lookup(c)) == c;
  }

  // ---- numerals ----

  function Value64(x: seq<Sextet>): int {
    if x == [] then 0 else 64 * Value64(x[..|x| - 1]) + x[|x| - 1]
  }

  function Value256(b: Bytes): int {
    if b == [] then 0 else 256 * Value256(b[..|b| - 1]) + b[|b| - 1]
  }

  /** Weight of the unused low bits of the last symbol for `n` bytes. */
  function Slack(n: nat): int {
    if n % 3 == 0 then 1 else if n % 3 == 1 then 16 else 4
  }

  /** Both are numerals of one number, and the lengths fit. */
  predicate Packs(b: Bytes, x: seq<Sextet>) {
    |x| == (4 * |b| + 2) / 3 && Value64(x) == Value256(b) * Slack(|b|)
  }

  /** `s` is the canonical, unpadded base64url encoding of `b`. */
  predicate IsEncoding(b: Bytes, s: Text) {
    InAlphabet(s) && Packs(b, Values(s))
  }

  lemma {:induction false} NumeralUnique64(x: seq<Sextet>, y: seq<Sextet>)
    requires |x| == |y| && Value64(x) == Value64(y)
    ensures x == y
  {
    if x != [] {
      var n := |x| - 1;
      NumeralUnique64(x[..n], y[..n]);
      assert x == x[..n] + [x[n]] && y == y[..n] + [y[n]];
    }
  }

  lemma {:induction false} NumeralUnique256(a: Bytes, b: Bytes)
    requires |a| == |b| && Value256(a) == Value256(b)
    ensures a == b
  {
    if a != [] {
      var n := |a| - 1;
      NumeralUnique256(a[..n], b[..n]);
      assert a == a[..n] + [a[n]] && b == b[..n] + [b[n]];
    }
  }

  /** At most one string encodes given bytes. */
  lemma EncodingUnique(b: Bytes, s: Text, t: Text)
    requires IsEncoding(b, s) && IsEncoding(b, t)
    ensures s == t
  {
    NumeralUnique64(Values(s), Values(t));
    SymbolsOfValues(s);
    SymbolsOfValues(t);
  }

  lemma LengthsMatch(m: nat, n: nat)
    requires (4 * m + 2) / 3 == (4 * n + 2) / 3
    ensures m == n
  {
  }

  /** A string encodes at most one byte sequence. */
  lemma EncodedUnique(a: Bytes, b: Bytes, s: Text)
    requires IsEncoding(a, s) && IsEncoding(b, s)
    ensures a == b
  {
    LengthsMatch(|a|, |b|);
    NumeralUnique256(a, b);
  }

  lemma Value64Snoc(x: seq<Sextet>, v: Sextet)
    ensures Value64(x + [v]) == 64 * Value64(x) + v
  {
    assert (x + [v])[..|x|] == x;
  }

  lemma Value256Snoc(b: Bytes, x: Byte)
    ensures Value256(b + [x]) == 256 * Value256(b) + x
  {
    assert (b + [x])[..|b|] == b;
  }

  // ---- encoding ----

  /** The four 6-bit fields of three bytes. */
  function Group(x: Byte, y: Byte, z: Byte): (g: seq<Sextet>)
    ensures |g| == 4
  {
    [x / 4, x % 4 * 16 + y / 16, y % 16 * 4 + z / 64, z % 64]
  }

  /** Section 4 of RFC 4648 without padding: three bytes to four symbols; a tail of one byte, filled
      with zero bits, to two and of two bytes to three. */
  function Sextets(b: Bytes): (x: seq<Sextet>)
    decreases |b|
  {
    if |b| == 0 then []
    else if |b| == 1 then Group(b[0], 0, 0)[..2]
    else if |b| == 2 then Group(b[0], b[1], 0)[..3]
    else Group(b[0], b[1], b[2]) + Sextets(b[3..])
  }

  function Encode(b: Bytes): (s: Text)
  {
    Symbols(Sextets(b))
  }

  function Weigh(hi: int, x: int, y: int, z: int): int {
    16777216 * hi + 65536 * x + 256 * y + z
  }

  /** Appending a group shifts the number by 24 bits; a shorter tail by 12 or 18. */
  lemma Value64Group(s: seq<Sextet>, x: Byte, y: Byte, z: Byte)
    ensures Value64(s + Group(x, y, z)) == Weigh(Value64(s), x, y, z)
    ensures y == z == 0 ==> 4096 * Value64(s + Group(x, y, z)[..2]) == Weigh(Value64(s), x, y, z)
    ensures z == 0 ==> 64 * Value64(s + Group(x, y, z)[..3]) == Weigh(Value64(s), x, y, z)
  {
    var g := Group(x, y, z);
    assert s + g[..1] == s + [g[0]];
    assert s + g[..2] == (s + g[..1]) + [g[1]];
    assert s + g[..3] == (s + g[..2]) + [g[2]];
    assert s + g == (s + g[..3]) + [g[3]];
    Value64Snoc(s, g[0]);
    Value64Snoc(s + g[..1], g[1]);
    Value64Snoc(s + g[..2], g[2]);
    Value64Snoc(s + g[..3], g[3]);
    GroupFields(x, y, z);
  }

  function Horner(a: int, b: int, c: int, d: int): int {
    262144 * a + 4096 * b + 64 * c + d
  }

  lemma GroupFields(x: Byte, y: Byte, z: Byte)
    ensures var g := Group(x, y, z); Horner(g[0], g[1], g[2], g[3]) == Weigh(0, x, y, z)
    ensures y == z == 0 ==> Group(x, y, z)[2] == 0
    ensures z == 0 ==> Group(x, y, z)[3] == 0
  {
  }

  lemma Value256Last3(front: Bytes, x: Byte, y: Byte, z: Byte)
    ensures Value256(front + [x, y, z]) == Weigh(Value256(front), x, y, z)
    ensures 256 * Value256(front + [x, y]) == Weigh(Value256(front), x, y, 0)
  {
    Value256Snoc(front, x);
    Value256Snoc(front + [x], y);
    Value256Snoc(front + [x] + [y], z);
    assert front + [x] + [y] == front + [x, y];
    assert front + [x] + [y] + [z] == front + [x, y, z];
  }

  lemma EncodedLengthStep(n: nat)
    requires n >= 3
    ensures (4 * n + 2) / 3 == 4 + (4 * (n - 3) + 2) / 3 && Slack(n) == Slack(n - 3)
  {
  }

  lemma {:induction false} SextetsLength(b: Bytes)
    ensures |Sextets(b)| == (4 * |b| + 2) / 3
    decreases |b|
  {
    if |b| >= 3 {
      SextetsLength(b[3..]);
      EncodedLengthStep(|b|);
    }
  }

  lemma GroupValue(pb: Bytes, ps: seq<Sextet>, x: Byte, y: Byte, z: Byte)
    requires Value64(ps) == Value256(pb)
    ensures Value64(ps + Group(x, y, z)) == Value256(pb + [x, y, z])
  {
    Value256Last3(pb, x, y, z);
    Value64Group(ps, x, y, z);
  }

  /** After whole groups that match in value, the symbols of the rest keep the values in step. */
  lemma {:induction false} SextetsValue(pb: Bytes, ps: seq<Sextet>, b: Bytes)
    requires Value64(ps) == Value256(pb)
    ensures Value64(ps + Sextets(b)) == Value256(pb + b) * Slack(|b|)
    decreases |b|
  {
    if |b| >= 3 {
      var g, three := Group(b[0], b[1], b[2]), [b[0], b[1], b[2]];
      GroupValue(pb, ps, b[0], b[1], b[2]);
      SextetsValue(pb + three, ps + g, b[3..]);
      EncodedLengthStep(|b|);
      Assoc(ps, g, Sextets(b[3..]));
      Assoc(pb, three, b[3..]);
      assert three + b[3..] == b;
    } else {
      TailValue(pb, ps, b);
    }
  }

  lemma TailValue(pb: Bytes, ps: seq<Sextet>, b: Bytes)
    requires Value64(ps) == Value256(pb) && |b| <= 2
    ensures Value64(ps + Sextets(b)) == Value256(pb + b) * Slack(|b|)
  {
    if |b| == 0 {
      assert pb + b == pb && ps + Sextets(b) == ps;
    } else if |b| == 1 {
      assert b == [b[0]];
      Value256Snoc(pb, b[0]);
      Value64Group(ps, b[0], 0, 0);
    } else {
      assert b == [b[0], b[1]];
      Value256Last3(pb, b[0], b[1], 0);
      Value64Group(ps, b[0], b[1], 0);
    }
  }

  /** The symbols of the grouped definition are a numeral of the same number. */
  lemma SextetsPack(b: Bytes)
    ensures Packs(b, Sextets(b))
  {
    SextetsLength(b);
    SextetsValue([], [], b);
    assert [] + b == b && [] + Sextets(b) == Sextets(b);
  }

  lemma EncodeIsEncoding(b: Bytes)
    ensures IsEncoding(b, Encode(b))
  {
    SextetsPack(b);
    ValuesOfSymbols(Sextets(b));
  }

  /** `(x << 16) | (y << 8) | z` on bytes. */
  function Pack(x: int, y: int, z: int): int {
    x * 65536 + y * 256 + z
  }

  /** The shifts and masks of the encoder. */
  function Fields(n: int): (f: seq<Sextet>)
  {
    [n / 262144 % 64, n / 4096 % 64, n / 64 % 64, n % 64]
  }

  /** They pick the four fields out of the packed word. */
  lemma PackedFields(x: Byte, y: Byte, z: Byte)
    ensures Fields(Pack(x, y, z)) == Group(x, y, z)
  {
    var n := Pack(x, y, z);
    DivUnique(n, 262144, x / 4, x % 4 * 65536 + y * 256 + z);
    DivUnique(n, 4096, 16 * x + y / 16, y % 16 * 256 + z);
    DivUnique(16 * x + y / 16, 64, x / 4, x % 4 * 16 + y / 16);
    DivUnique(n, 64, 1024 * x + 4 * y + z / 64, z % 64);
    DivUnique(1024 * x + 4 * y + z / 64, 64, 16 * x + y / 16, y % 16 * 4 + z / 64);
  }

  lemma SymbolsConcat(x: seq<Sextet>, y: seq<Sextet>)
    ensures Symbols(x + y) == Symbols(x) + Symbols(y)
  {
  }

  /** `b64UrlEncodeNoPad`: packs three bytes into `n`, emits its four 6-bit fields, then a tail. */
  method EncodeNoPad(data: Bytes) returns (out: Text)
    ensures out == Encode(data)
  {
    out := [];
    var i := 0;
    assert data[0..] == data && [] + Encode(data) == Encode(data);
    while i + 2 < |data|
      invariant 0 <= i <= |data|
      invariant out + Encode(data[i..]) == Encode(data)
    {
      var n := Pack(data[i], data[i + 1], data[i + 2]);
      EncodeGroup(data, i);
      Assoc(out, Symbols(Fields(n)), Encode(data[i + 3..]));
      out := out + Symbols(Fields(n));
      i := i + 3;
    }
    EncodeTail(data[i..]);
    var rest := |data| - i;
    if rest == 1 {
      var n := Pack(data[i], 0, 0);
      out := out + Symbols(Fields(n)[..2]);
    } else if rest == 2 {
      var n := Pack(data[i], data[i + 1], 0);
      out := out + Symbols(Fields(n)[..3]);
    }
  }

  lemma EncodeGroup(data: Bytes, i: nat)
    requires i + 2 < |data|
    ensures Encode(data[i..]) == Symbols(Fields(Pack(data[i], data[i + 1], data[i + 2]))) + Encode(data[i + 3..])
  {
    PackedFields(data[i], data[i + 1], data[i + 2]);
    assert data[i..][3..] == data[i + 3..];
    SymbolsConcat(Group(data[i], data[i + 1], data[i + 2]), Sextets(data[i + 3..]));
  }

  lemma EncodeTail(b: Bytes)
    ensures |b| == 0 ==> Encode(b) == []
    ensures |b| == 1 ==> Encode(b) == Symbols(Fields(Pack(b[0], 0, 0))[..2])
    ensures |b| == 2 ==> Encode(b) == Symbols(Fields(Pack(b[0], b[1], 0))[..3])
  {
    if |b| == 1 {
      PackedFields(b[0], 0, 0);
    } else if |b| == 2 {
      PackedFields(b[0], b[1], 0);
    }
  }

  // ---- decoding ----

  /** The bytes a string encodes, if it encodes any. */
  ghost function Decode(s: Text): Option<Bytes>
  {
    if exists b: Bytes :: IsEncoding(b, s) then
      var b: Bytes :| IsEncoding(b, s);
      Some(b)
    else None
  }

  lemma DecodeIs(b: Bytes, s: Text)
    requires IsEncoding(b, s)
    ensures Decode(s) == Some(b)
  {
    var d: Bytes := Decode(s).value;
    EncodedUnique(b, d, s);
  }

  /** decode(encode(b)) = b for all bytes. */
  lemma DecodeEncode(b: Bytes)
    ensures Decode(Encode(b)) == Some(b)
  {
    EncodeIsEncoding(b);
    DecodeIs(b, Encode(b));
  }

  /** Every accepted string is the encoding of what it decodes to: a string is accepted iff it is
      the encoding of some bytes. */
  lemma EncodeDecode(s: Text)
    ensures Decode(s).Some? ==> Encode(Decode(s).value) == s
    ensures Decode(s).Some? <==> exists b: Bytes :: Encode(b) == s
  {
    if Decode(s).Some? {
      var b: Bytes := Decode(s).value;
      EncodeIsEncoding(b);
      EncodingUnique(b, Encode(b), s);
    }
    forall b: Bytes | Encode(b) == s
      ensures Decode(s).Some?
    {
      EncodeIsEncoding(b);
    }
  }

  predicate IsBitCount(bits: int) {
    bits == 0 || bits == 2 || bits == 4 || bits == 6
  }

  /** Weight of the `bits` low accumulator bits not yet emitted. */
  function Weight(bits: int): (w: int)
    requires IsBitCount(bits)
    ensures w == 1 || w == 4 || w == 16 || w == 64
  {
    if bits == 0 then 1 else if bits == 2 then 4 else if bits == 4 then 16 else 64
  }

  const WORD: int := 0x1_0000_0000

  /** `(acc << 6) | v` in 32-bit arithmetic. */
  function Shifted(acc: int, v: int): (r: int)
    ensures 0 <= r < WORD
  {
    (acc * 64 + v) % WORD
  }

  /** Wrapping at 32 bits keeps the residue modulo a divisor of `2^32`. */
  lemma WrapKeepsLow(x: int, m: int, k: int)
    requires 0 < m && m * k == WORD
    ensures x % WORD % m == x % m
  {
    var q, r := x / WORD, x % WORD;
    calc {
      x;
      WORD * q + r;
      m * k * q + (m * (r / m) + r % m);
      m * (k * q + r / m) + r % m;
    }
    DivUnique(x, m, k * q + r / m, r % m);
  }

  /** One symbol shifted into the accumulator, whose high bits wrap away: the low `bits + 6` bits
      are still exact. */
  lemma ShiftIn(acc: int, v: Sextet, w: int)
    requires 0 <= acc < WORD && (w == 1 || w == 4 || w == 16 || w == 64)
    ensures Shifted(acc, v) % (64 * w) == acc % w * 64 + v
  {
    var k := if w == 1 then 0x400_0000 else if w == 4 then 0x100_0000 else if w == 16 then 0x40_0000 else 0x10_0000;
    WrapKeepsLow(acc * 64 + v, 64 * w, k);
    assert acc == w * (acc / w) + acc % w;
    ShiftLow(acc, v, w, acc / w, acc % w);
  }

  lemma ShiftLow(acc: int, v: int, w: int, q: int, r: int)
    requires 0 < w && acc == w * q + r && 0 <= r < w && 0 <= v < 64
    ensures (acc * 64 + v) % (64 * w) == r * 64 + v
  {
    assert (64 * w) * q == 64 * (w * q);
    DivUnique(acc * 64 + v, 64 * w, q, 64 * r + v);
  }

  /** With eight or more low bits, the byte on top of them is emitted and the rest stays. */
  lemma EmitByte(next: int, low: int, w: int)
    requires w == 1 || w == 4 || w == 16
    requires next % (256 * w) == low
    ensures low == next / w % 256 * w + next % w
  {
    var q := next / (256 * w);
    var a, r := low / w, low % w;
    assert next == 256 * w * q + low && low == w * a + r && 0 <= a < 256;
    assert 256 * w * q == w * (256 * q);
    DivUnique(next, w, 256 * q + a, r);
    DivUnique(256 * q + a, 256, q, a);
  }

  /** `(acc >>> bits) & 0xff`. */
  function TopByte(acc: int, bits: int): (x: Byte)
    requires IsBitCount(bits)
  {
    acc / Weight(bits) % 256
  }

  /** `(acc & ((1 << bits) - 1)) !== 0`, or no bits left. */
  predicate NoBitsLeft(acc: int, bits: int)
    requires IsBitCount(bits)
  {
    acc % Weight(bits) == 0
  }

  /** What the decoder has read: the bytes written and the low bits kept are the numeral of the
      symbols so far. */
  predicate Decoded(x: seq<Sextet>, out: Bytes, acc: int, bits: int) {
    IsBitCount(bits) && 6 * |x| == 8 * |out| + bits && 0 <= acc < WORD
    && Value64(x) == Value256(out) * Weight(bits) + acc % Weight(bits)
  }

  lemma StepKeeps(x: seq<Sextet>, v: Sextet, out: Bytes, acc: int)
    requires Decoded(x, out, acc, 0)
    ensures Decoded(x + [v], out, Shifted(acc, v), 6)
  {
    Value64Snoc(x, v);
    ShiftIn(acc, v, 1);
  }

  lemma StepEmits(x: seq<Sextet>, v: Sextet, out: Bytes, acc: int, bits: int)
    requires bits > 0 && Decoded(x, out, acc, bits)
    ensures Decoded(x + [v], out + [TopByte(Shifted(acc, v), bits - 2)], Shifted(acc, v), bits - 2)
  {
    var next, w := Shifted(acc, v), Weight(bits - 2);
    Value64Snoc(x, v);
    ShiftIn(acc, v, 4 * w);
    EmitByte(next, acc % (4 * w) * 64 + v, w);
    Value256Snoc(out, next / w % 256);
    EmitNumeral(Value256(out), acc % (4 * w), v, next / w % 256, next % w, w);
  }

  lemma EmitNumeral(hi: int, kept: int, v: int, byte: int, rest: int, w: int)
    requires w == 1 || w == 4 || w == 16
    requires kept * 64 + v == byte * w + rest
    ensures 64 * (hi * (4 * w) + kept) + v == (256 * hi + byte) * w + rest
  {
  }

  /** The decoder's variables. */
  datatype Decoder = Decoder(out: Bytes, acc: int, bits: int)

  /** One symbol read: shift it in, and emit a byte when eight bits are there. */
  function Step(d: Decoder, v: Sextet): Decoder
    requires IsBitCount(d.bits)
  {
    var acc := Shifted(d.acc, v);
    if d.bits == 0 then Decoder(d.out, acc, 6)
    else Decoder(d.out + [TopByte(acc, d.bits - 2)], acc, d.bits - 2)
  }

  function Run(x: seq<Sextet>): (d: Decoder)
    ensures IsBitCount(d.bits) && 6 * |x| == 8 * |d.out| + d.bits
  {
    if x == [] then Decoder([], 0, 0) else Step(Run(x[..|x| - 1]), x[|x| - 1])
  }

  lemma RunSnoc(x: seq<Sextet>, i: nat)
    requires i < |x|
    ensures Run(x[..i + 1]) == Step(Run(x[..i]), x[i])
  {
    assert x[..i + 1][..i] == x[..i];
  }

  lemma {:induction false} RunDecodes(x: seq<Sextet>)
    ensures var d := Run(x); Decoded(x, d.out, d.acc, d.bits)
  {
    if x != [] {
      var front, v := x[..|x| - 1], x[|x| - 1];
      RunDecodes(front);
      var d := Run(front);
      StepDecodes(front, v, d);
      assert x == front + [v];
    }
  }

  lemma StepDecodes(x: seq<Sextet>, v: Sextet, d: Decoder)
    requires Decoded(x, d.out, d.acc, d.bits)
    ensures var e := Step(d, v); Decoded(x + [v], e.out, e.acc, e.bits)
  {
    if d.bits == 0 {
      StepKeeps(x, v, d.out, d.acc);
    } else {
      StepEmits(x, v, d.out, d.acc, d.bits);
    }
  }

  /** `b64UrlDecodeStrict`. The accumulator is never masked and wraps at 32 bits; the bytes written
      so far and its low `bits` bits together are the numeral of the symbols read so far. */
  method DecodeStrict(s: Text) returns (r: Option<Bytes>)
    ensures r == Decode(s)
  {
    if !InAlphabet(s) {
      return None;
    }
    if |s| % 4 == 1 {
      NoSuchLength(s);
      return None;
    }
    var out, acc, bits := ReadSymbols(s);
    RunDecodes(Values(s));
    r := Finish(s, out, acc, bits);
  }

  method ReadSymbols(s: Text) returns (bytes: Bytes, acc: int, bits: int)
    requires InAlphabet(s)
    ensures Decoder(bytes, acc, bits) == Run(Values(s))
  {
    ghost var vs := Values(s);
    var outLen := |s| * 6 / 8;
    var out := new Byte[outLen](_ => 0);
    acc, bits := 0, 0;
    var o, i := 0, 0;
    while i < |s|
      invariant 0 <= i <= |s| && 0 <= o <= outLen
      invariant Decoder(out[..o], acc, bits) == Run(vs[..i])
    {
      RunSnoc(vs, i);
      o, acc, bits := ReadSymbol(out, o, acc, bits, Lookup(s[i]));
      i := i + 1;
    }
    assert vs[..i] == vs && out[..o] == out[..];
    bytes := out[..];
  }

  method ReadSymbol(out: array<Byte>, o: nat, acc: int, bits: int, v: Sextet) returns (p: nat, next: int, left: int)
    requires o <= out.Length && IsBitCount(bits) && (bits > 0 ==> o < out.Length)
    modifies out
    ensures p <= out.Length
    ensures Decoder(out[..p], next, left) == Step(Decoder(old(out[..o]), acc, bits), v)
  {
    next, left, p := Shifted(acc, v), bits + 6, o;
    if left >= 8 {
      left := left - 8;
      out[o] := TopByte(next, left);
      p := o + 1;
      assert out[..p] == old(out[..o]) + [TopByte(next, left)];
    }
  }

  /** The length and the trailing-bits test decide. */
  method Finish(s: Text, out: Bytes, acc: int, bits: int) returns (r: Option<Bytes>)
    requires InAlphabet(s) && |s| % 4 != 1 && Decoded(Values(s), out, acc, bits)
    ensures r == Decode(s)
  {
    FinalLength(|s|, |out|, bits);
    if bits > 0 && !NoBitsLeft(acc, bits) {
      TrailingBits(s, out, acc, bits);
      return None;
    }
    assert acc % Weight(bits) == 0;
    DecodeIs(out, s);
    return Some(out);
  }

  lemma NoSuchLength(s: Text)
    requires |s| % 4 == 1
    ensures Decode(s).None?
  {
    forall b: Bytes
      ensures !IsEncoding(b, s)
    {
      EncodedLength(|b|);
    }
  }

  lemma EncodedLength(n: nat)
    ensures (4 * n + 2) / 3 % 4 != 1
  {
    var q, r := n / 3, n % 3;
    assert n == 3 * q + r;
    if r == 0 {
      assert (4 * n + 2) / 3 == 4 * q;
    } else if r == 1 {
      assert (4 * n + 2) / 3 == 4 * q + 2;
    } else {
      assert (4 * n + 2) / 3 == 4 * q + 3;
    }
  }

  lemma FinalLength(m: nat, n: nat, bits: int)
    requires IsBitCount(bits) && 6 * m == 8 * n + bits && m % 4 != 1
    ensures bits != 6 && m == (4 * n + 2) / 3 && Slack(n) == Weight(bits)
  {
  }

  /** Non-zero trailing bits: the number is not a multiple of the slack, so no bytes encode to it. */
  lemma TrailingBits(s: Text, out: Bytes, acc: int, bits: int)
    requires InAlphabet(s) && Decoded(Values(s), out, acc, bits)
    requires |s| == (4 * |out| + 2) / 3 && Slack(|out|) == Weight(bits) && acc % Weight(bits) != 0
    ensures Decode(s).None?
  {
    var w := Weight(bits);
    forall b: Bytes
      ensures !IsEncoding(b, s)
    {
      if IsEncoding(b, s) {
        LengthsMatch(|b|, |out|);
        DivUnique(Value64(Values(s)), w, Value256(out), acc % w);
        DivUnique(Value64(Values(s)), w, Value256(b), 0);
      }
    }
  }

  // ---- Python's decoder ----

  /** The three bytes of four 6-bit values. */
  function Ungroup(a: Sextet, b: Sextet, c: Sextet, d: Sextet): (r: Bytes)
    ensures |r| == 3
  {
    [a * 4 + b / 16, b % 16 * 16 + c / 4, c % 4 * 64 + d]
  }

  /** `base64.b64decode` of unpadded symbols: trailing bits are dropped unseen. */
  function DropTrailing(x: seq<Sextet>): (b: Bytes)
    decreases |x|
  {
    if |x| < 2 then []
    else if |x| == 2 then Ungroup(x[0], x[1], 0, 0)[..1]
    else if |x| == 3 then Ungroup(x[0], x[1], x[2], 0)[..2]
    else Ungroup(x[0], x[1], x[2], x[3]) + DropTrailing(x[4..])
  }

  /** `_b64dec`: alphabet, length, decode, then refuse unless re-encoding gives the input back. */
  function PyDecode(s: Text): Option<Bytes>
  {
    if !InAlphabet(s) then None
    else if |s| % 4 == 1 then None
    else
      var decoded := DropTrailing(Values(s));
      if Encode(decoded) != s then None else Some(decoded)
  }

  lemma UngroupGroup(x: Byte, y: Byte, z: Byte)
    ensures var g := Group(x, y, z); Ungroup(g[0], g[1], g[2], g[3]) == [x, y, z]
  {
    DivUnique(x % 4 * 16 + y / 16, 16, x % 4, y / 16);
    DivUnique(y % 16 * 4 + z / 64, 4, y % 16, z / 64);
  }

  lemma DropTrailingGroup(x: Byte, y: Byte, z: Byte, rest: seq<Sextet>)
    ensures DropTrailing(Group(x, y, z) + rest) == [x, y, z] + DropTrailing(rest)
  {
    UngroupGroup(x, y, z);
    assert (Group(x, y, z) + rest)[4..] == rest;
  }

  lemma {:induction false} DropTrailingSextets(b: Bytes)
    ensures DropTrailing(Sextets(b)) == b
    decreases |b|
  {
    if |b| == 1 {
      UngroupGroup(b[0], 0, 0);
    } else if |b| == 2 {
      UngroupGroup(b[0], b[1], 0);
    } else if |b| >= 3 {
      DropTrailingSextets(b[3..]);
      DropTrailingGroup(b[0], b[1], b[2], Sextets(b[3..]));
      assert b == [b[0], b[1], b[2]] + b[3..];
    }
  }

  /** TypeScript's trailing-bits test and Python's re-encode test accept the same strings and
      decode them to the same bytes. */
  lemma PortsDecodeAlike(s: Text)
    ensures PyDecode(s) == Decode(s)
  {
    EncodeDecode(s);
    if Decode(s).Some? {
      PyDecodesEncoding(Decode(s).value, s);
    }
  }

  lemma PyDecodesEncoding(b: Bytes, s: Text)
    requires Encode(b) == s
    ensures PyDecode(s) == Some(b)
  {
    DropTrailingSextets(b);
    ValuesOfSymbols(Sextets(b));
    SextetsLength(b);
    EncodedLength(|b|);
  }
}
