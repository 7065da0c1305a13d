/** Compact sorted-key JSON and its reader, in the dialects the ports print and read: Python's
    `json.dumps(d, sort_keys=True, separators=(",", ":"))` over code points, with `ensure_ascii=False` for what is
    signed and without it for what is stored, and TypeScript's `canonicalJsonStringify` and `JSON.parse` over code
    units. */
module JsonText {
  import opened Common
  import opened Utf

  /** Python prints a lone surrogate as it is and knows the numbers `NaN`, `Infinity` and `-Infinity`;
      JavaScript escapes a lone surrogate and knows no such number. `PythonAscii` escapes all but ASCII, a code
      point beyond U+FFFF as a surrogate pair; `json.loads` reads both of Python's and joins such pairs. */
  datatype Dialect = Python | JavaScript | PythonAscii

  /** A JSON value. Numbers keep their lexeme, objects are maps. */
  datatype Json =
    | Null
    | Bool(b: bool)
    | Num(lexeme: Text)
    | Str(s: Text)
    | Arr(elems: seq<Json>)
    | Obj(members: map<Text, Json>)

  // ---- strings (section 7 of RFC 8259) ----

  function HexDigit(d: int): (c: CodePoint)
    requires 0 <= d < 16
  {
    if d < 10 then '0' as int + d else 'a' as int + (d - 10)
  }

  function HexValue(c: int): (d: int)
    ensures -1 <= d < 16
  {
    if '0' as int <= c <= '9' as int then c - '0' as int
    else if 'a' as int <= c <= 'f' as int then c - 'a' as int + 10
    else if 'A' as int <= c <= 'F' as int then c - 'A' as int + 10
    else -1
  }

  /** `\\uXXXX` with lowercase digits. */
  function UnicodeEscape(c: int): (r: Text)
    requires 0 <= c < 0x10000
    ensures |r| == 6
  {
    [0x5C, 'u' as int, HexDigit(c / 4096), HexDigit(c / 256 % 16), HexDigit(c / 16 % 16), HexDigit(c % 16)]
  }

  function Escape(d: Dialect, c: CodePoint): (r: Text)
    ensures r != []
  {
    if c == '"' as int then [0x5C, 0x22]
    else if c == '\\' as int then [0x5C, 0x5C]
    else if c == 8 then [0x5C, 'b' as int]
    else if c == 12 then [0x5C, 'f' as int]
    else if c == 10 then [0x5C, 'n' as int]
    else if c == 13 then [0x5C, 'r' as int]
    else if c == 9 then [0x5C, 't' as int]
    else if c < 0x20 || (d.JavaScript? && IsSurrogate(c)) then UnicodeEscape(c)
    else if d.PythonAscii? && c >= 0x7F then EscapeUnits(c)
    else [c]
  }

  /** One escape for each UTF-16 code unit. */
  function EscapeUnits(c: CodePoint): (r: Text)
    ensures |r| == 6 * |Utf16Char(c)|
  {
    if c < 0x10000 then UnicodeEscape(c) else UnicodeEscape(Utf16Char(c)[0]) + UnicodeEscape(Utf16Char(c)[1])
  }

  /** The text starts with a surrogate pair, which JavaScript prints as it is. */
  predicate StartsWithPair(d: Dialect, s: Text) {
    d.JavaScript? && |s| >= 2 && IsHigh(s[0]) && IsLow(s[1])
  }

  function EscapeAll(d: Dialect, s: Text): Text
    decreases |s|
  {
    if s == [] then []
    else if StartsWithPair(d, s) then s[..2] + EscapeAll(d, s[2..])
    else Escape(d, s[0]) + EscapeAll(d, s[1..])
  }

  function Quote(d: Dialect, s: Text): Text
  {
    [0x22] + EscapeAll(d, s) + [0x22]
  }

  /** One character of a string body: its value and how many units it takes. */
  function ReadChar(t: Text): (r: Option<(CodePoint, nat)>)
    ensures r.Some? ==> 1 <= r.value.1 <= |t|
  {
    if t == [] || t[0] < 0x20 || t[0] == 0x22 then None
    else if t[0] != 0x5C then Some((t[0], 1))
    else if |t| < 2 then None
    else if t[1] == 0x22 || t[1] == 0x5C || t[1] == '/' as int then Some((t[1], 2))
    else if t[1] == 'b' as int then Some((8, 2))
    else if t[1] == 'f' as int then Some((12, 2))
    else if t[1] == 'n' as int then Some((10, 2))
    else if t[1] == 'r' as int then Some((13, 2))
    else if t[1] == 't' as int then Some((9, 2))
    else if t[1] == 'u' as int && |t| >= 6 && HexValue(t[2]) >= 0 && HexValue(t[3]) >= 0
      && HexValue(t[4]) >= 0 && HexValue(t[5]) >= 0 then
      Some((((HexValue(t[2]) * 16 + HexValue(t[3])) * 16 + HexValue(t[4])) * 16 + HexValue(t[5]), 6))
    else None
  }

  /** The text starts with an escaped low surrogate. */
  predicate StartsLow(t: Text) {
    ReadChar(t).Some? && ReadChar(t).value.1 == 6 && IsLow(ReadChar(t).value.0)
  }

  /** The text starts with an escaped surrogate pair, which `json.loads` joins. */
  predicate JoinsPair(d: Dialect, t: Text) {
    var r := ReadChar(t);
    !d.JavaScript? && r.Some? && r.value.1 == 6 && IsHigh(r.value.0) && StartsLow(t[6..])
  }

  function Joined(high: CodePoint, low: CodePoint): CodePoint
    requires IsHigh(high) && IsLow(low)
  {
    0x10000 + (high - 0xD800) * 1024 + (low - 0xDC00)
  }

  /** One code point of a Python string, one code unit of a JavaScript string. */
  function ReadPoint(d: Dialect, t: Text): (r: Option<(CodePoint, nat)>)
    ensures r.Some? ==> 1 <= r.value.1 <= |t|
  {
    if JoinsPair(d, t) then Some((Joined(ReadChar(t).value.0, ReadChar(t[6..]).value.0), 12)) else ReadChar(t)
  }

  /** The rest of a string after its opening quote, and what follows the closing one. */
  function ReadString(d: Dialect, t: Text): (r: Option<(Text, Text)>)
    ensures r.Some? ==> |r.value.1| < |t|
    decreases |t|
  {
    if t == [] then None
    else if t[0] == 0x22 then Some(([], t[1..]))
    else
      match ReadPoint(d, t)
      case None => None
      case Some((c, n)) =>
        match ReadString(d, t[n..])
        case None => None
        case Some((s, rest)) => Some(([c] + s, rest))
  }

  lemma ReadUnicode(c: int, rest: Text)
    requires 0 <= c < 0x10000
    ensures ReadChar(UnicodeEscape(c) + rest) == Some((c, 6))
  {
    var e, t := UnicodeEscape(c), UnicodeEscape(c) + rest;
    assert forall i :: 0 <= i < 6 ==> t[i] == e[i];
    HexBack(c / 4096);
    HexBack(c / 256 % 16);
    HexBack(c / 16 % 16);
    HexBack(c % 16);
    HexDigits4(c);
  }

  lemma HexBack(x: int)
    requires 0 <= x < 16
    ensures HexValue(HexDigit(x)) == x
  {
  }

  lemma HexDigits4(c: int)
    requires 0 <= c < 0x10000
    ensures ((c / 4096 * 16 + c / 256 % 16) * 16 + c / 16 % 16) * 16 + c % 16 == c
  {
    assert c / 256 == c / 4096 * 16 + c / 256 % 16;
    assert c / 16 == c / 256 * 16 + c / 16 % 16;
  }

  /** A high surrogate is not followed by a low one: escaped, the two would be read as one code point. */
  predicate IsUnpaired(s: Text) {
    forall i :: 0 <= i < |s| - 1 ==> !(IsHigh(s[i]) && IsLow(s[i + 1]))
  }

  /** The dialect prints the string so that it reads back. */
  predicate Printable(d: Dialect, s: Text) {
    d.PythonAscii? ==> IsUnpaired(s)
  }

  lemma ReadEscape(d: Dialect, c: CodePoint, rest: Text)
    requires d.PythonAscii? && IsHigh(c) ==> !StartsLow(rest)
    ensures ReadPoint(d, Escape(d, c) + rest) == Some((c, |Escape(d, c)|))
    ensures (Escape(d, c) + rest)[0] != 0x22
  {
    if Short(c) {
      ReadShort(d, c, rest);
    } else if c < 0x20 || (d.JavaScript? && IsSurrogate(c)) {
      ReadUnicode(c, rest);
    } else if d.PythonAscii? && c >= 0x7F {
      ReadUnits(d, c, rest);
    }
  }

  lemma AfterUnicode(c: int, rest: Text)
    requires 0 <= c < 0x10000
    ensures (UnicodeEscape(c) + rest)[6..] == rest && (UnicodeEscape(c) + rest)[0] == 0x5C
  {
  }

  lemma ReadUnits(d: Dialect, c: CodePoint, rest: Text)
    requires d.PythonAscii? && (IsHigh(c) ==> !StartsLow(rest))
    ensures ReadPoint(d, EscapeUnits(c) + rest) == Some((c, |EscapeUnits(c)|))
    ensures (EscapeUnits(c) + rest)[0] == 0x5C
  {
    if c < 0x10000 {
      ReadUnicode(c, rest);
      AfterUnicode(c, rest);
    } else {
      ReadUnitPair(d, c, rest);
    }
  }

  lemma ReadUnitPair(d: Dialect, c: CodePoint, rest: Text)
    requires d.PythonAscii? && c >= 0x10000
    ensures ReadPoint(d, EscapeUnits(c) + rest) == Some((c, 12))
    ensures (EscapeUnits(c) + rest)[0] == 0x5C
  {
    var high, low := Utf16Char(c)[0], Utf16Char(c)[1];
    var more := UnicodeEscape(low) + rest;
    Assoc(UnicodeEscape(high), UnicodeEscape(low), rest);
    ReadUnicode(high, more);
    AfterUnicode(high, more);
    ReadUnicode(low, rest);
    PairIs(c);
  }

  lemma PairIs(c: CodePoint)
    requires c >= 0x10000
    ensures var u := Utf16Char(c); IsHigh(u[0]) && IsLow(u[1]) && Joined(u[0], u[1]) == c
  {
  }

  /** What follows a printed high surrogate is no escaped low one. */
  lemma NoLowNext(d: Dialect, s: Text, rest: Text)
    requires d.PythonAscii? && s != [] && !IsLow(s[0])
    ensures !StartsLow(EscapeAll(d, s) + [0x22] + rest)
  {
    EscapeStep(d, s, rest);
    FirstUnit(d, s[0], EscapeAll(d, s[1..]) + [0x22] + rest);
  }

  lemma FirstUnit(d: Dialect, c: CodePoint, rest: Text)
    requires d.PythonAscii? && !IsLow(c)
    ensures !StartsLow(Escape(d, c) + rest)
  {
    if Short(c) {
      ReadShort(d, c, rest);
    } else if c < 0x20 || 0x7F <= c < 0x10000 {
      ReadUnicode(c, rest);
    } else if c >= 0x10000 {
      Assoc(UnicodeEscape(Utf16Char(c)[0]), UnicodeEscape(Utf16Char(c)[1]), rest);
      ReadUnicode(Utf16Char(c)[0], UnicodeEscape(Utf16Char(c)[1]) + rest);
      PairIs(c);
    }
  }

  /** The characters with a two-character escape. */
  predicate Short(c: CodePoint) {
    c == 0x22 || c == 0x5C || c == 8 || c == 12 || c == 10 || c == 13 || c == 9
  }

  lemma ReadShort(d: Dialect, c: CodePoint, rest: Text)
    requires Short(c)
    ensures |Escape(d, c)| == 2 && ReadChar(Escape(d, c) + rest) == Some((c, 2))
    ensures (Escape(d, c) + rest)[0] == 0x5C
  {
    var e, t := Escape(d, c), Escape(d, c) + rest;
    assert t[0] == e[0] && t[1] == e[1];
  }

  lemma ReadStringStep(d: Dialect, t: Text, c: CodePoint, n: nat, s: Text, rest: Text)
    requires t != [] && t[0] != 0x22 && ReadPoint(d, t) == Some((c, n)) && ReadString(d, t[n..]) == Some((s, rest))
    ensures ReadString(d, t) == Some(([c] + s, rest))
  {
  }

  lemma EscapeStep(d: Dialect, s: Text, rest: Text)
    requires s != [] && !StartsWithPair(d, s)
    ensures EscapeAll(d, s) + [0x22] + rest == Escape(d, s[0]) + (EscapeAll(d, s[1..]) + [0x22] + rest)
  {
  }

  lemma PairStep(d: Dialect, s: Text, rest: Text)
    requires StartsWithPair(d, s)
    ensures EscapeAll(d, s) + [0x22] + rest == [s[0]] + ([s[1]] + (EscapeAll(d, s[2..]) + [0x22] + rest))
  {
    assert s[..2] == [s[0], s[1]];
  }

  lemma {:induction false} ReadQuoted(d: Dialect, s: Text, rest: Text)
    requires Printable(d, s)
    ensures ReadString(d, EscapeAll(d, s) + [0x22] + rest) == Some((s, rest))
    decreases |s|
  {
    if s == [] {
      assert (EscapeAll(d, s) + [0x22] + rest)[1..] == rest;
    } else if StartsWithPair(d, s) {
      ReadQuoted(d, s[2..], rest);
      ReadPair(d, s, rest);
    } else {
      ReadQuoted(d, s[1..], rest);
      ReadEscaped(d, s, rest);
    }
  }

  lemma ReadPair(d: Dialect, s: Text, rest: Text)
    requires StartsWithPair(d, s)
    requires ReadString(d, EscapeAll(d, s[2..]) + [0x22] + rest) == Some((s[2..], rest))
    ensures ReadString(d, EscapeAll(d, s) + [0x22] + rest) == Some((s, rest))
  {
    var more := EscapeAll(d, s[2..]) + [0x22] + rest;
    PairStep(d, s, rest);
    assert ([s[1]] + more)[1..] == more && ([s[0]] + ([s[1]] + more))[1..] == [s[1]] + more;
    ReadStringStep(d, [s[1]] + more, s[1], 1, s[2..], rest);
    ReadStringStep(d, [s[0]] + ([s[1]] + more), s[0], 1, [s[1]] + s[2..], rest);
    assert s == [s[0]] + ([s[1]] + s[2..]);
  }

  lemma NextAfter(d: Dialect, s: Text, rest: Text)
    requires s != [] && Printable(d, s)
    ensures d.PythonAscii? && IsHigh(s[0]) ==> !StartsLow(EscapeAll(d, s[1..]) + [0x22] + rest)
  {
    if d.PythonAscii? && IsHigh(s[0]) {
      if |s| == 1 {
        assert EscapeAll(d, s[1..]) + [0x22] + rest == [0x22] + rest;
      } else {
        NoLowNext(d, s[1..], rest);
      }
    }
  }

  lemma ReadEscaped(d: Dialect, s: Text, rest: Text)
    requires s != [] && !StartsWithPair(d, s) && Printable(d, s)
    requires ReadString(d, EscapeAll(d, s[1..]) + [0x22] + rest) == Some((s[1..], rest))
    ensures ReadString(d, EscapeAll(d, s) + [0x22] + rest) == Some((s, rest))
  {
    var e, more := Escape(d, s[0]), EscapeAll(d, s[1..]) + [0x22] + rest;
    EscapeStep(d, s, rest);
    NextAfter(d, s, rest);
    ReadEscape(d, s[0], more);
    DropKeepsRest(e, more, |e|);
    ReadStringStep(d, e + more, s[0], |e|, s[1..], rest);
    assert s == [s[0]] + s[1..];
  }

  /** On text without a lone surrogate the dialects print alike. */
  lemma DialectsQuoteAlike(s: Text)
    requires WellFormed16(s)
    ensures Quote(JavaScript, s) == Quote(Python, s)
  {
    EscapesAgree(s);
  }

  lemma {:induction false} EscapesAgree(s: Text)
    requires WellFormed16(s)
    ensures EscapeAll(JavaScript, s) == EscapeAll(Python, s)
    decreases |s|
  {
    if s == [] {
    } else if StartsWithPair(JavaScript, s) {
      EscapesAgree(s[2..]);
      PythonPair(s);
    } else {
      EscapesAgree(s[1..]);
    }
  }

  lemma PythonPair(s: Text)
    requires StartsWithPair(JavaScript, s)
    ensures EscapeAll(Python, s) == s[..2] + EscapeAll(Python, s[2..])
  {
    PythonRaw(s);
    PythonRaw(s[1..]);
    assert s[1..][1..] == s[2..] && s[1..][0] == s[1];
    assert s[..2] == [s[0]] + [s[1]];
  }

  lemma PythonRaw(s: Text)
    requires s != [] && IsSurrogate(s[0])
    ensures EscapeAll(Python, s) == [s[0]] + EscapeAll(Python, s[1..])
  {
  }

  // ---- numbers (section 6 of RFC 8259) ----

  predicate IsDigit(c: int) {
    '0' as int <= c <= '9' as int
  }

  /** How many digits the text starts with. */
  function Digits(t: Text): (n: nat)
    ensures n <= |t|
    ensures forall i :: 0 <= i < n ==> IsDigit(t[i])
    ensures n < |t| ==> !IsDigit(t[n])
  {
    if t != [] && IsDigit(t[0]) then 1 + Digits(t[1..]) else 0
  }

  function FractionLength(t: Text): (n: nat)
    ensures n <= |t|
  {
    if t != [] && t[0] == '.' as int && Digits(t[1..]) > 0 then 1 + Digits(t[1..]) else 0
  }

  function ExponentLength(t: Text): (n: nat)
    ensures n <= |t|
  {
    if t == [] || !(t[0] == 'e' as int || t[0] == 'E' as int) then 0
    else
      var sign := if |t| > 1 && (t[1] == '+' as int || t[1] == '-' as int) then 1 else 0;
      var d := Digits(t[1 + sign..]);
      if d == 0 then 0 else 1 + sign + d
  }

  function IntegerLength(t: Text): (n: nat)
    ensures n <= |t|
  {
    var minus := if t != [] && t[0] == '-' as int then 1 else 0;
    var d := Digits(t[minus..]);
    if d == 0 then 0 else if t[minus] == '0' as int then minus + 1 else minus + d
  }

  /** The length of a fraction and an exponent. */
  function TailLength(t: Text): (n: nat)
    ensures n <= |t|
  {
    FractionLength(t) + ExponentLength(t[FractionLength(t)..])
  }

  /** The length of the number the text starts with, 0 if none. */
  function NumberLength(t: Text): (n: nat)
    ensures n <= |t|
  {
    var i := IntegerLength(t);
    if i == 0 then 0 else i + TailLength(t[i..])
  }

  /** The length of `NaN`, `Infinity` or `-Infinity` at the start of the text, 0 if none. */
  function ConstantLength(t: Text): (n: nat)
    ensures n <= |t|
  {
    if StartsWith(t, Ascii("NaN")) then 3
    else if StartsWith(t, Ascii("Infinity")) then 8
    else if StartsWith(t, Ascii("-Infinity")) then 9
    else 0
  }

  function LexemeLength(d: Dialect, t: Text): (n: nat)
    ensures n <= |t|
  {
    if !d.JavaScript? && ConstantLength(t) > 0 then ConstantLength(t) else NumberLength(t)
  }

  predicate IsLexeme(d: Dialect, x: Text) {
    x != [] && LexemeLength(d, x) == |x|
  }

  lemma ConstantStart(t: Text)
    requires ConstantLength(t) > 0
    ensures t[0] == 'N' as int || t[0] == 'I' as int || (t[0] == '-' as int && |t| > 1 && t[1] == 'I' as int)
  {
    if StartsWith(t, Ascii("NaN")) {
      assert t[..3][0] == Ascii("NaN")[0] == 'N' as int;
    } else if StartsWith(t, Ascii("Infinity")) {
      assert t[..8][0] == Ascii("Infinity")[0] == 'I' as int;
    } else {
      assert t[..9][0] == Ascii("-Infinity")[0] == '-' as int;
      assert t[..9][1] == Ascii("-Infinity")[1] == 'I' as int;
    }
  }

  lemma NumberStart(t: Text)
    requires NumberLength(t) > 0
    ensures IsDigit(t[0]) || (t[0] == '-' as int && |t| > 1 && IsDigit(t[1]))
  {
    var minus := if t[0] == '-' as int then 1 else 0;
    assert Digits(t[minus..]) > 0;
    assert t[minus..][0] == t[minus];
  }

  lemma ConstantStops(x: Text, rest: Text)
    requires ConstantLength(x) == |x| > 0
    ensures ConstantLength(x + rest) == |x|
  {
    assert (x + rest)[..|x|] == x;
    ConstantStart(x);
    ConstantStart(x + rest);
    assert x[..|x|] == x;
    if |x| == 3 {
      assert StartsWith(x + rest, Ascii("NaN"));
    } else if |x| == 8 {
      assert StartsWith(x + rest, Ascii("Infinity"));
    } else {
      assert StartsWith(x + rest, Ascii("-Infinity"));
    }
  }

  lemma LexemeStops(d: Dialect, x: Text, rest: Text)
    requires IsLexeme(d, x) && Delimited(rest)
    ensures LexemeLength(d, x + rest) == |x|
  {
    if !d.JavaScript? && ConstantLength(x) > 0 {
      ConstantStops(x, rest);
    } else {
      NumberStops(x, rest);
      NumberStart(x + rest);
      if ConstantLength(x + rest) > 0 {
        ConstantStart(x + rest);
      }
    }
  }

  /** What may follow a value in compact JSON. */
  predicate Delimited(rest: Text) {
    rest == [] || rest[0] == ',' as int || rest[0] == '}' as int || rest[0] == ']' as int
  }

  lemma {:induction false} DigitsStop(x: Text, rest: Text)
    requires Delimited(rest)
    ensures Digits(x + rest) == Digits(x)
  {
    if x == [] {
      assert x + rest == rest;
    } else {
      DigitsStop(x[1..], rest);
      assert (x + rest)[1..] == x[1..] + rest;
    }
  }

  lemma NumberStops(x: Text, rest: Text)
    requires Delimited(rest)
    ensures NumberLength(x + rest) == NumberLength(x)
  {
    IntegerStops(x, rest);
    var i := IntegerLength(x);
    DropKeepsRest(x, rest, i);
    TailStops(x[i..], rest);
  }

  lemma TailStops(y: Text, rest: Text)
    requires Delimited(rest)
    ensures TailLength(y + rest) == TailLength(y)
  {
    FractionStops(y, rest);
    var f := FractionLength(y);
    DropKeepsRest(y, rest, f);
    ExponentStops(y[f..], rest);
  }

  lemma DropKeepsRest(x: Text, rest: Text, n: nat)
    requires n <= |x|
    ensures (x + rest)[n..] == x[n..] + rest
  {
  }

  lemma IntegerStops(x: Text, rest: Text)
    requires Delimited(rest)
    ensures IntegerLength(x + rest) == IntegerLength(x)
  {
    var t := x + rest;
    var minus := if x != [] && x[0] == '-' as int then 1 else 0;
    assert t[minus..] == x[minus..] + rest;
    DigitsStop(x[minus..], rest);
  }

  lemma FractionStops(x: Text, rest: Text)
    requires Delimited(rest)
    ensures FractionLength(x + rest) == FractionLength(x)
  {
    if x != [] {
      assert (x + rest)[1..] == x[1..] + rest;
      DigitsStop(x[1..], rest);
    } else {
      assert x + rest == rest;
    }
  }

  lemma ExponentStops(x: Text, rest: Text)
    requires Delimited(rest)
    ensures ExponentLength(x + rest) == ExponentLength(x)
  {
    if x != [] {
      var sign := if |x| > 1 && (x[1] == '+' as int || x[1] == '-' as int) then 1 else 0;
      assert (x + rest)[1 + sign..] == x[1 + sign..] + rest;
      DigitsStop(x[1 + sign..], rest);
    } else {
      assert x + rest == rest;
    }
  }

  // ---- decimal integers ----

  /** Minimal decimal form of a natural number, as `json.dumps` and `JSON.stringify` print it. */
  function Decimal(n: nat): (t: Text)
    ensures t != [] && forall i :: 0 <= i < |t| ==> IsDigit(t[i])
    ensures t[0] == '0' as int ==> n == 0 && |t| == 1
  {
    if n < 10 then ['0' as int + n] else Decimal(n / 10) + ['0' as int + n % 10]
  }

  /** The integer a plain digit string denotes. */
  function DecimalValue(t: Text): (n: nat)
    requires forall i :: 0 <= i < |t| ==> IsDigit(t[i])
  {
    if t == [] then 0
    else
      assert IsDigit(t[|t| - 1]);
      10 * DecimalValue(t[..|t| - 1]) + (t[|t| - 1] - '0' as int)
  }

  lemma {:induction false} DecimalRoundTrip(n: nat)
    ensures DecimalValue(Decimal(n)) == n
  {
    var t := Decimal(n);
    if n < 10 {
      assert t[..0] == [];
    } else {
      DecimalRoundTrip(n / 10);
      assert t[..|t| - 1] == Decimal(n / 10);
    }
  }

  lemma {:induction false} AllDigits(t: Text)
    requires forall i :: 0 <= i < |t| ==> IsDigit(t[i])
    ensures Digits(t) == |t|
  {
  }

  lemma DecimalIsLexeme(d: Dialect, n: nat)
    ensures IsLexeme(d, Decimal(n))
  {
    var t := Decimal(n);
    AllDigits(t);
    assert t[0..] == t;
    if ConstantLength(t) > 0 {
      ConstantStart(t);
    }
  }

  // ---- values ----

  /** Every number and every string in the value is one the dialect can print. */
  ghost predicate WellFormed(d: Dialect, j: Json)
    decreases j
  {
    match j
    case Num(x) => IsLexeme(d, x)
    case Str(s) => Printable(d, s)
    case Arr(es) => forall i :: 0 <= i < |es| ==> WellFormed(d, es[i])
    case Obj(m) => forall k :: k in m ==> Printable(d, k) && WellFormed(d, m[k])
    case _ => true
  }

  /** `parts.join(",")`. */
  function Join(parts: seq<Text>): Text
  {
    if parts == [] then []
    else if |parts| == 1 then parts[0]
    else parts[0] + [','  as int] + Join(parts[1..])
  }

  function Print(d: Dialect, j: Json): (t: Text)
  {
    match j
    case Null => Ascii("null")
    case Bool(b) => if b then Ascii("true") else Ascii("false")
    case Num(x) => x
    case Str(s) => Quote(d, s)
    case Arr(es) =>
      ['[' as int] + Join(seq(|es|, i requires 0 <= i < |es| => Print(d, es[i]))) + [']' as int]
    case Obj(m) =>
      var ks := SortedKeys(m.Keys);
      assert forall i :: 0 <= i < |ks| ==> ks[i] in Elements(ks);
      ['{' as int]
      + Join(seq(|ks|, i requires 0 <= i < |ks| => Quote(d, ks[i]) + [':' as int] + Print(d, m[ks[i]])))
      + ['}' as int]
  }

  // ---- the reader ----

  predicate IsSpace(c: int) {
    c == 0x20 || c == 0x09 || c == 0x0A || c == 0x0D
  }

  function SkipSpace(t: Text): (r: Text)
    ensures |r| <= |t|
    ensures r != [] ==> !IsSpace(r[0])
  {
    if t != [] && IsSpace(t[0]) then SkipSpace(t[1..]) else t
  }

  function StartsWith(t: Text, word: Text): bool {
    |t| >= |word| && t[..|word|] == word
  }

  /** Reads one value; the second component is the unread text. */
  function ReadValue(d: Dialect, text: Text): (r: Option<(Json, Text)>)
    ensures r.Some? ==> |r.value.1| < |text|
    decreases |text|, 1
  {
    var t := SkipSpace(text);
    if t == [] then None
    else if t[0] == 0x22 then
      match ReadString(d, t[1..])
      case None => None
      case Some((s, rest)) => Some((Str(s), rest))
    else if t[0] == '{' as int then
      var u := SkipSpace(t[1..]);
      if u != [] && u[0] == '}' as int then Some((Obj(map[]), u[1..]))
      else
        (match ReadMembers(d, t[1..])
         case None => None
         case Some((ps, rest)) => Some((Obj(MapOf(ps)), rest)))
    else if t[0] == '[' as int then
      var u := SkipSpace(t[1..]);
      if u != [] && u[0] == ']' as int then Some((Arr([]), u[1..]))
      else
        (match ReadElements(d, t[1..])
         case None => None
         case Some((es, rest)) => Some((Arr(es), rest)))
    else if LexemeLength(d, t) > 0 then
      Some((Num(t[..LexemeLength(d, t)]), t[LexemeLength(d, t)..]))
    else if StartsWith(t, Ascii("null")) then Some((Null, t[4..]))
    else if StartsWith(t, Ascii("true")) then Some((Bool(true), t[4..]))
    else if StartsWith(t, Ascii("false")) then Some((Bool(false), t[5..]))
    else None
  }

  function ReadElements(d: Dialect, t: Text): (r: Option<(seq<Json>, Text)>)
    ensures r.Some? ==> |r.value.1| < |t|
    decreases |t|, 2
  {
    match ReadValue(d, t)
    case None => None
    case Some((j, rest)) =>
      var u := SkipSpace(rest);
      if u == [] then None
      else if u[0] == ']' as int then Some(([j], u[1..]))
      else if u[0] != ',' as int then None
      else
        match ReadElements(d, u[1..])
        case None => None
        case Some((js, end)) => Some(([j] + js, end))
  }

  function ReadMembers(d: Dialect, t: Text): (r: Option<(seq<(Text, Json)>, Text)>)
    ensures r.Some? ==> |r.value.1| < |t|
    decreases |t|, 2
  {
    var q := SkipSpace(t);
    if q == [] || q[0] != 0x22 then None
    else
      match ReadString(d, q[1..])
      case None => None
      case Some((k, after)) =>
        var c := SkipSpace(after);
        if c == [] || c[0] != ':' as int then None
        else
          match ReadValue(d, c[1..])
          case None => None
          case Some((v, rest)) =>
            var u := SkipSpace(rest);
            if u == [] then None
            else if u[0] == '}' as int then Some(([(k, v)], u[1..]))
            else if u[0] != ',' as int then None
            else
              match ReadMembers(d, u[1..])
              case None => None
              case Some((ps, end)) => Some(([(k, v)] + ps, end))
  }

  /** Later members win over earlier ones with the same key. */
  function MapOf(ps: seq<(Text, Json)>): map<Text, Json>
  {
    if ps == [] then map[] else map[ps[0].0 := ps[0].1] + MapOf(ps[1..])
  }

  /** `JSON.parse`: one value with nothing but space around it. */
  function Parse(d: Dialect, t: Text): Option<Json>
  {
    match ReadValue(d, t)
    case None => None
    case Some((j, rest)) => if SkipSpace(rest) == [] then Some(j) else None
  }

  // ---- reading undoes printing ----

  lemma {:induction false} MapOfPairs(ps: seq<(Text, Json)>, m: map<Text, Json>)
    requires forall i :: 0 <= i < |ps| ==> ps[i].0 in m && ps[i].1 == m[ps[i].0]
    requires forall k :: k in m ==> exists i :: 0 <= i < |ps| && ps[i].0 == k
    ensures MapOf(ps) == m
  {
    MapOfAgrees(ps, m);
    assert MapOf(ps).Keys == m.Keys;
  }

  lemma {:induction false} MapOfAgrees(ps: seq<(Text, Json)>, m: map<Text, Json>)
    requires forall i :: 0 <= i < |ps| ==> ps[i].0 in m && ps[i].1 == m[ps[i].0]
    ensures forall k :: k in MapOf(ps) ==> k in m && MapOf(ps)[k] == m[k]
    ensures forall i :: 0 <= i < |ps| ==> ps[i].0 in MapOf(ps)
  {
    if ps != [] {
      MapOfAgrees(ps[1..], m);
      forall i | 0 <= i < |ps|
        ensures ps[i].0 in MapOf(ps)
      {
        if i > 0 {
          assert ps[1..][i - 1] == ps[i];
        }
      }
    }
  }

  // One unfolding of the reader per shape of what it meets.

  lemma ReadValueString(d: Dialect, s: Text, rest: Text)
    requires Printable(d, s)
    ensures ReadValue(d, Quote(d, s) + rest) == Some((Str(s), rest))
  {
    QuoteTail(d, s, rest);
    ReadQuoted(d, s, rest);
  }

  lemma QuoteTail(d: Dialect, s: Text, rest: Text)
    ensures var t := Quote(d, s) + rest;
            t[0] == 0x22 && t[1..] == EscapeAll(d, s) + [0x22] + rest && SkipSpace(t) == t
  {
  }

  lemma ReadValueLexeme(d: Dialect, t: Text)
    requires LexemeLength(d, t) > 0
    ensures ReadValue(d, t) == Some((Num(t[..LexemeLength(d, t)]), t[LexemeLength(d, t)..]))
  {
    LexemeIsFirst(d, t);
  }

  /** A number is met before any of the other shapes the reader tries first. */
  lemma LexemeIsFirst(d: Dialect, t: Text)
    requires LexemeLength(d, t) > 0
    ensures t != [] && SkipSpace(t) == t && t[0] != 0x22 && t[0] != '{' as int && t[0] != '[' as int
  {
    LexemeHead(d, t);
    NoLeadingSpace(t);
  }

  lemma NoLeadingSpace(t: Text)
    requires t != [] && !IsSpace(t[0])
    ensures SkipSpace(t) == t
  {
  }

  lemma ReadValueNumber(d: Dialect, x: Text, rest: Text)
    requires IsLexeme(d, x) && Delimited(rest)
    ensures ReadValue(d, x + rest) == Some((Num(x), rest))
  {
    LexemeStops(d, x, rest);
    assert (x + rest)[..|x|] == x && (x + rest)[|x|..] == rest;
    ReadValueLexeme(d, x + rest);
  }

  lemma LexemeHead(d: Dialect, t: Text)
    requires LexemeLength(d, t) > 0
    ensures IsDigit(t[0]) || t[0] == '-' as int || t[0] == 'N' as int || t[0] == 'I' as int
  {
    if !d.JavaScript? && ConstantLength(t) > 0 {
      ConstantStart(t);
    } else {
      NumberStart(t);
    }
  }

  lemma WordIsNoLexeme(d: Dialect, t: Text)
    requires t != [] && (t[0] == 'n' as int || t[0] == 't' as int || t[0] == 'f' as int)
    ensures LexemeLength(d, t) == 0
  {
    if LexemeLength(d, t) > 0 {
      LexemeHead(d, t);
    }
  }

  lemma WordHead(word: Text, rest: Text)
    requires word != []
    ensures StartsWith(word + rest, word) && (word + rest)[0] == word[0] && (word + rest)[|word|..] == rest
    ensures !IsSpace(word[0]) ==> SkipSpace(word + rest) == word + rest
  {
  }

  lemma OtherWord(t: Text, word: Text)
    requires word != [] && t != [] && t[0] != word[0]
    ensures !StartsWith(t, word)
  {
  }

  lemma ReadNull(d: Dialect, rest: Text)
    ensures ReadValue(d, Ascii("null") + rest) == Some((Null, rest))
  {
    WordHead(Ascii("null"), rest);
    WordIsNoLexeme(d, Ascii("null") + rest);
  }

  lemma ReadTrue(d: Dialect, rest: Text)
    ensures ReadValue(d, Ascii("true") + rest) == Some((Bool(true), rest))
  {
    var t := Ascii("true") + rest;
    WordHead(Ascii("true"), rest);
    WordIsNoLexeme(d, t);
    OtherWord(t, Ascii("null"));
  }

  lemma ReadFalse(d: Dialect, rest: Text)
    ensures ReadValue(d, Ascii("false") + rest) == Some((Bool(false), rest))
  {
    var t := Ascii("false") + rest;
    WordHead(Ascii("false"), rest);
    WordIsNoLexeme(d, t);
    OtherWord(t, Ascii("null"));
    OtherWord(t, Ascii("true"));
  }

  lemma ReadValueWord(d: Dialect, j: Json, rest: Text)
    requires j.Null? || j.Bool?
    ensures ReadValue(d, Print(d, j) + rest) == Some((j, rest))
  {
    match j
    case Null => ReadNull(d, rest);
    case Bool(b) =>
      if b {
        ReadTrue(d, rest);
      } else {
        ReadFalse(d, rest);
      }
  }

  lemma ReadValueArray(d: Dialect, tail: Text)
    requires tail != [] && !IsSpace(tail[0])
    ensures ReadValue(d, ['[' as int] + tail)
      == if tail[0] == ']' as int then Some((Arr([]), tail[1..]))
         else match ReadElements(d, tail) case None => None case Some((es, r)) => Some((Arr(es), r))
  {
    assert (['[' as int] + tail)[1..] == tail;
  }

  lemma ReadValueObject(d: Dialect, tail: Text)
    requires tail != [] && !IsSpace(tail[0])
    ensures ReadValue(d, ['{' as int] + tail)
      == if tail[0] == '}' as int then Some((Obj(map[]), tail[1..]))
         else match ReadMembers(d, tail) case None => None case Some((ps, r)) => Some((Obj(MapOf(ps)), r))
  {
    assert (['{' as int] + tail)[1..] == tail;
  }

  /** `p` is text that reads as `j` whatever delimiter follows. */
  ghost predicate Reads(d: Dialect, p: Text, j: Json)
  {
    p != [] && !IsSpace(p[0]) && p[0] != ']' as int
    && forall r: Text :: Delimited(r) ==> ReadValue(d, p + r) == Some((j, r))
  }

  lemma ReadElementsLast(d: Dialect, p: Text, e: Json, rest: Text)
    requires Reads(d, p, e)
    ensures ReadElements(d, p + ([']' as int] + rest)) == Some(([e], rest))
  {
    var after := [']' as int] + rest;
    assert ReadValue(d, p + after) == Some((e, after)) && after[1..] == rest;
  }

  lemma ReadElementsMore(d: Dialect, p: Text, e: Json, more: Text, es: seq<Json>, rest: Text)
    requires Reads(d, p, e) && ReadElements(d, more) == Some((es, rest))
    ensures ReadElements(d, p + ([',' as int] + more)) == Some(([e] + es, rest))
  {
    var after := [',' as int] + more;
    assert after[1..] == more;
    assert SkipSpace(after) == after;
    ReadElementsStep(d, p, e, after);
  }

  lemma ReadElementsStep(d: Dialect, p: Text, e: Json, after: Text)
    requires Reads(d, p, e) && Delimited(after) && after != [] && after[0] == ',' as int && SkipSpace(after) == after
    ensures ReadElements(d, p + after)
      == match ReadElements(d, after[1..]) case None => None case Some((es, end)) => Some(([e] + es, end))
  {
    assert ReadValue(d, p + after) == Some((e, after));
  }

  lemma JoinStep(parts: seq<Text>, close: Text, rest: Text)
    requires parts != []
    ensures |parts| == 1 ==> Join(parts) + close + rest == parts[0] + (close + rest)
    ensures |parts| > 1 ==>
              Join(parts) + close + rest == parts[0] + ([',' as int] + (Join(parts[1..]) + close + rest))
  {
    Assoc(Join(parts), close, rest);
    if |parts| > 1 {
      var tail, comma := Join(parts[1..]), [',' as int];
      Assoc(parts[0] + comma, tail, close + rest);
      Assoc(parts[0], comma, tail + (close + rest));
      Assoc(tail, close, rest);
    }
  }

  lemma {:induction false} ReadElementsJoined(d: Dialect, parts: seq<Text>, es: seq<Json>, rest: Text)
    requires |parts| == |es| > 0
    requires forall i :: 0 <= i < |es| ==> Reads(d, parts[i], es[i])
    ensures ReadElements(d, Join(parts) + [']' as int] + rest) == Some((es, rest))
  {
    if |es| == 1 {
      JoinStep(parts, [']' as int], rest);
      ReadElementsLast(d, parts[0], es[0], rest);
      assert es == [es[0]];
    } else {
      ReadElementsJoined(d, parts[1..], es[1..], rest);
      ReadElementsTail(d, parts, es[0], es[1..], rest);
      assert es == [es[0]] + es[1..];
    }
  }

  lemma ReadElementsTail(d: Dialect, parts: seq<Text>, e: Json, es: seq<Json>, rest: Text)
    requires |parts| > 1 && Reads(d, parts[0], e)
    requires ReadElements(d, Join(parts[1..]) + [']' as int] + rest) == Some((es, rest))
    ensures ReadElements(d, Join(parts) + [']' as int] + rest) == Some(([e] + es, rest))
  {
    JoinStep(parts, [']' as int], rest);
    ReadElementsMore(d, parts[0], e, Join(parts[1..]) + [']' as int] + rest, es, rest);
  }

  lemma ReadKey(d: Dialect, k: Text, value: Text)
    requires Printable(d, k)
    ensures var t := Quote(d, k) + ([':' as int] + value);
            && SkipSpace(t) == t && t[0] == 0x22
            && ReadString(d, t[1..]) == Some((k, [':' as int] + value))
            && SkipSpace([':' as int] + value) == [':' as int] + value
            && ([':' as int] + value)[1..] == value
  {
    var colon := [':' as int] + value;
    QuoteTail(d, k, colon);
    ReadQuoted(d, k, colon);
    assert colon[1..] == value;
  }

  /** What one `key:value` part must be for the member list to read back. */
  ghost predicate ReadsMember(d: Dialect, p: Text, k: Text, v: Json)
  {
    Printable(d, k) && exists q: Text :: p == Quote(d, k) + [':' as int] + q && Reads(d, q, v)
  }

  lemma ReadMembersLast(d: Dialect, p: Text, k: Text, v: Json, rest: Text)
    requires ReadsMember(d, p, k, v)
    ensures ReadMembers(d, p + (['}' as int] + rest)) == Some(([(k, v)], rest))
  {
    var after := ['}' as int] + rest;
    var c := ReadMemberStart(d, p, k, v, after);
    assert after[1..] == rest;
  }

  lemma ReadMembersMore(d: Dialect, p: Text, k: Text, v: Json, more: Text, ps: seq<(Text, Json)>, rest: Text)
    requires ReadsMember(d, p, k, v) && ReadMembers(d, more) == Some((ps, rest))
    ensures ReadMembers(d, p + ([',' as int] + more)) == Some(([(k, v)] + ps, rest))
  {
    var after := [',' as int] + more;
    var c := ReadMemberStart(d, p, k, v, after);
    assert after[1..] == more;
    assert SkipSpace(after) == after;
  }

  lemma MemberPart(d: Dialect, k: Text, v: Json, q: Text)
    requires Reads(d, q, v) && Printable(d, k)
    ensures ReadsMember(d, Quote(d, k) + [':' as int] + q, k, v)
  {
  }

  /** What `ReadMembers` finds in its first step over a member part. */
  lemma ReadMemberStart(d: Dialect, p: Text, k: Text, v: Json, after: Text) returns (c: Text)
    requires ReadsMember(d, p, k, v) && Delimited(after)
    ensures SkipSpace(p + after) == p + after && p + after != [] && (p + after)[0] == 0x22
    ensures ReadString(d, (p + after)[1..]) == Some((k, c)) && SkipSpace(c) == c
    ensures c != [] && c[0] == ':' as int && ReadValue(d, c[1..]) == Some((v, after))
  {
    var q: Text :| p == Quote(d, k) + [':' as int] + q && Reads(d, q, v);
    c := [':' as int] + (q + after);
    Assoc(Quote(d, k), [':' as int], q);
    Assoc(Quote(d, k), [':' as int] + q, after);
    Assoc([':' as int], q, after);
    ReadKey(d, k, q + after);
    assert ReadValue(d, q + after) == Some((v, after));
  }

  /** Each part reads as its pair. */
  ghost predicate PartsRead(d: Dialect, parts: seq<Text>, ps: seq<(Text, Json)>) {
    |parts| == |ps| && forall i :: 0 <= i < |ps| ==> ReadsMember(d, parts[i], ps[i].0, ps[i].1)
  }

  lemma PartsReadTail(d: Dialect, parts: seq<Text>, ps: seq<(Text, Json)>)
    requires PartsRead(d, parts, ps) && ps != []
    ensures PartsRead(d, parts[1..], ps[1..]) && ReadsMember(d, parts[0], ps[0].0, ps[0].1)
  {
  }

  lemma ReadMembersOne(d: Dialect, parts: seq<Text>, ps: seq<(Text, Json)>, rest: Text)
    requires PartsRead(d, parts, ps) && |ps| == 1
    ensures ReadMembers(d, Join(parts) + ['}' as int] + rest) == Some((ps, rest))
  {
    JoinStep(parts, ['}' as int], rest);
    ReadMembersLast(d, parts[0], ps[0].0, ps[0].1, rest);
    assert ps == [(ps[0].0, ps[0].1)];
  }

  lemma FirstPair(ps: seq<(Text, Json)>)
    requires ps != []
    ensures ps == [(ps[0].0, ps[0].1)] + ps[1..]
  {
  }

  lemma ReadMembersCons(d: Dialect, parts: seq<Text>, ps: seq<(Text, Json)>, rest: Text)
    requires PartsRead(d, parts, ps) && |ps| > 1
    requires ReadMembers(d, Join(parts[1..]) + ['}' as int] + rest) == Some((ps[1..], rest))
    ensures ReadMembers(d, Join(parts) + ['}' as int] + rest) == Some((ps, rest))
  {
    var more := Join(parts[1..]) + ['}' as int] + rest;
    assert Join(parts) + ['}' as int] + rest == parts[0] + ([',' as int] + more) by {
      JoinStep(parts, ['}' as int], rest);
    }
    FirstPair(ps);
    ReadMembersMore(d, parts[0], ps[0].0, ps[0].1, more, ps[1..], rest);
  }

  lemma {:induction false} ReadMembersJoined(d: Dialect, parts: seq<Text>, ps: seq<(Text, Json)>, rest: Text)
    requires PartsRead(d, parts, ps) && ps != []
    ensures ReadMembers(d, Join(parts) + ['}' as int] + rest) == Some((ps, rest))
    decreases |ps|
  {
    if |ps| == 1 {
      ReadMembersOne(d, parts, ps, rest);
    } else {
      PartsReadTail(d, parts, ps);
      ReadMembersJoined(d, parts[1..], ps[1..], rest);
      ReadMembersCons(d, parts, ps, rest);
    }
  }

  /** The reader gives back exactly the printed value and leaves exactly what followed it. */
  lemma {:induction false} ReadPrinted(d: Dialect, j: Json)
    requires WellFormed(d, j)
    ensures Reads(d, Print(d, j), j)
    decreases j, 1
  {
    PrintStart(d, j);
    forall r: Text | Delimited(r)
      ensures ReadValue(d, Print(d, j) + r) == Some((j, r))
    {
      match j
      case Null => ReadValueWord(d, j, r);
      case Bool(_) => ReadValueWord(d, j, r);
      case Num(x) => ReadValueNumber(d, x, r);
      case Str(s) => ReadValueString(d, s, r);
      case Arr(_) => ReadPrintedArray(d, j, r);
      case Obj(_) => ReadPrintedObject(d, j, r);
    }
  }

  lemma {:induction false} ReadPrintedArray(d: Dialect, j: Json, rest: Text)
    requires j.Arr? && WellFormed(d, j)
    ensures ReadValue(d, Print(d, j) + rest) == Some((j, rest))
    decreases j, 0
  {
    var parts := PrintedElements(d, j);
    forall i | 0 <= i < |parts|
      ensures Reads(d, parts[i], j.elems[i])
    {
      ReadPrinted(d, j.elems[i]);
    }
    ArrayText(Print(d, j), Join(parts), rest);
    ReadArrayParts(d, j.elems, parts, rest);
  }

  lemma PrintedElements(d: Dialect, j: Json) returns (parts: seq<Text>)
    requires j.Arr?
    ensures |parts| == |j.elems| && forall i :: 0 <= i < |parts| ==> parts[i] == Print(d, j.elems[i])
    ensures Print(d, j) == ['[' as int] + Join(parts) + [']' as int]
  {
    parts := seq(|j.elems|, i requires 0 <= i < |j.elems| => Print(d, j.elems[i]));
  }

  lemma ArrayText(t: Text, body: Text, rest: Text)
    requires t == ['[' as int] + body + [']' as int]
    ensures t + rest == ['[' as int] + (body + [']' as int] + rest)
  {
    Assoc(['[' as int] + body, [']' as int], rest);
    Assoc(['[' as int], body, [']' as int] + rest);
    Assoc(body, [']' as int], rest);
  }

  lemma ReadArrayParts(d: Dialect, es: seq<Json>, parts: seq<Text>, rest: Text)
    requires |parts| == |es| && forall i :: 0 <= i < |es| ==> Reads(d, parts[i], es[i])
    ensures ReadValue(d, ['[' as int] + (Join(parts) + [']' as int] + rest)) == Some((Arr(es), rest))
  {
    var tail := Join(parts) + [']' as int] + rest;
    if es == [] {
      assert tail[1..] == rest;
    } else {
      JoinStart(parts);
      assert Reads(d, parts[0], es[0]);
      assert tail[0] == parts[0][0];
      ReadElementsJoined(d, parts, es, rest);
    }
    ReadValueArray(d, tail);
  }

  lemma JoinStart(parts: seq<Text>)
    requires parts != [] && parts[0] != []
    ensures Join(parts) != [] && Join(parts)[0] == parts[0][0]
  {
  }

  lemma {:induction false} ReadPrintedObject(d: Dialect, j: Json, rest: Text)
    requires j.Obj? && WellFormed(d, j)
    ensures ReadValue(d, Print(d, j) + rest) == Some((j, rest))
    decreases j, 0
  {
    var ks, parts := PrintedParts(d, j);
    forall i | 0 <= i < |ks|
      ensures ReadsMember(d, parts[i], ks[i], j.members[ks[i]])
    {
      ReadPrinted(d, j.members[ks[i]]);
      MemberPart(d, ks[i], j.members[ks[i]], Print(d, j.members[ks[i]]));
    }
    ObjectText(Print(d, j), Join(parts), rest);
    ReadObjectParts(d, j.members, ks, parts, rest);
  }

  lemma ObjectText(t: Text, body: Text, rest: Text)
    requires t == ['{' as int] + body + ['}' as int]
    ensures t + rest == ['{' as int] + (body + ['}' as int] + rest)
  {
    Assoc(['{' as int] + body, ['}' as int], rest);
    Assoc(['{' as int], body, ['}' as int] + rest);
    Assoc(body, ['}' as int], rest);
  }

  /** The parts `canonicalJsonStringify` pushes for an object, key by key in sorted order. */
  lemma PrintedParts(d: Dialect, j: Json) returns (ks: seq<Text>, parts: seq<Text>)
    requires j.Obj?
    ensures StrictlySorted(ks) && Elements(ks) == j.members.Keys && |parts| == |ks|
    ensures forall i :: 0 <= i < |ks| ==> ks[i] in j.members
    ensures forall i :: 0 <= i < |ks| ==> parts[i] == Quote(d, ks[i]) + [':' as int] + Print(d, j.members[ks[i]])
    ensures Print(d, j) == ['{' as int] + Join(parts) + ['}' as int]
  {
    ks := SortedKeys(j.members.Keys);
    KeysAreIn(j.members, ks);
    parts := ObjectParts(d, j.members);
  }

  lemma KeysAreIn(m: map<Text, Json>, ks: seq<Text>)
    requires Elements(ks) == m.Keys
    ensures forall i :: 0 <= i < |ks| ==> ks[i] in m
  {
    assert forall i :: 0 <= i < |ks| ==> ks[i] in Elements(ks);
  }

  lemma ObjectParts(d: Dialect, m: map<Text, Json>) returns (parts: seq<Text>)
    ensures var ks := SortedKeys(m.Keys);
            && |parts| == |ks|
            && (forall i :: 0 <= i < |ks| ==>
                  ks[i] in m && parts[i] == Quote(d, ks[i]) + [':' as int] + Print(d, m[ks[i]]))
            && Print(d, Obj(m)) == ['{' as int] + Join(parts) + ['}' as int]
  {
    var ks := SortedKeys(m.Keys);
    KeysAreIn(m, ks);
    parts := seq(|ks|, i requires 0 <= i < |ks| => Quote(d, ks[i]) + [':' as int] + Print(d, m[ks[i]]));
  }

  lemma PairsOf(m: map<Text, Json>, ks: seq<Text>) returns (ps: seq<(Text, Json)>)
    requires Elements(ks) == m.Keys
    ensures |ps| == |ks| && MapOf(ps) == m
    ensures forall i :: 0 <= i < |ks| ==> ks[i] in m && ps[i].0 == ks[i] && ps[i].1 == m[ks[i]]
  {
    assert forall i :: 0 <= i < |ks| ==> ks[i] in Elements(ks);
    ps := seq(|ks|, i requires 0 <= i < |ks| => (ks[i], m[ks[i]]));
    forall k | k in m
      ensures exists i :: 0 <= i < |ps| && ps[i].0 == k
    {
      var i := IndexIn(ks, k);
      assert ps[i].0 == k;
    }
    MapOfPairs(ps, m);
  }

  lemma IndexIn(ks: seq<Text>, k: Text) returns (i: nat)
    requires k in Elements(ks)
    ensures i < |ks| && ks[i] == k
  {
    i :| 0 <= i < |ks| && ks[i] == k;
  }

  lemma ReadObjectParts(d: Dialect, m: map<Text, Json>, ks: seq<Text>, parts: seq<Text>, rest: Text)
    requires |parts| == |ks| && Elements(ks) == m.Keys
    requires forall i :: 0 <= i < |ks| ==> ks[i] in m && ReadsMember(d, parts[i], ks[i], m[ks[i]])
    ensures ReadValue(d, ['{' as int] + (Join(parts) + ['}' as int] + rest)) == Some((Obj(m), rest))
  {
    var tail := Join(parts) + ['}' as int] + rest;
    if ks == [] {
      assert m == map[];
      assert tail[1..] == rest;
    } else {
      var ps := PairsOf(m, ks);
      JoinStart(parts);
      ReadMembersJoined(d, parts, ps, rest);
    }
    ReadValueObject(d, tail);
  }

  /** A printed value starts with no space and with no closing bracket. */
  lemma PrintStart(d: Dialect, j: Json)
    requires WellFormed(d, j)
    ensures Print(d, j) != [] && !IsSpace(Print(d, j)[0]) && Print(d, j)[0] != ']' as int
  {
    if j.Num? {
      LexemeHead(d, j.lexeme);
    }
  }

  /** Printing followed by reading is the identity on every well-formed value. */
  lemma ParsePrint(d: Dialect, j: Json)
    requires WellFormed(d, j)
    ensures Parse(d, Print(d, j)) == Some(j)
  {
    ReadPrinted(d, j);
    assert Delimited([]) && Print(d, j) + [] == Print(d, j);
  }

  /** Hence canonical JSON text determines the value, whatever keys and strings it holds. */
  lemma PrintInjective(d: Dialect, a: Json, b: Json)
    requires WellFormed(d, a) && WellFormed(d, b) && Print(d, a) == Print(d, b)
    ensures a == b
  {
    ParsePrint(d, a);
    ParsePrint(d, b);
  }

  // ---- printed text has a UTF-8 form when its strings do ----

  lemma ConcatFree(a: Text, b: Text)
    ensures SurrogateFree(a + b) <==> SurrogateFree(a) && SurrogateFree(b)
  {
    if SurrogateFree(a + b) {
      assert forall i :: 0 <= i < |a| ==> a[i] == (a + b)[i];
      assert forall i :: 0 <= i < |b| ==> b[i] == (a + b)[|a| + i];
    }
  }

  lemma EscapeFree(c: CodePoint)
    requires !IsSurrogate(c)
    ensures SurrogateFree(Escape(Python, c))
  {
  }

  lemma {:induction false} EscapeAllFree(s: Text)
    requires SurrogateFree(s)
    ensures SurrogateFree(EscapeAll(Python, s))
  {
    if s != [] {
      EscapeFree(s[0]);
      EscapeAllFree(s[1..]);
      ConcatFree(Escape(Python, s[0]), EscapeAll(Python, s[1..]));
    }
  }

  lemma QuoteFree(s: Text)
    requires SurrogateFree(s)
    ensures SurrogateFree(Quote(Python, s))
  {
    EscapeAllFree(s);
    ConcatFree([0x22], EscapeAll(Python, s));
    ConcatFree([0x22] + EscapeAll(Python, s), [0x22]);
  }

  lemma {:induction false} JoinFree(parts: seq<Text>)
    requires forall i :: 0 <= i < |parts| ==> SurrogateFree(parts[i])
    ensures SurrogateFree(Join(parts))
  {
    if |parts| > 1 {
      JoinFree(parts[1..]);
      ConcatFree(parts[0], [',' as int]);
      ConcatFree(parts[0] + [',' as int], Join(parts[1..]));
    }
  }

  lemma BracketFree(open: CodePoint, body: Text, close: CodePoint)
    requires !IsSurrogate(open) && !IsSurrogate(close) && SurrogateFree(body)
    ensures SurrogateFree([open] + body + [close])
  {
    ConcatFree([open], body);
    ConcatFree([open] + body, [close]);
  }

  lemma MemberFree(k: Text, v: Text)
    requires SurrogateFree(k) && SurrogateFree(v)
    ensures SurrogateFree(Quote(Python, k) + [':' as int] + v)
  {
    QuoteFree(k);
    ConcatFree(Quote(Python, k), [':' as int]);
    ConcatFree(Quote(Python, k) + [':' as int], v);
  }
}
