/** The characters and numbers that the reader takes are those of the grammar of RFC 8259. */
module JsonLexemes {
  import opened Common
  import opened Utf
  import opened JsonText

  // ---- characters (section 7 of RFC 8259) ----

  /** What the letters after a backslash stand for. */
  const ESCAPES: map<char, int> :=
    map['\"' := 0x22, '\\' := 0x5C, '/' := 0x2F, 'b' := 0x08, 'f' := 0x0C, 'n' := 0x0A, 'r' := 0x0D, 't' := 0x09]

  predicate IsUnescaped(c: int) {
    0x20 <= c && c != 0x22 && c != 0x5C
  }

  /** The number that hexadecimal digits of either case denote. */
  ghost predicate AreHexDigitsOf(t: Text, n: int) {
    && |t| == 4 && (forall i :: 0 <= i < 4 ==> IsHexDigit(t[i]))
    && n == 4096 * HexValue(t[0]) + 256 * HexValue(t[1]) + 16 * HexValue(t[2]) + HexValue(t[3])
  }

  predicate IsHexDigit(c: int) {
    '0' as int <= c <= '9' as int || 'a' as int <= c <= 'f' as int || 'A' as int <= c <= 'F' as int
  }

  /** The text is one character of a string: itself, an escape of one letter, or `\u` and four digits. */
  ghost predicate IsSpelling(t: Text, c: CodePoint) {
    || (|t| == 1 && t[0] == c && IsUnescaped(c))
    || (|t| == 2 && t[0] == '\\' as int
        && exists letter :: letter in ESCAPES && t[1] == letter as int && ESCAPES[letter] == c)
    || (|t| == 6 && t[0] == '\\' as int && t[1] == 'u' as int && AreHexDigitsOf(t[2..], c))
  }

  lemma HexIff(c: int)
    ensures HexValue(c) >= 0 <==> IsHexDigit(c)
  {
  }

  lemma LetterReads(t: Text, letter: char)
    requires |t| >= 2 && t[0] == '\\' as int && letter in ESCAPES && t[1] == letter as int
    ensures ReadChar(t) == Some((ESCAPES[letter], 2))
  {
  }

  lemma UnicodeReads(t: Text, c: CodePoint)
    requires |t| >= 6 && t[0] == '\\' as int && t[1] == 'u' as int && AreHexDigitsOf(t[2..6], c)
    ensures ReadChar(t) == Some((c, 6))
  {
    assert t[2..6][0] == t[2] && t[2..6][1] == t[3] && t[2..6][2] == t[4] && t[2..6][3] == t[5];
    assert forall i :: 0 <= i < 4 ==> IsHexDigit(t[2..6][i]);
    HexIff(t[2]);
    HexIff(t[3]);
    HexIff(t[4]);
    HexIff(t[5]);
  }

  lemma ReadIsSpelled(t: Text)
    requires ReadChar(t).Some?
    ensures var (c, n) := ReadChar(t).value; n <= |t| && IsSpelling(t[..n], c)
  {
    var (c, n) := ReadChar(t).value;
    if n == 2 {
      assert (t[1] as char) in ESCAPES && ESCAPES[t[1] as char] == c;
      assert t[..2][1] == (t[1] as char) as int;
    } else if n == 6 {
      HexIff(t[2]);
      HexIff(t[3]);
      HexIff(t[4]);
      HexIff(t[5]);
      assert AreHexDigitsOf(t[..6][2..], c);
    }
  }

  /** A text starts with a spelled character exactly when the reader takes that character. */
  lemma ReadCharIff(t: Text, c: CodePoint, n: nat)
    ensures ReadChar(t) == Some((c, n)) <==> n <= |t| && IsSpelling(t[..n], c)
  {
    if ReadChar(t).Some? {
      ReadIsSpelled(t);
    }
    if n <= |t| && IsSpelling(t[..n], c) {
      SpellingReads(t, c, n);
    }
  }

  lemma SpellingReads(t: Text, c: CodePoint, n: nat)
    requires n <= |t| && IsSpelling(t[..n], c)
    ensures ReadChar(t) == Some((c, n))
  {
    if n == 2 {
      var letter :| letter in ESCAPES && t[..n][1] == letter as int && ESCAPES[letter] == c;
      LetterReads(t, letter);
    } else if n == 6 {
      assert t[..6][2..] == t[2..6];
      UnicodeReads(t, c);
    }
  }

  // ---- numbers (section 6 of RFC 8259) ----

  predicate AreDigits(t: Text) {
    forall i :: 0 <= i < |t| ==> IsDigit(t[i])
  }

  predicate IsSign(t: Text) {
    t == [] || t == ['-' as int]
  }

  /** No leading zero but in zero itself. */
  predicate IsInt(t: Text) {
    t != [] && AreDigits(t) && (t[0] == '0' as int ==> |t| == 1)
  }

  predicate IsFraction(t: Text) {
    t == [] || (|t| >= 2 && t[0] == '.' as int && AreDigits(t[1..]))
  }

  predicate IsExponent(t: Text) {
    || t == []
    || (|t| >= 2 && (t[0] == 'e' as int || t[0] == 'E' as int) && AreDigits(t[1..]))
    || (|t| >= 3 && (t[0] == 'e' as int || t[0] == 'E' as int) && (t[1] == '+' as int || t[1] == '-' as int)
        && AreDigits(t[2..]))
  }

  /** A number is a sign, an integer, a fraction and an exponent. */
  predicate IsNumberOf(sign: Text, whole: Text, fraction: Text, exponent: Text) {
    IsSign(sign) && IsInt(whole) && IsFraction(fraction) && IsExponent(exponent)
  }

  lemma {:induction false} DigitsUpTo(x: Text, rest: Text)
    requires AreDigits(x) && (rest == [] || !IsDigit(rest[0]))
    ensures Digits(x + rest) == |x|
  {
    if x == [] {
      assert x + rest == rest;
    } else {
      DigitsUpTo(x[1..], rest);
      assert (x + rest)[1..] == x[1..] + rest;
    }
  }

  lemma FractionStops(fraction: Text, exponent: Text)
    requires IsFraction(fraction) && IsExponent(exponent)
    ensures FractionLength(fraction + exponent) == |fraction|
  {
    if fraction == [] {
      assert fraction + exponent == exponent;
    } else {
      DigitsUpTo(fraction[1..], exponent);
      assert (fraction + exponent)[1..] == fraction[1..] + exponent;
    }
  }

  lemma ExponentStops(exponent: Text)
    requires IsExponent(exponent)
    ensures ExponentLength(exponent) == |exponent|
  {
    if exponent != [] {
      var sign := if exponent[1] == '+' as int || exponent[1] == '-' as int then 1 else 0;
      DigitsUpTo(exponent[1 + sign..], []);
      assert exponent[1 + sign..] + [] == exponent[1 + sign..];
    }
  }

  lemma IntegerStops(sign: Text, whole: Text, tail: Text)
    requires IsSign(sign) && IsInt(whole) && (tail == [] || !IsDigit(tail[0]))
    ensures IntegerLength(sign + whole + tail) == |sign| + |whole|
  {
    var t := sign + whole + tail;
    assert t[|sign|..] == whole + tail;
    DigitsUpTo(whole, tail);
    assert t[|sign|] == whole[0];
    assert sign == [] ==> t[0] == whole[0];
  }

  lemma TailStart(fraction: Text, exponent: Text)
    requires IsFraction(fraction) && IsExponent(exponent)
    ensures fraction + exponent == [] || !IsDigit((fraction + exponent)[0])
  {
  }

  lemma NumberStops(sign: Text, whole: Text, fraction: Text, exponent: Text)
    requires IsNumberOf(sign, whole, fraction, exponent)
    ensures var x := sign + whole + (fraction + exponent); NumberLength(x) == |x|
  {
    var tail := fraction + exponent;
    var x := sign + whole + tail;
    TailStart(fraction, exponent);
    IntegerStops(sign, whole, tail);
    assert x[|sign| + |whole|..] == tail;
    FractionStops(fraction, exponent);
    ExponentStops(exponent);
    assert tail[|fraction|..] == exponent;
  }

  lemma NumberParts(x: Text)
    requires x != [] && NumberLength(x) == |x|
    ensures IntegerLength(x) > 0 && TailLength(x[IntegerLength(x)..]) == |x[IntegerLength(x)..]|
  {
  }

  lemma FourParts(x: Text, m: nat, i: nat, f: nat)
    requires m <= i <= f <= |x|
    ensures x == x[..m] + x[m..i] + (x[i..f] + x[f..])
  {
  }

  lemma SplitNumber(x: Text) returns (sign: Text, whole: Text, fraction: Text, exponent: Text)
    requires x != [] && NumberLength(x) == |x|
    ensures IsNumberOf(sign, whole, fraction, exponent) && x == sign + whole + (fraction + exponent)
  {
    NumberParts(x);
    IntegerParts(x);
    var i := IntegerLength(x);
    var f := i + FractionLength(x[i..]);
    var m := if x[0] == '-' as int then 1 else 0;
    TailParts(x[i..]);
    sign, whole, fraction, exponent := x[..m], x[m..i], x[i..f], x[f..];
    assert x[i..][..f - i] == fraction && x[i..][f - i..] == exponent;
    FourParts(x, m, i, f);
  }

  lemma IntegerParts(x: Text)
    requires x != [] && IntegerLength(x) > 0
    ensures var minus := if x[0] == '-' as int then 1 else 0;
            minus <= IntegerLength(x) <= |x| && IsSign(x[..minus]) && IsInt(x[minus..IntegerLength(x)])
  {
    var minus := if x[0] == '-' as int then 1 else 0;
    assert forall i :: 0 <= i < Digits(x[minus..]) ==> x[minus..][i] == x[minus + i];
  }

  lemma TailParts(t: Text)
    requires TailLength(t) == |t|
    ensures FractionLength(t) <= |t| && IsFraction(t[..FractionLength(t)]) && IsExponent(t[FractionLength(t)..])
  {
    var f := FractionLength(t);
    FractionIs(t);
    ExponentIs(t[f..]);
  }

  lemma FractionIs(t: Text)
    ensures IsFraction(t[..FractionLength(t)])
  {
    var f := FractionLength(t);
    if f > 0 {
      assert forall i :: 0 <= i < Digits(t[1..]) ==> IsDigit(t[1..][i]);
      assert t[..f][1..] == t[1..][..f - 1];
    }
  }

  lemma ExponentIs(t: Text)
    requires ExponentLength(t) == |t|
    ensures IsExponent(t)
  {
    if t != [] {
      var sign := if |t| > 1 && (t[1] == '+' as int || t[1] == '-' as int) then 1 else 0;
      assert Digits(t[1 + sign..]) == |t| - 1 - sign;
      assert AreDigits(t[1 + sign..]);
    }
  }

  /** A text is a number to the reader of JavaScript exactly when the grammar makes it one, and to the readers of Python
      also when it is one of the three constants. */
  lemma LexemeIff(d: Dialect, x: Text)
    ensures IsLexeme(d, x) <==>
            || (exists sign, whole, fraction, exponent ::
                  IsNumberOf(sign, whole, fraction, exponent) && x == sign + whole + (fraction + exponent))
            || (!d.JavaScript? && (x == Ascii("NaN") || x == Ascii("Infinity") || x == Ascii("-Infinity")))
  {
    NumberIff(x);
    ConstantIff(x);
    if ConstantLength(x) > 0 {
      ConstantIsNoNumber(x);
    }
  }

  lemma NumberIff(x: Text)
    ensures x != [] && NumberLength(x) == |x| <==>
            exists sign, whole, fraction, exponent ::
              IsNumberOf(sign, whole, fraction, exponent) && x == sign + whole + (fraction + exponent)
  {
    if x != [] && NumberLength(x) == |x| {
      var sign, whole, fraction, exponent := SplitNumber(x);
    }
    forall sign, whole, fraction, exponent |
      IsNumberOf(sign, whole, fraction, exponent) && x == sign + whole + (fraction + exponent)
      ensures x != [] && NumberLength(x) == |x|
    {
      NumberStops(sign, whole, fraction, exponent);
    }
  }

  lemma StartsExactly(x: Text, word: Text)
    requires |x| == |word|
    ensures StartsWith(x, word) <==> x == word
  {
    assert x[..|x|] == x;
  }

  lemma ConstantFound(x: Text)
    requires ConstantLength(x) > 0 && ConstantLength(x) == |x|
    ensures x == Ascii("NaN") || x == Ascii("Infinity") || x == Ascii("-Infinity")
  {
    if StartsWith(x, Ascii("NaN")) {
      StartsExactly(x, Ascii("NaN"));
    } else if StartsWith(x, Ascii("Infinity")) {
      StartsExactly(x, Ascii("Infinity"));
    } else {
      StartsExactly(x, Ascii("-Infinity"));
    }
  }

  lemma ConstantLengths()
    ensures ConstantLength(Ascii("NaN")) == 3 && ConstantLength(Ascii("Infinity")) == 8
    ensures ConstantLength(Ascii("-Infinity")) == 9
  {
    StartsExactly(Ascii("NaN"), Ascii("NaN"));
    StartsExactly(Ascii("Infinity"), Ascii("Infinity"));
    StartsExactly(Ascii("-Infinity"), Ascii("-Infinity"));
    NotStarting(Ascii("Infinity"), Ascii("NaN"));
    NotStarting(Ascii("-Infinity"), Ascii("NaN"));
    NotStarting(Ascii("-Infinity"), Ascii("Infinity"));
  }

  lemma NotStarting(x: Text, word: Text)
    requires x != [] && word != [] && x[0] != word[0]
    ensures !StartsWith(x, word)
  {
    assert |x| >= |word| ==> x[..|word|][0] == x[0];
  }

  lemma ConstantIff(x: Text)
    ensures ConstantLength(x) > 0 && ConstantLength(x) == |x| <==>
            x == Ascii("NaN") || x == Ascii("Infinity") || x == Ascii("-Infinity")
  {
    ConstantLengths();
    if ConstantLength(x) > 0 && ConstantLength(x) == |x| {
      ConstantFound(x);
    }
  }

  lemma ConstantIsNoNumber(x: Text)
    requires ConstantLength(x) > 0
    ensures NumberLength(x) == 0
  {
    ConstantStart(x);
  }
}
