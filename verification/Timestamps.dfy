/** The strict `YYYY-MM-DDTHH:MM:SSZ` timestamp: the byte-level parser and the formatter of the
    Rust port, and the calendar check of the TypeScript port. */
module Timestamps {
  import opened Common
  import opened Utf
  import opened JsonText
  import opened Civil

  // ---- what the text denotes ----

  /** 20 units, the fixed separators, digits everywhere else. */
  predicate HasTsShape(b: Text) {
    |b| == 20
    && b[4] == '-' as int && b[7] == '-' as int && b[10] == 'T' as int
    && b[13] == ':' as int && b[16] == ':' as int && b[19] == 'Z' as int
    && forall i :: 0 <= i < 20 && i != 4 && i != 7 && i != 10 && i != 13 && i != 16 && i != 19 ==> IsDigit(b[i])
  }

  function DigitOf(c: int): int {
    c - 0x30
  }

  function TwoDigits(b: Text, i: nat): int
    requires i + 1 < |b|
  {
    10 * DigitOf(b[i]) + DigitOf(b[i + 1])
  }

  function FieldsOf(b: Text): Fields
    requires |b| == 20
  {
    Fields(100 * TwoDigits(b, 0) + TwoDigits(b, 2), TwoDigits(b, 5), TwoDigits(b, 8),
           TwoDigits(b, 11), TwoDigits(b, 14), TwoDigits(b, 17))
  }

  /** Accepted timestamps and their fields: the exact shape and a real calendar instant. */
  function ParseTsOf(b: Text): (r: Option<Fields>)
    ensures r.Some? ==> IsCivil(r.value) && 0 <= r.value.year <= 9999
  {
    if HasTsShape(b) && IsCivil(FieldsOf(b)) then
      assert IsDigit(b[0]) && IsDigit(b[1]) && IsDigit(b[2]) && IsDigit(b[3]);
      Some(FieldsOf(b))
    else None
  }

  // ---- the Rust parser ----

  /** Value of a digit string, `None` if a unit is not a digit. */
  function DigitsValue(s: Text): (r: Option<int>)
    ensures r.Some? <==> forall i :: 0 <= i < |s| ==> IsDigit(s[i])
    ensures r.Some? ==> r.value >= 0
  {
    if s == [] then Some(0)
    else
      var front := DigitsValue(s[..|s| - 1]);
      if front.None? then None
      else if IsDigit(s[|s| - 1]) then Some(10 * front.value + DigitOf(s[|s| - 1]))
      else None
  }

  lemma NextDigit(b: Text, from: nat, i: nat)
    requires from <= i < |b|
    ensures DigitsValue(b[from..i + 1])
         == if DigitsValue(b[from..i]).Some? && IsDigit(b[i]) then
              Some(10 * DigitsValue(b[from..i]).value + DigitOf(b[i]))
            else None
  {
    assert b[from..i + 1][..i - from] == b[from..i];
    assert b[from..i + 1][i - from] == b[i];
  }

  const U32_MAX: int := 0xFFFF_FFFF

  /** The `num` closure: `u32` accumulation with checked multiply and add. Fields have at most
      four digits, so neither check can fail. */
  method ParseNumber(b: Text, from: nat, to: nat) returns (r: Option<int>)
    requires from <= to <= |b| && to - from <= 4
    ensures r == DigitsValue(b[from..to])
  {
    var acc := 0;
    var i := from;
    while i < to
      invariant from <= i <= to
      invariant DigitsValue(b[from..i]) == Some(acc)
      invariant 0 <= acc && (i == from ==> acc < 1) && (i == from + 1 ==> acc < 10)
      invariant (i == from + 2 ==> acc < 100) && (i == from + 3 ==> acc < 1000)
    {
      var c := b[i];
      NextDigit(b, from, i);
      if !IsDigit(c) {
        assert b[from..to][i - from] == c;
        return None;
      }
      if acc * 10 > U32_MAX || acc * 10 + DigitOf(c) > U32_MAX {
        return None;
      }
      acc := acc * 10 + DigitOf(c);
      i := i + 1;
    }
    return Some(acc);
  }

  lemma OneDigitValue(c: CodePoint)
    ensures DigitsValue([c]) == if IsDigit(c) then Some(DigitOf(c)) else None
  {
    assert [c][..0] == [];
  }

  lemma TwoDigitsValue(b: Text, i: nat)
    requires i + 2 <= |b|
    ensures DigitsValue(b[i..i + 2])
      == if IsDigit(b[i]) && IsDigit(b[i + 1]) then Some(TwoDigits(b, i)) else None
  {
    var s := b[i..i + 2];
    OneDigitValue(b[i]);
    assert s[..1] == [b[i]];
  }

  lemma FourDigitsValue(b: Text)
    requires |b| >= 4
    ensures DigitsValue(b[0..4])
      == if IsDigit(b[0]) && IsDigit(b[1]) && IsDigit(b[2]) && IsDigit(b[3])
         then Some(100 * TwoDigits(b, 0) + TwoDigits(b, 2)) else None
  {
    var s := b[0..4];
    TwoDigitsValue(b, 0);
    assert s[..3][..2] == b[0..2];
    assert DigitsValue(s[..3]) == if IsDigit(b[0]) && IsDigit(b[1]) && IsDigit(b[2])
      then Some(10 * TwoDigits(b, 0) + DigitOf(b[2])) else None;
  }

  /** `parse_ts` of the Rust port: shape, six numbers, then the calendar checks. */
  method ParseTs(b: Text) returns (r: Option<Fields>)
    ensures r == ParseTsOf(b)
  {
    if |b| != 20 || b[4] != '-' as int || b[7] != '-' as int || b[10] != 'T' as int
      || b[13] != ':' as int || b[16] != ':' as int || b[19] != 'Z' as int {
      return None;
    }
    var numbers := ParseNumbers(b);
    if numbers.None? {
      return None;
    }
    var f := numbers.value;
    if !(1 <= f.month <= 12) || f.day == 0 || f.day > DaysInMonth(f.year, f.month) {
      return None;
    }
    if f.hour > 23 || f.minute > 59 || f.second > 59 {
      return None;
    }
    assert IsDigit(b[8]) && IsDigit(b[9]) && IsDigit(b[11]) && IsDigit(b[12]);
    assert IsDigit(b[14]) && IsDigit(b[15]) && IsDigit(b[17]) && IsDigit(b[18]);
    return Some(f);
  }

  predicate AllFieldsAreDigits(b: Text)
    requires |b| == 20
  {
    forall i :: 0 <= i < 20 && i != 4 && i != 7 && i != 10 && i != 13 && i != 16 && i != 19 ==> IsDigit(b[i])
  }

  method ParseNumbers(b: Text) returns (r: Option<Fields>)
    requires |b| == 20
    ensures r == if AllFieldsAreDigits(b) then Some(FieldsOf(b)) else None
  {
    FourDigitsValue(b);
    var year := ParseNumber(b, 0, 4);
    if year.None? { return None; }
    var month := ParseTwo(b, 5);
    if month.None? { return None; }
    var day := ParseTwo(b, 8);
    if day.None? { return None; }
    var hour := ParseTwo(b, 11);
    if hour.None? { return None; }
    var minute := ParseTwo(b, 14);
    if minute.None? { return None; }
    var second := ParseTwo(b, 17);
    if second.None? { return None; }
    return Some(Fields(year.value, month.value, day.value, hour.value, minute.value, second.value));
  }

  method ParseTwo(b: Text, from: nat) returns (r: Option<int>)
    requires from + 2 <= |b|
    ensures r == if IsDigit(b[from]) && IsDigit(b[from + 1]) then Some(TwoDigits(b, from)) else None
  {
    TwoDigitsValue(b, from);
    r := ParseNumber(b, from, from + 2);
  }

  /** `parse_v2_ts_unix`: seconds since the epoch of an accepted timestamp. */
  function ParseTsUnix(b: Text): Option<int>
  {
    match ParseTsOf(b)
    case None => None
    case Some(f) => CivilToUnix(f.year, f.month, f.day, f.hour, f.minute, f.second)
  }

  /** On parsed input no checked step fails and the result is the naive count of seconds. */
  lemma ParsedSecondsAreCounted(b: Text)
    ensures ParseTsUnix(b) == match ParseTsOf(b) case None => None case Some(f) => Some(CountSeconds(f))
  {
    if ParseTsOf(b).Some? {
      CivilIsCount(ParseTsOf(b).value);
    }
  }

  // ---- the TypeScript check ----

  /** `isValidCalendarTs`, over the code units of a JavaScript string. */
  function IsValidCalendarTs(u: Text): bool
  {
    if !HasTsShape(u) then false
    else
      var year := 100 * TwoDigits(u, 0) + TwoDigits(u, 2);
      var month := TwoDigits(u, 5);
      var day := TwoDigits(u, 8);
      if month < 1 || month > 12 || day < 1 then false
      else
        var leap := (year % 4 == 0 && year % 100 != 0) || year % 400 == 0;
        var table := [31, if leap then 29 else 28, 31, 30, 31, 30, 31, 31, 30, 31, 30, 31];
        day <= table[month - 1] && TwoDigits(u, 11) <= 23 && TwoDigits(u, 14) <= 59 && TwoDigits(u, 17) <= 59
  }

  predicate IsAscii(t: Text) {
    forall i :: 0 <= i < |t| ==> t[i] < 0x80
  }

  lemma {:induction false} AsciiText(t: Text)
    requires IsAscii(t)
    ensures Utf8Raw(t) == t && Utf16(t) == t
  {
    if t != [] {
      AsciiText(t[1..]);
      assert t == [t[0]] + t[1..];
    }
  }

  lemma {:induction false} AsciiEncodingOnly(t: Text)
    ensures IsAscii(Utf8Raw(t)) ==> IsAscii(t)
    ensures IsAscii(Utf16(t)) ==> IsAscii(t)
  {
    if t != [] {
      AsciiEncodingOnly(t[1..]);
      AsciiTail(Utf8Char(t[0]), Utf8Raw(t[1..]));
      AsciiTail(Utf16Char(t[0]), Utf16(t[1..]));
      assert t[0] >= 0x80 ==> Utf8Char(t[0])[0] >= 0x80 && Utf16Char(t[0])[0] >= 0x80;
      assert forall i :: 1 <= i < |t| ==> t[i] == t[1..][i - 1];
    }
  }

  lemma AsciiTail(a: Text, b: Text)
    ensures IsAscii(a + b) ==> IsAscii(a) && IsAscii(b)
  {
    assert forall i :: 0 <= i < |a| ==> a[i] == (a + b)[i];
    assert forall i :: 0 <= i < |b| ==> b[i] == (a + b)[|a| + i];
  }

  lemma ShapeIsAscii(b: Text)
    requires HasTsShape(b)
    ensures IsAscii(b)
  {
  }

  lemma TsCheckIsCivil(u: Text)
    ensures IsValidCalendarTs(u) <==> ParseTsOf(u).Some?
  {
    if HasTsShape(u) {
      assert forall i :: i in {0, 1, 2, 3, 5, 6, 8, 9, 11, 12, 14, 15, 17, 18} ==> IsDigit(u[i]);
      assert IsDigit(u[11]) && IsDigit(u[12]) && IsDigit(u[14]) && IsDigit(u[15]) && IsDigit(u[17]) && IsDigit(u[18]);
    }
  }

  /** The Rust parser over UTF-8 bytes and the TypeScript check over code units accept the same
      texts. */
  lemma PortsAcceptTheSameTimestamps(t: Text)
    ensures ParseTsOf(Utf8Raw(t)).Some? <==> IsValidCalendarTs(Utf16(t))
  {
    TsCheckIsCivil(Utf16(t));
    AsciiEncodingOnly(t);
    if HasTsShape(Utf8Raw(t)) {
      ShapeIsAscii(Utf8Raw(t));
      AsciiText(t);
    }
    if HasTsShape(Utf16(t)) {
      ShapeIsAscii(Utf16(t));
      AsciiText(t);
    }
  }

  // ---- order of strings is order of instants ----

  /** Of two accepted timestamps, the smaller in byte order denotes the earlier fields. */
  lemma SmallerTextIsEarlier(a: Text, b: Text)
    requires ParseTsOf(a).Some? && ParseTsOf(b).Some? && LexLess(a, b)
    ensures Earlier(FieldsOf(a), FieldsOf(b))
  {
    var k := UnitFirstDiffers(a, b);
    var i := FieldOfUnit(k);
    FieldsFirstDiffer(a, b, k, i);
    FieldDecides(FieldsOf(a), FieldsOf(b), i);
  }

  /** The field, from 0 for the year, that the unit at `k` belongs to. */
  function FieldOfUnit(k: nat): nat {
    if k < 4 then 0 else if k < 7 then 1 else if k < 10 then 2 else if k < 13 then 3 else if k < 16 then 4 else 5
  }

  lemma UnitFirstDiffers(a: Text, b: Text) returns (k: nat)
    requires |a| == |b| && LexLess(a, b)
    ensures k < |a| && a[k] < b[k] && forall j :: 0 <= j < k ==> a[j] == b[j]
  {
    k := LexWitness(a, b);
    forall j | 0 <= j < k
      ensures a[j] == b[j]
    {
      assert a[j] == a[..k][j] && b[j] == b[..k][j];
    }
  }

  /** Fields that agree before `i` and grow at `i` are in order. */
  lemma FieldDecides(x: Fields, y: Fields, i: nat)
    requires i < 6 && AgreeBefore(x, y, i) && GrowsAt(x, y, i)
    ensures Earlier(x, y)
  {
    var xs := [x.year, x.month, x.day, x.hour, x.minute, x.second];
    var ys := [y.year, y.month, y.day, y.hour, y.minute, y.second];
    assert xs[..i] == ys[..i];
    LexFirstDifference(xs, ys, i);
  }

  predicate AgreeBefore(x: Fields, y: Fields, i: nat) {
    (i > 0 ==> x.year == y.year) && (i > 1 ==> x.month == y.month) && (i > 2 ==> x.day == y.day)
    && (i > 3 ==> x.hour == y.hour) && (i > 4 ==> x.minute == y.minute)
  }

  predicate GrowsAt(x: Fields, y: Fields, i: nat) {
    match i
    case 0 => x.year < y.year
    case 1 => x.month < y.month
    case 2 => x.day < y.day
    case 3 => x.hour < y.hour
    case 4 => x.minute < y.minute
    case _ => x.second < y.second
  }

  lemma DigitsInRange(a: Text)
    requires HasTsShape(a)
    ensures forall i :: 0 <= i < 19 ==> i == 4 || i == 7 || i == 10 || i == 13 || i == 16 || 0x30 <= a[i] <= 0x39
  {
  }

  lemma FieldsFirstDiffer(a: Text, b: Text, k: nat, i: nat)
    requires HasTsShape(a) && HasTsShape(b) && k < 20 && a[k] < b[k]
    requires forall j :: 0 <= j < k ==> a[j] == b[j]
    requires i == FieldOfUnit(k)
    ensures AgreeBefore(FieldsOf(a), FieldsOf(b), i) && GrowsAt(FieldsOf(a), FieldsOf(b), i)
  {
    DigitsInRange(a);
    DigitsInRange(b);
    assert k != 4 && k != 7 && k != 10 && k != 13 && k != 16 && k != 19;
  }

  /** Main result: byte order of accepted `ts` strings is exactly order of instants. */
  lemma TextOrderIsTimeOrder(a: Text, b: Text)
    requires ParseTsOf(a).Some? && ParseTsOf(b).Some?
    ensures ParseTsUnix(a).Some? && ParseTsUnix(b).Some?
    ensures LexLess(a, b) <==> ParseTsUnix(a).value < ParseTsUnix(b).value
  {
    ParsedSecondsAreCounted(a);
    ParsedSecondsAreCounted(b);
    LexTotal(a, b);
    LexIrreflexive(a);
    if LexLess(a, b) {
      SmallerTextIsEarlier(a, b);
      SecondsAdvance(FieldsOf(a), FieldsOf(b));
    } else if LexLess(b, a) {
      SmallerTextIsEarlier(b, a);
      SecondsAdvance(FieldsOf(b), FieldsOf(a));
    }
  }

  // ---- the formatter ----

  /** `{n:0w}`: decimal, padded on the left with zeros to width `w`. */
  function ZeroPad(n: nat, w: nat): (t: Text)
  {
    var d := Decimal(n);
    if |d| >= w then d else seq<CodePoint>(w - |d|, _ => 0x30) + d
  }

  /** The `{y}-{mo}-{d}T{h}:{mi}:{se}Z` template. */
  function TsTemplate(y: Text, m: Text, d: Text, h: Text, mi: Text, s: Text): Text {
    y + [0x2D] + m + [0x2D] + d + ['T' as int] + h + [0x3A] + mi + [0x3A] + s + ['Z' as int]
  }

  /** The text `now_utc_iso8601` builds from the clock's fields. */
  function FormatTs(f: Fields): Text
    requires f.year >= 0 && IsCivil(f)
  {
    TsTemplate(ZeroPad(f.year, 4), ZeroPad(f.month, 2), ZeroPad(f.day, 2),
               ZeroPad(f.hour, 2), ZeroPad(f.minute, 2), ZeroPad(f.second, 2))
  }

  lemma ZeroPadTwo(n: nat)
    requires n < 100
    ensures ZeroPad(n, 2) == [0x30 + n / 10, 0x30 + n % 10]
  {
    if n >= 10 {
      assert Decimal(n) == Decimal(n / 10) + [0x30 + n % 10];
      assert Decimal(n / 10) == [0x30 + n / 10];
    }
  }

  lemma ZeroPadFour(n: nat)
    requires n < 10000
    ensures ZeroPad(n, 4) == [0x30 + n / 100 / 10, 0x30 + n / 100 % 10, 0x30 + n % 100 / 10, 0x30 + n % 100 % 10]
  {
    FourDigits(n);
    if n < 10 {
      DecimalOne(n);
    } else if n < 100 {
      DecimalTwo(n);
    } else if n < 1000 {
      DecimalThree(n);
    } else {
      DecimalFour(n);
    }
  }

  lemma FourDigits(n: nat)
    requires n < 10000
    ensures n / 100 == n / 10 / 10 && n / 100 / 10 == n / 10 / 10 / 10
    ensures n % 100 / 10 == n / 10 % 10 && n % 100 % 10 == n % 10
  {
    var a, b, c := n / 10, n / 10 / 10, n / 10 / 10 / 10;
    DivUnique(n, 100, b, 10 * (a % 10) + n % 10);
    DivUnique(n % 100, 10, a % 10, n % 10);
  }

  lemma DecimalOne(n: nat)
    requires n < 10
    ensures Decimal(n) == [0x30 + n]
  {
  }

  lemma DecimalTwo(n: nat)
    requires 10 <= n < 100
    ensures Decimal(n) == [0x30 + n / 10, 0x30 + n % 10]
  {
    DecimalOne(n / 10);
  }

  lemma DecimalThree(n: nat)
    requires 100 <= n < 1000
    ensures Decimal(n) == [0x30 + n / 10 / 10, 0x30 + n / 10 % 10, 0x30 + n % 10]
  {
    DecimalTwo(n / 10);
  }

  lemma DecimalFour(n: nat)
    requires 1000 <= n < 10000
    ensures Decimal(n) == [0x30 + n / 10 / 10 / 10, 0x30 + n / 10 / 10 % 10, 0x30 + n / 10 % 10, 0x30 + n % 10]
  {
    DecimalThree(n / 10);
  }

  lemma TemplateUnits(y: Text, m: Text, d: Text, h: Text, mi: Text, s: Text)
    requires |y| == 4 && |m| == |d| == |h| == |mi| == |s| == 2
    ensures var t := TsTemplate(y, m, d, h, mi, s);
            |t| == 20 && t[4] == 0x2D && t[7] == 0x2D && t[10] == 'T' as int && t[13] == 0x3A && t[16] == 0x3A
            && t[19] == 'Z' as int && t[0] == y[0] && t[1] == y[1] && t[2] == y[2] && t[3] == y[3]
            && t[5] == m[0] && t[6] == m[1] && t[8] == d[0] && t[9] == d[1] && t[11] == h[0] && t[12] == h[1]
            && t[14] == mi[0] && t[15] == mi[1] && t[17] == s[0] && t[18] == s[1]
  {
  }

  lemma PadTwo(n: nat) returns (t: Text)
    requires n < 100
    ensures t == ZeroPad(n, 2) && |t| == 2 && IsDigit(t[0]) && IsDigit(t[1]) && TwoDigits(t, 0) == n
  {
    ZeroPadTwo(n);
    t := ZeroPad(n, 2);
  }

  lemma PadFour(n: nat) returns (t: Text)
    requires n < 10000
    ensures t == ZeroPad(n, 4) && |t| == 4 && IsDigit(t[0]) && IsDigit(t[1]) && IsDigit(t[2]) && IsDigit(t[3])
    ensures 100 * TwoDigits(t, 0) + TwoDigits(t, 2) == n
  {
    ZeroPadFour(n);
    t := ZeroPad(n, 4);
  }

  /** A formatted civil instant of year 0 to 9999 parses back to its fields. */
  lemma FormatThenParse(f: Fields)
    requires IsCivil(f) && 0 <= f.year <= 9999
    ensures ParseTsOf(FormatTs(f)) == Some(f)
  {
    var y := PadFour(f.year);
    var m := PadTwo(f.month);
    var d := PadTwo(f.day);
    var h := PadTwo(f.hour);
    var mi := PadTwo(f.minute);
    var s := PadTwo(f.second);
    TemplateUnits(y, m, d, h, mi, s);
    TemplateParses(FormatTs(f), f, y, m, d, h, mi, s);
  }

  lemma TemplateParses(t: Text, f: Fields, y: Text, m: Text, d: Text, h: Text, mi: Text, s: Text)
    requires |y| == 4 && |m| == |d| == |h| == |mi| == |s| == 2 && |t| == 20
    requires t[4] == 0x2D && t[7] == 0x2D && t[10] == 'T' as int
    requires t[13] == 0x3A && t[16] == 0x3A && t[19] == 'Z' as int
    requires t[0] == y[0] && t[1] == y[1] && t[2] == y[2] && t[3] == y[3] && t[5] == m[0] && t[6] == m[1]
    requires t[8] == d[0] && t[9] == d[1] && t[11] == h[0] && t[12] == h[1]
    requires t[14] == mi[0] && t[15] == mi[1] && t[17] == s[0] && t[18] == s[1]
    requires IsDigit(y[0]) && IsDigit(y[1]) && IsDigit(y[2]) && IsDigit(y[3]) && IsDigit(m[0]) && IsDigit(m[1])
    requires IsDigit(d[0]) && IsDigit(d[1]) && IsDigit(h[0]) && IsDigit(h[1])
    requires IsDigit(mi[0]) && IsDigit(mi[1]) && IsDigit(s[0]) && IsDigit(s[1])
    requires 100 * TwoDigits(y, 0) + TwoDigits(y, 2) == f.year && TwoDigits(m, 0) == f.month
    requires TwoDigits(d, 0) == f.day && TwoDigits(h, 0) == f.hour
    requires TwoDigits(mi, 0) == f.minute && TwoDigits(s, 0) == f.second && IsCivil(f)
    ensures ParseTsOf(t) == Some(f)
  {
  }

  /** Last second of year 9999. */
  const LAST_SECOND: int := 253402300799

  /** Clock to string to clock: for every second from the epoch to the end of year 9999, what the
      signer formats the verifier reads back, with no overflow on the way. */
  lemma ClockRoundTrip(t: int)
    requires 0 <= t <= LAST_SECOND
    ensures UnixToYmdhms(t).Some?
    ensures var f := UnixToYmdhms(t).value;
            IsCivil(f) && 0 <= f.year <= 9999 && ParseTsUnix(FormatTs(f)) == Some(t)
  {
    RoundTripFromSeconds(t);
    var f := UnixToYmdhms(t).value;
    YearFits(f, t);
    FormatThenParse(f);
  }

  lemma YearFits(f: Fields, t: int)
    requires IsCivil(f) && f.year >= 0 && CountSeconds(f) == t <= LAST_SECOND
    ensures f.year <= 9999
  {
    if f.year > 9999 {
      YearsUpTo(f.year);
      DayWithinYear(f.year, f.month, f.day);
    }
  }

  lemma YearsUpTo(y: int)
    requires y >= 10000
    ensures DaysBeforeYear(y) >= DaysBeforeYear(10000) == 3652425
  {
    YearClosedForm(10000);
    if y > 10000 {
      YearsAdvance(10000, y);
    }
  }
}
