/** What the raw-text check of the TypeScript parser sees: exactly the number literals, not written as integers,
    of members whose key is spelled as one of the two watched names. */
module TsLiterals {
  import opened Common
  import opened Utf
  import opened JsonText
  import opened Attestation
  import opened RawText
  import opened TsPins

  // ---- what the pattern looks for ----

  predicate EndsWith(t: Text, word: Text) {
    |t| >= |word| && t[|t| - |word|..] == word
  }

  /** The spelled key, with its opening quote, ends like the quoted name: it is the name, or ends with an escaped
      quote and the name. */
  predicate LooksLike(spelled: Text, name: Text) {
    EndsWith([0x22] + spelled, [0x22] + name)
  }

  predicate IsWatched(spelled: Text) {
    LooksLike(spelled, Name(Version)) || LooksLike(spelled, Name(VecDim))
  }

  /** A number that is not written as an integer. */
  predicate IsNonIntegerLiteral(r: Raw) {
    r.Leaf? && r.value.Num? && IntOf(r.value.lexeme).None?
  }

  predicate HasWatchedLiteral(m: Member) {
    IsWatched(m.spelled) && IsNonIntegerLiteral(m.value)
  }

  /** Somewhere in the value a watched key has a number that is not written as an integer. */
  ghost predicate Sees(r: Raw) {
    match r
    case Leaf(_) => false
    case RawArr(es) => exists i :: 0 <= i < |es| && Sees(es[i])
    case RawObj(ms) => exists i :: 0 <= i < |ms| && (HasWatchedLiteral(ms[i]) || Sees(ms[i].value))
  }

  ghost predicate SeesMember(m: Member) {
    HasWatchedLiteral(m) || Sees(m.value)
  }

  ghost predicate SeesInElements(es: seq<Raw>) {
    exists i :: 0 <= i < |es| && Sees(es[i])
  }

  ghost predicate SeesInMembers(ms: seq<Member>) {
    exists i :: 0 <= i < |ms| && SeesMember(ms[i])
  }

  // ---- cutting a text into what was read and the rest ----

  predicate NoQuotes(t: Text) {
    forall i :: 0 <= i < |t| ==> t[i] != 0x22
  }

  lemma QuietSplit(a: Text, b: Text, rest: Text)
    ensures Quiet(a + b, rest) <==> Quiet(a, b + rest) && Quiet(b, rest)
  {
    if Quiet(a + b, rest) {
      forall i | 0 <= i < |a|
        ensures !MatchesAt((a + (b + rest))[i..])
      {
        Assoc(a, b, rest);
        assert !MatchesAt((a + b + rest)[i..]);
      }
      forall i | 0 <= i < |b|
        ensures !MatchesAt((b + rest)[i..])
      {
        assert (a + b + rest)[|a| + i..] == (b + rest)[i..];
      }
    }
    if Quiet(a, b + rest) && Quiet(b, rest) {
      QuietConcat(a, b, rest);
    }
  }

  /** Text without quotes adds nothing. */
  lemma QuietAround(a: Text, mid: Text, b: Text, rest: Text)
    requires NoQuotes(mid)
    ensures Quiet(a + (mid + b), rest) <==> Quiet(a, mid + b + rest) && Quiet(b, rest)
  {
    QuietSplit(a, mid + b, rest);
    QuietSplit(mid, b, rest);
    QuietWithoutQuotes(mid, b + rest);
  }

  lemma QuietBefore(mid: Text, b: Text, rest: Text)
    requires NoQuotes(mid)
    ensures Quiet(mid + b, rest) <==> Quiet(b, rest)
  {
    QuietSplit(mid, b, rest);
    QuietWithoutQuotes(mid, b + rest);
  }

  lemma {:induction false} SpaceCut(t: Text) returns (c: Text)
    ensures t == c + SkipSpace(t) && NoQuotes(c)
  {
    if t != [] && IsSpace(t[0]) {
      var d := SpaceCut(t[1..]);
      c := [t[0]] + d;
      Assoc([t[0]], d, SkipSpace(t));
    } else {
      c := [];
    }
  }

  /** What may come after a value inside a document. */
  predicate Follows(rest: Text) {
    var u := SkipSpace(rest);
    u == [] || u[0] == ',' as int || u[0] == '}' as int || u[0] == ']' as int
  }

  lemma {:induction false} JsSkips(t: Text)
    requires SkipSpace(t) == [] || !IsJsSpace(SkipSpace(t)[0])
    ensures SkipJsSpace(t) == SkipSpace(t)
  {
    if t != [] && IsSpace(t[0]) {
      JsSkips(t[1..]);
    }
  }

  lemma AfterValue(rest: Text)
    requires Follows(rest)
    ensures !MatchesAfterKey(rest)
    ensures rest != [] ==> rest[0] != 'v' as int && rest[0] != '.' as int && rest[0] != 'e' as int
                           && rest[0] != 'E' as int && !IsDigit(rest[0])
  {
    JsSkips(rest);
  }

  // ---- strings ----

  /** Every quote of a string's body is preceded by a backslash. */
  predicate InnerQuotes(body: Text) {
    forall p :: 0 <= p < |body| && body[p] == 0x22 ==> p > 0 && body[p - 1] == 0x5C
  }

  lemma InnerConcat(a: Text, b: Text)
    requires InnerQuotes(a) && InnerQuotes(b)
    ensures InnerQuotes(a + b)
  {
    forall p | 0 <= p < |a + b| && (a + b)[p] == 0x22
      ensures p > 0 && (a + b)[p - 1] == 0x5C
    {
      if p >= |a| {
        assert b[p - |a|] == 0x22;
      }
    }
  }

  lemma CharCut(t: Text)
    requires t != [] && t[0] != 0x22 && ReadChar(t).Some?
    ensures InnerQuotes(t[..ReadChar(t).value.1])
  {
  }

  lemma {:induction false} StringCut(t: Text)
    requires ReadString(JavaScript, t).Some?
    ensures var (s, rest) := ReadString(JavaScript, t).value;
            t == BodyOf(t, rest) + [0x22] + rest && InnerQuotes(BodyOf(t, rest))
    decreases |t|
  {
    if t[0] == 0x22 {
      assert BodyOf(t, t[1..]) == [];
    } else {
      var n := ReadChar(t).value.1;
      StringCut(t[n..]);
      CharCut(t);
      BodyStep(t, n, ReadString(JavaScript, t[n..]).value.1);
    }
  }

  lemma BodyStep(t: Text, n: nat, rest: Text)
    requires n <= |t| && |rest| < |t[n..]| && t[n..] == BodyOf(t[n..], rest) + [0x22] + rest
    requires InnerQuotes(t[..n]) && InnerQuotes(BodyOf(t[n..], rest))
    ensures t == BodyOf(t, rest) + [0x22] + rest && InnerQuotes(BodyOf(t, rest))
  {
    assert BodyOf(t, rest) == t[..n] + BodyOf(t[n..], rest);
    InnerConcat(t[..n], BodyOf(t[n..], rest));
    assert t == t[..n] + t[n..];
  }

  function Quoted(body: Text): Text { [0x22] + body + [0x22] }

  /** A match of a quoted name inside a written string ends with that string. */
  lemma MatchEndsString(body: Text, rest: Text, name: Text, i: nat)
    requires InnerQuotes(body) && IsPlainName(name) && (rest != [] ==> rest[0] != name[0]) && i < |Quoted(body)|
    requires StartsWith((Quoted(body) + rest)[i..], [0x22] + name + [0x22])
    ensures i + |name| == |body|
  {
    var q, p := Quoted(body) + rest, i + |name| + 1;
    QuotedNameAt(q, i, name);
    InnerQuotesOf(body, rest);
    assert q[|body| + 1] == 0x22 && (rest != [] ==> q[|body| + 2] == rest[0]);
    assert q[i + 1] == name[0] && q[p - 1] == name[|name| - 1];
    assert i != |body| + 1;
    assert p <= |body| + 1;
  }

  lemma InnerQuotesOf(body: Text, rest: Text)
    requires InnerQuotes(body)
    ensures var q := Quoted(body) + rest;
            forall p :: 0 < p < |body| + 1 && q[p] == 0x22 ==> q[p - 1] == 0x5C
  {
    var q := Quoted(body) + rest;
    forall p | 0 < p < |body| + 1 && q[p] == 0x22
      ensures q[p - 1] == 0x5C
    {
      assert q[p] == body[p - 1];
      assert q[p - 1] == body[p - 2];
    }
  }

  lemma NameMatchMeans(body: Text, rest: Text, name: Text, i: nat)
    requires InnerQuotes(body) && IsPlainName(name) && (rest != [] ==> rest[0] != name[0]) && i < |Quoted(body)|
    requires MatchesKey((Quoted(body) + rest)[i..], name)
    ensures LooksLike(body, name) && MatchesAfterKey(rest)
  {
    var q := Quoted(body) + rest;
    MatchEndsString(body, rest, name, i);
    assert q[i..][|name| + 2..] == rest;
    QuotedNameAt(q, i, name);
    NameAtEnd(body, rest, name, i);
  }

  lemma NameAtEnd(body: Text, rest: Text, name: Text, i: nat)
    requires i + |name| == |body| && (Quoted(body) + rest)[i] == 0x22
    requires forall k :: i < k < i + |name| + 1 ==> (Quoted(body) + rest)[k] == name[k - i - 1]
    ensures LooksLike(body, name)
  {
    var w := [0x22] + body;
    assert forall k :: 0 <= k < |w| ==> (Quoted(body) + rest)[k] == w[k];
    assert w[i..] == [0x22] + name;
  }

  lemma NameMatches(body: Text, rest: Text, name: Text)
    requires LooksLike(body, name) && MatchesAfterKey(rest)
    ensures var i := |body| - |name|; i >= 0 && MatchesKey((Quoted(body) + rest)[i..], name)
  {
    var i, w := |body| - |name|, [0x22] + body;
    var t := (Quoted(body) + rest)[i..];
    assert Quoted(body) + rest == w + ([0x22] + rest);
    assert t == w[i..] + ([0x22] + rest);
    assert w[i..] == [0x22] + name;
    assert t[..|name| + 2] == [0x22] + name + [0x22] && t[|name| + 2..] == rest;
  }

  /** A written string is quiet unless it looks like a watched name and what follows is a colon and a number that
      is not written as an integer. */
  lemma QuotedQuietIff(body: Text, rest: Text)
    requires InnerQuotes(body) && (rest != [] ==> rest[0] != 'v' as int)
    ensures Quiet(Quoted(body), rest) <==> !(IsWatched(body) && MatchesAfterKey(rest))
  {
    KeyNames();
    if IsWatched(body) && MatchesAfterKey(rest) {
      var name := if LooksLike(body, Name(Version)) then Name(Version) else Name(VecDim);
      NameMatches(body, rest, name);
      assert MatchesAt((Quoted(body) + rest)[|body| - |name|..]);
    } else {
      forall i | 0 <= i < |Quoted(body)|
        ensures !MatchesAt((Quoted(body) + rest)[i..])
      {
        NoMatchAt(body, rest, i);
      }
    }
  }

  lemma NoMatchAt(body: Text, rest: Text, i: nat)
    requires InnerQuotes(body) && (rest != [] ==> rest[0] != 'v' as int) && i < |Quoted(body)|
    requires !(IsWatched(body) && MatchesAfterKey(rest))
    ensures !MatchesAt((Quoted(body) + rest)[i..])
  {
    KeyNames();
    var t := (Quoted(body) + rest)[i..];
    if MatchesKey(t, Name(Version)) {
      NameMatchMeans(body, rest, Name(Version), i);
    }
    if MatchesKey(t, Name(VecDim)) {
      NameMatchMeans(body, rest, Name(VecDim), i);
    }
  }

  // ---- numbers ----

  /** The sign and the integer digits of a number. */
  lemma IntegerPart(t: Text) returns (minus: nat, d: nat)
    requires IntegerLength(t) > 0
    ensures minus == (if t[0] == '-' as int then 1 else 0) && d == Digits(t[minus..]) > 0 && minus < |t|
    ensures IntegerLength(t) == minus + (if t[minus] == '0' as int then 1 else d)
  {
    minus := if t[0] == '-' as int then 1 else 0;
    d := Digits(t[minus..]);
  }

  /** What can follow a number. */
  predicate NotNumberish(rest: Text) {
    rest == [] || (rest[0] != '.' as int && rest[0] != 'e' as int && rest[0] != 'E' as int && !IsDigit(rest[0]))
  }

  lemma WholeDigits(t: Text)
    requires NumberLength(t) > 0 && NotNumberish(t[NumberLength(t)..])
    ensures var minus := if t[0] == '-' as int then 1 else 0;
            IntegerLength(t) == minus + Digits(t[minus..])
  {
    var minus, d := IntegerPart(t);
    var i := IntegerLength(t);
    assert d > 1 ==> IsDigit(t[minus..][1]) && t[minus..][1] == t[minus + 1];
    NoTail(t[i..]);
    RestIsTail(t);
    assert i < |t| ==> t[i..][0] == t[i];
  }

  lemma RestIsTail(t: Text)
    requires NumberLength(t) > 0
    ensures TailLength(t[IntegerLength(t)..]) == 0 ==> t[NumberLength(t)..] == t[IntegerLength(t)..]
  {
  }

  lemma NoTail(u: Text)
    ensures u == [] || (u[0] != '.' as int && u[0] != 'e' as int && u[0] != 'E' as int) ==> TailLength(u) == 0
  {
    assert u[0..] == u;
  }

  /** A number is followed by a fraction or an exponent exactly when it is not written as an integer. */
  lemma TailIff(t: Text)
    requires NumberLength(t) > 0 && NotNumberish(t[NumberLength(t)..])
    ensures StartsNonInteger(t) <==> TailLength(t[IntegerLength(t)..]) > 0
  {
    var minus, d := IntegerPart(t);
    var i, n := IntegerLength(t), NumberLength(t);
    WholeDigits(t);
    var y, u := if t[0] == '-' as int then t[1..] else t, t[i..];
    assert y == t[minus..] && Digits(y) == d;
    assert u == y[d..];
    assert u != [] ==> y[d] == u[0];
    NoTail(u);
    RestIsTail(t);
  }

  lemma IntegerIff(t: Text)
    requires NumberLength(t) > 0 && NotNumberish(t[NumberLength(t)..])
    ensures IntOf(t[..NumberLength(t)]).None? <==> TailLength(t[IntegerLength(t)..]) > 0
  {
    var minus, d := IntegerPart(t);
    var i, n := IntegerLength(t), NumberLength(t);
    WholeDigits(t);
    var x, u := t[..n], t[i..];
    NoTail(u);
    if TailLength(u) == 0 {
      IntegerLexeme(t, minus, d);
    } else {
      assert x[i] == u[0];
      NotIntegerLexeme(x, i);
    }
  }

  lemma IntegerLexeme(t: Text, minus: nat, d: nat)
    requires minus + d <= |t| && d > 0 && minus == (if t[0] == '-' as int then 1 else 0) && Digits(t[minus..]) == d
    ensures IntOf(t[..minus + d]).Some?
  {
    var x := t[..minus + d];
    assert forall k :: 0 <= k < d ==> x[minus + k] == t[minus..][k];
    if minus == 1 {
      assert x[1..] == t[1..][..d];
    }
  }

  lemma NotIntegerLexeme(x: Text, i: nat)
    requires 0 < i < |x| && !IsDigit(x[i])
    ensures IntOf(x).None?
  {
    assert x[1..][i - 1] == x[i];
  }

  lemma NumberIff(t: Text)
    requires NumberLength(t) > 0 && NotNumberish(t[NumberLength(t)..])
    ensures StartsNonInteger(t) <==> IntOf(t[..NumberLength(t)]).None?
  {
    TailIff(t);
    IntegerIff(t);
  }

  lemma NumberParts(t: Text) returns (i: nat, n: nat)
    requires NumberLength(t) > 0
    ensures i == IntegerLength(t) > 0 && n == TailLength(t[i..]) && NumberLength(t) == i + n
  {
    i, n := IntegerLength(t), TailLength(t[IntegerLength(t)..]);
  }

  lemma NumberHasNoQuotes(t: Text)
    requires NumberLength(t) > 0
    ensures NoQuotes(t[..NumberLength(t)])
  {
    var i, n := NumberParts(t);
    IntegerHasNoQuotes(t);
    TailHasNoQuotes(t[i..]);
    JoinedHasNoQuotes(t, i, n);
  }

  lemma JoinedHasNoQuotes(t: Text, i: nat, n: nat)
    requires i + n <= |t| && NoQuotes(t[..i]) && NoQuotes(t[i..][..n])
    ensures NoQuotes(t[..i + n])
  {
    SplitTake(t, i, n);
    NoQuotesConcat(t[..i], t[i..][..n]);
  }

  lemma SplitTake(t: Text, i: nat, n: nat)
    requires i + n <= |t|
    ensures t[..i + n] == t[..i] + t[i..][..n]
  {
  }

  lemma NoQuotesConcat(a: Text, b: Text)
    requires NoQuotes(a) && NoQuotes(b)
    ensures NoQuotes(a + b)
  {
  }

  lemma IntegerHasNoQuotes(t: Text)
    requires IntegerLength(t) > 0
    ensures NoQuotes(t[..IntegerLength(t)])
  {
    var minus, d := IntegerPart(t);
    forall k | 0 <= k < IntegerLength(t)
      ensures t[k] != 0x22
    {
      if k >= minus {
        assert t[k] == t[minus..][k - minus];
      }
    }
  }

  lemma TailHasNoQuotes(u: Text)
    ensures NoQuotes(u[..TailLength(u)])
  {
    var f := FractionLength(u);
    FractionHasNoQuotes(u);
    ExponentHasNoQuotes(u[f..]);
    JoinedHasNoQuotes(u, f, ExponentLength(u[f..]));
  }

  lemma FractionHasNoQuotes(u: Text)
    ensures NoQuotes(u[..FractionLength(u)])
  {
    forall k | 0 <= k < FractionLength(u)
      ensures u[k] != 0x22
    {
      if k > 0 {
        assert u[k] == u[1..][k - 1];
      }
    }
  }

  lemma ExponentHasNoQuotes(u: Text)
    ensures NoQuotes(u[..ExponentLength(u)])
  {
    forall k | 0 <= k < ExponentLength(u)
      ensures u[k] != 0x22
    {
      var sign := if |u| > 1 && (u[1] == '+' as int || u[1] == '-' as int) then 1 else 0;
      if k > sign {
        assert u[k] == u[1 + sign..][k - 1 - sign];
      }
    }
  }

  // ---- leaves ----

  lemma TakeCut(t: Text, n: nat) returns (c: Text)
    requires n <= |t| && NoQuotes(t[..n])
    ensures t == c + t[n..] && NoQuotes(c)
  {
    c := t[..n];
  }

  lemma WordCut(t: Text, word: Text) returns (c: Text)
    requires StartsWith(t, word) && NoQuotes(word)
    ensures t == c + t[|word|..] && NoQuotes(c)
  {
    c := TakeCut(t, |word|);
  }

  lemma WordsHaveNoQuotes()
    ensures NoQuotes(Ascii("null")) && NoQuotes(Ascii("true")) && NoQuotes(Ascii("false"))
  {
  }

  /** A word, a number or a string, read at its first character. */
  lemma LeafCut(t: Text, j: Json, rest: Text) returns (c: Text)
    requires t != [] && SkipSpace(t) == t && t[0] != '{' as int && t[0] != '[' as int
    requires ReadValue(JavaScript, t) == Some((j, rest)) && Follows(rest)
    ensures t == c + rest && Quiet(c, rest)
  {
    AfterValue(rest);
    if t[0] == 0x22 {
      c := StringLeafCut(t, rest);
    } else {
      c := PlainLeafCut(t, j, rest);
      QuietWithoutQuotes(c, rest);
    }
  }

  lemma StringLeafCut(t: Text, rest: Text) returns (c: Text)
    requires t != [] && t[0] == 0x22 && ReadString(JavaScript, t[1..]).Some?
    requires ReadString(JavaScript, t[1..]).value.1 == rest && Follows(rest)
    ensures t == c + rest && Quiet(c, rest)
  {
    AfterValue(rest);
    StringCut(t[1..]);
    c := Quoted(BodyOf(t[1..], rest));
    QuotedQuietIff(BodyOf(t[1..], rest), rest);
    assert t == [0x22] + t[1..];
    QuotedAssoc(BodyOf(t[1..], rest), rest);
  }

  lemma PlainLeafCut(t: Text, j: Json, rest: Text) returns (c: Text)
    requires t != [] && SkipSpace(t) == t && t[0] != 0x22 && t[0] != '{' as int && t[0] != '[' as int
    requires ReadValue(JavaScript, t) == Some((j, rest))
    ensures t == c + rest && NoQuotes(c)
  {
    if NumberLength(t) > 0 {
      c := NumberCut(t, j, rest);
    } else {
      c := WordLeafCut(t, j, rest);
    }
  }

  lemma NumberCut(t: Text, j: Json, rest: Text) returns (c: Text)
    requires NumberLength(t) > 0 && ReadValue(JavaScript, t) == Some((j, rest))
    ensures t == c + rest && NoQuotes(c)
  {
    NumberRest(t, j, rest);
    NumberHasNoQuotes(t);
    c := TakeCut(t, NumberLength(t));
  }

  lemma NumberRest(t: Text, j: Json, rest: Text)
    requires NumberLength(t) > 0 && ReadValue(JavaScript, t) == Some((j, rest))
    ensures j == Num(t[..NumberLength(t)]) && rest == t[NumberLength(t)..]
  {
    ReadValueLexeme(JavaScript, t);
  }

  lemma WordLeafCut(t: Text, j: Json, rest: Text) returns (c: Text)
    requires t != [] && SkipSpace(t) == t && t[0] != 0x22 && t[0] != '{' as int && t[0] != '[' as int
    requires NumberLength(t) == 0 && ReadValue(JavaScript, t) == Some((j, rest))
    ensures t == c + rest && NoQuotes(c)
  {
    WordsHaveNoQuotes();
    var word := if StartsWith(t, Ascii("null")) then Ascii("null")
                else if StartsWith(t, Ascii("true")) then Ascii("true") else Ascii("false");
    WordRest(t, j, rest, word);
    c := WordCut(t, word);
  }

  lemma WordRest(t: Text, j: Json, rest: Text, word: Text)
    requires t != [] && SkipSpace(t) == t && t[0] != 0x22 && t[0] != '{' as int && t[0] != '[' as int
    requires NumberLength(t) == 0 && ReadValue(JavaScript, t) == Some((j, rest))
    requires word == if StartsWith(t, Ascii("null")) then Ascii("null")
                     else if StartsWith(t, Ascii("true")) then Ascii("true") else Ascii("false")
    ensures StartsWith(t, word) && rest == t[|word|..]
  {
  }

  /** A value starts with a non-integer literal, for the pattern, exactly when that is what it is. */
  lemma LiteralIff(text: Text, r: Raw, rest: Text)
    requires RawValue(text) == Some((r, rest)) && Follows(rest)
    ensures StartsNonInteger(SkipJsSpace(text)) <==> IsNonIntegerLiteral(r)
  {
    var t := SkipSpace(text);
    ValueStart(text);
    JsSkips(text);
    AfterValue(rest);
    if t[0] == '{' as int || t[0] == '[' as int {
    } else {
      SkipTwice(text);
      LeafLiteralIff(t, r.value, rest);
    }
  }

  lemma LeafLiteralIff(t: Text, j: Json, rest: Text)
    requires t != [] && SkipSpace(t) == t && t[0] != '{' as int && t[0] != '[' as int
    requires ReadValue(JavaScript, t) == Some((j, rest)) && NotNumberish(rest)
    ensures StartsNonInteger(t) <==> j.Num? && IntOf(j.lexeme).None?
  {
    if t[0] == 0x22 {
      StringRead(t);
      NoNumberStart(t);
    } else if NumberLength(t) > 0 {
      ReadValueLexeme(JavaScript, t);
      NumberIff(t);
    } else {
      WordRead(t, j, rest);
      NoNumberStart(t);
    }
  }

  lemma StringRead(t: Text)
    requires t != [] && SkipSpace(t) == t && t[0] == 0x22
    ensures ReadValue(JavaScript, t).Some? ==> ReadValue(JavaScript, t).value.0.Str?
  {
  }

  lemma WordRead(t: Text, j: Json, rest: Text)
    requires t != [] && SkipSpace(t) == t && t[0] != 0x22 && t[0] != '{' as int && t[0] != '[' as int
    requires NumberLength(t) == 0 && ReadValue(JavaScript, t) == Some((j, rest))
    ensures !j.Num? && (t[0] == 'n' as int || t[0] == 't' as int || t[0] == 'f' as int)
  {
    SameHead(t, Ascii("null"));
    SameHead(t, Ascii("true"));
    SameHead(t, Ascii("false"));
  }

  lemma SameHead(t: Text, word: Text)
    requires word != []
    ensures StartsWith(t, word) ==> t[0] == word[0]
  {
    if StartsWith(t, word) {
      assert t[..|word|][0] == t[0];
    }
  }

  lemma NoNumberStart(t: Text)
    requires t != [] && (t[0] == 0x22 || t[0] == 'n' as int || t[0] == 't' as int || t[0] == 'f' as int)
    ensures !StartsNonInteger(t)
  {
  }

  /** What a value can start with. */
  lemma ValueStart(text: Text)
    requires RawValue(text).Some?
    ensures SkipSpace(text) != [] && !IsJsSpace(SkipSpace(text)[0])
  {
    var t := SkipSpace(text);
    SkipTwice(text);
    if t != [] && t[0] != '{' as int && t[0] != '[' as int {
      LeafStart(t);
    }
  }

  lemma LeafStart(t: Text)
    requires t != [] && SkipSpace(t) == t && t[0] != '{' as int && t[0] != '[' as int
    requires ReadValue(JavaScript, t).Some?
    ensures !IsJsSpace(t[0])
  {
    if t[0] != 0x22 {
      if NumberLength(t) > 0 {
        NumberStart(t);
      } else {
        WordRead(t, ReadValue(JavaScript, t).value.0, ReadValue(JavaScript, t).value.1);
      }
    }
  }

  // ---- the cut of every value ----

  lemma QuotedAssoc(body: Text, rest: Text)
    ensures [0x22] + (body + [0x22] + rest) == Quoted(body) + rest
  {
    Assoc(body, [0x22], rest);
    Assoc([0x22], body, [0x22] + rest);
    Assoc([0x22] + body, [0x22], rest);
  }

  lemma Three(a: Text, b: Text, c: Text, rest: Text)
    ensures a + (b + c) + rest == a + (b + (c + rest))
  {
    Assoc(a, b + c, rest);
    Assoc(b, c, rest);
  }

  /** The value's text is quiet exactly when nothing in the value is seen. */
  lemma {:induction false} ValueCut(text: Text) returns (c: Text)
    requires RawValue(text).Some? && Follows(RawValue(text).value.1)
    ensures var (r, rest) := RawValue(text).value; text == c + rest && (Quiet(c, rest) <==> !Sees(r))
    decreases |text|, 1
  {
    var t := SkipSpace(text);
    var sp := SpaceCut(text);
    ValueStart(text);
    var (r, rest) := RawValue(text).value;
    var d: Text;
    if t[0] == '{' as int || t[0] == '[' as int {
      d := BracketCut(text);
    } else {
      SkipTwice(text);
      d := LeafCut(t, r.value, rest);
    }
    c := sp + d;
    Assoc(sp, d, rest);
    QuietBefore(sp, d, rest);
  }

  lemma {:induction false} BracketCut(text: Text) returns (d: Text)
    requires RawValue(text).Some? && SkipSpace(text) != []
    requires SkipSpace(text)[0] == '{' as int || SkipSpace(text)[0] == '[' as int
    ensures var (r, rest) := RawValue(text).value;
            SkipSpace(text) == d + rest && (Quiet(d, rest) <==> !Sees(r))
    decreases |text|, 0
  {
    var t := SkipSpace(text);
    var u := SkipSpace(t[1..]);
    if u != [] && u[0] == (if t[0] == '{' as int then '}' as int else ']' as int) {
      d := EmptyCut(text);
    } else if t[0] == '{' as int {
      var e := MembersCut(t[1..]);
      OpenMembers(text);
      d := OpenCut(t, e, RawMembers(t[1..]).value.1);
    } else {
      var e := ElementsCut(t[1..]);
      OpenElements(text);
      d := OpenCut(t, e, RawElements(t[1..]).value.1);
    }
  }

  lemma EmptyCut(text: Text) returns (d: Text)
    requires RawValue(text).Some? && SkipSpace(text) != []
    requires var t, u := SkipSpace(text), SkipSpace(SkipSpace(text)[1..]);
             u != [] && ((t[0] == '{' as int && u[0] == '}' as int) || (t[0] == '[' as int && u[0] == ']' as int))
    ensures var (r, rest) := RawValue(text).value;
            SkipSpace(text) == d + rest && Quiet(d, rest) && !Sees(r)
  {
    var t := SkipSpace(text);
    var u := SkipSpace(t[1..]);
    var sp := SpaceCut(t[1..]);
    d := [t[0]] + (sp + [u[0]]);
    Three([t[0]], sp, [u[0]], u[1..]);
    QuietWithoutQuotes(d, u[1..]);
  }

  lemma OpenMembers(text: Text)
    requires RawValue(text).Some? && SkipSpace(text) != [] && SkipSpace(text)[0] == '{' as int
    requires var u := SkipSpace(SkipSpace(text)[1..]); !(u != [] && u[0] == '}' as int)
    ensures RawMembers(SkipSpace(text)[1..]).Some?
    ensures var (ms, rest) := RawMembers(SkipSpace(text)[1..]).value;
            RawValue(text) == Some((RawObj(ms), rest)) && (Sees(RawObj(ms)) <==> SeesInMembers(ms))
  {
  }

  lemma OpenElements(text: Text)
    requires RawValue(text).Some? && SkipSpace(text) != [] && SkipSpace(text)[0] == '[' as int
    requires var u := SkipSpace(SkipSpace(text)[1..]); !(u != [] && u[0] == ']' as int)
    ensures RawElements(SkipSpace(text)[1..]).Some?
    ensures var (es, rest) := RawElements(SkipSpace(text)[1..]).value;
            RawValue(text) == Some((RawArr(es), rest)) && (Sees(RawArr(es)) <==> SeesInElements(es))
  {
  }

  lemma OpenCut(t: Text, e: Text, rest: Text) returns (d: Text)
    requires t != [] && t[0] != 0x22 && t[1..] == e + rest
    ensures t == d + rest && (Quiet(d, rest) <==> Quiet(e, rest))
  {
    d := [t[0]] + e;
    assert t == [t[0]] + t[1..];
    Assoc([t[0]], e, rest);
    QuietBefore([t[0]], e, rest);
  }

  /** What separates two elements or closes the list: a comma or the closing bracket, and spaces before it. */
  lemma SeparatorCut(rest: Text) returns (mid: Text)
    requires SkipSpace(rest) != [] && SkipSpace(rest)[0] != 0x22
    ensures NoQuotes(mid) && rest == mid + SkipSpace(rest)[1..]
  {
    var u := SkipSpace(rest);
    var sp := SpaceCut(rest);
    mid := sp + [u[0]];
    Assoc(sp, [u[0]], u[1..]);
    NoQuotesConcat(sp, [u[0]]);
  }

  lemma {:induction false} ElementsCut(t: Text) returns (c: Text)
    requires RawElements(t).Some?
    ensures var (es, end) := RawElements(t).value; t == c + end && (Quiet(c, end) <==> !SeesInElements(es))
    decreases |t|, 2
  {
    var (e, rest) := RawValue(t).value;
    var u := SkipSpace(rest);
    var vc := ValueCut(t);
    var mid := SeparatorCut(rest);
    var more: Text := [];
    if u[0] == ',' as int {
      more := ElementsCut(u[1..]);
      SeesConsElements(e, RawElements(u[1..]).value.0);
    } else {
      SeesConsElements(e, []);
      QuietWithoutQuotes([], u[1..]);
    }
    var end := RawElements(t).value.1;
    c := vc + (mid + more);
    assert u[1..] == more + end;
    Three(vc, mid, more, end);
    Assoc(mid, more, end);
    QuietAround(vc, mid, more, end);
  }

  lemma SeesConsElements(e: Raw, es: seq<Raw>)
    ensures SeesInElements([e] + es) <==> Sees(e) || SeesInElements(es)
    ensures SeesInElements([e]) <==> Sees(e)
    ensures !SeesInElements([])
  {
    if Sees(e) {
      assert Sees(([e] + es)[0]) && Sees([e][0]);
    }
    if SeesInElements(es) {
      var i :| 0 <= i < |es| && Sees(es[i]);
      assert Sees(([e] + es)[i + 1]);
    }
  }

  lemma SeesConsMembers(m: Member, ms: seq<Member>)
    ensures SeesInMembers([m] + ms) <==> SeesMember(m) || SeesInMembers(ms)
    ensures SeesInMembers([m]) <==> SeesMember(m)
    ensures !SeesInMembers([])
  {
    if SeesMember(m) {
      assert SeesMember(([m] + ms)[0]) && SeesMember([m][0]);
    }
    if SeesInMembers(ms) {
      var i :| 0 <= i < |ms| && SeesMember(ms[i]);
      assert SeesMember(([m] + ms)[i + 1]);
    }
  }

  /** The list at `t` is the member `m` alone, or `m` and the list after the comma that `u` starts with. */
  predicate HeadLeads(t: Text, u: Text, m: Member) {
    && u != []
    && (|| (u[0] == '}' as int && RawMembers(t) == Some(([m], u[1..])))
        || (u[0] == ',' as int && RawMembers(u[1..]).Some?
            && RawMembers(t) == Some(([m] + RawMembers(u[1..]).value.0, RawMembers(u[1..]).value.1))))
  }

  /** The parts of a member list's head. */
  lemma MembersHead(t: Text) returns (k: Text, after: Text, v: Raw, rest: Text)
    requires RawMembers(t).Some?
    ensures MemberAt(t, k, after, v, rest) && Follows(rest) && SkipSpace(rest) != [] && |rest| < |t|
    ensures |SkipSpace(after)[1..]| < |t|
    ensures HeadLeads(t, SkipSpace(rest), Member(BodyOf(SkipSpace(t)[1..], after), k, v))
  {
    var q := SkipSpace(t);
    k, after := ReadString(JavaScript, q[1..]).value.0, ReadString(JavaScript, q[1..]).value.1;
    var c := SkipSpace(after);
    v, rest := RawValue(c[1..]).value.0, RawValue(c[1..]).value.1;
  }

  lemma {:induction false} MembersCut(t: Text) returns (c: Text)
    requires RawMembers(t).Some?
    ensures var (ms, end) := RawMembers(t).value; t == c + end && (Quiet(c, end) <==> !SeesInMembers(ms))
    decreases |t|, 2
  {
    var k, after, v, rest := MembersHead(t);
    var u, m := SkipSpace(rest), Member(BodyOf(SkipSpace(t)[1..], after), k, v);
    var vc := ValueCut(SkipSpace(after)[1..]);
    var head := MemberCut(t, k, after, v, rest, vc);
    var mid := SeparatorCut(rest);
    var more: Text := [];
    if u[0] == ',' as int {
      more := MembersCut(u[1..]);
      SeesConsMembers(m, RawMembers(u[1..]).value.0);
    } else {
      SeesConsMembers(m, []);
      QuietWithoutQuotes([], u[1..]);
    }
    var end := RawMembers(t).value.1;
    c := head + (mid + more);
    assert u[1..] == more + end;
    Three(head, mid, more, end);
    Assoc(mid, more, end);
    QuietAround(head, mid, more, end);
  }

  /** One member: its key is looked at with what follows it, its value on its own. */
  lemma MemberCut(t: Text, k: Text, after: Text, v: Raw, rest: Text, vc: Text) returns (c: Text)
    requires MemberAt(t, k, after, v, rest) && Follows(rest)
    requires SkipSpace(after)[1..] == vc + rest && (Quiet(vc, rest) <==> !Sees(v))
    ensures t == c + rest
    ensures Quiet(c, rest) <==> !SeesMember(Member(BodyOf(SkipSpace(t)[1..], after), k, v))
  {
    var q := SkipSpace(t);
    var body := BodyOf(q[1..], after);
    var sp := SpaceCut(t);
    var colon := SeparatorCut(after);
    StringCut(q[1..]);
    assert q == [0x22] + q[1..];
    QuotedAssoc(body, after);
    var key := Quoted(body);
    assert q == key + after && after == colon + (vc + rest);
    KeyIff(body, k, after, v, rest);
    c := sp + (key + (colon + vc));
    MemberParts(sp, key, colon, vc, rest);
    QuietBefore(sp, key + (colon + vc), rest);
    QuietAround(key, colon, vc, rest);
    Assoc(colon, vc, rest);
  }

  lemma MemberParts(sp: Text, key: Text, colon: Text, vc: Text, rest: Text)
    ensures sp + (key + (colon + vc)) + rest == sp + (key + (colon + (vc + rest)))
  {
    Assoc(sp, key + (colon + vc), rest);
    Three(key, colon, vc, rest);
  }

  lemma KeyIff(body: Text, k: Text, after: Text, v: Raw, rest: Text)
    requires InnerQuotes(body) && SkipSpace(after) != [] && SkipSpace(after)[0] == ':' as int
    requires RawValue(SkipSpace(after)[1..]) == Some((v, rest)) && Follows(rest)
    ensures Quiet(Quoted(body), after) <==> !HasWatchedLiteral(Member(body, k, v))
  {
    JsSkips(after);
    LiteralIff(SkipSpace(after)[1..], v, rest);
    NotV(after);
    QuotedQuietIff(body, after);
  }

  lemma NotV(after: Text)
    requires SkipSpace(after) != [] && SkipSpace(after)[0] == ':' as int
    ensures after != [] && after[0] != 'v' as int
  {
  }

  /** The raw-text check fires on a JSON text exactly when somewhere in it, dropped duplicates included, a watched key
      has a number that is not written as an integer. */
  lemma FiresIff(s: Text)
    requires RawOf(s).Some?
    ensures Fires(s) <==> Sees(RawOf(s).value)
  {
    var (r, rest) := RawValue(s).value;
    var c := ValueCut(s);
    var sp := SpaceCut(rest);
    assert rest == sp && s == c + sp;
    QuietWithoutQuotes(sp, []);
    QuietSplit(c, sp, []);
    assert sp + [] == sp && s + [] == s;
    assert Quiet(s, []) <==> !Fires(s);
  }
}
