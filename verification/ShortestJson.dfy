/** Canonical JSON is the shortest text of its value: no space, no member twice, no escape that could be shorter. */
module ShortestJson {
  import opened Common
  import opened Utf
  import opened JsonText

  // ---- strings ----

  /** What the text of a dialect may hold: printable ASCII only, if it is all printed in ASCII. */
  predicate IsTextOf(d: Dialect, t: Text) {
    d.PythonAscii? ==> forall i :: 0 <= i < |t| ==> 0x20 <= t[i] < 0x7F
  }

  lemma AsciiUnit(c: int)
    requires 0 <= c < 0x10000
    ensures IsTextOf(PythonAscii, UnicodeEscape(c))
  {
  }

  lemma AsciiPoint(c: CodePoint)
    ensures IsTextOf(PythonAscii, Escape(PythonAscii, c))
  {
    if c < 0x10000 {
      AsciiUnit(c);
    } else {
      AsciiUnit(Utf16Char(c)[0]);
      AsciiUnit(Utf16Char(c)[1]);
    }
  }

  /** What is printed in ASCII is printable ASCII. */
  lemma {:induction false} AsciiString(s: Text)
    ensures IsTextOf(PythonAscii, EscapeAll(PythonAscii, s))
  {
    if s != [] {
      AsciiPoint(s[0]);
      AsciiString(s[1..]);
    }
  }

  lemma ShortPoint(d: Dialect, t: Text)
    requires !d.JavaScript? && t != [] && t[0] != 0x22 && ReadPoint(d, t).Some?
    requires d.PythonAscii? ==> 0x20 <= t[0] < 0x7F
    ensures |Escape(d, ReadPoint(d, t).value.0)| <= ReadPoint(d, t).value.1
  {
    if JoinsPair(d, t) {
      assert ReadPoint(d, t).value.0 >= 0x10000;
    }
  }

  /** No text that reads as the string is shorter than its printed form. */
  lemma {:induction false} ShortString(d: Dialect, t: Text)
    requires !d.JavaScript? && ReadString(d, t).Some? && IsTextOf(d, t)
    ensures |t| - |ReadString(d, t).value.1| >= |EscapeAll(d, ReadString(d, t).value.0)| + 1
    decreases |t|
  {
    if t[0] != 0x22 {
      var (c, n) := ReadPoint(d, t).value;
      ShortPoint(d, t);
      ShortString(d, t[n..]);
      var s := ReadString(d, t[n..]).value.0;
      assert ([c] + s)[1..] == s;
    }
  }

  // ---- arrays ----

  function Prints(es: seq<Json>): (ps: seq<Text>)
    ensures |ps| == |es| && forall i :: 0 <= i < |es| ==> ps[i] == Print(Python, es[i])
  {
    seq(|es|, i requires 0 <= i < |es| => Print(Python, es[i]))
  }

  lemma ArrayPrint(es: seq<Json>)
    ensures |Print(Python, Arr(es))| == |Join(Prints(es))| + 2
  {
    assert Prints(es) == seq(|es|, i requires 0 <= i < |es| => Print(Python, es[i]));
  }

  lemma PrintsCons(e: Json, es: seq<Json>)
    ensures |Join(Prints([e]))| == |Print(Python, e)|
    ensures es != [] ==> |Join(Prints([e] + es))| == |Print(Python, e)| + 1 + |Join(Prints(es))|
  {
    assert Prints([e] + es)[1..] == Prints(es);
  }

  // ---- objects ----

  /** The length of a member and of the separator or bracket after it. */
  function MemberLength(k: Text, v: Json): nat {
    |Quote(Python, k)| + |Print(Python, v)| + 2
  }

  function PairsLength(ps: seq<(Text, Json)>): nat {
    if ps == [] then 0 else MemberLength(ps[0].0, ps[0].1) + PairsLength(ps[1..])
  }

  function Weight(m: map<Text, Json>): Text -> nat {
    k => if k in m then MemberLength(k, m[k]) else 0
  }

  lemma {:induction false} SumOfSorted(ks: seq<Text>, w: Text -> nat, parts: seq<Text>)
    requires StrictlySorted(ks) && |parts| == |ks| > 0
    requires forall i :: 0 <= i < |ks| ==> |parts[i]| + 1 == w(ks[i])
    ensures SumOver(Elements(ks), w) == |Join(parts)| + 1
    decreases |ks|
  {
    InElements(ks, 0);
    SumSplit(Elements(ks), w, ks[0]);
    StrictlySortedTail(ks);
    if |ks| == 1 {
      assert Elements(ks) - {ks[0]} == {};
    } else {
      SumOfSorted(ks[1..], w, parts[1..]);
    }
  }

  lemma ObjectPrint(m: map<Text, Json>)
    ensures m != map[] ==> |Print(Python, Obj(m))| == SumOver(m.Keys, Weight(m)) + 1
    ensures m == map[] ==> |Print(Python, Obj(m))| == 2
  {
    var ks, parts := PrintedParts(Python, Obj(m));
    if m == map[] {
      NoKeys(ks);
    } else {
      var k :| k in m;
      assert k in Elements(ks);
      SumOfSorted(ks, Weight(m), parts);
    }
  }

  lemma NoKeys(ks: seq<Text>)
    requires Elements(ks) == {}
    ensures ks == []
  {
    if ks != [] {
      InElements(ks, 0);
    }
  }

  /** A member list is no shorter than the printed members of its map. */
  lemma {:induction false} PairsAreLonger(ps: seq<(Text, Json)>)
    ensures SumOver(MapOf(ps).Keys, Weight(MapOf(ps))) <= PairsLength(ps)
  {
    if ps != [] {
      PairsAreLonger(ps[1..]);
      OneMoreMember(MapOf(ps[1..]), ps[0].0, ps[0].1);
    }
  }

  lemma OneMoreMember(rest: map<Text, Json>, k: Text, v: Json)
    ensures var m := map[k := v] + rest;
            SumOver(m.Keys, Weight(m)) <= MemberLength(k, v) + SumOver(rest.Keys, Weight(rest))
  {
    var m := map[k := v] + rest;
    if k in rest {
      assert m == rest;
    } else {
      SumSplit(m.Keys, Weight(m), k);
      assert m.Keys - {k} == rest.Keys;
      SumMonotone(rest.Keys, rest.Keys, Weight(m), Weight(rest));
    }
  }

  lemma ObjectIsShorter(ps: seq<(Text, Json)>)
    requires ps != []
    ensures |Print(Python, Obj(MapOf(ps)))| <= PairsLength(ps) + 1
  {
    ObjectPrint(MapOf(ps));
    PairsAreLonger(ps);
    assert ps[0].0 in MapOf(ps);
  }

  // ---- values ----

  lemma LongerSkip(t: Text)
    ensures |SkipSpace(t)| <= |t|
  {
  }

  /** What was read of the text is at least as long as what is printed. */
  lemma {:induction false} ValueIsLonger(text: Text)
    requires ReadValue(Python, text).Some?
    ensures var (j, rest) := ReadValue(Python, text).value; |text| - |rest| >= |Print(Python, j)|
    decreases |text|, 1
  {
    var t := SkipSpace(text);
    if t[0] == 0x22 {
      ShortString(Python, t[1..]);
    } else if t[0] == '{' as int {
      ObjectIsLonger(text);
    } else if t[0] == '[' as int {
      ArrayIsLonger(text);
    }
  }

  lemma {:induction false} ObjectIsLonger(text: Text)
    requires ReadValue(Python, text).Some? && SkipSpace(text)[0] == '{' as int
    ensures var (j, rest) := ReadValue(Python, text).value; |text| - |rest| >= |Print(Python, j)|
    decreases |text|, 0
  {
    var t := SkipSpace(text);
    var u := SkipSpace(t[1..]);
    if u != [] && u[0] == '}' as int {
      ObjectPrint(map[]);
    } else {
      var ps := ReadMembers(Python, t[1..]).value.0;
      MembersAreLonger(t[1..]);
      ObjectIsShorter(ps);
    }
  }

  lemma {:induction false} ArrayIsLonger(text: Text)
    requires ReadValue(Python, text).Some? && SkipSpace(text)[0] == '[' as int
    ensures var (j, rest) := ReadValue(Python, text).value; |text| - |rest| >= |Print(Python, j)|
    decreases |text|, 0
  {
    var t := SkipSpace(text);
    var u := SkipSpace(t[1..]);
    if u != [] && u[0] == ']' as int {
      ArrayPrint([]);
    } else {
      ElementsAreLonger(t[1..]);
      ArrayPrint(ReadElements(Python, t[1..]).value.0);
    }
  }

  lemma {:induction false} ElementsAreLonger(t: Text)
    requires ReadElements(Python, t).Some?
    ensures var (es, rest) := ReadElements(Python, t).value; |t| - |rest| >= |Join(Prints(es))| + 1
    decreases |t|, 2
  {
    var (e, rest) := ReadValue(Python, t).value;
    var u := SkipSpace(rest);
    ValueIsLonger(t);
    if u[0] == ',' as int {
      ElementsAreLonger(u[1..]);
      PrintsCons(e, ReadElements(Python, u[1..]).value.0);
      SomeElement(u[1..]);
    } else {
      PrintsCons(e, []);
    }
  }

  lemma SomeElement(t: Text)
    requires ReadElements(Python, t).Some?
    ensures ReadElements(Python, t).value.0 != []
  {
  }

  /** The parts of a member list's head. */
  lemma HeadOf(t: Text) returns (k: Text, after: Text, v: Json, rest: Text)
    requires ReadMembers(Python, t).Some?
    ensures SkipSpace(t) != [] && SkipSpace(t)[0] == 0x22 && ReadString(Python, SkipSpace(t)[1..]) == Some((k, after))
    ensures SkipSpace(after) != [] && ReadValue(Python, SkipSpace(after)[1..]) == Some((v, rest))
    ensures HeadLeads(t, SkipSpace(rest), k, v)
  {
    k, after := ReadString(Python, SkipSpace(t)[1..]).value.0, ReadString(Python, SkipSpace(t)[1..]).value.1;
    v, rest := ReadValue(Python, SkipSpace(after)[1..]).value.0, ReadValue(Python, SkipSpace(after)[1..]).value.1;
  }

  predicate HeadLeads(t: Text, u: Text, k: Text, v: Json) {
    && u != []
    && (|| (u[0] == '}' as int && ReadMembers(Python, t) == Some(([(k, v)], u[1..])))
        || (u[0] == ',' as int && ReadMembers(Python, u[1..]).Some?
            && ReadMembers(Python, t)
            == Some(([(k, v)] + ReadMembers(Python, u[1..]).value.0, ReadMembers(Python, u[1..]).value.1))))
  }

  lemma {:induction false} MembersAreLonger(t: Text)
    requires ReadMembers(Python, t).Some?
    ensures var (ps, rest) := ReadMembers(Python, t).value; ps != [] && |t| - |rest| >= PairsLength(ps)
    decreases |t|, 2
  {
    var k, after, v, rest := HeadOf(t);
    var u := SkipSpace(rest);
    ShortString(Python, SkipSpace(t)[1..]);
    ValueIsLonger(SkipSpace(after)[1..]);
    if u[0] == ',' as int {
      MembersAreLonger(u[1..]);
      PairsCons(k, v, ReadMembers(Python, u[1..]).value.0);
    } else {
      PairsCons(k, v, []);
    }
  }

  lemma PairsCons(k: Text, v: Json, ps: seq<(Text, Json)>)
    ensures PairsLength([(k, v)]) == MemberLength(k, v)
    ensures PairsLength([(k, v)] + ps) == MemberLength(k, v) + PairsLength(ps)
  {
    assert ([(k, v)] + ps)[1..] == ps;
    assert [(k, v)][1..] == [];
  }

  /** Main result. No text that `json.loads` reads as a value is shorter than its canonical JSON. */
  lemma PrintIsShortest(t: Text, j: Json)
    requires Parse(Python, t) == Some(j)
    ensures |t| >= |Print(Python, j)|
  {
    ValueIsLonger(t);
  }
}
