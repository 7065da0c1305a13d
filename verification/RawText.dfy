/** JSON text as it is written: the values of a text with every key as it is spelled, escapes included. The
    raw-text check of the TypeScript port is judged against this reading. */
module RawText {
  import opened Common
  import opened JsonText

  /** A value as written: a word, number or string by what it denotes, an object with its members in order. */
  datatype Raw = Leaf(value: Json) | RawArr(elems: seq<Raw>) | RawObj(members: seq<Member>)

  /** A member: its key between the quotes as spelled, the key that spelling denotes, and the value. */
  datatype Member = Member(spelled: Text, key: Text, value: Raw)

  /** What is between the quotes of a string that starts at `t` and is followed by `after`. */
  function BodyOf(t: Text, after: Text): Text
    requires |after| < |t|
  {
    t[..|t| - |after| - 1]
  }

  function RawValue(text: Text): (r: Option<(Raw, Text)>)
    ensures r.Some? ==> |r.value.1| < |text|
    decreases |text|, 1
  {
    var t := SkipSpace(text);
    if t != [] && t[0] == '{' as int then
      var u := SkipSpace(t[1..]);
      if u != [] && u[0] == '}' as int then Some((RawObj([]), u[1..]))
      else
        (match RawMembers(t[1..])
         case None => None
         case Some((ms, rest)) => Some((RawObj(ms), rest)))
    else if t != [] && t[0] == '[' as int then
      var u := SkipSpace(t[1..]);
      if u != [] && u[0] == ']' as int then Some((RawArr([]), u[1..]))
      else
        (match RawElements(t[1..])
         case None => None
         case Some((es, rest)) => Some((RawArr(es), rest)))
    else
      match ReadValue(JavaScript, t)
      case None => None
      case Some((j, rest)) => Some((Leaf(j), rest))
  }

  function RawElements(t: Text): (r: Option<(seq<Raw>, Text)>)
    ensures r.Some? ==> |r.value.1| < |t|
    decreases |t|, 2
  {
    match RawValue(t)
    case None => None
    case Some((e, rest)) =>
      var u := SkipSpace(rest);
      if u == [] then None
      else if u[0] == ']' as int then Some(([e], u[1..]))
      else if u[0] != ',' as int then None
      else
        match RawElements(u[1..])
        case None => None
        case Some((es, end)) => Some(([e] + es, end))
  }

  function RawMembers(t: Text): (r: Option<(seq<Member>, Text)>)
    ensures r.Some? ==> |r.value.1| < |t|
    decreases |t|, 2
  {
    var q := SkipSpace(t);
    if q == [] || q[0] != 0x22 then None
    else
      match ReadString(JavaScript, q[1..])
      case None => None
      case Some((k, after)) =>
        var c := SkipSpace(after);
        if c == [] || c[0] != ':' as int then None
        else
          match RawValue(c[1..])
          case None => None
          case Some((v, rest)) =>
            var m, u := Member(BodyOf(q[1..], after), k, v), SkipSpace(rest);
            if u == [] then None
            else if u[0] == '}' as int then Some(([m], u[1..]))
            else if u[0] != ',' as int then None
            else
              match RawMembers(u[1..])
              case None => None
              case Some((ms, end)) => Some(([m] + ms, end))
  }

  /** The reading of a whole text. */
  function RawOf(s: Text): Option<Raw> {
    match RawValue(s)
    case None => None
    case Some((r, rest)) => if SkipSpace(rest) == [] then Some(r) else None
  }

  // ---- what it denotes ----

  function Denotes(r: Raw): Json {
    match r
    case Leaf(j) => j
    case RawArr(es) => Arr(seq(|es|, i requires 0 <= i < |es| => Denotes(es[i])))
    case RawObj(ms) => Obj(MapOf(seq(|ms|, i requires 0 <= i < |ms| => (ms[i].key, Denotes(ms[i].value)))))
  }

  function PairsIn(ms: seq<Member>): (ps: seq<(Text, Json)>)
    ensures |ps| == |ms|
    ensures forall i :: 0 <= i < |ms| ==> ps[i] == (ms[i].key, Denotes(ms[i].value))
  {
    seq(|ms|, i requires 0 <= i < |ms| => (ms[i].key, Denotes(ms[i].value)))
  }

  function ValuesIn(es: seq<Raw>): (js: seq<Json>)
    ensures |js| == |es|
    ensures forall i :: 0 <= i < |es| ==> js[i] == Denotes(es[i])
  {
    seq(|es|, i requires 0 <= i < |es| => Denotes(es[i]))
  }

  lemma DenotesObj(ms: seq<Member>)
    ensures Denotes(RawObj(ms)) == Obj(MapOf(PairsIn(ms)))
  {
    assert PairsIn(ms) == seq(|ms|, i requires 0 <= i < |ms| => (ms[i].key, Denotes(ms[i].value)));
  }

  lemma DenotesArr(es: seq<Raw>)
    ensures Denotes(RawArr(es)) == Arr(ValuesIn(es))
  {
    assert ValuesIn(es) == seq(|es|, i requires 0 <= i < |es| => Denotes(es[i]));
  }

  // ---- the two readings agree ----

  lemma {:induction false} SkipTwice(t: Text)
    ensures SkipSpace(SkipSpace(t)) == SkipSpace(t)
  {
    if t != [] && IsSpace(t[0]) {
      SkipTwice(t[1..]);
    }
  }

  lemma ReadSkipped(t: Text)
    ensures ReadValue(JavaScript, SkipSpace(t)) == ReadValue(JavaScript, t)
  {
    SkipTwice(t);
  }

  predicate SameValue(j: Option<(Json, Text)>, r: Option<(Raw, Text)>) {
    j == if r.None? then None else Some((Denotes(r.value.0), r.value.1))
  }

  predicate SameElements(js: Option<(seq<Json>, Text)>, r: Option<(seq<Raw>, Text)>) {
    js == if r.None? then None else Some((ValuesIn(r.value.0), r.value.1))
  }

  predicate SamePairs(ps: Option<(seq<(Text, Json)>, Text)>, r: Option<(seq<Member>, Text)>) {
    ps == if r.None? then None else Some((PairsIn(r.value.0), r.value.1))
  }

  lemma {:induction false} RawAgrees(text: Text)
    ensures SameValue(ReadValue(JavaScript, text), RawValue(text))
    decreases |text|, 1
  {
    var t := SkipSpace(text);
    if t != [] && t[0] == '{' as int {
      MembersAgree(t[1..]);
      ObjectAgrees(text);
    } else if t != [] && t[0] == '[' as int {
      ElementsAgree(t[1..]);
      ArrayAgrees(text);
    } else {
      ReadSkipped(text);
    }
  }

  lemma ObjectAgrees(text: Text)
    requires SkipSpace(text) != [] && SkipSpace(text)[0] == '{' as int
    requires SamePairs(ReadMembers(JavaScript, SkipSpace(text)[1..]), RawMembers(SkipSpace(text)[1..]))
    ensures SameValue(ReadValue(JavaScript, text), RawValue(text))
  {
    var t := SkipSpace(text);
    DenotesObj([]);
    match RawMembers(t[1..])
    case None =>
    case Some((ms, rest)) => DenotesObj(ms);
  }

  lemma ArrayAgrees(text: Text)
    requires SkipSpace(text) != [] && SkipSpace(text)[0] == '[' as int
    requires SameElements(ReadElements(JavaScript, SkipSpace(text)[1..]), RawElements(SkipSpace(text)[1..]))
    ensures SameValue(ReadValue(JavaScript, text), RawValue(text))
  {
    var t := SkipSpace(text);
    DenotesArr([]);
    match RawElements(t[1..])
    case None =>
    case Some((es, rest)) => DenotesArr(es);
  }

  lemma {:induction false} ElementsAgree(t: Text)
    ensures SameElements(ReadElements(JavaScript, t), RawElements(t))
    decreases |t|, 2
  {
    RawAgrees(t);
    match RawValue(t)
    case None =>
    case Some((e, rest)) =>
      var u := SkipSpace(rest);
      if u != [] && u[0] == ',' as int {
        ElementsAgree(u[1..]);
      }
      ElementsStep(t, e, rest);
  }

  lemma ElementsStep(t: Text, e: Raw, rest: Text)
    requires RawValue(t) == Some((e, rest)) && ReadValue(JavaScript, t) == Some((Denotes(e), rest))
    requires var u := SkipSpace(rest);
             u != [] && u[0] == ',' as int ==> SameElements(ReadElements(JavaScript, u[1..]), RawElements(u[1..]))
    ensures SameElements(ReadElements(JavaScript, t), RawElements(t))
  {
    var u := SkipSpace(rest);
    ValuesCons(e, []);
    if u != [] && u[0] == ',' as int {
      if RawElements(u[1..]).Some? {
        ValuesCons(e, RawElements(u[1..]).value.0);
      }
    }
  }

  lemma ValuesCons(e: Raw, es: seq<Raw>)
    ensures ValuesIn([e] + es) == [Denotes(e)] + ValuesIn(es) && ValuesIn([e]) == [Denotes(e)]
  {
  }

  lemma PairsCons(m: Member, ms: seq<Member>)
    ensures PairsIn([m] + ms) == [(m.key, Denotes(m.value))] + PairsIn(ms)
    ensures PairsIn([m]) == [(m.key, Denotes(m.value))]
  {
  }

  lemma {:induction false} MembersAgree(t: Text)
    ensures SamePairs(ReadMembers(JavaScript, t), RawMembers(t))
    decreases |t|, 2
  {
    var q := SkipSpace(t);
    if q != [] && q[0] == 0x22 {
      match ReadString(JavaScript, q[1..])
      case None =>
      case Some((k, after)) =>
        var c := SkipSpace(after);
        if c != [] && c[0] == ':' as int {
          RawAgrees(c[1..]);
          match RawValue(c[1..])
          case None =>
          case Some((v, rest)) =>
            var u := SkipSpace(rest);
            if u != [] && u[0] == ',' as int {
              MembersAgree(u[1..]);
            }
            MembersStep(t, k, after, v, rest);
        }
    }
  }

  /** One member of a list that starts at `t`: its key, what follows the key, its value and the rest. */
  predicate MemberAt(t: Text, k: Text, after: Text, v: Raw, rest: Text) {
    var q, c := SkipSpace(t), SkipSpace(after);
    && q != [] && q[0] == 0x22 && ReadString(JavaScript, q[1..]) == Some((k, after))
    && c != [] && c[0] == ':' as int && RawValue(c[1..]) == Some((v, rest))
  }

  lemma MembersStep(t: Text, k: Text, after: Text, v: Raw, rest: Text)
    requires MemberAt(t, k, after, v, rest)
    requires ReadValue(JavaScript, SkipSpace(after)[1..]) == Some((Denotes(v), rest))
    requires var u := SkipSpace(rest);
             u != [] && u[0] == ',' as int ==> SamePairs(ReadMembers(JavaScript, u[1..]), RawMembers(u[1..]))
    ensures SamePairs(ReadMembers(JavaScript, t), RawMembers(t))
  {
    var u := SkipSpace(rest);
    var m := Member(BodyOf(SkipSpace(t)[1..], after), k, v);
    PairsCons(m, []);
    if u != [] && u[0] == ',' as int {
      if RawMembers(u[1..]).Some? {
        PairsCons(m, RawMembers(u[1..]).value.0);
      }
    }
  }

  /** `JSON.parse` gives what the written text denotes. */
  lemma ParseIsRaw(s: Text)
    ensures Parse(JavaScript, s) == if RawOf(s).None? then None else Some(Denotes(RawOf(s).value))
  {
    RawAgrees(s);
  }
}
