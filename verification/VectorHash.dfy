/** Stored vectors, their canonical bytes and their hash: when a hash match pins every stored bit. */
module VectorHash {
  import opened Common
  import opened Rounding
  import opened Floats
  import opened Hashing

  /** A numpy array as the verifier sees it. The contents of an array that is not one-dimensional
      are never looked at. */
  datatype NdArray =
    | FloatVector(format: Format, floats: seq<Float>)
    | IntVector(ints: seq<int>)
    | Shaped(ndim: nat)

  predicate ArePatterns(f: Format, xs: seq<Float>) {
    forall i :: 0 <= i < |xs| ==> IsFloat(f, xs[i])
  }

  type Vector = v: NdArray | v.FloatVector? ==> ArePatterns(v.format, v.floats) witness Shaped(0)

  /** The format a header's `vec_dtype` names; any other name raises. */
  function FormatOf(dtype: Text): (f: Option<Format>)
    ensures f.Some? ==> f.value == F32 || f.value == F64
  {
    if dtype == Ascii("f32") then Some(F32) else if dtype == Ascii("f64") then Some(F64) else None
  }

  /** `native_dtype`. */
  function NativeFormat(v: Vector): Option<Format> {
    if !v.FloatVector? then None
    else if ItemSize(v.format) <= 4 then Some(F32)
    else if ItemSize(v.format) == 8 then Some(F64)
    else None
  }

  /** `is_wider_than`. */
  predicate IsWiderThan(v: Vector, to: Format) {
    !v.FloatVector? || ItemSize(v.format) > ItemSize(to)
  }

  predicate AllFinite(f: Format, xs: seq<Float>) {
    forall i :: 0 <= i < |xs| ==> IsFinite(f, xs[i])
  }

  // ---- casting whole vectors ----

  lemma ConvertGivesPattern(from: Format, to: Format, x: Float)
    requires IsFloat(from, x)
    ensures IsFloat(to, Convert(from, to, x))
  {
    MulNext(MaxExponent(to), HiddenBit(to));
  }

  function ConvertAll(from: Format, to: Format, xs: seq<Float>): (ys: seq<Float>)
    ensures |ys| == |xs|
  {
    if xs == [] then [] else [Convert(from, to, xs[0])] + ConvertAll(from, to, xs[1..])
  }

  lemma {:induction false} ConvertAllAt(from: Format, to: Format, xs: seq<Float>, i: nat)
    requires i < |xs|
    ensures ConvertAll(from, to, xs)[i] == Convert(from, to, xs[i])
  {
    if i > 0 {
      ConvertAllAt(from, to, xs[1..], i - 1);
    }
  }

  lemma ConvertAllPatterns(from: Format, to: Format, xs: seq<Float>)
    requires ArePatterns(from, xs)
    ensures ArePatterns(to, ConvertAll(from, to, xs))
  {
    forall i | 0 <= i < |xs|
      ensures IsFloat(to, ConvertAll(from, to, xs)[i])
    {
      ConvertAllAt(from, to, xs, i);
      ConvertGivesPattern(from, to, xs[i]);
    }
  }

  /** The pattern of 1.0 has this exponent field. */
  function Bias(f: Format): nat { MaxExponent(f) / 2 }

  /** An integer rounded to the format. */
  function FromInt(f: Format, n: int): (x: Float)
    ensures IsFloat(f, x)
  {
    MulNext(MaxExponent(f), HiddenBit(f));
    Float(n < 0, Round(f, (if n < 0 then -n else n) * Value(f, Bias(f) * HiddenBit(f))))
  }

  function FromInts(f: Format, ns: seq<int>): (xs: seq<Float>)
    ensures |xs| == |ns| && ArePatterns(f, xs)
  {
    if ns == [] then [] else [FromInt(f, ns[0])] + FromInts(f, ns[1..])
  }

  // ---- canonical bytes ----

  function SignBit(f: Format): nat { (MaxExponent(f) + 1) * HiddenBit(f) }

  /** The bit pattern as a number. */
  function Pattern(f: Format, x: Float): nat {
    (if x.neg then SignBit(f) else 0) + x.mag
  }

  /** `k` bytes, least significant first. */
  function LittleEndian(n: nat, k: nat): (b: Bytes)
    ensures |b| == k
  {
    if k == 0 then [] else [n % 256] + LittleEndian(n / 256, k - 1)
  }

  function Power256(k: nat): nat {
    if k == 0 then 1 else 256 * Power256(k - 1)
  }

  /** The number that bytes, least significant first, denote. */
  function FromLittleEndian(b: Bytes): nat {
    if b == [] then 0 else b[0] + 256 * FromLittleEndian(b[1..])
  }

  lemma {:induction false} LittleEndianBack(n: nat, k: nat)
    requires n < Power256(k)
    ensures FromLittleEndian(LittleEndian(n, k)) == n
  {
    if k > 0 {
      LittleEndianBack(n / 256, k - 1);
      assert LittleEndian(n, k)[1..] == LittleEndian(n / 256, k - 1);
    }
  }

  /** The packed little-endian elements, `arr.tobytes()`. */
  function Pack(f: Format, xs: seq<Float>): (b: Bytes) {
    if xs == [] then [] else LittleEndian(Pattern(f, xs[0]), ItemSize(f)) + Pack(f, xs[1..])
  }

  lemma {:induction false} PackLength(f: Format, xs: seq<Float>)
    ensures |Pack(f, xs)| == |xs| * ItemSize(f)
  {
    if xs != [] {
      PackLength(f, xs[1..]);
      MulNext(|xs| - 1, ItemSize(f));
    }
  }

  lemma PatternFits(f: Format, x: Float)
    requires IsFloat(f, x)
    ensures Pattern(f, x) < Power256(ItemSize(f))
  {
    assert Power256(4) == 0x1_0000_0000;
    assert Power256(8) == 0x1_0000_0000_0000_0000;
    assert Power256(12) == 0x1_0000_0000_0000_0000_0000_0000;
    assert Power256(16) == 0x1_0000_0000_0000_0000_0000_0000_0000_0000;
    assert 2 * SignBit(f) == Power256(ItemSize(f));
  }

  lemma PackHead(f: Format, xs: seq<Float>)
    requires xs != []
    ensures |Pack(f, xs)| >= ItemSize(f)
    ensures Pack(f, xs)[..ItemSize(f)] == LittleEndian(Pattern(f, xs[0]), ItemSize(f))
    ensures Pack(f, xs)[ItemSize(f)..] == Pack(f, xs[1..])
  {
  }

  /** The element with the given bit pattern. */
  function FromPattern(f: Format, n: nat): Float {
    if n >= SignBit(f) then Float(true, n - SignBit(f)) else Float(false, n)
  }

  /** The elements a reader of little-endian IEEE 754 numbers finds in a byte string. */
  function Unpack(f: Format, b: Bytes): (xs: seq<Float>) {
    if |b| < ItemSize(f) then []
    else [FromPattern(f, FromLittleEndian(b[..ItemSize(f)]))] + Unpack(f, b[ItemSize(f)..])
  }

  lemma PatternBack(f: Format, x: Float)
    requires IsFloat(f, x)
    ensures FromPattern(f, FromLittleEndian(LittleEndian(Pattern(f, x), ItemSize(f)))) == x
  {
    PatternFits(f, x);
    LittleEndianBack(Pattern(f, x), ItemSize(f));
  }

  /** Reading packed elements back gives the elements, bit for bit. */
  lemma {:induction false} UnpackPack(f: Format, xs: seq<Float>)
    requires ArePatterns(f, xs)
    ensures Unpack(f, Pack(f, xs)) == xs
  {
    if xs != [] {
      PackHead(f, xs);
      PatternBack(f, xs[0]);
      UnpackPack(f, xs[1..]);
      assert xs == [xs[0]] + xs[1..];
    }
  }

  lemma PackInjective(f: Format, xs: seq<Float>, ys: seq<Float>)
    requires ArePatterns(f, xs) && ArePatterns(f, ys) && Pack(f, xs) == Pack(f, ys)
    ensures xs == ys
  {
    UnpackPack(f, xs);
    UnpackPack(f, ys);
  }

  /** `canonical_vector_bytes`: cast, then pack; only for one-dimensional arrays. */
  function CanonicalVectorBytes(v: Vector, to: Format): Option<Bytes> {
    match v
    case FloatVector(from, xs) => Some(Pack(to, ConvertAll(from, to, xs)))
    case IntVector(ns) => Some(Pack(to, FromInts(to, ns)))
    case Shaped(_) => None
  }

  /** `hash_vector`. */
  function HashVector(sha: Hash, v: Vector, to: Format): Option<Text> {
    match CanonicalVectorBytes(v, to)
    case None => None
    case Some(b) => Some(HashBytes(sha, b))
  }

  /** `v.shape[0]` of a one-dimensional array. */
  function Length(v: Vector): Option<nat> {
    match v
    case FloatVector(_, xs) => Some(|xs|)
    case IntVector(ns) => Some(|ns|)
    case Shaped(_) => None
  }

  // ---- the precision rule is sufficient ----

  lemma {:induction false} WidenAllInjective(from: Format, to: Format, xs: seq<Float>, ys: seq<Float>)
    requires from == to || Narrower(from, to)
    requires AllFinite(from, xs) && AllFinite(from, ys) && ConvertAll(from, to, xs) == ConvertAll(from, to, ys)
    ensures xs == ys
  {
    assert |xs| == |ConvertAll(from, to, xs)| == |ys|;
    forall i | 0 <= i < |xs|
      ensures xs[i] == ys[i]
    {
      ConvertAllAt(from, to, xs, i);
      ConvertAllAt(from, to, ys, i);
      WidenInjective(from, to, xs[i], ys[i]);
    }
  }

  lemma SameWidthSameFormat(a: Format, b: Format)
    requires ItemSize(a) == ItemSize(b)
    ensures a == b
  {
  }

  /** Two finite vectors of one native width that the verifier's precision rule lets through and
      that hash alike are the same bit for bit, or two strings with one digest are at hand. */
  lemma PrecisionRuleSuffices(sha: Hash, u: Vector, v: Vector, to: Format)
    requires u.FloatVector? && v.FloatVector? && u.format == v.format
    requires !IsWiderThan(u, to) && !IsWiderThan(v, to)
    requires AllFinite(u.format, u.floats) && AllFinite(v.format, v.floats)
    requires HashVector(sha, u, to) == HashVector(sha, v, to)
    ensures u == v
            || CollisionIn(sha, {CanonicalVectorBytes(u, to).value, CanonicalVectorBytes(v, to).value})
  {
    var x, y := CanonicalVectorBytes(u, to).value, CanonicalVectorBytes(v, to).value;
    HashBytesBinding(sha, x, y);
    if x == y {
      var from := u.format;
      ConvertAllPatterns(from, to, u.floats);
      ConvertAllPatterns(from, to, v.floats);
      PackInjective(to, ConvertAll(from, to, u.floats), ConvertAll(from, to, v.floats));
      if ItemSize(from) == ItemSize(to) {
        SameWidthSameFormat(from, to);
      }
      WidenAllInjective(from, to, u.floats, v.floats);
    }
  }

  /** The double `j` steps further from zero than the widened single. */
  function MovedBy(x: Float, j: nat): Float {
    var w := Convert(F32, F64, x);
    Float(w.neg, w.mag + j)
  }

  function Moved(xs: seq<Float>, js: seq<nat>): (ys: seq<Float>)
    requires |js| == |xs|
    ensures |ys| == |xs| && forall i :: 0 <= i < |xs| ==> ys[i] == MovedBy(xs[i], js[i])
  {
    seq(|xs|, i requires 0 <= i < |xs| => MovedBy(xs[i], js[i]))
  }

  /** Only a normal element is moved, and by less than 2^28 steps. */
  predicate MovesBack(x: Float, j: nat) {
    !IsNaN(F32, x) && (j > 0 ==> IsNormal(F32, x) && 2 * j < STEPS)
  }

  lemma MovedNarrows(x: Float, j: nat)
    requires MovesBack(x, j)
    ensures IsFloat(F32, x) && IsFloat(F64, MovedBy(x, j)) && Convert(F64, F32, MovedBy(x, j)) == x
  {
    MulNext(MaxExponent(F32), HiddenBit(F32));
    MulNext(MaxExponent(F64), HiddenBit(F64));
    if j > 0 {
      ManyDoublesNarrowAlike(x, j);
    } else {
      NarrowWiden(F32, F64, x);
      ConvertGivesPattern(F32, F64, x);
    }
  }

  lemma MovedAllNarrow(xs: seq<Float>, js: seq<nat>)
    requires |js| == |xs| && forall i :: 0 <= i < |xs| ==> MovesBack(xs[i], js[i])
    ensures ArePatterns(F32, xs) && ArePatterns(F64, Moved(xs, js)) && ConvertAll(F64, F32, Moved(xs, js)) == xs
  {
    forall i | 0 <= i < |xs|
      ensures IsFloat(F32, xs[i]) && IsFloat(F64, Moved(xs, js)[i])
      ensures ConvertAll(F64, F32, Moved(xs, js))[i] == xs[i]
    {
      MovedNarrows(xs[i], js[i]);
      ConvertAllAt(F64, F32, Moved(xs, js), i);
    }
  }

  lemma ConvertAllToItself(f: Format, xs: seq<Float>)
    ensures ConvertAll(f, f, xs) == xs
  {
    forall i | 0 <= i < |xs|
      ensures ConvertAll(f, f, xs)[i] == xs[i]
    {
      ConvertAllAt(f, f, xs, i);
    }
  }

  /** The rule is needed: a pin of single precision is matched by every double vector whose elements are the pinned
      ones widened, each normal one moved by less than 2^28 steps; different moves are different vectors. */
  lemma PrecisionRuleNeeded(sha: Hash, xs: seq<Float>, js: seq<nat>)
    requires |js| == |xs| && forall i :: 0 <= i < |xs| ==> MovesBack(xs[i], js[i])
    ensures ArePatterns(F32, xs) && ArePatterns(F64, Moved(xs, js))
    ensures HashVector(sha, FloatVector(F64, Moved(xs, js)), F32) == HashVector(sha, FloatVector(F32, xs), F32)
    ensures forall ks: seq<nat> :: |ks| == |xs| && Moved(xs, ks) == Moved(xs, js) ==> ks == js
  {
    MovedAllNarrow(xs, js);
    ConvertAllToItself(F32, xs);
    forall ks: seq<nat> | |ks| == |xs| && Moved(xs, ks) == Moved(xs, js)
      ensures ks == js
    {
      SameMoves(xs, ks, js);
    }
  }

  lemma SameMoves(xs: seq<Float>, ks: seq<nat>, js: seq<nat>)
    requires |ks| == |js| == |xs| && Moved(xs, ks) == Moved(xs, js)
    ensures ks == js
  {
    forall i | 0 <= i < |xs|
      ensures ks[i] == js[i]
    {
      assert Moved(xs, ks)[i] == Moved(xs, js)[i];
    }
  }

  // ---- vectors read from a store ----

  /** What a client hands over: an array, or a plain sequence (read as doubles when its elements
      are floats, as integers otherwise). */
  datatype Delivered = Array(nd: Vector) | Plain(read: Vector)

  datatype StoreError = NotExact | NotOneDimensional

  predicate ArrayEqual(f: Format, xs: seq<Float>, ys: seq<Float>) {
    |xs| == |ys| && forall i :: 0 <= i < |xs| ==> NumericEqual(f, xs[i], ys[i])
  }

  /** Casting a one-dimensional array to a float format. */
  function Cast(v: Vector, to: Format): Vector {
    match v
    case FloatVector(from, xs) =>
      ConvertAllPatterns(from, to, xs);
      FloatVector(to, ConvertAll(from, to, xs))
    case IntVector(ns) => FloatVector(to, FromInts(to, ns))
    case Shaped(n) => v
  }

  function OneDimensional(v: Vector): Result<Vector, StoreError> {
    if v.Shaped? then Err(NotOneDimensional) else Ok(v)
  }

  /** `vector_from_store`. */
  function VectorFromStore(values: Delivered, native: Option<Format>): Result<Vector, StoreError> {
    match native
    case None =>
      OneDimensional(if values.Array? then values.nd else Cast(values.read, F64))
    case Some(target) =>
      var arr: Vector := if values.Array? then values.nd else values.read;
      if !arr.FloatVector? then OneDimensional(Cast(arr, target))
      else if arr.format == target then OneDimensional(arr)
      else if ItemSize(arr.format) > ItemSize(target) then
        var narrowed: Vector := Cast(arr, target);
        var back := ConvertAll(target, arr.format, narrowed.floats);
        if ArrayEqual(arr.format, back, arr.floats) then OneDimensional(narrowed) else Err(NotExact)
      else OneDimensional(Cast(arr, target))
  }

  /** Every element is a number the narrow format holds. */
  ghost predicate AllRepresentable(wide: Format, narrow: Format, xs: seq<Float>) {
    forall i :: 0 <= i < |xs| ==> exists y: Float :: y.mag <= Infinity(narrow) && Convert(narrow, wide, y) == xs[i]
  }

  /** On input wider than the declared format the result is exact or refused: it is returned exactly
      when every element is the widening of some number of the declared format, and then widening
      the result gives back the delivered bits. */
  lemma NarrowedExactlyOrRefused(values: Delivered, target: Format)
    requires var arr: Vector := if values.Array? then values.nd else values.read;
             arr.FloatVector? && Narrower(target, arr.format)
    ensures var arr: Vector := if values.Array? then values.nd else values.read;
            var r := VectorFromStore(values, Some(target));
            && (r.Ok? <==> AllRepresentable(arr.format, target, arr.floats))
            && (r.Ok? ==> r.value.FloatVector? && r.value.format == target
                          && ConvertAll(target, arr.format, r.value.floats) == arr.floats)
  {
    var arr: Vector := if values.Array? then values.nd else values.read;
    var wide, xs := arr.format, arr.floats;
    var ys := ConvertAll(wide, target, xs);
    var back := ConvertAll(target, wide, ys);
    forall i | 0 <= i < |xs|
      ensures back[i] == Convert(target, wide, Convert(wide, target, xs[i]))
      ensures NumericEqual(wide, back[i], xs[i])
              <==> exists y: Float :: y.mag <= Infinity(target) && Convert(target, wide, y) == xs[i]
      ensures NumericEqual(wide, back[i], xs[i]) ==> back[i] == xs[i]
    {
      ConvertAllAt(wide, target, xs, i);
      ConvertAllAt(target, wide, ys, i);
      RoundTripsIffRepresentable(wide, target, xs[i]);
    }
    assert ArrayEqual(wide, back, xs) <==> AllRepresentable(wide, target, xs);
    if ArrayEqual(wide, back, xs) {
      assert back == xs;
    }
  }

  /** Reading a store loses nothing: two finite arrays of one format that come out alike are the same
      bit for bit, whatever native format is declared. */
  lemma StoreReadInjective(u: Vector, v: Vector, native: Option<Format>)
    requires u.FloatVector? && v.FloatVector? && u.format == v.format
    requires AllFinite(u.format, u.floats) && AllFinite(v.format, v.floats)
    requires VectorFromStore(Array(u), native).Ok?
    requires VectorFromStore(Array(u), native) == VectorFromStore(Array(v), native)
    ensures u == v
  {
    if native.Some? && native.value != u.format {
      if Narrower(native.value, u.format) {
        NarrowedExactlyOrRefused(Array(u), native.value);
        NarrowedExactlyOrRefused(Array(v), native.value);
      } else {
        if !Narrower(u.format, native.value) {
          SameWidthSameFormat(u.format, native.value);
        }
        WidenAllInjective(u.format, native.value, u.floats, v.floats);
      }
    }
  }

  /** What a store's reading gives: the array itself where the format is the declared one or none is declared, else
      its conversion, narrowed only exactly; a plain sequence without a declared format as doubles. */
  lemma StoreReadMeans(values: Delivered, native: Option<Format>)
    ensures var given: Vector := if values.Array? then values.nd else values.read;
            var r := VectorFromStore(values, native);
            if given.Shaped? then r == Err(NotOneDimensional)
            else if native.None? && values.Array? then r == Ok(given)
            else if native.None? then r.Ok? && IsCastTo(F64, given, r.value)
            else
              && (r.Ok? ==> IsCastTo(native.value, given, r.value))
              && (r.Err? <==>
                    given.FloatVector? && Narrower(native.value, given.format)
                    && !AllRepresentable(given.format, native.value, given.floats))
              && (r.Err? ==> r == Err(NotExact))
  {
    var given: Vector := if values.Array? then values.nd else values.read;
    if !given.Shaped? {
      if native.Some? && given.FloatVector? && Narrower(native.value, given.format) {
        NarrowedExactlyOrRefused(values, native.value);
      }
      CastIsCast(given, if native.None? then F64 else native.value);
      if given.FloatVector? {
        ConvertAllToItself(given.format, given.floats);
      }
    }
  }

  /** A vector of the format with one element for each given one, the conversion of a float or an integer. */
  ghost predicate IsCastTo(to: Format, v: Vector, r: Vector) {
    && r.FloatVector? && r.format == to
    && match v
       case FloatVector(from, xs) =>
         |r.floats| == |xs| && forall i :: 0 <= i < |xs| ==> r.floats[i] == Convert(from, to, xs[i])
       case IntVector(ns) => |r.floats| == |ns| && forall i :: 0 <= i < |ns| ==> r.floats[i] == FromInt(to, ns[i])
       case Shaped(_) => false
  }

  lemma CastIsCast(v: Vector, to: Format)
    requires !v.Shaped?
    ensures IsCastTo(to, v, Cast(v, to))
  {
    if v.FloatVector? {
      forall i | 0 <= i < |v.floats|
        ensures ConvertAll(v.format, to, v.floats)[i] == Convert(v.format, to, v.floats[i])
      {
        ConvertAllAt(v.format, to, v.floats, i);
      }
    } else {
      forall i | 0 <= i < |v.ints|
        ensures FromInts(to, v.ints)[i] == FromInt(to, v.ints[i])
      {
        FromIntsAt(to, v.ints, i);
      }
    }
  }

  /** A reader of the canonical bytes finds the conversion of each element, in order and nothing else; only arrays that
      are not one-dimensional have none. */
  lemma CanonicalBytesMean(v: Vector, to: Format)
    ensures CanonicalVectorBytes(v, to).None? <==> v.Shaped?
    ensures !v.Shaped? ==>
              var b := CanonicalVectorBytes(v, to).value;
              && ArePatterns(to, Unpack(to, b)) && |b| == Length(v).value * ItemSize(to)
              && IsCastTo(to, v, FloatVector(to, Unpack(to, b)))
  {
    if !v.Shaped? {
      var cast: Vector := Cast(v, to);
      CastIsCast(v, to);
      UnpackPack(to, cast.floats);
      PackLength(to, cast.floats);
    }
  }

  /** Which arrays have a dtype of their own, and which one. */
  lemma NativeFormatMeans(v: Vector)
    ensures NativeFormat(v) == Some(F32) <==> v.FloatVector? && (v.format == F16 || v.format == F32)
    ensures NativeFormat(v) == Some(F64) <==> v.FloatVector? && v.format == F64
    ensures NativeFormat(v) == None <==> !v.FloatVector? || v.format == F128
  {
  }

  /** Which arrays a pinned dtype carries without loss. */
  lemma NotWiderMeans(v: Vector)
    ensures !IsWiderThan(v, F32) <==> v.FloatVector? && (v.format == F16 || v.format == F32)
    ensures !IsWiderThan(v, F64) <==> v.FloatVector? && (v.format == F16 || v.format == F32 || v.format == F64)
  {
  }

  // ---- integers ----

  /** No magnitude has a value nearer to `v`, and one just as near loses only to an even one. */
  ghost predicate IsNearest(f: Format, v: nat, mag: nat) {
    forall k: nat ::
      && Distance(Value(f, mag), v) <= Distance(Value(f, k), v)
      && (k != mag && Distance(Value(f, mag), v) == Distance(Value(f, k), v) ==> mag % 2 == 0)
  }

  /** The value of 1.0. */
  function One(f: Format): nat {
    Value(f, Bias(f) * HiddenBit(f))
  }

  lemma FromOne(f: Format)
    ensures FromInt(f, 1) == Float(false, Bias(f) * HiddenBit(f))
  {
    RoundExact(HiddenBit(f), Base(f), Bias(f) * HiddenBit(f));
    MulStrict(Bias(f), MaxExponent(f), HiddenBit(f));
  }

  /** How many fraction bits the format has. */
  function FractionBits(f: Format): nat {
    match f case F16 => 10 case F32 => 23 case F64 => 52 case F128 => 112
  }

  lemma Power10()
    ensures Pow2(10) == 0x400
  {
  }

  lemma Power20()
    ensures Pow2(20) == 0x10_0000
  {
    Power10();
    Pow2Add(10, 10);
  }

  lemma Power23()
    ensures Pow2(23) == 0x80_0000
  {
    Power20();
    Pow2Add(20, 3);
    assert Pow2(3) == 8;
  }

  lemma Power52()
    ensures Pow2(52) == 0x10_0000_0000_0000
  {
    Power20();
    Power10();
    Pow2Add(20, 20);
    Pow2Add(10, 2);
    Pow2Add(40, 12);
    assert Pow2(2) == 4;
  }

  lemma Power112()
    ensures Pow2(112) == 0x1_0000_0000_0000_0000_0000_0000_0000
  {
    Power52();
    Pow2Add(52, 52);
    Pow2Add(104, 8);
    assert Pow2(8) == 256;
  }

  lemma HiddenIsPower(f: Format)
    ensures HiddenBit(f) == Pow2(FractionBits(f))
  {
    Power10();
    Power23();
    Power52();
    Power112();
  }

  lemma PowerOfUnits(h: nat, k: nat, b: nat, e: nat, n: nat)
    requires h == Pow2(k) && e >= 1 && n == k + b + (e - 1)
    ensures Units(h, b, e * h) == Pow2(n)
  {
    PowerUnits(h, b, e);
    Pow2Add(k, b + (e - 1));
  }

  lemma OneIsPower(f: Format, n: nat)
    requires n == FractionBits(f) + Base(f) + (Bias(f) - 1)
    ensures One(f) == Pow2(n)
  {
    HiddenIsPower(f);
    PowerOfUnits(HiddenBit(f), FractionBits(f), Base(f), Bias(f), n);
  }

  /** 1.0 has one value in every format. */
  lemma OneValue(f: Format, g: Format)
    ensures One(f) == One(g)
  {
    var n := FractionBits(f) + Base(f) + (Bias(f) - 1);
    OneIsPower(f, n);
    OneIsPower(g, n);
  }

  /** 1.0 has the patterns 3f800000 and 3ff0000000000000. */
  lemma OneIs()
    ensures FromInt(F32, 1) == Float(false, 0x3F80_0000)
    ensures FromInt(F64, 1) == Float(false, 0x3FF0_0000_0000_0000)
  {
    FromOne(F32);
    FromOne(F64);
    OnePatterns();
  }

  lemma OnePatterns()
    ensures Bias(F32) * HiddenBit(F32) == 0x3F80_0000 && Bias(F64) * HiddenBit(F64) == 0x3FF0_0000_0000_0000
  {
  }

  function Product(a: nat, b: nat): nat {
    MulMonotone(0, a, b);
    a * b
  }

  /** The value of an integer's magnitude. */
  function IntValue(f: Format, n: int): nat {
    Product(if n < 0 then -n else n, One(f))
  }

  /** An integer becomes a nearest number, with its sign, and infinity exactly from the middle above the largest
      finite number on. */
  lemma FromIntMeans(f: Format, n: int)
    ensures FromInt(f, n).neg <==> n < 0
    ensures IsFinite(f, FromInt(f, n)) <==> IsBelowInfinity(f, IntValue(f, n))
    ensures IsFinite(f, FromInt(f, n)) ==> IsNearest(f, IntValue(f, n), FromInt(f, n).mag)
  {
    FromIntRounds(f, n);
    RoundStaysFinite(f, IntValue(f, n));
    RoundNearest(f, IntValue(f, n));
  }

  lemma FromIntRounds(f: Format, n: int)
    ensures FromInt(f, n) == Float(n < 0, Round(f, IntValue(f, n)))
  {
  }

  lemma RoundNearest(f: Format, v: nat)
    ensures Round(f, v) < Infinity(f) ==> IsNearest(f, v, Round(f, v))
  {
    if Round(f, v) < Infinity(f) {
      forall k: nat
        ensures var m := Round(f, v);
                && Distance(Value(f, m), v) <= Distance(Value(f, k), v)
                && (k != m && Distance(Value(f, m), v) == Distance(Value(f, k), v) ==> m % 2 == 0)
      {
        RoundIsNearest(HiddenBit(f), Base(f), v, k);
      }
    }
  }

  lemma {:induction false} FromIntsAt(f: Format, ns: seq<int>, i: nat)
    requires i < |ns|
    ensures FromInts(f, ns)[i] == FromInt(f, ns[i])
  {
    if i > 0 {
      FromIntsAt(f, ns[1..], i - 1);
    }
  }

  /** The native dtype never rounds: an array is not wider than it, and distinct finite arrays of one
      format stay distinct in it. */
  lemma NativeNeverRounds(u: Vector, v: Vector)
    requires NativeFormat(u).Some? && v.FloatVector? && v.format == u.format
    requires AllFinite(u.format, u.floats) && AllFinite(v.format, v.floats)
    ensures !IsWiderThan(u, NativeFormat(u).value)
    ensures var to := NativeFormat(u).value;
            ConvertAll(u.format, to, u.floats) == ConvertAll(v.format, to, v.floats) ==> u == v
  {
    var to := NativeFormat(u).value;
    if ItemSize(u.format) == ItemSize(to) {
      SameWidthSameFormat(u.format, to);
    }
    if ConvertAll(u.format, to, u.floats) == ConvertAll(v.format, to, v.floats) {
      WidenAllInjective(u.format, to, u.floats, v.floats);
    }
  }

  // ---- the ports' byte writers ----

  /** `f32_le_bytes` and `f64_le_bytes` of the Rust port. */
  method LeBytes(f: Format, xs: seq<Float>) returns (out: Bytes)
    ensures out == Pack(f, xs)
  {
    out := [];
    var i := 0;
    assert xs[0..] == xs;
    while i < |xs|
      invariant 0 <= i <= |xs|
      invariant out + Pack(f, xs[i..]) == Pack(f, xs)
    {
      var bytes := LittleEndian(Pattern(f, xs[i]), ItemSize(f));
      assert xs[i..][1..] == xs[i + 1..];
      Assoc(out, bytes, Pack(f, xs[i + 1..]));
      out := out + bytes;
      i := i + 1;
    }
  }

  /** The two scalar types of a Rust slice and of a header's `vec_dtype`. */
  type VecDtype = f: Format | f == F32 || f == F64 witness F32

  /** `VectorRef`: a borrowed slice of one of the two scalar types. */
  datatype VectorRef = F32Slice(singles: seq<Float>) | F64Slice(doubles: seq<Float>)

  /** `VectorRef::native_dtype`. */
  function NativeDtype(v: VectorRef): VecDtype {
    match v case F32Slice(_) => F32 case F64Slice(_) => F64
  }

  function Scalars(v: VectorRef): seq<Float> {
    match v case F32Slice(xs) => xs case F64Slice(xs) => xs
  }

  /** `v.iter().map(|&x| x as ..).collect()`. */
  method CastSlice(from: Format, to: Format, xs: seq<Float>) returns (ys: seq<Float>)
    ensures ys == ConvertAll(from, to, xs)
  {
    ys := [];
    var i := 0;
    while i < |xs|
      invariant 0 <= i <= |xs| && ys == ConvertAll(from, to, xs[..i])
    {
      ConvertAllSnoc(from, to, xs[..i], xs[i]);
      assert xs[..i + 1] == xs[..i] + [xs[i]];
      ys := ys + [Convert(from, to, xs[i])];
      i := i + 1;
    }
    assert xs[..i] == xs;
  }

  lemma {:induction false} ConvertSame(f: Format, xs: seq<Float>)
    ensures ConvertAll(f, f, xs) == xs
  {
    if xs != [] {
      ConvertSame(f, xs[1..]);
    }
  }

  /** `canonical_vector_bytes` of the Rust port, with its four pairs of slice type and dtype. A reader
      of the bytes finds one element per scalar: the scalar itself when the dtype is the slice's own,
      else its conversion. The bytes are the ones Python makes of the same array. */
  method CanonicalBytesRust(v: VectorRef, dtype: VecDtype) returns (out: Bytes)
    requires ArePatterns(NativeDtype(v), Scalars(v))
    ensures |out| == |Scalars(v)| * ItemSize(dtype) && |Unpack(dtype, out)| == |Scalars(v)|
    ensures forall i :: 0 <= i < |Scalars(v)| ==>
              Unpack(dtype, out)[i] == Convert(NativeDtype(v), dtype, Scalars(v)[i])
    ensures dtype == NativeDtype(v) ==> Unpack(dtype, out) == Scalars(v)
    ensures Some(out) == CanonicalVectorBytes(FloatVector(NativeDtype(v), Scalars(v)), dtype)
  {
    ConvertSame(dtype, Scalars(v));
    UnpackConverted(NativeDtype(v), dtype, Scalars(v));
    match (v, dtype) {
      case (F32Slice(xs), F32) =>
        out := LeBytes(F32, xs);
      case (F64Slice(xs), F32) =>
        var casted := CastSlice(F64, F32, xs);
        out := LeBytes(F32, casted);
      case (F32Slice(xs), F64) =>
        var casted := CastSlice(F32, F64, xs);
        out := LeBytes(F64, casted);
      case (F64Slice(xs), F64) =>
        out := LeBytes(F64, xs);
    }
  }

  /** What a reader finds in packed conversions. */
  lemma UnpackConverted(from: Format, to: Format, xs: seq<Float>)
    requires ArePatterns(from, xs)
    ensures var b := Pack(to, ConvertAll(from, to, xs));
            && |b| == |xs| * ItemSize(to) && |Unpack(to, b)| == |xs|
            && forall i :: 0 <= i < |xs| ==> Unpack(to, b)[i] == Convert(from, to, xs[i])
  {
    var ys := ConvertAll(from, to, xs);
    PackLength(to, ys);
    ConvertAllPatterns(from, to, xs);
    UnpackPack(to, ys);
    forall i | 0 <= i < |xs|
      ensures ys[i] == Convert(from, to, xs[i])
    {
      ConvertAllAt(from, to, xs, i);
    }
  }

  /** `DataView.setFloat32` and `setFloat64`, little-endian. */
  method SetFloat(out: array<Byte>, at: nat, f: Format, x: Float)
    requires at + ItemSize(f) <= out.Length
    modifies out
    ensures out[..at + ItemSize(f)] == old(out[..at]) + LittleEndian(Pattern(f, x), ItemSize(f))
  {
    var bytes := LittleEndian(Pattern(f, x), ItemSize(f));
    var j := 0;
    while j < ItemSize(f)
      invariant 0 <= j <= ItemSize(f)
      invariant forall k :: 0 <= k < out.Length ==> out[k] == if at <= k < at + j then bytes[k - at] else old(out[k])
    {
      out[at + j] := bytes[j];
      j := j + 1;
    }
  }

  /** `canonicalVectorBytes` of the TypeScript port; an empty vector throws. */
  method CanonicalBytesTs(from: Format, xs: seq<Float>, to: Format) returns (r: Option<Bytes>)
    requires ArePatterns(from, xs)
    ensures r == if xs == [] then None else CanonicalVectorBytes(FloatVector(from, xs), to)
    ensures r.Some? ==> |Unpack(to, r.value)| == |xs|
                        && forall i :: 0 <= i < |xs| ==> Unpack(to, r.value)[i] == Convert(from, to, xs[i])
  {
    if |xs| == 0 {
      return None;
    }
    var out := new Byte[|xs| * ItemSize(to)](_ => 0);
    WriteElements(out, from, to, xs);
    UnpackConverted(from, to, xs);
    r := Some(out[..]);
  }

  /** The loop over the elements. */
  method WriteElements(out: array<Byte>, from: Format, to: Format, xs: seq<Float>)
    requires out.Length == |xs| * ItemSize(to)
    modifies out
    ensures out[..] == Pack(to, ConvertAll(from, to, xs))
  {
    var i, at := 0, 0;
    while i < |xs|
      invariant 0 <= i <= |xs| && 0 <= at <= out.Length
      invariant out[..at] == Written(from, to, xs, i)
    {
      at := WriteElement(out, at, from, to, xs, i);
      i := i + 1;
    }
    PackDone(from, to, xs, out.Length);
    assert out[..at] == out[..];
  }

  method WriteElement(out: array<Byte>, at: nat, from: Format, to: Format, xs: seq<Float>, i: nat) returns (next: nat)
    requires i < |xs| && at <= out.Length == |xs| * ItemSize(to) && out[..at] == Written(from, to, xs, i)
    modifies out
    ensures next <= out.Length && out[..next] == Written(from, to, xs, i + 1)
  {
    PackStep(from, to, xs, i, out.Length);
    SetFloat(out, at, to, Convert(from, to, xs[i]));
    next := at + ItemSize(to);
  }

  /** The bytes of the first `i` elements. */
  function Written(from: Format, to: Format, xs: seq<Float>, i: nat): Bytes
    requires i <= |xs|
  {
    Pack(to, ConvertAll(from, to, xs[..i]))
  }

  lemma PackDone(from: Format, to: Format, xs: seq<Float>, size: nat)
    requires size == |xs| * ItemSize(to)
    ensures Written(from, to, xs, |xs|) == Pack(to, ConvertAll(from, to, xs))
    ensures |Written(from, to, xs, |xs|)| == size
  {
    assert xs[..|xs|] == xs;
    PackLength(to, ConvertAll(from, to, xs));
  }

  lemma PackStep(from: Format, to: Format, xs: seq<Float>, i: nat, size: nat)
    requires i < |xs| && size == |xs| * ItemSize(to)
    ensures Written(from, to, xs, i + 1)
         == Written(from, to, xs, i) + LittleEndian(Pattern(to, Convert(from, to, xs[i])), ItemSize(to))
    ensures |Written(from, to, xs, i)| + ItemSize(to) <= size
  {
    MulStrict(i, |xs|, ItemSize(to));
    PackLength(to, ConvertAll(from, to, xs[..i]));
    assert xs[..i + 1] == xs[..i] + [xs[i]];
    ConvertAllSnoc(from, to, xs[..i], xs[i]);
    PackSnoc(to, ConvertAll(from, to, xs[..i]), Convert(from, to, xs[i]));
  }

  lemma {:induction false} ConvertAllSnoc(from: Format, to: Format, xs: seq<Float>, x: Float)
    ensures ConvertAll(from, to, xs + [x]) == ConvertAll(from, to, xs) + [Convert(from, to, x)]
  {
    if xs != [] {
      ConvertAllSnoc(from, to, xs[1..], x);
      assert (xs + [x])[1..] == xs[1..] + [x];
    }
  }

  lemma {:induction false} PackSnoc(f: Format, xs: seq<Float>, x: Float)
    ensures Pack(f, xs + [x]) == Pack(f, xs) + LittleEndian(Pattern(f, x), ItemSize(f))
  {
    if xs != [] {
      PackSnoc(f, xs[1..], x);
      assert (xs + [x])[1..] == xs[1..] + [x];
      Assoc(LittleEndian(Pattern(f, xs[0]), ItemSize(f)), Pack(f, xs[1..]), LittleEndian(Pattern(f, x), ItemSize(f)));
    }
  }
}
