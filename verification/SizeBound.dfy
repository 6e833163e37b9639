/** When `Msgsize` (gen/size.go) bounds what `MarshalMsg` appends, and what `MarshalMsg` gains
    from it: after its `Require` no append reallocates. */
module SizeBound {
  import opened Wire
  import opened TypeTree
  import opened SizeGen
  import opened Inhabitation
  import SizeValue
  import G = MarshalGen
  import A = Append
  import V = Encoding

  // ---- Dynamic values ----------------------------------------------------------------------

  /** Every slice in the value encodes into the 512 bytes `GuessSize` allows for it. */
  ghost predicate Guessed(v: V.Value)
    decreases v, 1
  {
    match v
    case Arr(_) => |V.Enc(v, V.Slice)| <= 512
    case Map(es) => EntriesGuessed(es)
    case _ => true
  }

  ghost predicate EntriesGuessed(es: seq<V.Entry>)
    decreases es, 0
  {
    es != [] ==> Guessed(es[0].val) && EntriesGuessed(es[1..])
  }

  /** `GuessSize` bounds the encoding of every dynamic value but oversized slices. */
  lemma {:induction false} GuessCovers(v: V.Value)
    requires Guessed(v)
    ensures |V.Enc(v, V.Slice)| <= GuessSize(v)
    decreases v, 1
  {
    hide V.EncInt, V.EncUint, V.EncExtHeader, V.EncBinHeader, V.EncStrHeader, V.EncMapHeader, V.EncAll;
    hide BE32, BE64;
    match v
    case Int(i) => IntWithin(i);
    case Uint(u) => UintWithin(u);
    case Map(es) => EntriesGuessCovers(es);
    case _ =>
  }

  lemma {:induction false} EntriesGuessCovers(es: seq<V.Entry>)
    requires EntriesGuessed(es)
    ensures |V.EncEntries(es, V.Slice)| <= GuessEntries(es)
    decreases es, 0
  {
    hide V.Enc, GuessSize, Guessed, V.EncStrHeader;
    if es != [] {
      GuessCovers(es[0].val);
      EntriesGuessCovers(es[1..]);
    }
  }

  /** The guess for a value without parts is the longest encoding of its kind: that of the
      extreme number, and the longest header in front of the same data. */
  lemma GuessIsLongest(v: V.Value)
    requires !v.Arr? && !v.Map? && !v.Time?
    ensures GuessSize(v) ==
      match v
      case Int(_) => |V.Enc(V.Int(-0x8000_0000_0000_0000), V.Slice)|
      case Uint(_) => |V.Enc(V.Uint(0xffff_ffff_ffff_ffff), V.Slice)|
      case Str(s) => |V.EncStrHeader(0xffff_ffff)| + |s|
      case Bin(d) => |V.EncBinHeader(0xffff_ffff)| + |d|
      case Ext(typ, d) => |V.EncExtHeader(typ, 0xffff_ffff, V.Slice)| + |d|
      case _ => |V.Enc(v, V.Slice)|
  {
    hide BE32, BE64;
  }

  /** Somewhere inside, a slice or a time, which `GuessSize` does not look into. */
  predicate Guessed512(v: V.Value)
    decreases v, 1
  {
    v.Arr? || v.Time? || (v.Map? && EntryGuessed512(v.entries))
  }

  predicate EntryGuessed512(es: seq<V.Entry>)
    decreases es, 0
  {
    es != [] && (Guessed512(es[0].val) || EntryGuessed512(es[1..]))
  }

  /** Otherwise the guess is at most nine times the encoding, and nine times that of a small number. */
  lemma {:induction false} GuessNineTimes(v: V.Value)
    requires !Guessed512(v)
    ensures GuessSize(v) <= 9 * |V.Enc(v, V.Slice)|
    ensures v == V.Int(0) ==> GuessSize(v) == 9 * |V.Enc(v, V.Slice)|
    decreases v, 1
  {
    hide V.EncUint, V.EncExtHeader, V.EncBinHeader, V.EncStrHeader, V.EncMapHeader, BE16, BE32, BE64;
    match v
    case Uint(u) => assert |V.EncUint(u)| >= 1 by { UintLead(u); }
    case Map(es) => EntriesNineTimes(es);
    case _ =>
  }

  lemma UintLead(u: uint64)
    ensures |V.EncUint(u)| >= 1
  {
  }

  lemma {:induction false} EntriesNineTimes(es: seq<V.Entry>)
    requires !EntryGuessed512(es)
    ensures GuessEntries(es) <= 9 * |V.EncEntries(es, V.Slice)|
    decreases es, 0
  {
    hide V.Enc, GuessSize, Guessed512, V.EncStrHeader;
    if es != [] {
      GuessNineTimes(es[0].val);
      EntriesNineTimes(es[1..]);
    }
  }

  /** The two kinds that are guessed at 512 bytes, whatever they hold. */
  lemma FlatGuesses(v: V.Value)
    requires v.Arr? || v.Time?
    ensures GuessSize(v) == 512 && (v.Time? ==> |V.Enc(v, V.Slice)| == 15)
  {
  }

  lemma IntWithin(i: int64)
    ensures |V.EncInt(i)| <= 9
    ensures -TWO_31 <= i < TWO_31 ==> |V.EncInt(i)| <= 5
    ensures -0x8000 <= i < 0x8000 ==> |V.EncInt(i)| <= 3
    ensures -0x80 <= i < 0x80 ==> |V.EncInt(i)| <= 2
  {
    hide BE16, BE32, BE64;
  }

  lemma UintWithin(u: uint64)
    ensures |V.EncUint(u)| <= 9
    ensures u < TWO_32 ==> |V.EncUint(u)| <= 5
    ensures u < TWO_16 ==> |V.EncUint(u)| <= 3
    ensures u < 0x100 ==> |V.EncUint(u)| <= 2
  {
    hide BE16, BE32, BE64;
  }

  // ---- Types of fixed size -------------------------------------------------------------------

  /** The longest encoding of any value of a fixed-size type. */
  function Worst(e: Elem): nat
    decreases e, 1
  {
    match e
    case Base(p, _, _) => PrimSize(p)
    case Array(n, y) =>
      if IsByteArray(y, V.Slice) then |V.EncBinHeader(n)| + n else |V.EncArrayHeader(n % TWO_32)| + n * Worst(y)
    case Struct(fs, tup) => |StructHeader(|fs|, tup)| + WorstFields(fs, tup)
    case _ => 0
  }

  function WorstFields(fs: seq<Field>, tup: bool): nat
    decreases fs, 0
  {
    if fs == [] then 0 else |FieldTag(fs[0], tup)| + Worst(fs[0].elem) + WorstFields(fs[1..], tup)
  }

  lemma PrimWithin(p: Prim, x: V.Value)
    requires IsFixed(p) && PrimOk(p, x)
    ensures |V.Enc(x, V.Slice)| <= PrimSize(p)
  {
    hide V.EncInt, V.EncUint, BE32, BE64;
    if x.Int? { IntWithin(x.i); }
    if x.Uint? { UintWithin(x.u); }
  }

  /** No value of a fixed-size type encodes longer than `Worst` says. */
  lemma {:induction false} WithinWorst(env: Env, e: Elem, v: GoVal)
    requires FixedExpr(e).Expr? && HasType(env, e, v)
    ensures |EncGo(env, e, v, V.Slice)| <= Worst(e)
    decreases v, 1
  {
    hide V.Enc, V.EncArrayHeader, V.EncBinHeader, PrimSize, PrimOk, StructHeader, EncGoAll, EncGoFields;
    match e
    case Base(p, _, _) => PrimWithin(p, v.v);
    case Array(n, y) =>
      if !IsByteArray(y, V.Slice) {
        AllWithinWorst(env, y, v.els);
      }
    case Struct(fs, tup) =>
      assert fs[0..] == fs;
      FieldsWithinWorst(env, fs, v.fields, 0, tup);
    case _ =>
  }

  lemma {:induction false} AllWithinWorst(env: Env, y: Elem, vs: seq<GoVal>)
    requires FixedExpr(y).Expr? && AllTyped(env, y, vs)
    ensures |EncGoAll(env, y, vs, V.Slice)| <= |vs| * Worst(y)
    decreases vs, 2
  {
    hide EncGo, HasType, Worst, FixedExpr;
    if vs != [] {
      WithinWorst(env, y, vs[0]);
      AllWithinWorst(env, y, vs[1..]);
      assert |vs| * Worst(y) == Worst(y) + |vs[1..]| * Worst(y);
    }
  }

  lemma {:induction false} FieldsWithinWorst(env: Env, fs: seq<Field>, vs: seq<GoVal>, i: nat, tup: bool)
    requires i <= |fs| == |vs| && FixedFields(fs[i..]).Expr? && FieldsTyped(env, fs, vs)
    ensures |EncGoFields(env, fs, vs, i, tup, V.Slice)| <= WorstFields(fs[i..], tup)
    decreases vs, 3, |vs| - i
  {
    hide EncGo, HasType, Worst, FixedExpr, FieldTag, V.EncStr;
    if i < |fs| {
      assert fs[i..][1..] == fs[i + 1..];
      WithinWorst(env, fs[i].elem, vs[i]);
      FieldsWithinWorst(env, fs, vs, i + 1, tup);
    }
  }

  /** Lengths that the wire format can express; without them a type has no value in scope. */
  ghost predicate Sized(e: Elem)
    decreases e, 1
  {
    match e
    case Array(n, y) => n < TWO_32 && Sized(y)
    case Struct(fs, _) => |fs| < TWO_32 && FieldsSized(fs)
    case _ => true
  }

  ghost predicate FieldsSized(fs: seq<Field>)
    decreases fs, 0
  {
    fs != [] ==> |fs[0].tag| < TWO_32 && Sized(fs[0].elem) && FieldsSized(fs[1..])
  }

  function LongestScalar(p: Prim): V.Value {
    match p
    case PInt8 => V.Int(-0x80)
    case PInt16 => V.Int(-0x8000)
    case PInt32 => V.Int(-TWO_31)
    case PInt => V.Int(-TWO_63)
    case PInt64 => V.Int(-TWO_63)
    case PUint8 => V.Uint(0xff)
    case PByte => V.Uint(0xff)
    case PUint16 => V.Uint(TWO_16 - 1)
    case PUint32 => V.Uint(TWO_32 - 1)
    case PUint => V.Uint(TWO_64 - 1)
    case PUint64 => V.Uint(TWO_64 - 1)
    case PFloat32 => V.Float32(0)
    case PFloat64 => V.Float64(0)
    case PComplex64 => V.Complex64(0, 0)
    case PComplex128 => V.Complex128(0, 0)
    case PTime => V.Time(0, 0)
    case _ => V.Bool(true)
  }

  /** A value of a fixed-size type with the longest encoding. */
  function Longest(e: Elem): GoVal
    decreases e, 1
  {
    match e
    case Base(p, _, _) => Scalar(LongestScalar(p))
    case Array(n, y) => var w := Longest(y); Arr(Copies(n, w))
    case Struct(fs, _) => Rec(LongestFields(fs))
    case _ => Zero
  }

  function LongestFields(fs: seq<Field>): (vs: seq<GoVal>)
    ensures |vs| == |fs|
    decreases fs, 0
  {
    if fs == [] then [] else [Longest(fs[0].elem)] + LongestFields(fs[1..])
  }

  lemma LongestScalarAttains(p: Prim)
    requires IsFixed(p)
    ensures PrimOk(p, LongestScalar(p)) && |V.Enc(LongestScalar(p), V.Slice)| == PrimSize(p)
  {
    hide BE16, BE32, BE64;
  }

  /** `Worst` is attained: it is the exact maximum. */
  lemma {:induction false} LongestAttains(env: Env, e: Elem)
    requires FixedExpr(e).Expr? && Sized(e)
    ensures HasType(env, e, Longest(e)) && |EncGo(env, e, Longest(e), V.Slice)| == Worst(e)
    decreases e, 1
  {
    hide V.Enc, V.EncArrayHeader, V.EncBinHeader, PrimSize, PrimOk, LongestScalar, StructHeader, EncGoAll, EncGoFields;
    match e
    case Base(p, _, _) => LongestScalarAttains(p);
    case Array(n, y) =>
      LongestAttains(env, y);
      CopiesAttain(env, y, n);
    case Struct(fs, tup) =>
      assert fs[0..] == fs;
      FieldsAttain(env, fs, LongestFields(fs), 0, tup);
    case _ =>
  }

  lemma {:induction false} CopiesAttain(env: Env, y: Elem, n: nat)
    ensures |EncGoAll(env, y, Copies(n, Longest(y)), V.Slice)| == n * |EncGo(env, y, Longest(y), V.Slice)|
  {
    hide EncGo, Longest;
    if n > 0 {
      assert Copies(n, Longest(y))[1..] == Copies(n - 1, Longest(y));
      CopiesAttain(env, y, n - 1);
      assert n * |EncGo(env, y, Longest(y), V.Slice)|
          == |EncGo(env, y, Longest(y), V.Slice)| + (n - 1) * |EncGo(env, y, Longest(y), V.Slice)|;
    }
  }

  lemma {:induction false} FieldsAttain(env: Env, fs: seq<Field>, vs: seq<GoVal>, i: nat, tup: bool)
    requires i <= |fs| == |vs| && FixedFields(fs[i..]).Expr? && FieldsSized(fs[i..])
    requires vs[i..] == LongestFields(fs[i..])
    ensures |EncGoFields(env, fs, vs, i, tup, V.Slice)| == WorstFields(fs[i..], tup)
    ensures forall j :: i <= j < |vs| ==> |fs[j].tag| < TWO_32 && HasType(env, fs[j].elem, vs[j])
    decreases fs[i..], 0
  {
    hide EncGo, HasType, Worst, FixedExpr, FieldTag, V.EncStr, Longest;
    if i < |fs| {
      assert fs[i..][1..] == fs[i + 1..] && vs[i..][1..] == vs[i + 1..];
      assert vs[i] == vs[i..][0] == Longest(fs[i].elem);
      LongestAttains(env, fs[i].elem);
      FieldsAttain(env, fs, vs, i + 1, tup);
    }
  }

  // ---- Where a fixed-size expression is a bound -------------------------------------------------

  lemma ScaleUp(k: nat, a: nat, b: nat)
    requires a <= b
    ensures k * a <= k * b
  {
  }

  /** The size of one value of type `e` bounds its encoding. */
  ghost predicate Bounds(env: Env, e: Elem, v: GoVal) {
    |EncGo(env, e, v, V.Slice)| <= SizeOf(env, e, v)
  }

  lemma FixedSliceBounds(env: Env, y: Elem, v: GoVal)
    requires FixedExpr(y).Expr? && Worst(y) <= FixedExpr(y).size && HasType(env, Slice(y), v)
    ensures Bounds(env, Slice(y), v)
  {
    hide FixedExpr, Worst, V.EncArrayHeader;
    AllWithinWorst(env, y, v.els);
    ScaleUp(|v.els|, Worst(y), FixedExpr(y).size);
  }

  lemma FixedArrayBounds(env: Env, e: Elem, v: GoVal)
    requires e.Array? && FixedExpr(e).Expr? && Worst(e) <= 5 + FixedExpr(e).size && HasType(env, e, v)
    ensures Bounds(env, e, v)
  {
    hide FixedExpr, Worst, EncGo;
    WithinWorst(env, e, v);
  }

  /** For slices of fixed-size elements the size is a bound for every value exactly when the
      element's expression covers its longest encoding. */
  lemma SliceBoundExactly(env: Env, y: Elem)
    requires FixedExpr(y).Expr? && Sized(y)
    ensures (forall v :: HasType(env, Slice(y), v) ==> Bounds(env, Slice(y), v)) <==> Worst(y) <= FixedExpr(y).size
  {
    hide HasType, Bounds, Worst, FixedExpr, Sized;
    if Worst(y) <= FixedExpr(y).size {
      forall v | HasType(env, Slice(y), v) ensures Bounds(env, Slice(y), v) { FixedSliceBounds(env, y, v); }
    } else {
      LongSliceOutgrows(env, y);
    }
  }

  lemma LongSliceOutgrows(env: Env, y: Elem)
    requires FixedExpr(y).Expr? && Sized(y) && Worst(y) > FixedExpr(y).size
    ensures var v := Sl(Copies(5, Longest(y)), []); HasType(env, Slice(y), v) && !Bounds(env, Slice(y), v)
  {
    hide Worst, FixedExpr, Longest, Sized, EncGoAll;
    LongestAttains(env, y);
    CopiesAttain(env, y, 5);
  }

  /** For arrays that `fixedSizeExpr` handles, likewise. */
  lemma ArrayBoundExactly(env: Env, e: Elem)
    requires e.Array? && FixedExpr(e).Expr? && Sized(e)
    ensures (forall v :: HasType(env, e, v) ==> Bounds(env, e, v)) <==> Worst(e) <= 5 + FixedExpr(e).size
  {
    hide HasType, Worst, FixedExpr, Sized, EncGo, Longest;
    LongestAttains(env, e);
    LongestArray(e);
    if Worst(e) <= 5 + FixedExpr(e).size {
      forall v | HasType(env, e, v) ensures Bounds(env, e, v) { FixedArrayBounds(env, e, v); }
    } else {
      assert !Bounds(env, e, Longest(e));
    }
  }

  lemma LongestArray(e: Elem)
    requires e.Array?
    ensures Longest(e).Arr?
  {
  }

  /** A fixed-size type without arrays: scalars and structs of them. */
  ghost predicate ArrayFree(e: Elem)
    decreases e, 1
  {
    !e.Array? && (e.Struct? ==> FieldsArrayFree(e.fields))
  }

  ghost predicate FieldsArrayFree(fs: seq<Field>)
    decreases fs, 0
  {
    fs != [] ==> ArrayFree(fs[0].elem) && FieldsArrayFree(fs[1..])
  }

  /** The field names of the tuples in the tree, which are never written. */
  function TupleTags(e: Elem): nat
    decreases e, 1
  {
    if e.Struct? then FieldTupleTags(e.fields, e.asTuple) else 0
  }

  function FieldTupleTags(fs: seq<Field>, tup: bool): nat
    decreases fs, 0
  {
    if fs == [] then 0
    else (if tup then |V.EncStr(fs[0].tag)| else 0) + TupleTags(fs[0].elem) + FieldTupleTags(fs[1..], tup)
  }

  /** What such an expression counts in excess of the longest encoding is those names, no more. */
  lemma {:induction false} ArrayFreeExactly(e: Elem)
    requires FixedExpr(e).Expr? && ArrayFree(e)
    ensures FixedExpr(e).size == Worst(e) + TupleTags(e)
    decreases e, 1
  {
    hide PrimSize, FixedFields, WorstFields, FieldTupleTags, V.EncMapHeader, V.EncArrayHeader;
    if e.Struct? {
      HeadersAlike(|e.fields| % TWO_32);
      FieldsArrayFreeExactly(e.fields, e.asTuple);
    }
  }

  lemma HeadersAlike(n: uint32)
    ensures |V.EncMapHeader(n)| == |V.EncArrayHeader(n)|
  {
  }

  lemma {:induction false} FieldsArrayFreeExactly(fs: seq<Field>, tup: bool)
    requires FixedFields(fs).Expr? && FieldsArrayFree(fs)
    ensures FixedFields(fs).size == WorstFields(fs, tup) + FieldTupleTags(fs, tup)
    decreases fs, 0
  {
    hide Worst, FixedExpr, ArrayFree, TupleTags, V.EncStr;
    if fs != [] {
      ArrayFreeExactly(fs[0].elem);
      FieldsArrayFreeExactly(fs[1..], tup);
    }
  }

  /** Expressions of array-free types always cover; tags make up for tuples. */
  lemma ArrayFreeCovers(e: Elem)
    requires FixedExpr(e).Expr? && ArrayFree(e)
    ensures Worst(e) <= FixedExpr(e).size
  {
    ArrayFreeExactly(e);
  }

  /** An array in an array: five one-element arrays of booleans encode to eleven bytes, one
      more than `Msgsize` says, because the inner headers are not counted. */
  lemma NestedArrayOutgrows(env: Env)
    ensures var e := Array(5, Array(1, Base(PBool, false, false)));
      Worst(e) == 11 && 5 + FixedExpr(e).size == 10 && !Bounds(env, e, Longest(e)) && HasType(env, e, Longest(e))
  {
    var e := Array(5, Array(1, Base(PBool, false, false)));
    NestedArraySizes();
    LongestAttains(env, e);
    LongestArray(e);
    hide EncGo, HasType, Longest, Worst, FixedExpr;
    assert !Bounds(env, e, Longest(e));
  }

  lemma NestedArraySizes()
    ensures var e := Array(5, Array(1, Base(PBool, false, false)));
      Worst(e) == 11 && FixedExpr(e) == Expr(5, false, false) && Sized(e)
  {
    var b := Base(PBool, false, false);
    ShortHeaders();
    BoolArray(1);
    hide V.EncArrayHeader;
    var inner := Array(1, b);
    assert Worst(inner) == 2 && FixedExpr(inner) == Expr(1, false, false) && !IsByteArray(inner, V.Slice);
    FiveOf(inner);
    assert Sized(inner);
  }

  lemma FiveOf(y: Elem)
    requires FixedExpr(y) == Expr(1, false, false) && !IsByteArray(y, V.Slice)
    ensures Worst(Array(5, y)) == |V.EncArrayHeader(5)| + 5 * Worst(y)
    ensures FixedExpr(Array(5, y)) == Expr(5, false, false)
  {
    hide V.EncArrayHeader;
    assert 5 % TWO_32 == 5;
  }

  lemma BoolArray(n: uint32)
    ensures var e := Array(n, Base(PBool, false, false));
      Worst(e) == |V.EncArrayHeader(n)| + n && FixedExpr(e) == Expr(n, false, false)
  {
    hide V.EncArrayHeader;
    assert PrimSize(PBool) == 1;
  }

  lemma ShortHeaders()
    ensures |V.EncArrayHeader(1)| == 1 && |V.EncArrayHeader(5)| == 1
  {
  }

  // ---- The bound ---------------------------------------------------------------------------------

  /** Every slice of fixed-size elements and every fixed-size array in the tree has an
      expression that covers its longest encoding. */
  ghost predicate Covered(e: Elem)
    decreases e
  {
    match e
    case Base(_, _, _) => true
    case Ident(_) => true
    case Ptr(y) => Covered(y)
    case Slice(y) => if FixedExpr(y).Expr? then Worst(y) <= FixedExpr(y).size else Covered(y)
    case Array(_, y) => if FixedExpr(e).Expr? then Worst(e) <= 5 + FixedExpr(e).size else Covered(y)
    case Map(y) => Covered(y)
    case Struct(fs, _) => forall i :: 0 <= i < |fs| ==> Covered(fs[i].elem)
  }

  ghost predicate EnvCovered(env: Env) {
    forall n :: n in env ==> Covered(env[n])
  }

  /** Every interface value inside is one `GuessSize` bounds. */
  ghost predicate Guessable(v: GoVal)
    decreases v
  {
    match v
    case Dyn(x) => Guessed(x)
    case PtrTo(w) => Guessable(w)
    case Sl(els, _) => forall i :: 0 <= i < |els| ==> Guessable(els[i])
    case Arr(els) => forall i :: 0 <= i < |els| ==> Guessable(els[i])
    case Mp(es) => forall i :: 0 <= i < |es| ==> Guessable(es[i].val)
    case Rec(fs) => forall i :: 0 <= i < |fs| ==> Guessable(fs[i])
    case _ => true
  }

  /** The size bounds the encoding: for every tree of covered types, every value. */
  lemma {:induction false} SizeBounds(env: Env, e: Elem, v: GoVal)
    requires HasType(env, e, v) && EnvCovered(env) && Covered(e) && Guessable(v)
    ensures Bounds(env, e, v)
    decreases v, if e.Ident? then 1 else 0
  {
    hide FixedExpr, Worst, V.EncArrayHeader, V.EncMapHeader, GuessSize, EncGoAll, EncGoFields, EncGoEntries;
    hide V.Enc, SizeAll, SizeFields, SizeEntries, PrimSize, V.EncBinHeader, Guessed;
    match e
    case Base(p, _, _) => BaseBounds(env, e, v);
    case Ident(n) => SizeBounds(env, env[n], v);
    case Ptr(y) => if v.PtrTo? { SizeBounds(env, y, v.to); }
    case Slice(y) =>
      if FixedExpr(y).Expr? {
        FixedSliceBounds(env, y, v);
      } else {
        AllBounded(env, y, v.els);
      }
    case Array(n, y) =>
      if FixedExpr(e).Expr? {
        FixedArrayBounds(env, e, v);
      } else {
        BytesAreFixed(n, y);
        AllBounded(env, y, v.els);
      }
    case Map(y) => EntriesBounded(env, y, v.entries);
    case Struct(fs, tup) => FieldsBounded(env, fs, v.fields, 0, tup);
  }

  lemma BytesAreFixed(n: nat, y: Elem)
    requires !FixedExpr(Array(n, y)).Expr?
    ensures !IsByteArray(y, V.Slice)
  {
  }

  lemma BaseBounds(env: Env, e: Elem, v: GoVal)
    requires e.Base? && HasType(env, e, v) && Guessable(v)
    ensures Bounds(env, e, v)
  {
    hide V.EncInt, V.EncUint, V.EncExtHeader, V.EncBinHeader, V.EncStrHeader, BE32, BE64, GuessSize, PrimSize;
    if e.prim == PIntf {
      GuessCovers(v.v);
    } else if IsFixed(e.prim) {
      PrimWithin(e.prim, v.v);
    }
  }

  lemma {:induction false} AllBounded(env: Env, y: Elem, vs: seq<GoVal>)
    requires AllTyped(env, y, vs) && EnvCovered(env) && Covered(y)
    requires forall i :: 0 <= i < |vs| ==> Guessable(vs[i])
    ensures |EncGoAll(env, y, vs, V.Slice)| <= SizeAll(env, y, vs)
    decreases vs, 2
  {
    hide EncGo, HasType, SizeOf, Covered, Guessable;
    if vs != [] {
      SizeBounds(env, y, vs[0]);
      AllBounded(env, y, vs[1..]);
    }
  }

  lemma {:induction false} EntriesBounded(env: Env, y: Elem, es: seq<GoEntry>)
    requires EntriesTyped(env, y, es) && EnvCovered(env) && Covered(y)
    requires forall i :: 0 <= i < |es| ==> Guessable(es[i].val)
    ensures |EncGoEntries(env, y, es, V.Slice)| <= SizeEntries(env, y, es)
    decreases es, 2
  {
    hide EncGo, HasType, SizeOf, Covered, Guessable, V.EncStrHeader;
    if es != [] {
      SizeBounds(env, y, es[0].val);
      EntriesBounded(env, y, es[1..]);
    }
  }

  lemma {:induction false} FieldsBounded(env: Env, fs: seq<Field>, vs: seq<GoVal>, i: nat, tup: bool)
    requires |fs| == |vs| && FieldsTyped(env, fs, vs) && EnvCovered(env)
    requires forall j :: 0 <= j < |fs| ==> Covered(fs[j].elem) && Guessable(vs[j])
    ensures |EncGoFields(env, fs, vs, i, tup, V.Slice)| <= SizeFields(env, fs, vs, i, tup)
    decreases vs, 3, |vs| - i
  {
    hide EncGo, HasType, SizeOf, Covered, Guessable, FieldTag;
    if i < |fs| {
      SizeBounds(env, fs[i].elem, vs[i]);
      FieldsBounded(env, fs, vs, i + 1, tup);
    }
  }

  /** What `MarshalMsg` gains: it asks `Require` for `Msgsize` bytes, and however the bytes it
      appends are split into `ensure` calls, none of them reallocates or copies. */
  lemma MarshalNeverReallocates(env: Env, e: Elem, v: GoVal, fuel: nat, cap: nat, len: nat, sizes: seq<nat>)
    requires HasType(env, e, v) && Enough(fuel, e, v) && EnvCovered(env) && Covered(e) && Guessable(v)
    requires len <= cap
    ensures var out := G.Exec(G.Programs(env, V.Slice, true), G.Emit(e, [], [], V.Slice, true), v, V.Slice, fuel);
      var msgsize := Exec(Programs(env), Program(e), [], v, 0, fuel);
      && out.Some? && msgsize >= 0
      && var start := A.Growth(A.Grown(cap, len, msgsize), len, 0);
         A.Sum(sizes) == |out.value| ==> A.GrowRun(start, sizes) == A.Growth(start.cap, len + |out.value|, 0)
  {
    hide HasType, Enough, Covered, Guessable, SizeOf, EncGo, G.Emit, Emit, G.Programs, Programs;
    G.FusingPreservesMeaning(env, e, v, V.Slice, fuel);
    SizeValue.MsgsizeIsSizeOf(env, e, v, fuel);
    SizeBounds(env, e, v);
    hide Exec, G.Exec, Program;
    var msgsize := SizeOf(env, e, v);
    if A.Sum(sizes) == |EncGo(env, e, v, V.Slice)| {
      A.NoRegrowth(A.Growth(A.Grown(cap, len, msgsize), len, 0), sizes);
    }
  }
}
