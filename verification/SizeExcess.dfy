/** By how much an encoding can exceed `Msgsize` (gen/size.go), for types that name no others:
    one field's unused bytes may make up for another's missing ones. */
module SizeExcess {
  import opened Wire
  import opened TypeTree
  import opened SizeGen
  import opened SizeBound
  import opened SizeInterfaces
  import opened Inhabitation
  import V = Encoding

  ghost predicate NoNames(e: Elem)
    decreases e
  {
    match e
    case Base(_, _, _) => true
    case Ident(_) => false
    case Ptr(y) => NoNames(y)
    case Slice(y) => NoNames(y)
    case Array(_, y) => NoNames(y)
    case Map(y) => NoNames(y)
    case Struct(fs, _) => forall i :: 0 <= i < |fs| ==> NoNames(fs[i].elem)
  }

  /** The largest excess of a slice or map whose elements exceed their share by up to `each`: as
      long as can be, or empty. */
  function Repeated(each: int): int {
    if each > 0 then (TWO_32 - 1) * each else if each == 0 then 0 else -4
  }

  /** The largest difference between an encoding and its size. */
  function Excess(e: Elem): int
    decreases e, 1
  {
    match e
    case Base(_, _, _) => 0
    case Ident(_) => 0
    case Ptr(y) => if Excess(y) > 0 then Excess(y) else 0
    case Slice(y) => Repeated(if FixedExpr(y).Expr? then Worst(y) - FixedExpr(y).size else Excess(y))
    case Array(n, y) =>
      if FixedExpr(e).Expr? then Worst(e) - 5 - FixedExpr(e).size
      else |V.EncArrayHeader(n % TWO_32)| - 5 + n * Excess(y)
    case Map(y) => Repeated(Excess(y))
    case Struct(fs, _) => ExcessFields(fs, 0)
  }

  function ExcessFields(fs: seq<Field>, i: nat): int
    decreases fs, 0, |fs| - i
  {
    if i >= |fs| then 0 else Excess(fs[i].elem) + ExcessFields(fs, i + 1)
  }

  // ---- No value exceeds by more ----------------------------------------------------------------

  lemma RepeatedBounds(n: nat, each: int)
    requires n < TWO_32
    ensures |V.EncArrayHeader(n)| - 5 + n * each <= Repeated(each)
    ensures |V.EncMapHeader(n)| - 5 + n * each <= Repeated(each)
  {
    if each > 0 {
      ScaleDown(each, n, TWO_32 - 1);
    } else if each < 0 {
      ScaleDown(n, each, -1);
    }
  }

  lemma ScaleDown(k: nat, a: int, b: int)
    requires a <= b
    ensures k * a <= k * b
  {
  }

  lemma OneMore(n: nat, each: int)
    ensures n * each == each + (n - 1) * each
  {
  }

  lemma {:induction false} ExcessBounds(env: Env, e: Elem, v: GoVal)
    requires HasType(env, e, v) && NoNames(e) && !HoldsIntf(env, e)
    ensures |EncGo(env, e, v, V.Slice)| - SizeOf(env, e, v) <= Excess(e)
    decreases v, 1
  {
    hide HoldsIntf, FixedExpr, Worst, V.EncArrayHeader, V.EncMapHeader, EncGoAll, EncGoFields, EncGoEntries, Repeated,
      SizeAll, SizeFields, SizeEntries, Guessable, Bounds, StructHeader;
    match e
    case Base(p, _, _) =>
      NothingGuessed(env, e, v);
      BaseBounds(env, e, v);
      BoundIs(env, e, v);
    case Ptr(y) =>
      if HoldsIntf(env, y) { StepToIntf(env, e, 0, y); }
      if v.PtrTo? { ExcessBounds(env, y, v.to); }
    case Slice(y) =>
      if HoldsIntf(env, y) { StepToIntf(env, e, 0, y); }
      SliceExcess(env, y, v);
    case Array(n, y) =>
      if n > 0 && HoldsIntf(env, y) { StepToIntf(env, e, 0, y); }
      ArrayExcess(env, n, y, v);
    case Map(y) =>
      if HoldsIntf(env, y) { StepToIntf(env, e, 0, y); }
      EntriesExcess(env, y, v.entries);
      RepeatedBounds(|v.entries|, Excess(y));
    case Struct(fs, tup) =>
      forall i | 0 <= i < |fs| ensures !HoldsIntf(env, fs[i].elem) {
        if HoldsIntf(env, fs[i].elem) { StepToIntf(env, e, i, fs[i].elem); }
      }
      FieldsExcess(env, fs, v.fields, 0, tup);
  }

  lemma BoundIs(env: Env, e: Elem, v: GoVal)
    ensures Bounds(env, e, v) <==> |EncGo(env, e, v, V.Slice)| <= SizeOf(env, e, v)
  {
  }

  lemma SliceExcess(env: Env, y: Elem, v: GoVal)
    requires HasType(env, Slice(y), v) && NoNames(y) && !HoldsIntf(env, y)
    ensures |EncGo(env, Slice(y), v, V.Slice)| - SizeOf(env, Slice(y), v) <= Excess(Slice(y))
    decreases v, 0
  {
    hide HoldsIntf, FixedExpr, Worst, V.EncArrayHeader, EncGoAll, SizeAll, Repeated;
    var n, f := |v.els|, FixedExpr(y);
    if f.Expr? {
      AllWithinWorst(env, y, v.els);
      assert n * Worst(y) - n * f.size == n * (Worst(y) - f.size);
      RepeatedBounds(n, Worst(y) - f.size);
    } else {
      AllExcess(env, y, v.els);
      RepeatedBounds(n, Excess(y));
    }
  }

  lemma ArrayExcess(env: Env, n: nat, y: Elem, v: GoVal)
    requires HasType(env, Array(n, y), v) && NoNames(y) && (n > 0 ==> !HoldsIntf(env, y))
    ensures |EncGo(env, Array(n, y), v, V.Slice)| - SizeOf(env, Array(n, y), v) <= Excess(Array(n, y))
    decreases v, 0
  {
    hide HoldsIntf, FixedExpr, Worst, V.EncArrayHeader, EncGoAll, SizeAll;
    if FixedExpr(Array(n, y)).Expr? {
      WithinWorst(env, Array(n, y), v);
    } else {
      BytesAreFixed(n, y);
      AllExcess(env, y, v.els);
    }
  }

  lemma {:induction false} AllExcess(env: Env, y: Elem, vs: seq<GoVal>)
    requires AllTyped(env, y, vs) && NoNames(y) && (vs != [] ==> !HoldsIntf(env, y))
    ensures |EncGoAll(env, y, vs, V.Slice)| - SizeAll(env, y, vs) <= |vs| * Excess(y)
    decreases vs, 2
  {
    hide EncGo, HasType, SizeOf, Excess, NoNames, HoldsIntf;
    if vs != [] {
      ExcessBounds(env, y, vs[0]);
      AllExcess(env, y, vs[1..]);
      OneMore(|vs|, Excess(y));
    }
  }

  lemma {:induction false} EntriesExcess(env: Env, y: Elem, es: seq<GoEntry>)
    requires EntriesTyped(env, y, es) && NoNames(y) && !HoldsIntf(env, y)
    ensures |EncGoEntries(env, y, es, V.Slice)| - SizeEntries(env, y, es) <= |es| * Excess(y)
    decreases es, 2
  {
    hide EncGo, HasType, SizeOf, Excess, NoNames, HoldsIntf, V.EncStrHeader;
    if es != [] {
      ExcessBounds(env, y, es[0].val);
      EntriesExcess(env, y, es[1..]);
      OneMore(|es|, Excess(y));
    }
  }

  lemma {:induction false} FieldsExcess(env: Env, fs: seq<Field>, vs: seq<GoVal>, i: nat, tup: bool)
    requires |fs| == |vs| && FieldsTyped(env, fs, vs)
    requires forall j :: 0 <= j < |fs| ==> NoNames(fs[j].elem) && !HoldsIntf(env, fs[j].elem)
    ensures |EncGoFields(env, fs, vs, i, tup, V.Slice)| - SizeFields(env, fs, vs, i, tup) <= ExcessFields(fs, i)
    decreases vs, 3, |vs| - i
  {
    hide EncGo, HasType, SizeOf, Excess, NoNames, HoldsIntf, FieldTag;
    if i < |fs| {
      ExcessBounds(env, fs[i].elem, vs[i]);
      FieldsExcess(env, fs, vs, i + 1, tup);
    }
  }

  // ---- Some value exceeds by as much ------------------------------------------------------------

  /** A base value that fills its size. */
  function MostBase(p: Prim): GoVal {
    match p
    case PString => Scalar(V.Str(Copies(TWO_16, 0)))
    case PBytes => Scalar(V.Bin(Copies(TWO_16, 0)))
    case PExt(t) => Scalar(V.Ext(t, Copies(TWO_16, 0)))
    case PRaw => Raw(0, Copies(TWO_16, 0))
    case _ => Scalar(LongestScalar(p))
  }

  lemma MostBaseFills(env: Env, e: Elem)
    requires e.Base? && e.prim != PIntf
    ensures HasType(env, e, MostBase(e.prim))
    ensures |EncGo(env, e, MostBase(e.prim), V.Slice)| == SizeOf(env, e, MostBase(e.prim))
  {
    hide LongestScalar, PrimSize, BE16, BE32;
    if IsFixed(e.prim) {
      FixedBaseFills(env, e);
    } else {
      LongHeaders();
      hide V.EncStrHeader, V.EncBinHeader, V.EncExtHeader;
    }
  }

  lemma FixedBaseFills(env: Env, e: Elem)
    requires e.Base? && IsFixed(e.prim)
    ensures HasType(env, e, Scalar(LongestScalar(e.prim)))
    ensures |EncGo(env, e, Scalar(LongestScalar(e.prim)), V.Slice)| == SizeOf(env, e, Scalar(LongestScalar(e.prim)))
  {
    LongestScalarAttains(e.prim);
    LongestIsNumber(e.prim);
    hide LongestScalar, PrimSize, V.Enc;
  }

  lemma LongestIsNumber(p: Prim)
    ensures !LongestScalar(p).Str? && !LongestScalar(p).Bin? && !LongestScalar(p).Ext?
  {
  }

  lemma LongHeaders()
    ensures |V.EncStrHeader(TWO_16)| == 5 && |V.EncBinHeader(TWO_16)| == 5
    ensures forall t: int8 :: |V.EncExtHeader(t, TWO_16, V.Slice)| == 6
  {
  }

  lemma {:induction false} InhabitedIsSized(env: Env, e: Elem)
    requires Inhabited(env, e)
    ensures Sized(e)
    decreases e, 1
  {
    match e
    case Array(_, y) => InhabitedIsSized(env, y);
    case Struct(fs, _) => assert fs[0..] == fs; InhabitedFieldsSized(env, fs, 0);
    case _ =>
  }

  lemma {:induction false} InhabitedFieldsSized(env: Env, fs: seq<Field>, i: nat)
    requires i <= |fs| && forall j :: 0 <= j < |fs| ==> |fs[j].tag| < TWO_32 && Inhabited(env, fs[j].elem)
    ensures FieldsSized(fs[i..])
    decreases fs, 0, |fs| - i
  {
    hide Inhabited, Sized;
    if i < |fs| {
      assert fs[i..][1..] == fs[i + 1..];
      InhabitedIsSized(env, fs[i].elem);
      InhabitedFieldsSized(env, fs, i + 1);
    }
  }

  ghost predicate Most(env: Env, e: Elem, v: GoVal) {
    HasType(env, e, v) && |EncGo(env, e, v, V.Slice)| - SizeOf(env, e, v) == Excess(e)
  }

  /** A value of the type with the largest excess. */
  lemma {:induction false} MostExcess(env: Env, e: Elem) returns (v: GoVal)
    requires Inhabited(env, e) && NoNames(e) && !HoldsIntf(env, e)
    ensures Most(env, e, v)
    decreases e, 1
  {
    hide HoldsIntf, FixedExpr, Worst, V.EncArrayHeader, V.EncMapHeader, EncGoAll, EncGoFields, EncGoEntries, Repeated,
      SizeAll, SizeFields, SizeEntries, MostBase, BaseOk, V.Enc, PrimSize, AllTyped, EntriesTyped, FieldsTyped,
      ExcessFields, StructHeader, DistinctGoKeys;
    match e
    case Base(p, _, _) =>
      if p == PIntf { IntfHere(env, e); }
      MostBaseFills(env, e);
      v := MostBase(p);
    case Ptr(y) =>
      if HoldsIntf(env, y) { StepToIntf(env, e, 0, y); }
      var w := MostExcess(env, y);
      v := if Excess(y) > 0 then PtrTo(w) else NilPtr;
    case Slice(y) =>
      if HoldsIntf(env, y) { StepToIntf(env, e, 0, y); }
      v := MostSlice(env, y);
    case Array(n, y) =>
      if n > 0 && HoldsIntf(env, y) { StepToIntf(env, e, 0, y); }
      v := MostArray(env, n, y);
    case Map(y) =>
      if HoldsIntf(env, y) { StepToIntf(env, e, 0, y); }
      v := MostMap(env, y);
    case Struct(fs, tup) =>
      forall i | 0 <= i < |fs| ensures !HoldsIntf(env, fs[i].elem) {
        if HoldsIntf(env, fs[i].elem) { StepToIntf(env, e, i, fs[i].elem); }
      }
      v := MostStruct(env, fs, tup);
  }

  lemma MostStruct(env: Env, fs: seq<Field>, tup: bool) returns (v: GoVal)
    requires Inhabited(env, Struct(fs, tup)) && NoNames(Struct(fs, tup))
    requires forall i :: 0 <= i < |fs| ==> !HoldsIntf(env, fs[i].elem)
    ensures Most(env, Struct(fs, tup), v)
    decreases fs, 1
  {
    FieldsOf(env, fs, tup);
    hide Inhabited, NoNames, HoldsIntf, HasType, EncGo, SizeOf, Excess, EncGoFields, SizeFields, ExcessFields;
    var vs := MostFields(env, fs, |fs|);
    FieldsReach(env, fs, vs, 0, tup);
    StructParts(env, fs, tup, vs);
    StructTyped(env, fs, tup, vs);
    v := Rec(vs);
  }

  lemma FieldsOf(env: Env, fs: seq<Field>, tup: bool)
    requires Inhabited(env, Struct(fs, tup)) && NoNames(Struct(fs, tup))
    ensures |fs| < TWO_32
    ensures forall i :: 0 <= i < |fs| ==> |fs[i].tag| < TWO_32 && Inhabited(env, fs[i].elem) && NoNames(fs[i].elem)
  {
  }

  lemma StructParts(env: Env, fs: seq<Field>, tup: bool, vs: seq<GoVal>)
    requires |vs| == |fs|
    ensures |EncGo(env, Struct(fs, tup), Rec(vs), V.Slice)| - SizeOf(env, Struct(fs, tup), Rec(vs))
         == |EncGoFields(env, fs, vs, 0, tup, V.Slice)| - SizeFields(env, fs, vs, 0, tup)
    ensures Excess(Struct(fs, tup)) == ExcessFields(fs, 0)
  {
    hide EncGoFields, SizeFields, StructHeader, ExcessFields, FixedExpr;
  }

  /** As many copies as the header can count, or none. */
  function Many(each: int): nat { if each >= 0 then TWO_32 - 1 else 0 }

  lemma ManyRepeat(each: int)
    ensures |V.EncArrayHeader(Many(each))| - 5 + Many(each) * each == Repeated(each)
    ensures |V.EncMapHeader(Many(each))| - 5 + Many(each) * each == Repeated(each)
  {
    hide BE16, BE32;
  }

  lemma MostSlice(env: Env, y: Elem) returns (v: GoVal)
    requires Inhabited(env, y) && NoNames(y) && !HoldsIntf(env, y)
    ensures Most(env, Slice(y), v)
    decreases y, 2
  {
    hide HoldsIntf, FixedExpr, Inhabited, NoNames, HasType, EncGo, SizeOf, Excess, Repeated, Longest, Worst, EncGoAll,
      SizeAll;
    var f := FixedExpr(y);
    if f.Expr? {
      var each := Worst(y) - f.size;
      var n := Many(each);
      InhabitedIsSized(env, y);
      LongestAttains(env, y);
      CopiesAttain(env, y, n);
      Difference(n, Worst(y), f.size);
      ManyRepeat(each);
      v := MostCopies(env, y, Longest(y), n);
    } else {
      var w := MostExcess(env, y);
      var n := Many(Excess(y));
      CopiesReach(env, y, w, n, Excess(y));
      ManyRepeat(Excess(y));
      v := MostCopies(env, y, w, n);
    }
  }

  lemma Difference(n: nat, a: int, b: int)
    ensures n * a - n * b == n * (a - b)
  {
  }

  lemma MostCopies(env: Env, y: Elem, w: GoVal, n: nat) returns (v: GoVal)
    requires HasType(env, y, w) && n < TWO_32
    ensures v == Sl(Copies(n, w), []) && HasType(env, Slice(y), v)
    ensures |EncGo(env, Slice(y), v, V.Slice)| == |V.EncArrayHeader(n)| + |EncGoAll(env, y, Copies(n, w), V.Slice)|
    ensures FixedExpr(y).Expr? ==> SizeOf(env, Slice(y), v) == 5 + n * FixedExpr(y).size
    ensures FixedExpr(y).NotFixed? ==> SizeOf(env, Slice(y), v) == 5 + SizeAll(env, y, Copies(n, w))
    ensures Excess(Slice(y)) == Repeated(if FixedExpr(y).Expr? then Worst(y) - FixedExpr(y).size else Excess(y))
  {
    hide FixedExpr, EncGoAll, SizeAll, V.EncArrayHeader, Worst, Repeated;
    v := Sl(Copies(n, w), []);
  }

  lemma {:induction false} CopiesReach(env: Env, y: Elem, w: GoVal, n: nat, each: int)
    requires n > 0 ==> |EncGo(env, y, w, V.Slice)| - SizeOf(env, y, w) == each
    ensures |EncGoAll(env, y, Copies(n, w), V.Slice)| - SizeAll(env, y, Copies(n, w)) == n * each
  {
    hide EncGo, SizeOf;
    if n > 0 {
      assert Copies(n, w)[1..] == Copies(n - 1, w);
      CopiesReach(env, y, w, n - 1, each);
      OneMore(n, each);
    }
  }

  lemma MostArray(env: Env, n: nat, y: Elem) returns (v: GoVal)
    requires Inhabited(env, Array(n, y)) && NoNames(y) && (n > 0 ==> !HoldsIntf(env, y))
    ensures Most(env, Array(n, y), v)
    decreases y, 2
  {
    hide HoldsIntf, FixedExpr, Worst, V.EncArrayHeader, EncGoAll, SizeAll, Longest, HasType, EncGo, SizeOf, Excess;
    if FixedExpr(Array(n, y)).Expr? {
      InhabitedIsSized(env, Array(n, y));
      LongestAttains(env, Array(n, y));
      LongestArray(Array(n, y));
      v := Longest(Array(n, y));
      FixedArrayParts(env, n, y, v);
    } else {
      var w := Zero;
      if n > 0 { w := MostExcess(env, y); }
      CopiesReach(env, y, w, n, Excess(y));
      ArrayTyped(env, n, y, Copies(n, w));
      ArrayParts(env, n, y, Copies(n, w));
      LooseArrayExcess(n, y);
      v := Arr(Copies(n, w));
    }
  }

  lemma FixedArrayParts(env: Env, n: nat, y: Elem, v: GoVal)
    requires FixedExpr(Array(n, y)).Expr? && v.Arr?
    ensures SizeOf(env, Array(n, y), v) == 5 + FixedExpr(Array(n, y)).size
    ensures Excess(Array(n, y)) == Worst(Array(n, y)) - 5 - FixedExpr(Array(n, y)).size
  {
    hide FixedExpr, Worst;
  }

  lemma ArrayParts(env: Env, n: uint32, y: Elem, vs: seq<GoVal>)
    requires FixedExpr(Array(n, y)).NotFixed? && |vs| == n
    ensures |EncGo(env, Array(n, y), Arr(vs), V.Slice)| == |V.EncArrayHeader(n)| + |EncGoAll(env, y, vs, V.Slice)|
    ensures SizeOf(env, Array(n, y), Arr(vs)) == 5 + SizeAll(env, y, vs)
  {
    BytesAreFixed(n, y);
    hide FixedExpr, IsByteArray;
    LooseArrayBytes(env, n, y, vs);
    LooseArraySize(env, n, y, vs);
  }

  lemma LooseArrayBytes(env: Env, n: uint32, y: Elem, vs: seq<GoVal>)
    requires !IsByteArray(y, V.Slice)
    ensures |EncGo(env, Array(n, y), Arr(vs), V.Slice)| == |V.EncArrayHeader(n)| + |EncGoAll(env, y, vs, V.Slice)|
  {
    hide IsByteArray, V.EncArrayHeader, EncGoAll;
    assert n % TWO_32 == n;
  }

  lemma LooseArraySize(env: Env, n: nat, y: Elem, vs: seq<GoVal>)
    requires FixedExpr(Array(n, y)).NotFixed?
    ensures SizeOf(env, Array(n, y), Arr(vs)) == 5 + SizeAll(env, y, vs)
  {
    hide FixedExpr, SizeAll;
  }

  lemma LooseArrayExcess(n: uint32, y: Elem)
    requires FixedExpr(Array(n, y)).NotFixed?
    ensures Excess(Array(n, y)) == |V.EncArrayHeader(n)| - 5 + n * Excess(y)
  {
    hide FixedExpr, V.EncArrayHeader, Worst;
  }

  lemma MostMap(env: Env, y: Elem) returns (v: GoVal)
    requires Inhabited(env, y) && NoNames(y) && !HoldsIntf(env, y)
    ensures Most(env, Map(y), v)
    decreases y, 2
  {
    hide HoldsIntf, V.EncMapHeader, EncGoEntries, Repeated, SizeEntries, LongKeys, HasType, EncGo, SizeOf, Excess;
    var w := MostExcess(env, y);
    var es := LongKeys(Many(Excess(y)), w);
    LongKeysDistinct(Many(Excess(y)), w);
    EntriesReach(env, y, w, es, Excess(y));
    ManyRepeat(Excess(y));
    MapParts(env, y, es);
    v := Mp(es);
  }

  lemma MapParts(env: Env, y: Elem, es: seq<GoEntry>)
    requires |es| < TWO_32 && DistinctGoKeys(es)
    requires forall i :: 0 <= i < |es| ==> |es[i].key| < TWO_32 && HasType(env, y, es[i].val)
    ensures HasType(env, Map(y), Mp(es))
    ensures |EncGo(env, Map(y), Mp(es), V.Slice)| == |V.EncMapHeader(|es|)| + |EncGoEntries(env, y, es, V.Slice)|
    ensures SizeOf(env, Map(y), Mp(es)) == 5 + SizeEntries(env, y, es) && Excess(Map(y)) == Repeated(Excess(y))
  {
    hide V.EncMapHeader, EncGoEntries, Repeated, SizeEntries, DistinctGoKeys;
  }

  /** Distinct keys, all of a length that needs the longest header. */
  function LongKeys(n: nat, w: GoVal): (es: seq<GoEntry>)
    requires n < TWO_32
    ensures |es| == n && forall i :: 0 <= i < n ==> |es[i].key| == 4 + TWO_16 && es[i].val == w
  {
    seq(n, i requires 0 <= i < n => GoEntry(BE32(i) + Copies(TWO_16, 0), w))
  }

  lemma LongKeysDistinct(n: nat, w: GoVal)
    requires n < TWO_32
    ensures DistinctGoKeys(LongKeys(n, w))
  {
    var es := LongKeys(n, w);
    forall i, j | 0 <= i < j < n ensures es[i].key != es[j].key {
      ReadBE32([], i, Copies(TWO_16, 0));
      ReadBE32([], j, Copies(TWO_16, 0));
      assert [] + BE32(i) + Copies(TWO_16, 0) == es[i].key && [] + BE32(j) + Copies(TWO_16, 0) == es[j].key;
    }
  }

  lemma {:induction false} EntriesReach(env: Env, y: Elem, w: GoVal, es: seq<GoEntry>, each: int)
    requires forall i :: 0 <= i < |es| ==> |es[i].key| == 4 + TWO_16 && es[i].val == w
    requires |EncGo(env, y, w, V.Slice)| - SizeOf(env, y, w) == each
    ensures |EncGoEntries(env, y, es, V.Slice)| - SizeEntries(env, y, es) == |es| * each
  {
    hide EncGo, SizeOf, BE32;
    if es != [] {
      EntriesReach(env, y, w, es[1..], each);
      OneMore(|es|, each);
    }
  }

  lemma {:induction false} MostFields(env: Env, fs: seq<Field>, n: nat) returns (vs: seq<GoVal>)
    requires n <= |fs| && forall j :: 0 <= j < |fs| ==> Inhabited(env, fs[j].elem) && NoNames(fs[j].elem)
    requires forall j :: 0 <= j < |fs| ==> !HoldsIntf(env, fs[j].elem)
    ensures |vs| == n && forall j :: 0 <= j < n ==> Most(env, fs[j].elem, vs[j])
    decreases fs, 0, n
  {
    hide Inhabited, NoNames, HoldsIntf, HasType, EncGo, SizeOf, Excess;
    if n == 0 {
      vs := [];
    } else {
      var rest := MostFields(env, fs, n - 1);
      var v := MostExcess(env, fs[n - 1].elem);
      vs := rest + [v];
    }
  }

  lemma {:induction false} FieldsReach(env: Env, fs: seq<Field>, vs: seq<GoVal>, i: nat, tup: bool)
    requires i <= |fs| == |vs| && forall j :: 0 <= j < |fs| ==> Most(env, fs[j].elem, vs[j])
    ensures |EncGoFields(env, fs, vs, i, tup, V.Slice)| - SizeFields(env, fs, vs, i, tup) == ExcessFields(fs, i)
    decreases |fs| - i
  {
    hide HasType, EncGo, SizeOf, Excess, FieldTag;
    if i < |fs| { FieldsReach(env, fs, vs, i + 1, tup); }
  }

  // ---- Exactly when -------------------------------------------------------------------------------

  /** For types that name no others: `Msgsize` bounds every value if and only if no interface
      value is within reach and the excess is not positive. */
  lemma NamelessExactly(env: Env, e: Elem)
    requires EnvInhabited(env) && Inhabited(env, e) && NoNames(e)
    ensures (forall v :: HasType(env, e, v) ==> Bounds(env, e, v)) <==> !HoldsIntf(env, e) && Excess(e) <= 0
  {
    hide EnvInhabited, Inhabited, NoNames, HasType, LeadsToIntf, Excess, EncGo, SizeOf;
    if HoldsIntf(env, e) {
      var p :| LeadsToIntf(env, e, p);
      var v := Outgrows(env, e, p, 0);
      assert HasType(env, e, v) && !Bounds(env, e, v);
    } else {
      var v := MostExcess(env, e);
      assert HasType(env, e, v) && (Bounds(env, e, v) <==> Excess(e) <= 0);
      forall w | HasType(env, e, w) && Excess(e) <= 0 ensures Bounds(env, e, w) { ExcessBounds(env, e, w); }
    }
  }

  /** The arrays `[5][1]bool`, one byte longer than `Msgsize` says, and `[3]bool`, at least four
      bytes shorter, and a struct of both. */
  function Nested(): Elem { Array(5, Array(1, Base(PBool, false, false))) }

  function Flags(): Elem { Array(3, Base(PBool, false, false)) }

  function Both(): Elem { Struct([Field([0x61], Nested()), Field([0x62], Flags())], false) }

  /** One field makes up for the other: the struct is bounded although its first field is not. */
  lemma FieldsMakeUp(env: Env)
    requires EnvInhabited(env)
    ensures !Covered(Both()) && Excess(Nested()) == 1 && Excess(Both()) == -3
    ensures forall v :: HasType(env, Both(), v) ==> Bounds(env, Both(), v)
  {
    NestedArraySizes();
    ThreeFlags();
    BothSums();
    hide Worst, FixedExpr, Excess, HasType, Bounds;
    NoIntfInBoth(env);
    NamelessExactly(env, Both());
  }

  lemma ThreeFlags()
    ensures Worst(Flags()) == 4 && FixedExpr(Flags()) == Expr(3, false, false)
  {
    BoolArray(3);
    hide Worst, FixedExpr;
    assert |V.EncArrayHeader(3)| == 1;
  }

  lemma BothSums()
    requires Worst(Nested()) == 11 && FixedExpr(Nested()) == Expr(5, false, false)
    requires Worst(Flags()) == 4 && FixedExpr(Flags()) == Expr(3, false, false)
    ensures Excess(Nested()) == 1 && Excess(Both()) == -3 && !Covered(Both())
  {
    var fs := Both().fields;
    hide Worst, FixedExpr;
    assert Excess(Nested()) == 1 && Excess(Flags()) == -4;
    hide Excess;
    assert ExcessFields(fs, 2) == 0 && ExcessFields(fs, 1) == -4 && ExcessFields(fs, 0) == -3;
    BothIs();
    assert !Covered(fs[0].elem);
  }

  lemma BothIs()
    ensures Excess(Both()) == ExcessFields(Both().fields, 0)
  {
    hide ExcessFields;
  }

  lemma NoIntfInBoth(env: Env)
    ensures Inhabited(env, Both()) && NoNames(Both()) && !HoldsIntf(env, Both())
  {
    forall p | LeadsToIntf(env, Both(), p) ensures false { IntfIsNotFixed(env, Both(), p); BothFixed(); }
  }

  lemma BothFixed()
    ensures FixedExpr(Both()).Expr?
  {
  }
}
