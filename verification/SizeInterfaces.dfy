/** Interface values and `Msgsize` (gen/size.go): `GuessSize` guesses 512 bytes for any slice in
    one, so that nothing bounds a type that has one within reach. */
module SizeInterfaces {
  import opened Wire
  import opened TypeTree
  import opened SizeGen
  import opened SizeBound
  import opened Inhabitation
  import V = Encoding

  // ---- Interface values -------------------------------------------------------------------------

  /** The steps `p` lead from the type to an interface value: by field number into a struct, by
      any number into everything else. Arrays of no elements lead nowhere. */
  ghost predicate LeadsToIntf(env: Env, e: Elem, p: seq<nat>)
    decreases |p|
  {
    match e
    case Base(prim, _, _) => prim == PIntf
    case Ident(n) => p != [] && n in env && LeadsToIntf(env, env[n], p[1..])
    case Ptr(y) => p != [] && LeadsToIntf(env, y, p[1..])
    case Slice(y) => p != [] && LeadsToIntf(env, y, p[1..])
    case Array(n, y) => p != [] && n > 0 && LeadsToIntf(env, y, p[1..])
    case Map(y) => p != [] && LeadsToIntf(env, y, p[1..])
    case Struct(fs, _) => p != [] && p[0] < |fs| && LeadsToIntf(env, fs[p[0]].elem, p[1..])
  }

  ghost predicate HoldsIntf(env: Env, e: Elem) {
    exists p :: LeadsToIntf(env, e, p)
  }

  lemma IntfHere(env: Env, e: Elem)
    requires e.Base? && e.prim == PIntf
    ensures HoldsIntf(env, e)
  {
    assert LeadsToIntf(env, e, []);
  }

  lemma StepToIntf(env: Env, e: Elem, i: nat, y: Elem)
    requires HoldsIntf(env, y)
    requires match e
      case Base(_, _, _) => false
      case Ident(n) => n in env && y == env[n]
      case Ptr(z) => y == z
      case Slice(z) => y == z
      case Array(n, z) => n > 0 && y == z
      case Map(z) => y == z
      case Struct(fs, _) => i < |fs| && y == fs[i].elem
    ensures HoldsIntf(env, e)
  {
    var p :| LeadsToIntf(env, y, p);
    assert ([i] + p)[1..] == p;
    assert LeadsToIntf(env, e, [i] + p);
  }

  /** Where no interface value is within reach there is none to guess. */
  lemma {:induction false} NothingGuessed(env: Env, e: Elem, v: GoVal)
    requires HasType(env, e, v) && !HoldsIntf(env, e)
    ensures Guessable(v)
    decreases v, if e.Ident? then 1 else 0
  {
    hide HoldsIntf;
    match e
    case Base(p, _, _) => if p == PIntf { IntfHere(env, e); }
    case Ident(n) =>
      if HoldsIntf(env, env[n]) { StepToIntf(env, e, 0, env[n]); }
      NothingGuessed(env, env[n], v);
    case Ptr(y) =>
      if HoldsIntf(env, y) { StepToIntf(env, e, 0, y); }
      if v.PtrTo? { NothingGuessed(env, y, v.to); }
    case Slice(y) =>
      if HoldsIntf(env, y) { StepToIntf(env, e, 0, y); }
      forall i | 0 <= i < |v.els| ensures Guessable(v.els[i]) { NothingGuessed(env, y, v.els[i]); }
    case Array(n, y) =>
      if n > 0 && HoldsIntf(env, y) { StepToIntf(env, e, 0, y); }
      forall i | 0 <= i < |v.els| ensures Guessable(v.els[i]) { NothingGuessed(env, y, v.els[i]); }
    case Map(y) =>
      if HoldsIntf(env, y) { StepToIntf(env, e, 0, y); }
      forall i | 0 <= i < |v.entries| ensures Guessable(v.entries[i].val) { NothingGuessed(env, y, v.entries[i].val); }
    case Struct(fs, _) =>
      forall i | 0 <= i < |fs| ensures Guessable(v.fields[i]) {
        if HoldsIntf(env, fs[i].elem) { StepToIntf(env, e, i, fs[i].elem); }
        NothingGuessed(env, fs[i].elem, v.fields[i]);
      }
  }

  /** A slice nested in slices, each of one element: one byte a level. */
  function Nest(n: nat): V.Value { if n == 0 then V.Nil else V.Arr([Nest(n - 1)]) }

  lemma {:induction false} NestEncodes(n: nat)
    ensures V.Fits(Nest(n)) && |V.Enc(Nest(n), V.Slice)| == n + 1
  {
    if n > 0 {
      NestEncodes(n - 1);
      OneElement(Nest(n - 1));
    }
  }

  lemma OneElement(x: V.Value)
    ensures |V.Enc(V.Arr([x]), V.Slice)| == 1 + |V.Enc(x, V.Slice)|
    ensures V.Fits(x) ==> V.Fits(V.Arr([x]))
  {
    OneInAll(x);
    hide V.EncAll, V.AllFit;
  }

  lemma OneInAll(x: V.Value)
    ensures |V.EncAll([x], V.Slice)| == |V.Enc(x, V.Slice)| && (V.AllFit([x]) <==> V.Fits(x))
  {
    hide V.Fits, V.Enc;
    assert [x][1..] == [];
  }

  /** The sum over one element. */
  lemma OneGo(env: Env, y: Elem, u: GoVal)
    ensures |EncGoAll(env, y, [u], V.Slice)| == |EncGo(env, y, u, V.Slice)|
    ensures SizeAll(env, y, [u]) == SizeOf(env, y, u)
  {
    hide EncGo, SizeOf;
    assert [u][1..] == [];
  }

  lemma OneEntry(env: Env, y: Elem, u: GoVal)
    ensures |EncGoEntries(env, y, [GoEntry([], u)], V.Slice)| == 1 + |EncGo(env, y, u, V.Slice)|
    ensures SizeEntries(env, y, [GoEntry([], u)]) == 5 + SizeOf(env, y, u)
  {
    hide EncGo, SizeOf;
    assert [GoEntry([], u)][1..] == [];
  }

  /** The first of several elements. */
  lemma FirstOf(env: Env, y: Elem, u: GoVal, ws: seq<GoVal>)
    ensures |EncGoAll(env, y, [u] + ws, V.Slice)| >= |EncGo(env, y, u, V.Slice)|
    ensures SizeAll(env, y, [u] + ws) == SizeOf(env, y, u) + SizeAll(env, y, ws)
  {
    hide EncGo, SizeOf;
    assert ([u] + ws)[1..] == ws;
  }

  /** One of several fields. */
  lemma {:induction false} FieldOf(env: Env, fs: seq<Field>, vs: seq<GoVal>, i: nat, j: nat, u: GoVal, tup: bool)
    requires j <= i < |fs| == |vs|
    ensures |EncGoFields(env, fs, vs[i := u], j, tup, V.Slice)| >= |EncGo(env, fs[i].elem, u, V.Slice)|
    ensures SizeFields(env, fs, vs[i := u], j, tup)
         == SizeFields(env, fs, vs, j, tup) + SizeOf(env, fs[i].elem, u) - SizeOf(env, fs[i].elem, vs[i])
    decreases i - j
  {
    hide EncGo, SizeOf, FieldTag;
    if j < i {
      FieldOf(env, fs, vs, i, j + 1, u, tup);
    } else {
      SameFields(env, fs, vs, vs[i := u], i + 1, tup);
    }
  }

  lemma {:induction false} SameFields(env: Env, fs: seq<Field>, vs: seq<GoVal>, ws: seq<GoVal>, i: nat, tup: bool)
    requires |fs| == |vs| == |ws| && forall j :: i <= j < |vs| ==> vs[j] == ws[j]
    ensures SizeFields(env, fs, vs, i, tup) == SizeFields(env, fs, ws, i, tup)
    decreases |vs| - i
  {
    hide SizeOf, FieldTag;
    if i < |vs| { SameFields(env, fs, vs, ws, i + 1, tup); }
  }

  /** A type with an interface value in it is not of fixed size. */
  lemma {:induction false} IntfIsNotFixed(env: Env, e: Elem, p: seq<nat>)
    requires LeadsToIntf(env, e, p)
    ensures FixedExpr(e).NotFixed?
    decreases e, 1
  {
    hide FixedFields;
    match e
    case Array(_, y) => IntfIsNotFixed(env, y, p[1..]);
    case Struct(fs, _) =>
      IntfIsNotFixed(env, fs[p[0]].elem, p[1..]);
      OneNotFixed(fs, p[0]);
    case _ =>
  }

  lemma {:induction false} OneNotFixed(fs: seq<Field>, i: nat)
    requires i < |fs| && FixedExpr(fs[i].elem).NotFixed?
    ensures FixedFields(fs).NotFixed?
  {
    hide FixedExpr;
    if i > 0 { OneNotFixed(fs[1..], i - 1); }
  }

  /** A type with an interface value within reach has values that encode longer than `Msgsize`
      says, by any margin. */
  lemma {:induction false} Outgrows(env: Env, e: Elem, p: seq<nat>, k: nat) returns (v: GoVal)
    requires EnvInhabited(env) && Inhabited(env, e) && LeadsToIntf(env, e, p)
    ensures HasType(env, e, v) && |EncGo(env, e, v, V.Slice)| > SizeOf(env, e, v) + k
    decreases |p|, 1
  {
    hide EnvInhabited, EncGoAll, EncGoEntries, EncGoFields, SizeAll, SizeEntries, SizeFields, FixedExpr, V.Enc,
      GuessSize, V.Fits;
    match e
    case Base(_, _, _) =>
      NestEncodes(512 + k);
      NestIsGuessed(512 + k);
      v := Dyn(Nest(512 + k));
    case Ident(n) => v := NamedOutgrows(env, n, p, k);
    case Ptr(y) =>
      v := Outgrows(env, y, p[1..], k);
      v := PtrTo(v);
    case Slice(y) =>
      IntfIsNotFixed(env, y, p[1..]);
      var u := Outgrows(env, y, p[1..], k + 5);
      OneGo(env, y, u);
      v := Sl([u], []);
    case Array(n, y) =>
      IntfIsNotFixed(env, e, p);
      v := ArrayOutgrows(env, n, y, p, k);
    case Map(y) =>
      var u := Outgrows(env, y, p[1..], k + 10);
      OneEntry(env, y, u);
      v := Mp([GoEntry([], u)]);
    case Struct(fs, tup) => v := StructOutgrows(env, fs, tup, p, k);
  }

  lemma NestIsGuessed(n: nat)
    requires n > 0
    ensures Nest(n).Arr? && GuessSize(Nest(n)) == 512
  {
  }

  lemma NamedOutgrows(env: Env, n: string, p: seq<nat>, k: nat) returns (v: GoVal)
    requires EnvInhabited(env) && Inhabited(env, Ident(n)) && LeadsToIntf(env, Ident(n), p)
    ensures HasType(env, Ident(n), v) && |EncGo(env, Ident(n), v, V.Slice)| > SizeOf(env, Ident(n), v) + k
    decreases |p|, 0
  {
    hide LeadsToIntf;
    assert LeadsToIntf(env, env[n], p[1..]) && p != [] by { Unfolded(env, n, p); }
    v := Outgrows(env, env[n], p[1..], k);
  }

  lemma Unfolded(env: Env, n: string, p: seq<nat>)
    requires LeadsToIntf(env, Ident(n), p)
    ensures p != [] && n in env && LeadsToIntf(env, env[n], p[1..])
  {
  }

  lemma ArrayOutgrows(env: Env, n: nat, y: Elem, p: seq<nat>, k: nat) returns (v: GoVal)
    requires EnvInhabited(env) && Inhabited(env, Array(n, y)) && LeadsToIntf(env, Array(n, y), p)
    requires FixedExpr(Array(n, y)).NotFixed?
    ensures HasType(env, Array(n, y), v)
    ensures |EncGo(env, Array(n, y), v, V.Slice)| > SizeOf(env, Array(n, y), v) + k
    decreases |p|, 0
  {
    hide EnvInhabited, EncGoAll, SizeAll, FixedExpr;
    BytesAreFixed(n, y);
    var w := SomeValue(env, y);
    var ws := Copies(n - 1, w);
    var more := SizeAll(env, y, ws);
    var u := Outgrows(env, y, p[1..], if more > 0 then k + 5 + more else k + 5);
    FirstOf(env, y, u, ws);
    v := Arr([u] + ws);
    hide HasType;
    assert forall i :: 0 <= i < n ==> v.els[i] == if i == 0 then u else w;
    ArrayTyped(env, n, y, v.els);
  }

  lemma ArrayTyped(env: Env, n: nat, y: Elem, vs: seq<GoVal>)
    requires |vs| == n < TWO_32 && forall i :: 0 <= i < n ==> HasType(env, y, vs[i])
    ensures HasType(env, Array(n, y), Arr(vs))
  {
  }

  lemma StructOutgrows(env: Env, fs: seq<Field>, tup: bool, p: seq<nat>, k: nat) returns (v: GoVal)
    requires EnvInhabited(env) && Inhabited(env, Struct(fs, tup)) && LeadsToIntf(env, Struct(fs, tup), p)
    ensures HasType(env, Struct(fs, tup), v)
    ensures |EncGo(env, Struct(fs, tup), v, V.Slice)| > SizeOf(env, Struct(fs, tup), v) + k
    decreases |p|, 0
  {
    hide EnvInhabited, Inhabited, LeadsToIntf, HasType, EncGoFields, SizeFields, FixedExpr, StructHeader;
    FieldsLead(env, fs, tup, p);
    var i := p[0];
    var ws := SomeFields(env, fs, |fs|);
    var more := |StructHeader(|fs|, tup)| + SizeFields(env, fs, ws, 0, tup) - SizeOf(env, fs[i].elem, ws[i]);
    var u := Outgrows(env, fs[i].elem, p[1..], if more > 0 then k + more else k);
    FieldOf(env, fs, ws, i, 0, u, tup);
    v := Rec(ws[i := u]);
    assert forall j :: 0 <= j < |fs| ==> v.fields[j] == if j == i then u else ws[j];
    StructTyped(env, fs, tup, v.fields);
  }

  lemma FieldsLead(env: Env, fs: seq<Field>, tup: bool, p: seq<nat>)
    requires Inhabited(env, Struct(fs, tup)) && LeadsToIntf(env, Struct(fs, tup), p)
    ensures |fs| < TWO_32 && forall i :: 0 <= i < |fs| ==> |fs[i].tag| < TWO_32 && Inhabited(env, fs[i].elem)
    ensures p != [] && p[0] < |fs| && LeadsToIntf(env, fs[p[0]].elem, p[1..])
  {
  }

  lemma StructTyped(env: Env, fs: seq<Field>, tup: bool, vs: seq<GoVal>)
    requires |vs| == |fs| < TWO_32
    requires forall i :: 0 <= i < |fs| ==> |fs[i].tag| < TWO_32 && HasType(env, fs[i].elem, vs[i])
    ensures HasType(env, Struct(fs, tup), Rec(vs))
  {
  }

  /** For types whose fixed-size expressions cover: the size is a bound for every value if and
      only if no interface value is within reach. */
  lemma CoveredExactly(env: Env, e: Elem)
    requires EnvInhabited(env) && Inhabited(env, e) && EnvCovered(env) && Covered(e)
    ensures (forall v :: HasType(env, e, v) ==> Bounds(env, e, v)) <==> !HoldsIntf(env, e)
  {
    hide EnvInhabited, Inhabited, EnvCovered, Covered, HasType, LeadsToIntf;
    if HoldsIntf(env, e) {
      var p :| LeadsToIntf(env, e, p);
      var v := Outgrows(env, e, p, 0);
      assert HasType(env, e, v) && !Bounds(env, e, v);
    } else {
      hide Bounds;
      forall v | HasType(env, e, v) ensures Bounds(env, e, v) {
        NothingGuessed(env, e, v);
        SizeBounds(env, e, v);
      }
    }
  }

  /** The failing value: a slice of 512 nils encodes to 515 bytes, three more than are guessed. */
  lemma NilsOutgrow(env: Env)
    ensures var e, v := Base(PIntf, false, false), Dyn(V.Arr(Copies(512, V.Nil)));
      HasType(env, e, v) && |EncGo(env, e, v, V.Slice)| == 515 && SizeOf(env, e, v) == 512 && !Bounds(env, e, v)
  {
    hide V.Fits, V.Enc, GuessSize, HasType, EncGo, SizeOf, V.AllFit, V.EncAll;
    NilsEncode(512);
    DynIs(env, V.Arr(Copies(512, V.Nil)));
    NilSlice(Copies(512, V.Nil));
  }

  lemma DynIs(env: Env, x: V.Value)
    ensures var e := Base(PIntf, false, false);
      && (HasType(env, e, Dyn(x)) <==> V.Fits(x))
      && EncGo(env, e, Dyn(x), V.Slice) == V.Enc(x, V.Slice)
      && SizeOf(env, e, Dyn(x)) == GuessSize(x)
  {
    hide V.Fits, V.Enc, GuessSize;
  }

  lemma NilSlice(vs: seq<V.Value>)
    requires |vs| == 512 && V.AllFit(vs) && |V.EncAll(vs, V.Slice)| == 512
    ensures V.Fits(V.Arr(vs)) && |V.Enc(V.Arr(vs), V.Slice)| == 515 && GuessSize(V.Arr(vs)) == 512
  {
    hide V.EncAll, V.AllFit;
  }

  lemma {:induction false} NilsEncode(n: nat)
    ensures V.AllFit(Copies(n, V.Nil)) && |V.EncAll(Copies(n, V.Nil), V.Slice)| == n
  {
    if n > 0 {
      NilsEncode(n - 1);
      assert Copies(n, V.Nil)[1..] == Copies(n - 1, V.Nil);
    }
  }
}
