/** Types that have values. Go accepts no others: a type that contains itself does so behind a
    pointer, a slice or a map. */
module Inhabitation {
  import opened Wire
  import opened TypeTree
  import V = Encoding

  /** The lengths in the type fit the wire format, and the types it names have values. */
  ghost predicate Inhabited(env: Env, e: Elem)
    decreases e
  {
    match e
    case Base(_, _, _) => true
    case Ident(n) => n in env && !env[n].Ident? && exists v :: HasType(env, env[n], v)
    case Ptr(y) => Inhabited(env, y)
    case Slice(y) => Inhabited(env, y)
    case Array(n, y) => n < TWO_32 && Inhabited(env, y)
    case Map(y) => Inhabited(env, y)
    case Struct(fs, _) =>
      |fs| < TWO_32 && forall i :: 0 <= i < |fs| ==> |fs[i].tag| < TWO_32 && Inhabited(env, fs[i].elem)
  }

  ghost predicate EnvInhabited(env: Env) {
    forall n :: n in env ==> Inhabited(env, env[n])
  }

  function SomeBase(p: Prim): GoVal {
    match p
    case PBytes => Scalar(V.Bin([]))
    case PString => Scalar(V.Str([]))
    case PFloat32 => Scalar(V.Float32(0))
    case PFloat64 => Scalar(V.Float64(0))
    case PComplex64 => Scalar(V.Complex64(0, 0))
    case PComplex128 => Scalar(V.Complex128(0, 0))
    case PBool => Scalar(V.Bool(false))
    case PIntf => Dyn(V.Nil)
    case PTime => Scalar(V.Time(0, 0))
    case PExt(t) => Scalar(V.Ext(t, []))
    case PRaw => Raw(0, [])
    case PInt => Scalar(V.Int(0))
    case PInt8 => Scalar(V.Int(0))
    case PInt16 => Scalar(V.Int(0))
    case PInt32 => Scalar(V.Int(0))
    case PInt64 => Scalar(V.Int(0))
    case _ => Scalar(V.Uint(0))
  }

  function Copies<T>(n: nat, w: T): (vs: seq<T>)
    ensures |vs| == n && forall i :: 0 <= i < n ==> vs[i] == w
  {
    seq(n, _ => w)
  }

  /** Every inhabited type has a value. */
  lemma SomeValue(env: Env, e: Elem) returns (v: GoVal)
    requires Inhabited(env, e)
    ensures HasType(env, e, v)
    decreases e, 1
  {
    match e
    case Base(p, _, _) => v := SomeBase(p);
    case Ident(n) => v :| HasType(env, env[n], v);
    case Ptr(_) => v := NilPtr;
    case Slice(_) => v := Sl([], []);
    case Array(n, y) =>
      var w := SomeValue(env, y);
      v := Arr(Copies(n, w));
    case Map(_) => v := Mp([]);
    case Struct(fs, _) =>
      var vs := SomeFields(env, fs, |fs|);
      v := Rec(vs);
  }

  lemma {:induction false} SomeFields(env: Env, fs: seq<Field>, n: nat) returns (vs: seq<GoVal>)
    requires n <= |fs| && forall j :: 0 <= j < |fs| ==> Inhabited(env, fs[j].elem)
    ensures |vs| == n && forall j :: 0 <= j < n ==> HasType(env, fs[j].elem, vs[j])
    decreases fs, 0, n
  {
    hide Inhabited, HasType;
    if n == 0 {
      vs := [];
    } else {
      var rest := SomeFields(env, fs, n - 1);
      var v := SomeValue(env, fs[n - 1].elem);
      vs := rest + [v];
    }
  }
}
