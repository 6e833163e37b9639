/** What the inliner (gen/inline.go) may make of a type tree: references to named types
    replaced, here and there, by the trees of those types. Such an unfolding is never simpler
    and means the same. */
module Unfolding {
  import opened TypeTree
  import V = Encoding

  // ---- Complexity -----------------------------------------------------------------------

  const MAX_COMPLEX := 5

  function Complexity(e: Elem): nat
    decreases e, 1
  {
    match e
    case Base(_, convert, mustinline) => if convert && !mustinline then 2 else 1
    case Ident(_) => 1
    case Ptr(y) => 1 + Complexity(y)
    case Slice(y) => 1 + Complexity(y)
    case Array(_, y) => 1 + Complexity(y)
    case Map(y) => 2 + Complexity(y)
    case Struct(fs, _) => 1 + FieldsComplexity(fs)
  }

  function FieldsComplexity(fs: seq<Field>): nat
    decreases fs, 0
  {
    if fs == [] then 0 else Complexity(fs[0].elem) + FieldsComplexity(fs[1..])
  }

  // ---- Unfolding --------------------------------------------------------------------------

  /** `f` is `e` with some references, here and there, replaced by unfoldings of what they
      name in `env`. */
  ghost predicate Unfolds(env: Env, e: Elem, f: Elem)
    decreases f, if e.Ident? then 1 else 0
  {
    if e.Ident? && f != e then e.name in env && !env[e.name].Ident? && Unfolds(env, env[e.name], f)
    else
      match e
      case Base(_, _, _) => f == e
      case Ident(_) => true
      case Ptr(y) => f.Ptr? && Unfolds(env, y, f.to)
      case Slice(y) => f.Slice? && Unfolds(env, y, f.els)
      case Array(n, y) => f.Array? && f.size == n && Unfolds(env, y, f.els)
      case Map(y) => f.Map? && Unfolds(env, y, f.value)
      case Struct(fs, tup) =>
        f.Struct? && f.asTuple == tup && |f.fields| == |fs|
        && forall i :: 0 <= i < |fs| ==> f.fields[i].tag == fs[i].tag && Unfolds(env, fs[i].elem, f.fields[i].elem)
  }

  /** Every type of `env1` is an unfolding of the type of the same name in `env0`. */
  ghost predicate EnvUnfolds(env0: Env, env1: Env) {
    && env0.Keys == env1.Keys
    && forall n :: n in env0 ==> !env0[n].Ident? && Unfolds(env0, env0[n], env1[n])
  }

  lemma {:induction false} UnfoldsItself(env: Env, e: Elem)
    ensures Unfolds(env, e, e)
    decreases e
  {
    match e
    case Ptr(y) => UnfoldsItself(env, y);
    case Slice(y) => UnfoldsItself(env, y);
    case Array(_, y) => UnfoldsItself(env, y);
    case Map(y) => UnfoldsItself(env, y);
    case Struct(fs, _) =>
      forall i | 0 <= i < |fs| ensures Unfolds(env, fs[i].elem, fs[i].elem) { UnfoldsItself(env, fs[i].elem); }
    case _ =>
  }

  /** Unfolding an unfolding is unfolding. */
  lemma {:induction false} UnfoldsChain(env: Env, a: Elem, b: Elem, c: Elem)
    requires Unfolds(env, a, b) && Unfolds(env, b, c)
    ensures Unfolds(env, a, c)
    decreases c, if a.Ident? then 1 else 0
  {
    if a.Ident? {
      if b != a { UnfoldsChain(env, env[a.name], b, c); }
    } else {
      match a
      case Base(_, _, _) =>
      case Ptr(y) => UnfoldsChain(env, y, b.to, c.to);
      case Slice(y) => UnfoldsChain(env, y, b.els, c.els);
      case Array(_, y) => UnfoldsChain(env, y, b.els, c.els);
      case Map(y) => UnfoldsChain(env, y, b.value, c.value);
      case Struct(fs, _) =>
        forall i | 0 <= i < |fs| ensures Unfolds(env, fs[i].elem, c.fields[i].elem) {
          UnfoldsChain(env, fs[i].elem, b.fields[i].elem, c.fields[i].elem);
        }
    }
  }

  /** Unfolding never makes a tree simpler. */
  lemma {:induction false} UnfoldingGrows(env: Env, e: Elem, f: Elem)
    requires Unfolds(env, e, f)
    ensures Complexity(e) <= Complexity(f)
    decreases f, 1
  {
    hide FieldsComplexity;
    match e
    case Base(_, _, _) =>
    case Ident(_) => AtLeastOne(f);
    case Ptr(y) => UnfoldingGrows(env, y, f.to);
    case Slice(y) => UnfoldingGrows(env, y, f.els);
    case Array(_, y) => UnfoldingGrows(env, y, f.els);
    case Map(y) => UnfoldingGrows(env, y, f.value);
    case Struct(fs, _) => FieldsGrow(env, fs, f.fields);
  }

  lemma AtLeastOne(e: Elem)
    ensures Complexity(e) >= 1
  {
    hide FieldsComplexity;
  }

  lemma {:induction false} FieldsGrow(env: Env, fs: seq<Field>, gs: seq<Field>)
    requires |fs| == |gs| && forall i :: 0 <= i < |fs| ==> Unfolds(env, fs[i].elem, gs[i].elem)
    ensures FieldsComplexity(fs) <= FieldsComplexity(gs)
    decreases gs, 0
  {
    hide Complexity, Unfolds;
    if fs != [] {
      UnfoldingGrows(env, fs[0].elem, gs[0].elem);
      FieldsGrow(env, fs[1..], gs[1..]);
    }
  }

  // ---- References -----------------------------------------------------------------------------

  ghost predicate Mentions(e: Elem, n: string)
    decreases e
  {
    match e
    case Base(_, _, _) => false
    case Ident(m) => m == n
    case Ptr(y) => Mentions(y, n)
    case Slice(y) => Mentions(y, n)
    case Array(_, y) => Mentions(y, n)
    case Map(y) => Mentions(y, n)
    case Struct(fs, _) => exists i :: 0 <= i < |fs| && Mentions(fs[i].elem, n)
  }

  /** A named primitive is one that is converted on its way to the wire. */
  ghost predicate Named(env: Env) {
    forall n :: n in env && env[n].Base? ==> env[n].convert
  }

  // ---- Nothing left to unfold --------------------------------------------------------------------

  /** A reference to a type of the file is to one that is too complex or refers to itself. */
  ghost predicate Settled(env: Env, e: Elem)
    decreases e
  {
    match e
    case Base(_, _, _) => true
    case Ident(n) => n in env ==> Complexity(env[n]) >= MAX_COMPLEX || Mentions(env[n], n)
    case Ptr(y) => Settled(env, y)
    case Slice(y) => Settled(env, y)
    case Array(_, y) => Settled(env, y)
    case Map(y) => Settled(env, y)
    case Struct(fs, _) => forall i :: 0 <= i < |fs| ==> Settled(env, fs[i].elem)
  }

  ghost predicate AllSettled(env: Env) {
    forall n :: n in env ==> Settled(env, env[n])
  }

  // ---- Unfolding keeps meaning --------------------------------------------------------------------

  /** An unfolding encodes every value like the original, and has the same values. */
  lemma {:induction false} SameBytes(env0: Env, env1: Env, e: Elem, f: Elem, v: GoVal, st: V.Style)
    requires EnvUnfolds(env0, env1) && Unfolds(env0, e, f) && Named(env0) && EnvPlainBytes(env1, st)
      && PlainBytes(f, st)
    ensures EncGo(env0, e, v, st) == EncGo(env1, f, v, st)
    decreases v, if e.Ident? then 1 else 0
  {
    hide V.Enc, V.EncArrayHeader, V.EncMapHeader, V.EncBin, EncGoAll, EncGoEntries, EncGoFields, StructHeader;
    match e
    case Base(_, _, _) =>
    case Ident(n) =>
      if f != e {
        SameBytes(env0, env1, env0[n], f, v, st);
      } else if n in env0 {
        SameBytes(env0, env1, env0[n], env1[n], v, st);
      }
    case Ptr(y) => if v.PtrTo? { SameBytes(env0, env1, y, f.to, v.to, st); }
    case Slice(y) => if v.Sl? { SameElements(env0, env1, y, f.els, v.els, st); }
    case Array(_, y) =>
      SameByteness(env0, y, f.els, st);
      if v.Arr? { SameElements(env0, env1, y, f.els, v.els, st); }
    case Map(y) => if v.Mp? { SameEntries(env0, env1, y, f.value, v.entries, st); }
    case Struct(fs, tup) =>
      if v.Rec? && |v.fields| == |fs| { SameFields(env0, env1, fs, f.fields, v.fields, 0, tup, st); }
  }

  lemma SameByteness(env: Env, y: Elem, z: Elem, st: V.Style)
    requires Named(env) && Unfolds(env, y, z) && !(IsByteArray(z, st) && z.convert)
    ensures IsByteArray(y, st) == IsByteArray(z, st)
  {
  }

  lemma {:induction false} SameElements(env0: Env, env1: Env, e: Elem, f: Elem, vs: seq<GoVal>, st: V.Style)
    requires EnvUnfolds(env0, env1) && Unfolds(env0, e, f) && Named(env0) && EnvPlainBytes(env1, st)
      && PlainBytes(f, st)
    ensures EncGoAll(env0, e, vs, st) == EncGoAll(env1, f, vs, st)
    decreases vs, 2
  {
    hide EncGo, Unfolds, EnvUnfolds, PlainBytes, EnvPlainBytes, Named;
    if vs != [] {
      SameBytes(env0, env1, e, f, vs[0], st);
      SameElements(env0, env1, e, f, vs[1..], st);
    }
  }

  lemma {:induction false} SameEntries(env0: Env, env1: Env, e: Elem, f: Elem, es: seq<GoEntry>, st: V.Style)
    requires EnvUnfolds(env0, env1) && Unfolds(env0, e, f) && Named(env0) && EnvPlainBytes(env1, st)
      && PlainBytes(f, st)
    ensures EncGoEntries(env0, e, es, st) == EncGoEntries(env1, f, es, st)
    decreases es, 2
  {
    hide EncGo, Unfolds, EnvUnfolds, PlainBytes, EnvPlainBytes, Named, V.EncStr;
    if es != [] {
      SameBytes(env0, env1, e, f, es[0].val, st);
      SameEntries(env0, env1, e, f, es[1..], st);
    }
  }

  lemma {:induction false} SameFields(env0: Env, env1: Env, fs: seq<Field>, gs: seq<Field>, vs: seq<GoVal>, i: nat,
                                      tup: bool, st: V.Style)
    requires EnvUnfolds(env0, env1) && Named(env0) && EnvPlainBytes(env1, st) && |fs| == |gs| == |vs|
    requires forall j :: 0 <= j < |fs| ==> gs[j].tag == fs[j].tag && Unfolds(env0, fs[j].elem, gs[j].elem)
    requires forall j :: 0 <= j < |fs| ==> PlainBytes(gs[j].elem, st)
    ensures EncGoFields(env0, fs, vs, i, tup, st) == EncGoFields(env1, gs, vs, i, tup, st)
    decreases vs, 3, |vs| - i
  {
    hide EncGo, Unfolds, EnvUnfolds, PlainBytes, EnvPlainBytes, Named, V.EncStr;
    if i < |vs| {
      SameBytes(env0, env1, fs[i].elem, gs[i].elem, vs[i], st);
      SameFields(env0, env1, fs, gs, vs, i + 1, tup, st);
    }
  }

  /** Unfolding changes no type's values. */
  lemma {:induction false} SameValues(env0: Env, env1: Env, e: Elem, f: Elem, v: GoVal)
    requires EnvUnfolds(env0, env1) && Unfolds(env0, e, f)
    ensures HasType(env0, e, v) <==> HasType(env1, f, v)
    decreases v, if e.Ident? then 1 else 0
  {
    hide V.Fits, PrimOk, DistinctGoKeys;
    match e
    case Base(_, _, _) =>
    case Ident(n) =>
      if f != e {
        SameValues(env0, env1, env0[n], f, v);
      } else if n in env0 {
        SameValues(env0, env1, env0[n], env1[n], v);
      }
    case Ptr(y) => if v.PtrTo? { SameValues(env0, env1, y, f.to, v.to); }
    case Slice(y) =>
      if v.Sl? {
        forall i | 0 <= i < |v.els| ensures HasType(env0, y, v.els[i]) <==> HasType(env1, f.els, v.els[i]) {
          SameValues(env0, env1, y, f.els, v.els[i]);
        }
      }
    case Array(_, y) =>
      if v.Arr? {
        forall i | 0 <= i < |v.els| ensures HasType(env0, y, v.els[i]) <==> HasType(env1, f.els, v.els[i]) {
          SameValues(env0, env1, y, f.els, v.els[i]);
        }
      }
    case Map(y) =>
      if v.Mp? {
        forall i | 0 <= i < |v.entries|
          ensures HasType(env0, y, v.entries[i].val) <==> HasType(env1, f.value, v.entries[i].val)
        {
          SameValues(env0, env1, y, f.value, v.entries[i].val);
        }
      }
    case Struct(fs, _) =>
      if v.Rec? && |v.fields| == |fs| {
        forall i | 0 <= i < |fs|
          ensures HasType(env0, fs[i].elem, v.fields[i]) <==> HasType(env1, f.fields[i].elem, v.fields[i])
        {
          SameValues(env0, env1, fs[i].elem, f.fields[i].elem, v.fields[i]);
        }
      }
  }

  /** The same values for every named type. */
  ghost predicate SameTypes(env0: Env, env1: Env) {
    forall n, v :: n in env0 ==> n in env1 && (HasType(env0, env0[n], v) <==> HasType(env1, env1[n], v))
  }

  /** The same bytes for every value of every named type. */
  ghost predicate SameEncodings(env0: Env, env1: Env, st: V.Style) {
    forall n, v :: n in env0 ==> n in env1 && EncGo(env0, env0[n], v, st) == EncGo(env1, env1[n], v, st)
  }

  lemma UnfoldingKeepsMeaning(env0: Env, env1: Env)
    requires EnvUnfolds(env0, env1) && Named(env0)
    ensures SameTypes(env0, env1)
    ensures forall st :: EnvPlainBytes(env1, st) ==> SameEncodings(env0, env1, st)
  {
    hide Unfolds, HasType, EncGo, PlainBytes, Named;
    forall n, v | n in env0 ensures HasType(env0, env0[n], v) <==> HasType(env1, env1[n], v) {
      SameValues(env0, env1, env0[n], env1[n], v);
    }
    forall st, n, v | EnvPlainBytes(env1, st) && n in env0
      ensures EncGo(env0, env0[n], v, st) == EncGo(env1, env1[n], v, st)
    {
      SameBytes(env0, env1, env0[n], env1[n], v, st);
    }
  }

  // ---- Arrays of named bytes ------------------------------------------------------------------------

  /** No array of a named byte type. */
  ghost predicate NoNamedBytes(env: Env, e: Elem, st: V.Style)
    decreases e
  {
    match e
    case Base(_, _, _) => true
    case Ident(_) => true
    case Ptr(y) => NoNamedBytes(env, y, st)
    case Slice(y) => NoNamedBytes(env, y, st)
    case Array(_, y) => !(y.Ident? && y.name in env && IsByteArray(env[y.name], st)) && NoNamedBytes(env, y, st)
    case Map(y) => NoNamedBytes(env, y, st)
    case Struct(fs, _) => forall i :: 0 <= i < |fs| ==> NoNamedBytes(env, fs[i].elem, st)
  }

  ghost predicate EnvNoNamedBytes(env: Env, st: V.Style) {
    forall n :: n in env ==> NoNamedBytes(env, env[n], st)
  }

  /** A named primitive is always inlined. */
  lemma NamedBaseInlined(env0: Env, env1: Env, b: string, y: Elem)
    requires EnvUnfolds(env0, env1) && Unfolds(env0, Ident(b), y) && Settled(env1, y)
    requires b in env0 && env0[b].Base?
    ensures y == env0[b]
  {
    assert env1[b] == env0[b] && !Mentions(env0[b], b) && Complexity(env0[b]) < MAX_COMPLEX;
    if y != Ident(b) {
      assert Unfolds(env0, env0[b], y);
    }
  }

  /** What is plain after inlining was plain before and held no array of named bytes. */
  lemma {:induction false} WasPlain(env0: Env, env1: Env, e: Elem, f: Elem, st: V.Style)
    requires EnvUnfolds(env0, env1) && Named(env0) && !e.Ident? && Unfolds(env0, e, f) && Settled(env1, f)
    requires PlainBytes(f, st)
    ensures PlainBytes(e, st) && NoNamedBytes(env0, e, st)
    decreases e
  {
    match e
    case Ptr(y) => if !y.Ident? { WasPlain(env0, env1, y, f.to, st); }
    case Slice(y) => if !y.Ident? { WasPlain(env0, env1, y, f.els, st); }
    case Array(_, y) =>
      if !y.Ident? {
        WasPlain(env0, env1, y, f.els, st);
      } else if y.name in env0 && env0[y.name].Base? {
        NamedBaseInlined(env0, env1, y.name, f.els);
      }
    case Map(y) => if !y.Ident? { WasPlain(env0, env1, y, f.value, st); }
    case Struct(fs, _) =>
      forall i | 0 <= i < |fs| ensures PlainBytes(fs[i].elem, st) && NoNamedBytes(env0, fs[i].elem, st) {
        if !fs[i].elem.Ident? { WasPlain(env0, env1, fs[i].elem, f.fields[i].elem, st); }
      }
    case _ =>
  }

  lemma UnfoldsToBase(env: Env, e: Elem, f: Elem)
    requires Unfolds(env, e, f) && f.Base?
    ensures e == f || (e.Ident? && e.name in env && env[e.name] == f)
  {
  }

  lemma {:induction false} StaysPlain(env0: Env, e: Elem, f: Elem, st: V.Style)
    requires Unfolds(env0, e, f) && EnvPlainBytes(env0, st) && EnvNoNamedBytes(env0, st)
    requires PlainBytes(e, st) && NoNamedBytes(env0, e, st)
    ensures PlainBytes(f, st)
    decreases f, if e.Ident? then 1 else 0
  {
    match e
    case Base(_, _, _) =>
    case Ident(n) => if f != e { StaysPlain(env0, env0[n], f, st); }
    case Ptr(y) => StaysPlain(env0, y, f.to, st);
    case Slice(y) => StaysPlain(env0, y, f.els, st);
    case Array(_, y) =>
      StaysPlain(env0, y, f.els, st);
      if f.els.Base? { UnfoldsToBase(env0, y, f.els); }
    case Map(y) => StaysPlain(env0, y, f.value, st);
    case Struct(fs, _) =>
      forall i | 0 <= i < |fs| ensures PlainBytes(f.fields[i].elem, st) {
        StaysPlain(env0, fs[i].elem, f.fields[i].elem, st);
      }
  }

  /** The types' arrays are Go after inlining if and only if they were before and none of them
      is an array of a named byte type. */
  lemma PlainAfterInlining(env0: Env, env1: Env, st: V.Style)
    requires EnvUnfolds(env0, env1) && Named(env0) && AllSettled(env1)
    ensures EnvPlainBytes(env1, st) <==> EnvPlainBytes(env0, st) && EnvNoNamedBytes(env0, st)
  {
    hide Unfolds, Settled, PlainBytes, NoNamedBytes, Named;
    if EnvPlainBytes(env1, st) {
      forall n | n in env0 ensures PlainBytes(env0[n], st) && NoNamedBytes(env0, env0[n], st) {
        WasPlain(env0, env1, env0[n], env1[n], st);
      }
    }
    if EnvPlainBytes(env0, st) && EnvNoNamedBytes(env0, st) {
      forall n | n in env1 ensures PlainBytes(env1[n], st) { StaysPlain(env0, env0[n], env1[n], st); }
    }
  }
}
