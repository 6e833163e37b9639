/** `EncodeMsg` and `MarshalMsg` of the same type (gen/encode.go, gen/marshal.go): exactly when
    they write the same bytes. */
module GeneratedStyles {
  import opened Wire
  import opened TypeTree
  import opened Skipping
  import opened GeneratedObjects
  import WriterRuns
  import V = Encoding

  /** A base value that both encoders write alike. */
  predicate FormFree(v: GoVal) { IsLeaf(v) ==> WriterRuns.NoFixExt(Held(v)) }

  /** Along the value there is no array of `uint8`, which only the streaming generator writes as
      one bin object, and no extension of one of the lengths that only the stream encoder has
      fixed forms for. */
  predicate SameForm(env: Env, e: Elem, v: GoVal)
    decreases v, if e.Ident? then 1 else 0
  {
    match e
    case Base(_, _, _) => FormFree(v)
    case Ident(n) => n in env && !env[n].Ident? ==> SameForm(env, env[n], v)
    case Ptr(y) => v.PtrTo? ==> SameForm(env, y, v.to)
    case Slice(y) => v.Sl? ==> forall i :: 0 <= i < |v.els| ==> SameForm(env, y, v.els[i])
    case Array(_, y) =>
      if IsByteArray(y, V.Stream) then IsByteArray(y, V.Slice)
      else v.Arr? ==> forall i :: 0 <= i < |v.els| ==> SameForm(env, y, v.els[i])
    case Map(y) => v.Mp? ==> forall i :: 0 <= i < |v.entries| ==> SameForm(env, y, v.entries[i].val)
    case Struct(fs, _) =>
      v.Rec? && |v.fields| == |fs| ==> forall i :: 0 <= i < |fs| ==> SameForm(env, fs[i].elem, v.fields[i])
  }

  /** Sequences of objects agree exactly if they agree object by object: differences cannot
      cancel out. */
  lemma Cancel(p: bytes, q: bytes, c: bytes, d: bytes)
    requires IsObject(p) && IsObject(q)
    ensures p + c == q + d <==> p == q && c == d
  {
    hide IsObject;
    if p + c == q + d { ObjectsPrefixFree(p, q, c, d); }
  }

  /** The two generators write the same bytes if and only if the value has such a form: for
      every environment, type tree and value. */
  lemma {:induction false} GeneratorsAgree(env: Env, e: Elem, v: GoVal)
    requires HasType(env, e, v)
    ensures EncGo(env, e, v, V.Stream) == EncGo(env, e, v, V.Slice) <==> SameForm(env, e, v)
    decreases v, if e.Ident? then 2 else 1
  {
    hide HasType, EncGo, SameForm;
    match e
    case Base(_, _, _) => LeafAgrees(env, e, v);
    case Ident(n) => LeafAgrees(env, e, v);
    case Ptr(y) => LeafAgrees(env, e, v);
    case Slice(y) => SliceAgrees(env, y, v);
    case Array(n, y) => ArrayAgrees(env, n, y, v);
    case Map(y) => MapAgrees(env, y, v);
    case Struct(fs, tup) => StructAgrees(env, fs, tup, v);
  }

  lemma LeafAgrees(env: Env, e: Elem, v: GoVal)
    requires (e.Base? || e.Ident? || e.Ptr?) && HasType(env, e, v)
    ensures EncGo(env, e, v, V.Stream) == EncGo(env, e, v, V.Slice) <==> SameForm(env, e, v)
    decreases v, if e.Ident? then 2 else 1, 0
  {
    hide V.Enc, WriterRuns.NoFixExt, PrimOk, V.Fits;
    match e
    case Base(_, _, _) => WriterRuns.StylesAgree(Held(v));
    case Ident(n) => GeneratorsAgree(env, env[n], v);
    case Ptr(y) => if v.PtrTo? { GeneratorsAgree(env, y, v.to); }
  }

  lemma SliceAgrees(env: Env, y: Elem, v: GoVal)
    requires HasType(env, Slice(y), v)
    ensures EncGo(env, Slice(y), v, V.Stream) == EncGo(env, Slice(y), v, V.Slice) <==> SameForm(env, Slice(y), v)
    decreases v, 0
  {
    SliceParts(env, y, v);
    hide HasType, EncGo, SameForm, V.EncArrayHeader, EncGoAll;
    ElementsAgree(env, y, v.els);
    CancelFront(V.EncArrayHeader(|v.els|), EncGoAll(env, y, v.els, V.Stream), EncGoAll(env, y, v.els, V.Slice));
  }

  lemma SliceParts(env: Env, y: Elem, v: GoVal)
    requires HasType(env, Slice(y), v)
    ensures v.Sl? && |v.els| < TWO_32 && AllTyped(env, y, v.els)
    ensures forall st :: EncGo(env, Slice(y), v, st) == V.EncArrayHeader(|v.els|) + EncGoAll(env, y, v.els, st)
    ensures SameForm(env, Slice(y), v) <==> forall i :: 0 <= i < |v.els| ==> SameForm(env, y, v.els[i])
  {
    hide V.EncArrayHeader, EncGoAll;
  }

  lemma MapAgrees(env: Env, y: Elem, v: GoVal)
    requires HasType(env, Map(y), v)
    ensures EncGo(env, Map(y), v, V.Stream) == EncGo(env, Map(y), v, V.Slice) <==> SameForm(env, Map(y), v)
    decreases v, 0
  {
    MapParts(env, y, v);
    hide HasType, EncGo, SameForm, V.EncMapHeader, EncGoEntries;
    EntriesAgree(env, y, v.entries);
    CancelFront(V.EncMapHeader(|v.entries|), EncGoEntries(env, y, v.entries, V.Stream),
                EncGoEntries(env, y, v.entries, V.Slice));
  }

  lemma MapParts(env: Env, y: Elem, v: GoVal)
    requires HasType(env, Map(y), v)
    ensures v.Mp? && |v.entries| < TWO_32 && EntriesTyped(env, y, v.entries)
    ensures forall st :: EncGo(env, Map(y), v, st) == V.EncMapHeader(|v.entries|) + EncGoEntries(env, y, v.entries, st)
    ensures SameForm(env, Map(y), v) <==> forall i :: 0 <= i < |v.entries| ==> SameForm(env, y, v.entries[i].val)
  {
    hide V.EncMapHeader, EncGoEntries, DistinctGoKeys;
  }

  lemma StructAgrees(env: Env, fs: seq<Field>, tup: bool, v: GoVal)
    requires HasType(env, Struct(fs, tup), v)
    ensures EncGo(env, Struct(fs, tup), v, V.Stream) == EncGo(env, Struct(fs, tup), v, V.Slice)
       <==> SameForm(env, Struct(fs, tup), v)
    decreases v, 0
  {
    hide StructHeader, EncGoFields;
    FieldsAgree(env, fs, v.fields, 0, tup);
    CancelFront(StructHeader(|fs|, tup), EncGoFields(env, fs, v.fields, 0, tup, V.Stream),
                EncGoFields(env, fs, v.fields, 0, tup, V.Slice));
  }

  lemma ArrayAgrees(env: Env, n: nat, y: Elem, v: GoVal)
    requires HasType(env, Array(n, y), v)
    ensures EncGo(env, Array(n, y), v, V.Stream) == EncGo(env, Array(n, y), v, V.Slice)
      <==> SameForm(env, Array(n, y), v)
    decreases v, 0
  {
    hide V.EncArrayHeader, V.EncBinHeader, EncGoAll;
    if IsByteArray(y, V.Stream) {
      if !IsByteArray(y, V.Slice) { HeadersDiffer(n, EncGoAll(env, y, v.els, V.Slice), ByteString(v.els)); }
    } else {
      ElementsAgree(env, y, v.els);
      CancelFront(V.EncArrayHeader(n), EncGoAll(env, y, v.els, V.Stream), EncGoAll(env, y, v.els, V.Slice));
    }
  }

  lemma {:induction false} ElementsAgree(env: Env, e: Elem, vs: seq<GoVal>)
    requires AllTyped(env, e, vs)
    ensures EncGoAll(env, e, vs, V.Stream) == EncGoAll(env, e, vs, V.Slice)
       <==> forall i :: 0 <= i < |vs| ==> SameForm(env, e, vs[i])
    decreases vs, 2
  {
    hide EncGo, SameForm, HasType, IsObject;
    if vs != [] {
      GeneratorsAgree(env, e, vs[0]);
      ElementsAgree(env, e, vs[1..]);
      GeneratedIsObject(env, e, vs[0], V.Stream);
      GeneratedIsObject(env, e, vs[0], V.Slice);
      Cancel(EncGo(env, e, vs[0], V.Stream), EncGo(env, e, vs[0], V.Slice), EncGoAll(env, e, vs[1..], V.Stream),
             EncGoAll(env, e, vs[1..], V.Slice));
      assert forall i :: 0 < i < |vs| ==> vs[i] == vs[1..][i - 1];
    }
  }

  lemma {:induction false} EntriesAgree(env: Env, e: Elem, es: seq<GoEntry>)
    requires EntriesTyped(env, e, es)
    ensures EncGoEntries(env, e, es, V.Stream) == EncGoEntries(env, e, es, V.Slice)
       <==> forall i :: 0 <= i < |es| ==> SameForm(env, e, es[i].val)
    decreases es, 2
  {
    hide EncGo, SameForm, HasType, IsObject, V.EncStr;
    if es != [] {
      var x, a, b := es[0].val, EncGoEntries(env, e, es[1..], V.Stream), EncGoEntries(env, e, es[1..], V.Slice);
      GeneratorsAgree(env, e, x);
      EntriesAgree(env, e, es[1..]);
      GeneratedIsObject(env, e, x, V.Stream);
      GeneratedIsObject(env, e, x, V.Slice);
      Cancel(EncGo(env, e, x, V.Stream), EncGo(env, e, x, V.Slice), a, b);
      CancelFront(V.EncStr(es[0].key), EncGo(env, e, x, V.Stream) + a, EncGo(env, e, x, V.Slice) + b);
      assert forall i :: 0 < i < |es| ==> es[i] == es[1..][i - 1];
    }
  }

  lemma {:induction false} FieldsAgree(env: Env, fs: seq<Field>, vs: seq<GoVal>, i: nat, tup: bool)
    requires |fs| == |vs| && FieldsTyped(env, fs, vs)
    ensures EncGoFields(env, fs, vs, i, tup, V.Stream) == EncGoFields(env, fs, vs, i, tup, V.Slice)
       <==> forall j :: i <= j < |fs| ==> SameForm(env, fs[j].elem, vs[j])
    decreases vs, 3, |vs| - i
  {
    hide EncGo, SameForm, HasType, IsObject, FieldTag;
    if i < |vs| {
      var a, b := EncGoFields(env, fs, vs, i + 1, tup, V.Stream), EncGoFields(env, fs, vs, i + 1, tup, V.Slice);
      var p, q := EncGo(env, fs[i].elem, vs[i], V.Stream), EncGo(env, fs[i].elem, vs[i], V.Slice);
      GeneratorsAgree(env, fs[i].elem, vs[i]);
      FieldsAgree(env, fs, vs, i + 1, tup);
      GeneratedIsObject(env, fs[i].elem, vs[i], V.Stream);
      GeneratedIsObject(env, fs[i].elem, vs[i], V.Slice);
      Cancel(p, q, a, b);
      CancelFront(FieldTag(fs[i], tup), p + a, q + b);
    }
  }

  /** In particular, for an array of primitives whose code is Go with both generators, of any
      length: the generators agree exactly if the elements are not `uint8` and none of them is an
      extension of a length with a fixed form. */
  lemma PrimArrayExactly(env: Env, k: nat, y: Elem, v: GoVal)
    requires y.Base? && HasType(env, Array(k, y), v) && PlainBytes(Array(k, y), V.Stream)
    ensures EncGo(env, Array(k, y), v, V.Stream) == EncGo(env, Array(k, y), v, V.Slice)
      <==> y.prim != PUint8 && forall i :: 0 <= i < k ==> FormFree(v.els[i])
  {
    hide EncGo;
    GeneratorsAgree(env, Array(k, y), v);
    if y.prim == PByte {
      forall i | 0 <= i < k ensures FormFree(v.els[i]) { assert HasType(env, y, v.els[i]); }
    }
  }
}
