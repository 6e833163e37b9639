/** What the readers leave behind when they succeed on bytes nobody vouches for: a value of the
    type they read, for the dynamic reader (msgp/read_bytes.go) and for the generated
    `UnmarshalMsg` (gen/unmarshal.go). */
module AnyResult {
  import opened Wire
  import opened TypeTree
  import opened Decoding
  import opened UnmarshalGen
  import opened GeneratedRoundTrip
  import AnyInput
  import RoundTrip
  import V = Encoding

  // ---- Dynamic values ----------------------------------------------------------------------------

  /** Values that a Go program can hold and the wire format can count. */
  ghost predicate Sound(x: V.Value)
    decreases x
  {
    match x
    case Str(s) => |s| < TWO_32
    case Bin(d) => |d| < TWO_32
    case Ext(_, d) => |d| < TWO_32
    case Arr(els) => |els| < TWO_32 && forall i :: 0 <= i < |els| ==> Sound(els[i])
    case Map(es) => |es| < TWO_32 && SoundEntries(es)
    case _ => true
  }

  ghost predicate SoundEntries(es: seq<V.Entry>)
    decreases es
  {
    V.DistinctKeys(es) && forall i :: 0 <= i < |es| ==> |es[i].key| < TWO_32 && Sound(es[i].val)
  }

  lemma ShortTexts(b: bytes, want: int8)
    ensures ReadStr(b).Ok? ==> |ReadStr(b).value.0| < TWO_32
    ensures ReadBin(b).Ok? ==> |ReadBin(b).value.0| < TWO_32
    ensures ReadMapKey(b).Ok? ==> |ReadMapKey(b).value.0| < TWO_32
    ensures ReadExtension(b, want).Ok? ==> |ReadExtension(b, want).value.0| < TWO_32
  {
    hide U16, U32, SpecOf;
  }

  /** On any input: what the dynamic reader returns is a value, with maps that have each key once. */
  lemma {:induction false} ReadsSound(b: bytes)
    requires ReadIntf(b).Ok?
    ensures Sound(ReadIntf(b).value.0)
    decreases |b|, 1, 0
  {
    hide NextType, ReadMapHeader, ReadArrayHeader, ReadElems, ReadEntries, ReadInt64, ReadUint64, ReadStr, ReadBin,
      ReadExtension, ReadTime, ReadComplex64, ReadComplex128, ReadFloat32, ReadFloat64, ReadBool, ReadNil,
      PeekExtension, Sound;
    match NextType(b) {
      case MapType =>
        var (n, o) := ReadMapHeader(b).value;
        EntriesSound(n, o, []);
        SoundMap(ReadEntries(n, o, []).value.0);
      case ArrayType =>
        var (n, o) := ReadArrayHeader(b).value;
        ElemsSound(n, o);
        SoundArr(ReadElems(n, o).value.0);
      case _ => ScalarSound(b);
    }
  }

  lemma SoundMap(es: seq<V.Entry>)
    requires |es| < TWO_32 && SoundEntries(es)
    ensures Sound(V.Map(es))
  {
  }

  lemma SoundArr(vs: seq<V.Value>)
    requires |vs| < TWO_32 && forall i :: 0 <= i < |vs| ==> Sound(vs[i])
    ensures Sound(V.Arr(vs))
  {
  }

  lemma ScalarSound(b: bytes)
    requires ReadIntf(b).Ok? && NextType(b) != MapType && NextType(b) != ArrayType
    ensures Sound(ReadIntf(b).value.0)
  {
    hide NextType, ReadInt64, ReadUint64, ReadStr, ReadBin, ReadExtension, ReadFloat32, ReadBool, ReadNil,
      PeekExtension, U32, U64, SpecOf;
    var t := PeekExtension(b);
    ShortTexts(b, if t.Ok? then t.value else 0);
  }

  lemma {:induction false} ElemsSound(n: nat, b: bytes)
    requires ReadElems(n, b).Ok?
    ensures forall i :: 0 <= i < n ==> Sound(ReadElems(n, b).value.0[i])
    decreases |b|, 2, n
  {
    hide ReadIntf, Sound;
    if n > 0 {
      var (v, o) := ReadIntf(b).value;
      ReadsSound(b);
      ElemsSound(n - 1, o);
    }
  }

  lemma {:induction false} EntriesSound(n: nat, b: bytes, acc: seq<V.Entry>)
    requires ReadEntries(n, b, acc).Ok? && SoundEntries(acc)
    ensures SoundEntries(ReadEntries(n, b, acc).value.0) && |ReadEntries(n, b, acc).value.0| <= |acc| + n
    decreases |b|, 2, n
  {
    hide ReadIntf, ReadMapKey, Sound, SoundEntries, V.Assign;
    if n > 0 {
      var (key, o) := ReadMapKey(b).value;
      var (val, o') := ReadIntf(o).value;
      ShortTexts(b, 0);
      ReadsSound(o);
      AssignSound(acc, key, val);
      EntriesSound(n - 1, o', V.Assign(acc, key, val));
    }
  }

  lemma {:induction false} AssignSound(es: seq<V.Entry>, key: bytes, val: V.Value)
    requires SoundEntries(es) && |key| < TWO_32 && Sound(val)
    ensures SoundEntries(V.Assign(es, key, val)) && |V.Assign(es, key, val)| <= |es| + 1
  {
    hide Sound;
    V.AssignKeys(es, key, val);
    AssignOrigin(es, key, val);
    var r := V.Assign(es, key, val);
    forall i | 0 <= i < |r| ensures |r[i].key| < TWO_32 && Sound(r[i].val) {
      assert r[i] in r;
    }
  }

  /** Every entry after an assignment was there before or is the assigned one. */
  lemma {:induction false} AssignOrigin(es: seq<V.Entry>, key: bytes, val: V.Value)
    ensures var r := V.Assign(es, key, val);
      |r| <= |es| + 1 && forall e :: e in r ==> e == V.Entry(key, val) || e in es
  {
    if es != [] && es[0].key != key { AssignOrigin(es[1..], key, val); }
  }

  // ---- Values of generated types --------------------------------------------------------------------

  /** A value of a base type. Go widens a float32 read into a float64, which keeps its pattern here. */
  ghost predicate BaseShaped(p: Prim, v: GoVal) {
    if p == PIntf then v.Dyn? && Sound(v.v)
    else if p == PRaw then v.Raw? && |v.body| < TWO_32
    else v.Scalar? && (PrimOk(p, v.v) || (p == PFloat64 && v.v.Float32?))
  }

  /** `v` is a value of the type, with `Zero` in place of the zero value of any type. */
  ghost predicate Shaped(env: Env, e: Elem, v: GoVal)
    decreases v, if e.Ident? then 1 else 0
  {
    v.Zero? ||
    match e
    case Base(p, _, _) => BaseShaped(p, v)
    case Ident(n) => n in env && !env[n].Ident? && Shaped(env, env[n], v)
    case Ptr(y) => v.NilPtr? || (v.PtrTo? && Shaped(env, y, v.to))
    case Slice(y) => v.Sl? && |v.els| < TWO_32 && AllShaped(env, y, v.els) && AllShaped(env, y, v.spare)
    case Array(n, y) => v.Arr? && |v.els| == n && AllShaped(env, y, v.els)
    case Map(y) => v.Mp? && |v.entries| < TWO_32 && EntriesShaped(env, y, v.entries)
    case Struct(fs, _) => v.Rec? && |v.fields| == |fs| && FieldsShaped(env, fs, v.fields)
  }

  ghost predicate AllShaped(env: Env, e: Elem, vs: seq<GoVal>)
    decreases vs, 2
  {
    forall i :: 0 <= i < |vs| ==> Shaped(env, e, vs[i])
  }

  ghost predicate EntriesShaped(env: Env, e: Elem, es: seq<GoEntry>)
    decreases es, 2
  {
    DistinctGoKeys(es) && forall i :: 0 <= i < |es| ==> |es[i].key| < TWO_32 && Shaped(env, e, es[i].val)
  }

  ghost predicate FieldsShaped(env: Env, fs: seq<Field>, vs: seq<GoVal>)
    requires |fs| == |vs|
    decreases vs, 2
  {
    forall i :: 0 <= i < |vs| ==> Shaped(env, fs[i].elem, vs[i])
  }

  /** No named type is just a name. */
  ghost predicate NoAliases(env: Env) {
    forall n :: n in env ==> !env[n].Ident?
  }

  lemma PrimShaped(p: Prim, target: GoVal, b: bytes)
    requires ReadPrim(p, Wanted(p, target), b).Ok?
    ensures BaseShaped(p, Holding(p, ReadPrim(p, Wanted(p, target), b).value.0))
  {
    hide ReadIntf, ReadInt64, ReadUint64, ReadStr, ReadBin, ReadExtension, ReadFloat32, ReadBool,
      U32, U64, SpecOf, Sound;
    ShortTexts(b, Wanted(p, target));
    if p == PIntf { ReadsSound(b); }
  }

  /** On any input, into any variable that holds a value of its type: what a successful generated
      `UnmarshalMsg` leaves is a value of that type. */
  lemma {:induction false} LeavesItsType(env: Env, e: Elem, v: GoVal, b: bytes, fuel: nat)
    requires NoAliases(env) && Shaped(env, e, v) && Exec(Programs(env), Emit(e), v, b, fuel).Ok?
    ensures Shaped(env, e, Exec(Programs(env), Emit(e), v, b, fuel).value.0)
    decreases fuel, e, 1
  {
    hide Exec, ReadPrim, ReadExact, ReadMapHeader, ReadArrayHeader, Loop, EntryLoop, EmitTuple, AllShaped,
      ByteString, Elements, Expand, Resize, FieldLoop, EmitCases, BaseShaped, EntriesShaped, FieldsShaped;
    var ps := Programs(env);
    match e
    case Base(p, _, _) =>
      ExecSingle(ps, ReadBase(p), v, b, fuel);
      PrimShaped(p, v, b);
    case Ident(n) =>
      ExecSingle(ps, CallUnmarshal(n), v, b, fuel);
      LeavesItsType(env, env[n], v, b, fuel - 1);
    case Ptr(y) =>
      ExecSingle(ps, NilOr(Emit(y)), v, b, fuel);
      if !IsNil(b) { LeavesItsType(env, y, Pointee(v), b, fuel); }
    case Slice(_) => ArrayLeaves(env, e, v, b, fuel);
    case Array(_, _) => ArrayLeaves(env, e, v, b, fuel);
    case Map(y) =>
      ExecSingle(ps, MapLoop(Emit(y)), v, b, fuel);
      var (n, o) := ReadMapHeader(b).value;
      NoneShaped(env, y);
      EntriesLeave(env, y, n, [], o, fuel);
    case Struct(_, _) => StructLeaves(env, e, v, b, fuel);
  }

  lemma ArrayLeaves(env: Env, e: Elem, v: GoVal, b: bytes, fuel: nat)
    requires e.Slice? || e.Array?
    requires NoAliases(env) && Shaped(env, e, v) && Exec(Programs(env), Emit(e), v, b, fuel).Ok?
    ensures Shaped(env, e, Exec(Programs(env), Emit(e), v, b, fuel).value.0)
    decreases fuel, e, 0
  {
    hide Exec, ReadExact, ReadArrayHeader, Loop, AllShaped, ByteString, Elements, Resize, BytesToGo;
    var ps := Programs(env);
    match e
    case Slice(y) =>
      ExecTwo(ps, ResizeSlice, RangeInto(Emit(y)), v, b, fuel);
      var (n, o) := ReadArrayHeader(b).value;
      ResizeShaped(env, y, v, n);
      LoopLeaves(env, y, Resize(v, n).els, o, fuel);
    case Array(n, y) =>
      if IsByteArray(y, V.Slice) {
        ExecSingle(ps, ReadExactly(n, y.convert), v, b, fuel);
        BytesShaped(env, y, ReadExact(b, ByteString(Elements(v, n))).value.0);
      } else {
        AnyInput.ArrayCount(env, n, y, v, b, fuel);
        ElementsShaped(env, n, y, v);
        LoopLeaves(env, y, Elements(v, n), ReadArrayHeader(b).value.1, fuel);
      }
  }

  lemma ResizeShaped(env: Env, y: Elem, v: GoVal, n: nat)
    requires Shaped(env, Slice(y), v)
    ensures AllShaped(env, y, Resize(v, n).els) && AllShaped(env, y, Resize(v, n).spare)
  {
    assert v.Sl? ==> forall i :: 0 <= i < |v.els + v.spare| ==> Shaped(env, y, (v.els + v.spare)[i]);
  }

  lemma ElementsShaped(env: Env, n: nat, y: Elem, v: GoVal)
    requires Shaped(env, Array(n, y), v)
    ensures AllShaped(env, y, Elements(v, n))
  {
  }

  lemma BytesShaped(env: Env, y: Elem, d: bytes)
    requires IsByteArray(y, V.Slice)
    ensures AllShaped(env, y, BytesToGo(d))
  {
  }

  lemma StructLeaves(env: Env, e: Elem, v: GoVal, b: bytes, fuel: nat)
    requires e.Struct?
    requires NoAliases(env) && Shaped(env, e, v) && Exec(Programs(env), Emit(e), v, b, fuel).Ok?
    ensures Shaped(env, e, Exec(Programs(env), Emit(e), v, b, fuel).value.0)
    decreases fuel, e, 0
  {
    hide Exec, ReadMapHeader, ReadArrayHeader, EmitTuple, Expand, FieldLoop, EmitCases, FieldsShaped;
    var ps, fs, n := Programs(env), e.fields, |e.fields|;
    ExpandShaped(env, fs, v, e.asTuple);
    if e.asTuple {
      AnyInput.TupleCount(env, fs, v, b, fuel);
      TupleLeaves(env, fs, 0, Rec(Expand(v, n)), ReadArrayHeader(b).value.1, fuel);
    } else {
      ExecSingle(ps, StructLoop(n, EmitCases(fs, 0)), v, b, fuel);
      var (sz, o) := ReadMapHeader(b).value;
      FieldsLeave(env, fs, sz, Rec(Expand(v, n)), o, fuel);
    }
  }

  lemma ExpandShaped(env: Env, fs: seq<Field>, v: GoVal, tup: bool)
    requires Shaped(env, Struct(fs, tup), v)
    ensures FieldsShaped(env, fs, Expand(v, |fs|))
  {
  }

  lemma {:induction false} LoopLeaves(env: Env, y: Elem, vs: seq<GoVal>, b: bytes, fuel: nat)
    requires NoAliases(env) && AllShaped(env, y, vs) && Loop(Programs(env), Emit(y), vs, b, fuel).Ok?
    ensures AllShaped(env, y, Loop(Programs(env), Emit(y), vs, b, fuel).value.0)
    decreases fuel, y, 2, |vs|
  {
    hide Exec, Emit, Shaped;
    if vs != [] {
      var (w, o) := Exec(Programs(env), Emit(y), vs[0], b, fuel).value;
      LeavesItsType(env, y, vs[0], b, fuel);
      LoopLeaves(env, y, vs[1..], o, fuel);
    }
  }

  lemma {:induction false} EntriesLeave(env: Env, y: Elem, n: nat, es: seq<GoEntry>, b: bytes, fuel: nat)
    requires NoAliases(env) && EntriesShaped(env, y, es) && EntryLoop(Programs(env), Emit(y), n, es, b, fuel).Ok?
    ensures var r := EntryLoop(Programs(env), Emit(y), n, es, b, fuel).value.0;
      EntriesShaped(env, y, r) && |r| <= |es| + n
    decreases fuel, y, 2, n
  {
    hide Exec, Emit, Shaped, EntriesShaped, ReadStr, AssignGo;
    if n > 0 {
      var (key, o) := ReadStr(b).value;
      ShortTexts(b, 0);
      ZeroShaped(env, y);
      var (val, o') := Exec(Programs(env), Emit(y), Zero, o, fuel).value;
      LeavesItsType(env, y, Zero, o, fuel);
      AssignShaped(env, y, es, key, val);
      EntriesLeave(env, y, n - 1, AssignGo(es, key, val), o', fuel);
    }
  }

  lemma NoneShaped(env: Env, e: Elem)
    ensures EntriesShaped(env, e, [])
  {
  }

  lemma ZeroShaped(env: Env, e: Elem)
    ensures Shaped(env, e, Zero)
  {
  }

  /** Go's map assignment keeps each key once. */
  lemma {:induction false} AssignShaped(env: Env, y: Elem, es: seq<GoEntry>, key: bytes, val: GoVal)
    requires EntriesShaped(env, y, es) && |key| < TWO_32 && Shaped(env, y, val)
    ensures EntriesShaped(env, y, AssignGo(es, key, val)) && |AssignGo(es, key, val)| <= |es| + 1
  {
    hide Shaped;
    AssignGoKeys(es, key, val);
    var r := AssignGo(es, key, val);
    forall i | 0 <= i < |r| ensures |r[i].key| < TWO_32 && Shaped(env, y, r[i].val) {
      assert r[i] in r;
    }
  }

  /** The key gets the value, every other entry stays, nothing else appears. */
  lemma {:induction false} AssignGoKeys(es: seq<GoEntry>, key: bytes, val: GoVal)
    ensures var r := AssignGo(es, key, val);
      && |r| <= |es| + 1
      && GoEntry(key, val) in r && (forall e :: e in es && e.key != key ==> e in r)
      && (forall e :: e in r ==> e == GoEntry(key, val) || e in es)
      && (DistinctGoKeys(es) ==> DistinctGoKeys(r))
  {
    if es != [] && es[0].key != key {
      var tail := AssignGo(es[1..], key, val);
      AssignGoKeys(es[1..], key, val);
      forall e | e in tail && DistinctGoKeys(es) ensures e.key != es[0].key {
        if e in es[1..] {
          var j :| 0 <= j < |es[1..]| && es[1..][j] == e;
          assert es[j + 1] == e;
        }
      }
    }
  }

  lemma {:induction false} TupleLeaves(env: Env, fs: seq<Field>, i: nat, v: GoVal, b: bytes, fuel: nat)
    requires i <= |fs| && v.Rec? && |v.fields| == |fs| && FieldsShaped(env, fs, v.fields) && NoAliases(env)
    requires Exec(Programs(env), EmitTuple(fs, i), v, b, fuel).Ok?
    ensures var w := Exec(Programs(env), EmitTuple(fs, i), v, b, fuel).value.0;
      w.Rec? && |w.fields| == |fs| && FieldsShaped(env, fs, w.fields)
    decreases fuel, fs, 1, |fs| - i
  {
    hide Exec, Emit, FieldsShaped, Within;
    var ps := Programs(env);
    if i == |fs| {
      ExecNone(ps, v, b, fuel);
    } else {
      var ss := Within(Sel(i, |fs|), Emit(fs[i].elem));
      ExecConcat(ps, ss, EmitTuple(fs, i + 1), v, b, fuel);
      var (v', o) := Exec(ps, ss, v, b, fuel).value;
      FieldLeaves(env, fs, i, v, b, fuel);
      TupleLeaves(env, fs, i + 1, v', o, fuel);
    }
  }

  lemma FieldLeaves(env: Env, fs: seq<Field>, i: nat, v: GoVal, b: bytes, fuel: nat)
    requires i < |fs| && v.Rec? && |v.fields| == |fs| && FieldsShaped(env, fs, v.fields) && NoAliases(env)
    requires Exec(Programs(env), Within(Sel(i, |fs|), Emit(fs[i].elem)), v, b, fuel).Ok?
    ensures var w := Exec(Programs(env), Within(Sel(i, |fs|), Emit(fs[i].elem)), v, b, fuel).value.0;
      w.Rec? && |w.fields| == |fs| && FieldsShaped(env, fs, w.fields)
    decreases fuel, fs, 0
  {
    hide Exec, Emit, Shaped, Within;
    WithinLifts(Programs(env), Sel(i, |fs|), Emit(fs[i].elem), v, b, fuel);
    LeavesItsType(env, fs[i].elem, v.fields[i], b, fuel);
  }

  lemma {:induction false} FieldsLeave(env: Env, fs: seq<Field>, n: nat, v: GoVal, b: bytes, fuel: nat)
    requires v.Rec? && |v.fields| == |fs| && FieldsShaped(env, fs, v.fields) && NoAliases(env)
    requires FieldLoop(Programs(env), EmitCases(fs, 0), n, v, b, fuel).Ok?
    ensures var w := FieldLoop(Programs(env), EmitCases(fs, 0), n, v, b, fuel).value.0;
      w.Rec? && |w.fields| == |fs| && FieldsShaped(env, fs, w.fields)
    decreases fuel, fs, 1, n
  {
    hide Exec, Emit, FieldsShaped, Within, ReadMapKey, FindCase, EmitCases, Skip;
    if n > 0 {
      var (key, o) := ReadMapKey(b).value;
      var found := FindCase(EmitCases(fs, 0), key);
      if found.Ok? {
        var i := AnyInput.CaseFound(fs, 0, key);
        FieldLeaves(env, fs, i, v, o, fuel);
        var r := Exec(Programs(env), found.value, v, o, fuel).value;
        FieldsLeave(env, fs, n - 1, r.0, r.1, fuel);
      } else {
        FieldsLeave(env, fs, n - 1, v, Skip(o).value, fuel);
      }
    }
  }

  // ---- What is left of the old value -----------------------------------------------------------------

  /** `n` empty maps in a row. */
  function Empties(n: nat): bytes { seq(n, _ => 0x80) }

  /** Fields that are not sent keep what the slice's memory holds: read into a slice with the
      capacity, `n` empty maps show its first `n` structs again, those behind its length included. */
  lemma StaleElements(env: Env, fs: seq<Field>, els: seq<GoVal>, spare: seq<GoVal>, n: uint32, rest: bytes, fuel: nat)
    requires n <= |els + spare| && forall v :: v in els + spare ==> v.Rec? && |v.fields| == |fs|
    ensures var store, b := els + spare, V.EncArrayHeader(n) + (Empties(n) + rest);
      Exec(Programs(env), Emit(Slice(Struct(fs, false))), Sl(els, spare), b, fuel)
      == Ok((Sl(store[..n], store[n..]), rest))
  {
    hide Exec, Loop, Emit, ReadArrayHeader, V.EncArrayHeader;
    var e, store, body := Struct(fs, false), els + spare, Empties(n) + rest;
    assert Emit(Slice(e)) == [Stmt([], ResizeSlice), Stmt([], RangeInto(Emit(e)))] by { SliceEmits(e); }
    ExecTwo(Programs(env), ResizeSlice, RangeInto(Emit(e)), Sl(els, spare), V.EncArrayHeader(n) + body, fuel);
    RoundTrip.ArrayHeaderBack(n, body);
    forall v | v in store[..n] ensures v in store { }
    EmptiesKeep(env, fs, store[..n], rest, fuel);
  }

  lemma SliceEmits(e: Elem)
    ensures Emit(Slice(e)) == [Stmt([], ResizeSlice), Stmt([], RangeInto(Emit(e)))]
  {
  }

  lemma {:induction false} EmptiesKeep(env: Env, fs: seq<Field>, vs: seq<GoVal>, rest: bytes, fuel: nat)
    requires forall v :: v in vs ==> v.Rec? && |v.fields| == |fs|
    ensures Loop(Programs(env), Emit(Struct(fs, false)), vs, Empties(|vs|) + rest, fuel) == Ok((vs, rest))
  {
    hide Exec, Emit;
    if vs == [] {
      assert Empties(0) + rest == rest;
    } else {
      var tail := Empties(|vs| - 1) + rest;
      assert Empties(|vs|) + rest == [0x80] + tail;
      EmptyKeeps(env, fs, vs[0], tail, fuel);
      EmptiesKeep(env, fs, vs[1..], rest, fuel);
      assert [vs[0]] + vs[1..] == vs;
    }
  }

  lemma EmptyKeeps(env: Env, fs: seq<Field>, v: GoVal, rest: bytes, fuel: nat)
    requires v.Rec? && |v.fields| == |fs|
    ensures Exec(Programs(env), Emit(Struct(fs, false)), v, [0x80] + rest, fuel) == Ok((v, rest))
  {
    hide Exec, EmitCases;
    ExecSingle(Programs(env), StructLoop(|fs|, EmitCases(fs, 0)), v, [0x80] + rest, fuel);
    assert ([0x80] + rest)[1..] == rest;
    assert ReadMapHeader([0x80] + rest) == Ok((0, rest));
  }
}
