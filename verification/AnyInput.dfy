/** What the generated `UnmarshalMsg` (gen/unmarshal.go) does with bytes nobody vouches for: if it
    succeeds it has read exactly the object `Skip` drops, and what it has read has the type. */
module AnyInput {
  import opened Wire
  import opened TypeTree
  import opened Decoding
  import opened Skipping
  import opened UnmarshalGen
  import opened GeneratedRoundTrip
  import V = Encoding

  // ---- Counts ------------------------------------------------------------------------------------

  /** A tuple struct reads nothing but an array of as many elements as it has fields. */
  lemma TupleCount(env: Env, fs: seq<Field>, v: GoVal, b: bytes, fuel: nat)
    ensures var r := Exec(Programs(env), Emit(Struct(fs, true)), v, b, fuel);
      var h := ReadArrayHeader(b);
      if h.Err? then r == Err(h.error)
      else if h.value.0 != |fs| then r == Err(ArrayError(|fs|, h.value.0))
      else r == Exec(Programs(env), EmitTuple(fs, 0), Rec(Expand(v, |fs|)), h.value.1, fuel)
  {
    hide Exec, EmitTuple, ReadArrayHeader, Expand;
    ExecSingle(Programs(env), TupleHeader(|fs|), v, b, fuel);
    ExecConcat(Programs(env), [Stmt([], TupleHeader(|fs|))], EmitTuple(fs, 0), v, b, fuel);
  }

  /** An array reads nothing but an array of its own length, or, if its elements are bytes, a
      bin object of its own length. */
  lemma ArrayCount(env: Env, n: nat, y: Elem, v: GoVal, b: bytes, fuel: nat)
    requires !IsByteArray(y, V.Slice)
    ensures var r := Exec(Programs(env), Emit(Array(n, y)), v, b, fuel);
      var h := ReadArrayHeader(b);
      if h.Err? then r == Err(h.error)
      else if h.value.0 != n % 4294967296 then r == Err(ArrayError(n % 4294967296, h.value.0))
      else r == Do(Programs(env), RangeInto(Emit(y)), Arr(Elements(v, n)), h.value.1, fuel)
  {
    hide Exec, ReadArrayHeader, Elements;
    ExecTwo(Programs(env), ArrayHeader(n), RangeInto(Emit(y)), v, b, fuel);
  }

  // ---- Objects -----------------------------------------------------------------------------------

  /** Lengths of arrays that fit the wire format; with `whole`, no array of bytes. */
  ghost predicate Sized(e: Elem, whole: bool)
    decreases e
  {
    match e
    case Base(_, _, _) => true
    case Ident(_) => true
    case Ptr(y) => Sized(y, whole)
    case Slice(y) => Sized(y, whole)
    case Array(n, y) => n < 4294967296 && !(whole && IsByteArray(y, V.Slice)) && Sized(y, whole)
    case Map(y) => Sized(y, whole)
    case Struct(fs, _) => forall i :: 0 <= i < |fs| ==> Sized(fs[i].elem, whole)
  }

  ghost predicate EnvSized(env: Env, whole: bool) {
    forall n :: n in env ==> Sized(env[n], whole)
  }

  /** `rest` is what `n` objects leave of `b`; unless `whole`, the last of them may be cut off by the
      end of the input. */
  ghost predicate Leaves(n: nat, b: bytes, rest: bytes, whole: bool) {
    SkipN(n, b) == Ok(rest) || (!whole && rest == [] && SkipN(n, b) == Err(ShortBytes))
  }

  ghost predicate LeavesOne(b: bytes, rest: bytes, whole: bool) {
    Skip(b) == Ok(rest) || (!whole && rest == [] && Skip(b) == Err(ShortBytes))
  }

  lemma NoneLeft(b: bytes, whole: bool)
    ensures Leaves(0, b, b, whole)
  {
  }

  lemma Before(n: nat, b: bytes, o: bytes, rest: bytes, whole: bool)
    requires LeavesOne(b, o, whole) && Leaves(n, o, rest, whole)
    ensures Leaves(n + 1, b, rest, whole)
  {
    if Skip(b).Err? { NothingLeft(n); }
    hide Skip;
  }

  lemma NothingLeft(n: nat)
    ensures SkipN(n, []) == if n == 0 then Ok([]) else Err(ShortBytes)
  {
  }

  lemma Around(n: nat, b: bytes, o: bytes, rest: bytes, whole: bool)
    requires ProperSuffix(o, b) && GetSize(b) == Ok((|b| - |o|, n)) && Leaves(n, o, rest, whole)
    ensures LeavesOne(b, rest, whole)
  {
    hide GetSize, SkipN;
  }

  // ---- Base values and byte arrays -------------------------------------------------------------------

  lemma PrimTakesOne(p: Prim, want: int8, b: bytes)
    requires ReadPrim(p, want, b).Ok?
    ensures Skip(b) == Ok(ReadPrim(p, want, b).value.1)
  {
    hide Skip, GetSize, ReadIntf, ReadInt64, ReadUint64, ReadStr, ReadBin, ReadTime, ReadComplex64, ReadComplex128,
      ReadExtension, ReadFloat32, ReadFloat64, ReadBool, ReadNil;
    if p == PIntf {
      SkipAgrees(b);
    } else {
      match p {
        case PBytes => BinSize(b);
        case PString => StrSize(b);
        case PExt(_) => ExtensionSize(b, want);
        case PRaw => ExtensionSize(b, want);
        case PFloat32 => FixedSize(b);
        case PFloat64 => FixedSize(b);
        case PComplex64 => FixedSize(b);
        case PComplex128 => FixedSize(b);
        case PBool => FixedSize(b);
        case PTime => FixedSize(b);
        case _ => NumberSize(b);
      }
      SkipLeaf(b, ReadPrim(p, want, b).value.1);
    }
  }

  /** A bin object of the array's length, which the end of the input may cut off. */
  lemma ExactTakesOne(b: bytes, dst: bytes)
    requires |dst| < 4294967296 && ReadExact(b, dst).Ok?
    ensures LeavesOne(b, ReadExact(b, dst).value.1, false)
  {
    hide U16, U32;
    SkipNone(ReadExact(b, dst).value.1);
  }

  // ---- The theorem -------------------------------------------------------------------------------

  /** On any input, into any variable: if the generated `UnmarshalMsg` of a type succeeds, then it
      has read exactly the first object of the input and hands on what follows it, as `Skip`
      would. With arrays of bytes in play, whose body may be short, it can otherwise only have
      reached the end of the input inside that object. */
  lemma {:induction false} TakesOneObject(env: Env, e: Elem, v: GoVal, b: bytes, fuel: nat, whole: bool)
    requires Sized(e, whole) && EnvSized(env, whole) && Exec(Programs(env), Emit(e), v, b, fuel).Ok?
    ensures LeavesOne(b, Exec(Programs(env), Emit(e), v, b, fuel).value.1, whole)
    decreases fuel, e, 1
  {
    hide Exec, EnvSized, LeavesOne, ReadPrim, ReadExact, ReadMapHeader, ReadArrayHeader, GetSize, Skip, Loop,
      EntryLoop, EmitTuple, Leaves, ByteString, Elements, Expand, Resize, FieldLoop, EmitCases;
    var ps := Programs(env);
    match e
    case Base(p, _, _) =>
      ExecSingle(ps, ReadBase(p), v, b, fuel);
      PrimTakesOne(p, Wanted(p, v), b);
      One(b, ReadPrim(p, Wanted(p, v), b).value.1, whole);
    case Ident(n) =>
      ExecSingle(ps, CallUnmarshal(n), v, b, fuel);
      CallTakesOne(env, n, v, b, fuel, whole);
    case Ptr(y) =>
      ExecSingle(ps, NilOr(Emit(y)), v, b, fuel);
      if IsNil(b) { NilTakesOne(b, whole); } else { TakesOneObject(env, y, Pointee(v), b, fuel, whole); }
    case Slice(_) => ArrayTakesOne(env, e, v, b, fuel, whole);
    case Array(_, _) => ArrayTakesOne(env, e, v, b, fuel, whole);
    case Map(y) =>
      ExecSingle(ps, MapLoop(Emit(y)), v, b, fuel);
      var (sz, o) := ReadMapHeader(b).value;
      MapHeaderSize(b);
      EntriesTake(env, y, sz, [], o, fuel, whole);
      Around(2 * sz, b, o, EntryLoop(ps, Emit(y), sz, [], o, fuel).value.1, whole);
    case Struct(_, _) => StructTakesOne(env, e, v, b, fuel, whole);
  }

  /** Without arrays of bytes: what was read is the first object of the input, whole. */
  lemma ReadsOneObject(env: Env, e: Elem, v: GoVal, b: bytes, fuel: nat)
    requires Sized(e, true) && EnvSized(env, true) && Exec(Programs(env), Emit(e), v, b, fuel).Ok?
    ensures var rest := Exec(Programs(env), Emit(e), v, b, fuel).value.1;
      Skip(b) == Ok(rest) && IsObject(Consumed(b, rest)) && b == Consumed(b, rest) + rest
  {
    hide Exec, Emit, Skip, Sized, EnvSized;
    TakesOneObject(env, e, v, b, fuel, true);
    FrontIsObject(b);
  }

  /** With them: three bytes that announce four and hold one are read into `[4]byte`, though they
      are no object. */
  lemma CutOffIsRead(env: Env, v: GoVal, fuel: nat)
    ensures var e, b := Array(4, Base(PByte, false, false)), [0xc4, 4, 1];
      Exec(Programs(env), Emit(e), v, b, fuel).Ok? && Skip(b) == Err(ShortBytes)
  {
    hide Exec, Elements, ByteString;
    ExecSingle(Programs(env), ReadExactly(4, false), v, [0xc4, 4, 1], fuel);
  }

  lemma One(b: bytes, rest: bytes, whole: bool)
    requires Skip(b) == Ok(rest)
    ensures LeavesOne(b, rest, whole)
  {
    hide Skip;
  }

  lemma NilTakesOne(b: bytes, whole: bool)
    requires IsNil(b) && ReadNil(b).Ok?
    ensures LeavesOne(b, ReadNil(b).value, whole)
  {
    hide Skip, GetSize;
    FixedSize(b);
    SkipLeaf(b, ReadNil(b).value);
  }

  lemma CallTakesOne(env: Env, n: string, v: GoVal, b: bytes, fuel: nat, whole: bool)
    requires EnvSized(env, whole) && Do(Programs(env), CallUnmarshal(n), v, b, fuel).Ok?
    ensures LeavesOne(b, Do(Programs(env), CallUnmarshal(n), v, b, fuel).value.1, whole)
    decreases fuel, Ident(n), 0
  {
    hide Exec, LeavesOne, Emit, Sized;
    TakesOneObject(env, env[n], v, b, fuel - 1, whole);
  }

  lemma ArrayTakesOne(env: Env, e: Elem, v: GoVal, b: bytes, fuel: nat, whole: bool)
    requires e.Slice? || e.Array?
    requires Sized(e, whole) && EnvSized(env, whole) && Exec(Programs(env), Emit(e), v, b, fuel).Ok?
    ensures LeavesOne(b, Exec(Programs(env), Emit(e), v, b, fuel).value.1, whole)
    decreases fuel, e, 0
  {
    hide Exec, EnvSized, LeavesOne, ReadExact, ReadMapHeader, ReadArrayHeader, GetSize, Skip, Loop, EmitTuple,
      Leaves, ByteString, Elements, Expand, Resize, FieldLoop, EmitCases;
    var ps := Programs(env);
    match e
    case Slice(y) =>
      ExecTwo(ps, ResizeSlice, RangeInto(Emit(y)), v, b, fuel);
      var (sz, o) := ReadArrayHeader(b).value;
      ArrayHeaderSize(b);
      LoopTakes(env, y, Resize(v, sz).els, o, fuel, whole);
      Around(sz, b, o, Loop(ps, Emit(y), Resize(v, sz).els, o, fuel).value.1, whole);
    case Array(n, y) =>
      if IsByteArray(y, V.Slice) {
        ExecSingle(ps, ReadExactly(n, y.convert), v, b, fuel);
        ExactTakesOne(b, ByteString(Elements(v, n)));
      } else {
        ArrayCount(env, n, y, v, b, fuel);
        var (sz, o) := ReadArrayHeader(b).value;
        ArrayHeaderSize(b);
        LoopTakes(env, y, Elements(v, n), o, fuel, whole);
        Around(sz, b, o, Loop(ps, Emit(y), Elements(v, n), o, fuel).value.1, whole);
      }
  }

  lemma StructTakesOne(env: Env, e: Elem, v: GoVal, b: bytes, fuel: nat, whole: bool)
    requires e.Struct?
    requires Sized(e, whole) && EnvSized(env, whole) && Exec(Programs(env), Emit(e), v, b, fuel).Ok?
    ensures LeavesOne(b, Exec(Programs(env), Emit(e), v, b, fuel).value.1, whole)
    decreases fuel, e, 0
  {
    hide Exec, EnvSized, LeavesOne, ReadExact, ReadMapHeader, ReadArrayHeader, GetSize, Skip, Loop, EmitTuple,
      Leaves, ByteString, Elements, Expand, Resize, FieldLoop, EmitCases;
    var ps := Programs(env);
    match e
    case Struct(fs, true) =>
      TupleCount(env, fs, v, b, fuel);
      var (sz, o) := ReadArrayHeader(b).value;
      ArrayHeaderSize(b);
      TupleTakes(env, fs, 0, Rec(Expand(v, |fs|)), o, fuel, whole);
      Around(sz, b, o, Exec(ps, EmitTuple(fs, 0), Rec(Expand(v, |fs|)), o, fuel).value.1, whole);
    case Struct(fs, false) =>
      ExecSingle(ps, StructLoop(|fs|, EmitCases(fs, 0)), v, b, fuel);
      var (sz, o) := ReadMapHeader(b).value;
      MapHeaderSize(b);
      FieldsTake(env, fs, sz, Rec(Expand(v, |fs|)), o, fuel, whole);
      Around(2 * sz, b, o, FieldLoop(ps, EmitCases(fs, 0), sz, Rec(Expand(v, |fs|)), o, fuel).value.1, whole);
  }

  lemma {:induction false} LoopTakes(env: Env, y: Elem, vs: seq<GoVal>, b: bytes, fuel: nat, whole: bool)
    requires Sized(y, whole) && EnvSized(env, whole) && Loop(Programs(env), Emit(y), vs, b, fuel).Ok?
    ensures Leaves(|vs|, b, Loop(Programs(env), Emit(y), vs, b, fuel).value.1, whole)
    decreases fuel, y, 2, |vs|
  {
    hide Exec, LeavesOne, Leaves, Emit, Sized, EnvSized;
    if vs == [] {
      NoneLeft(b, whole);
    } else {
      var (w, o) := Exec(Programs(env), Emit(y), vs[0], b, fuel).value;
      TakesOneObject(env, y, vs[0], b, fuel, whole);
      LoopTakes(env, y, vs[1..], o, fuel, whole);
      Before(|vs| - 1, b, o, Loop(Programs(env), Emit(y), vs[1..], o, fuel).value.1, whole);
    }
  }

  lemma {:induction false} EntriesTake(env: Env, y: Elem, n: nat, es: seq<GoEntry>, b: bytes, fuel: nat, whole: bool)
    requires Sized(y, whole) && EnvSized(env, whole) && EntryLoop(Programs(env), Emit(y), n, es, b, fuel).Ok?
    ensures Leaves(2 * n, b, EntryLoop(Programs(env), Emit(y), n, es, b, fuel).value.1, whole)
    decreases fuel, y, 2, n
  {
    hide Exec, LeavesOne, Leaves, Emit, Sized, EnvSized, ReadStr, AssignGo, GetSize, Skip;
    if n == 0 {
      NoneLeft(b, whole);
    } else {
      var (key, o) := ReadStr(b).value;
      StrSize(b);
      SkipLeaf(b, o);
      One(b, o, whole);
      var (val, o') := Exec(Programs(env), Emit(y), Zero, o, fuel).value;
      TakesOneObject(env, y, Zero, o, fuel, whole);
      var next := AssignGo(es, key, val);
      EntriesTake(env, y, n - 1, next, o', fuel, whole);
      var rest := EntryLoop(Programs(env), Emit(y), n - 1, next, o', fuel).value.1;
      Before(2 * n - 2, o, o', rest, whole);
      Before(2 * n - 1, b, o, rest, whole);
    }
  }

  lemma {:induction false} TupleTakes(env: Env, fs: seq<Field>, i: nat, v: GoVal, b: bytes, fuel: nat, whole: bool)
    requires i <= |fs| && EnvSized(env, whole) && forall j :: 0 <= j < |fs| ==> Sized(fs[j].elem, whole)
    requires Exec(Programs(env), EmitTuple(fs, i), v, b, fuel).Ok?
    ensures Leaves(|fs| - i, b, Exec(Programs(env), EmitTuple(fs, i), v, b, fuel).value.1, whole)
    decreases fuel, fs, 1, |fs| - i
  {
    hide Exec, LeavesOne, Leaves, Emit, Sized, EnvSized, Within;
    var ps := Programs(env);
    if i == |fs| {
      ExecNone(ps, v, b, fuel);
      NoneLeft(b, whole);
    } else {
      var ss := Within(Sel(i, |fs|), Emit(fs[i].elem));
      ExecConcat(ps, ss, EmitTuple(fs, i + 1), v, b, fuel);
      var (v', o) := Exec(ps, ss, v, b, fuel).value;
      FieldTakesOne(env, fs, i, v, b, fuel, whole);
      TupleTakes(env, fs, i + 1, v', o, fuel, whole);
      Before(|fs| - i - 1, b, o, Exec(ps, EmitTuple(fs, i + 1), v', o, fuel).value.1, whole);
    }
  }

  lemma FieldTakesOne(env: Env, fs: seq<Field>, i: nat, v: GoVal, b: bytes, fuel: nat, whole: bool)
    requires i < |fs| && EnvSized(env, whole) && Sized(fs[i].elem, whole)
    requires Exec(Programs(env), Within(Sel(i, |fs|), Emit(fs[i].elem)), v, b, fuel).Ok?
    ensures LeavesOne(b, Exec(Programs(env), Within(Sel(i, |fs|), Emit(fs[i].elem)), v, b, fuel).value.1, whole)
    decreases fuel, fs, 0
  {
    hide Exec, LeavesOne, Emit, Sized, EnvSized, Expand, Within;
    WithinLifts(Programs(env), Sel(i, |fs|), Emit(fs[i].elem), v, b, fuel);
    TakesOneObject(env, fs[i].elem, Expand(v, |fs|)[i], b, fuel, whole);
  }

  lemma {:induction false} FieldsTake(env: Env, fs: seq<Field>, n: nat, v: GoVal, b: bytes, fuel: nat, whole: bool)
    requires EnvSized(env, whole) && forall j :: 0 <= j < |fs| ==> Sized(fs[j].elem, whole)
    requires FieldLoop(Programs(env), EmitCases(fs, 0), n, v, b, fuel).Ok?
    ensures Leaves(2 * n, b, FieldLoop(Programs(env), EmitCases(fs, 0), n, v, b, fuel).value.1, whole)
    decreases fuel, fs, 1, n
  {
    hide Exec, LeavesOne, Leaves, Emit, Sized, EnvSized, Within, ReadMapKey, FindCase, EmitCases, GetSize, Skip;
    var ps, cases := Programs(env), EmitCases(fs, 0);
    if n == 0 {
      NoneLeft(b, whole);
    } else {
      var (key, o) := ReadMapKey(b).value;
      KeySize(b);
      SkipLeaf(b, o);
      One(b, o, whole);
      var found := FindCase(cases, key);
      var v', o' := v, o;
      if found.Ok? {
        var i := CaseFound(fs, 0, key);
        FieldTakesOne(env, fs, i, v, o, fuel, whole);
        var r := Exec(ps, found.value, v, o, fuel).value;
        v', o' := r.0, r.1;
      } else {
        o' := Skip(o).value;
        One(o, o', whole);
      }
      FieldsTake(env, fs, n - 1, v', o', fuel, whole);
      var rest := FieldLoop(ps, cases, n - 1, v', o', fuel).value.1;
      Before(2 * n - 2, o, o', rest, whole);
      Before(2 * n - 1, b, o, rest, whole);
    }
  }

  /** A case of the switch is the case of a field with that name. */
  lemma {:induction false} CaseFound(fs: seq<Field>, from: nat, key: bytes) returns (i: nat)
    requires from <= |fs| && FindCase(EmitCases(fs, from), key).Ok?
    ensures from <= i < |fs| && fs[i].tag == key
    ensures FindCase(EmitCases(fs, from), key).value == Within(Sel(i, |fs|), Emit(fs[i].elem))
    decreases |fs| - from
  {
    hide Emit, Within;
    if from == |fs| {
      assert false;
    } else {
      CasesSplit(fs, from);
      if fs[from].tag == key { i := from; } else { i := CaseFound(fs, from + 1, key); }
    }
  }
}
