/** The marshal generator (gen/marshal.go) and its streaming twin (gen/encode.go): a
    compiler from type trees to statements that fuses neighbouring constants. */
module MarshalGen {
  import opened Wire
  import opened TypeTree
  import V = Encoding

  // ---- The emitted code --------------------------------------------------------------

  /** `AppendByteArray` records whether the array's elements are of a named type. */
  datatype Stmt =
    | AppendRaw(raw: bytes)
    | AppendBase(x: Path)
    | AppendMapLen(x: Path)
    | AppendArrayLen(x: Path)
    | AppendArrayConst(n: nat)
    | AppendByteArray(x: Path, named: bool)
    | Call(x: Path, name: string)
    | Range(x: Path, body: seq<Stmt>)
    | RangeMap(x: Path, body: seq<Stmt>)
    | IfNil(x: Path, body: seq<Stmt>)

  function Get(v: GoVal, x: Path): Option<GoVal>
    decreases |x|
  {
    if x == [] then Some(v)
    else if v.Rec? && x[0].i < |v.fields| then Get(v.fields[x[0].i], x[1..])
    else None
  }

  function Join(a: Option<bytes>, b: Option<bytes>): Option<bytes> {
    if a.Some? && b.Some? then Some(a.value + b.value) else None
  }

  /** The methods of the named types. */
  type Progs = map<string, seq<Stmt>>

  /** The bytes a statement list appends when the block's variable holds `v`; `None` if a
      statement does not fit the value. `fuel` bounds nested method calls. */
  function Exec(ps: Progs, ss: seq<Stmt>, v: GoVal, st: V.Style, fuel: nat): Option<bytes>
    decreases fuel, ss, 0
  {
    if ss == [] then Some([])
    else Join(ExecOne(ps, ss[0], v, st, fuel), Exec(ps, ss[1..], v, st, fuel))
  }

  function ExecOne(ps: Progs, s: Stmt, v: GoVal, st: V.Style, fuel: nat): Option<bytes>
    decreases fuel, s, 1
  {
    match s
    case AppendRaw(raw) => Some(raw)
    case AppendBase(x) =>
      var w := Get(v, x);
      if w.Some? && IsLeaf(w.value) then Some(V.Enc(Held(w.value), st)) else None
    case AppendMapLen(x) =>
      var w := Get(v, x);
      if w.Some? && w.value.Mp? then Some(V.EncMapHeader(|w.value.entries| % TWO_32)) else None
    case AppendArrayLen(x) =>
      var w := Get(v, x);
      if w.Some? && w.value.Sl? then Some(V.EncArrayHeader(|w.value.els| % TWO_32)) else None
    case AppendArrayConst(n) => Some(V.EncArrayHeader(n % TWO_32))
    case AppendByteArray(x, _) =>
      var w := Get(v, x);
      if w.Some? && w.value.Arr? then Some(V.EncBin(ByteString(w.value.els))) else None
    case Call(x, name) =>
      var w := Get(v, x);
      if w.Some? && name in ps && fuel > 0 then Exec(ps, ps[name], w.value, st, fuel - 1) else None
    case Range(x, body) =>
      var w := Get(v, x);
      if w.Some? && (w.value.Sl? || w.value.Arr?) then ExecRange(ps, body, w.value.els, st, fuel) else None
    case RangeMap(x, body) =>
      var w := Get(v, x);
      if w.Some? && w.value.Mp? then ExecEntries(ps, body, w.value.entries, st, fuel) else None
    case IfNil(x, body) =>
      var w := Get(v, x);
      if w.Some? && w.value.NilPtr? then Some([NIL])
      else if w.Some? && w.value.PtrTo? then Exec(ps, body, w.value.to, st, fuel)
      else None
  }

  function ExecRange(ps: Progs, body: seq<Stmt>, vs: seq<GoVal>, st: V.Style, fuel: nat): Option<bytes>
    decreases fuel, body, 2, |vs|
  {
    if vs == [] then Some([])
    else Join(Exec(ps, body, vs[0], st, fuel), ExecRange(ps, body, vs[1..], st, fuel))
  }

  /** `for k, v := range m { o = AppendString(o, k); body }`. */
  function ExecEntries(ps: Progs, body: seq<Stmt>, es: seq<GoEntry>, st: V.Style, fuel: nat): Option<bytes>
    decreases fuel, body, 2, |es|
  {
    if es == [] then Some([])
    else
      var key, val := V.EncStr(es[0].key), Exec(ps, body, es[0].val, st, fuel);
      Join(Some(key), Join(val, ExecEntries(ps, body, es[1..], st, fuel)))
  }

  // ---- What is emitted --------------------------------------------------------------------

  /** `fuseHook`: emit the pending constants, if any. */
  function Hook(f: bytes): seq<Stmt> {
    if f == [] then [] else [AppendRaw(f)]
  }

  /** `Fuse`: a constant joins the pending ones; without fusing it is emitted at once. */
  function Pend(f: bytes, c: bytes, fusing: bool): (seq<Stmt>, bytes) {
    if fusing then ([], f + c) else (Hook(f) + [AppendRaw(c)], [])
  }

  /** The statements for the variable `x` of type `e` when the constants `f` are pending:
      with `fusing` what the generator prints, without it one statement for each node. */
  function Emit(e: Elem, x: Path, f: bytes, st: V.Style, fusing: bool): seq<Stmt>
    decreases e, 1
  {
    match e
    case Base(_, _, _) => Hook(f) + [AppendBase(x)]
    case Ident(n) => Hook(f) + [Call(x, n)]
    case Ptr(y) => Hook(f) + [IfNil(x, Emit(y, [], [], st, fusing))]
    case Slice(y) => Hook(f) + [AppendArrayLen(x), Range(x, Emit(y, [], [], st, fusing))]
    case Array(n, y) =>
      if IsByteArray(y, st) then Hook(f) + [AppendByteArray(x, y.convert)]
      else Hook(f) + [AppendArrayConst(n), Range(x, Emit(y, [], [], st, fusing))]
    case Map(y) => Hook(f) + [AppendMapLen(x), RangeMap(x, Emit(y, [], [], st, fusing))]
    case Struct(fs, tup) =>
      var (pre, g) := Pend(f, StructHeader(|fs|, tup), fusing);
      if fs == [] then pre + Hook(g) else pre + EmitFields(fs, 0, x, g, tup, st, fusing)
  }

  /** The constants in front of a field: its tag, unless the struct is a tuple. */
  function TagConstants(fld: Field, f: bytes, tup: bool, fusing: bool): (seq<Stmt>, bytes) {
    if tup then ([], f) else Pend(f, V.EncStr(fld.tag), fusing)
  }

  function EmitFields(fs: seq<Field>, i: nat, x: Path, f: bytes, tup: bool, st: V.Style, fusing: bool): seq<Stmt>
    decreases fs, 0, |fs| - i
  {
    if i >= |fs| then []
    else
      var (pre, g) := TagConstants(fs[i], f, tup, fusing);
      pre + Emit(fs[i].elem, x + [Sel(i, |fs|)], g, st, fusing) + EmitFields(fs, i + 1, x, [], tup, st, fusing)
  }

  function Programs(env: Env, st: V.Style, fusing: bool): Progs {
    map n | n in env :: Emit(env[n], [], [], st, fusing)
  }

  // ---- Correctness ---------------------------------------------------------------------------

  lemma {:induction false} ExecConcat(ps: Progs, a: seq<Stmt>, b: seq<Stmt>, v: GoVal, st: V.Style, fuel: nat)
    ensures Exec(ps, a + b, v, st, fuel) == Join(Exec(ps, a, v, st, fuel), Exec(ps, b, v, st, fuel))
  {
    hide ExecOne;
    if a == [] {
      assert a + b == b;
      var r := Exec(ps, b, v, st, fuel);
      if r.Some? { JoinUnit(r.value); }
    } else {
      ExecConcat(ps, a[1..], b, v, st, fuel);
      assert (a + b)[1..] == a[1..] + b;
      JoinAssoc(ExecOne(ps, a[0], v, st, fuel), Exec(ps, a[1..], v, st, fuel), Exec(ps, b, v, st, fuel));
    }
  }

  lemma JoinUnit(a: bytes)
    ensures Join(Some(a), Some([])) == Some(a) == Join(Some([]), Some(a))
  {
    assert a + [] == a && [] + a == a;
  }

  lemma JoinAssoc(a: Option<bytes>, b: Option<bytes>, c: Option<bytes>)
    ensures Join(Join(a, b), c) == Join(a, Join(b, c))
  {
    if a.Some? && b.Some? && c.Some? {
      assert a.value + b.value + c.value == a.value + (b.value + c.value);
    }
  }

  lemma ExecSingle(ps: Progs, s: Stmt, v: GoVal, st: V.Style, fuel: nat)
    ensures Exec(ps, [s], v, st, fuel) == ExecOne(ps, s, v, st, fuel)
  {
    hide ExecOne;
    assert Exec(ps, [s][1..], v, st, fuel) == Some([]);
    var r := ExecOne(ps, s, v, st, fuel);
    if r.Some? { JoinUnit(r.value); }
  }

  lemma ExecHook(ps: Progs, f: bytes, v: GoVal, st: V.Style, fuel: nat)
    ensures Exec(ps, Hook(f), v, st, fuel) == Some(f)
  {
    if f != [] { ExecSingle(ps, AppendRaw(f), v, st, fuel); }
  }

  /** Pending and emitted constants together are always all constants so far. */
  lemma ExecPend(ps: Progs, f: bytes, c: bytes, fusing: bool, v: GoVal, st: V.Style, fuel: nat)
    ensures var (pre, g) := Pend(f, c, fusing);
      Join(Exec(ps, pre, v, st, fuel), Some(g)) == Some(f + c)
  {
    JoinUnit(f + c);
    if !fusing {
      ExecHook(ps, f, v, st, fuel);
      ExecSingle(ps, AppendRaw(c), v, st, fuel);
      ExecConcat(ps, Hook(f), [AppendRaw(c)], v, st, fuel);
    }
  }

  /** A hooked statement list that ends in one or two statements. */
  lemma ExecTail(ps: Progs, f: bytes, ss: seq<Stmt>, v: GoVal, st: V.Style, fuel: nat)
    ensures Exec(ps, Hook(f) + ss, v, st, fuel) == Join(Some(f), Exec(ps, ss, v, st, fuel))
  {
    ExecHook(ps, f, v, st, fuel);
    ExecConcat(ps, Hook(f), ss, v, st, fuel);
  }

  lemma ExecTwo(ps: Progs, s: Stmt, t: Stmt, v: GoVal, st: V.Style, fuel: nat)
    ensures Exec(ps, [s, t], v, st, fuel) == Join(ExecOne(ps, s, v, st, fuel), ExecOne(ps, t, v, st, fuel))
  {
    ExecSingle(ps, s, v, st, fuel);
    ExecSingle(ps, t, v, st, fuel);
    ExecConcat(ps, [s], [t], v, st, fuel);
    assert [s] + [t] == [s, t];
  }

  lemma {:induction false} GetField(v: GoVal, x: Path, s: Sel, w: GoVal)
    requires Get(v, x) == Some(w) && w.Rec? && s.i < |w.fields|
    ensures Get(v, x + [s]) == Some(w.fields[s.i])
    decreases |x|
  {
    if x != [] {
      GetField(v.fields[x[0].i], x[1..], s, w);
      assert (x + [s])[1..] == x[1..] + [s];
    }
  }

  /** The generated program appends the pending constants and then exactly the node-by-node
      encoding, with or without fusing, for every type tree and every value of it. */
  lemma {:induction false} EmitCorrect(env: Env, e: Elem, x: Path, v: GoVal, w: GoVal, f: bytes, st: V.Style,
                                       fusing: bool, fuel: nat)
    requires Get(v, x) == Some(w) && HasType(env, e, w) && Enough(fuel, e, w)
    ensures Exec(Programs(env, st, fusing), Emit(e, x, f, st, fusing), v, st, fuel)
         == Some(f + EncGo(env, e, w, st))
    decreases w, if e.Ident? then 1 else 0, 1
  {
    hide Exec, ExecOne, EncGo, Emit, Hook, Get, HasType, Enough, Programs;
    match e
    case Base(_, _, _) => BaseCorrect(env, e, x, v, w, f, st, fusing, fuel);
    case Ident(n) => IdentCorrect(env, e, x, v, w, f, st, fusing, fuel);
    case Ptr(y) => PtrCorrect(env, e, x, v, w, f, st, fusing, fuel);
    case Slice(y) => SliceCorrect(env, e, x, v, w, f, st, fusing, fuel);
    case Array(n, y) => ArrayCorrect(env, e, x, v, w, f, st, fusing, fuel);
    case Map(y) => MapCorrect(env, e, x, v, w, f, st, fusing, fuel);
    case Struct(fs, tup) => StructCorrect(env, e, x, v, w, f, st, fusing, fuel);
  }

  lemma BaseCorrect(env: Env, e: Elem, x: Path, v: GoVal, w: GoVal, f: bytes, st: V.Style, fusing: bool, fuel: nat)
    requires e.Base?
    requires Get(v, x) == Some(w) && HasType(env, e, w) && Enough(fuel, e, w)
    ensures Exec(Programs(env, st, fusing), Emit(e, x, f, st, fusing), v, st, fuel)
         == Some(f + EncGo(env, e, w, st))
    decreases w, if e.Ident? then 1 else 0, 0
  {
    hide Exec, ExecRange, ExecEntries, EncGoAll, EncGoEntries, EncGoFields, EmitFields, Hook, Get;
    hide V.Enc, V.EncArrayHeader, V.EncMapHeader, V.EncBin;
    var ps := Programs(env, st, fusing);
    ExecTail(ps, f, [AppendBase(x)], v, st, fuel);
    ExecSingle(ps, AppendBase(x), v, st, fuel);
  }

  lemma IdentCorrect(env: Env, e: Elem, x: Path, v: GoVal, w: GoVal, f: bytes, st: V.Style, fusing: bool, fuel: nat)
    requires e.Ident?
    requires Get(v, x) == Some(w) && HasType(env, e, w) && Enough(fuel, e, w)
    ensures Exec(Programs(env, st, fusing), Emit(e, x, f, st, fusing), v, st, fuel)
         == Some(f + EncGo(env, e, w, st))
    decreases w, if e.Ident? then 1 else 0, 0
  {
    hide Exec, ExecRange, ExecEntries, EncGoAll, EncGoEntries, EncGoFields, EmitFields, Hook, Get;
    hide V.Enc, V.EncArrayHeader, V.EncMapHeader, V.EncBin;
    var ps := Programs(env, st, fusing);
    ExecTail(ps, f, [Call(x, e.name)], v, st, fuel);
    ExecSingle(ps, Call(x, e.name), v, st, fuel);
    GetRoot(w);
    EmitCorrect(env, env[e.name], [], w, w, [], st, fusing, fuel - 1);
    JoinUnit(EncGo(env, e, w, st));
  }

  lemma PtrCorrect(env: Env, e: Elem, x: Path, v: GoVal, w: GoVal, f: bytes, st: V.Style, fusing: bool, fuel: nat)
    requires e.Ptr?
    requires Get(v, x) == Some(w) && HasType(env, e, w) && Enough(fuel, e, w)
    ensures Exec(Programs(env, st, fusing), Emit(e, x, f, st, fusing), v, st, fuel)
         == Some(f + EncGo(env, e, w, st))
    decreases w, if e.Ident? then 1 else 0, 0
  {
    hide Exec, ExecRange, ExecEntries, EncGoAll, EncGoEntries, EncGoFields, EmitFields, Hook, Get;
    hide V.Enc, V.EncArrayHeader, V.EncMapHeader, V.EncBin;
    var ps := Programs(env, st, fusing);
    var body := Emit(e.to, [], [], st, fusing);
    ExecTail(ps, f, [IfNil(x, body)], v, st, fuel);
    ExecSingle(ps, IfNil(x, body), v, st, fuel);
    if w.PtrTo? {
      GetRoot(w.to);
      EmitCorrect(env, e.to, [], w.to, w.to, [], st, fusing, fuel);
      JoinUnit(EncGo(env, e.to, w.to, st));
    }
  }

  lemma SliceCorrect(env: Env, e: Elem, x: Path, v: GoVal, w: GoVal, f: bytes, st: V.Style, fusing: bool, fuel: nat)
    requires e.Slice?
    requires Get(v, x) == Some(w) && HasType(env, e, w) && Enough(fuel, e, w)
    ensures Exec(Programs(env, st, fusing), Emit(e, x, f, st, fusing), v, st, fuel)
         == Some(f + EncGo(env, e, w, st))
    decreases w, if e.Ident? then 1 else 0, 0
  {
    hide Exec, ExecRange, ExecEntries, EncGoAll, EncGoEntries, EncGoFields, EmitFields, Hook, Get;
    hide V.Enc, V.EncArrayHeader, V.EncMapHeader, V.EncBin;
    var ps := Programs(env, st, fusing);
    var body := Emit(e.els, [], [], st, fusing);
    ExecTail(ps, f, [AppendArrayLen(x), Range(x, body)], v, st, fuel);
    ExecTwo(ps, AppendArrayLen(x), Range(x, body), v, st, fuel);
    RangeCorrect(env, e.els, w.els, st, fusing, fuel);
  }

  lemma ArrayCorrect(env: Env, e: Elem, x: Path, v: GoVal, w: GoVal, f: bytes, st: V.Style, fusing: bool, fuel: nat)
    requires e.Array?
    requires Get(v, x) == Some(w) && HasType(env, e, w) && Enough(fuel, e, w)
    ensures Exec(Programs(env, st, fusing), Emit(e, x, f, st, fusing), v, st, fuel)
         == Some(f + EncGo(env, e, w, st))
    decreases w, if e.Ident? then 1 else 0, 0
  {
    hide Exec, ExecRange, ExecEntries, EncGoAll, EncGoEntries, EncGoFields, EmitFields, Hook, Get;
    hide V.Enc, V.EncArrayHeader, V.EncMapHeader, V.EncBin;
    var ps := Programs(env, st, fusing);
    if IsByteArray(e.els, st) {
      ExecTail(ps, f, [AppendByteArray(x, e.els.convert)], v, st, fuel);
      ExecSingle(ps, AppendByteArray(x, e.els.convert), v, st, fuel);
    } else {
      var body := Emit(e.els, [], [], st, fusing);
      ExecTail(ps, f, [AppendArrayConst(e.size), Range(x, body)], v, st, fuel);
      ExecTwo(ps, AppendArrayConst(e.size), Range(x, body), v, st, fuel);
      RangeCorrect(env, e.els, w.els, st, fusing, fuel);
    }
  }

  lemma MapCorrect(env: Env, e: Elem, x: Path, v: GoVal, w: GoVal, f: bytes, st: V.Style, fusing: bool, fuel: nat)
    requires e.Map?
    requires Get(v, x) == Some(w) && HasType(env, e, w) && Enough(fuel, e, w)
    ensures Exec(Programs(env, st, fusing), Emit(e, x, f, st, fusing), v, st, fuel)
         == Some(f + EncGo(env, e, w, st))
    decreases w, if e.Ident? then 1 else 0, 0
  {
    hide Exec, ExecRange, ExecEntries, EncGoAll, EncGoEntries, EncGoFields, EmitFields, Hook, Get;
    hide V.Enc, V.EncArrayHeader, V.EncMapHeader, V.EncBin;
    var ps := Programs(env, st, fusing);
    var body := Emit(e.value, [], [], st, fusing);
    ExecTail(ps, f, [AppendMapLen(x), RangeMap(x, body)], v, st, fuel);
    ExecTwo(ps, AppendMapLen(x), RangeMap(x, body), v, st, fuel);
    EntriesCorrect(env, e.value, w.entries, st, fusing, fuel);
  }

  lemma StructCorrect(env: Env, e: Elem, x: Path, v: GoVal, w: GoVal, f: bytes, st: V.Style, fusing: bool, fuel: nat)
    requires e.Struct?
    requires Get(v, x) == Some(w) && HasType(env, e, w) && Enough(fuel, e, w)
    ensures Exec(Programs(env, st, fusing), Emit(e, x, f, st, fusing), v, st, fuel)
         == Some(f + EncGo(env, e, w, st))
    decreases w, if e.Ident? then 1 else 0, 0
  {
    hide Exec, ExecRange, ExecEntries, EncGoAll, EncGoEntries, EncGoFields, EmitFields, Hook, Get;
    hide V.Enc, V.EncArrayHeader, V.EncMapHeader, V.EncBin;
    var ps := Programs(env, st, fusing);
    hide Pend, StructHeader;
    var (_, g) := Pend(f, StructHeader(|e.fields|, e.asTuple), fusing);
    var r := EncGoFields(env, e.fields, w.fields, 0, e.asTuple, st);
    if e.fields == [] {
      NoFields(env, e.fields, w.fields, e.asTuple, st);
    } else {
      FieldsCorrect(env, e.fields, 0, x, v, w, g, e.asTuple, st, fusing, fuel);
    }
    StructStep(ps, e, x, f, st, fusing, v, fuel, r);
  }

  /** The header in front of the fields; an empty struct emits what is pending itself. */
  lemma StructStep(ps: Progs, e: Elem, x: Path, f: bytes, st: V.Style, fusing: bool, v: GoVal, fuel: nat, r: bytes)
    requires e.Struct? && (e.fields == [] ==> r == [])
    requires var (_, g) := Pend(f, StructHeader(|e.fields|, e.asTuple), fusing);
      e.fields != [] ==> Exec(ps, EmitFields(e.fields, 0, x, g, e.asTuple, st, fusing), v, st, fuel) == Some(g + r)
    ensures Exec(ps, Emit(e, x, f, st, fusing), v, st, fuel) == Some(f + (StructHeader(|e.fields|, e.asTuple) + r))
  {
    hide Exec, EmitFields, Hook, StructHeader;
    var hdr := StructHeader(|e.fields|, e.asTuple);
    var (pre, g) := Pend(f, hdr, fusing);
    ExecPend(ps, f, hdr, fusing, v, st, fuel);
    hide Pend;
    var p := Exec(ps, pre, v, st, fuel).value;
    if e.fields == [] {
      ExecHook(ps, g, v, st, fuel);
      ExecConcat(ps, pre, Hook(g), v, st, fuel);
      assert f + (hdr + r) == f + hdr;
    } else {
      ExecConcat(ps, pre, EmitFields(e.fields, 0, x, g, e.asTuple, st, fusing), v, st, fuel);
      assert p + (g + r) == (p + g) + r && (f + hdr) + r == f + (hdr + r);
    }
  }

  lemma GetRoot(v: GoVal)
    ensures Get(v, []) == Some(v)
  {
  }

  lemma NoFields(env: Env, fs: seq<Field>, vs: seq<GoVal>, tup: bool, st: V.Style)
    requires fs == [] && vs == []
    ensures EncGoFields(env, fs, vs, 0, tup, st) == []
  {
  }

  lemma {:induction false} RangeCorrect(env: Env, e: Elem, vs: seq<GoVal>, st: V.Style, fusing: bool, fuel: nat)
    requires AllTyped(env, e, vs) && fuel >= MaxDepth(vs)
    ensures ExecRange(Programs(env, st, fusing), Emit(e, [], [], st, fusing), vs, st, fuel)
         == Some(EncGoAll(env, e, vs, st))
    decreases vs, 2
  {
    hide Exec, Emit, EncGo, HasType, Depth, Get;
    if vs != [] {
      GetRoot(vs[0]);
      EmitCorrect(env, e, [], vs[0], vs[0], [], st, fusing, fuel);
      RangeCorrect(env, e, vs[1..], st, fusing, fuel);
      JoinUnit(EncGo(env, e, vs[0], st));
    }
  }

  lemma {:induction false} EntriesCorrect(env: Env, e: Elem, es: seq<GoEntry>, st: V.Style, fusing: bool, fuel: nat)
    requires EntriesTyped(env, e, es) && fuel >= EntriesDepth(es)
    ensures ExecEntries(Programs(env, st, fusing), Emit(e, [], [], st, fusing), es, st, fuel)
         == Some(EncGoEntries(env, e, es, st))
    decreases es, 2
  {
    hide Exec, Emit, EncGo, HasType, Depth, Get, V.EncStr;
    if es != [] {
      GetRoot(es[0].val);
      EmitCorrect(env, e, [], es[0].val, es[0].val, [], st, fusing, fuel);
      EntriesCorrect(env, e, es[1..], st, fusing, fuel);
      JoinUnit(EncGo(env, e, es[0].val, st));
    }
  }

  lemma {:induction false} FieldsCorrect(env: Env, fs: seq<Field>, i: nat, x: Path, v: GoVal, w: GoVal, f: bytes,
                                         tup: bool, st: V.Style, fusing: bool, fuel: nat)
    requires Get(v, x) == Some(w) && w.Rec? && |w.fields| == |fs| && FieldsTyped(env, fs, w.fields)
    requires fuel >= MaxDepth(w.fields) && i <= |fs| && (i == |fs| ==> f == [])
    ensures Exec(Programs(env, st, fusing), EmitFields(fs, i, x, f, tup, st, fusing), v, st, fuel)
         == Some(f + EncGoFields(env, fs, w.fields, i, tup, st))
    decreases w.fields, 2, |fs| - i
  {
    hide Exec, Emit, EncGo, HasType, Depth, Get, V.EncStr, Pend, EmitFields;
    var ps := Programs(env, st, fusing);
    if i == |fs| {
      NoMoreFields(ps, env, fs, w.fields, x, v, tup, st, fusing, fuel);
    } else {
      var sel := Sel(i, |fs|);
      var (pre, g) := TagConstants(fs[i], f, tup, fusing);
      GetField(v, x, sel, w);
      EmitCorrect(env, fs[i].elem, x + [sel], v, w.fields[i], g, st, fusing, fuel);
      FieldsCorrect(env, fs, i + 1, x, v, w, [], tup, st, fusing, fuel);
      FieldStep(ps, fs, i, x, f, tup, st, fusing, v, fuel, EncGo(env, fs[i].elem, w.fields[i], st),
                EncGoFields(env, fs, w.fields, i + 1, tup, st));
    }
  }

  lemma NoMoreFields(ps: Progs, env: Env, fs: seq<Field>, vs: seq<GoVal>, x: Path, v: GoVal, tup: bool, st: V.Style,
                     fusing: bool, fuel: nat)
    requires |fs| == |vs|
    ensures Exec(ps, EmitFields(fs, |fs|, x, [], tup, st, fusing), v, st, fuel)
         == Some([] + EncGoFields(env, fs, vs, |fs|, tup, st))
  {
    var none: bytes := [];
    assert none + none == none;
  }

  /** One field in front of the remaining ones. */
  lemma FieldStep(ps: Progs, fs: seq<Field>, i: nat, x: Path, f: bytes, tup: bool, st: V.Style, fusing: bool,
                  v: GoVal, fuel: nat, val: bytes, rest: bytes)
    requires i < |fs|
    requires var (_, g) := TagConstants(fs[i], f, tup, fusing);
      Exec(ps, Emit(fs[i].elem, x + [Sel(i, |fs|)], g, st, fusing), v, st, fuel) == Some(g + val)
    requires Exec(ps, EmitFields(fs, i + 1, x, [], tup, st, fusing), v, st, fuel) == Some([] + rest)
    ensures Exec(ps, EmitFields(fs, i, x, f, tup, st, fusing), v, st, fuel)
         == Some(f + (FieldTag(fs[i], tup) + (val + rest)))
  {
    hide Emit, V.EncStr, ExecOne;
    var (pre, g) := TagConstants(fs[i], f, tup, fusing);
    TagPends(ps, fs[i], f, tup, fusing, v, st, fuel);
    var body := Emit(fs[i].elem, x + [Sel(i, |fs|)], g, st, fusing);
    var tail := EmitFields(fs, i + 1, x, [], tup, st, fusing);
    assert EmitFields(fs, i, x, f, tup, st, fusing) == pre + body + tail;
    ExecConcat(ps, pre, body, v, st, fuel);
    ExecConcat(ps, pre + body, tail, v, st, fuel);
    hide Exec, EmitFields;
    Regroup(Exec(ps, pre, v, st, fuel).value, g, f, FieldTag(fs[i], tup), val, rest);
  }

  lemma TagPends(ps: Progs, fld: Field, f: bytes, tup: bool, fusing: bool, v: GoVal, st: V.Style, fuel: nat)
    ensures var (pre, g) := TagConstants(fld, f, tup, fusing);
      Exec(ps, pre, v, st, fuel).Some? && Exec(ps, pre, v, st, fuel).value + g == f + FieldTag(fld, tup)
  {
    hide V.EncStr;
    if tup {
      JoinUnit(f);
    } else {
      ExecPend(ps, f, V.EncStr(fld.tag), fusing, v, st, fuel);
    }
  }

  lemma Regroup(pre: bytes, g: bytes, f: bytes, tag: bytes, val: bytes, rest: bytes)
    requires pre + g == f + tag
    ensures pre + (g + val) + ([] + rest) == f + (tag + (val + rest))
  {
    assert pre + (g + val) == (pre + g) + val;
  }

  /** Fusing constants preserves meaning: for every named-type environment, type tree and
      value, the fused and the unfused program append the same bytes. */
  lemma FusingPreservesMeaning(env: Env, e: Elem, v: GoVal, st: V.Style, fuel: nat)
    requires HasType(env, e, v) && Enough(fuel, e, v)
    ensures Exec(Programs(env, st, true), Emit(e, [], [], st, true), v, st, fuel)
         == Exec(Programs(env, st, false), Emit(e, [], [], st, false), v, st, fuel)
         == Some(EncGo(env, e, v, st))
  {
    hide Exec, Emit, EncGo, HasType, Enough;
    GetRoot(v);
    EmitCorrect(env, e, [], v, v, [], st, true, fuel);
    EmitCorrect(env, e, [], v, v, [], st, false, fuel);
    assert [] + EncGo(env, e, v, st) == EncGo(env, e, v, st);
  }
}
