/** The unmarshal generator (gen/unmarshal.go): the statements it emits and their meaning. */
module UnmarshalGen {
  import opened Wire
  import opened TypeTree
  import opened Decoding
  import V = Encoding

  // ---- The emitted code ----------------------------------------------------------------

  /** A statement acts on the variable `x` and on the remaining input `bts`. */
  datatype Stmt = Stmt(x: Path, op: Op)

  /** `ReadExactly` records whether the array's elements are of a named type. */
  datatype Op =
    | ReadBase(p: Prim)
    | ReadExactly(n: nat, named: bool)
    | CallUnmarshal(name: string)
    | TupleHeader(n: nat)
    | ArrayHeader(n: nat)
    | ResizeSlice
    | RangeInto(body: seq<Stmt>)
    | StructLoop(n: nat, cases: seq<Case>)
    | MapLoop(body: seq<Stmt>)
    | NilOr(body: seq<Stmt>)

  /** One `case` of the switch over the field names. */
  datatype Case = Case(tag: bytes, body: seq<Stmt>)

  type Progs = map<string, seq<Stmt>>

  // ---- Reading base values ------------------------------------------------------------

  /** What `ExtensionType` of the variable that is read into returns: a constant of its type, or
      the number a `RawExtension` happens to hold. */
  function Wanted(p: Prim, target: GoVal): int8 {
    if p.PExt? then p.typ else Number(target)
  }

  function Number(target: GoVal): int8 {
    if target.Raw? then target.typ else 0
  }

  function ReadPrim(p: Prim, want: int8, b: bytes): Parsed<V.Value> {
    match p
    case PBytes => var (d, o) :- ReadBin(b); Ok((V.Bin(d), o))
    case PString => var (s, o) :- ReadStr(b); Ok((V.Str(s), o))
    case PFloat32 => var (f, o) :- ReadFloat32(b); Ok((V.Float32(f), o))
    case PFloat64 => ReadFloat64(b)
    case PComplex64 => ReadComplex64(b)
    case PComplex128 => ReadComplex128(b)
    case PUint => ReadUintValue(b, TWO_64, 64)
    case PUint8 => ReadUintValue(b, 0x100, 8)
    case PUint16 => ReadUintValue(b, TWO_16, 16)
    case PUint32 => ReadUintValue(b, TWO_32, 32)
    case PUint64 => ReadUintValue(b, TWO_64, 64)
    case PByte => ReadUintValue(b, 0x100, 8)
    case PInt => ReadIntValue(b, TWO_63, 64)
    case PInt8 => ReadIntValue(b, 0x80, 8)
    case PInt16 => ReadIntValue(b, 0x8000, 16)
    case PInt32 => ReadIntValue(b, TWO_31, 32)
    case PInt64 => ReadIntValue(b, TWO_63, 64)
    case PBool => var (t, o) :- ReadBool(b); Ok((V.Bool(t), o))
    case PIntf => ReadIntf(b)
    case PTime => ReadTime(b)
    case PExt(_) => var (d, o) :- ReadExtension(b, want); Ok((V.Ext(want, d), o))
    case PRaw => var (d, o) :- ReadExtension(b, want); Ok((V.Ext(want, d), o))
  }

  function ReadIntValue(b: bytes, half: int, bits: nat): Parsed<V.Value> {
    var (i, o) :- ReadIntN(b, half, bits);
    Ok((V.Int(i), o))
  }

  function ReadUintValue(b: bytes, limit: nat, bits: nat): Parsed<V.Value> {
    var (u, o) :- ReadUintN(b, limit, bits);
    Ok((V.Uint(u), o))
  }

  // ---- Running the emitted code ----------------------------------------------------------

  /** A variable of the base type `p` that holds `x`. */
  function Holding(p: Prim, x: V.Value): GoVal {
    if p == PIntf then Dyn(x) else if p == PRaw && x.Ext? then Raw(x.typ, x.body) else Scalar(x)
  }

  /** The fields of a struct variable; a zero value has zero fields. */
  function Expand(v: GoVal, n: nat): (fs: seq<GoVal>)
    ensures |fs| == n
  {
    if v.Rec? && |v.fields| == n then v.fields else seq(n, _ => Zero)
  }

  function Elements(v: GoVal, n: nat): (vs: seq<GoVal>)
    ensures |vs| == n
  {
    if v.Arr? && |v.els| == n then v.els else seq(n, _ => Zero)
  }

  /** A nil pointer is first made to point to a zero value. */
  function Pointee(v: GoVal): GoVal { if v.PtrTo? then v.to else Zero }

  /** `resizeSlice`: reuse the capacity, stale elements included, or make a new slice. */
  function Resize(v: GoVal, n: nat): (r: GoVal)
    ensures r.Sl? && |r.els| == n
  {
    var store := if v.Sl? then v.els + v.spare else [];
    if n <= |store| then Sl(store[..n], store[n..]) else Sl(seq(n, _ => Zero), [])
  }

  function AssignGo(es: seq<GoEntry>, key: bytes, val: GoVal): seq<GoEntry> {
    if es == [] then [GoEntry(key, val)]
    else if es[0].key == key then [GoEntry(key, val)] + es[1..]
    else [es[0]] + AssignGo(es[1..], key, val)
  }

  function BytesToGo(d: bytes): (vs: seq<GoVal>)
    ensures |vs| == |d|
  {
    seq(|d|, i requires 0 <= i < |d| => Scalar(V.Uint(d[i])))
  }

  /** The first case with the given name; `None` selects `default`. */
  function FindCase(cases: seq<Case>, key: bytes): (r: Result<seq<Stmt>>)
    ensures r.Ok? ==> exists i :: 0 <= i < |cases| && cases[i].body == r.value
  {
    if cases == [] then Err(UnknownMethod)
    else if cases[0].tag == key then Ok(cases[0].body)
    else
      var r := FindCase(cases[1..], key);
      assert r.Ok? ==>
        exists i :: 0 <= i < |cases[1..]| && cases[1..][i] == cases[i + 1] && cases[1..][i].body == r.value;
      r
  }

  function Exec(ps: Progs, ss: seq<Stmt>, v: GoVal, b: bytes, fuel: nat): Parsed<GoVal>
    decreases fuel, ss, 0, 0
  {
    if ss == [] then Ok((v, b))
    else
      var (v1, b1) :- ExecAt(ps, ss[0].x, ss[0].op, v, b, fuel);
      Exec(ps, ss[1..], v1, b1, fuel)
  }

  /** An operation on the variable `x` below `v`. */
  function ExecAt(ps: Progs, x: Path, op: Op, v: GoVal, b: bytes, fuel: nat): Parsed<GoVal>
    decreases fuel, op, 1, |x|
  {
    if x == [] then Do(ps, op, v, b, fuel)
    else if x[0].i >= x[0].n then Err(UnknownMethod)
    else Lift(x[0], v, ExecAt(ps, x[1..], op, Expand(v, x[0].n)[x[0].i], b, fuel))
  }

  /** The struct `v` with field `s.i` replaced by what was computed for it. */
  function Lift(s: Sel, v: GoVal, r: Parsed<GoVal>): Parsed<GoVal>
    requires s.i < s.n
  {
    var (f, o) :- r;
    Ok((Rec(Expand(v, s.n)[s.i := f]), o))
  }

  function Do(ps: Progs, op: Op, v: GoVal, b: bytes, fuel: nat): Parsed<GoVal>
    decreases fuel, op, 0, 0
  {
    match op
    case ReadBase(p) =>
      var (x, o) :- ReadPrim(p, Wanted(p, v), b);
      Ok((Holding(p, x), o))
    case ReadExactly(n, _) =>
      var (d, o) :- ReadExact(b, ByteString(Elements(v, n)));
      Ok((Arr(BytesToGo(d)), o))
    case CallUnmarshal(name) =>
      if fuel == 0 then Err(OutOfFuel)
      else if name !in ps then Err(UnknownMethod)
      else Exec(ps, ps[name], v, b, fuel - 1)
    case TupleHeader(n) =>
      var (sz, o) :- ReadArrayHeader(b);
      if sz != n then Err(ArrayError(n, sz)) else Ok((Rec(Expand(v, n)), o))
    case ArrayHeader(n) =>
      var (sz, o) :- ReadArrayHeader(b);
      if sz != n % TWO_32 then Err(ArrayError(n % TWO_32, sz)) else Ok((Arr(Elements(v, n)), o))
    case ResizeSlice =>
      var (sz, o) :- ReadArrayHeader(b);
      Ok((Resize(v, sz), o))
    case RangeInto(body) =>
      if v.Sl? then
        var (els, o) :- Loop(ps, body, v.els, b, fuel);
        Ok((Sl(els, v.spare), o))
      else if v.Arr? then
        var (els, o) :- Loop(ps, body, v.els, b, fuel);
        Ok((Arr(els), o))
      else Err(UnknownMethod)
    case StructLoop(n, cases) =>
      var (sz, o) :- ReadMapHeader(b);
      FieldLoop(ps, cases, sz, Rec(Expand(v, n)), o, fuel)
    case MapLoop(body) =>
      var (sz, o) :- ReadMapHeader(b);
      var (es, o') :- EntryLoop(ps, body, sz, [], o, fuel);
      Ok((Mp(es), o'))
    case NilOr(body) =>
      if IsNil(b) then
        var o :- ReadNil(b);
        Ok((NilPtr, o))
      else
        var (w, o) :- Exec(ps, body, Pointee(v), b, fuel);
        Ok((PtrTo(w), o))
  }

  /** `for i := range x { body on x[i] }`. */
  function Loop(ps: Progs, body: seq<Stmt>, vs: seq<GoVal>, b: bytes, fuel: nat): (r: Parsed<seq<GoVal>>)
    ensures r.Ok? ==> |r.value.0| == |vs|
    decreases fuel, body, 2, |vs|
  {
    if vs == [] then Ok(([], b))
    else
      var (w, o) :- Exec(ps, body, vs[0], b, fuel);
      var (ws, o') :- Loop(ps, body, vs[1..], o, fuel);
      Ok(([w] + ws, o'))
  }

  /** The field loop: read a name, run its case, or skip the value. */
  function FieldLoop(ps: Progs, cases: seq<Case>, sz: nat, v: GoVal, b: bytes, fuel: nat): Parsed<GoVal>
    decreases fuel, cases, 2, sz
  {
    if sz == 0 then Ok((v, b))
    else
      var (key, o) :- ReadMapKey(b);
      var body := FindCase(cases, key);
      if body.Ok? then
        var (v', o') :- Exec(ps, body.value, v, o, fuel);
        FieldLoop(ps, cases, sz - 1, v', o', fuel)
      else
        var o' :- Skip(o);
        FieldLoop(ps, cases, sz - 1, v, o', fuel)
  }

  /** The map loop: the map was cleared or made, each value starts out zero. */
  function EntryLoop(ps: Progs, body: seq<Stmt>, sz: nat, es: seq<GoEntry>, b: bytes, fuel: nat): Parsed<seq<GoEntry>>
    decreases fuel, body, 2, sz
  {
    if sz == 0 then Ok((es, b))
    else
      var (key, o) :- ReadStr(b);
      var (val, o') :- Exec(ps, body, Zero, o, fuel);
      EntryLoop(ps, body, sz - 1, AssignGo(es, key, val), o', fuel)
  }

  // ---- What is emitted ---------------------------------------------------------------------

  /** The same statements for a field of the variable. */
  function Within(s: Sel, ss: seq<Stmt>): (r: seq<Stmt>)
    ensures |r| == |ss|
  {
    seq(|ss|, i requires 0 <= i < |ss| => Stmt([s] + ss[i].x, ss[i].op))
  }

  function Emit(e: Elem): (ss: seq<Stmt>)
    ensures ss != []
    decreases e, 1
  {
    match e
    case Base(p, _, _) => [Stmt([], ReadBase(p))]
    case Ident(n) => [Stmt([], CallUnmarshal(n))]
    case Ptr(y) => [Stmt([], NilOr(Emit(y)))]
    case Slice(y) => [Stmt([], ResizeSlice), Stmt([], RangeInto(Emit(y)))]
    case Array(n, y) =>
      if IsByteArray(y, V.Slice) then [Stmt([], ReadExactly(n, y.convert))]
      else [Stmt([], ArrayHeader(n)), Stmt([], RangeInto(Emit(y)))]
    case Map(y) => [Stmt([], MapLoop(Emit(y)))]
    case Struct(fs, tup) =>
      if tup then [Stmt([], TupleHeader(|fs|))] + EmitTuple(fs, 0)
      else [Stmt([], StructLoop(|fs|, EmitCases(fs, 0)))]
  }

  function EmitTuple(fs: seq<Field>, i: nat): seq<Stmt>
    decreases fs, 0, |fs| - i
  {
    if i >= |fs| then [] else Within(Sel(i, |fs|), Emit(fs[i].elem)) + EmitTuple(fs, i + 1)
  }

  function EmitCases(fs: seq<Field>, i: nat): (cs: seq<Case>)
    ensures |cs| == if i <= |fs| then |fs| - i else 0
    decreases fs, 0, |fs| - i
  {
    if i >= |fs| then [] else [Case(fs[i].tag, Within(Sel(i, |fs|), Emit(fs[i].elem)))] + EmitCases(fs, i + 1)
  }

  function Programs(env: Env): Progs {
    map n | n in env :: Emit(env[n])
  }
}
