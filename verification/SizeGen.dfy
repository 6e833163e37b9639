/** The size generator (gen/size.go): a three-state emitter of sum expressions, the value of
    the emitted `Msgsize`, and that it bounds what `MarshalMsg` appends. */
module SizeGen {
  import opened Wire
  import opened TypeTree
  import MarshalGen
  import V = Encoding

  // ---- The emitted code ------------------------------------------------------------------

  /** A summand. `Fixed` is a fixed-size expression and `Times` is `len(x)` times one; `go` says
      that the text of the expression is Go. */
  datatype Term =
    | Const(n: nat)
    | KeyLen
    | StrLen(x: Path)
    | BinLen(x: Path)
    | ExtLen(x: Path)
    | GuessOf(x: Path)
    | SizeCall(x: Path, name: string)
    | Fixed(n: nat, go: bool)
    | Times(x: Path, n: nat, go: bool)

  /** `s = a + b ...`, `s += a + b ...`, and blocks. */
  datatype Stmt =
    | Set(terms: seq<Term>)
    | Add(terms: seq<Term>)
    | Range(x: Path, body: seq<Stmt>)
    | RangeMap(x: Path, body: seq<Stmt>)
    | IfNil(x: Path, body: seq<Stmt>)

  type Progs = map<string, seq<Stmt>>

  // ---- Sizes of dynamic values: GuessSize --------------------------------------------------

  /** `GuessSize`: slices and times are guessed at 512 bytes. */
  function GuessSize(v: V.Value): nat
    decreases v, 1
  {
    match v
    case Nil => 1
    case Bool(_) => 1
    case Int(_) => 9
    case Uint(_) => 9
    case Float32(_) => 5
    case Float64(_) => 9
    case Complex64(_, _) => 10
    case Complex128(_, _) => 18
    case Str(s) => 5 + |s|
    case Bin(d) => 5 + |d|
    case Time(_, _) => 512
    case Ext(_, d) => 6 + |d|
    case Arr(_) => 512
    case Map(es) => 5 + GuessEntries(es)
  }

  function GuessEntries(es: seq<V.Entry>): nat
    decreases es, 0
  {
    if es == [] then 0 else 5 + |es[0].key| + GuessSize(es[0].val) + GuessEntries(es[1..])
  }

  // ---- Fixed sizes ----------------------------------------------------------------------------

  predicate IsFixed(p: Prim) {
    p != PIntf && !p.PExt? && p != PRaw && p != PBytes && p != PString
  }

  /** The worst-case sizes of msgp/size.go. */
  function PrimSize(p: Prim): nat {
    match p
    case PInt8 => 2 case PUint8 => 2 case PByte => 2
    case PInt16 => 3 case PUint16 => 3
    case PInt32 => 5 case PUint32 => 5 case PFloat32 => 5
    case PComplex64 => 10
    case PComplex128 => 18
    case PTime => 15
    case PBool => 1
    case _ => 9
  }

  /** `fixedSizeExpr`: the value of the expression text, and whether the text ends in a
      dangling `+` or has one inside parentheses, which is not Go. */
  datatype FixedSize = NotFixed | Expr(size: nat, dangling: bool, broken: bool) {
    predicate IsGo() { Expr? && !dangling && !broken }
  }

  function FixedExpr(e: Elem): FixedSize
    decreases e, 1
  {
    match e
    case Base(p, _, _) => if IsFixed(p) then Expr(PrimSize(p), false, false) else NotFixed
    case Array(n, els) =>
      var f := FixedExpr(els);
      if f.NotFixed? then f else Expr(n * f.size, false, f.broken || f.dangling)
    case Struct(fs, _) =>
      var f := FixedFields(fs);
      if f.NotFixed? then f else f.(size := |V.EncMapHeader(|fs| % TWO_32)| + f.size)
    case _ => NotFixed
  }

  /** The sum over the fields, tags included; it dangles if its last summand does. */
  function FixedFields(fs: seq<Field>): FixedSize
    decreases fs, 0
  {
    if fs == [] then Expr(0, true, false)
    else
      var f, rest := FixedExpr(fs[0].elem), FixedFields(fs[1..]);
      if f.NotFixed? || rest.NotFixed? then NotFixed
      else Expr(|V.EncStr(fs[0].tag)| + f.size + rest.size, if |fs| == 1 then f.dangling else rest.dangling,
                f.broken || rest.broken)
  }

  // ---- The emitter -------------------------------------------------------------------------------

  /** What `addConstant` must write next: `s = `, `s += `, or ` + `. */
  datatype Mode = Assign | AddTo | Extend

  datatype Emitter = Emitter(out: seq<Stmt>, mode: Mode)

  function AddTerm(m: Emitter, t: Term): Emitter {
    match m.mode
    case Assign => Emitter(m.out + [Set([t])], Extend)
    case AddTo => Emitter(m.out + [Add([t])], Extend)
    case Extend =>
      if m.out == [] then m
      else
        var init, last := m.out[..|m.out| - 1], m.out[|m.out| - 1];
        if last.Set? then m.(out := init + [Set(last.terms + [t])])
        else if last.Add? then m.(out := init + [Add(last.terms + [t])])
        else m
  }

  function BaseTerm(p: Prim, x: Path): Term {
    match p
    case PExt(_) => ExtLen(x)
    case PRaw => ExtLen(x)
    case PIntf => GuessOf(x)
    case PBytes => BinLen(x)
    case PString => StrLen(x)
    case _ => Const(PrimSize(p))
  }

  /** The emitter after the variable `x` of type `e`. */
  function Emit(e: Elem, x: Path, m: Emitter): Emitter
    decreases e, 1
  {
    match e
    case Base(p, _, _) => AddTerm(m, BaseTerm(p, x))
    case Ident(n) => AddTerm(m, SizeCall(x, n))
    case Ptr(y) => Emitter(m.out + [IfNil(x, Emit(y, [], Emitter([], AddTo)).out)], AddTo)
    case Slice(y) =>
      var m1 := AddTerm(m, Const(5));
      var f := FixedExpr(y);
      if f.Expr? then AddTerm(m1, Times(x, f.size, f.IsGo()))
      else Emitter(m1.out + [Range(x, Emit(y, [], Emitter([], AddTo)).out)], AddTo)
    case Array(n, y) =>
      var m1 := AddTerm(m, Const(5));
      var f := FixedExpr(e);
      if f.Expr? then AddTerm(m1, Fixed(f.size, f.IsGo()))
      else Emitter(m1.out + [Range(x, Emit(y, [], Emitter([], AddTo)).out)], AddTo)
    case Map(y) =>
      var m1 := AddTerm(m, Const(5));
      Emitter(m1.out + [RangeMap(x, Emit(y, [], Emitter([Add([KeyLen])], Extend)).out)], AddTo)
    case Struct(fs, tup) => EmitFields(fs, 0, x, tup, AddTerm(m, Const(|StructHeader(|fs|, tup)|)))
  }

  function EmitFields(fs: seq<Field>, i: nat, x: Path, tup: bool, m: Emitter): Emitter
    decreases fs, 0, |fs| - i
  {
    if i >= |fs| then m
    else
      var m1 := if tup then m else AddTerm(m, Const(|V.EncStr(fs[i].tag)|));
      EmitFields(fs, i + 1, x, tup, Emit(fs[i].elem, x + [Sel(i, |fs|)], m1))
  }

  /** The program for a named type starts with nothing written. */
  function Program(e: Elem): seq<Stmt> { Emit(e, [], Emitter([], Assign)).out }

  function Programs(env: Env): Progs { map n | n in env :: Program(env[n]) }

  // ---- Well-formed programs --------------------------------------------------------------------

  /** A statement that never assigns `s` outright, and whose blocks never do. */
  ghost predicate NoSet(s: Stmt)
    decreases s
  {
    match s
    case Set(_) => false
    case Add(_) => true
    case Range(_, body) => forall i :: 0 <= i < |body| ==> NoSet(body[i])
    case RangeMap(_, body) => forall i :: 0 <= i < |body| ==> NoSet(body[i])
    case IfNil(_, body) => forall i :: 0 <= i < |body| ==> NoSet(body[i])
  }

  /** A statement list the emitter may be in the middle of: ` + ` comes next only on an open
      sum, `s = ` comes next only when nothing has been written, and it has been written at
      most as the very first statement of the function. */
  ghost predicate WellPlaced(m: Emitter, top: bool) {
    && (m.mode == Extend ==> m.out != [] && var last := m.out[|m.out| - 1]; last.Set? || last.Add?)
    && (m.mode == Assign ==> m.out == [] && top)
    && forall i :: 0 <= i < |m.out| ==> NoSet(m.out[i]) || (top && i == 0 && m.out[0].Set?)
  }

  lemma TermStays(m: Emitter, t: Term, top: bool)
    requires WellPlaced(m, top)
    ensures WellPlaced(AddTerm(m, t), top) && AddTerm(m, t).mode == Extend
  {
  }

  lemma BlockStays(m: Emitter, s: Stmt, top: bool)
    requires WellPlaced(m, top) && NoSet(s)
    ensures WellPlaced(Emitter(m.out + [s], AddTo), top)
  {
  }

  /** The emitter keeps programs well formed through every node, nested blocks included. */
  lemma {:induction false} StaysWellPlaced(e: Elem, x: Path, m: Emitter, top: bool)
    requires WellPlaced(m, top)
    ensures WellPlaced(Emit(e, x, m), top) && Emit(e, x, m).mode != Assign
    decreases e, 1
  {
    hide FixedExpr, WellPlaced, AddTerm;
    match e
    case Base(p, _, _) => TermStays(m, BaseTerm(p, x), top);
    case Ident(n) => TermStays(m, SizeCall(x, n), top);
    case Ptr(y) =>
      BodyIsTidy(y, Emitter([], AddTo));
      BlockStays(m, IfNil(x, Emit(y, [], Emitter([], AddTo)).out), top);
    case Slice(y) =>
      TermStays(m, Const(5), top);
      var m1, f := AddTerm(m, Const(5)), FixedExpr(y);
      if f.Expr? {
        TermStays(m1, Times(x, f.size, f.IsGo()), top);
      } else {
        BodyIsTidy(y, Emitter([], AddTo));
        BlockStays(m1, Range(x, Emit(y, [], Emitter([], AddTo)).out), top);
      }
    case Array(n, y) =>
      TermStays(m, Const(5), top);
      var m1, f := AddTerm(m, Const(5)), FixedExpr(e);
      if f.Expr? {
        TermStays(m1, Fixed(f.size, f.IsGo()), top);
      } else {
        BodyIsTidy(y, Emitter([], AddTo));
        BlockStays(m1, Range(x, Emit(y, [], Emitter([], AddTo)).out), top);
      }
    case Map(y) =>
      TermStays(m, Const(5), top);
      BodyIsTidy(y, Emitter([Add([KeyLen])], Extend));
      BlockStays(AddTerm(m, Const(5)), RangeMap(x, Emit(y, [], Emitter([Add([KeyLen])], Extend)).out), top);
    case Struct(fs, tup) =>
      TermStays(m, Const(|StructHeader(|fs|, tup)|), top);
      FieldsStayWellPlaced(fs, 0, x, tup, AddTerm(m, Const(|StructHeader(|fs|, tup)|)), top);
  }

  /** A block body, started in either of the two ways the generator starts one. */
  lemma {:induction false} BodyIsTidy(y: Elem, m: Emitter)
    requires m == Emitter([], AddTo) || m == Emitter([Add([KeyLen])], Extend)
    ensures forall i :: 0 <= i < |Emit(y, [], m).out| ==> NoSet(Emit(y, [], m).out[i])
    decreases y, 2
  {
    StaysWellPlaced(y, [], m, false);
  }

  lemma {:induction false} FieldsStayWellPlaced(fs: seq<Field>, i: nat, x: Path, tup: bool, m: Emitter, top: bool)
    requires WellPlaced(m, top) && m.mode != Assign
    ensures WellPlaced(EmitFields(fs, i, x, tup, m), top) && EmitFields(fs, i, x, tup, m).mode != Assign
    decreases fs, 0, |fs| - i
  {
    hide Emit, V.EncStr, WellPlaced, AddTerm;
    if i < |fs| {
      var tag := Const(|V.EncStr(fs[i].tag)|);
      var m1 := if tup then m else AddTerm(m, tag);
      if !tup { TermStays(m, tag, top); }
      StaysWellPlaced(fs[i].elem, x + [Sel(i, |fs|)], m1, top);
      FieldsStayWellPlaced(fs, i + 1, x, tup, Emit(fs[i].elem, x + [Sel(i, |fs|)], m1), top);
    }
  }

  /** Every emitted `Msgsize` assigns `s` at most once, in its first statement. */
  lemma ProgramIsWellFormed(e: Elem)
    ensures forall i :: 0 <= i < |Program(e)| ==> NoSet(Program(e)[i]) || (i == 0 && Program(e)[0].Set?)
  {
    hide Emit;
    StaysWellPlaced(e, [], Emitter([], Assign), true);
  }

  // ---- Running the emitted code --------------------------------------------------------------------

  function Eval(ps: Progs, t: Term, key: bytes, v: GoVal, fuel: nat): int
    decreases fuel, t, 0
  {
    match t
    case Const(n) => n
    case Fixed(n, _) => n
    case KeyLen => 5 + |key|
    case StrLen(x) =>
      var w := MarshalGen.Get(v, x);
      if w.Some? && w.value.Scalar? && w.value.v.Str? then 5 + |w.value.v.s| else 0
    case BinLen(x) =>
      var w := MarshalGen.Get(v, x);
      if w.Some? && w.value.Scalar? && w.value.v.Bin? then 5 + |w.value.v.data| else 0
    case ExtLen(x) =>
      var w := MarshalGen.Get(v, x);
      if w.None? then 0
      else if w.value.Raw? then 6 + |w.value.body|
      else if w.value.Scalar? && w.value.v.Ext? then 6 + |w.value.v.body|
      else 0
    case GuessOf(x) =>
      var w := MarshalGen.Get(v, x);
      if w.Some? && w.value.Dyn? then GuessSize(w.value.v) else 0
    case SizeCall(x, name) =>
      var w := MarshalGen.Get(v, x);
      if w.Some? && name in ps && fuel > 0 then Exec(ps, ps[name], [], w.value, 0, fuel - 1) else 0
    case Times(x, n, _) =>
      var w := MarshalGen.Get(v, x);
      if w.Some? && w.value.Sl? then |w.value.els| * n else 0
  }

  function Sum(ps: Progs, ts: seq<Term>, key: bytes, v: GoVal, fuel: nat): int
    decreases fuel, ts, 1
  {
    if ts == [] then 0
    else Sum(ps, ts[..|ts| - 1], key, v, fuel) + Eval(ps, ts[|ts| - 1], key, v, fuel)
  }

  /** The variable `s` after the statements, starting from `s`. */
  function Exec(ps: Progs, ss: seq<Stmt>, key: bytes, v: GoVal, s: int, fuel: nat): int
    decreases fuel, ss, 2, 0
  {
    if ss == [] then s
    else ExecOne(ps, ss[|ss| - 1], key, v, Exec(ps, ss[..|ss| - 1], key, v, s, fuel), fuel)
  }

  function ExecOne(ps: Progs, st: Stmt, key: bytes, v: GoVal, s: int, fuel: nat): int
    decreases fuel, st, 3, 0
  {
    match st
    case Set(ts) => Sum(ps, ts, key, v, fuel)
    case Add(ts) => s + Sum(ps, ts, key, v, fuel)
    case Range(x, body) =>
      var w := MarshalGen.Get(v, x);
      if w.Some? && (w.value.Sl? || w.value.Arr?) then ExecRange(ps, body, w.value.els, s, fuel) else s
    case RangeMap(x, body) =>
      var w := MarshalGen.Get(v, x);
      if w.Some? && w.value.Mp? then ExecEntries(ps, body, w.value.entries, s, fuel) else s
    case IfNil(x, body) =>
      var w := MarshalGen.Get(v, x);
      if w.Some? && w.value.NilPtr? then s + 1
      else if w.Some? && w.value.PtrTo? then Exec(ps, body, [], w.value.to, s, fuel)
      else s
  }

  function ExecRange(ps: Progs, body: seq<Stmt>, vs: seq<GoVal>, s: int, fuel: nat): int
    decreases fuel, body, 4, |vs|
  {
    if vs == [] then s else ExecRange(ps, body, vs[1..], Exec(ps, body, [], vs[0], s, fuel), fuel)
  }

  function ExecEntries(ps: Progs, body: seq<Stmt>, es: seq<GoEntry>, s: int, fuel: nat): int
    decreases fuel, body, 4, |es|
  {
    if es == [] then s else ExecEntries(ps, body, es[1..], Exec(ps, body, es[0].key, es[0].val, s, fuel), fuel)
  }

  // ---- The value of Msgsize, node by node ---------------------------------------------------------

  function SizeOf(env: Env, e: Elem, v: GoVal): int
    decreases v, if e.Ident? then 1 else 0
  {
    match e
    case Base(p, _, _) =>
      if p == PIntf then (if v.Dyn? then GuessSize(v.v) else 0)
      else if v.Raw? then 6 + |v.body|
      else if !v.Scalar? then 0
      else if v.v.Str? then 5 + |v.v.s|
      else if v.v.Bin? then 5 + |v.v.data|
      else if v.v.Ext? then 6 + |v.v.body|
      else PrimSize(p)
    case Ident(n) => if n in env && !env[n].Ident? then SizeOf(env, env[n], v) else 0
    case Ptr(y) => if v.NilPtr? then 1 else if v.PtrTo? then SizeOf(env, y, v.to) else 0
    case Slice(y) =>
      var f := FixedExpr(y);
      if !v.Sl? then 0 else if f.Expr? then 5 + |v.els| * f.size else 5 + SizeAll(env, y, v.els)
    case Array(n, y) =>
      var f := FixedExpr(e);
      if !v.Arr? then 0 else if f.Expr? then 5 + f.size else 5 + SizeAll(env, y, v.els)
    case Map(y) => if v.Mp? then 5 + SizeEntries(env, y, v.entries) else 0
    case Struct(fs, tup) =>
      if v.Rec? && |v.fields| == |fs| then |StructHeader(|fs|, tup)| + SizeFields(env, fs, v.fields, 0, tup) else 0
  }

  function SizeAll(env: Env, e: Elem, vs: seq<GoVal>): int
    decreases vs, 2
  {
    if vs == [] then 0 else SizeOf(env, e, vs[0]) + SizeAll(env, e, vs[1..])
  }

  function SizeEntries(env: Env, e: Elem, es: seq<GoEntry>): int
    decreases es, 2
  {
    if es == [] then 0 else 5 + |es[0].key| + SizeOf(env, e, es[0].val) + SizeEntries(env, e, es[1..])
  }

  function SizeFields(env: Env, fs: seq<Field>, vs: seq<GoVal>, i: nat, tup: bool): int
    requires |fs| == |vs|
    decreases vs, 3, |vs| - i
  {
    if i >= |vs| then 0
    else |FieldTag(fs[i], tup)| + SizeOf(env, fs[i].elem, vs[i]) + SizeFields(env, fs, vs, i + 1, tup)
  }
}
