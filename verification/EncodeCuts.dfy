/** Told from the type alone: when the emitted `EncodeMsg` (gen/encode.go) loses no byte of any
    value to a buffer that is too short for one of its fused constants. */
module EncodeCuts {
  import opened Wire
  import opened TypeTree
  import opened Inhabitation
  import opened EncodeRuns
  import W = Writer
  import G = MarshalGen
  import V = Encoding

  // ---- On the type alone ------------------------------------------------------------------------

  /** Every constant in the type's own program fits a buffer of length `n` when the constants `f`
      are pending in front of it; loops over arrays of no elements are never entered. */
  ghost predicate Fits(e: Elem, f: bytes, n: nat)
    decreases e, 1
  {
    match e
    case Base(_, _, _) => |f| <= n
    case Ident(_) => |f| <= n
    case Ptr(y) => |f| <= n && Fits(y, [], n)
    case Slice(y) => |f| <= n && Fits(y, [], n)
    case Array(k, y) => |f| <= n && (k > 0 ==> Fits(y, [], n))
    case Map(y) => |f| <= n && Fits(y, [], n)
    case Struct(fs, tup) =>
      var g := f + StructHeader(|fs|, tup);
      if fs == [] then |g| <= n else FieldsFit(fs, 0, g, tup, n)
  }

  ghost predicate FieldsFit(fs: seq<Field>, i: nat, f: bytes, tup: bool, n: nat)
    decreases fs, 0, |fs| - i
  {
    i < |fs| ==> Fits(fs[i].elem, f + FieldTag(fs[i], tup), n) && FieldsFit(fs, i + 1, [], tup, n)
  }

  /** The method of the named type `m` is called somewhere in the type's own program. */
  ghost predicate Calls(e: Elem, m: string)
    decreases e
  {
    match e
    case Base(_, _, _) => false
    case Ident(k) => k == m
    case Ptr(y) => Calls(y, m)
    case Slice(y) => Calls(y, m)
    case Array(k, y) => k > 0 && Calls(y, m)
    case Map(y) => Calls(y, m)
    case Struct(fs, _) => exists i :: 0 <= i < |fs| && Calls(fs[i].elem, m)
  }

  /** The calls `p` lead to a program with a constant that does not fit. */
  ghost predicate LeadsToCut(env: Env, e: Elem, p: seq<string>, n: nat)
    decreases |p|
  {
    if p == [] then !Fits(e, [], n)
    else Calls(e, p[0]) && p[0] in env && LeadsToCut(env, env[p[0]], p[1..], n)
  }

  ghost predicate CutAhead(env: Env, e: Elem, n: nat) {
    exists p :: LeadsToCut(env, e, p, n)
  }

  // ---- On one value -------------------------------------------------------------------------------

  /** Every constant met on the way through the value fits. */
  ghost predicate Whole(env: Env, e: Elem, f: bytes, v: GoVal, n: nat)
    decreases v, if e.Ident? then 1 else 0, 1
  {
    match e
    case Base(_, _, _) => |f| <= n
    case Ident(k) => |f| <= n && (k in env && !env[k].Ident? ==> Whole(env, env[k], [], v, n))
    case Ptr(y) => |f| <= n && (v.PtrTo? ==> Whole(env, y, [], v.to, n))
    case Slice(y) => |f| <= n && (v.Sl? ==> AllWhole(env, y, v.els, n))
    case Array(_, y) => |f| <= n && (v.Arr? && !IsByteArray(y, V.Stream) ==> AllWhole(env, y, v.els, n))
    case Map(y) => |f| <= n && (v.Mp? ==> EntriesWhole(env, y, v.entries, n))
    case Struct(fs, tup) =>
      var g := f + StructHeader(|fs|, tup);
      if fs == [] then |g| <= n else v.Rec? && |v.fields| == |fs| ==> FieldsWhole(env, fs, v.fields, 0, g, tup, n)
  }

  ghost predicate AllWhole(env: Env, y: Elem, vs: seq<GoVal>, n: nat)
    decreases vs, 2
  {
    vs != [] ==> Whole(env, y, [], vs[0], n) && AllWhole(env, y, vs[1..], n)
  }

  ghost predicate EntriesWhole(env: Env, y: Elem, es: seq<GoEntry>, n: nat)
    decreases es, 2
  {
    es != [] ==> Whole(env, y, [], es[0].val, n) && EntriesWhole(env, y, es[1..], n)
  }

  ghost predicate FieldsWhole(env: Env, fs: seq<Field>, vs: seq<GoVal>, i: nat, f: bytes, tup: bool, n: nat)
    requires |fs| == |vs|
    decreases vs, 3, |vs| - i
  {
    i < |vs| ==>
      Whole(env, fs[i].elem, f + FieldTag(fs[i], tup), vs[i], n) && FieldsWhole(env, fs, vs, i + 1, [], tup, n)
  }

  /** No extension in the value has data, so that none makes the buffer longer. */
  ghost predicate Calm(v: GoVal)
    decreases v
  {
    match v
    case Scalar(x) => x.Ext? ==> x.body == []
    case Dyn(x) => x.Nil?
    case Raw(_, d) => d == []
    case PtrTo(w) => Calm(w)
    case Sl(els, _) => forall i :: 0 <= i < |els| ==> Calm(els[i])
    case Arr(els) => forall i :: 0 <= i < |els| ==> Calm(els[i])
    case Mp(es) => forall i :: 0 <= i < |es| ==> Calm(es[i].val)
    case Rec(fs) => forall i :: 0 <= i < |fs| ==> Calm(fs[i])
    case _ => true
  }

  ghost predicate AllCalm(vs: seq<GoVal>) {
    forall i :: 0 <= i < |vs| ==> Calm(vs[i])
  }

  ghost predicate EntriesCalm(es: seq<GoEntry>) {
    forall i :: 0 <= i < |es| ==> Calm(es[i].val)
  }

  // ---- Runs are told by their values ---------------------------------------------------------------

  /** Of a run with a buffer of length `m`: the buffer never gets shorter; if everything fits `n`
      and the buffer is at least that long, nothing is cut; and on calm values the buffer stays as
      it is, and nothing is cut only if everything fits. */
  ghost predicate Judged(c: Option<Sent>, m: nat, n: nat, fits: bool, calm: bool) {
    && c.Some? && c.value.size >= m
    && (m >= n && fits ==> c.value.whole)
    && (calm ==> c.value.size == m && (m == n && c.value.whole ==> fits))
  }

  lemma {:induction false} CutConcat(ps: G.Progs, a: seq<G.Stmt>, b: seq<G.Stmt>, v: GoVal, fuel: nat, m: nat)
    requires Cut(ps, a, v, fuel, m).Some?
    ensures var c := Cut(ps, a, v, fuel, m).value;
      Cut(ps, a + b, v, fuel, m) == More(c, Cut(ps, b, v, fuel, c.size))
    decreases |a|
  {
    hide CutOne;
    var c := Cut(ps, a, v, fuel, m).value;
    var r := Cut(ps, b, v, fuel, c.size);
    if a == [] {
      assert a + b == b;
      if r.Some? { assert [] + r.value.out == r.value.out; }
    } else {
      var one := CutOne(ps, a[0], v, fuel, m).value;
      assert (a + b)[1..] == a[1..] + b;
      CutConcat(ps, a[1..], b, v, fuel, one.size);
      MoreAssoc(one, Cut(ps, a[1..], v, fuel, one.size), r);
    }
  }

  lemma MoreAssoc(a: Sent, b: Option<Sent>, r: Option<Sent>)
    requires b.Some?
    ensures More(More(a, b).value, r) == More(a, More(b.value, r))
  {
    if r.Some? { assert a.out + b.value.out + r.value.out == a.out + (b.value.out + r.value.out); }
  }

  lemma JudgeMore(a: Sent, r: Option<Sent>, m: nat, n: nat, fitsA: bool, fitsB: bool, calm: bool)
    requires Judged(Some(a), m, n, fitsA, calm) && Judged(r, a.size, n, fitsB, calm)
    ensures Judged(More(a, r), m, n, fitsA && fitsB, calm)
  {
  }

  lemma JudgeConcat(ps: G.Progs, a: seq<G.Stmt>, b: seq<G.Stmt>, v: GoVal, fuel: nat, m: nat, n: nat, fitsA: bool,
                    fitsB: bool, calm: bool)
    requires Judged(Cut(ps, a, v, fuel, m), m, n, fitsA, calm)
    requires var k := Cut(ps, a, v, fuel, m).value.size; Judged(Cut(ps, b, v, fuel, k), k, n, fitsB, calm)
    ensures Judged(Cut(ps, a + b, v, fuel, m), m, n, fitsA && fitsB, calm)
  {
    hide Cut;
    CutConcat(ps, a, b, v, fuel, m);
  }

  lemma JudgeOne(ps: G.Progs, s: G.Stmt, v: GoVal, fuel: nat, m: nat, n: nat, fits: bool, calm: bool)
    requires Judged(CutOne(ps, s, v, fuel, m), m, n, fits, calm)
    ensures Judged(Cut(ps, [s], v, fuel, m), m, n, fits, calm)
  {
    hide CutOne;
    var c := CutOne(ps, s, v, fuel, m).value;
    assert [s][1..] == [];
    assert Cut(ps, [s][1..], v, fuel, c.size) == Some(Sent([], c.size, true));
  }

  /** Pending constants are sent in front of a statement. */
  lemma JudgeHook(ps: G.Progs, f: bytes, v: GoVal, fuel: nat, m: nat, n: nat)
    ensures Judged(Cut(ps, G.Hook(f), v, fuel, m), m, n, |f| <= n, true)
  {
    if f != [] { JudgeOne(ps, G.AppendRaw(f), v, fuel, m, n, |f| <= n, true); }
  }

  lemma JudgeHooked(ps: G.Progs, f: bytes, s: G.Stmt, v: GoVal, fuel: nat, m: nat, n: nat, fits: bool, calm: bool)
    requires forall k :: k >= m ==> Judged(CutOne(ps, s, v, fuel, k), k, n, fits, calm)
    ensures Judged(Cut(ps, G.Hook(f) + [s], v, fuel, m), m, n, |f| <= n && fits, calm)
  {
    hide CutOne, Cut, G.Hook;
    JudgeHook(ps, f, v, fuel, m, n);
    var k := Cut(ps, G.Hook(f), v, fuel, m).value.size;
    JudgeOne(ps, s, v, fuel, k, n, fits, calm);
    JudgeConcat(ps, G.Hook(f), [s], v, fuel, m, n, |f| <= n, fits, calm);
  }

  lemma JudgeLoop(ps: G.Progs, f: bytes, head: G.Stmt, loop: G.Stmt, v: GoVal, fuel: nat, m: nat, n: nat, fits: bool,
                  calm: bool)
    requires forall k :: k >= m ==> Judged(CutOne(ps, head, v, fuel, k), k, n, true, true)
    requires forall k :: k >= m ==> Judged(CutOne(ps, loop, v, fuel, k), k, n, fits, calm)
    ensures Judged(Cut(ps, G.Hook(f) + [head, loop], v, fuel, m), m, n, |f| <= n && fits, calm)
  {
    JudgeHooked(ps, f, head, v, fuel, m, n, true, true);
    hide CutOne, Cut, G.Hook;
    var k := Cut(ps, G.Hook(f) + [head], v, fuel, m).value.size;
    JudgeOne(ps, loop, v, fuel, k, n, fits, calm);
    JudgeConcat(ps, G.Hook(f) + [head], [loop], v, fuel, m, n, |f| <= n, fits, calm);
    assert G.Hook(f) + [head] + [loop] == G.Hook(f) + [head, loop];
  }

  /** The programs as `EncodeMsg` has them. */
  function Progs(env: Env): G.Progs { G.Programs(env, V.Stream, true) }

  function Body(e: Elem): seq<G.Stmt> { G.Emit(e, [], [], V.Stream, true) }

  lemma {:induction false} EmitJudged(env: Env, e: Elem, x: Path, v: GoVal, w: GoVal, f: bytes, fuel: nat, m: nat,
                                      n: nat)
    requires G.Get(v, x) == Some(w) && HasType(env, e, w) && Enough(fuel, e, w)
    ensures Judged(Cut(Progs(env), G.Emit(e, x, f, V.Stream, true), v, fuel, m), m, n, Whole(env, e, f, w, n), Calm(w))
    decreases w, if e.Ident? then 1 else 0, 2
  {
    hide Cut, CutOne, G.Get, HasType, Enough, Progs, Judged, Whole, Calm;
    match e
    case Base(_, _, _) => BaseJudged(env, e, x, v, w, f, fuel, m, n);
    case Ident(_) => IdentJudged(env, e, x, v, w, f, fuel, m, n);
    case Ptr(_) => PtrJudged(env, e, x, v, w, f, fuel, m, n);
    case Slice(_) => SliceJudged(env, e, x, v, w, f, fuel, m, n);
    case Array(_, _) => ArrayJudged(env, e, x, v, w, f, fuel, m, n);
    case Map(_) => MapJudged(env, e, x, v, w, f, fuel, m, n);
    case Struct(_, _) => StructJudged(env, e, x, v, w, f, fuel, m, n);
  }

  lemma CalmStays(env: Env, e: Elem, w: GoVal, k: nat)
    requires e.Base? && HasType(env, e, w) && Calm(w)
    ensures W.Widest(k, Held(w)) == k
  {
  }

  lemma BaseJudged(env: Env, e: Elem, x: Path, v: GoVal, w: GoVal, f: bytes, fuel: nat, m: nat, n: nat)
    requires e.Base?
    requires G.Get(v, x) == Some(w) && HasType(env, e, w) && Enough(fuel, e, w)
    ensures Judged(Cut(Progs(env), G.Emit(e, x, f, V.Stream, true), v, fuel, m), m, n, Whole(env, e, f, w, n), Calm(w))
    decreases w, if e.Ident? then 1 else 0, 1
  {
    forall k | k >= m ensures Judged(CutOne(Progs(env), G.AppendBase(x), v, fuel, k), k, n, true, Calm(w)) {
      if Calm(w) { CalmStays(env, e, w, k); }
    }
    hide Cut, CutOne, G.Get, G.Hook, Calm, BaseOk, Judged;
    JudgeHooked(Progs(env), f, G.AppendBase(x), v, fuel, m, n, true, Calm(w));
  }

  lemma IdentJudged(env: Env, e: Elem, x: Path, v: GoVal, w: GoVal, f: bytes, fuel: nat, m: nat, n: nat)
    requires e.Ident?
    requires G.Get(v, x) == Some(w) && HasType(env, e, w) && Enough(fuel, e, w)
    ensures Judged(Cut(Progs(env), G.Emit(e, x, f, V.Stream, true), v, fuel, m), m, n, Whole(env, e, f, w, n), Calm(w))
    decreases w, if e.Ident? then 1 else 0, 1
  {
    hide Cut, G.Get, G.Hook, Calm, Judged;
    var fits := Whole(env, env[e.name], [], w, n);
    G.GetRoot(w);
    forall k | k >= m ensures Judged(CutOne(Progs(env), G.Call(x, e.name), v, fuel, k), k, n, fits, Calm(w)) {
      EmitJudged(env, env[e.name], [], w, w, [], fuel - 1, k, n);
    }
    JudgeHooked(Progs(env), f, G.Call(x, e.name), v, fuel, m, n, fits, Calm(w));
  }

  lemma PtrJudged(env: Env, e: Elem, x: Path, v: GoVal, w: GoVal, f: bytes, fuel: nat, m: nat, n: nat)
    requires e.Ptr?
    requires G.Get(v, x) == Some(w) && HasType(env, e, w) && Enough(fuel, e, w)
    ensures Judged(Cut(Progs(env), G.Emit(e, x, f, V.Stream, true), v, fuel, m), m, n, Whole(env, e, f, w, n), Calm(w))
    decreases w, if e.Ident? then 1 else 0, 1
  {
    hide Cut, G.Get, G.Hook;
    var fits := w.PtrTo? ==> Whole(env, e.to, [], w.to, n);
    forall k | k >= m ensures Judged(CutOne(Progs(env), G.IfNil(x, Body(e.to)), v, fuel, k), k, n, fits, Calm(w)) {
      if w.PtrTo? {
        G.GetRoot(w.to);
        EmitJudged(env, e.to, [], w.to, w.to, [], fuel, k, n);
      }
    }
    hide Judged;
    JudgeHooked(Progs(env), f, G.IfNil(x, Body(e.to)), v, fuel, m, n, fits, Calm(w));
  }

  lemma SliceJudged(env: Env, e: Elem, x: Path, v: GoVal, w: GoVal, f: bytes, fuel: nat, m: nat, n: nat)
    requires e.Slice?
    requires G.Get(v, x) == Some(w) && HasType(env, e, w) && Enough(fuel, e, w)
    ensures Judged(Cut(Progs(env), G.Emit(e, x, f, V.Stream, true), v, fuel, m), m, n, Whole(env, e, f, w, n), Calm(w))
    decreases w, if e.Ident? then 1 else 0, 1
  {
    var y := e.els;
    forall k | k >= m ensures Judged(CutOne(Progs(env), G.AppendArrayLen(x), v, fuel, k), k, n, true, true) { }
    forall k | k >= m
      ensures Judged(CutOne(Progs(env), G.Range(x, Body(y)), v, fuel, k), k, n, AllWhole(env, y, w.els, n),
                     AllCalm(w.els)) {
      RangeJudged(env, y, w.els, fuel, k, n);
    }
    hide Cut, CutOne, G.Get, G.Hook, AllWhole, Judged;
    JudgeLoop(Progs(env), f, G.AppendArrayLen(x), G.Range(x, Body(y)), v, fuel, m, n, AllWhole(env, y, w.els, n),
              AllCalm(w.els));
  }

  lemma ArrayJudged(env: Env, e: Elem, x: Path, v: GoVal, w: GoVal, f: bytes, fuel: nat, m: nat, n: nat)
    requires e.Array?
    requires G.Get(v, x) == Some(w) && HasType(env, e, w) && Enough(fuel, e, w)
    ensures Judged(Cut(Progs(env), G.Emit(e, x, f, V.Stream, true), v, fuel, m), m, n, Whole(env, e, f, w, n), Calm(w))
    decreases w, if e.Ident? then 1 else 0, 1
  {
    if IsByteArray(e.els, V.Stream) {
      ByteArrayJudged(env, e, x, v, w, f, fuel, m, n);
    } else {
      ElementsJudged(env, e, x, v, w, f, fuel, m, n);
    }
  }

  lemma ByteArrayJudged(env: Env, e: Elem, x: Path, v: GoVal, w: GoVal, f: bytes, fuel: nat, m: nat, n: nat)
    requires e.Array? && IsByteArray(e.els, V.Stream)
    requires G.Get(v, x) == Some(w) && HasType(env, e, w) && Enough(fuel, e, w)
    ensures Judged(Cut(Progs(env), G.Emit(e, x, f, V.Stream, true), v, fuel, m), m, n, Whole(env, e, f, w, n), Calm(w))
  {
    hide Cut, G.Get, G.Hook, V.EncBin, Calm;
    JudgeHooked(Progs(env), f, G.AppendByteArray(x, e.els.convert), v, fuel, m, n, true, true);
  }

  lemma ElementsJudged(env: Env, e: Elem, x: Path, v: GoVal, w: GoVal, f: bytes, fuel: nat, m: nat, n: nat)
    requires e.Array? && !IsByteArray(e.els, V.Stream)
    requires G.Get(v, x) == Some(w) && HasType(env, e, w) && Enough(fuel, e, w)
    ensures Judged(Cut(Progs(env), G.Emit(e, x, f, V.Stream, true), v, fuel, m), m, n, Whole(env, e, f, w, n), Calm(w))
    decreases w, if e.Ident? then 1 else 0, 0
  {
    var y := e.els;
    forall k | k >= m ensures Judged(CutOne(Progs(env), G.AppendArrayConst(e.size), v, fuel, k), k, n, true, true) { }
    forall k | k >= m
      ensures Judged(CutOne(Progs(env), G.Range(x, Body(y)), v, fuel, k), k, n, AllWhole(env, y, w.els, n),
                     AllCalm(w.els)) {
      RangeJudged(env, y, w.els, fuel, k, n);
    }
    hide Cut, CutOne, G.Get, G.Hook, AllWhole, Judged;
    JudgeLoop(Progs(env), f, G.AppendArrayConst(e.size), G.Range(x, Body(y)), v, fuel, m, n, AllWhole(env, y, w.els, n),
              AllCalm(w.els));
  }

  lemma MapJudged(env: Env, e: Elem, x: Path, v: GoVal, w: GoVal, f: bytes, fuel: nat, m: nat, n: nat)
    requires e.Map?
    requires G.Get(v, x) == Some(w) && HasType(env, e, w) && Enough(fuel, e, w)
    ensures Judged(Cut(Progs(env), G.Emit(e, x, f, V.Stream, true), v, fuel, m), m, n, Whole(env, e, f, w, n), Calm(w))
    decreases w, if e.Ident? then 1 else 0, 1
  {
    var fits, calm := EntriesWhole(env, e.value, w.entries, n), EntriesCalm(w.entries);
    forall k | k >= m ensures Judged(CutOne(Progs(env), G.AppendMapLen(x), v, fuel, k), k, n, true, true) { }
    forall k | k >= m ensures Judged(CutOne(Progs(env), G.RangeMap(x, Body(e.value)), v, fuel, k), k, n, fits, calm) {
      EntriesJudged(env, e.value, w.entries, fuel, k, n);
    }
    hide Cut, CutOne, G.Get, G.Hook, EntriesWhole, Judged, DistinctGoKeys;
    JudgeLoop(Progs(env), f, G.AppendMapLen(x), G.RangeMap(x, Body(e.value)), v, fuel, m, n, fits, calm);
  }

  lemma {:induction false} RangeJudged(env: Env, y: Elem, vs: seq<GoVal>, fuel: nat, m: nat, n: nat)
    requires AllTyped(env, y, vs) && fuel >= MaxDepth(vs)
    ensures Judged(CutRange(Progs(env), Body(y), vs, fuel, m), m, n, AllWhole(env, y, vs, n), AllCalm(vs))
    decreases vs, 2
  {
    hide Cut, HasType, Depth, Whole, Calm, Progs, G.Emit;
    if vs != [] {
      G.GetRoot(vs[0]);
      EmitJudged(env, y, [], vs[0], vs[0], [], fuel, m, n);
      var a := Cut(Progs(env), Body(y), vs[0], fuel, m).value;
      RangeJudged(env, y, vs[1..], fuel, a.size, n);
      var r := CutRange(Progs(env), Body(y), vs[1..], fuel, a.size);
      hide CutRange;
      JudgeMore(a, r, m, n, Whole(env, y, [], vs[0], n), AllWhole(env, y, vs[1..], n), AllCalm(vs));
    }
  }

  lemma {:induction false} EntriesJudged(env: Env, y: Elem, es: seq<GoEntry>, fuel: nat, m: nat, n: nat)
    requires EntriesTyped(env, y, es) && fuel >= EntriesDepth(es)
    ensures Judged(CutEntries(Progs(env), Body(y), es, fuel, m), m, n, EntriesWhole(env, y, es, n), EntriesCalm(es))
    decreases es, 2
  {
    hide Cut, HasType, Depth, Whole, Calm, Progs, G.Emit, V.EncStr, More;
    if es != [] {
      G.GetRoot(es[0].val);
      EmitJudged(env, y, [], es[0].val, es[0].val, [], fuel, m, n);
      var a := Cut(Progs(env), Body(y), es[0].val, fuel, m).value;
      EntriesJudged(env, y, es[1..], fuel, a.size, n);
      var r := CutEntries(Progs(env), Body(y), es[1..], fuel, a.size);
      assert CutEntries(Progs(env), Body(y), es, fuel, m) == More(Sent(V.EncStr(es[0].key), m, true), More(a, r));
      hide CutEntries;
      var fits := EntriesWhole(env, y, es, n);
      JudgeMore(a, r, m, n, Whole(env, y, [], es[0].val, n), EntriesWhole(env, y, es[1..], n), EntriesCalm(es));
      JudgeMore(Sent(V.EncStr(es[0].key), m, true), More(a, r), m, n, true, fits, EntriesCalm(es));
    }
  }

  lemma StructJudged(env: Env, e: Elem, x: Path, v: GoVal, w: GoVal, f: bytes, fuel: nat, m: nat, n: nat)
    requires e.Struct?
    requires G.Get(v, x) == Some(w) && HasType(env, e, w) && Enough(fuel, e, w)
    ensures Judged(Cut(Progs(env), G.Emit(e, x, f, V.Stream, true), v, fuel, m), m, n, Whole(env, e, f, w, n), Calm(w))
    decreases w, if e.Ident? then 1 else 0, 1
  {
    hide Cut, G.Get, G.Hook, G.EmitFields, FieldsWhole, StructHeader;
    var fs, tup := e.fields, e.asTuple;
    var g := f + StructHeader(|fs|, tup);
    if fs == [] {
      JudgeHook(Progs(env), g, v, fuel, m, n);
      assert [] + G.Hook(g) == G.Hook(g);
    } else {
      FieldsJudged(env, fs, 0, x, v, w, g, tup, fuel, m, n);
      assert [] + G.EmitFields(fs, 0, x, g, tup, V.Stream, true) == G.EmitFields(fs, 0, x, g, tup, V.Stream, true);
    }
  }

  lemma {:induction false} FieldsJudged(env: Env, fs: seq<Field>, i: nat, x: Path, v: GoVal, w: GoVal, f: bytes,
                                        tup: bool, fuel: nat, m: nat, n: nat)
    requires G.Get(v, x) == Some(w) && w.Rec? && |w.fields| == |fs| && FieldsTyped(env, fs, w.fields)
    requires fuel >= MaxDepth(w.fields) && i <= |fs|
    ensures Judged(Cut(Progs(env), G.EmitFields(fs, i, x, f, tup, V.Stream, true), v, fuel, m), m, n,
                   FieldsWhole(env, fs, w.fields, i, f, tup, n), Calm(w))
    decreases w.fields, 2, |fs| - i
  {
    hide HasType, Depth, Whole, Progs, G.Emit, V.EncStr, G.Get, CutOne;
    if i < |fs| {
      var sel, g := Sel(i, |fs|), f + FieldTag(fs[i], tup);
      assert tup ==> g == f;
      var own := G.Emit(fs[i].elem, x + [sel], g, V.Stream, true);
      var rest := G.EmitFields(fs, i + 1, x, [], tup, V.Stream, true);
      FieldEmits(fs, i, x, f, tup);
      G.GetField(v, x, sel, w);
      EmitJudged(env, fs[i].elem, x + [sel], v, w.fields[i], g, fuel, m, n);
      var k := Cut(Progs(env), own, v, fuel, m).value.size;
      FieldsJudged(env, fs, i + 1, x, v, w, [], tup, fuel, k, n);
      hide Cut, G.EmitFields;
      JudgeConcat(Progs(env), own, rest, v, fuel, m, n, Whole(env, fs[i].elem, g, w.fields[i], n),
                  FieldsWhole(env, fs, w.fields, i + 1, [], tup, n), Calm(w));
    }
  }

  lemma FieldEmits(fs: seq<Field>, i: nat, x: Path, f: bytes, tup: bool)
    requires i < |fs|
    ensures G.EmitFields(fs, i, x, f, tup, V.Stream, true)
         == G.Emit(fs[i].elem, x + [Sel(i, |fs|)], f + FieldTag(fs[i], tup), V.Stream, true)
            + G.EmitFields(fs, i + 1, x, [], tup, V.Stream, true)
  {
    hide G.Emit, V.EncStr;
    assert tup ==> f + FieldTag(fs[i], tup) == f;
  }

  // ---- Types whose values are all sent whole ------------------------------------------------------

  lemma CallAhead(env: Env, e: Elem, m: string, n: nat)
    requires Calls(e, m) && m in env && CutAhead(env, env[m], n)
    ensures CutAhead(env, e, n)
  {
    var p :| LeadsToCut(env, env[m], p, n);
    assert ([m] + p)[1..] == p;
    assert LeadsToCut(env, e, [m] + p, n);
  }

  /** No call in the type leads to a program with a constant that does not fit. */
  ghost predicate CallsFit(env: Env, e: Elem, n: nat) {
    forall m :: Calls(e, m) && m in env ==> !CutAhead(env, env[m], n)
  }

  lemma NothingAhead(env: Env, e: Elem, n: nat)
    requires !CutAhead(env, e, n)
    ensures Fits(e, [], n) && CallsFit(env, e, n)
  {
    assert LeadsToCut(env, e, [], n) <==> !Fits(e, [], n);
    hide LeadsToCut, Calls;
    forall m | Calls(e, m) && m in env && CutAhead(env, env[m], n) ensures false { CallAhead(env, e, m, n); }
  }

  lemma {:induction false} FittingIsWhole(env: Env, e: Elem, f: bytes, v: GoVal, n: nat)
    requires HasType(env, e, v) && Fits(e, f, n) && CallsFit(env, e, n)
    ensures Whole(env, e, f, v, n)
    decreases v, if e.Ident? then 1 else 0, 1
  {
    hide CutAhead, AllWhole, EntriesWhole, FieldsWhole, StructHeader;
    match e
    case Base(_, _, _) =>
    case Ident(k) =>
      assert Calls(e, k);
      NothingAhead(env, env[k], n);
      FittingIsWhole(env, env[k], [], v, n);
    case Ptr(y) =>
      PartsFit(env, e, y, 0, n);
      if v.PtrTo? { FittingIsWhole(env, y, [], v.to, n); }
    case Slice(y) =>
      PartsFit(env, e, y, 0, n);
      AllFittingWhole(env, y, v.els, n);
    case Array(k, y) =>
      if k > 0 { PartsFit(env, e, y, 0, n); }
      AllFittingWhole(env, y, v.els, n);
    case Map(y) =>
      PartsFit(env, e, y, 0, n);
      EntriesFittingWhole(env, y, v.entries, n);
    case Struct(fs, tup) =>
      forall i | 0 <= i < |fs| ensures CallsFit(env, fs[i].elem, n) { PartsFit(env, e, fs[i].elem, i, n); }
      if fs != [] { FieldsFittingWhole(env, fs, v.fields, 0, f + StructHeader(|fs|, tup), tup, n); }
  }

  lemma PartsFit(env: Env, e: Elem, y: Elem, i: nat, n: nat)
    requires CallsFit(env, e, n)
    requires match e
      case Base(_, _, _) => false
      case Ident(_) => false
      case Ptr(z) => y == z
      case Slice(z) => y == z
      case Array(k, z) => k > 0 && y == z
      case Map(z) => y == z
      case Struct(fs, _) => i < |fs| && y == fs[i].elem
    ensures CallsFit(env, y, n)
  {
    hide CutAhead;
    assert forall m :: Calls(y, m) ==> Calls(e, m);
  }

  lemma {:induction false} AllFittingWhole(env: Env, y: Elem, vs: seq<GoVal>, n: nat)
    requires AllTyped(env, y, vs) && (vs != [] ==> Fits(y, [], n) && CallsFit(env, y, n))
    ensures AllWhole(env, y, vs, n)
    decreases vs, 2
  {
    hide HasType, Fits, CallsFit, Whole;
    if vs != [] {
      FittingIsWhole(env, y, [], vs[0], n);
      AllFittingWhole(env, y, vs[1..], n);
    }
  }

  lemma {:induction false} EntriesFittingWhole(env: Env, y: Elem, es: seq<GoEntry>, n: nat)
    requires EntriesTyped(env, y, es) && Fits(y, [], n) && CallsFit(env, y, n)
    ensures EntriesWhole(env, y, es, n)
    decreases es, 2
  {
    hide HasType, Fits, CallsFit, Whole;
    if es != [] {
      FittingIsWhole(env, y, [], es[0].val, n);
      EntriesFittingWhole(env, y, es[1..], n);
    }
  }

  lemma {:induction false} FieldsFittingWhole(env: Env, fs: seq<Field>, vs: seq<GoVal>, i: nat, f: bytes, tup: bool,
                                              n: nat)
    requires |fs| == |vs| && FieldsTyped(env, fs, vs) && FieldsFit(fs, i, f, tup, n)
    requires forall j :: 0 <= j < |fs| ==> CallsFit(env, fs[j].elem, n)
    ensures FieldsWhole(env, fs, vs, i, f, tup, n)
    decreases vs, 3, |vs| - i
  {
    hide HasType, Fits, CallsFit, Whole, FieldTag;
    if i < |vs| {
      FittingIsWhole(env, fs[i].elem, f + FieldTag(fs[i], tup), vs[i], n);
      FieldsFittingWhole(env, fs, vs, i + 1, [], tup, n);
    }
  }

  // ---- Types with a value that is cut --------------------------------------------------------------

  /** A value that runs into a constant that does not fit, in the type's own program or, with the
      value `w` of the type `m`, in a method that it calls. */
  lemma {:induction false} SomeCut(env: Env, e: Elem, f: bytes, m: string, w: GoVal, n: nat) returns (v: GoVal)
    requires Inhabited(env, e)
    requires !Fits(e, f, n) || (Calls(e, m) && m in env && HasType(env, env[m], w) && !Whole(env, env[m], [], w, n))
    ensures HasType(env, e, v) && !Whole(env, e, f, v, n)
    decreases e, 1
  {
    hide StructHeader, FieldsFit, FieldsWhole;
    match e
    case Base(_, _, _) => v := SomeValue(env, e);
    case Ident(k) => if |f| > n { v := SomeValue(env, e); } else { v := w; }
    case Ptr(y) =>
      if |f| > n {
        v := SomeValue(env, e);
      } else {
        v := SomeCut(env, y, [], m, w, n);
        v := PtrTo(v);
      }
    case Slice(y) =>
      if |f| > n {
        v := SomeValue(env, e);
      } else {
        v := SomeCut(env, y, [], m, w, n);
        v := Sl([v], []);
      }
    case Array(k, y) =>
      if |f| > n {
        v := SomeValue(env, e);
      } else {
        v := SomeCut(env, y, [], m, w, n);
        v := Arr(Copies(k, v));
      }
    case Map(y) =>
      if |f| > n {
        v := SomeValue(env, e);
      } else {
        v := SomeCut(env, y, [], m, w, n);
        v := Mp([GoEntry([], v)]);
      }
    case Struct(fs, tup) => v := SomeStructCut(env, fs, tup, f, m, w, n);
  }

  lemma SomeStructCut(env: Env, fs: seq<Field>, tup: bool, f: bytes, m: string, w: GoVal, n: nat) returns (v: GoVal)
    requires Inhabited(env, Struct(fs, tup))
    requires !Fits(Struct(fs, tup), f, n)
      || (Calls(Struct(fs, tup), m) && m in env && HasType(env, env[m], w) && !Whole(env, env[m], [], w, n))
    ensures HasType(env, Struct(fs, tup), v) && !Whole(env, Struct(fs, tup), f, v, n)
    decreases fs, 0
  {
    hide StructHeader, FieldsWhole;
    v := SomeValue(env, Struct(fs, tup));
    if fs != [] {
      var i: nat;
      if !Fits(Struct(fs, tup), f, n) {
        i := UnfitField(fs, 0, f + StructHeader(|fs|, tup), tup, n);
      } else {
        i :| i < |fs| && Calls(fs[i].elem, m);
      }
      var g := (if i == 0 then f + StructHeader(|fs|, tup) else []) + FieldTag(fs[i], tup);
      var u := SomeCut(env, fs[i].elem, g, m, w, n);
      FieldCut(env, fs, v.fields[i := u], 0, i, f + StructHeader(|fs|, tup), tup, n);
      v := Rec(v.fields[i := u]);
    }
  }

  lemma {:induction false} UnfitField(fs: seq<Field>, from: nat, f: bytes, tup: bool, n: nat) returns (i: nat)
    requires !FieldsFit(fs, from, f, tup, n)
    ensures from <= i < |fs| && !Fits(fs[i].elem, (if i == from then f else []) + FieldTag(fs[i], tup), n)
    decreases |fs| - from
  {
    hide Fits, FieldTag;
    if !Fits(fs[from].elem, f + FieldTag(fs[from], tup), n) {
      i := from;
    } else {
      i := UnfitField(fs, from + 1, [], tup, n);
    }
  }

  lemma {:induction false} FieldCut(env: Env, fs: seq<Field>, vs: seq<GoVal>, from: nat, i: nat, f: bytes, tup: bool,
                                    n: nat)
    requires from <= i < |fs| == |vs|
    requires !Whole(env, fs[i].elem, (if i == from then f else []) + FieldTag(fs[i], tup), vs[i], n)
    ensures !FieldsWhole(env, fs, vs, from, f, tup, n)
    decreases i - from
  {
    hide Whole, FieldTag;
    if from < i { FieldCut(env, fs, vs, from + 1, i, [], tup, n); }
  }

  lemma {:induction false} AheadIsCut(env: Env, e: Elem, p: seq<string>, n: nat) returns (v: GoVal)
    requires EnvInhabited(env) && Inhabited(env, e) && LeadsToCut(env, e, p, n)
    ensures HasType(env, e, v) && !Whole(env, e, [], v, n)
    decreases |p|
  {
    hide Inhabited, HasType, Whole, Fits;
    var w := Zero;
    if p != [] { w := AheadIsCut(env, env[p[0]], p[1..], n); }
    v := SomeCut(env, e, [], if p == [] then "" else p[0], w, n);
  }

  // ---- Exactly when -----------------------------------------------------------------------------------

  /** Extensions without data make a value calm and change nothing that is met on the way. */
  function Calmed(v: GoVal): GoVal
    decreases v, 1
  {
    match v
    case Scalar(x) => if x.Ext? then Scalar(V.Ext(x.typ, [])) else v
    case Dyn(_) => Dyn(V.Nil)
    case Raw(typ, _) => Raw(typ, [])
    case PtrTo(w) => PtrTo(Calmed(w))
    case Sl(els, spare) => Sl(CalmedAll(els), spare)
    case Arr(els) => Arr(CalmedAll(els))
    case Mp(es) => Mp(CalmedEntries(es))
    case Rec(fs) => Rec(CalmedAll(fs))
    case _ => v
  }

  function CalmedAll(vs: seq<GoVal>): (r: seq<GoVal>)
    ensures |r| == |vs| && forall i :: 0 <= i < |vs| ==> r[i] == Calmed(vs[i])
    decreases vs, 0
  {
    if vs == [] then [] else [Calmed(vs[0])] + CalmedAll(vs[1..])
  }

  function CalmedEntries(es: seq<GoEntry>): (r: seq<GoEntry>)
    ensures |r| == |es| && forall i :: 0 <= i < |es| ==> r[i] == GoEntry(es[i].key, Calmed(es[i].val))
    decreases es, 0
  {
    if es == [] then [] else [GoEntry(es[0].key, Calmed(es[0].val))] + CalmedEntries(es[1..])
  }

  lemma {:induction false} CalmedIsCalm(v: GoVal)
    ensures Calm(Calmed(v))
  {
    match v
    case PtrTo(w) => CalmedIsCalm(w);
    case Sl(els, _) => forall i | 0 <= i < |els| ensures Calm(CalmedAll(els)[i]) { CalmedIsCalm(els[i]); }
    case Arr(els) => forall i | 0 <= i < |els| ensures Calm(CalmedAll(els)[i]) { CalmedIsCalm(els[i]); }
    case Mp(es) => forall i | 0 <= i < |es| ensures Calm(CalmedEntries(es)[i].val) { CalmedIsCalm(es[i].val); }
    case Rec(fs) => forall i | 0 <= i < |fs| ensures Calm(CalmedAll(fs)[i]) { CalmedIsCalm(fs[i]); }
    case _ =>
  }

  lemma {:induction false} CalmedIsTyped(env: Env, e: Elem, v: GoVal)
    requires HasType(env, e, v)
    ensures HasType(env, e, Calmed(v))
    decreases v, if e.Ident? then 1 else 0
  {
    hide Calmed;
    match e
    case Base(_, _, _) => CalmedBase(env, e, v);
    case Ident(n) => CalmedIsTyped(env, env[n], v);
    case Ptr(y) =>
      CalmedParts(v);
      if v.PtrTo? { CalmedIsTyped(env, y, v.to); }
    case Slice(y) =>
      CalmedParts(v);
      forall i | 0 <= i < |v.els| ensures HasType(env, y, Calmed(v.els[i])) { CalmedIsTyped(env, y, v.els[i]); }
    case Array(_, y) =>
      CalmedParts(v);
      forall i | 0 <= i < |v.els| ensures HasType(env, y, Calmed(v.els[i])) { CalmedIsTyped(env, y, v.els[i]); }
    case Map(y) =>
      CalmedParts(v);
      forall i | 0 <= i < |v.entries| ensures HasType(env, y, Calmed(v.entries[i].val)) {
        CalmedIsTyped(env, y, v.entries[i].val);
      }
    case Struct(fs, _) =>
      CalmedParts(v);
      forall i | 0 <= i < |fs| ensures HasType(env, fs[i].elem, Calmed(v.fields[i])) {
        CalmedIsTyped(env, fs[i].elem, v.fields[i]);
      }
  }

  lemma CalmedBase(env: Env, e: Elem, v: GoVal)
    requires e.Base? && HasType(env, e, v)
    ensures HasType(env, e, Calmed(v))
  {
  }

  lemma CalmedParts(v: GoVal)
    ensures v.NilPtr? ==> Calmed(v) == v
    ensures v.PtrTo? ==> Calmed(v) == PtrTo(Calmed(v.to))
    ensures v.Sl? ==> Calmed(v) == Sl(CalmedAll(v.els), v.spare)
    ensures v.Arr? ==> Calmed(v) == Arr(CalmedAll(v.els))
    ensures v.Mp? ==> Calmed(v) == Mp(CalmedEntries(v.entries))
    ensures v.Rec? ==> Calmed(v) == Rec(CalmedAll(v.fields))
  {
  }

  lemma {:induction false} CalmedMeetsTheSame(env: Env, e: Elem, f: bytes, v: GoVal, n: nat)
    ensures Whole(env, e, f, Calmed(v), n) <==> Whole(env, e, f, v, n)
    decreases v, if e.Ident? then 1 else 0, 1
  {
    hide StructHeader, AllWhole, EntriesWhole, FieldsWhole, CalmedAll, CalmedEntries;
    match e
    case Base(_, _, _) =>
    case Ident(k) => if k in env && !env[k].Ident? { CalmedMeetsTheSame(env, env[k], [], v, n); }
    case Ptr(y) => if v.PtrTo? { CalmedMeetsTheSame(env, y, [], v.to, n); }
    case Slice(y) => if v.Sl? { CalmedAllMeet(env, y, v.els, n); }
    case Array(_, y) => if v.Arr? { CalmedAllMeet(env, y, v.els, n); }
    case Map(y) => if v.Mp? { CalmedEntriesMeet(env, y, v.entries, n); }
    case Struct(fs, tup) =>
      if v.Rec? && |v.fields| == |fs| { CalmedFieldsMeet(env, fs, v.fields, 0, f + StructHeader(|fs|, tup), tup, n); }
  }

  lemma {:induction false} CalmedAllMeet(env: Env, y: Elem, vs: seq<GoVal>, n: nat)
    ensures AllWhole(env, y, CalmedAll(vs), n) <==> AllWhole(env, y, vs, n)
    decreases vs, 2
  {
    hide Whole, Calmed;
    if vs != [] {
      CalmedMeetsTheSame(env, y, [], vs[0], n);
      CalmedAllMeet(env, y, vs[1..], n);
    }
  }

  lemma {:induction false} CalmedEntriesMeet(env: Env, y: Elem, es: seq<GoEntry>, n: nat)
    ensures EntriesWhole(env, y, CalmedEntries(es), n) <==> EntriesWhole(env, y, es, n)
    decreases es, 2
  {
    hide Whole, Calmed;
    if es != [] {
      CalmedMeetsTheSame(env, y, [], es[0].val, n);
      CalmedEntriesMeet(env, y, es[1..], n);
    }
  }

  lemma {:induction false} CalmedFieldsMeet(env: Env, fs: seq<Field>, vs: seq<GoVal>, i: nat, f: bytes, tup: bool,
                                            n: nat)
    requires |fs| == |vs|
    ensures FieldsWhole(env, fs, CalmedAll(vs), i, f, tup, n) <==> FieldsWhole(env, fs, vs, i, f, tup, n)
    decreases vs, 3, |vs| - i
  {
    hide Whole, Calmed, FieldTag;
    if i < |vs| {
      CalmedMeetsTheSame(env, fs[i].elem, f + FieldTag(fs[i], tup), vs[i], n);
      CalmedFieldsMeet(env, fs, vs, i + 1, [], tup, n);
    }
  }

  /** With a buffer of length `n`, `EncodeMsg` sends every value of the type whole if and only if
      every constant that the programs it reaches can append fits the buffer. */
  lemma AllWholeExactly(env: Env, e: Elem, n: nat)
    requires EnvInhabited(env) && Inhabited(env, e)
    ensures (forall v, fuel: nat :: HasType(env, e, v) && Enough(fuel, e, v) ==> SentWhole(env, e, v, fuel, n))
       <==> !CutAhead(env, e, n)
  {
    hide EnvInhabited, Inhabited, HasType, Whole, LeadsToCut, Enough, SentWhole;
    if CutAhead(env, e, n) {
      var p :| LeadsToCut(env, e, p, n);
      var v := AheadIsCut(env, e, p, n);
      CalmedIsTyped(env, e, v);
      CalmedIsCalm(v);
      CalmedMeetsTheSame(env, e, [], v, n);
      EnoughFuel(e, Calmed(v));
      SentIsJudged(env, e, Calmed(v), Depth(Calmed(v)), n);
    } else {
      NothingAhead(env, e, n);
      forall v, fuel: nat | HasType(env, e, v) && Enough(fuel, e, v) ensures SentWhole(env, e, v, fuel, n) {
        FittingIsWhole(env, e, [], v, n);
        SentIsJudged(env, e, v, fuel, n);
      }
    }
  }

  /** The sink gets the value's encoding. */
  ghost predicate SentWhole(env: Env, e: Elem, v: GoVal, fuel: nat, n: nat) {
    var c := Encoded(env, e, v, fuel, n);
    c.Some? && c.value.out == EncGo(env, e, v, V.Stream)
  }

  lemma EnoughFuel(e: Elem, v: GoVal)
    ensures Enough(Depth(v), e, v)
  {
  }

  lemma SentIsJudged(env: Env, e: Elem, v: GoVal, fuel: nat, n: nat)
    requires HasType(env, e, v) && Enough(fuel, e, v)
    ensures Whole(env, e, [], v, n) ==> SentWhole(env, e, v, fuel, n)
    ensures Calm(v) && SentWhole(env, e, v, fuel, n) ==> Whole(env, e, [], v, n)
  {
    hide HasType, Enough, Whole, Calm, Cut, EncGo;
    G.GetRoot(v);
    EmitJudged(env, e, [], v, v, [], fuel, n, n);
    EncodedExactly(env, e, v, fuel, n);
  }
}
