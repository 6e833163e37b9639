/** Arrays of bytes (gen/marshal.go, gen/encode.go, gen/unmarshal.go) are handed to the library
    as byte slices. Go accepts that for `[N]byte`, but not for arrays of a named byte type. */
module ByteArrays {
  import opened Wire
  import opened TypeTree
  import opened Unfolding
  import G = MarshalGen
  import U = UnmarshalGen
  import V = Encoding

  // ---- Programs Go accepts ------------------------------------------------------------------

  /** Every byte slice the statements take is one of bytes. */
  ghost predicate Takes(ss: seq<G.Stmt>)
    decreases ss, 1
  {
    forall i :: 0 <= i < |ss| ==> TakesOne(ss[i])
  }

  ghost predicate TakesOne(s: G.Stmt)
    decreases s, 0
  {
    match s
    case AppendByteArray(_, named) => !named
    case Range(_, body) => Takes(body)
    case RangeMap(_, body) => Takes(body)
    case IfNil(_, body) => Takes(body)
    case _ => true
  }

  ghost predicate Reads(ss: seq<U.Stmt>)
    decreases ss, 1
  {
    forall i :: 0 <= i < |ss| ==> ReadsOne(ss[i].op)
  }

  ghost predicate ReadsOne(op: U.Op)
    decreases op, 0
  {
    match op
    case ReadExactly(_, named) => !named
    case RangeInto(body) => Reads(body)
    case MapLoop(body) => Reads(body)
    case NilOr(body) => Reads(body)
    case StructLoop(_, cases) => CasesRead(cases)
    case _ => true
  }

  ghost predicate CasesRead(cases: seq<U.Case>)
    decreases cases, 2
  {
    forall i :: 0 <= i < |cases| ==> Reads(cases[i].body)
  }

  lemma TakesConcat(a: seq<G.Stmt>, b: seq<G.Stmt>)
    ensures Takes(a + b) <==> Takes(a) && Takes(b)
  {
    hide TakesOne;
    assert forall i :: 0 <= i < |b| ==> (a + b)[|a| + i] == b[i];
    assert forall i :: 0 <= i < |a| ==> (a + b)[i] == a[i];
  }

  lemma HookTakes(f: bytes, s: G.Stmt)
    ensures Takes(G.Hook(f)) && (Takes(G.Hook(f) + [s]) <==> TakesOne(s))
  {
    TakesConcat(G.Hook(f), [s]);
    assert Takes([s]) <==> TakesOne([s][0]);
  }

  /** The emitted marshal program of a type is Go if and only if no array in its tree holds a
      named byte type (or, for the streaming generator, a named `uint8` type). */
  lemma {:induction false} TakesExactly(e: Elem, x: Path, f: bytes, st: V.Style, fusing: bool)
    ensures Takes(G.Emit(e, x, f, st, fusing)) <==> PlainBytes(e, st)
    decreases e, 1
  {
    hide G.Hook, Takes, G.EmitFields;
    match e
    case Base(_, _, _) => HookTakes(f, G.AppendBase(x));
    case Ident(n) => HookTakes(f, G.Call(x, n));
    case Ptr(y) =>
      TakesExactly(y, [], [], st, fusing);
      HookTakes(f, G.IfNil(x, G.Emit(y, [], [], st, fusing)));
    case Slice(y) =>
      TakesExactly(y, [], [], st, fusing);
      LoopTakes(f, G.AppendArrayLen(x), G.Range(x, G.Emit(y, [], [], st, fusing)));
    case Array(n, y) =>
      TakesExactly(y, [], [], st, fusing);
      if IsByteArray(y, st) {
        HookTakes(f, G.AppendByteArray(x, y.convert));
      } else {
        LoopTakes(f, G.AppendArrayConst(n), G.Range(x, G.Emit(y, [], [], st, fusing)));
      }
    case Map(y) =>
      TakesExactly(y, [], [], st, fusing);
      LoopTakes(f, G.AppendMapLen(x), G.RangeMap(x, G.Emit(y, [], [], st, fusing)));
    case Struct(fs, tup) =>
      var (pre, g) := G.Pend(f, StructHeader(|fs|, tup), fusing);
      PendTakes(f, StructHeader(|fs|, tup), fusing);
      hide G.Pend;
      if fs == [] {
        TakesConcat(pre, G.Hook(g));
        HookTakes(g, G.AppendRaw([]));
      } else {
        FieldsTakeExactly(fs, 0, x, g, tup, st, fusing);
        TakesConcat(pre, G.EmitFields(fs, 0, x, g, tup, st, fusing));
      }
  }

  lemma LoopTakes(f: bytes, head: G.Stmt, loop: G.Stmt)
    requires TakesOne(head)
    ensures Takes(G.Hook(f) + [head, loop]) <==> TakesOne(loop)
  {
    hide TakesOne, G.Hook;
    HookTakes(f, head);
    TakesConcat(G.Hook(f), [head, loop]);
    assert Takes([head, loop]) <==> TakesOne([head, loop][0]) && TakesOne([head, loop][1]);
  }

  lemma PendTakes(f: bytes, c: bytes, fusing: bool)
    ensures Takes(G.Pend(f, c, fusing).0)
  {
    HookTakes(f, G.AppendRaw(c));
  }

  lemma {:induction false} FieldsTakeExactly(fs: seq<Field>, i: nat, x: Path, f: bytes, tup: bool, st: V.Style,
                                             fusing: bool)
    ensures Takes(G.EmitFields(fs, i, x, f, tup, st, fusing))
      <==> forall j :: i <= j < |fs| ==> PlainBytes(fs[j].elem, st)
    decreases fs, 0, |fs| - i
  {
    hide Takes, G.Emit, PlainBytes, G.Pend, V.EncStr;
    if i >= |fs| {
      NoneTake();
    } else {
      var (pre, g) := G.TagConstants(fs[i], f, tup, fusing);
      NoneTake();
      if !tup { PendTakes(f, V.EncStr(fs[i].tag), fusing); }
      var own := G.Emit(fs[i].elem, x + [Sel(i, |fs|)], g, st, fusing);
      var rest := G.EmitFields(fs, i + 1, x, [], tup, st, fusing);
      TakesExactly(fs[i].elem, x + [Sel(i, |fs|)], g, st, fusing);
      FieldsTakeExactly(fs, i + 1, x, [], tup, st, fusing);
      TakesConcat(pre, own);
      TakesConcat(pre + own, rest);
    }
  }

  lemma NoneTake()
    ensures Takes([])
  {
  }

  /** The same for the emitted unmarshal program. */
  lemma {:induction false} ReadsExactly(e: Elem)
    ensures Reads(U.Emit(e)) <==> PlainBytes(e, V.Slice)
    decreases e, 1
  {
    hide Reads, CasesRead, U.EmitTuple, U.EmitCases;
    match e
    case Base(p, _, _) => OneReads(U.ReadBase(p));
    case Ident(n) => OneReads(U.CallUnmarshal(n));
    case Ptr(y) =>
      ReadsExactly(y);
      OneReads(U.NilOr(U.Emit(y)));
    case Slice(y) =>
      ReadsExactly(y);
      TwoRead(U.ResizeSlice, U.RangeInto(U.Emit(y)));
    case Array(n, y) =>
      ReadsExactly(y);
      if IsByteArray(y, V.Slice) {
        OneReads(U.ReadExactly(n, y.convert));
      } else {
        TwoRead(U.ArrayHeader(n), U.RangeInto(U.Emit(y)));
      }
    case Map(y) =>
      ReadsExactly(y);
      OneReads(U.MapLoop(U.Emit(y)));
    case Struct(fs, tup) =>
      if tup {
        TupleReadsExactly(fs, 0);
        OneReads(U.TupleHeader(|fs|));
        ReadsConcat([U.Stmt([], U.TupleHeader(|fs|))], U.EmitTuple(fs, 0));
      } else {
        CasesReadExactly(fs, 0);
        OneReads(U.StructLoop(|fs|, U.EmitCases(fs, 0)));
      }
  }

  lemma OneReads(op: U.Op)
    ensures Reads([U.Stmt([], op)]) <==> ReadsOne(op)
  {
    hide ReadsOne;
    assert Reads([U.Stmt([], op)]) <==> ReadsOne([U.Stmt([], op)][0].op);
  }

  lemma TwoRead(op: U.Op, op': U.Op)
    ensures Reads([U.Stmt([], op), U.Stmt([], op')]) <==> ReadsOne(op) && ReadsOne(op')
  {
    hide ReadsOne;
    var ss := [U.Stmt([], op), U.Stmt([], op')];
    assert Reads(ss) <==> ReadsOne(ss[0].op) && ReadsOne(ss[1].op);
  }

  lemma ReadsConcat(a: seq<U.Stmt>, b: seq<U.Stmt>)
    ensures Reads(a + b) <==> Reads(a) && Reads(b)
  {
    hide ReadsOne;
    assert forall i :: 0 <= i < |b| ==> (a + b)[|a| + i] == b[i];
    assert forall i :: 0 <= i < |a| ==> (a + b)[i] == a[i];
  }

  lemma WithinReads(s: Sel, ss: seq<U.Stmt>)
    ensures Reads(U.Within(s, ss)) <==> Reads(ss)
  {
    hide ReadsOne;
    assert forall i :: 0 <= i < |ss| ==> U.Within(s, ss)[i].op == ss[i].op;
  }

  lemma {:induction false} TupleReadsExactly(fs: seq<Field>, i: nat)
    ensures Reads(U.EmitTuple(fs, i)) <==> forall j :: i <= j < |fs| ==> PlainBytes(fs[j].elem, V.Slice)
    decreases fs, 0, |fs| - i
  {
    hide Reads, U.Emit, U.Within, PlainBytes;
    if i >= |fs| {
      NoneRead();
    } else {
      var s, body := Sel(i, |fs|), U.Emit(fs[i].elem);
      ReadsExactly(fs[i].elem);
      WithinReads(s, body);
      TupleReadsExactly(fs, i + 1);
      ReadsConcat(U.Within(s, body), U.EmitTuple(fs, i + 1));
    }
  }

  lemma NoneRead()
    ensures Reads([])
  {
  }

  lemma {:induction false} CasesReadExactly(fs: seq<Field>, i: nat)
    ensures CasesRead(U.EmitCases(fs, i)) <==> forall j :: i <= j < |fs| ==> PlainBytes(fs[j].elem, V.Slice)
    decreases fs, 0, |fs| - i
  {
    hide Reads, U.Emit, U.Within, PlainBytes;
    if i < |fs| {
      var s, body := Sel(i, |fs|), U.Emit(fs[i].elem);
      var cs := U.EmitCases(fs, i);
      ReadsExactly(fs[i].elem);
      WithinReads(s, body);
      CasesReadExactly(fs, i + 1);
      assert cs[0].body == U.Within(s, body) && cs[1..] == U.EmitCases(fs, i + 1);
      assert forall j :: 0 < j < |cs| ==> cs[j] == cs[1..][j - 1];
      assert forall j :: 0 <= j < |cs| - 1 ==> cs[1..][j] == cs[j + 1];
    }
  }

  // ---- The failing type -----------------------------------------------------------------------

  /** `type B byte` and `type T struct{A [4]B}`. */
  function NamedBytes(): Env {
    map["B" := Base(PByte, true, false), "T" := Struct([Field([0x41], Array(4, Ident("B")))], false)]
  }

  /** Before inlining the program of `T` is Go; whatever the inliner leaves of it is not. */
  lemma InliningNamedBytes(env: Env)
    requires EnvUnfolds(NamedBytes(), env) && AllSettled(env)
    ensures Takes(G.Emit(NamedBytes()["T"], [], [], V.Slice, true)) && !Takes(G.Emit(env["T"], [], [], V.Slice, true))
    ensures Reads(U.Emit(NamedBytes()["T"])) && !Reads(U.Emit(env["T"]))
  {
    hide Takes, Reads, G.Emit, U.Emit, Settled;
    var base := NamedBytes();
    var field := base["T"].fields[0].elem;
    assert PlainBytes(field, V.Slice) && field == Array(4, Ident("B"));
    assert Unfolds(base, base["T"], env["T"]);
    var f := env["T"].fields[0].elem;
    assert Unfolds(base, field, f);
    SettledField(env, env["T"]);
    NamedBaseInlined(base, env, "B", f.els);
    assert !PlainBytes(f, V.Slice);
    TakesExactly(base["T"], [], [], V.Slice, true);
    TakesExactly(env["T"], [], [], V.Slice, true);
    ReadsExactly(base["T"]);
    ReadsExactly(env["T"]);
  }

  lemma SettledField(env: Env, e: Elem)
    requires Settled(env, e) && e.Struct? && e.fields != [] && e.fields[0].elem.Array?
    ensures Settled(env, e.fields[0].elem.els)
  {
    assert Settled(env, e.fields[0].elem);
  }
}
