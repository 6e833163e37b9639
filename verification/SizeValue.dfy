/** What the emitted `Msgsize` (gen/size.go) returns: for every type tree, the size of the
    value node by node, whatever state the emitter is in when it reaches the node. */
module SizeValue {
  import opened Wire
  import opened TypeTree
  import opened SizeGen
  import G = MarshalGen
  import V = Encoding

  // ---- One emission step -------------------------------------------------------------------

  /** A summand adds its value in each of the three states: as the first assignment, as a
      statement of its own, and at the end of the open sum. */
  lemma TermAdds(ps: Progs, m: Emitter, t: Term, top: bool, key: bytes, v: GoVal, s: int, fuel: nat)
    requires WellPlaced(m, top) && (m.mode == Assign ==> s == 0)
    ensures Exec(ps, AddTerm(m, t).out, key, v, s, fuel) == Exec(ps, m.out, key, v, s, fuel) + Eval(ps, t, key, v, fuel)
  {
    hide Exec, Eval, NoSet;
    if m.mode == Extend {
      var k := |m.out| - 1;
      assert m.out == m.out[..k] + [m.out[k]];
      OpenSumAdds(ps, m.out[..k], m.out[k], t, key, v, s, fuel);
    } else {
      ExecNone(ps, key, v, s, fuel);
      SumOne(ps, t, key, v, fuel);
      BlockAdds(ps, m, if m.mode == Assign then Set([t]) else Add([t]), key, v, s, fuel);
    }
  }

  lemma OpenSumAdds(ps: Progs, init: seq<Stmt>, last: Stmt, t: Term, key: bytes, v: GoVal, s: int, fuel: nat)
    requires last.Set? || last.Add?
    ensures Exec(ps, init + [last.(terms := last.terms + [t])], key, v, s, fuel)
         == Exec(ps, init + [last], key, v, s, fuel) + Eval(ps, t, key, v, fuel)
  {
    hide Exec, Eval;
    BlockAdds(ps, Emitter(init, AddTo), last, key, v, s, fuel);
    BlockAdds(ps, Emitter(init, AddTo), last.(terms := last.terms + [t]), key, v, s, fuel);
    assert (last.terms + [t])[..|last.terms|] == last.terms;
  }

  lemma ExecNone(ps: Progs, key: bytes, v: GoVal, s: int, fuel: nat)
    ensures Exec(ps, [], key, v, s, fuel) == s
  {
  }

  lemma SumOne(ps: Progs, t: Term, key: bytes, v: GoVal, fuel: nat)
    ensures Sum(ps, [t], key, v, fuel) == Eval(ps, t, key, v, fuel)
  {
    assert [t][..0] == [];
    assert Sum(ps, [t][..0], key, v, fuel) == 0;
  }

  lemma BlockAdds(ps: Progs, m: Emitter, st: Stmt, key: bytes, v: GoVal, s: int, fuel: nat)
    ensures Exec(ps, m.out + [st], key, v, s, fuel) == ExecOne(ps, st, key, v, Exec(ps, m.out, key, v, s, fuel), fuel)
  {
    hide ExecOne;
    assert (m.out + [st])[..|m.out|] == m.out;
  }

  // ---- Every node --------------------------------------------------------------------------

  /** The emitter where a variable `x` holding `w` is about to be added. */
  ghost predicate Ready(env: Env, e: Elem, x: Path, m: Emitter, top: bool, v: GoVal, w: GoVal, s: int, fuel: nat) {
    && WellPlaced(m, top) && (m.mode == Assign ==> s == 0)
    && G.Get(v, x) == Some(w) && HasType(env, e, w) && Enough(fuel, e, w)
  }

  /** The value of what is emitted for `e`, on top of the value of what was there. */
  ghost predicate Adds(env: Env, e: Elem, x: Path, m: Emitter, key: bytes, v: GoVal, w: GoVal, s: int, fuel: nat) {
    Exec(Programs(env), Emit(e, x, m).out, key, v, s, fuel)
    == Exec(Programs(env), m.out, key, v, s, fuel) + SizeOf(env, e, w)
  }

  lemma {:induction false} EmitAdds(env: Env, e: Elem, x: Path, m: Emitter, top: bool, key: bytes, v: GoVal, w: GoVal,
                                    s: int, fuel: nat)
    requires Ready(env, e, x, m, top, v, w, s, fuel)
    ensures Adds(env, e, x, m, key, v, w, s, fuel)
    decreases w, if e.Ident? then 1 else 0, 1
  {
    hide Adds, Ready;
    match e
    case Base(_, _, _) => BaseAdds(env, e, x, m, top, key, v, w, s, fuel);
    case Ident(n) => IdentAdds(env, e, x, m, top, key, v, w, s, fuel);
    case Ptr(y) => PtrAdds(env, e, x, m, top, key, v, w, s, fuel);
    case Slice(y) => SliceAdds(env, e, x, m, top, key, v, w, s, fuel);
    case Array(n, y) => ArrayAdds(env, e, x, m, top, key, v, w, s, fuel);
    case Map(y) => MapAdds(env, e, x, m, top, key, v, w, s, fuel);
    case Struct(fs, tup) => StructAdds(env, e, x, m, top, key, v, w, s, fuel);
  }

  lemma BaseAdds(env: Env, e: Elem, x: Path, m: Emitter, top: bool, key: bytes, v: GoVal, w: GoVal, s: int, fuel: nat)
    requires e.Base? && Ready(env, e, x, m, top, v, w, s, fuel)
    ensures Adds(env, e, x, m, key, v, w, s, fuel)
    decreases w, if e.Ident? then 1 else 0, 0
  {
    hide Exec, AddTerm, WellPlaced, Programs, GuessSize;
    TermAdds(Programs(env), m, BaseTerm(e.prim, x), top, key, v, s, fuel);
  }

  lemma IdentAdds(env: Env, e: Elem, x: Path, m: Emitter, top: bool, key: bytes, v: GoVal, w: GoVal, s: int, fuel: nat)
    requires e.Ident? && Ready(env, e, x, m, top, v, w, s, fuel)
    ensures Adds(env, e, x, m, key, v, w, s, fuel)
    decreases w, if e.Ident? then 1 else 0, 0
  {
    hide AddTerm, WellPlaced;
    var start := Emitter([], Assign);
    TermAdds(Programs(env), m, SizeCall(x, e.name), top, key, v, s, fuel);
    StartsPlaced();
    assert Ready(env, env[e.name], [], start, true, w, w, 0, fuel - 1);
    EmitAdds(env, env[e.name], [], start, true, [], w, w, 0, fuel - 1);
    hide Emit, FixedExpr;
    assert Exec(Programs(env), start.out, [], w, 0, fuel - 1) == 0;
  }

  lemma StartsPlaced()
    ensures WellPlaced(Emitter([], Assign), true) && WellPlaced(Emitter([], AddTo), false)
    ensures WellPlaced(Emitter([Add([KeyLen])], Extend), false)
  {
  }

  lemma PtrAdds(env: Env, e: Elem, x: Path, m: Emitter, top: bool, key: bytes, v: GoVal, w: GoVal, s: int, fuel: nat)
    requires e.Ptr? && Ready(env, e, x, m, top, v, w, s, fuel)
    ensures Adds(env, e, x, m, key, v, w, s, fuel)
    decreases w, if e.Ident? then 1 else 0, 0
  {
    hide Exec, WellPlaced, Programs;
    var body := Emit(e.to, [], Emitter([], AddTo)).out;
    BlockAdds(Programs(env), m, IfNil(x, body), key, v, s, fuel);
    if w.PtrTo? {
      BodyAdds(env, e.to, [], w.to, Exec(Programs(env), m.out, key, v, s, fuel), fuel);
    }
  }

  /** The body of a block, which starts with `s +=`. */
  lemma BodyAdds(env: Env, y: Elem, key: bytes, w: GoVal, s: int, fuel: nat)
    requires HasType(env, y, w) && Enough(fuel, y, w)
    ensures Exec(Programs(env), Emit(y, [], Emitter([], AddTo)).out, key, w, s, fuel) == s + SizeOf(env, y, w)
    decreases w, 2
  {
    hide Exec, Emit, WellPlaced, HasType, Enough, SizeOf, Programs, G.Get;
    StartsPlaced();
    G.GetRoot(w);
    EmitAdds(env, y, [], Emitter([], AddTo), false, key, w, w, s, fuel);
    ExecNone(Programs(env), key, w, s, fuel);
  }

  lemma SliceAdds(env: Env, e: Elem, x: Path, m: Emitter, top: bool, key: bytes, v: GoVal, w: GoVal, s: int, fuel: nat)
    requires e.Slice? && Ready(env, e, x, m, top, v, w, s, fuel)
    ensures Adds(env, e, x, m, key, v, w, s, fuel)
    decreases w, if e.Ident? then 1 else 0, 0
  {
    hide Exec, AddTerm, WellPlaced, Programs, FixedExpr;
    var ps, m1, f := Programs(env), AddTerm(m, Const(5)), FixedExpr(e.els);
    TermAdds(ps, m, Const(5), top, key, v, s, fuel);
    if f.Expr? {
      TermStays(m, Const(5), top);
      TermAdds(ps, m1, Times(x, f.size, f.IsGo()), top, key, v, s, fuel);
    } else {
      var body := Emit(e.els, [], Emitter([], AddTo)).out;
      BlockAdds(ps, m1, Range(x, body), key, v, s, fuel);
      RangeAdds(env, e.els, w.els, Exec(ps, m1.out, key, v, s, fuel), fuel);
    }
  }

  lemma ArrayAdds(env: Env, e: Elem, x: Path, m: Emitter, top: bool, key: bytes, v: GoVal, w: GoVal, s: int, fuel: nat)
    requires e.Array? && Ready(env, e, x, m, top, v, w, s, fuel)
    ensures Adds(env, e, x, m, key, v, w, s, fuel)
    decreases w, if e.Ident? then 1 else 0, 0
  {
    hide Exec, AddTerm, WellPlaced, Programs, FixedExpr;
    var ps, m1, f := Programs(env), AddTerm(m, Const(5)), FixedExpr(e);
    TermAdds(ps, m, Const(5), top, key, v, s, fuel);
    if f.Expr? {
      TermStays(m, Const(5), top);
      TermAdds(ps, m1, Fixed(f.size, f.IsGo()), top, key, v, s, fuel);
    } else {
      var body := Emit(e.els, [], Emitter([], AddTo)).out;
      BlockAdds(ps, m1, Range(x, body), key, v, s, fuel);
      RangeAdds(env, e.els, w.els, Exec(ps, m1.out, key, v, s, fuel), fuel);
    }
  }

  lemma {:induction false} RangeAdds(env: Env, y: Elem, ws: seq<GoVal>, s: int, fuel: nat)
    requires AllTyped(env, y, ws) && fuel >= MaxDepth(ws)
    ensures ExecRange(Programs(env), Emit(y, [], Emitter([], AddTo)).out, ws, s, fuel) == s + SizeAll(env, y, ws)
    decreases ws, 2
  {
    hide Exec, Emit, HasType, Depth, SizeOf, Programs;
    if ws != [] {
      BodyAdds(env, y, [], ws[0], s, fuel);
      RangeAdds(env, y, ws[1..], s + SizeOf(env, y, ws[0]), fuel);
    }
  }

  lemma MapAdds(env: Env, e: Elem, x: Path, m: Emitter, top: bool, key: bytes, v: GoVal, w: GoVal, s: int, fuel: nat)
    requires e.Map? && Ready(env, e, x, m, top, v, w, s, fuel)
    ensures Adds(env, e, x, m, key, v, w, s, fuel)
    decreases w, if e.Ident? then 1 else 0, 0
  {
    hide Exec, AddTerm, WellPlaced, Programs;
    var ps, m1 := Programs(env), AddTerm(m, Const(5));
    TermAdds(ps, m, Const(5), top, key, v, s, fuel);
    var body := Emit(e.value, [], Emitter([Add([KeyLen])], Extend)).out;
    BlockAdds(ps, m1, RangeMap(x, body), key, v, s, fuel);
    EntriesAdd(env, e.value, w.entries, Exec(ps, m1.out, key, v, s, fuel), fuel);
  }

  /** The body of a map loop, which starts in the middle of `s += len(key) ...`. */
  lemma EntryAdds(env: Env, y: Elem, key: bytes, w: GoVal, s: int, fuel: nat)
    requires HasType(env, y, w) && Enough(fuel, y, w)
    ensures Exec(Programs(env), Emit(y, [], Emitter([Add([KeyLen])], Extend)).out, key, w, s, fuel)
         == s + 5 + |key| + SizeOf(env, y, w)
    decreases w, 2
  {
    hide Exec, Emit, WellPlaced, HasType, Enough, SizeOf, Programs, G.Get;
    StartsPlaced();
    G.GetRoot(w);
    EmitAdds(env, y, [], Emitter([Add([KeyLen])], Extend), false, key, w, w, s, fuel);
    KeyAdds(Programs(env), key, w, s, fuel);
  }

  lemma KeyAdds(ps: Progs, key: bytes, w: GoVal, s: int, fuel: nat)
    ensures Exec(ps, [Add([KeyLen])], key, w, s, fuel) == s + 5 + |key|
  {
    SumOne(ps, KeyLen, key, w, fuel);
    assert [Add([KeyLen])][..0] == [];
    assert Exec(ps, [Add([KeyLen])][..0], key, w, s, fuel) == s;
  }

  lemma {:induction false} EntriesAdd(env: Env, y: Elem, es: seq<GoEntry>, s: int, fuel: nat)
    requires EntriesTyped(env, y, es) && fuel >= EntriesDepth(es)
    ensures ExecEntries(Programs(env), Emit(y, [], Emitter([Add([KeyLen])], Extend)).out, es, s, fuel)
         == s + SizeEntries(env, y, es)
    decreases es, 2
  {
    hide Exec, Emit, HasType, Depth, SizeOf, Programs;
    if es != [] {
      EntryAdds(env, y, es[0].key, es[0].val, s, fuel);
      EntriesAdd(env, y, es[1..], s + 5 + |es[0].key| + SizeOf(env, y, es[0].val), fuel);
    }
  }

  lemma StructAdds(env: Env, e: Elem, x: Path, m: Emitter, top: bool, key: bytes, v: GoVal, w: GoVal, s: int, fuel: nat)
    requires e.Struct? && Ready(env, e, x, m, top, v, w, s, fuel)
    ensures Adds(env, e, x, m, key, v, w, s, fuel)
    decreases w, if e.Ident? then 1 else 0, 0
  {
    hide Exec, AddTerm, WellPlaced, Programs, StructHeader;
    var hdr := Const(|StructHeader(|e.fields|, e.asTuple)|);
    TermAdds(Programs(env), m, hdr, top, key, v, s, fuel);
    TermStays(m, hdr, top);
    FieldsAdd(env, e.fields, 0, x, e.asTuple, AddTerm(m, hdr), top, key, v, w, s, fuel);
  }

  lemma {:induction false} FieldsAdd(env: Env, fs: seq<Field>, i: nat, x: Path, tup: bool, m: Emitter, top: bool,
                                     key: bytes, v: GoVal, w: GoVal, s: int, fuel: nat)
    requires WellPlaced(m, top) && m.mode != Assign
    requires G.Get(v, x) == Some(w) && w.Rec? && |w.fields| == |fs| && FieldsTyped(env, fs, w.fields)
    requires fuel >= MaxDepth(w.fields)
    ensures Exec(Programs(env), EmitFields(fs, i, x, tup, m).out, key, v, s, fuel)
         == Exec(Programs(env), m.out, key, v, s, fuel) + SizeFields(env, fs, w.fields, i, tup)
    decreases w.fields, 2, |fs| - i
  {
    hide Emit, V.EncStr, WellPlaced, AddTerm, Exec, HasType, Depth, SizeOf, Programs, G.Get;
    if i < |fs| {
      var sel, tag := Sel(i, |fs|), Const(|V.EncStr(fs[i].tag)|);
      var m1 := if tup then m else AddTerm(m, tag);
      if !tup {
        TermStays(m, tag, top);
        TermAdds(Programs(env), m, tag, top, key, v, s, fuel);
      }
      G.GetField(v, x, sel, w);
      StaysWellPlaced(fs[i].elem, x + [sel], m1, top);
      EmitAdds(env, fs[i].elem, x + [sel], m1, top, key, v, w.fields[i], s, fuel);
      FieldsAdd(env, fs, i + 1, x, tup, Emit(fs[i].elem, x + [sel], m1), top, key, v, w, s, fuel);
    }
  }

  /** The emitted `Msgsize` returns the size of the value, for every type tree. */
  lemma MsgsizeIsSizeOf(env: Env, e: Elem, v: GoVal, fuel: nat)
    requires HasType(env, e, v) && Enough(fuel, e, v)
    ensures Exec(Programs(env), Program(e), [], v, 0, fuel) == SizeOf(env, e, v)
  {
    hide HasType, Enough, SizeOf, Emit, WellPlaced;
    StartsPlaced();
    EmitAdds(env, e, [], Emitter([], Assign), true, [], v, v, 0, fuel);
  }
}
