/** The variables of the printed loops (`rangeBlock` in gen/spec.go, the map loops of
    gen/marshal.go and gen/encode.go). Go rejects a loop whose variable its body never names,
    which is what is printed for elements without anything to encode. */
module LoopVariables {
  import opened Wire
  import opened TypeTree
  import G = MarshalGen
  import U = UnmarshalGen
  import V = Encoding

  // ---- On the type alone ------------------------------------------------------------------------

  /** Something in the type is printed with the variable's name: anything but structs of structs
      without fields. */
  ghost predicate HasLeaf(e: Elem)
    decreases e
  {
    e.Struct? ==> exists i :: 0 <= i < |e.fields| && HasLeaf(e.fields[i].elem)
  }

  /** No slice, no array and, with `maps`, no map in the tree has elements without a leaf. */
  ghost predicate LeavesInLoops(e: Elem, maps: bool)
    decreases e
  {
    match e
    case Base(_, _, _) => true
    case Ident(_) => true
    case Ptr(y) => LeavesInLoops(y, maps)
    case Slice(y) => HasLeaf(y) && LeavesInLoops(y, maps)
    case Array(_, y) => HasLeaf(y) && LeavesInLoops(y, maps)
    case Map(y) => (maps ==> HasLeaf(y)) && LeavesInLoops(y, maps)
    case Struct(fs, _) => forall i :: 0 <= i < |fs| ==> LeavesInLoops(fs[i].elem, maps)
  }

  // ---- Marshal and encode -----------------------------------------------------------------------

  /** Everything but constants is printed with the name of a variable. */
  predicate Names(s: G.Stmt) { !s.AppendRaw? && !s.AppendArrayConst? }

  ghost predicate Uses(ss: seq<G.Stmt>) {
    exists i :: 0 <= i < |ss| && Names(ss[i])
  }

  /** The body of every loop uses the loop's variable. */
  ghost predicate LoopsUse(ss: seq<G.Stmt>)
    decreases ss, 1
  {
    forall i :: 0 <= i < |ss| ==> LoopUses(ss[i])
  }

  ghost predicate LoopUses(s: G.Stmt)
    decreases s, 0
  {
    match s
    case Range(_, body) => Uses(body) && LoopsUse(body)
    case RangeMap(_, body) => Uses(body) && LoopsUse(body)
    case IfNil(_, body) => LoopsUse(body)
    case _ => true
  }

  /** Both properties of a statement list at once: `ss` names the block's variable exactly if
      `leaf`, and its loops use theirs exactly if `used`. */
  ghost predicate Prints(ss: seq<G.Stmt>, leaf: bool, used: bool) {
    (Uses(ss) <==> leaf) && (LoopsUse(ss) <==> used)
  }

  lemma PrintsConcat(a: seq<G.Stmt>, b: seq<G.Stmt>, aLeaf: bool, bLeaf: bool, aUsed: bool, bUsed: bool)
    requires Prints(a, aLeaf, aUsed) && Prints(b, bLeaf, bUsed)
    ensures Prints(a + b, aLeaf || bLeaf, aUsed && bUsed)
  {
    hide Names, LoopUses;
    assert forall i :: 0 <= i < |b| ==> (a + b)[|a| + i] == b[i];
    assert forall i :: 0 <= i < |a| ==> (a + b)[i] == a[i];
  }

  lemma PrintsOne(s: G.Stmt)
    ensures Prints([s], Names(s), LoopUses(s))
  {
    hide Names, LoopUses;
    assert [s][0] == s;
  }

  lemma PrintsNone()
    ensures Prints([], false, true)
  {
  }

  lemma HookPrints(f: bytes, s: G.Stmt)
    ensures Prints(G.Hook(f), false, true) && Prints(G.Hook(f) + [s], Names(s), LoopUses(s))
  {
    hide Prints, LoopUses;
    PrintsNone();
    PrintsOne(s);
    if f != [] { RawPrints(f); }
    PrintsConcat(G.Hook(f), [s], false, Names(s), true, LoopUses(s));
  }

  lemma RawPrints(raw: bytes)
    ensures Prints([G.AppendRaw(raw)], false, true)
  {
    PrintsOne(G.AppendRaw(raw));
  }

  lemma PendPrints(f: bytes, c: bytes, fusing: bool)
    ensures Prints(G.Pend(f, c, fusing).0, false, true)
  {
    hide Prints;
    if fusing { PrintsNone(); } else { HookPrints(f, G.AppendRaw(c)); }
  }

  lemma LoopPrints(f: bytes, head: G.Stmt, loop: G.Stmt)
    requires LoopUses(head) && Names(loop)
    ensures Prints(G.Hook(f) + [head, loop], true, LoopUses(loop))
  {
    hide Prints, LoopUses, G.Hook;
    HookPrints(f, head);
    PrintsOne(head);
    PrintsOne(loop);
    PrintsConcat([head], [loop], Names(head), true, true, LoopUses(loop));
    assert [head] + [loop] == [head, loop];
    PrintsConcat(G.Hook(f), [head, loop], false, true, true, LoopUses(loop));
  }

  /** Every loop of the emitted `MarshalMsg` (or `EncodeMsg`) of a type uses its variables if and
      only if no slice, array or map in the tree has elements without a leaf. */
  lemma {:induction false} LoopsUseExactly(e: Elem, x: Path, f: bytes, st: V.Style, fusing: bool)
    ensures Prints(G.Emit(e, x, f, st, fusing), HasLeaf(e), LeavesInLoops(e, true))
    decreases e, 1
  {
    hide G.Hook, G.Pend, G.EmitFields, Prints, Uses, LoopsUse;
    match e
    case Base(_, _, _) => HookPrints(f, G.AppendBase(x));
    case Ident(n) => HookPrints(f, G.Call(x, n));
    case Ptr(y) => BodyPrints(y, st, fusing); HookPrints(f, G.IfNil(x, G.Emit(y, [], [], st, fusing)));
    case Slice(y) =>
      BodyPrints(y, st, fusing);
      LoopPrints(f, G.AppendArrayLen(x), G.Range(x, G.Emit(y, [], [], st, fusing)));
    case Array(n, y) =>
      if IsByteArray(y, st) {
        HookPrints(f, G.AppendByteArray(x, y.convert));
      } else {
        BodyPrints(y, st, fusing);
        LoopPrints(f, G.AppendArrayConst(n), G.Range(x, G.Emit(y, [], [], st, fusing)));
      }
    case Map(y) =>
      BodyPrints(y, st, fusing);
      LoopPrints(f, G.AppendMapLen(x), G.RangeMap(x, G.Emit(y, [], [], st, fusing)));
    case Struct(fs, tup) =>
      var (pre, g) := G.Pend(f, StructHeader(|fs|, tup), fusing);
      PendPrints(f, StructHeader(|fs|, tup), fusing);
      if fs == [] {
        HookPrints(g, G.AppendRaw([]));
        PrintsConcat(pre, G.Hook(g), false, false, true, true);
      } else {
        var leaf, used := FieldsHaveLeaf(fs, 0), LeavesInFields(fs, 0, true);
        FieldsPrint(fs, 0, x, g, tup, st, fusing);
        PrintsConcat(pre, G.EmitFields(fs, 0, x, g, tup, st, fusing), false, leaf, true, used);
      }
  }

  /** The statements of a block name its variable exactly if there is a leaf. */
  lemma BodyPrints(y: Elem, st: V.Style, fusing: bool)
    ensures Uses(G.Emit(y, [], [], st, fusing)) <==> HasLeaf(y)
    ensures LoopsUse(G.Emit(y, [], [], st, fusing)) <==> LeavesInLoops(y, true)
    decreases y, 2
  {
    LoopsUseExactly(y, [], [], st, fusing);
  }

  ghost predicate FieldsHaveLeaf(fs: seq<Field>, i: nat) {
    exists j :: i <= j < |fs| && HasLeaf(fs[j].elem)
  }

  ghost predicate LeavesInFields(fs: seq<Field>, i: nat, maps: bool) {
    forall j :: i <= j < |fs| ==> LeavesInLoops(fs[j].elem, maps)
  }

  lemma FieldsNext(fs: seq<Field>, i: nat, maps: bool)
    requires i < |fs|
    ensures FieldsHaveLeaf(fs, i) <==> HasLeaf(fs[i].elem) || FieldsHaveLeaf(fs, i + 1)
    ensures LeavesInFields(fs, i, maps) <==> LeavesInLoops(fs[i].elem, maps) && LeavesInFields(fs, i + 1, maps)
  {
    hide HasLeaf, LeavesInLoops;
  }

  lemma {:induction false} FieldsPrint(fs: seq<Field>, i: nat, x: Path, f: bytes, tup: bool, st: V.Style, fusing: bool)
    ensures Prints(G.EmitFields(fs, i, x, f, tup, st, fusing), FieldsHaveLeaf(fs, i), LeavesInFields(fs, i, true))
    decreases fs, 0, |fs| - i
  {
    hide Prints, G.Emit, G.Pend, V.EncStr, HasLeaf, LeavesInLoops;
    PrintsNone();
    if i < |fs| {
      var (pre, g) := G.TagConstants(fs[i], f, tup, fusing);
      if !tup { PendPrints(f, V.EncStr(fs[i].tag), fusing); }
      var own := G.Emit(fs[i].elem, x + [Sel(i, |fs|)], g, st, fusing);
      var rest := G.EmitFields(fs, i + 1, x, [], tup, st, fusing);
      var leaf, used := HasLeaf(fs[i].elem), LeavesInLoops(fs[i].elem, true);
      LoopsUseExactly(fs[i].elem, x + [Sel(i, |fs|)], g, st, fusing);
      FieldsPrint(fs, i + 1, x, [], tup, st, fusing);
      PrintsConcat(pre, own, false, leaf, true, used);
      PrintsConcat(pre + own, rest, leaf, FieldsHaveLeaf(fs, i + 1), used, LeavesInFields(fs, i + 1, true));
      FieldsNext(fs, i, true);
    }
  }

  // ---- Unmarshal ----------------------------------------------------------------------------------

  /** Header reads into a local length name nothing else; a loop over field names names what its
      cases name. */
  ghost predicate NamesOp(op: U.Op)
    decreases op, 0
  {
    match op
    case TupleHeader(_) => false
    case ArrayHeader(_) => false
    case StructLoop(_, cases) => CaseUses(cases)
    case _ => true
  }

  ghost predicate CaseUses(cases: seq<U.Case>)
    decreases cases, 2
  {
    exists i :: 0 <= i < |cases| && UsesIn(cases[i].body)
  }

  ghost predicate UsesIn(ss: seq<U.Stmt>)
    decreases ss, 1
  {
    exists i :: 0 <= i < |ss| && NamesOp(ss[i].op)
  }

  /** The body of every loop over a slice or an array uses the loop's variable. The map loop
      declares its own variables and assigns them. */
  ghost predicate LoopsUseIn(ss: seq<U.Stmt>)
    decreases ss, 1
  {
    forall i :: 0 <= i < |ss| ==> LoopUsesOp(ss[i].op)
  }

  ghost predicate LoopUsesOp(op: U.Op)
    decreases op, 0
  {
    match op
    case RangeInto(body) => UsesIn(body) && LoopsUseIn(body)
    case MapLoop(body) => LoopsUseIn(body)
    case NilOr(body) => LoopsUseIn(body)
    case StructLoop(_, cases) => CasesLoopsUse(cases)
    case _ => true
  }

  ghost predicate CasesLoopsUse(cases: seq<U.Case>)
    decreases cases, 2
  {
    forall i :: 0 <= i < |cases| ==> LoopsUseIn(cases[i].body)
  }

  ghost predicate Reads(ss: seq<U.Stmt>, leaf: bool, used: bool) {
    (UsesIn(ss) <==> leaf) && (LoopsUseIn(ss) <==> used)
  }

  lemma ReadsConcat(a: seq<U.Stmt>, b: seq<U.Stmt>, aLeaf: bool, bLeaf: bool, aUsed: bool, bUsed: bool)
    requires Reads(a, aLeaf, aUsed) && Reads(b, bLeaf, bUsed)
    ensures Reads(a + b, aLeaf || bLeaf, aUsed && bUsed)
  {
    hide NamesOp, LoopUsesOp;
    assert forall i :: 0 <= i < |b| ==> (a + b)[|a| + i] == b[i];
    assert forall i :: 0 <= i < |a| ==> (a + b)[i] == a[i];
  }

  lemma ReadsOne(op: U.Op)
    ensures Reads([U.Stmt([], op)], NamesOp(op), LoopUsesOp(op))
  {
    hide NamesOp, LoopUsesOp;
    assert [U.Stmt([], op)][0].op == op;
  }

  lemma ReadsTwo(head: U.Op, loop: U.Op)
    requires LoopUsesOp(head) && NamesOp(loop)
    ensures Reads([U.Stmt([], head), U.Stmt([], loop)], true, LoopUsesOp(loop))
  {
    hide Reads, LoopUsesOp;
    ReadsOne(head);
    ReadsOne(loop);
    ReadsConcat([U.Stmt([], head)], [U.Stmt([], loop)], NamesOp(head), true, true, LoopUsesOp(loop));
    assert [U.Stmt([], head)] + [U.Stmt([], loop)] == [U.Stmt([], head), U.Stmt([], loop)];
  }

  lemma ReadsNone()
    ensures Reads([], false, true)
  {
  }

  lemma WithinReads(s: Sel, ss: seq<U.Stmt>, leaf: bool, used: bool)
    requires Reads(ss, leaf, used)
    ensures Reads(U.Within(s, ss), leaf, used)
  {
    hide NamesOp, LoopUsesOp;
    assert forall i :: 0 <= i < |ss| ==> U.Within(s, ss)[i].op == ss[i].op;
  }

  /** Every loop of the emitted `UnmarshalMsg` of a type uses its variable if and only if no
      slice or array in the tree has elements without a leaf. */
  lemma {:induction false} LoopsUseInExactly(e: Elem)
    ensures Reads(U.Emit(e), HasLeaf(e), LeavesInLoops(e, false))
    decreases e, 1
  {
    hide Reads, UsesIn, LoopsUseIn, U.EmitTuple, U.EmitCases;
    match e
    case Base(p, _, _) => ReadsOne(U.ReadBase(p));
    case Ident(n) => ReadsOne(U.CallUnmarshal(n));
    case Ptr(y) => BodyReads(y); ReadsOne(U.NilOr(U.Emit(y)));
    case Slice(y) => BodyReads(y); ReadsTwo(U.ResizeSlice, U.RangeInto(U.Emit(y)));
    case Array(n, y) =>
      if IsByteArray(y, V.Slice) {
        ReadsOne(U.ReadExactly(n, y.convert));
      } else {
        BodyReads(y);
        ReadsTwo(U.ArrayHeader(n), U.RangeInto(U.Emit(y)));
      }
    case Map(y) => BodyReads(y); ReadsOne(U.MapLoop(U.Emit(y)));
    case Struct(fs, tup) =>
      var leaf, used := FieldsHaveLeaf(fs, 0), LeavesInFields(fs, 0, false);
      if tup {
        TupleReads(fs, 0);
        ReadsOne(U.TupleHeader(|fs|));
        ReadsConcat([U.Stmt([], U.TupleHeader(|fs|))], U.EmitTuple(fs, 0), false, leaf, true, used);
      } else {
        CasesRead(fs, 0);
        ReadsOne(U.StructLoop(|fs|, U.EmitCases(fs, 0)));
      }
  }

  lemma BodyReads(y: Elem)
    ensures UsesIn(U.Emit(y)) <==> HasLeaf(y)
    ensures LoopsUseIn(U.Emit(y)) <==> LeavesInLoops(y, false)
    decreases y, 2
  {
    LoopsUseInExactly(y);
  }

  lemma {:induction false} TupleReads(fs: seq<Field>, i: nat)
    ensures Reads(U.EmitTuple(fs, i), FieldsHaveLeaf(fs, i), LeavesInFields(fs, i, false))
    decreases fs, 0, |fs| - i
  {
    hide Reads, U.Emit, U.Within, HasLeaf, LeavesInLoops;
    ReadsNone();
    if i < |fs| {
      var s, body := Sel(i, |fs|), U.Emit(fs[i].elem);
      var leaf, used := HasLeaf(fs[i].elem), LeavesInLoops(fs[i].elem, false);
      LoopsUseInExactly(fs[i].elem);
      WithinReads(s, body, leaf, used);
      TupleReads(fs, i + 1);
      ReadsConcat(U.Within(s, body), U.EmitTuple(fs, i + 1), leaf, FieldsHaveLeaf(fs, i + 1), used,
                  LeavesInFields(fs, i + 1, false));
      FieldsNext(fs, i, false);
    }
  }

  lemma {:induction false} CasesRead(fs: seq<Field>, i: nat)
    ensures CaseUses(U.EmitCases(fs, i)) <==> FieldsHaveLeaf(fs, i)
    ensures CasesLoopsUse(U.EmitCases(fs, i)) <==> LeavesInFields(fs, i, false)
    decreases fs, 0, |fs| - i
  {
    hide U.Emit, U.Within, HasLeaf, LeavesInLoops, UsesIn, LoopsUseIn;
    if i < |fs| {
      var cs := U.EmitCases(fs, i);
      CaseReads(fs[i].elem, Sel(i, |fs|));
      CasesRead(fs, i + 1);
      assert cs[0].body == U.Within(Sel(i, |fs|), U.Emit(fs[i].elem)) && cs[1..] == U.EmitCases(fs, i + 1);
      hide U.EmitCases;
      FirstCase(cs);
      FieldsNext(fs, i, false);
    }
  }

  lemma FirstCase(cs: seq<U.Case>)
    requires cs != []
    ensures CaseUses(cs) <==> UsesIn(cs[0].body) || CaseUses(cs[1..])
    ensures CasesLoopsUse(cs) <==> LoopsUseIn(cs[0].body) && CasesLoopsUse(cs[1..])
  {
    hide UsesIn, LoopsUseIn;
    assert forall j :: 0 <= j < |cs[1..]| ==> cs[1..][j] == cs[j + 1];
    assert forall j :: 0 < j < |cs| ==> cs[j] == cs[1..][j - 1];
  }

  lemma CaseReads(e: Elem, s: Sel)
    ensures UsesIn(U.Within(s, U.Emit(e))) <==> HasLeaf(e)
    ensures LoopsUseIn(U.Within(s, U.Emit(e))) <==> LeavesInLoops(e, false)
    decreases e, 2
  {
    LoopsUseInExactly(e);
    WithinReads(s, U.Emit(e), HasLeaf(e), LeavesInLoops(e, false));
  }

  // ---- The failing types ----------------------------------------------------------------------------

  /** A slice of empty structs is rejected in all three programs, a map of them in those that
      write. */
  lemma EmptyElements(st: V.Style)
    ensures !LoopsUse(G.Emit(Slice(Struct([], false)), [], [], st, true))
      && !LoopsUseIn(U.Emit(Slice(Struct([], false))))
    ensures !LoopsUse(G.Emit(Map(Struct([], false)), [], [], st, true)) && LoopsUseIn(U.Emit(Map(Struct([], false))))
  {
    hide G.Emit, U.Emit, LoopsUse, LoopsUseIn, Uses, UsesIn, HasLeaf, LeavesInLoops;
    NoLeaf();
    LoopsUseExactly(Slice(Struct([], false)), [], [], st, true);
    LoopsUseInExactly(Slice(Struct([], false)));
    LoopsUseExactly(Map(Struct([], false)), [], [], st, true);
    LoopsUseInExactly(Map(Struct([], false)));
  }

  lemma NoLeaf()
    ensures !LeavesInLoops(Slice(Struct([], false)), true) && !LeavesInLoops(Slice(Struct([], false)), false)
    ensures !LeavesInLoops(Map(Struct([], false)), true) && LeavesInLoops(Map(Struct([], false)), false)
  {
    assert !HasLeaf(Struct([], false));
  }
}
