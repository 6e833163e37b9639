/** When the text of an emitted `Msgsize` (gen/size.go) is Go. */
module SizeText {
  import opened TypeTree
  import opened SizeGen
  import V = Encoding

  // ---- When a fixed-size expression is Go at all ----------------------------------------------

  /** An empty struct, or a struct whose last field ends in one. */
  ghost predicate EmptyTail(e: Elem)
    decreases e
  {
    e.Struct? && (e.fields == [] || EmptyTail(e.fields[|e.fields| - 1].elem))
  }

  /** No array in the type has elements that end in an empty struct. */
  ghost predicate SolidElements(e: Elem)
    decreases e
  {
    match e
    case Array(_, y) => !EmptyTail(y) && SolidElements(y)
    case Struct(fs, _) => forall i :: 0 <= i < |fs| ==> SolidElements(fs[i].elem)
    case _ => true
  }

  /** The text of a fixed-size expression ends in a stray `+` exactly for empty tails, and has
      one before a closing parenthesis exactly when an array's elements end so. */
  lemma {:induction false} StrayPlus(e: Elem)
    requires FixedExpr(e).Expr?
    ensures FixedExpr(e).dangling <==> EmptyTail(e)
    ensures FixedExpr(e).broken <==> !SolidElements(e)
    decreases e, 1
  {
    hide FixedFields;
    match e
    case Base(_, _, _) =>
    case Array(_, y) => StrayPlus(y);
    case Struct(fs, _) => FieldsStrayPlus(fs);
    case _ =>
  }

  lemma {:induction false} FieldsStrayPlus(fs: seq<Field>)
    requires FixedFields(fs).Expr?
    ensures FixedFields(fs).dangling <==> fs == [] || EmptyTail(fs[|fs| - 1].elem)
    ensures FixedFields(fs).broken <==> !forall i :: 0 <= i < |fs| ==> SolidElements(fs[i].elem)
    decreases fs, 0
  {
    hide FixedExpr, EmptyTail, SolidElements;
    if fs != [] {
      StrayPlus(fs[0].elem);
      FieldsStrayPlus(fs[1..]);
      assert forall i :: 0 < i < |fs| ==> fs[i] == fs[1..][i - 1];
    }
  }

  // ---- Programs Go accepts ----------------------------------------------------------------------

  predicate GoTerm(t: Term) {
    match t
    case Fixed(_, go) => go
    case Times(_, _, go) => go
    case _ => true
  }

  ghost predicate GoTerms(ts: seq<Term>) {
    forall i :: 0 <= i < |ts| ==> GoTerm(ts[i])
  }

  /** A summand, or a list of statements, with the name of the block's variable in it. */
  predicate Names(t: Term) { !t.Const? && !t.KeyLen? && !t.Fixed? }

  ghost predicate NamesAny(ts: seq<Term>) {
    exists i :: 0 <= i < |ts| && Names(ts[i])
  }

  ghost predicate UsesOne(s: Stmt) {
    match s
    case Set(ts) => NamesAny(ts)
    case Add(ts) => NamesAny(ts)
    case _ => true
  }

  ghost predicate Uses(ss: seq<Stmt>) {
    exists i :: 0 <= i < |ss| && UsesOne(ss[i])
  }

  /** No stray `+`, and loops over slices and arrays use their variables (in the map loops the
      generator itself prints a use). */
  ghost predicate IsGo(ss: seq<Stmt>)
    decreases ss, 1
  {
    forall i :: 0 <= i < |ss| ==> GoStmt(ss[i])
  }

  ghost predicate GoStmt(s: Stmt)
    decreases s, 0
  {
    match s
    case Set(ts) => GoTerms(ts)
    case Add(ts) => GoTerms(ts)
    case Range(_, body) => IsGo(body) && Uses(body)
    case RangeMap(_, body) => IsGo(body)
    case IfNil(_, body) => IsGo(body)
  }

  /** The fixed-size expressions the generator prints for a type have no stray `+`: elements of
      slices do not end in an empty struct, and elements of arrays in fixed-size types neither. */
  ghost predicate Printable(e: Elem)
    decreases e
  {
    match e
    case Base(_, _, _) => true
    case Ident(_) => true
    case Ptr(y) => Printable(y)
    case Slice(y) => if FixedExpr(y).Expr? then !EmptyTail(y) && SolidElements(y) else Printable(y)
    case Array(_, y) => if FixedExpr(e).Expr? then SolidElements(e) else Printable(y)
    case Map(y) => Printable(y)
    case Struct(fs, _) => forall i :: 0 <= i < |fs| ==> Printable(fs[i].elem)
  }

  lemma IsGoConcat(a: seq<Stmt>, b: seq<Stmt>)
    ensures IsGo(a + b) <==> IsGo(a) && IsGo(b)
  {
    hide GoStmt;
    assert forall i :: 0 <= i < |b| ==> (a + b)[|a| + i] == b[i];
    assert forall i :: 0 <= i < |a| ==> (a + b)[i] == a[i];
  }

  lemma IsGoOne(s: Stmt)
    ensures IsGo([s]) <==> GoStmt(s)
  {
    hide GoStmt;
    assert IsGo([s]) <==> GoStmt([s][0]);
  }

  lemma GoTermsMore(ts: seq<Term>, t: Term)
    ensures GoTerms(ts + [t]) <==> GoTerms(ts) && GoTerm(t)
  {
    hide GoTerm;
    assert (ts + [t])[|ts|] == t;
    assert forall i :: 0 <= i < |ts| ==> (ts + [t])[i] == ts[i];
  }

  lemma TermIsGo(m: Emitter, t: Term, top: bool)
    requires WellPlaced(m, top)
    ensures IsGo(AddTerm(m, t).out) <==> IsGo(m.out) && GoTerm(t)
  {
    hide IsGo, GoTerm, NoSet;
    var none: seq<Term> := [];
    if m.mode == Extend {
      var k := |m.out| - 1;
      var init, last := m.out[..k], m.out[k];
      assert m.out == init + [last];
      IsGoConcat(init, [last]);
      IsGoConcat(init, [last.(terms := last.terms + [t])]);
      IsGoOne(last);
      IsGoOne(last.(terms := last.terms + [t]));
      GoTermsMore(last.terms, t);
    } else {
      var s := if m.mode == Assign then Set([t]) else Add([t]);
      IsGoConcat(m.out, [s]);
      IsGoOne(s);
      GoTermsMore(none, t);
      assert none + [t] == [t];
    }
  }

  // ---- Loops are only printed where they use their variable -----------------------------------------

  lemma UsesConcat(a: seq<Stmt>, b: seq<Stmt>)
    ensures Uses(a + b) <==> Uses(a) || Uses(b)
  {
    hide UsesOne;
    assert forall i :: 0 <= i < |b| ==> (a + b)[|a| + i] == b[i];
    assert forall i :: 0 <= i < |a| ==> (a + b)[i] == a[i];
  }

  lemma UsesSingle(s: Stmt)
    ensures Uses([s]) <==> UsesOne(s)
  {
    hide UsesOne;
    assert [s][0] == s;
  }

  lemma NamesMore(ts: seq<Term>, t: Term)
    ensures NamesAny(ts + [t]) <==> NamesAny(ts) || Names(t)
  {
    hide Names;
    assert (ts + [t])[|ts|] == t;
    assert forall i :: 0 <= i < |ts| ==> (ts + [t])[i] == ts[i];
  }

  lemma TermUses(m: Emitter, t: Term, top: bool)
    requires WellPlaced(m, top)
    ensures Uses(AddTerm(m, t).out) <==> Uses(m.out) || Names(t)
  {
    hide Uses, Names, NoSet;
    var none: seq<Term> := [];
    if m.mode == Extend {
      var k := |m.out| - 1;
      var init, last := m.out[..k], m.out[k];
      assert m.out == init + [last];
      UsesConcat(init, [last]);
      UsesConcat(init, [last.(terms := last.terms + [t])]);
      UsesSingle(last);
      UsesSingle(last.(terms := last.terms + [t]));
      NamesMore(last.terms, t);
    } else {
      var s := if m.mode == Assign then Set([t]) else Add([t]);
      UsesConcat(m.out, [s]);
      UsesSingle(s);
      NamesMore(none, t);
      assert none + [t] == [t];
    }
  }

  lemma BlockUses(out: seq<Stmt>, s: Stmt)
    requires UsesOne(s)
    ensures Uses(out + [s])
  {
    UsesConcat(out, [s]);
    UsesSingle(s);
  }

  /** What is not of fixed size is printed with the variable's name; a name once printed stays. */
  lemma {:induction false} EmitUses(e: Elem, x: Path, m: Emitter, top: bool)
    requires WellPlaced(m, top)
    ensures Uses(m.out) || FixedExpr(e).NotFixed? ==> Uses(Emit(e, x, m).out)
    decreases e, 1
  {
    hide WellPlaced, AddTerm, Uses, FixedFields;
    match e
    case Base(p, _, _) => TermUses(m, BaseTerm(p, x), top);
    case Ident(n) => TermUses(m, SizeCall(x, n), top);
    case Ptr(y) => BlockUses(m.out, IfNil(x, Emit(y, [], Emitter([], AddTo)).out));
    case Slice(y) =>
      var m1, f := AddTerm(m, Const(5)), FixedExpr(y);
      TermUses(m, Const(5), top);
      TermStays(m, Const(5), top);
      if f.Expr? {
        TermUses(m1, Times(x, f.size, f.IsGo()), top);
      } else {
        BlockUses(m1.out, Range(x, Emit(y, [], Emitter([], AddTo)).out));
      }
    case Array(n, y) =>
      var m1, f := AddTerm(m, Const(5)), FixedExpr(e);
      TermUses(m, Const(5), top);
      TermStays(m, Const(5), top);
      if f.Expr? {
        TermUses(m1, Fixed(f.size, f.IsGo()), top);
      } else {
        BlockUses(m1.out, Range(x, Emit(y, [], Emitter([], AddTo)).out));
      }
    case Map(y) =>
      BlockUses(AddTerm(m, Const(5)).out, RangeMap(x, Emit(y, [], Emitter([Add([KeyLen])], Extend)).out));
    case Struct(fs, tup) =>
      var hdr := Const(|StructHeader(|fs|, tup)|);
      TermUses(m, hdr, top);
      TermStays(m, hdr, top);
      FieldsUse(fs, 0, x, tup, AddTerm(m, hdr), top);
      assert fs[0..] == fs;
  }

  lemma {:induction false} FieldsUse(fs: seq<Field>, i: nat, x: Path, tup: bool, m: Emitter, top: bool)
    requires i <= |fs| && WellPlaced(m, top) && m.mode != Assign
    ensures Uses(m.out) || FixedFields(fs[i..]).NotFixed? ==> Uses(EmitFields(fs, i, x, tup, m).out)
    decreases fs, 0, |fs| - i
  {
    hide Emit, V.EncStr, WellPlaced, AddTerm, Uses, FixedExpr;
    if i < |fs| {
      var tag := Const(|V.EncStr(fs[i].tag)|);
      var m1 := if tup then m else AddTerm(m, tag);
      if !tup {
        TermUses(m, tag, top);
        TermStays(m, tag, top);
      }
      assert fs[i..][1..] == fs[i + 1..];
      EmitUses(fs[i].elem, x + [Sel(i, |fs|)], m1, top);
      StaysWellPlaced(fs[i].elem, x + [Sel(i, |fs|)], m1, top);
      FieldsUse(fs, i + 1, x, tup, Emit(fs[i].elem, x + [Sel(i, |fs|)], m1), top);
    }
  }

  lemma LoopIsGo(y: Elem, x: Path)
    requires FixedExpr(y).NotFixed?
    ensures var body := Emit(y, [], Emitter([], AddTo)).out;
      GoStmt(Range(x, body)) <==> IsGo(body)
  {
    hide Emit, Uses, IsGo, FixedExpr;
    EmitUses(y, [], Emitter([], AddTo), false);
  }

  // ---- Exactly when ------------------------------------------------------------------------------------

  /** The statements for a variable are Go exactly if its type is printable, whatever state the
      emitter is in. */
  lemma {:induction false} EmitIsGo(e: Elem, x: Path, m: Emitter, top: bool)
    requires WellPlaced(m, top)
    ensures IsGo(Emit(e, x, m).out) <==> IsGo(m.out) && Printable(e)
    decreases e, 1
  {
    hide FixedExpr, WellPlaced, AddTerm, IsGo;
    match e
    case Base(p, _, _) => TermIsGo(m, BaseTerm(p, x), top);
    case Ident(n) => TermIsGo(m, SizeCall(x, n), top);
    case Ptr(y) =>
      BodyIsGo(y, Emitter([], AddTo));
      BlockIsGo(m.out, IfNil(x, Emit(y, [], Emitter([], AddTo)).out));
    case Slice(y) => SliceIsGo(y, x, m, top);
    case Array(n, y) => ArrayIsGo(n, y, x, m, top);
    case Map(y) =>
      TermIsGo(m, Const(5), top);
      BodyIsGo(y, Emitter([Add([KeyLen])], Extend));
      BlockIsGo(AddTerm(m, Const(5)).out, RangeMap(x, Emit(y, [], Emitter([Add([KeyLen])], Extend)).out));
    case Struct(fs, tup) =>
      var hdr := Const(|StructHeader(|fs|, tup)|);
      TermIsGo(m, hdr, top);
      TermStays(m, hdr, top);
      FieldsAreGo(fs, 0, x, tup, AddTerm(m, hdr), top);
  }

  lemma BlockIsGo(out: seq<Stmt>, s: Stmt)
    ensures IsGo(out + [s]) <==> IsGo(out) && GoStmt(s)
  {
    hide IsGo, GoStmt;
    IsGoConcat(out, [s]);
    IsGoOne(s);
  }

  lemma {:induction false} BodyIsGo(y: Elem, m: Emitter)
    requires m == Emitter([], AddTo) || m == Emitter([Add([KeyLen])], Extend)
    ensures IsGo(Emit(y, [], m).out) <==> Printable(y)
    decreases y, 2
  {
    hide Emit, Printable;
    assert IsGo(m.out);
    EmitIsGo(y, [], m, false);
  }

  lemma SliceIsGo(y: Elem, x: Path, m: Emitter, top: bool)
    requires WellPlaced(m, top)
    ensures IsGo(Emit(Slice(y), x, m).out) <==> IsGo(m.out) && Printable(Slice(y))
    decreases y, 3
  {
    hide FixedExpr, WellPlaced, AddTerm, IsGo, EmptyTail, SolidElements;
    var m1, f := AddTerm(m, Const(5)), FixedExpr(y);
    TermIsGo(m, Const(5), top);
    TermStays(m, Const(5), top);
    if f.Expr? {
      StrayPlus(y);
      TermIsGo(m1, Times(x, f.size, f.IsGo()), top);
    } else {
      BodyIsGo(y, Emitter([], AddTo));
      LoopIsGo(y, x);
      BlockIsGo(m1.out, Range(x, Emit(y, [], Emitter([], AddTo)).out));
    }
  }

  lemma ArrayIsGo(n: nat, y: Elem, x: Path, m: Emitter, top: bool)
    requires WellPlaced(m, top)
    ensures IsGo(Emit(Array(n, y), x, m).out) <==> IsGo(m.out) && Printable(Array(n, y))
    decreases y, 3
  {
    hide FixedExpr, WellPlaced, AddTerm, IsGo, SolidElements;
    var m1, f := AddTerm(m, Const(5)), FixedExpr(Array(n, y));
    TermIsGo(m, Const(5), top);
    TermStays(m, Const(5), top);
    if f.Expr? {
      StrayPlus(Array(n, y));
      TermIsGo(m1, Fixed(f.size, f.IsGo()), top);
    } else {
      NotFixedElements(n, y);
      BodyIsGo(y, Emitter([], AddTo));
      LoopIsGo(y, x);
      BlockIsGo(m1.out, Range(x, Emit(y, [], Emitter([], AddTo)).out));
    }
  }

  lemma NotFixedElements(n: nat, y: Elem)
    ensures FixedExpr(Array(n, y)).NotFixed? <==> FixedExpr(y).NotFixed?
  {
  }

  lemma {:induction false} FieldsAreGo(fs: seq<Field>, i: nat, x: Path, tup: bool, m: Emitter, top: bool)
    requires WellPlaced(m, top) && m.mode != Assign
    ensures IsGo(EmitFields(fs, i, x, tup, m).out)
      <==> IsGo(m.out) && forall j :: i <= j < |fs| ==> Printable(fs[j].elem)
    decreases fs, 0, |fs| - i
  {
    hide Emit, V.EncStr, WellPlaced, AddTerm, IsGo, Printable;
    if i < |fs| {
      var tag := Const(|V.EncStr(fs[i].tag)|);
      var m1 := if tup then m else AddTerm(m, tag);
      if !tup {
        TermIsGo(m, tag, top);
        TermStays(m, tag, top);
      }
      EmitIsGo(fs[i].elem, x + [Sel(i, |fs|)], m1, top);
      StaysWellPlaced(fs[i].elem, x + [Sel(i, |fs|)], m1, top);
      FieldsAreGo(fs, i + 1, x, tup, Emit(fs[i].elem, x + [Sel(i, |fs|)], m1), top);
    }
  }

  /** The emitted `Msgsize` of a type is Go if and only if the type is printable: loops are never
      at fault. */
  lemma ProgramIsGoExactly(e: Elem)
    ensures IsGo(Program(e)) <==> Printable(e)
  {
    hide Emit, Printable;
    assert WellPlaced(Emitter([], Assign), true) && IsGo([]);
    EmitIsGo(e, [], Emitter([], Assign), true);
  }

  /** The failing type: a slice of empty structs. */
  lemma EmptyElements()
    ensures !IsGo(Program(Slice(Struct([], false))))
  {
    hide Program, IsGo;
    ProgramIsGoExactly(Slice(Struct([], false)));
  }
}
