/** The size generator itself (gen/size.go): methods that walk the tree, keep `state` and
    print sums and blocks. */
module SizePrinter {
  import opened TypeTree
  import opened SizeGen
  import T = SizeText
  import V = Encoding

  class Generator {
    var state: Mode
    var out: seq<Stmt>
    var outer: seq<seq<Stmt>>

    constructor ()
      ensures state == Assign && out == [] && outer == [] && Valid()
    {
      state, out, outer := Assign, [], [];
    }

    ghost function Now(): Emitter
      reads this
    {
      Emitter(out, state)
    }

    /** ` + ` comes next only on an open sum, and `s = ` only before anything else. */
    ghost predicate Valid()
      reads this
    {
      WellPlaced(Now(), outer == [])
    }

    /** A summand, printed as the state asks. */
    method AddConstant(t: Term)
      requires Valid()
      modifies this
      ensures Valid() && state == Extend && Now() == AddTerm(old(Now()), t) && outer == old(outer)
    {
      TermStays(Now(), t, outer == []);
      match state
      case Assign =>
        out := out + [Set([t])];
        state := Extend;
      case AddTo =>
        out := out + [Add([t])];
        state := Extend;
      case Extend =>
        var k := |out| - 1;
        out := out[..k] + [out[k].(terms := out[k].terms + [t])];
    }

    /** A block opens, with the statements its opening text already holds. */
    method OpenBlock(first: seq<Stmt>)
      requires state != Assign && (if first == [] then state == AddTo else first == [Add([KeyLen])] && state == Extend)
      modifies this
      ensures Valid() && state == old(state) && out == first && outer == old(outer) + [old(out)]
    {
      outer, out := outer + [out], first;
    }

    method CloseBlock() returns (body: seq<Stmt>)
      requires outer != []
      modifies this
      ensures body == old(out) && out == old(outer)[|old(outer)| - 1] && outer == old(outer)[..|old(outer)| - 1]
      ensures state == old(state)
    {
      body := out;
      out, outer := outer[|outer| - 1], outer[..|outer| - 1];
    }

    /** The body of a block over a value of type `y`. */
    method Block(y: Elem, first: seq<Stmt>) returns (body: seq<Stmt>)
      requires state != Assign && (if first == [] then state == AddTo else first == [Add([KeyLen])] && state == Extend)
      modifies this
      ensures body == Emit(y, [], Emitter(first, old(state))).out && out == old(out) && outer == old(outer)
      decreases y, 2
    {
      hide Emit, FixedExpr, WellPlaced;
      OpenBlock(first);
      Next(y, []);
      body := CloseBlock();
    }

    /** A closed block; whatever follows starts a statement of its own. */
    method PrintBlock(s: Stmt)
      requires Placed() && NoSet(s)
      modifies this
      ensures Valid() && Now() == Emitter(old(out) + [s], AddTo) && outer == old(outer)
    {
      out := out + [s];
      state := AddTo;
    }

    /** The statements so far are in place, whatever the state says about the next one. */
    ghost predicate Placed()
      reads this
    {
      WellPlaced(Emitter(out, AddTo), outer == [])
    }

    method Next(e: Elem, x: Path)
      requires Valid()
      modifies this
      ensures Valid() && Now() == Emit(e, x, old(Now())) && outer == old(outer)
      decreases e, 1
    {
      hide WellPlaced, AddTerm, FixedExpr;
      match e
      case Base(p, _, _) => AddConstant(BaseTerm(p, x));
      case Ident(n) => AddConstant(SizeCall(x, n));
      case Ptr(y) => GPtr(y, x);
      case Slice(y) => GSlice(y, x);
      case Array(n, y) => GArray(n, y, x);
      case Map(y) => GMap(y, x);
      case Struct(fs, tup) => GStruct(fs, tup, x);
    }

    method GPtr(y: Elem, x: Path)
      requires Valid()
      modifies this
      ensures Valid() && Now() == Emit(Ptr(y), x, old(Now())) && outer == old(outer)
      decreases y, 3
    {
      StillPlaced(Now(), outer == []);
      hide WellPlaced, NoSet;
      state := AddTo;
      var body := Block(y, []);
      BodyIsTidy(y, Emitter([], AddTo));
      BlocksAreTidy(x, body);
      PrintBlock(IfNil(x, body));
    }

    method GSlice(y: Elem, x: Path)
      requires Valid()
      modifies this
      ensures Valid() && Now() == Emit(Slice(y), x, old(Now())) && outer == old(outer)
      decreases y, 3
    {
      hide WellPlaced, NoSet, FixedExpr, AddTerm;
      AddConstant(Const(5));
      var f := FixedExpr(y);
      if f.Expr? {
        AddConstant(Times(x, f.size, f.IsGo()));
        return;
      }
      RangeBlock(y, x);
    }

    /** `rangeBlock`, with `s +=` inside it and after it. */
    method RangeBlock(y: Elem, x: Path)
      requires Valid()
      modifies this
      ensures Valid() && outer == old(outer)
      ensures Now() == Emitter(old(out) + [Range(x, Emit(y, [], Emitter([], AddTo)).out)], AddTo)
      decreases y, 3, 0
    {
      StillPlaced(Now(), outer == []);
      hide WellPlaced, NoSet, Emit;
      state := AddTo;
      var body := Block(y, []);
      BodyIsTidy(y, Emitter([], AddTo));
      BlocksAreTidy(x, body);
      PrintBlock(Range(x, body));
    }

    method GArray(n: nat, y: Elem, x: Path)
      requires Valid()
      modifies this
      ensures Valid() && Now() == Emit(Array(n, y), x, old(Now())) && outer == old(outer)
      decreases y, 3
    {
      hide WellPlaced, NoSet, FixedExpr, AddTerm;
      AddConstant(Const(5));
      var f := FixedExpr(Array(n, y));
      if f.Expr? {
        AddConstant(Fixed(f.size, f.IsGo()));
        return;
      }
      RangeBlock(y, x);
    }

    method GMap(y: Elem, x: Path)
      requires Valid()
      modifies this
      ensures Valid() && Now() == Emit(Map(y), x, old(Now())) && outer == old(outer)
      decreases y, 3
    {
      hide WellPlaced, NoSet, AddTerm;
      AddConstant(Const(5));
      StillPlaced(Now(), outer == []);
      state := Extend;
      var body := Block(y, [Add([KeyLen])]);
      BodyIsTidy(y, Emitter([Add([KeyLen])], Extend));
      BlocksAreTidy(x, body);
      PrintBlock(RangeMap(x, body));
    }

    method GStruct(fs: seq<Field>, tup: bool, x: Path)
      requires Valid()
      modifies this
      ensures Valid() && Now() == Emit(Struct(fs, tup), x, old(Now())) && outer == old(outer)
      decreases fs, 0
    {
      hide WellPlaced, NoSet, AddTerm, Emit, EmitFields, StructHeader, V.EncStr;
      ghost var m0 := Now();
      AddConstant(Const(|StructHeader(|fs|, tup)|));
      StructEmits(fs, tup, x, m0);
      for i := 0 to |fs|
        invariant Valid() && outer == old(outer) && state != Assign
        invariant EmitFields(fs, i, x, tup, Now()) == Emit(Struct(fs, tup), x, m0)
      {
        FieldEmits(fs, i, x, tup, Now());
        StaysAfterField(fs, i, x, tup, Now(), outer == []);
        if !tup {
          AddConstant(Const(|V.EncStr(fs[i].tag)|));
        }
        Next(fs[i].elem, x + [Sel(i, |fs|)]);
      }
      NoMoreFields(fs, x, tup, Now());
    }

    /** `Execute` for one named type: the program, which is Go exactly for the printable types. */
    method Execute(e: Elem) returns (program: seq<Stmt>)
      modifies this
      ensures program == Program(e) && outer == []
      ensures T.IsGo(program) <==> T.Printable(e)
    {
      state, out, outer := Assign, [], [];
      hide Emit, T.IsGo, T.Printable;
      T.ProgramIsGoExactly(e);
      Next(e, []);
      program := out;
    }
  }

  lemma StillPlaced(m: Emitter, top: bool)
    requires WellPlaced(m, top)
    ensures WellPlaced(Emitter(m.out, AddTo), top)
  {
  }

  lemma BlocksAreTidy(x: Path, body: seq<Stmt>)
    requires forall i :: 0 <= i < |body| ==> NoSet(body[i])
    ensures NoSet(IfNil(x, body)) && NoSet(Range(x, body)) && NoSet(RangeMap(x, body))
  {
  }

  lemma StructEmits(fs: seq<Field>, tup: bool, x: Path, m: Emitter)
    ensures Emit(Struct(fs, tup), x, m) == EmitFields(fs, 0, x, tup, AddTerm(m, Const(|StructHeader(|fs|, tup)|)))
  {
  }

  lemma FieldEmits(fs: seq<Field>, i: nat, x: Path, tup: bool, m: Emitter)
    requires i < |fs|
    ensures var m1 := if tup then m else AddTerm(m, Const(|V.EncStr(fs[i].tag)|));
      EmitFields(fs, i, x, tup, m) == EmitFields(fs, i + 1, x, tup, Emit(fs[i].elem, x + [Sel(i, |fs|)], m1))
  {
    hide Emit, V.EncStr, AddTerm;
  }

  lemma StaysAfterField(fs: seq<Field>, i: nat, x: Path, tup: bool, m: Emitter, top: bool)
    requires i < |fs| && WellPlaced(m, top)
    ensures var m1 := if tup then m else AddTerm(m, Const(|V.EncStr(fs[i].tag)|));
      Emit(fs[i].elem, x + [Sel(i, |fs|)], m1).mode != Assign
  {
    hide Emit, V.EncStr, AddTerm, WellPlaced;
    TermStays(m, Const(|V.EncStr(fs[i].tag)|), top);
    StaysWellPlaced(fs[i].elem, x + [Sel(i, |fs|)], if tup then m else AddTerm(m, Const(|V.EncStr(fs[i].tag)|)), top);
  }

  lemma NoMoreFields(fs: seq<Field>, x: Path, tup: bool, m: Emitter)
    ensures EmitFields(fs, |fs|, x, tup, m) == m
  {
  }
}
