/** The unmarshal generator itself: methods that walk the tree, print statements and keep
    track of the declaration of `field`. */
module UnmarshalPrinter {
  import opened TypeTree
  import opened UnmarshalGen
  import F = FieldScope
  import V = Encoding

  /** The statements for the variable `x` of the enclosing block. */
  ghost function At(x: Path, ss: seq<Stmt>): (r: seq<Stmt>)
    ensures |r| == |ss|
  {
    seq(|ss|, i requires 0 <= i < |ss| => Stmt(x + ss[i].x, ss[i].op))
  }

  lemma AtRoot(ss: seq<Stmt>)
    ensures At([], ss) == ss
  {
    forall i | 0 <= i < |ss| ensures At([], ss)[i] == ss[i] {
      assert [] + ss[i].x == ss[i].x;
    }
  }

  lemma AtOne(x: Path, op: Op)
    ensures At(x, [Stmt([], op)]) == [Stmt(x, op)]
  {
    assert x + [] == x;
  }

  lemma AtConcat(x: Path, a: seq<Stmt>, b: seq<Stmt>)
    ensures At(x, a + b) == At(x, a) + At(x, b)
  {
  }

  lemma AtTwo(x: Path, op: Op, op': Op)
    ensures At(x, [Stmt([], op), Stmt([], op')]) == [Stmt(x, op), Stmt(x, op')]
  {
    assert x + [] == x;
  }

  lemma AtField(x: Path, s: Sel, ss: seq<Stmt>)
    ensures At(x, Within(s, ss)) == At(x + [s], ss)
  {
    forall i | 0 <= i < |ss| ensures At(x, Within(s, ss))[i] == At(x + [s], ss)[i] {
      assert x + ([s] + ss[i].x) == x + [s] + ss[i].x;
    }
  }

  class Generator {
    var out: seq<Stmt>
    var outer: seq<seq<Stmt>>
    var hasField: bool
    /** Of the printed text: `field` is in scope here, and was wherever it was assigned to. */
    var visible: bool
    var compiles: bool

    constructor ()
      ensures out == [] && outer == [] && Scope() == F.Scope(false, false, true)
    {
      out, outer, hasField, visible, compiles := [], [], false, false, true;
    }

    function Scope(): F.Scope
      reads this
    {
      F.Scope(hasField, visible, compiles)
    }

    twostate predicate Printed(ss: seq<Stmt>)
      reads this
    {
      out == old(out) + ss && outer == old(outer)
    }

    method Print(x: Path, op: Op)
      modifies this
      ensures Printed([Stmt(x, op)]) && Scope() == old(Scope())
    {
      out := out + [Stmt(x, op)];
    }

    method OpenBlock()
      modifies this
      ensures out == [] && outer == old(outer) + [old(out)] && Scope() == old(Scope())
    {
      outer, out := outer + [out], [];
    }

    method CloseBlock() returns (body: seq<Stmt>)
      requires outer != []
      modifies this
      ensures body == old(out)
      ensures out == old(outer)[|old(outer)| - 1] && outer == old(outer)[..|old(outer)| - 1]
      ensures Scope() == old(Scope())
    {
      body := out;
      out, outer := outer[|outer| - 1], outer[..|outer| - 1];
    }

    /** The declaration of `field`, if it is still to come, and the first use. */
    method DeclareField()
      modifies this
      ensures Printed([]) && Scope() == F.Enter(old(Scope()))
    {
      if !hasField {
        visible := true;
        hasField := true;
      }
      compiles := compiles && visible;
      assert out == old(out) + [];
    }

    method Next(e: Elem, x: Path)
      modifies this
      ensures Printed(At(x, Emit(e))) && Scope() == F.Walk(e, old(Scope()))
      decreases e, 1
    {
      hide At, F.WalkFields, F.WalkCases;
      match e
      case Base(p, _, _) =>
        Print(x, ReadBase(p));
        AtOne(x, ReadBase(p));
      case Ident(n) =>
        Print(x, CallUnmarshal(n));
        AtOne(x, CallUnmarshal(n));
      case Ptr(y) =>
        var body := Block(y);
        Print(x, NilOr(body));
        AtOne(x, NilOr(body));
      case Slice(y) =>
        Print(x, ResizeSlice);
        var body := Block(y);
        Print(x, RangeInto(body));
        AtTwo(x, ResizeSlice, RangeInto(body));
      case Array(n, y) =>
        if IsByteArray(y, V.Slice) {
          Print(x, ReadExactly(n, y.convert));
          AtOne(x, ReadExactly(n, y.convert));
        } else {
          Print(x, ArrayHeader(n));
          var body := Block(y);
          Print(x, RangeInto(body));
          AtTwo(x, ArrayHeader(n), RangeInto(body));
        }
      case Map(y) =>
        var body := Block(y);
        Print(x, MapLoop(body));
        AtOne(x, MapLoop(body));
      case Struct(fs, tup) =>
        if tup { Tuple(fs, x); } else { StructAsMap(fs, x); }
    }

    method Block(y: Elem) returns (body: seq<Stmt>)
      modifies this
      ensures Printed([]) && body == Emit(y) && Scope() == F.Leave(old(Scope()), F.Walk(y, old(Scope())))
      decreases y, 2
    {
      hide F.Walk;
      var before := visible;
      OpenBlock();
      Next(y, []);
      body := CloseBlock();
      visible := before;
      AtRoot(Emit(y));
      assert out == old(out) + [];
    }

    method Tuple(fs: seq<Field>, x: Path)
      modifies this
      ensures Printed(At(x, Emit(Struct(fs, true)))) && Scope() == F.WalkFields(fs, old(Scope()))
      decreases fs, 0
    {
      hide At, Within, F.Walk;
      assert fs[0..] == fs;
      ghost var all := out + At(x, Emit(Struct(fs, true)));
      Print(x, TupleHeader(|fs|));
      AtConcat(x, [Stmt([], TupleHeader(|fs|))], EmitTuple(fs, 0));
      AtOne(x, TupleHeader(|fs|));
      for i := 0 to |fs|
        invariant outer == old(outer) && out + At(x, EmitTuple(fs, i)) == all
        invariant F.WalkFields(fs[i..], Scope()) == F.WalkFields(fs, old(Scope()))
      {
        assert fs[i..][1..] == fs[i + 1..];
        ghost var s, body := Sel(i, |fs|), Emit(fs[i].elem);
        AtConcat(x, Within(s, body), EmitTuple(fs, i + 1));
        AtField(x, s, body);
        Next(fs[i].elem, x + [Sel(i, |fs|)]);
      }
      assert |At(x, EmitTuple(fs, |fs|))| == 0;
    }

    /** The loop over the fields prints one case of the switch for each of them. */
    method StructAsMap(fs: seq<Field>, x: Path)
      modifies this
      ensures Printed(At(x, Emit(Struct(fs, false)))) && Scope() == F.WalkCases(fs, F.Enter(old(Scope())))
      decreases fs, 0
    {
      hide At, Within, F.Walk, F.Enter;
      DeclareField();
      assert fs[0..] == fs;
      var cases: seq<Case> := [];
      for i := 0 to |fs|
        invariant Printed([]) && cases + EmitCases(fs, i) == EmitCases(fs, 0)
        invariant F.WalkCases(fs[i..], Scope()) == F.WalkCases(fs, F.Enter(old(Scope())))
      {
        assert fs[i..][1..] == fs[i + 1..];
        var before := visible;
        OpenBlock();
        Next(fs[i].elem, [Sel(i, |fs|)]);
        var body := CloseBlock();
        visible := before;
        AtField([], Sel(i, |fs|), Emit(fs[i].elem));
        AtRoot(Within(Sel(i, |fs|), Emit(fs[i].elem)));
        assert [] + [Sel(i, |fs|)] == [Sel(i, |fs|)];
        assert body == Within(Sel(i, |fs|), Emit(fs[i].elem));
        assert EmitCases(fs, i) == [Case(fs[i].tag, body)] + EmitCases(fs, i + 1);
        assert cases + ([Case(fs[i].tag, body)] + EmitCases(fs, i + 1))
          == cases + [Case(fs[i].tag, body)] + EmitCases(fs, i + 1);
        cases := cases + [Case(fs[i].tag, body)];
        assert out == old(out) + [];
      }
      assert cases + [] == cases;
      Print(x, StructLoop(|fs|, cases));
      AtOne(x, StructLoop(|fs|, cases));
    }

    /** `Execute` for one named type: the program, and whether Go accepts its uses of `field`. */
    method Execute(e: Elem) returns (program: seq<Stmt>)
      modifies this
      ensures program == Emit(e) && outer == []
      ensures compiles <==> F.Compilable(e)
    {
      hide F.Walk, F.Compilable;
      out, outer, hasField, visible, compiles := [], [], false, false, true;
      Next(e, []);
      F.CompilesExactly(e);
      AtRoot(Emit(e));
      program := out;
    }
  }
}
