/** The generator itself: methods that walk the tree, keep the pending constants in `fuse`
    and print statements into the current block. */
module MarshalPrinter {
  import opened Wire
  import opened TypeTree
  import opened MarshalGen
  import V = Encoding

  class Generator {
    const st: V.Style
    var fuse: bytes
    var out: seq<Stmt>
    var outer: seq<seq<Stmt>>

    /** `marshal` for the slice generator, `encode` for the streaming one. */
    constructor (st: V.Style)
      ensures this.st == st && fuse == [] && out == [] && outer == []
    {
      this.st := st;
      fuse, out, outer := [], [], [];
    }

    /** What a traversal of `e` may do: print exactly `Emit` into the current block and leave
        no constant pending. */
    twostate predicate Printed(ss: seq<Stmt>)
      reads this
    {
      fuse == [] && out == old(out) + ss && outer == old(outer)
    }

    method Print(s: Stmt)
      modifies this
      ensures fuse == old(fuse) && out == old(out) + [s] && outer == old(outer)
    {
      out := out + [s];
    }

    method FuseHook()
      modifies this
      ensures Printed(Hook(old(fuse)))
    {
      if |fuse| > 0 {
        Print(AppendRaw(fuse));
        fuse := [];
      }
    }

    method Fuse(b: bytes)
      modifies this
      ensures fuse == old(fuse) + b && out == old(out) && outer == old(outer)
    {
      if |fuse| == 0 {
        fuse := b;
      } else {
        fuse := fuse + b;
      }
    }

    /** A loop or a nil branch opens: no constant may be pending. */
    method OpenBlock()
      requires fuse == []
      modifies this
      ensures fuse == [] && out == [] && outer == old(outer) + [old(out)]
    {
      outer, out := outer + [out], [];
    }

    /** The innermost block closes: its statements are returned, and no constant may be pending. */
    method CloseBlock() returns (body: seq<Stmt>)
      requires fuse == [] && outer != []
      modifies this
      ensures fuse == [] && body == old(out)
      ensures out == old(outer)[|old(outer)| - 1] && outer == old(outer)[..|old(outer)| - 1]
    {
      body := out;
      out, outer := outer[|outer| - 1], outer[..|outer| - 1];
    }

    /** `next` dispatches on the node. */
    method Next(e: Elem, x: Path)
      modifies this
      ensures Printed(Emit(e, x, old(fuse), st, true))
      decreases e, 1
    {
      match e
      case Base(_, _, _) => FuseHook(); Print(AppendBase(x));
      case Ident(n) => FuseHook(); Print(Call(x, n));
      case Ptr(y) => GPtr(y, x);
      case Slice(y) => GSlice(y, x);
      case Array(n, y) => GArray(n, y, x);
      case Map(y) => GMap(y, x);
      case Struct(fs, tup) =>
        if tup {
          Tuple(fs, x);
        } else {
          MapStruct(fs, x);
        }
    }

    /** The body of a loop or branch over a value of type `y`. */
    method Block(y: Elem) returns (body: seq<Stmt>)
      requires fuse == []
      modifies this
      ensures Printed([]) && body == Emit(y, [], [], st, true)
      decreases y, 2
    {
      OpenBlock();
      Next(y, []);
      body := CloseBlock();
      assert out == old(out) + [];
    }

    method GPtr(y: Elem, x: Path)
      modifies this
      ensures Printed(Emit(Ptr(y), x, old(fuse), st, true))
      decreases y, 3
    {
      FuseHook();
      var body := Block(y);
      Print(IfNil(x, body));
    }

    method GSlice(y: Elem, x: Path)
      modifies this
      ensures Printed(Emit(Slice(y), x, old(fuse), st, true))
      decreases y, 3
    {
      FuseHook();
      Print(AppendArrayLen(x));
      var body := Block(y);
      Print(Range(x, body));
    }

    method GArray(n: nat, y: Elem, x: Path)
      modifies this
      ensures Printed(Emit(Array(n, y), x, old(fuse), st, true))
      decreases y, 3
    {
      FuseHook();
      if IsByteArray(y, st) {
        Print(AppendByteArray(x, y.convert));
        return;
      }
      Print(AppendArrayConst(n));
      var body := Block(y);
      Print(Range(x, body));
    }

    method GMap(y: Elem, x: Path)
      modifies this
      ensures Printed(Emit(Map(y), x, old(fuse), st, true))
      decreases y, 3
    {
      FuseHook();
      Print(AppendMapLen(x));
      var body := Block(y);
      Print(RangeMap(x, body));
    }

    /** A tuple fuses its header with the constants of the first field. */
    method Tuple(fs: seq<Field>, x: Path)
      modifies this
      ensures Printed(Emit(Struct(fs, true), x, old(fuse), st, true))
      decreases fs, 0
    {
      hide Emit, EmitFields, StructHeader, Hook, V.EncStr;
      ghost var f0, out0 := fuse, out;
      Fuse(StructHeader(|fs|, true));
      ghost var g := fuse;
      if |fs| == 0 {
        FuseHook();
      }
      StructPrints(fs, true, x, f0, st);
      ghost var all := out0 + EmitFields(fs, 0, x, g, true, st, true);
      for i := 0 to |fs|
        invariant outer == old(outer) && (i > 0 || fs == [] ==> fuse == []) && (i == 0 && fs != [] ==> fuse == g)
        invariant fs != [] ==> out + EmitFields(fs, i, x, fuse, true, st, true) == all
        invariant fs == [] ==> out == out0 + Hook(g)
      {
        FieldPrints(fs, i, x, fuse, true, st);
        Next(fs[i].elem, x + [Sel(i, |fs|)]);
      }
      FieldsDone(fs, x, true, st);
    }

    /** A map-encoded struct also fuses each tag with the constants of its field. */
    method MapStruct(fs: seq<Field>, x: Path)
      modifies this
      ensures Printed(Emit(Struct(fs, false), x, old(fuse), st, true))
      decreases fs, 0
    {
      hide Emit, EmitFields, StructHeader, Hook, V.EncStr;
      ghost var f0, out0 := fuse, out;
      Fuse(StructHeader(|fs|, false));
      ghost var g := fuse;
      if |fs| == 0 {
        FuseHook();
      }
      StructPrints(fs, false, x, f0, st);
      ghost var all := out0 + EmitFields(fs, 0, x, g, false, st, true);
      for i := 0 to |fs|
        invariant outer == old(outer) && (i > 0 || fs == [] ==> fuse == []) && (i == 0 && fs != [] ==> fuse == g)
        invariant fs != [] ==> out + EmitFields(fs, i, x, fuse, false, st, true) == all
        invariant fs == [] ==> out == out0 + Hook(g)
      {
        FieldPrints(fs, i, x, fuse, false, st);
        Fuse(V.EncStr(fs[i].tag));
        Next(fs[i].elem, x + [Sel(i, |fs|)]);
      }
      FieldsDone(fs, x, false, st);
    }

    /** `Execute` for one named type, behind what has been printed for others: its program, with
        nothing left pending. It relies on the types before it having left nothing pending. */
    method Execute(e: Elem) returns (program: seq<Stmt>)
      requires fuse == []
      modifies this
      ensures Printed(program) && program == Emit(e, [], [], st, true)
    {
      var printed := |out|;
      Next(e, []);
      program := out[printed..];
    }

    /** One type after the other, as the printer of a file does: no constant of one gets into the
        program of another. */
    method ExecuteAll(es: seq<Elem>) returns (programs: seq<seq<Stmt>>)
      requires fuse == []
      modifies this
      ensures |programs| == |es| && fuse == [] && outer == old(outer)
      ensures forall i :: 0 <= i < |es| ==> programs[i] == Emit(es[i], [], [], st, true)
    {
      programs := [];
      for i := 0 to |es|
        invariant |programs| == i && fuse == [] && outer == old(outer)
        invariant forall k :: 0 <= k < i ==> programs[k] == Emit(es[k], [], [], st, true)
      {
        var program := Execute(es[i]);
        programs := programs + [program];
      }
    }
  }

  lemma StructPrints(fs: seq<Field>, tup: bool, x: Path, f: bytes, st: V.Style)
    ensures var g := f + StructHeader(|fs|, tup);
      Emit(Struct(fs, tup), x, f, st, true) == if fs == [] then Hook(g) else EmitFields(fs, 0, x, g, tup, st, true)
  {
  }

  lemma FieldPrints(fs: seq<Field>, i: nat, x: Path, f: bytes, tup: bool, st: V.Style)
    requires i < |fs|
    ensures EmitFields(fs, i, x, f, tup, st, true)
         == Emit(fs[i].elem, x + [Sel(i, |fs|)], if tup then f else f + V.EncStr(fs[i].tag), st, true)
            + EmitFields(fs, i + 1, x, [], tup, st, true)
  {
    hide Emit, V.EncStr;
  }

  lemma FieldsDone(fs: seq<Field>, x: Path, tup: bool, st: V.Style)
    ensures EmitFields(fs, |fs|, x, [], tup, st, true) == []
  {
  }
}
