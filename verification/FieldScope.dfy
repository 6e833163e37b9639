/** The variable `field` of the generated `UnmarshalMsg` (gen/unmarshal.go): it is declared
    once, in front of the first loop over field names, and every such loop assigns to it. Go
    accepts these assignments exactly if each loop lies in the scope of that declaration. */
module FieldScope {
  import opened TypeTree
  import LoopVariables

  /** Where the generator is: `field` has been declared, it is visible here, and every loop
      printed so far could see it. */
  datatype Scope = Scope(hasField: bool, visible: bool, ok: bool)

  /** After a block, what was visible in front of it is visible again. */
  function Leave(outer: Scope, inner: Scope): Scope { inner.(visible := outer.visible) }

  /** The loop over field names: declared first, if it has not been yet, then assigned to. */
  function Enter(s: Scope): Scope {
    var t := if s.hasField then s else Scope(true, true, s.ok);
    t.(ok := t.ok && t.visible)
  }

  function Walk(e: Elem, s: Scope): Scope
    decreases e, 1
  {
    match e
    case Base(_, _, _) => s
    case Ident(_) => s
    case Ptr(y) => Leave(s, Walk(y, s))
    case Slice(y) => Leave(s, Walk(y, s))
    case Array(_, y) => Leave(s, Walk(y, s))
    case Map(y) => Leave(s, Walk(y, s))
    case Struct(fs, tup) => if tup then WalkFields(fs, s) else WalkCases(fs, Enter(s))
  }

  /** The fields of a tuple share their scope. */
  function WalkFields(fs: seq<Field>, s: Scope): Scope
    decreases fs, 0
  {
    if fs == [] then s else WalkFields(fs[1..], Walk(fs[0].elem, s))
  }

  /** Each case of a switch has a scope of its own. */
  function WalkCases(fs: seq<Field>, s: Scope): Scope
    decreases fs, 0
  {
    if fs == [] then s else WalkCases(fs[1..], Leave(s, Walk(fs[0].elem, s)))
  }

  // ---- On the type alone ------------------------------------------------------------------

  /** A map-encoded struct is read somewhere in this type's own method. */
  predicate Holds(e: Elem)
    decreases e, 1
  {
    match e
    case Base(_, _, _) => false
    case Ident(_) => false
    case Ptr(y) => Holds(y)
    case Slice(y) => Holds(y)
    case Array(_, y) => Holds(y)
    case Map(y) => Holds(y)
    case Struct(fs, tup) => !tup || HoldsAny(fs)
  }

  predicate HoldsAny(fs: seq<Field>)
    decreases fs, 0
  {
    fs != [] && (Holds(fs[0].elem) || HoldsAny(fs[1..]))
  }

  /** The first of them is read outside every block. */
  predicate Opens(e: Elem)
    decreases e, 1
  {
    e.Struct? && (!e.asTuple || OpensAny(e.fields))
  }

  predicate OpensAny(fs: seq<Field>)
    decreases fs, 0
  {
    fs != [] && if Holds(fs[0].elem) then Opens(fs[0].elem) else OpensAny(fs[1..])
  }

  /** In no tuple does a field that holds such a struct follow one that holds it only inside a
      block: a pointer, slice, array or map. */
  predicate Compilable(e: Elem)
    decreases e, 1
  {
    match e
    case Base(_, _, _) => true
    case Ident(_) => true
    case Ptr(y) => Compilable(y)
    case Slice(y) => Compilable(y)
    case Array(_, y) => Compilable(y)
    case Map(y) => Compilable(y)
    case Struct(fs, tup) => !tup || CompilableFields(fs)
  }

  predicate CompilableFields(fs: seq<Field>)
    decreases fs, 0
  {
    fs == [] ||
    if Holds(fs[0].elem) then Compilable(fs[0].elem) && (Opens(fs[0].elem) || !HoldsAny(fs[1..]))
    else CompilableFields(fs[1..])
  }

  // ---- The two agree ------------------------------------------------------------------------

  /** In the scope of the declaration nothing goes wrong. */
  lemma {:induction false} InScope(e: Elem, ok: bool)
    ensures Walk(e, Scope(true, true, ok)) == Scope(true, true, ok)
    decreases e, 1
  {
    match e
    case Ptr(y) => InScope(y, ok);
    case Slice(y) => InScope(y, ok);
    case Array(_, y) => InScope(y, ok);
    case Map(y) => InScope(y, ok);
    case Struct(fs, _) => FieldsInScope(fs, ok);
    case _ =>
  }

  lemma {:induction false} FieldsInScope(fs: seq<Field>, ok: bool)
    ensures WalkFields(fs, Scope(true, true, ok)) == WalkCases(fs, Scope(true, true, ok)) == Scope(true, true, ok)
    decreases fs, 0
  {
    hide Walk;
    if fs != [] {
      InScope(fs[0].elem, ok);
      FieldsInScope(fs[1..], ok);
    }
  }

  /** Out of its scope, any further loop is an error. */
  lemma {:induction false} OutOfScope(e: Elem, ok: bool)
    ensures var r := Walk(e, Scope(true, false, ok));
      r.hasField && !r.visible && (r.ok <==> ok && !Holds(e))
    decreases e, 1
  {
    match e
    case Ptr(y) => OutOfScope(y, ok);
    case Slice(y) => OutOfScope(y, ok);
    case Array(_, y) => OutOfScope(y, ok);
    case Map(y) => OutOfScope(y, ok);
    case Struct(fs, _) => FieldsOutOfScope(fs, ok); FieldsOutOfScope(fs, false);
    case _ =>
  }

  lemma {:induction false} FieldsOutOfScope(fs: seq<Field>, ok: bool)
    ensures var r := WalkFields(fs, Scope(true, false, ok));
      r.hasField && !r.visible && (r.ok <==> ok && !HoldsAny(fs))
    ensures var r := WalkCases(fs, Scope(true, false, ok));
      r.hasField && !r.visible && (r.ok <==> ok && !HoldsAny(fs))
    decreases fs, 0
  {
    hide Walk, Holds;
    if fs != [] {
      OutOfScope(fs[0].elem, ok);
      FieldsOutOfScope(fs[1..], ok && !Holds(fs[0].elem));
    }
  }

  /** From the start of a method: every loop over field names sees the declaration of `field`
      exactly for the types that `Compilable` describes. */
  lemma {:induction false} CompilesExactly(e: Elem)
    ensures Walk(e, Scope(false, false, true)) == Scope(Holds(e), Opens(e), Compilable(e))
    decreases e, 1
  {
    match e
    case Ptr(y) => CompilesExactly(y);
    case Slice(y) => CompilesExactly(y);
    case Array(_, y) => CompilesExactly(y);
    case Map(y) => CompilesExactly(y);
    case Struct(fs, tup) =>
      if tup { FieldsCompileExactly(fs); } else { FieldsInScope(fs, true); }
    case _ =>
  }

  lemma {:induction false} FieldsCompileExactly(fs: seq<Field>)
    ensures WalkFields(fs, Scope(false, false, true)) == Scope(HoldsAny(fs), OpensAny(fs), CompilableFields(fs))
    decreases fs, 0
  {
    hide Walk, Holds, Opens, Compilable;
    if fs != [] {
      var e, ok := fs[0].elem, Compilable(fs[0].elem);
      CompilesExactly(e);
      OpensHolds(e);
      HoldsNot(e);
      if !Holds(e) {
        FieldsCompileExactly(fs[1..]);
      } else if Opens(e) {
        FieldsInScope(fs[1..], ok);
      } else {
        FieldsOutOfScope(fs[1..], ok);
      }
    }
  }

  lemma {:induction false} OpensHolds(e: Elem)
    ensures Opens(e) ==> Holds(e)
    decreases e, 1
  {
    if e.Struct? { FieldsOpenHold(e.fields); }
  }

  lemma {:induction false} FieldsOpenHold(fs: seq<Field>)
    ensures OpensAny(fs) ==> HoldsAny(fs)
    decreases fs, 0
  {
    if fs != [] {
      OpensHolds(fs[0].elem);
      FieldsOpenHold(fs[1..]);
    }
  }

  /** A type that reads no such struct raises no question. */
  lemma {:induction false} HoldsNot(e: Elem)
    ensures !Holds(e) ==> Compilable(e)
    decreases e, 1
  {
    match e
    case Ptr(y) => HoldsNot(y);
    case Slice(y) => HoldsNot(y);
    case Array(_, y) => HoldsNot(y);
    case Map(y) => HoldsNot(y);
    case Struct(fs, _) => FieldsHoldNot(fs);
    case _ =>
  }

  lemma {:induction false} FieldsHoldNot(fs: seq<Field>)
    ensures !HoldsAny(fs) ==> CompilableFields(fs)
    decreases fs, 0
  {
    hide Holds, Compilable, Opens;
    if fs != [] {
      HoldsNot(fs[0].elem);
      FieldsHoldNot(fs[1..]);
    }
  }

  /** A struct of one boolean, encoded as a map. */
  function OneFlag(): Elem { Struct([Field([0x61], Base(PBool, false, false))], false) }

  /** A slice of such structs and a struct, in either order. */
  function SliceFirst(): Elem { Struct([Field([], Slice(OneFlag())), Field([], OneFlag())], true) }

  function StructFirst(): Elem { Struct([Field([], OneFlag()), Field([], Slice(OneFlag()))], true) }

  /** A tuple of a slice of structs and a struct: the second loop is outside the scope of the
      first one's declaration. In the other order it is not, and all loops use their variables. */
  lemma LateStruct()
    ensures !Walk(SliceFirst(), Scope(false, false, true)).ok
    ensures Walk(StructFirst(), Scope(false, false, true)).ok && LoopVariables.LeavesInLoops(StructFirst(), true)
  {
    CompilesExactly(SliceFirst());
    CompilesExactly(StructFirst());
    hide Walk;
    var s, late := OneFlag(), SliceFirst().fields;
    assert HoldsAny(late[1..]) && Holds(s) && Opens(s) && Compilable(s);
    assert LoopVariables.HasLeaf(s.fields[0].elem) && LoopVariables.HasLeaf(s);
  }
}
