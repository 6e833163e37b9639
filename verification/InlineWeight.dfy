/** Which references the inliner (gen/inline.go) replaces, in numbers: those to types of at most
    four nodes, where a map and a converted primitive (gen/elem.go) count as two. */
module InlineWeight {
  import opened Wire
  import opened TypeTree
  import opened Unfolding
  import opened InlineWalk

  // ---- Counting nodes ------------------------------------------------------------------------------

  datatype Kind = AnyNode | MapNode | ConvertedNode

  predicate IsA(e: Elem, kind: Kind) {
    match kind
    case AnyNode => true
    case MapNode => e.Map?
    case ConvertedNode => e.Base? && e.convert && !e.mustinline
  }

  /** The nodes of the kind in the tree. */
  function Nodes(e: Elem, kind: Kind): nat
    decreases e, 1
  {
    (if IsA(e, kind) then 1 else 0) +
    match e
    case Base(_, _, _) => 0
    case Ident(_) => 0
    case Ptr(y) => Nodes(y, kind)
    case Slice(y) => Nodes(y, kind)
    case Array(_, y) => Nodes(y, kind)
    case Map(y) => Nodes(y, kind)
    case Struct(fs, _) => FieldNodes(fs, kind)
  }

  function FieldNodes(fs: seq<Field>, kind: Kind): nat
    decreases fs, 0
  {
    if fs == [] then 0 else Nodes(fs[0].elem, kind) + FieldNodes(fs[1..], kind)
  }

  function Weight(e: Elem): nat { Nodes(e, AnyNode) + Nodes(e, MapNode) + Nodes(e, ConvertedNode) }

  lemma {:induction false} ComplexityIsWeight(e: Elem)
    ensures Complexity(e) == Weight(e)
    decreases e, 1
  {
    match e
    case Ptr(y) => ComplexityIsWeight(y);
    case Slice(y) => ComplexityIsWeight(y);
    case Array(_, y) => ComplexityIsWeight(y);
    case Map(y) => ComplexityIsWeight(y);
    case Struct(fs, _) => FieldsAddUp(fs);
    case _ =>
  }

  lemma {:induction false} FieldsAddUp(fs: seq<Field>)
    ensures FieldsComplexity(fs) == FieldNodes(fs, AnyNode) + FieldNodes(fs, MapNode) + FieldNodes(fs, ConvertedNode)
    decreases fs, 0
  {
    hide Complexity, Nodes;
    if fs != [] {
      ComplexityIsWeight(fs[0].elem);
      FieldsAddUp(fs[1..]);
    }
  }

  // ---- Which references are replaced -----------------------------------------------------------------

  /** The type `typ` as the walk of `name` finds it. */
  function Target(env: Env, name: string, k: Place, typ: string): Elem
    requires typ in env
  {
    if typ == name then Plug(k, Ident(typ)) else env[typ]
  }

  /** A reference is replaced exactly if it is not to the type it stands in and the type it
      names has a weight of at most four; the walk then goes on in the copy. */
  lemma ReplacedExactly(env: Env, name: string, k: Place, typ: string, root: string, fuel: nat)
    ensures Next(env, name, k, Ident(typ), root, fuel + 1) ==
      if typ in env && typ != root && Weight(Target(env, name, k, typ)) <= 4
      then Next(env, name, k, Target(env, name, k, typ), typ, fuel) else Some(Ident(typ))
  {
    hide Plug, Complexity, Weight;
    if typ in env { ComplexityIsWeight(Target(env, name, k, typ)); }
  }

  /** Nothing is left to inline exactly if every type referred to weighs five or more or refers
      to itself. */
  lemma {:induction false} SettledExactly(env: Env, e: Elem)
    ensures Settled(env, e) <==>
      forall m :: Mentions(e, m) && m in env ==> Weight(env[m]) >= 5 || Mentions(env[m], m)
    decreases e
  {
    hide Complexity, Weight;
    match e
    case Base(_, _, _) =>
    case Ident(n) => if n in env { ComplexityIsWeight(env[n]); }
    case Ptr(y) => SettledExactly(env, y);
    case Slice(y) => SettledExactly(env, y);
    case Array(_, y) => SettledExactly(env, y);
    case Map(y) => SettledExactly(env, y);
    case Struct(fs, _) =>
      forall i | 0 <= i < |fs| ensures Settled(env, fs[i].elem) <==>
        forall m :: Mentions(fs[i].elem, m) && m in env ==> Weight(env[m]) >= 5 || Mentions(env[m], m)
      {
        SettledExactly(env, fs[i].elem);
      }
      StructSettled(env, fs, e);
  }

  /** For all types of a file. */
  lemma AllSettledExactly(env: Env)
    ensures AllSettled(env) <==>
      forall n, m :: n in env && m in env && Mentions(env[n], m) ==> Weight(env[m]) >= 5 || Mentions(env[m], m)
  {
    hide Settled, Weight, Mentions;
    forall n | n in env ensures Settled(env, env[n]) <==>
      forall m :: Mentions(env[n], m) && m in env ==> Weight(env[m]) >= 5 || Mentions(env[m], m)
    {
      SettledExactly(env, env[n]);
    }
  }

  lemma StructSettled(env: Env, fs: seq<Field>, e: Elem)
    requires e.Struct? && e.fields == fs
    requires forall i :: 0 <= i < |fs| ==> (Settled(env, fs[i].elem) <==>
      forall m :: Mentions(fs[i].elem, m) && m in env ==> Weight(env[m]) >= 5 || Mentions(env[m], m))
    ensures Settled(env, e) <==>
      forall m :: Mentions(e, m) && m in env ==> Weight(env[m]) >= 5 || Mentions(env[m], m)
  {
    hide Weight, Complexity;
    if Settled(env, e) {
      forall m | Mentions(e, m) && m in env ensures Weight(env[m]) >= 5 || Mentions(env[m], m) {
        var i :| 0 <= i < |fs| && Mentions(fs[i].elem, m);
      }
    } else {
      var i :| 0 <= i < |fs| && !Settled(env, fs[i].elem);
      var m :| Mentions(fs[i].elem, m) && m in env && Weight(env[m]) < 5 && !Mentions(env[m], m);
      assert Mentions(e, m);
    }
  }

  // ---- Structs of primitives -------------------------------------------------------------------------

  predicate IsPlain(e: Elem) { e.Base? && (!e.convert || e.mustinline) }

  predicate IsPlainMap(e: Elem) { e.Map? && IsPlain(e.value) }

  /** `p` plain primitives, `c` converted ones and `m` maps of plain ones. */
  predicate Flat(fs: seq<Field>, p: nat, c: nat, m: nat) {
    if fs == [] then p == 0 && c == 0 && m == 0
    else if IsPlain(fs[0].elem) then p > 0 && Flat(fs[1..], p - 1, c, m)
    else if IsA(fs[0].elem, ConvertedNode) then c > 0 && Flat(fs[1..], p, c - 1, m)
    else IsPlainMap(fs[0].elem) && m > 0 && Flat(fs[1..], p, c, m - 1)
  }

  lemma {:induction false} FlatWeight(fs: seq<Field>, p: nat, c: nat, m: nat)
    requires Flat(fs, p, c, m)
    ensures FieldsComplexity(fs) == p + 2 * c + 3 * m
  {
    if fs != [] {
      if IsPlain(fs[0].elem) {
        FlatWeight(fs[1..], p - 1, c, m);
      } else if IsA(fs[0].elem, ConvertedNode) {
        FlatWeight(fs[1..], p, c - 1, m);
      } else {
        assert Complexity(fs[0].elem) == 2 + Complexity(fs[0].elem.value);
        FlatWeight(fs[1..], p, c, m - 1);
      }
    }
  }

  /** A flat struct is inlined as a whole as long as its plain primitives, twice its converted
      ones and three times its maps come to at most three; and never otherwise. */
  lemma FlatStructs(env: Env, name: string, k: Place, typ: string, root: string, fuel: nat, p: nat, c: nat, m: nat)
    requires typ in env && typ != root && typ != name && env[typ].Struct? && Flat(env[typ].fields, p, c, m)
    ensures Next(env, name, k, Ident(typ), root, fuel + 1)
         == Some(if p + 2 * c + 3 * m <= 3 then env[typ] else Ident(typ))
  {
    hide Plug, FieldsComplexity, Flat, NextFields;
    var s := env[typ];
    FlatWeight(s.fields, p, c, m);
    FlatStays(env, name, k, [], s.fields, s.asTuple, typ, fuel, p, c, m);
    assert [] + s.fields == s.fields;
  }

  lemma {:induction false} FlatStays(env: Env, name: string, k: Place, done: seq<Field>, todo: seq<Field>, tup: bool,
                                     root: string, fuel: nat, p: nat, c: nat, m: nat)
    requires Flat(todo, p, c, m)
    ensures NextFields(env, name, k, done, todo, tup, root, fuel) == Some(done + todo)
    decreases todo
  {
    if todo == [] {
      assert done + todo == done;
    } else {
      var x := todo[0].elem;
      FieldStays(env, name, [InStruct(done, todo[0].tag, todo[1..], tup)] + k, x, root, fuel);
      var p' := if IsPlain(x) then p - 1 else p;
      var c' := if !IsPlain(x) && IsA(x, ConvertedNode) then c - 1 else c;
      var m' := if IsPlainMap(x) then m - 1 else m;
      hide Next;
      assert Field(todo[0].tag, x) == todo[0];
      FlatStays(env, name, k, done + [todo[0]], todo[1..], tup, root, fuel, p', c', m');
      assert done + [todo[0]] + todo[1..] == done + todo;
    }
  }

  lemma FieldStays(env: Env, name: string, k: Place, e: Elem, root: string, fuel: nat)
    requires e.Base? || IsPlainMap(e)
    ensures Next(env, name, k, e, root, fuel) == Some(e)
  {
  }
}
