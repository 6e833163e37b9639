/** One walk of the inliner (gen/inline.go) through the tree of the type `name`. References are
    replaced in the tree itself, so that the type grows while it is walked. */
module InlineWalk {
  import opened Wire
  import opened TypeTree
  import opened Unfolding

  // ---- A place in a tree --------------------------------------------------------------------

  /** What surrounds a node in its parent. */
  datatype Frame =
    | InPtr
    | InSlice
    | InArray(size: nat)
    | InMap
    | InStruct(before: seq<Field>, tag: bytes, after: seq<Field>, asTuple: bool)

  /** The pointer `ref` of the walk: the place of a node in the tree, innermost frame first. */
  type Place = seq<Frame>

  function Fill(f: Frame, e: Elem): Elem {
    match f
    case InPtr => Ptr(e)
    case InSlice => Slice(e)
    case InArray(n) => Array(n, e)
    case InMap => Map(e)
    case InStruct(before, tag, after, tup) => Struct(before + [Field(tag, e)] + after, tup)
  }

  /** The whole tree with `e` at the place. */
  function Plug(k: Place, e: Elem): Elem
    decreases k
  {
    if k == [] then e else Plug(k[1..], Fill(k[0], e))
  }

  function FrameCost(f: Frame): (c: nat)
    ensures c >= 1
  {
    match f
    case InMap => 2
    case InStruct(before, _, after, _) => 1 + FieldsComplexity(before) + FieldsComplexity(after)
    case _ => 1
  }

  function Cost(k: Place): nat
    decreases k
  {
    if k == [] then 0 else FrameCost(k[0]) + Cost(k[1..])
  }

  lemma {:induction false} FieldsComplexityConcat(a: seq<Field>, b: seq<Field>)
    ensures FieldsComplexity(a + b) == FieldsComplexity(a) + FieldsComplexity(b)
    decreases a
  {
    hide Complexity;
    if a == [] {
      assert a + b == b;
    } else {
      assert (a + b)[1..] == a[1..] + b;
      FieldsComplexityConcat(a[1..], b);
    }
  }

  lemma FillComplexity(f: Frame, e: Elem)
    ensures Complexity(Fill(f, e)) == FrameCost(f) + Complexity(e)
  {
    if f.InStruct? {
      var mid := [Field(f.tag, e)];
      FieldsComplexityConcat(f.before + mid, f.after);
      FieldsComplexityConcat(f.before, mid);
      assert mid[1..] == [] && FieldsComplexity(mid) == Complexity(e);
    }
  }

  /** The complexity of a tree is that of the node and that of what surrounds it. */
  lemma {:induction false} PlugComplexity(k: Place, e: Elem)
    ensures Complexity(Plug(k, e)) == Cost(k) + Complexity(e)
    decreases k
  {
    hide Complexity, FrameCost, Fill;
    if k != [] {
      FillComplexity(k[0], e);
      PlugComplexity(k[1..], Fill(k[0], e));
    }
  }

  lemma FillUnfolds(env: Env, f: Frame, x: Elem, y: Elem)
    requires Unfolds(env, x, y)
    ensures Unfolds(env, Fill(f, x), Fill(f, y))
  {
    if f.InStruct? {
      var fs, gs := Fill(f, x).fields, Fill(f, y).fields;
      forall i | 0 <= i < |fs| ensures fs[i].tag == gs[i].tag && Unfolds(env, fs[i].elem, gs[i].elem) {
        if i != |f.before| { UnfoldsItself(env, fs[i].elem); }
      }
    }
  }

  lemma {:induction false} PlugUnfolds(env: Env, k: Place, x: Elem, y: Elem)
    requires Unfolds(env, x, y)
    ensures Unfolds(env, Plug(k, x), Plug(k, y))
    decreases k
  {
    hide Unfolds, Fill;
    if k != [] {
      FillUnfolds(env, k[0], x, y);
      PlugUnfolds(env, k[1..], Fill(k[0], x), Fill(k[0], y));
    }
  }

  ghost predicate FrameMentions(f: Frame, m: string) {
    f.InStruct? && (FieldsMention(f.before, m) || FieldsMention(f.after, m))
  }

  ghost predicate FieldsMention(fs: seq<Field>, m: string) {
    exists i :: 0 <= i < |fs| && Mentions(fs[i].elem, m)
  }

  ghost predicate PlaceMentions(k: Place, m: string)
    decreases k
  {
    k != [] && (FrameMentions(k[0], m) || PlaceMentions(k[1..], m))
  }

  lemma FillMentions(f: Frame, e: Elem, m: string)
    ensures Mentions(Fill(f, e), m) <==> FrameMentions(f, m) || Mentions(e, m)
  {
    if f.InStruct? {
      var fs, p := f.before + [Field(f.tag, e)] + f.after, |f.before|;
      assert fs[p].elem == e;
      assert forall i :: 0 <= i < p ==> fs[i] == f.before[i];
      assert forall i :: 0 <= i < |f.after| ==> fs[p + 1 + i] == f.after[i];
      if Mentions(Struct(fs, f.asTuple), m) {
        var i :| 0 <= i < |fs| && Mentions(fs[i].elem, m);
        if i > p { assert fs[i] == f.after[i - p - 1]; }
      }
    }
  }

  lemma {:induction false} PlugMentions(k: Place, e: Elem, m: string)
    ensures Mentions(Plug(k, e), m) <==> PlaceMentions(k, m) || Mentions(e, m)
    decreases k
  {
    hide Mentions, FrameMentions, Fill;
    if k != [] {
      FillMentions(k[0], e, m);
      PlugMentions(k[1..], Fill(k[0], e), m);
    }
  }

  // ---- The walk ----------------------------------------------------------------------------------

  /** `nextInline` on the node `ref` at the place `k` of the tree of `name`, with `root` being the
      type the node was copied from: what ends up at the place. The other types are as in
      `env`; the type `name` is the tree as it is now. `fuel` bounds how many inlinings may be
      under way at once; `None` says it was not enough. */
  function Next(env: Env, name: string, k: Place, ref: Elem, root: string, fuel: nat): Option<Elem>
    decreases fuel, ref, 1
  {
    match ref
    case Base(_, _, _) => Some(ref)
    case Ident(typ) =>
      if typ == root || typ !in env then Some(ref)
      else
        var node := if typ == name then Plug(k, ref) else env[typ];
        if Complexity(node) >= MAX_COMPLEX then Some(ref)
        else if fuel == 0 then None
        else Next(env, name, k, node, typ, fuel - 1)
    case Ptr(y) => Wrap(InPtr, Next(env, name, [InPtr] + k, y, root, fuel))
    case Slice(y) => Wrap(InSlice, Next(env, name, [InSlice] + k, y, root, fuel))
    case Array(n, y) => Wrap(InArray(n), Next(env, name, [InArray(n)] + k, y, root, fuel))
    case Map(y) => Wrap(InMap, Next(env, name, [InMap] + k, y, root, fuel))
    case Struct(fs, tup) =>
      var gs := NextFields(env, name, k, [], fs, tup, root, fuel);
      if gs.None? then None else Some(Struct(gs.value, tup))
  }

  function Wrap(f: Frame, r: Option<Elem>): Option<Elem> {
    if r.None? then None else Some(Fill(f, r.value))
  }

  /** The fields one after the other; those in `done` have been walked. */
  function NextFields(env: Env, name: string, k: Place, done: seq<Field>, todo: seq<Field>, tup: bool, root: string,
                      fuel: nat): Option<seq<Field>>
    decreases fuel, todo, 0
  {
    if todo == [] then Some(done)
    else
      var z := Next(env, name, [InStruct(done, todo[0].tag, todo[1..], tup)] + k, todo[0].elem, root, fuel);
      if z.None? then None
      else NextFields(env, name, k, done + [Field(todo[0].tag, z.value)], todo[1..], tup, root, fuel)
  }

  /** What `propInline` makes of one type: its children are walked. */
  function Process(env: Env, name: string, fuel: nat): Option<Elem>
    requires name in env
  {
    Next(env, name, [], env[name], name, fuel)
  }

  /** The tree while the field after `done` is walked. */
  lemma PlugField(k: Place, done: seq<Field>, todo: seq<Field>, tup: bool, e: Elem)
    requires todo != []
    ensures Plug([InStruct(done, todo[0].tag, todo[1..], tup)] + k, e)
         == Plug(k, Struct(done + ([Field(todo[0].tag, e)] + todo[1..]), tup))
  {
    var f := InStruct(done, todo[0].tag, todo[1..], tup);
    assert ([f] + k)[1..] == k;
    assert done + [Field(todo[0].tag, e)] + todo[1..] == done + ([Field(todo[0].tag, e)] + todo[1..]);
  }

  lemma PlugFrame(f: Frame, k: Place, e: Elem)
    ensures Plug([f] + k, e) == Plug(k, Fill(f, e)) && Cost([f] + k) == FrameCost(f) + Cost(k)
  {
    assert ([f] + k)[1..] == k;
  }

  /** The walk never makes a node simpler. */
  lemma {:induction false} NextGrows(env: Env, name: string, k: Place, ref: Elem, root: string, fuel: nat)
    requires Next(env, name, k, ref, root, fuel).Some?
    ensures Complexity(ref) <= Complexity(Next(env, name, k, ref, root, fuel).value)
    decreases fuel, ref, 1
  {
    hide Plug, FieldsComplexity;
    match ref
    case Base(_, _, _) =>
    case Ident(typ) =>
      if typ != root && typ in env {
        var node := if typ == name then Plug(k, ref) else env[typ];
        if Complexity(node) < MAX_COMPLEX {
          NextGrows(env, name, k, node, typ, fuel - 1);
          AtLeastOne(node);
        }
      }
    case Ptr(y) => NextGrows(env, name, [InPtr] + k, y, root, fuel);
    case Slice(y) => NextGrows(env, name, [InSlice] + k, y, root, fuel);
    case Array(n, y) => NextGrows(env, name, [InArray(n)] + k, y, root, fuel);
    case Map(y) => NextGrows(env, name, [InMap] + k, y, root, fuel);
    case Struct(fs, tup) =>
      FieldsNextGrow(env, name, k, [], fs, tup, root, fuel);
      assert [] + fs == fs;
  }

  lemma {:induction false} FieldsNextGrow(env: Env, name: string, k: Place, done: seq<Field>, todo: seq<Field>,
                                          tup: bool, root: string, fuel: nat)
    requires NextFields(env, name, k, done, todo, tup, root, fuel).Some?
    ensures FieldsComplexity(done + todo)
         <= FieldsComplexity(NextFields(env, name, k, done, todo, tup, root, fuel).value)
    decreases fuel, todo, 0
  {
    hide Next, Complexity;
    if todo == [] {
      assert done + todo == done;
    } else {
      var f := InStruct(done, todo[0].tag, todo[1..], tup);
      NextGrows(env, name, [f] + k, todo[0].elem, root, fuel);
      var z := Next(env, name, [f] + k, todo[0].elem, root, fuel).value;
      FieldsNextGrow(env, name, k, done + [Field(todo[0].tag, z)], todo[1..], tup, root, fuel);
      OneFieldGrows(done, todo[0], z, todo[1..]);
      assert done + todo == done + [todo[0]] + todo[1..];
    }
  }

  lemma OneFieldGrows(done: seq<Field>, f: Field, z: Elem, rest: seq<Field>)
    requires Complexity(f.elem) <= Complexity(z)
    ensures FieldsComplexity(done + [f] + rest) <= FieldsComplexity(done + [Field(f.tag, z)] + rest)
  {
    hide Complexity;
    FieldsComplexityConcat(done + [f], rest);
    FieldsComplexityConcat(done + [Field(f.tag, z)], rest);
    FieldsComplexityConcat(done, [f]);
    FieldsComplexityConcat(done, [Field(f.tag, z)]);
    OneField(f);
    OneField(Field(f.tag, z));
  }

  lemma OneField(f: Field)
    ensures FieldsComplexity([f]) == Complexity(f.elem)
  {
    assert [f][1..] == [];
  }

  // ---- What the walk leaves ----------------------------------------------------------------------

  /** The types are unfoldings of what they were in `base`. */
  ghost predicate Setting(base: Env, env: Env, name: string) {
    EnvUnfolds(base, env) && name in env
  }

  /** A node copied from another type mentions nothing that type does not. */
  ghost predicate Heir(env: Env, name: string, ref: Elem, root: string) {
    root == name || (root in env && forall m :: Mentions(ref, m) ==> Mentions(env[root], m))
  }

  /** A reference that is left is to `name` itself, or to a type of `env` that is too complex or
      refers to itself. */
  ghost predicate Left(env: Env, name: string, e: Elem)
    decreases e
  {
    match e
    case Base(_, _, _) => true
    case Ident(n) => n in env ==> n == name || Complexity(env[n]) >= MAX_COMPLEX || Mentions(env[n], n)
    case Ptr(y) => Left(env, name, y)
    case Slice(y) => Left(env, name, y)
    case Array(_, y) => Left(env, name, y)
    case Map(y) => Left(env, name, y)
    case Struct(fs, _) => forall i :: 0 <= i < |fs| ==> Left(env, name, fs[i].elem)
  }

  /** What is put at a place of the tree: an unfolding of what was there, in which nothing is
      left to inline, and which still refers to `name` if that did. */
  ghost predicate Sound(base: Env, env: Env, name: string, ref: Elem, out: Elem) {
    Unfolds(base, ref, out) && Left(env, name, out) && (Mentions(ref, name) ==> Mentions(out, name))
  }

  /** The tree of `name` stays an unfolding of what it was. */
  lemma StepUnfolds(base: Env, name: string, k: Place, x: Elem, y: Elem)
    requires name in base && Unfolds(base, base[name], Plug(k, x)) && Unfolds(base, x, y)
    ensures Unfolds(base, base[name], Plug(k, y))
  {
    hide Unfolds, Plug;
    PlugUnfolds(base, k, x, y);
    UnfoldsChain(base, base[name], Plug(k, x), Plug(k, y));
  }

  lemma {:induction false} NextSound(base: Env, env: Env, name: string, k: Place, ref: Elem, root: string, fuel: nat)
    requires Setting(base, env, name) && Unfolds(base, base[name], Plug(k, ref)) && Heir(env, name, ref, root)
    requires Next(env, name, k, ref, root, fuel).Some?
    ensures Sound(base, env, name, ref, Next(env, name, k, ref, root, fuel).value)
    decreases fuel, ref, 1
  {
    hide Sound, Plug, Complexity, Heir, Setting, Unfolds, NextFields;
    match ref
    case Base(_, _, _) => BaseSound(base, env, name, ref);
    case Ident(typ) => IdentSound(base, env, name, k, ref, root, fuel);
    case Ptr(y) => ChildSound(base, env, name, k, InPtr, y, root, fuel);
    case Slice(y) => ChildSound(base, env, name, k, InSlice, y, root, fuel);
    case Array(n, y) => ChildSound(base, env, name, k, InArray(n), y, root, fuel);
    case Map(y) => ChildSound(base, env, name, k, InMap, y, root, fuel);
    case Struct(fs, tup) => AllFieldsSound(base, env, name, k, fs, tup, root, fuel);
  }

  lemma AllFieldsSound(base: Env, env: Env, name: string, k: Place, fs: seq<Field>, tup: bool, root: string, fuel: nat)
    requires Setting(base, env, name) && Unfolds(base, base[name], Plug(k, Struct(fs, tup)))
    requires Heir(env, name, Struct(fs, tup), root) && NextFields(env, name, k, [], fs, tup, root, fuel).Some?
    ensures var gs := NextFields(env, name, k, [], fs, tup, root, fuel).value;
      Sound(base, env, name, Struct(fs, tup), Struct(gs, tup))
    decreases fuel, fs, 1
  {
    hide Sound, Plug, Heir, Setting, Unfolds, NextFields;
    FieldsHeirs(env, name, fs, tup, root);
    assert [] + fs == fs;
    NextFieldsSound(base, env, name, k, [], fs, tup, root, fuel);
    StructSound(base, env, name, fs, NextFields(env, name, k, [], fs, tup, root, fuel).value, tup);
  }

  lemma BaseSound(base: Env, env: Env, name: string, ref: Elem)
    requires ref.Base?
    ensures Sound(base, env, name, ref, ref)
  {
  }

  lemma IdentSound(base: Env, env: Env, name: string, k: Place, ref: Elem, root: string, fuel: nat)
    requires ref.Ident?
    requires Setting(base, env, name) && Unfolds(base, base[name], Plug(k, ref)) && Heir(env, name, ref, root)
    requires Next(env, name, k, ref, root, fuel).Some?
    ensures Sound(base, env, name, ref, Next(env, name, k, ref, root, fuel).value)
    decreases fuel, ref, 0
  {
    hide Plug, Complexity;
    var typ := ref.name;
    if typ != root && typ in env {
      var node := if typ == name then Plug(k, ref) else env[typ];
      if Complexity(node) < MAX_COMPLEX {
        PlugMentions(k, ref, name);
        StepUnfolds(base, name, k, ref, node);
        NextSound(base, env, name, k, node, typ, fuel - 1);
        var out := Next(env, name, k, node, typ, fuel - 1).value;
        UnfoldsChain(base, base[typ], node, out);
      }
    }
  }

  lemma ChildSound(base: Env, env: Env, name: string, k: Place, f: Frame, y: Elem, root: string, fuel: nat)
    requires !f.InStruct?
    requires Setting(base, env, name) && Unfolds(base, base[name], Plug(k, Fill(f, y)))
      && Heir(env, name, Fill(f, y), root)
    requires Next(env, name, [f] + k, y, root, fuel).Some?
    ensures Sound(base, env, name, Fill(f, y), Fill(f, Next(env, name, [f] + k, y, root, fuel).value))
    decreases fuel, y, 2
  {
    hide Next, Setting, Plug;
    PlugFrame(f, k, y);
    NextSound(base, env, name, [f] + k, y, root, fuel);
  }

  lemma FieldsHeirs(env: Env, name: string, fs: seq<Field>, tup: bool, root: string)
    requires Heir(env, name, Struct(fs, tup), root)
    ensures forall i :: 0 <= i < |fs| ==> Heir(env, name, fs[i].elem, root)
  {
    forall i, m | 0 <= i < |fs| && Mentions(fs[i].elem, m) ensures Mentions(Struct(fs, tup), m) { }
  }

  lemma StructSound(base: Env, env: Env, name: string, fs: seq<Field>, gs: seq<Field>, tup: bool)
    requires |gs| == |fs|
    requires forall i :: 0 <= i < |fs| ==> gs[i].tag == fs[i].tag && Sound(base, env, name, fs[i].elem, gs[i].elem)
    ensures Sound(base, env, name, Struct(fs, tup), Struct(gs, tup))
  {
    if Mentions(Struct(fs, tup), name) {
      var i :| 0 <= i < |fs| && Mentions(fs[i].elem, name);
      assert Mentions(gs[i].elem, name);
    }
  }

  lemma {:induction false} NextFieldsSound(base: Env, env: Env, name: string, k: Place, done: seq<Field>,
                                           todo: seq<Field>,
                                           tup: bool, root: string, fuel: nat)
    requires Setting(base, env, name) && Unfolds(base, base[name], Plug(k, Struct(done + todo, tup)))
    requires forall i :: 0 <= i < |todo| ==> Heir(env, name, todo[i].elem, root)
    requires NextFields(env, name, k, done, todo, tup, root, fuel).Some?
    ensures var gs := NextFields(env, name, k, done, todo, tup, root, fuel).value;
      && |gs| == |done| + |todo| && gs[..|done|] == done
      && forall i :: 0 <= i < |todo| ==>
           gs[|done| + i].tag == todo[i].tag && Sound(base, env, name, todo[i].elem, gs[|done| + i].elem)
    decreases fuel, todo, 0
  {
    hide Sound, Plug, Next, Heir, Setting, Unfolds;
    if todo != [] {
      var f := InStruct(done, todo[0].tag, todo[1..], tup);
      PlugField(k, done, todo, tup, todo[0].elem);
      assert [Field(todo[0].tag, todo[0].elem)] + todo[1..] == todo;
      NextSound(base, env, name, [f] + k, todo[0].elem, root, fuel);
      var z := Next(env, name, [f] + k, todo[0].elem, root, fuel).value;
      var done' := done + [Field(todo[0].tag, z)];
      SoundUnfolds(base, env, name, todo[0].elem, z);
      SettingHas(base, env, name);
      StepUnfolds(base, name, [f] + k, todo[0].elem, z);
      PlugField(k, done, todo, tup, z);
      assert done + ([Field(todo[0].tag, z)] + todo[1..]) == done' + todo[1..];
      NextFieldsSound(base, env, name, k, done', todo[1..], tup, root, fuel);
      var gs := NextFields(env, name, k, done', todo[1..], tup, root, fuel).value;
      assert gs[|done|] == gs[..|done'|][|done|] && gs[..|done|] == gs[..|done'|][..|done|];
      assert forall i :: 0 < i < |todo| ==> todo[i] == todo[1..][i - 1] && gs[|done| + i] == gs[|done'| + (i - 1)];
    }
  }

  lemma SoundUnfolds(base: Env, env: Env, name: string, ref: Elem, out: Elem)
    requires Sound(base, env, name, ref, out)
    ensures Unfolds(base, ref, out)
  {
  }

  lemma SettingHas(base: Env, env: Env, name: string)
    requires Setting(base, env, name)
    ensures name in base
  {
  }
}
