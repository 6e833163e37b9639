/** Whole runs of the inliner (gen/inline.go) over the types of a file, in any order. */
module InlineRuns {
  import opened Wire
  import opened TypeTree
  import opened Unfolding
  import opened InlineWalk
  import opened InlineTermination

  // ---- A type that meets itself outgrows the limit ------------------------------------------

  /** The walk is about to follow `z` to a type that mentions `name`. */
  ghost predicate Returning(env: Env, name: string, k: Place, ref: Elem, root: string, z: seq<string>) {
    && name in env && NoBareNames(env) && Trail(env, root, z) && name !in z
    && End(root, z) != name && End(root, z) in env && Mentions(env[End(root, z)], name)
    && Mentions(ref, if z == [] then name else z[0])
    && (ref.Ident? ==> Cost(k) >= if root == name then 1 else 2)
    && (root != name ==> Cost(k) >= 1)
  }

  /** When a walk comes back to the type it started from, that type is too complex in the end. */
  lemma {:induction false} MeetsItself(env: Env, name: string, k: Place, ref: Elem, root: string, z: seq<string>,
                                       fuel: nat)
    requires Returning(env, name, k, ref, root, z) && Next(env, name, k, ref, root, fuel).Some?
    ensures Complexity(Plug(k, Next(env, name, k, ref, root, fuel).value)) >= MAX_COMPLEX
    decreases fuel, ref, 1
  {
    hide Returning, Plug, Complexity, Mentions, Trail, Cost;
    match ref
    case Base(_, _, _) => NotBase(env, name, k, ref, root, z);
    case Ident(typ) => IdentMeetsItself(env, name, k, ref, root, z, fuel);
    case Ptr(y) => ChildMeetsItself(env, name, k, InPtr, y, root, z, fuel);
    case Slice(y) => ChildMeetsItself(env, name, k, InSlice, y, root, z, fuel);
    case Array(n, y) => ChildMeetsItself(env, name, k, InArray(n), y, root, z, fuel);
    case Map(y) => ChildMeetsItself(env, name, k, InMap, y, root, z, fuel);
    case Struct(fs, tup) =>
      var i := FieldReturning(env, name, k, fs, tup, root, z);
      NextFieldsMeetItself(env, name, k, [], fs, tup, root, z, fuel, i);
  }

  lemma NotBase(env: Env, name: string, k: Place, ref: Elem, root: string, z: seq<string>)
    requires Returning(env, name, k, ref, root, z)
    ensures !ref.Base?
  {
  }

  lemma IdentMeetsItself(env: Env, name: string, k: Place, ref: Elem, root: string, z: seq<string>, fuel: nat)
    requires ref.Ident?
    requires Returning(env, name, k, ref, root, z) && Next(env, name, k, ref, root, fuel).Some?
    ensures Complexity(Plug(k, Next(env, name, k, ref, root, fuel).value)) >= MAX_COMPLEX
    decreases fuel, ref, 0
  {
    hide Plug, Complexity, Cost;
    if z == [] {
      var node := Plug(k, ref);
      PlugComplexity(k, ref);
      AtLeastOne(ref);
      if Complexity(node) < MAX_COMPLEX {
        var out := Next(env, name, k, node, name, fuel - 1);
        NextGrows(env, name, k, node, name, fuel - 1);
        PlugComplexity(k, out.value);
      }
    } else {
      var typ := z[0];
      assert Small(env, typ) && typ != root && typ == ref.name;
      assert End(typ, z[1..]) == End(root, z) && name !in z[1..];
      assert Trail(env, typ, z[1..]) && (z[1..] != [] ==> Edge(env, typ, z[1..][0]));
      MeetsItself(env, name, k, env[typ], typ, z[1..], fuel - 1);
    }
  }

  lemma ChildMeetsItself(env: Env, name: string, k: Place, f: Frame, y: Elem, root: string, z: seq<string>, fuel: nat)
    requires !f.InStruct?
    requires Returning(env, name, k, Fill(f, y), root, z) && Next(env, name, [f] + k, y, root, fuel).Some?
    ensures Complexity(Plug(k, Fill(f, Next(env, name, [f] + k, y, root, fuel).value))) >= MAX_COMPLEX
    decreases fuel, y, 2
  {
    hide Plug, Complexity, Trail, Next;
    PlugFrame(f, k, y);
    MeetsItself(env, name, [f] + k, y, root, z, fuel);
    PlugFrame(f, k, Next(env, name, [f] + k, y, root, fuel).value);
  }

  lemma FieldReturning(env: Env, name: string, k: Place, fs: seq<Field>, tup: bool, root: string, z: seq<string>)
    returns (i: nat)
    requires Returning(env, name, k, Struct(fs, tup), root, z)
    ensures i < |fs| && forall f: Frame :: Returning(env, name, [f] + k, fs[i].elem, root, z)
  {
    hide Trail;
    var m := if z == [] then name else z[0];
    i :| 0 <= i < |fs| && Mentions(fs[i].elem, m);
    forall f: Frame ensures Returning(env, name, [f] + k, fs[i].elem, root, z) { PlugFrame(f, k, fs[i].elem); }
  }

  lemma {:induction false} NextFieldsMeetItself(env: Env, name: string, k: Place, done: seq<Field>, todo: seq<Field>,
                                                tup: bool, root: string, z: seq<string>, fuel: nat, i: nat)
    requires i < |todo| && forall f: Frame :: Returning(env, name, [f] + k, todo[i].elem, root, z)
    requires NextFields(env, name, k, done, todo, tup, root, fuel).Some?
    ensures Complexity(Plug(k, Struct(NextFields(env, name, k, done, todo, tup, root, fuel).value, tup))) >= MAX_COMPLEX
    decreases fuel, todo, 0
  {
    hide Returning, Plug, Complexity, Next;
    var f := InStruct(done, todo[0].tag, todo[1..], tup);
    var out := Next(env, name, [f] + k, todo[0].elem, root, fuel).value;
    var done' := done + [Field(todo[0].tag, out)];
    if i == 0 {
      MeetsItself(env, name, [f] + k, todo[0].elem, root, z, fuel);
      PlugField(k, done, todo, tup, out);
      assert done + ([Field(todo[0].tag, out)] + todo[1..]) == done' + todo[1..];
      FieldsNextGrow(env, name, k, done', todo[1..], tup, root, fuel);
      var gs := NextFields(env, name, k, done', todo[1..], tup, root, fuel).value;
      PlugComplexity(k, Struct(done' + todo[1..], tup));
      PlugComplexity(k, Struct(gs, tup));
      StructComplexity(done' + todo[1..], tup);
      StructComplexity(gs, tup);
    } else {
      NextFieldsMeetItself(env, name, k, done', todo[1..], tup, root, z, fuel, i - 1);
    }
  }

  lemma StructComplexity(fs: seq<Field>, tup: bool)
    ensures Complexity(Struct(fs, tup)) == 1 + FieldsComplexity(fs)
  {
  }

  /** A type on a cycle of small types is too complex once it has been walked. */
  lemma CycleOutgrows(env: Env, name: string, z: seq<string>, fuel: nat)
    requires name in env && NoBareNames(env) && z != [] && Trail(env, name, z) && name !in z
    requires End(name, z) in env && Mentions(env[End(name, z)], name) && Process(env, name, fuel).Some?
    ensures Complexity(Process(env, name, fuel).value) >= MAX_COMPLEX
  {
    hide Next, Complexity;
    MeetsItself(env, name, [], env[name], name, z, fuel);
  }

  // ---- Walking one type opens no cycle to another ------------------------------------------------

  /** The type `p` has been walked: its tree is `out`. */
  ghost predicate Walked(env: Env, p: string, out: Elem) {
    && p in env && Known(env, p, out) && Complexity(env[p]) <= Complexity(out)
  }

  /** References after the walk stand for trails before it. */
  lemma EdgeBefore(env: Env, p: string, out: Elem, a: string, b: string) returns (us: seq<string>)
    requires Walked(env, p, out) && Edge(env[p := out], a, b)
    ensures us != [] && Trail(env, a, us) && End(a, us) == b && (a != p ==> us == [b])
  {
    hide Complexity, Mentions;
    if a == p {
      var ts :| OriginVia(env, p, b, ts);
      if End(p, ts) == b {
        us := ts;
      } else {
        us := ts + [b];
        assert [b][1..] == [] && Trail(env, End(p, ts), [b]);
        TrailConcat(env, p, ts, [b]);
      }
    } else {
      us := [b];
      assert [b][1..] == [];
    }
  }

  lemma {:induction false} TrailBefore(env: Env, p: string, out: Elem, a: string, ts: seq<string>)
    returns (us: seq<string>)
    requires Walked(env, p, out) && Trail(env[p := out], a, ts)
    ensures Trail(env, a, us) && End(a, us) == End(a, ts) && (ts != [] ==> us != [])
    ensures a != p && p !in ts ==> us == ts
    decreases ts
  {
    hide Walked, Edge;
    if ts == [] {
      us := [];
    } else {
      var first := EdgeBefore(env, p, out, a, ts[0]);
      var rest := TrailBefore(env, p, out, ts[0], ts[1..]);
      TrailConcat(env, a, first, rest);
      us := first + rest;
      assert ts == [ts[0]] + ts[1..];
    }
  }

  /** A closed trail, up to where it first comes back. */
  lemma {:induction false} FirstReturn(env: Env, p: string, a: string, q: seq<string>) returns (z: seq<string>)
    requires Trail(env, a, q) && q != [] && End(a, q) == p
    ensures Trail(env, a, z) && p !in z && End(a, z) in env && Mentions(env[End(a, z)], p) && End(a, z) != p
    decreases q
  {
    hide Mentions;
    if q[0] == p {
      z := [];
    } else {
      var y := FirstReturn(env, p, q[0], q[1..]);
      z := [q[0]] + y;
      assert z[1..] == y;
    }
  }

  /** A trail, from where it last comes by its start. */
  lemma {:induction false} LastLeave(env: Env, m: string, us: seq<string>) returns (lead: seq<string>)
    requires Trail(env, m, us) && End(m, us) != m
    ensures Trail(env, m, lead) && End(m, lead) == End(m, us) && m !in lead
    decreases |us|
  {
    hide Trail;
    if m in us {
      var i :| 0 <= i < |us| && us[i] == m;
      TrailSplit(env, m, us, i + 1);
      lead := LastLeave(env, m, us[i + 1..]);
    } else {
      lead := us;
    }
  }

  lemma NoCycleThrough(env: Env, p: string, out: Elem, v: string, c: seq<string>, fuel: nat)
    requires NoBareNames(env) && Walked(env, p, out) && Process(env, p, fuel) == Some(out)
    requires Trail(env[p := out], v, c) && End(v, c) == v
    ensures p !in c
  {
    hide Walked, Process, Complexity, Mentions, Trail;
    if p in c {
      var i :| 0 <= i < |c| && c[i] == p;
      var env' := env[p := out];
      TrailSplit(env', v, c, i + 1);
      var before, after := c[..i + 1], c[i + 1..];
      assert End(v, before) == p && End(p, after) == v;
      TrailConcat(env', p, after, before);
      var q := TrailBefore(env, p, out, p, after + before);
      var z := FirstReturn(env, p, p, q);
      assert z != [];
      WalkedIn(env, p, out);
      CycleOutgrows(env, p, z, fuel);
      TrailWithin(env', v, c);
    }
  }

  lemma WalkedIn(env: Env, p: string, out: Elem)
    requires Walked(env, p, out)
    ensures p in env
  {
  }

  lemma StillSafe(env: Env, p: string, out: Elem, m: string, fuel: nat)
    requires NoBareNames(env) && Walked(env, p, out) && Process(env, p, fuel) == Some(out)
    requires m != p && !Looping(env, m)
    ensures !Looping(env[p := out], m)
  {
    hide Looping;
    var env' := env[p := out];
    if Looping(env', m) {
      LoopBefore(env, p, out, m, fuel);
    }
  }

  lemma LoopBefore(env: Env, p: string, out: Elem, m: string, fuel: nat)
    requires NoBareNames(env) && Walked(env, p, out) && Process(env, p, fuel) == Some(out)
    requires m != p && Looping(env[p := out], m)
    ensures Looping(env, m)
  {
    hide Walked, Process, Trail;
    var env' := env[p := out];
    var lead, c :| LoopAt(env', m, lead, c);
    var v := End(m, lead);
    assert c[|c| - 1] == v;
    NoCycleThrough(env, p, out, v, c, fuel);
    var same := TrailBefore(env, p, out, v, c);
    var us := TrailBefore(env, p, out, m, lead);
    var lead' := LastLeave(env, m, us);
    assert LoopAt(env, m, lead', c);
  }
}
