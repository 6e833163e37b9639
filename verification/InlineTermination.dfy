/** When the walks of the inliner (gen/inline.go) end: exactly when no type reaches, through
    types that are small, a cycle of small types that it is not itself part of. */
module InlineTermination {
  import opened TypeTree
  import opened Unfolding
  import opened InlineWalk

  // ---- References from small type to small type -------------------------------------------

  ghost predicate Small(env: Env, n: string) {
    n in env && Complexity(env[n]) < MAX_COMPLEX
  }

  /** Under the type `a`, a reference to `b` is inlined. */
  ghost predicate Edge(env: Env, a: string, b: string) {
    a in env && Small(env, b) && a != b && Mentions(env[a], b)
  }

  ghost predicate Trail(env: Env, a: string, ts: seq<string>)
    decreases ts
  {
    ts != [] ==> Edge(env, a, ts[0]) && Trail(env, ts[0], ts[1..])
  }

  function End(a: string, ts: seq<string>): string { if ts == [] then a else ts[|ts| - 1] }

  /** `lead` leads from `name` to a type on the cycle `c`; neither comes by `name`. */
  ghost predicate LoopAt(env: Env, name: string, lead: seq<string>, c: seq<string>) {
    && lead != [] && Trail(env, name, lead) && name !in lead
    && c != [] && Trail(env, End(name, lead), c) && name !in c && End(name, lead) == End(name, c)
  }

  /** Through small types, `name` reaches a cycle of two or more of them that avoids it. */
  ghost predicate Looping(env: Env, name: string) {
    exists lead, c :: LoopAt(env, name, lead, c)
  }

  lemma {:induction false} TrailConcat(env: Env, a: string, ts: seq<string>, us: seq<string>)
    ensures Trail(env, a, ts + us) <==> Trail(env, a, ts) && Trail(env, End(a, ts), us)
    decreases ts
  {
    hide Edge;
    if ts == [] {
      assert ts + us == us;
    } else {
      assert (ts + us)[1..] == ts[1..] + us;
      TrailConcat(env, ts[0], ts[1..], us);
    }
  }

  lemma TrailSplit(env: Env, a: string, ts: seq<string>, i: nat)
    requires Trail(env, a, ts) && i <= |ts|
    ensures Trail(env, a, ts[..i]) && Trail(env, End(a, ts[..i]), ts[i..])
  {
    assert ts == ts[..i] + ts[i..];
    TrailConcat(env, a, ts[..i], ts[i..]);
  }

  lemma {:induction false} TrailWithin(env: Env, a: string, ts: seq<string>)
    requires Trail(env, a, ts)
    ensures forall t :: t in ts ==> Small(env, t)
    decreases ts
  {
    hide Small;
    if ts != [] {
      TrailWithin(env, ts[0], ts[1..]);
      assert ts == [ts[0]] + ts[1..];
      assert Edge(env, a, ts[0]) && Small(env, ts[0]);
    }
  }

  lemma {:induction false} DistinctWithin(ts: seq<string>, s: set<string>)
    requires (forall t :: t in ts ==> t in s) && forall i, j :: 0 <= i < j < |ts| ==> ts[i] != ts[j]
    ensures |ts| <= |s|
    decreases ts
  {
    if ts != [] {
      var last := ts[|ts| - 1];
      DistinctWithin(ts[..|ts| - 1], s - {last});
    }
  }

  /** Without such a cycle, trails that avoid `name` are no longer than there are types. */
  lemma TrailsBounded(env: Env, name: string, ts: seq<string>)
    requires !Looping(env, name) && Trail(env, name, ts) && name !in ts
    ensures |ts| <= |env.Keys|
  {
    TrailWithin(env, name, ts);
    forall i, j | 0 <= i < j < |ts| ensures ts[i] != ts[j] {
      if ts[i] == ts[j] { Returns(env, name, ts, i, j); }
    }
    DistinctWithin(ts, env.Keys);
  }

  lemma Returns(env: Env, name: string, ts: seq<string>, i: nat, j: nat)
    requires Trail(env, name, ts) && name !in ts && i < j < |ts| && ts[i] == ts[j]
    ensures Looping(env, name)
  {
    hide Trail;
    TrailSplit(env, name, ts, j + 1);
    var us := ts[..j + 1];
    TrailSplit(env, name, us, i + 1);
    var lead, c := us[..i + 1], us[i + 1..];
    Pieces(ts, i, j);
    hide Looping;
    assert End(name, lead) == End(name, c) == ts[i];
    LoopFound(env, name, lead, c);
  }

  lemma LoopFound(env: Env, name: string, lead: seq<string>, c: seq<string>)
    requires LoopAt(env, name, lead, c)
    ensures Looping(env, name)
  {
  }

  lemma Pieces(ts: seq<string>, i: nat, j: nat)
    requires i < j < |ts|
    ensures var lead, c := ts[..j + 1][..i + 1], ts[..j + 1][i + 1..];
      && lead != [] && c != [] && lead[|lead| - 1] == ts[i] && c[|c| - 1] == ts[j]
      && (forall t :: t in lead ==> t in ts) && forall t :: t in c ==> t in ts
  {
  }

  // ---- It ends -------------------------------------------------------------------------------------

  /** A trail that avoids `name` leads to a type that mentions `m`. */
  ghost predicate Origin(env: Env, name: string, m: string) {
    exists ts :: OriginVia(env, name, m, ts)
  }

  ghost predicate OriginVia(env: Env, name: string, m: string, ts: seq<string>) {
    Trail(env, name, ts) && name !in ts && End(name, ts) in env && Mentions(env[End(name, ts)], m)
  }

  ghost predicate Known(env: Env, name: string, e: Elem) {
    forall m :: Mentions(e, m) ==> Origin(env, name, m)
  }

  /** How many inlinings may still be under way at once: one through `name` itself if the type
      is still small, and along a trail otherwise. */
  function Budget(env: Env, w: nat, ts: seq<string>): int {
    (if w < MAX_COMPLEX then |env.Keys| + 2 else 0) + if ts == [] then |env.Keys| + 1 else |env.Keys| - |ts|
  }

  /** The walk is at a node of the type `root`, to which `ts` has led. */
  ghost predicate Under(env: Env, name: string, k: Place, e: Elem, root: string, ts: seq<string>) {
    && name in env && Trail(env, name, ts) && name !in ts && root == End(name, ts)
    && (forall n :: n in env ==> !env[n].Ident?)
    && Heir(env, name, e, root)
    && (e.Ident? ==> Cost(k) >= if ts == [] then 1 else 2)
    && (ts != [] ==> Cost(k) >= 1)
  }

  lemma NamesAreSimple(e: Elem)
    requires e.Ident?
    ensures Complexity(e) == 1
  {
  }

  lemma EmptyTrail(env: Env, a: string)
    ensures Trail(env, a, [])
  {
  }

  /** A reference under `root` to another small type: a trail leads on to it. */
  lemma LeadsOn(env: Env, name: string, m: string, root: string, ts: seq<string>) returns (us: seq<string>)
    requires name in env && Trail(env, name, ts) && name !in ts && root == End(name, ts)
    requires Small(env, m) && m != name && m != root
    requires if ts == [] then Origin(env, name, m) else root in env && Mentions(env[root], m)
    ensures us != [] && Trail(env, name, us) && name !in us && End(name, us) == m
    ensures ts != [] ==> us == ts + [m]
  {
    hide Small, Mentions;
    var vs := ts;
    if ts == [] {
      vs :| OriginVia(env, name, m, vs);
    }
    if End(name, vs) == m {
      us := vs;
    } else {
      us := vs + [m];
      assert [m][1..] == [] && Trail(env, End(name, vs), [m]);
      TrailConcat(env, name, vs, [m]);
    }
  }

  lemma RefOrigin(env: Env, name: string, k: Place, m: string)
    requires Known(env, name, Plug(k, Ident(m)))
    ensures Origin(env, name, m)
  {
    hide Plug, Origin;
    PlugMentions(k, Ident(m), m);
  }

  /** A type a trail leads to takes the place of a reference. */
  lemma TypeKnown(env: Env, name: string, k: Place, ref: Elem, us: seq<string>)
    requires Known(env, name, Plug(k, ref)) && Trail(env, name, us) && name !in us && End(name, us) in env
    ensures Known(env, name, Plug(k, env[End(name, us)]))
  {
    hide Plug, Trail, Mentions;
    var node := env[End(name, us)];
    forall m | Mentions(Plug(k, node), m) ensures Origin(env, name, m) {
      PlugMentions(k, node, m);
      PlugMentions(k, ref, m);
      if Mentions(node, m) { assert OriginVia(env, name, m, us); }
    }
  }

  /** A copy of the whole tree takes the place of a reference to it: the type is now too complex
      for that to happen again. */
  lemma SelfGrows(env: Env, name: string, k: Place, ref: Elem)
    requires Known(env, name, Plug(k, ref)) && Cost(k) >= 2
    ensures Known(env, name, Plug(k, Plug(k, ref))) && !Plug(k, ref).Ident?
    ensures Complexity(Plug(k, Plug(k, ref))) >= MAX_COMPLEX
  {
    hide Plug, Origin, Mentions, Complexity;
    forall m | Mentions(Plug(k, Plug(k, ref)), m) ensures Origin(env, name, m) {
      PlugMentions(k, Plug(k, ref), m);
      PlugMentions(k, ref, m);
    }
    PlugComplexity(k, ref);
    PlugComplexity(k, Plug(k, ref));
    AtLeastOne(ref);
    PlugIsNode(k, ref);
  }

  lemma {:induction false} PlugIsNode(k: Place, e: Elem)
    requires k != []
    ensures !Plug(k, e).Ident?
    decreases k
  {
    if k[1..] != [] { PlugIsNode(k[1..], Fill(k[0], e)); }
  }

  lemma {:induction false} NextReturns(env: Env, name: string, k: Place, ref: Elem, root: string, ts: seq<string>,
                                       fuel: nat)
    requires !Looping(env, name) && Under(env, name, k, ref, root, ts) && Known(env, name, Plug(k, ref))
    requires fuel >= Budget(env, Complexity(Plug(k, ref)), ts)
    ensures var r := Next(env, name, k, ref, root, fuel); r.Some? && Known(env, name, Plug(k, r.value))
    decreases fuel, ref, 1
  {
    hide Looping, Under, Known, Plug, Complexity, Heir, Trail, Mentions, Cost;
    match ref
    case Base(_, _, _) =>
    case Ident(typ) => IdentReturns(env, name, k, ref, root, ts, fuel);
    case Ptr(y) => ChildReturns(env, name, k, InPtr, y, root, ts, fuel);
    case Slice(y) => ChildReturns(env, name, k, InSlice, y, root, ts, fuel);
    case Array(n, y) => ChildReturns(env, name, k, InArray(n), y, root, ts, fuel);
    case Map(y) => ChildReturns(env, name, k, InMap, y, root, ts, fuel);
    case Struct(fs, tup) =>
      FieldsUnder(env, name, k, fs, tup, root, ts);
      assert [] + fs == fs;
      NextFieldsReturn(env, name, k, [], fs, tup, root, ts, fuel);
  }

  lemma IdentReturns(env: Env, name: string, k: Place, ref: Elem, root: string, ts: seq<string>, fuel: nat)
    requires ref.Ident?
    requires !Looping(env, name) && Under(env, name, k, ref, root, ts) && Known(env, name, Plug(k, ref))
    requires fuel >= Budget(env, Complexity(Plug(k, ref)), ts)
    ensures var r := Next(env, name, k, ref, root, fuel); r.Some? && Known(env, name, Plug(k, r.value))
    decreases fuel, ref, 0
  {
    hide Looping, Known, Plug, Cost, Complexity, Trail, Origin;
    var typ := ref.name;
    TrailsBounded(env, name, ts);
    EmptyTrail(env, name);
    if typ != root && typ in env {
      if typ == name {
        if Complexity(Plug(k, ref)) < MAX_COMPLEX {
          SelfGrows(env, name, k, ref);
          NextReturns(env, name, k, Plug(k, ref), name, [], fuel - 1);
        }
      } else if Complexity(env[typ]) < MAX_COMPLEX {
        RefOrigin(env, name, k, typ);
        var us := LeadsOn(env, name, typ, root, ts);
        TrailsBounded(env, name, us);
        TypeKnown(env, name, k, ref, us);
        PlugComplexity(k, ref);
        PlugComplexity(k, env[typ]);
        AtLeastOne(env[typ]);
        NamesAreSimple(ref);
        NextReturns(env, name, k, env[typ], typ, us, fuel - 1);
      }
    }
  }

  lemma ChildReturns(env: Env, name: string, k: Place, f: Frame, y: Elem, root: string, ts: seq<string>, fuel: nat)
    requires !f.InStruct?
    requires !Looping(env, name) && Under(env, name, k, Fill(f, y), root, ts) && Known(env, name, Plug(k, Fill(f, y)))
    requires fuel >= Budget(env, Complexity(Plug(k, Fill(f, y))), ts)
    ensures var r := Next(env, name, [f] + k, y, root, fuel); r.Some? && Known(env, name, Plug(k, Fill(f, r.value)))
    decreases fuel, y, 2
  {
    hide Looping, Known, Plug, Complexity, Trail, Next;
    ChildUnder(env, name, k, f, y, root, ts);
    PlugFrame(f, k, y);
    NextReturns(env, name, [f] + k, y, root, ts, fuel);
    PlugFrame(f, k, Next(env, name, [f] + k, y, root, fuel).value);
  }

  lemma ChildUnder(env: Env, name: string, k: Place, f: Frame, y: Elem, root: string, ts: seq<string>)
    requires Under(env, name, k, Fill(f, y), root, ts)
    ensures Under(env, name, [f] + k, y, root, ts)
  {
    hide Trail, Mentions;
    PlugFrame(f, k, y);
    forall m | Mentions(y, m) ensures Mentions(Fill(f, y), m) { FillMentions(f, y, m); }
  }

  lemma FieldsUnder(env: Env, name: string, k: Place, fs: seq<Field>, tup: bool, root: string, ts: seq<string>)
    requires Under(env, name, k, Struct(fs, tup), root, ts)
    ensures forall i, f: Frame :: 0 <= i < |fs| ==> Under(env, name, [f] + k, fs[i].elem, root, ts)
  {
    hide Trail;
    FieldsHeirs(env, name, fs, tup, root);
    forall i, f: Frame | 0 <= i < |fs| ensures Under(env, name, [f] + k, fs[i].elem, root, ts) {
      PlugFrame(f, k, fs[i].elem);
    }
  }

  lemma {:induction false} NextFieldsReturn(env: Env, name: string, k: Place, done: seq<Field>, todo: seq<Field>,
                                            tup: bool, root: string, ts: seq<string>, fuel: nat)
    requires !Looping(env, name) && Known(env, name, Plug(k, Struct(done + todo, tup)))
    requires forall i, f: Frame :: 0 <= i < |todo| ==> Under(env, name, [f] + k, todo[i].elem, root, ts)
    requires fuel >= Budget(env, Complexity(Plug(k, Struct(done + todo, tup))), ts)
    ensures var gs := NextFields(env, name, k, done, todo, tup, root, fuel);
      gs.Some? && Known(env, name, Plug(k, Struct(gs.value, tup)))
    decreases fuel, todo, 0
  {
    hide Looping, Under, Known, Plug, Complexity, Next;
    if todo == [] {
      assert done + todo == done;
    } else {
      var f := InStruct(done, todo[0].tag, todo[1..], tup);
      var e := todo[0].elem;
      PlugField(k, done, todo, tup, e);
      assert [Field(todo[0].tag, e)] + todo[1..] == todo;
      NextReturns(env, name, [f] + k, e, root, ts, fuel);
      var z := Next(env, name, [f] + k, e, root, fuel).value;
      PlugField(k, done, todo, tup, z);
      assert done + ([Field(todo[0].tag, z)] + todo[1..]) == done + [Field(todo[0].tag, z)] + todo[1..];
      NextGrows(env, name, [f] + k, e, root, fuel);
      PlugComplexity([f] + k, e);
      PlugComplexity([f] + k, z);
      assert forall i :: 0 < i < |todo| ==> todo[i] == todo[1..][i - 1];
      NextFieldsReturn(env, name, k, done + [Field(todo[0].tag, z)], todo[1..], tup, root, ts, fuel);
    }
  }

  /** No bare names at the top: what `process` leaves. */
  ghost predicate NoBareNames(env: Env) {
    forall n :: n in env ==> !env[n].Ident?
  }

  /** Enough for any walk that ends. */
  function Fuel(env: Env): nat { 2 * |env.Keys| + 3 }

  lemma ProcessReturns(env: Env, name: string, fuel: nat)
    requires name in env && NoBareNames(env) && !Looping(env, name) && fuel >= Fuel(env)
    ensures var r := Process(env, name, fuel); r.Some? && Known(env, name, r.value)
  {
    hide Looping, Complexity, Mentions, Next;
    forall m | Mentions(env[name], m) ensures Origin(env, name, m) { assert OriginVia(env, name, m, []); }
    NextReturns(env, name, [], env[name], name, [], fuel);
  }

  // ---- It does not end ---------------------------------------------------------------------------

  /** Along a trail that avoids `name`, each reference is inlined inside the one before. */
  lemma {:induction false} NextGoesOn(env: Env, name: string, k: Place, ref: Elem, root: string, ts: seq<string>,
                                      fuel: nat)
    requires ts != [] && Trail(env, root, ts) && name !in ts && Mentions(ref, ts[0]) && fuel < |ts|
    ensures Next(env, name, k, ref, root, fuel).None?
    decreases fuel, ref, 1
  {
    hide Complexity, Plug;
    match ref
    case Base(_, _, _) =>
    case Ident(typ) => if fuel > 0 { NextGoesOn(env, name, k, env[typ], typ, ts[1..], fuel - 1); }
    case Ptr(y) => NextGoesOn(env, name, [InPtr] + k, y, root, ts, fuel);
    case Slice(y) => NextGoesOn(env, name, [InSlice] + k, y, root, ts, fuel);
    case Array(n, y) => NextGoesOn(env, name, [InArray(n)] + k, y, root, ts, fuel);
    case Map(y) => NextGoesOn(env, name, [InMap] + k, y, root, ts, fuel);
    case Struct(fs, tup) =>
      var i :| 0 <= i < |fs| && Mentions(fs[i].elem, ts[0]);
      NextFieldsGoOn(env, name, k, [], fs, tup, root, ts, fuel, i);
  }

  lemma {:induction false} NextFieldsGoOn(env: Env, name: string, k: Place, done: seq<Field>, todo: seq<Field>,
                                          tup: bool, root: string, ts: seq<string>, fuel: nat, i: nat)
    requires ts != [] && Trail(env, root, ts) && name !in ts && fuel < |ts|
    requires i < |todo| && Mentions(todo[i].elem, ts[0])
    ensures NextFields(env, name, k, done, todo, tup, root, fuel).None?
    decreases fuel, todo, 0
  {
    hide Next, Trail, Mentions;
    var f := InStruct(done, todo[0].tag, todo[1..], tup);
    var r := Next(env, name, [f] + k, todo[0].elem, root, fuel);
    if i == 0 {
      NextGoesOn(env, name, [f] + k, todo[0].elem, root, ts, fuel);
    } else if r.Some? {
      NextFieldsGoOn(env, name, k, done + [Field(todo[0].tag, r.value)], todo[1..], tup, root, ts, fuel, i - 1);
    }
  }

  /** Around the cycle as often as it takes. */
  lemma {:induction false} Around(env: Env, name: string, v: string, c: seq<string>, l: nat) returns (ts: seq<string>)
    requires c != [] && Trail(env, v, c) && End(v, c) == v && name !in c
    ensures Trail(env, v, ts) && name !in ts && |ts| >= l
    decreases l
  {
    hide Trail;
    if l == 0 {
      ts := c;
    } else {
      var us := Around(env, name, v, c, l - 1);
      ts := c + us;
      TrailConcat(env, v, c, us);
    }
  }

  lemma ProcessGoesOn(env: Env, name: string, fuel: nat)
    requires name in env && Looping(env, name)
    ensures Process(env, name, fuel).None?
  {
    hide Next, Complexity, Mentions, Trail;
    var lead, c :| LoopAt(env, name, lead, c);
    var us := Around(env, name, End(name, lead), c, fuel);
    TrailConcat(env, name, lead, us);
    var ts := lead + us;
    FirstStep(env, name, ts);
    NextGoesOn(env, name, [], env[name], name, ts, fuel);
  }

  lemma FirstStep(env: Env, a: string, ts: seq<string>)
    requires ts != [] && Trail(env, a, ts)
    ensures a in env && Mentions(env[a], ts[0])
  {
  }

  /** The walk of a type ends if and only if the type does not reach, through small types, a
      cycle of two or more small types that avoids it. */
  lemma ReturnsExactly(env: Env, name: string)
    requires name in env && NoBareNames(env)
    ensures (exists fuel: nat :: Process(env, name, fuel).Some?) <==> !Looping(env, name)
  {
    hide Process, Looping;
    if Looping(env, name) {
      forall fuel: nat ensures Process(env, name, fuel).None? { ProcessGoesOn(env, name, fuel); }
    } else {
      ProcessReturns(env, name, Fuel(env));
    }
  }
}
