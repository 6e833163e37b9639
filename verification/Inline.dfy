/** The inliner itself (gen/inline.go): it rewrites the trees of the types in place, and what
    it leaves means what it found. */
module Inline {
  import opened Wire
  import opened TypeTree
  import opened Unfolding
  import opened InlineWalk
  import opened InlineTermination
  import opened InlineRuns
  import opened InlineWeight

  // ---- All types, in some order ---------------------------------------------------------------

  ghost predicate AllSafe(env: Env) {
    forall n :: n in env ==> !Looping(env, n)
  }

  /** The types walked one after the other. */
  function WalkAll(env: Env, order: seq<string>, fuel: nat): Option<Env>
    requires forall n :: n in order ==> n in env
    decreases order
  {
    if order == [] then Some(env)
    else
      var r := Process(env, order[0], fuel);
      if r.None? then None else WalkAll(env[order[0] := r.value], order[1..], fuel)
  }

  /** What walking one type does to the others' walks. */
  lemma WalkKeeps(env: Env, n: string, fuel: nat)
    requires n in env && NoBareNames(env) && !Looping(env, n) && Process(env, n, fuel).Some?
    requires fuel >= Fuel(env)
    ensures var out := Process(env, n, fuel).value;
      && Walked(env, n, out) && NoBareNames(env[n := out])
      && forall m :: m != n && !Looping(env, m) ==> !Looping(env[n := out], m)
  {
    hide Looping, Complexity, Mentions, Next, Known;
    var out := Process(env, n, fuel).value;
    ProcessReturns(env, n, fuel);
    NextGrows(env, n, [], env[n], n, fuel);
    StillNode(env, n, fuel);
    hide Process;
    forall m | m != n && !Looping(env, m) ensures !Looping(env[n := out], m) {
      StillSafe(env, n, out, m, fuel);
    }
  }

  lemma StillNode(env: Env, n: string, fuel: nat)
    requires n in env && !env[n].Ident? && Process(env, n, fuel).Some?
    ensures !Process(env, n, fuel).value.Ident?
  {
  }

  lemma {:induction false} SafeInAnyOrder(env: Env, order: seq<string>, fuel: nat)
    requires NoBareNames(env) && (forall n :: n in order ==> n in env && !Looping(env, n))
    requires (forall i, j :: 0 <= i < j < |order| ==> order[i] != order[j]) && fuel >= Fuel(env)
    ensures WalkAll(env, order, fuel).Some?
    decreases order
  {
    hide Looping, Process;
    if order != [] {
      var n := order[0];
      ProcessReturns(env, n, fuel);
      WalkKeeps(env, n, fuel);
      var env' := env[n := Process(env, n, fuel).value];
      assert env'.Keys == env.Keys;
      forall m | m in order[1..] ensures m in env' && !Looping(env', m) {
        var i :| 0 <= i < |order[1..]| && order[1..][i] == m;
        assert order[i + 1] == m;
      }
      SafeInAnyOrder(env', order[1..], fuel);
    }
  }

  ghost predicate Enumerates(order: seq<string>, s: set<string>) {
    (forall n :: n in order <==> n in s) && forall i, j :: 0 <= i < j < |order| ==> order[i] != order[j]
  }

  lemma {:induction false} SomeOrder(s: set<string>) returns (order: seq<string>)
    ensures Enumerates(order, s)
    decreases s
  {
    if s == {} {
      order := [];
    } else {
      var n :| n in s;
      order := StartingWith(s, n);
    }
  }

  lemma {:induction false} StartingWith(s: set<string>, n: string) returns (order: seq<string>)
    requires n in s
    ensures Enumerates(order, s) && order != [] && order[0] == n
    decreases s, 0
  {
    var rest := SomeOrder(s - {n});
    order := [n] + rest;
  }

  ghost predicate Ends(env: Env, order: seq<string>)
    requires forall n :: n in order ==> n in env
  {
    exists fuel: nat :: WalkAll(env, order, fuel).Some?
  }

  ghost predicate AlwaysEnds(env: Env) {
    forall order | Enumerates(order, env.Keys) :: Ends(env, order)
  }

  /** The walks end whatever the order of the types, if and only if no type reaches, through
      small types, a cycle of small types that avoids it. */
  lemma EndsExactly(env: Env)
    requires NoBareNames(env)
    ensures AlwaysEnds(env) <==> AllSafe(env)
  {
    hide Looping;
    if AllSafe(env) {
      forall order | Enumerates(order, env.Keys) ensures Ends(env, order) { SafeInAnyOrder(env, order, Fuel(env)); }
    } else {
      var n :| n in env && Looping(env, n);
      var order := StartingWith(env.Keys, n);
      forall fuel: nat ensures WalkAll(env, order, fuel).None? { ProcessGoesOn(env, n, fuel); }
      assert !Ends(env, order);
    }
  }

  // ---- Cycles -----------------------------------------------------------------------------------------

  /** `type T struct{F *U}` and `type U struct{G *T}`. */
  function TwoTypes(): Env {
    map["T" := Struct([Field([0x46], Ptr(Ident("U")))], false), "U" := Struct([Field([0x47], Ptr(Ident("T")))], false)]
  }

  lemma TwoTypesMention()
    ensures forall m :: Mentions(TwoTypes()["T"], m) ==> m == "U"
    ensures forall m :: Mentions(TwoTypes()["U"], m) ==> m == "T"
  {
  }

  /** From a type that refers to `n` only, no trail that avoids `n` leads on. */
  lemma Stuck(env: Env, n: string, o: string, ts: seq<string>)
    requires o in env && (forall m :: Mentions(env[o], m) ==> m == n) && Trail(env, o, ts) && n !in ts
    ensures ts == []
  {
    hide Mentions, Small;
  }

  /** A cycle of two types ends: when the walk comes back to the type it started from, that type
      has grown too complex. */
  lemma TwoTypesEnd()
    ensures AllSafe(TwoTypes()) && NoBareNames(TwoTypes())
  {
    var env := TwoTypes();
    TwoTypesMention();
    forall n | n in env ensures !Looping(env, n) {
      var o := if n == "T" then "U" else "T";
      forall lead, c ensures !LoopAt(env, n, lead, c) { NoLoop(env, n, o, lead, c); }
    }
  }

  lemma NoLoop(env: Env, n: string, o: string, lead: seq<string>, c: seq<string>)
    requires n in env && o in env
    requires (forall m :: Mentions(env[n], m) ==> m == o) && forall m :: Mentions(env[o], m) ==> m == n
    ensures !LoopAt(env, n, lead, c)
  {
    hide Mentions, Small;
    if lead != [] && Trail(env, n, lead) && n !in lead {
      assert Edge(env, n, lead[0]);
      Stuck(env, n, o, lead[1..]);
      assert lead == [o];
      if Trail(env, o, c) && n !in c { Stuck(env, n, o, c); }
    }
  }

  /** The same types and `type S struct{H *T}`, which reaches their cycle without being on it. */
  function ThreeTypes(): Env { TwoTypes()["S" := Struct([Field([0x48], Ptr(Ident("T")))], false)] }

  /** The failing input: the walk of `S` does not end. */
  lemma OutsiderNeverEnds(fuel: nat)
    ensures Process(ThreeTypes(), "S", fuel).None? && !AlwaysEnds(ThreeTypes())
  {
    var env := ThreeTypes();
    SmallTypes();
    OutsiderMentions();
    hide Mentions, Small, Complexity, Process;
    assert Edge(env, "S", "T") && Edge(env, "T", "U") && Edge(env, "U", "T");
    assert ["T"][1..] == [] && ["U", "T"][1..] == ["T"];
    assert LoopAt(env, "S", ["T"], ["U", "T"]);
    ProcessGoesOn(env, "S", fuel);
    EndsExactly(env);
  }

  lemma OutsiderMentions()
    ensures var env := ThreeTypes();
      Mentions(env["S"], "T") && Mentions(env["T"], "U") && Mentions(env["U"], "T")
  {
    var env := ThreeTypes();
    assert Mentions(env["S"].fields[0].elem, "T") && Mentions(env["T"].fields[0].elem, "U");
    assert Mentions(env["U"].fields[0].elem, "T");
  }

  lemma SmallTypes()
    ensures forall n :: n in ThreeTypes() ==> Small(ThreeTypes(), n)
  {
    forall n | n in ThreeTypes() ensures Complexity(ThreeTypes()[n]) == 3 {
      var fs := ThreeTypes()[n].fields;
      assert fs[1..] == [] && Complexity(fs[0].elem) == 2;
    }
  }

  /** In another order they end: once `T` has been walked it is too complex for `S` to inline. */
  lemma OutsiderLaterEnds()
    ensures Enumerates(["T", "S", "U"], ThreeTypes().Keys) && Ends(ThreeTypes(), ["T", "S", "U"])
  {
    var env, order := ThreeTypes(), ["T", "S", "U"];
    var fuel := Fuel(env);
    OthersMention();
    FirstOnCycle(fuel);
    hide Mentions, Small, Complexity, Process, Looping;
    var env' := env["T" := Process(env, "T", fuel).value];
    assert order[0] == "T" && order[1..] == ["S", "U"] && env'.Keys == env.Keys;
    LargeStops(env', "S");
    LargeStops(env', "U");
    SafeInAnyOrder(env', order[1..], fuel);
    assert WalkAll(env, order, fuel).Some?;
  }

  /** The walk of `T` ends and leaves it too complex to inline. */
  lemma FirstOnCycle(fuel: nat)
    requires fuel >= Fuel(ThreeTypes())
    ensures var out := Process(ThreeTypes(), "T", fuel);
      out.Some? && NoBareNames(ThreeTypes()["T" := out.value]) && !Small(ThreeTypes()["T" := out.value], "T")
  {
    var env := ThreeTypes();
    SmallTypes();
    OutsiderMentions();
    OthersMention();
    hide Mentions, Small, Complexity, Process;
    forall lead, c ensures !LoopAt(env, "T", lead, c) { NoLoop(env, "T", "U", lead, c); }
    ProcessReturns(env, "T", fuel);
    assert Edge(env, "T", "U") && ["U"][1..] == [];
    CycleOutgrows(env, "T", ["U"], fuel);
    WalkKeeps(env, "T", fuel);
    TooLarge(env["T" := Process(env, "T", fuel).value], "T");
  }

  lemma TooLarge(env: Env, n: string)
    requires n in env && Complexity(env[n]) >= MAX_COMPLEX
    ensures !Small(env, n)
  {
  }

  lemma OthersMention()
    ensures forall m :: Mentions(ThreeTypes()["S"], m) ==> m == "T"
    ensures forall m :: Mentions(ThreeTypes()["T"], m) ==> m == "U"
    ensures forall m :: Mentions(ThreeTypes()["U"], m) ==> m == "T"
  {
  }

  /** A type that refers to nothing but a large type reaches no cycle. */
  lemma LargeStops(env: Env, n: string)
    requires n in env && !Small(env, "T") && forall m :: Mentions(env[n], m) ==> m == "T"
    ensures !Looping(env, n)
  {
    hide Small, Mentions;
    forall lead, c ensures !LoopAt(env, n, lead, c) {
      assert lead != [] && Trail(env, n, lead) ==> Edge(env, n, lead[0]);
    }
  }

  // ---- The generator's source --------------------------------------------------------------------

  lemma {:induction false} LeftSettled(env: Env, name: string, out: Elem, e: Elem)
    requires name in env && Left(env, name, e) && (Mentions(e, name) ==> Mentions(out, name))
    ensures Settled(env[name := out], e)
    decreases e
  {
    hide Complexity;
    match e
    case Ptr(y) => LeftSettled(env, name, out, y);
    case Slice(y) => LeftSettled(env, name, out, y);
    case Array(_, y) => LeftSettled(env, name, out, y);
    case Map(y) => LeftSettled(env, name, out, y);
    case Struct(fs, _) =>
      forall i | 0 <= i < |fs| ensures Settled(env[name := out], fs[i].elem) {
        LeftSettled(env, name, out, fs[i].elem);
      }
    case _ =>
  }

  /** Settled trees stay settled while a type grows. */
  lemma {:induction false} SettledStays(env: Env, name: string, out: Elem, e: Elem)
    requires name in env && Settled(env, e) && Complexity(env[name]) <= Complexity(out)
    requires Mentions(env[name], name) ==> Mentions(out, name)
    ensures Settled(env[name := out], e)
    decreases e
  {
    hide Complexity;
    match e
    case Ptr(y) => SettledStays(env, name, out, y);
    case Slice(y) => SettledStays(env, name, out, y);
    case Array(_, y) => SettledStays(env, name, out, y);
    case Map(y) => SettledStays(env, name, out, y);
    case Struct(fs, _) =>
      forall i | 0 <= i < |fs| ensures Settled(env[name := out], fs[i].elem) {
        SettledStays(env, name, out, fs[i].elem);
      }
    case _ =>
  }

  /** One turn of the loop over the fields. */
  lemma FieldStep(env: Env, name: string, k: Place, gs: seq<Field>, fs: seq<Field>, i: nat, tup: bool, root: string,
                  fuel: nat, goal: Option<seq<Field>>)
    requires i < |fs| && goal.Some? && NextFields(env, name, k, gs, fs[i..], tup, root, fuel) == goal
    ensures var f := InStruct(gs, fs[i].tag, fs[i + 1..], tup);
      && Plug([f] + k, fs[i].elem) == Plug(k, Struct(gs + fs[i..], tup))
      && var z := Next(env, name, [f] + k, fs[i].elem, root, fuel);
         z.Some? && NextFields(env, name, k, gs + [Field(fs[i].tag, z.value)], fs[i + 1..], tup, root, fuel) == goal
  {
    hide Plug, Next;
    assert fs[i..][0] == fs[i] && fs[i..][1..] == fs[i + 1..];
    assert [Field(fs[i].tag, fs[i].elem)] + fs[i + 1..] == fs[i..];
    PlugField(k, gs, fs[i..], tup, fs[i].elem);
  }

  lemma FieldPlugged(k: Place, gs: seq<Field>, fs: seq<Field>, i: nat, tup: bool, z: Elem)
    requires i < |fs|
    ensures Plug([InStruct(gs, fs[i].tag, fs[i + 1..], tup)] + k, z)
         == Plug(k, Struct(gs + [Field(fs[i].tag, z)] + fs[i + 1..], tup))
  {
    hide Plug;
    assert fs[i..][0] == fs[i] && fs[i..][1..] == fs[i + 1..];
    PlugField(k, gs, fs[i..], tup, z);
    assert gs + ([Field(fs[i].tag, z)] + fs[i + 1..]) == gs + [Field(fs[i].tag, z)] + fs[i + 1..];
  }

  lemma NoFieldsLeft(env: Env, name: string, k: Place, gs: seq<Field>, fs: seq<Field>, tup: bool, root: string,
                     fuel: nat)
    ensures gs + fs[|fs|..] == gs && NextFields(env, name, k, gs, fs[|fs|..], tup, root, fuel) == Some(gs)
  {
  }

  class Source {
    /** The named types of the file. */
    var identities: Env

    constructor (identities: Env)
      ensures this.identities == identities
    {
      this.identities := identities;
    }

    /** `nextInline` on the node `ref` at the place `k` of the tree of `name`: what ends up there
        is also what the tree then holds there. */
    method NextInline(name: string, k: Place, ref: Elem, root: string, ghost env: Env, ghost fuel: nat)
      returns (out: Elem)
      requires name in env && identities == env[name := Plug(k, ref)] && Next(env, name, k, ref, root, fuel).Some?
      modifies this
      ensures out == Next(env, name, k, ref, root, fuel).value && identities == env[name := Plug(k, out)]
      decreases fuel, ref, 1
    {
      hide Plug, Complexity;
      match ref
      case Base(_, _, _) => out := ref;
      case Ident(typ) =>
        out := ref;
        if typ != root && typ in identities {
          var node := identities[typ];
          if Complexity(node) < MAX_COMPLEX {
            identities := identities[name := Plug(k, node)];
            out := NextInline(name, k, node, typ, env, fuel - 1);
          }
        }
      case Ptr(y) => out := InlineChild(name, k, InPtr, y, root, env, fuel);
      case Slice(y) => out := InlineChild(name, k, InSlice, y, root, env, fuel);
      case Array(n, y) => out := InlineChild(name, k, InArray(n), y, root, env, fuel);
      case Map(y) => out := InlineChild(name, k, InMap, y, root, env, fuel);
      case Struct(fs, tup) =>
        var gs := InlineFields(name, k, fs, tup, root, env, fuel);
        out := Struct(gs, tup);
    }

    method InlineChild(name: string, k: Place, f: Frame, y: Elem, root: string, ghost env: Env, ghost fuel: nat)
      returns (out: Elem)
      requires name in env && identities == env[name := Plug(k, Fill(f, y))]
        && Next(env, name, [f] + k, y, root, fuel).Some?
      modifies this
      ensures out == Fill(f, Next(env, name, [f] + k, y, root, fuel).value) && identities == env[name := Plug(k, out)]
      decreases fuel, y, 2
    {
      hide Plug, Next, Fill;
      PlugFrame(f, k, y);
      var z := NextInline(name, [f] + k, y, root, env, fuel);
      PlugFrame(f, k, z);
      out := Fill(f, z);
    }

    /** The loop over the fields of a struct. */
    method InlineFields(name: string, k: Place, fs: seq<Field>, tup: bool, root: string, ghost env: Env,
                        ghost fuel: nat)
      returns (gs: seq<Field>)
      requires name in env && identities == env[name := Plug(k, Struct(fs, tup))]
      requires NextFields(env, name, k, [], fs, tup, root, fuel).Some?
      modifies this
      ensures gs == NextFields(env, name, k, [], fs, tup, root, fuel).value
      ensures identities == env[name := Plug(k, Struct(gs, tup))]
      decreases fuel, fs, 0
    {
      hide Plug, NextFields, Fill;
      gs := [];
      ghost var goal := NextFields(env, name, k, [], fs, tup, root, fuel);
      assert gs + fs[0..] == fs && fs[0..] == fs;
      for i := 0 to |fs|
        invariant |gs| == i && identities == env[name := Plug(k, Struct(gs + fs[i..], tup))]
        invariant NextFields(env, name, k, gs, fs[i..], tup, root, fuel) == goal
      {
        FieldStep(env, name, k, gs, fs, i, tup, root, fuel, goal);
        var f := InStruct(gs, fs[i].tag, fs[i + 1..], tup);
        hide Next;
        var z := NextInline(name, [f] + k, fs[i].elem, root, env, fuel);
        FieldPlugged(k, gs, fs, i, tup, z);
        gs := gs + [Field(fs[i].tag, z)];
      }
      NoFieldsLeft(env, name, k, gs, fs, tup, root, fuel);
    }

    /** `propInline`, over the types in any order: it ends, replaces references by unfoldings
        only, leaves nothing to inline and changes no type's values; and no value's encoding, as
        far as the resulting arrays are Go. */
    method PropInline()
      requires NoBareNames(identities) && Named(identities) && AllSafe(identities)
      modifies this
      ensures EnvUnfolds(old(identities), identities) && AllSettled(identities)
      ensures forall n, m :: n in identities && m in identities && Mentions(identities[n], m) ==>
        Weight(identities[m]) >= 5 || Mentions(identities[m], m)
      ensures SameTypes(old(identities), identities)
      ensures forall st :: EnvPlainBytes(identities, st) ==> SameEncodings(old(identities), identities, st)
      ensures forall st ::
        EnvPlainBytes(identities, st) <==> EnvPlainBytes(old(identities), st) && EnvNoNamedBytes(old(identities), st)
    {
      hide Looping, Complexity, Mentions, Unfolds, Settled, Process, Next, SameTypes, SameEncodings, EnvPlainBytes,
        EnvNoNamedBytes, Named, Weight;
      ghost var base := identities;
      forall n | n in base ensures Unfolds(base, base[n], base[n]) { UnfoldsItself(base, base[n]); }
      var todo := identities.Keys;
      while todo != {}
        invariant todo <= base.Keys && EnvUnfolds(base, identities) && NoBareNames(identities)
        invariant forall n :: n in todo ==> !Looping(identities, n)
        invariant forall n :: n in identities && n !in todo ==> Settled(identities, identities[n])
        decreases |todo|
      {
        var name :| name in todo;
        InlineType(name, base, todo);
        todo := todo - {name};
      }
      UnfoldingKeepsMeaning(base, identities);
      AllSettledExactly(identities);
      forall st ensures EnvPlainBytes(identities, st) <==> EnvPlainBytes(base, st) && EnvNoNamedBytes(base, st) {
        PlainAfterInlining(base, identities, st);
      }
    }

    /** One round of the loop over the types. */
    method InlineType(name: string, ghost base: Env, ghost todo: set<string>)
      requires name in todo && todo <= identities.Keys && EnvUnfolds(base, identities) && NoBareNames(identities)
      requires forall n :: n in todo ==> !Looping(identities, n)
      requires forall n :: n in identities && n !in todo ==> Settled(identities, identities[n])
      modifies this
      ensures EnvUnfolds(base, identities) && NoBareNames(identities)
      ensures forall n :: n in todo && n != name ==> !Looping(identities, n)
      ensures forall n :: n in identities && (n !in todo || n == name) ==> Settled(identities, identities[n])
      ensures Process(old(identities), name, Fuel(old(identities))) == Some(identities[name])
      ensures identities == old(identities)[name := identities[name]]
    {
      hide Looping, Complexity, Mentions, Unfolds, Settled, Next, Left, Known;
      ghost var env, fuel := identities, Fuel(identities);
      ProcessReturns(env, name, fuel);
      assert env == env[name := Plug([], env[name])];
      var out := NextInline(name, [], identities[name], name, env, fuel);
      WalkKeeps(env, name, fuel);
      NextSound(base, env, name, [], env[name], name, fuel);
      UnfoldsChain(base, base[name], env[name], out);
      LeftSettled(env, name, out, out);
      forall n | n in env && n !in todo ensures Settled(identities, env[n]) {
        SettledStays(env, name, out, env[n]);
      }
    }
  }
}
