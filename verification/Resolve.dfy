/** Turning parsed declarations into named types (gen/source.go): `type B A` is resolved to a
    copy of what `A` is, however long the chain and in whatever order names are visited. */
module Resolve {
  import opened TypeTree
  import V = Encoding

  /** What parsing a declaration gives: nothing, or a tree, which is just a name when the
      declaration names another type that is no primitive. */
  datatype Parsed = Unparsable | Tree(elem: Elem)

  /** Declarations waiting for the types they name. */
  type Linkset = map<string, string>

  predicate Dotted(name: string) { '.' in name }

  /** `Alias`: a primitive under another name is converted on its way to the wire. */
  function Alias(e: Elem, name: string): Elem {
    if e.Base? then e.(convert := true, mustinline := e.mustinline || Dotted(name)) else e
  }

  /** What becomes of a declared tree: it is kept as it is, but that a primitive is marked for
      conversion. */
  predicate Kept(declared: Elem, stored: Elem) {
    if declared.Base? then stored == Base(declared.prim, true, declared.mustinline) else stored == declared
  }

  /** Through `k` declarations that are just names, `n` stands for the tree declared as `end`. */
  ghost predicate StandsFor(specs: map<string, Parsed>, n: string, end: string, k: nat)
    decreases k
  {
    n in specs && specs[n].Tree?
    && if k == 0 then n == end && !specs[n].elem.Ident?
       else specs[n].elem.Ident? && StandsFor(specs, specs[n].elem.name, end, k - 1)
  }

  /** `n` stands for the tree declared as `end`, itself or through any number of names. */
  ghost predicate Declares(specs: map<string, Parsed>, n: string, end: string) {
    end in specs && specs[end].Tree? && exists k: nat :: StandsFor(specs, n, end, k)
  }

  /** Following `k` links from `n` leads to `end`. */
  ghost predicate Links(ls: Linkset, n: string, end: string, k: nat)
    decreases k
  {
    if k == 0 then n == end else n in ls && Links(ls, ls[n], end, k - 1)
  }

  /** The chain of `n` reaches the known type `end`. */
  ghost predicate LeadsTo(known: Env, ls: Linkset, n: string, end: string) {
    end in known && exists k: nat :: Links(ls, n, end, k)
  }

  ghost predicate Resolvable(known: Env, ls: Linkset, n: string) {
    exists end :: LeadsTo(known, ls, n, end)
  }

  lemma LeadsOn(known: Env, ls: Linkset, n: string, end: string)
    requires n in ls && LeadsTo(known, ls, ls[n], end)
    ensures LeadsTo(known, ls, n, end)
  {
    var k: nat :| Links(ls, ls[n], end, k);
    assert Links(ls, n, end, k + 1);
  }

  /** Links are followed in one way only. */
  lemma {:induction false} OnePath(ls: Linkset, n: string, a: string, j: nat, b: string, k: nat)
    requires Links(ls, n, a, j) && Links(ls, n, b, k) && j <= k
    ensures Links(ls, a, b, k - j)
    decreases j
  {
    if j > 0 {
      OnePath(ls, ls[n], a, j - 1, b, k - 1);
    }
  }

  /** A chain reaches at most one known type. */
  lemma OneEnd(known: Env, ls: Linkset, n: string, a: string, b: string)
    requires known.Keys !! ls.Keys && LeadsTo(known, ls, n, a) && LeadsTo(known, ls, n, b)
    ensures a == b
  {
    var j: nat :| Links(ls, n, a, j);
    var k: nat :| Links(ls, n, b, k);
    if j <= k {
      OnePath(ls, n, a, j, b, k);
    } else {
      OnePath(ls, n, b, k, a, j);
    }
  }

  /** Names on a cycle of aliases reach no known type. */
  lemma {:induction false} CyclesLeadNowhere(known: Env, ls: Linkset, n: string, k: nat)
    requires known.Keys !! ls.Keys && Links(ls, n, n, k) && k > 0
    ensures !Resolvable(known, ls, n)
  {
    forall end, j: nat | Links(ls, n, end, j) ensures end !in known {
      RoundAgain(ls, n, k, end, j);
    }
  }

  lemma {:induction false} RoundAgain(ls: Linkset, n: string, k: nat, end: string, j: nat)
    requires Links(ls, n, n, k) && k > 0 && Links(ls, n, end, j)
    ensures end in ls
    decreases j
  {
    if j < k {
      OnePath(ls, n, end, j, n, k);
    } else {
      OnePath(ls, n, n, k, end, j);
      RoundAgain(ls, n, k, end, j - k);
    }
  }

  /** When no pending name links to a known one any more, every resolvable name is known. */
  lemma {:induction false} ClosedIsComplete(known: Env, ls: Linkset, now: Env, n: string, end: string, k: nat)
    requires known.Keys <= now.Keys && end in known && Links(ls, n, end, k)
    requires forall m :: m in ls && ls[m] in now ==> m in now
    ensures n in now
    decreases k
  {
    if k > 0 {
      ClosedIsComplete(known, ls, now, ls[n], end, k - 1);
    }
  }

  /** `now` is `known` and, for some of the links, what their chains lead to. */
  ghost predicate Sound(known: Env, ls: Linkset, now: Env) {
    && known.Keys <= now.Keys <= known.Keys + ls.Keys
    && (forall n :: n in known ==> now[n] == known[n])
    && forall n :: n in now && n !in known ==> Resolvable(known, ls, n) && Is(known, ls, now, n)
  }

  /** `n` is a copy of the type its chain ends in. */
  ghost predicate Is(known: Env, ls: Linkset, now: Env, n: string)
    requires n in now
  {
    forall end :: LeadsTo(known, ls, n, end) ==> now[n] == Alias(known[end], n)
  }

  /** One link resolved. */
  lemma StepIsSound(known: Env, ls: Linkset, now: Env, n: string)
    requires known.Keys !! ls.Keys && (forall m :: m in ls ==> !Dotted(m))
    requires Sound(known, ls, now) && n in ls && n !in now && ls[n] in now
    ensures Sound(known, ls, now[n := Alias(now[ls[n]], n)])
  {
    hide Links, Dotted;
    var m, next := ls[n], now[n := Alias(now[ls[n]], n)];
    assert Resolvable(known, ls, m) by {
      if m in known { KnownLeadsToItself(known, ls, m); }
    }
    var end :| LeadsTo(known, ls, m, end);
    LeadsOn(known, ls, n, end);
    forall other | LeadsTo(known, ls, n, other) ensures next[n] == Alias(known[other], n) {
      OneEnd(known, ls, n, end, other);
      if m in known {
        KnownLeadsToItself(known, ls, m);
        OneEnd(known, ls, m, m, end);
      }
    }
  }

  lemma KnownLeadsToItself(known: Env, ls: Linkset, n: string)
    requires n in known
    ensures LeadsTo(known, ls, n, n)
  {
    assert Links(ls, n, n, 0);
  }

  /** The links not resolved yet. */
  function Pending(ls: Linkset, now: Env): Linkset {
    map n | n in ls && n !in now :: ls[n]
  }

  /** Outside `todo`, every name that links to a known one is known. */
  ghost predicate AllStuck(ls: Linkset, now: Env, todo: set<string>) {
    forall n :: n in ls && n !in todo && ls[n] in now ==> n in now
  }

  lemma PendingNames(ls: Linkset, now: Env, n: string)
    requires n in Pending(ls, now)
    ensures n in ls && n !in now && Pending(ls, now)[n] == ls[n]
  {
  }

  lemma StopsPending(ls: Linkset, now: Env, n: string, e: Elem)
    ensures Pending(ls, now[n := e]) == Pending(ls, now) - {n}
  {
  }

  lemma Sticks(ls: Linkset, now: Env, todo: set<string>, n: string)
    requires AllStuck(ls, now, todo) && n in ls && ls[n] !in now
    ensures AllStuck(ls, now, todo - {n})
  {
  }

  lemma NothingResolved(known: Env, ls: Linkset)
    requires known.Keys !! ls.Keys
    ensures Sound(known, ls, known) && Pending(ls, known) == ls
  {
  }

  lemma NoneLeft(ls: Linkset, now: Env)
    requires AllStuck(ls, now, {}) || |Pending(ls, now)| == 0
    ensures forall m :: m in ls && ls[m] in now ==> m in now
  {
    if |Pending(ls, now)| == 0 {
      assert Pending(ls, now) == map[];
      forall m | m in ls ensures m in now { assert m !in Pending(ls, now); }
    }
  }

  class Source {
    var identities: Env

    constructor ()
      ensures identities == map[]
    {
      identities := map[];
    }

    /** `resolve`, visiting names in any order: it terminates, a name becomes known exactly if
        its chain reaches a type known before, and it is then a copy of that type. */
    method Resolve(ls: Linkset) returns (left: Linkset)
      requires identities.Keys !! ls.Keys && forall n :: n in ls ==> !Dotted(n)
      modifies this
      ensures Sound(old(identities), ls, identities)
      ensures forall n :: n in ls ==> (n in identities <==> Resolvable(old(identities), ls, n))
      ensures left == Pending(ls, identities)
      ensures forall n, end :: n in ls && n in identities && LeadsTo(old(identities), ls, n, end) ==>
        end in old(identities) && Kept(old(identities)[end], identities[n])
    {
      hide Sound, Resolvable, Dotted, Pending;
      ghost var known := identities;
      NothingResolved(known, ls);
      left := ls;
      var progress := true;
      while progress && |left| > 0
        invariant Sound(known, ls, identities) && left == Pending(ls, identities)
        invariant progress || AllStuck(ls, identities, {})
        decreases |left|, progress
      {
        progress, left := Visit(left, known, ls);
      }
      NoneLeft(ls, identities);
      Complete(known, ls, identities);
      ResolvedIsKept(known, ls, identities);
    }

    /** One pass over the pending names. */
    method Visit(pending: Linkset, ghost known: Env, ghost ls: Linkset) returns (progress: bool, left: Linkset)
      requires known.Keys !! ls.Keys && forall n :: n in ls ==> !Dotted(n)
      requires Sound(known, ls, identities) && pending == Pending(ls, identities)
      modifies this
      ensures Sound(known, ls, identities) && left == Pending(ls, identities)
      ensures if progress then |left| < |pending| else left == pending && AllStuck(ls, identities, {})
    {
      hide Sound, Resolvable, Dotted;
      progress, left := false, pending;
      var todo := pending.Keys;
      assert AllStuck(ls, identities, todo);
      while todo != {}
        invariant Sound(known, ls, identities) && left == Pending(ls, identities) && todo <= left.Keys
        invariant if progress then |left| < |pending| else left == pending && AllStuck(ls, identities, todo)
        decreases |todo|
      {
        hide Pending, AllStuck;
        var name :| name in todo;
        PendingNames(ls, identities, name);
        var target := left[name];
        if target in identities {
          progress := true;
          StepIsSound(known, ls, identities, name);
          Shrinks(left, name);
          StopsPending(ls, identities, name, Alias(identities[target], name));
          identities := identities[name := Alias(identities[target], name)];
          left := left - {name};
        } else if !progress {
          Sticks(ls, identities, todo, name);
        }
        todo := todo - {name};
      }
    }

    /** `process`: every parsed declaration that is not a name is a type under its own name;
        the others are resolved. No type is left that is just a name, and named primitives are
        converted on their way to the wire. */
    method Process(specs: map<string, Parsed>)
      requires identities == map[] && forall n :: n in specs ==> !Dotted(n)
      modifies this
      ensures Sound(Direct(specs, {}), Deferred(specs, {}), identities)
      ensures forall n :: n in Deferred(specs, {}) ==>
        (n in identities <==> Resolvable(Direct(specs, {}), Deferred(specs, {}), n))
      ensures forall n :: n in identities ==> !identities[n].Ident? && (identities[n].Base? ==> identities[n].convert)
      ensures forall n :: n in identities <==> exists end :: Declares(specs, n, end)
      ensures forall n, end :: n in identities && Declares(specs, n, end) ==>
        Kept(specs[end].elem, identities[n])
    {
      hide Sound, Resolvable, Dotted, Direct, Deferred;
      var deferred: Linkset := map[];
      var todo := specs.Keys;
      AllVisited(specs);
      while todo != {}
        invariant todo <= specs.Keys && identities == Direct(specs, todo) && deferred == Deferred(specs, todo)
        decreases |todo|
      {
        var name :| name in todo;
        DeclarationStep(specs, todo, name);
        todo := todo - {name};
        var el := specs[name];
        if el.Tree? {
          if el.elem.Ident? {
            deferred := deferred[name := el.elem.name];
          } else {
            identities := identities[name := Alias(el.elem, name)];
          }
        }
      }
      if |deferred| > 0 {
        var left := Resolve(deferred);
      } else {
        NothingResolved(identities, deferred);
      }
      NoBareNames(Direct(specs, {}), deferred, identities);
      StoredAsDeclared(specs, identities);
    }
  }

  /** The declarations, but for those in `todo`, that are trees, and those that are names. */
  function Direct(specs: map<string, Parsed>, todo: set<string>): Env {
    map n | n in specs && n !in todo && specs[n].Tree? && !specs[n].elem.Ident? :: Alias(specs[n].elem, n)
  }

  function Deferred(specs: map<string, Parsed>, todo: set<string>): Linkset {
    map n | n in specs && n !in todo && specs[n].Tree? && specs[n].elem.Ident? :: specs[n].elem.name
  }

  lemma Shrinks(ls: Linkset, n: string)
    requires n in ls
    ensures |ls - {n}| == |ls| - 1
  {
    assert (ls - {n}).Keys == ls.Keys - {n};
    assert |ls.Keys| == |ls| && |(ls - {n}).Keys| == |ls - {n}|;
  }

  lemma AllVisited(specs: map<string, Parsed>)
    ensures Direct(specs, specs.Keys) == map[] && Deferred(specs, specs.Keys) == map[]
    ensures Direct(specs, {}).Keys !! Deferred(specs, {}).Keys
    ensures forall n :: n in Deferred(specs, {}) ==> n in specs
    ensures forall n :: n in Direct(specs, {}) ==> !Direct(specs, {})[n].Ident?
    ensures forall n :: n in Direct(specs, {}) && Direct(specs, {})[n].Base? ==> Direct(specs, {})[n].convert
  {
  }

  lemma DeclarationStep(specs: map<string, Parsed>, todo: set<string>, n: string)
    requires n in todo && n in specs
    ensures var el, rest := specs[n], todo - {n};
      && Direct(specs, rest)
         == (if el.Tree? && !el.elem.Ident? then Direct(specs, todo)[n := Alias(el.elem, n)] else Direct(specs, todo))
      && Deferred(specs, rest)
         == (if el.Tree? && el.elem.Ident? then Deferred(specs, todo)[n := el.elem.name] else Deferred(specs, todo))
  {
  }

  lemma Complete(known: Env, ls: Linkset, now: Env)
    requires known.Keys !! ls.Keys && Sound(known, ls, now)
    requires forall m :: m in ls && ls[m] in now ==> m in now
    ensures forall n :: n in ls ==> (n in now <==> Resolvable(known, ls, n))
  {
    forall n | n in ls && Resolvable(known, ls, n) ensures n in now {
      var end :| LeadsTo(known, ls, n, end);
      var k: nat :| Links(ls, n, end, k);
      ClosedIsComplete(known, ls, now, n, end, k);
    }
  }

  lemma NoBareNames(known: Env, ls: Linkset, now: Env)
    requires Sound(known, ls, now)
    requires forall n :: n in known ==> !known[n].Ident? && (known[n].Base? ==> known[n].convert)
    ensures forall n :: n in now ==> !now[n].Ident? && (now[n].Base? ==> now[n].convert)
  {
    forall n | n in now && n !in known ensures !now[n].Ident? && (now[n].Base? ==> now[n].convert) {
      var end :| LeadsTo(known, ls, n, end);
    }
  }

  lemma ResolvedIsKept(known: Env, ls: Linkset, now: Env)
    requires known.Keys !! ls.Keys && Sound(known, ls, now) && forall n :: n in ls ==> !Dotted(n)
    ensures forall n, end :: n in ls && n in now && LeadsTo(known, ls, n, end) ==> Kept(known[end], now[n])
  {
    hide LeadsTo, Dotted, Resolvable;
    forall n, end | n in ls && n in now && LeadsTo(known, ls, n, end)
      ensures end in known && Kept(known[end], now[n])
    {
      EndIsKnown(known, ls, n, end);
      assert Is(known, ls, now, n);
    }
  }

  /** The chains of names in the file are the links. */
  lemma {:induction false} LinksAreNames(specs: map<string, Parsed>, n: string, end: string, k: nat)
    ensures StandsFor(specs, n, end, k) <==> end in Direct(specs, {}) && Links(Deferred(specs, {}), n, end, k)
    decreases k
  {
    if k > 0 && n in Deferred(specs, {}) { LinksAreNames(specs, specs[n].elem.name, end, k - 1); }
    if k > 0 && n !in Deferred(specs, {}) { assert !StandsFor(specs, n, end, k); }
  }

  lemma DeclaresIsLeadsTo(specs: map<string, Parsed>, n: string, end: string)
    ensures Declares(specs, n, end) <==> LeadsTo(Direct(specs, {}), Deferred(specs, {}), n, end)
  {
    hide StandsFor, Links;
    if Declares(specs, n, end) {
      var k: nat :| StandsFor(specs, n, end, k);
      LinksAreNames(specs, n, end, k);
    }
    if LeadsTo(Direct(specs, {}), Deferred(specs, {}), n, end) {
      var k: nat :| Links(Deferred(specs, {}), n, end, k);
      LinksAreNames(specs, n, end, k);
    }
  }

  /** In terms of the declarations alone: a name is known exactly if it stands for a declared tree,
      and it keeps that tree. */
  lemma StoredAsDeclared(specs: map<string, Parsed>, now: Env)
    requires Sound(Direct(specs, {}), Deferred(specs, {}), now) && forall n :: n in specs ==> !Dotted(n)
    requires forall n :: n in Deferred(specs, {}) ==>
      (n in now <==> Resolvable(Direct(specs, {}), Deferred(specs, {}), n))
    ensures forall n :: n in now <==> exists end :: Declares(specs, n, end)
    ensures forall n, end :: n in now && Declares(specs, n, end) ==> Kept(specs[end].elem, now[n])
  {
    hide LeadsTo, Declares, Dotted;
    var known, ls := Direct(specs, {}), Deferred(specs, {});
    forall n ensures n in now <==> exists end :: Declares(specs, n, end) {
      forall end ensures Declares(specs, n, end) <==> LeadsTo(known, ls, n, end) { DeclaresIsLeadsTo(specs, n, end); }
      if n in known { KnownLeadsToItself(known, ls, n); }
      if n in now && n !in known { assert Resolvable(known, ls, n); }
      forall end | LeadsTo(known, ls, n, end) ensures n in now { OnlyPending(known, ls, n, end); }
    }
    forall n, end | n in now && Declares(specs, n, end)
      ensures end in specs && specs[end].Tree? && Kept(specs[end].elem, now[n])
    {
      DeclaresIsLeadsTo(specs, n, end);
      EndIsKnown(known, ls, n, end);
      if n in known {
        KnownLeadsToItself(known, ls, n);
        OneEnd(known, ls, n, n, end);
      } else {
        assert Is(known, ls, now, n);
      }
      UndottedAlias(specs[end].elem, n);
    }
  }

  lemma OnlyPending(known: Env, ls: Linkset, n: string, end: string)
    requires LeadsTo(known, ls, n, end)
    ensures n in known || n in ls
  {
  }

  /** A primitive must be inlined if its name has a dot, or had to be before. */
  lemma MustInline(e: Elem, name: string)
    requires e.Base?
    ensures Alias(e, name).mustinline <==> e.mustinline || exists i :: 0 <= i < |name| && name[i] == '.'
  {
  }

  lemma UndottedAlias(e: Elem, n: string)
    requires !Dotted(n) && !e.Ident?
    ensures Kept(e, Alias(e, n)) && Kept(e, Alias(Alias(e, n), n))
  {
  }

  /** What is kept has the same values and the same encoding. */
  lemma KeptMeansTheSame(env: Env, declared: Elem, stored: Elem, v: GoVal, st: V.Style)
    requires Kept(declared, stored)
    ensures HasType(env, stored, v) <==> HasType(env, declared, v)
    ensures EncGo(env, stored, v, st) == EncGo(env, declared, v, st)
  {
  }

  /** The order does not matter: two runs that resolve what can be resolved agree. */
  lemma Confluent(known: Env, ls: Linkset, a: Env, b: Env)
    requires Sound(known, ls, a) && Sound(known, ls, b)
    requires forall n :: n in ls ==> (n in a <==> Resolvable(known, ls, n)) && (n in b <==> Resolvable(known, ls, n))
    ensures a == b
  {
    hide LeadsTo;
    assert a.Keys == b.Keys;
    forall n | n in a && n !in known ensures a[n] == b[n] {
      var end :| LeadsTo(known, ls, n, end);
      assert Is(known, ls, a, n) && Is(known, ls, b, n);
      EndIsKnown(known, ls, n, end);
    }
  }

  lemma EndIsKnown(known: Env, ls: Linkset, n: string, end: string)
    requires LeadsTo(known, ls, n, end)
    ensures end in known
  {
  }
}
