/** The generated methods composed, and exactly which values they return unchanged. */
module Lossless {
  import opened Wire
  import opened TypeTree
  import opened Targets
  import opened GeneratedRoundTrip
  import MarshalGen
  import UnmarshalGen
  import V = Encoding

  /** No dynamic value holds an unsigned number that fits a positive fixint. */
  predicate NoSmallUint(x: V.Value)
    decreases x, 1
  {
    match x
    case Uint(u) => u >= 0x80
    case Arr(els) => NoSmallUintIn(els)
    case Map(es) => NoSmallUintEntries(es)
    case _ => true
  }

  predicate NoSmallUintIn(xs: seq<V.Value>)
    decreases xs, 0
  {
    xs != [] ==> NoSmallUint(xs[0]) && NoSmallUintIn(xs[1..])
  }

  predicate NoSmallUintEntries(es: seq<V.Entry>)
    decreases es, 0
  {
    es != [] ==> NoSmallUint(es[0].val) && NoSmallUintEntries(es[1..])
  }

  /** Dynamic values come back unchanged exactly when they hold no such number. */
  lemma {:induction false} NormIsIdentity(x: V.Value)
    ensures V.Norm(x) == x <==> NoSmallUint(x)
    decreases x, 1
  {
    match x
    case Arr(els) => NormIsIdentityIn(els);
    case Map(es) => NormIsIdentityEntries(es);
    case _ =>
  }

  lemma {:induction false} NormIsIdentityIn(xs: seq<V.Value>)
    ensures V.NormAll(xs) == xs <==> NoSmallUintIn(xs)
    decreases xs, 0
  {
    hide V.Norm, NoSmallUint;
    if xs != [] {
      NormIsIdentity(xs[0]);
      NormIsIdentityIn(xs[1..]);
      assert xs == [xs[0]] + xs[1..];
      var r := V.NormAll(xs);
      assert r[0] == V.Norm(xs[0]) && r[1..] == V.NormAll(xs[1..]);
    }
  }

  lemma {:induction false} NormIsIdentityEntries(es: seq<V.Entry>)
    ensures V.NormEntries(es) == es <==> NoSmallUintEntries(es)
    decreases es, 0
  {
    hide V.Norm, NoSmallUint;
    if es != [] {
      NormIsIdentity(es[0].val);
      NormIsIdentityEntries(es[1..]);
      assert es == [es[0]] + es[1..];
      var r := V.NormEntries(es);
      assert r[0] == V.Entry(es[0].key, V.Norm(es[0].val)) && r[1..] == V.NormEntries(es[1..]);
    }
  }

  /** No pointer to something that itself encodes as nil, and no small unsigned number in an
      interface value. */
  predicate Faithful(v: GoVal)
    decreases v, 1
  {
    match v
    case Dyn(x) => NoSmallUint(x)
    case PtrTo(w) => !NilCoded(w) && Faithful(w)
    case Sl(els, _) => AllFaithful(els)
    case Arr(els) => AllFaithful(els)
    case Mp(es) => EntriesFaithful(es)
    case Rec(fs) => AllFaithful(fs)
    case _ => true
  }

  predicate AllFaithful(vs: seq<GoVal>)
    decreases vs, 0
  {
    vs != [] ==> Faithful(vs[0]) && AllFaithful(vs[1..])
  }

  predicate EntriesFaithful(es: seq<GoEntry>)
    decreases es, 0
  {
    es != [] ==> Faithful(es[0].val) && EntriesFaithful(es[1..])
  }

  /** What comes back through variables of the right numbers is what was sent exactly for the
      faithful values. */
  lemma {:induction false} SeenIsSent(v: GoVal)
    ensures Seen(v) == Strip(v) <==> Faithful(v)
    decreases v, 1
  {
    hide SeenAll, StripAll, SeenEntries, StripEntries, AllFaithful, EntriesFaithful, V.Norm, NoSmallUint;
    match v
    case Dyn(x) => NormIsIdentity(x);
    case PtrTo(w) => SeenIsSent(w);
    case Sl(els, _) => AllSeen(els);
    case Arr(els) => AllSeen(els);
    case Mp(es) => EntriesSeen(es);
    case Rec(fs) => AllSeen(fs);
    case _ =>
  }

  lemma {:induction false} AllSeen(vs: seq<GoVal>)
    ensures SeenAll(vs) == StripAll(vs) <==> AllFaithful(vs)
    decreases vs, 0
  {
    hide Seen, Strip, Faithful;
    if vs != [] {
      SeenIsSent(vs[0]);
      AllSeen(vs[1..]);
      Heads(Seen(vs[0]), SeenAll(vs[1..]), Strip(vs[0]), StripAll(vs[1..]));
    }
  }

  lemma {:induction false} EntriesSeen(es: seq<GoEntry>)
    ensures SeenEntries(es) == StripEntries(es) <==> EntriesFaithful(es)
    decreases es, 0
  {
    hide Seen, Strip, Faithful;
    if es != [] {
      SeenIsSent(es[0].val);
      EntriesSeen(es[1..]);
      var seen, same := GoEntry(es[0].key, Seen(es[0].val)), GoEntry(es[0].key, Strip(es[0].val));
      Heads(seen, SeenEntries(es[1..]), same, StripEntries(es[1..]));
    }
  }

  /** A pointer to a nil pointer comes back as a nil pointer. */
  lemma PointerToNil()
    ensures Seen(PtrTo(NilPtr)) == NilPtr && Strip(PtrTo(NilPtr)) == PtrTo(NilPtr)
  {
  }

  /** `MarshalMsg` (or `EncodeMsg`) followed by `UnmarshalMsg`: for every type tree and value, any
      target and any trailing bytes, the fused marshal program succeeds, and the unmarshal program
      run on its output leaves what the target receives and consumes exactly that output. It
      succeeds if and only if every `RawExtension` with data meets its own number in the target,
      and returns the value itself if and only if every one does and the value is faithful. */
  lemma MarshalThenUnmarshal(st: V.Style, env: Env, e: Elem, sent: GoVal, target: GoVal, rest: bytes, fuel: nat)
    requires HasType(env, e, sent) && Enough(fuel, e, sent) && Readable(st, e) && ReadableEnv(st, env)
    ensures var out := MarshalGen.Exec(MarshalGen.Programs(env, st, true), MarshalGen.Emit(e, [], [], st, true),
                                       sent, st, fuel);
      out.Some? &&
      var back := UnmarshalGen.Exec(UnmarshalGen.Programs(env), UnmarshalGen.Emit(e), target, out.value + rest, fuel);
      && back == WithRest(Received(sent, target), rest)
      && (back.Ok? <==> Numbered(sent, target, false))
      && (back.Ok? && Strip(back.value.0) == Strip(sent) <==> Faithful(sent) && Numbered(sent, target, true))
  {
    hide MarshalGen.Exec, MarshalGen.Emit, UnmarshalGen.Exec, UnmarshalGen.Emit, EncGo, HasType, Enough, Readable,
      ReadableEnv, Received, Numbered, Seen, Strip, Faithful;
    MarshalGen.FusingPreservesMeaning(env, e, sent, st, fuel);
    Decodes(st, env, e, sent, target, rest, fuel);
    ReceivedExactly(sent, target);
    SeenIsSent(sent);
  }
}
