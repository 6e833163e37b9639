/** The generated `UnmarshalMsg` inverts the generated `MarshalMsg`, and `EncodeMsg` but for
    arrays of `uint8`: for every type tree, whatever the target held before and whatever
    follows the encoding, what is left is what `Targets.Received` says. `st` says which of the
    two generators encoded. */
module GeneratedRoundTrip {
  import opened Wire
  import opened TypeTree
  import opened Decoding
  import opened Skipping
  import opened UnmarshalGen
  import opened Targets
  import V = Encoding
  import RoundTrip

  /** A reader's result: what was received, and the bytes behind it. */
  function WithRest<T>(r: Result<T>, rest: bytes): Parsed<T> {
    var x :- r;
    Ok((x, rest))
  }

  // ---- Base values -----------------------------------------------------------------------

  lemma IntPrimBack(st: V.Style, p: Prim, want: int8, x: V.Value, rest: bytes)
    requires PrimOk(p, x) && (x.Int? || x.Uint?)
    ensures ReadPrim(p, want, V.Enc(x, st) + rest) == Ok((x, rest))
  {
    hide V.EncInt, V.EncUint, ReadInt64, ReadUint64;
    if x.Int? { RoundTrip.IntBack(x.i, rest); } else { RoundTrip.UintBack(x.u, rest); }
  }

  lemma PrimBack(st: V.Style, p: Prim, want: int8, x: V.Value, rest: bytes)
    requires PrimOk(p, x) && !x.Ext?
    ensures ReadPrim(p, want, V.Enc(x, st) + rest) == Ok((x, rest))
  {
    hide V.EncInt, V.EncUint, V.EncStr, V.EncBin, V.EncTime, ReadInt64, ReadUint64, ReadStr, ReadBin,
      ReadTime, ReadComplex64, ReadComplex128, U32, U64, BE32, BE64;
    match x
    case Int(_) => IntPrimBack(st, p, want, x, rest);
    case Uint(_) => IntPrimBack(st, p, want, x, rest);
    case Str(s) => RoundTrip.StrBack(s, rest);
    case Bin(d) => RoundTrip.BinBack(d, rest);
    case Bool(b) =>
    case Float32(f) => ReadBE32([FLOAT32], f, rest);
    case Float64(f) => ReadBE64([FLOAT64], f, rest);
    case Complex64(re, im) => RoundTrip.Complex64Back(re, im, rest);
    case Complex128(re, im) => RoundTrip.Complex128Back(re, im, rest);
    case Time(s, n) => RoundTrip.TimeBack(s, n, rest);
  }

  /** An extension is read if the variable asks for its number or it has no data. */
  lemma ExtPrimBack(st: V.Style, p: Prim, want: int8, typ: int8, d: bytes, rest: bytes)
    requires (p.PExt? || p == PRaw) && |d| < TWO_32
    ensures ReadPrim(p, want, V.Enc(V.Ext(typ, d), st) + rest)
         == if typ == want || d == [] then Ok((V.Ext(want, d), rest)) else Err(ExtensionTypeError(typ, want))
  {
    hide V.EncExt, ReadExtension;
    RoundTrip.ExtBackInto(typ, d, st, want, rest);
  }

  // ---- Running statements on a field -------------------------------------------------------

  /** The statements for a field do to the struct what they do to the field. */
  lemma {:induction false} WithinLifts(ps: Progs, s: Sel, ss: seq<Stmt>, v: GoVal, b: bytes, fuel: nat)
    requires ss != [] && s.i < s.n
    ensures Exec(ps, Within(s, ss), v, b, fuel) == Lift(s, v, Exec(ps, ss, Expand(v, s.n)[s.i], b, fuel))
    decreases |ss|
  {
    hide Do;
    var w := Within(s, ss);
    var r := ExecAt(ps, ss[0].x, ss[0].op, Expand(v, s.n)[s.i], b, fuel);
    assert ([s] + ss[0].x)[1..] == ss[0].x;
    assert ExecAt(ps, w[0].x, w[0].op, v, b, fuel) == Lift(s, v, r);
    if r.Ok? {
      var v' := Rec(Expand(v, s.n)[s.i := r.value.0]);
      if |ss| == 1 {
        assert Exec(ps, w[1..], v', r.value.1, fuel) == Ok((v', r.value.1));
        assert Exec(ps, ss[1..], r.value.0, r.value.1, fuel) == Ok(r.value);
      } else {
        WithinLifts(ps, s, ss[1..], v', r.value.1, fuel);
        assert w[1..] == Within(s, ss[1..]);
        var r' := Exec(ps, ss[1..], r.value.0, r.value.1, fuel);
        if r'.Ok? { assert Expand(v', s.n)[s.i := r'.value.0] == Expand(v, s.n)[s.i := r'.value.0]; }
      }
    }
  }

  lemma {:induction false} ExecConcat(ps: Progs, a: seq<Stmt>, c: seq<Stmt>, v: GoVal, b: bytes, fuel: nat)
    ensures Exec(ps, a + c, v, b, fuel) ==
      var r := Exec(ps, a, v, b, fuel);
      if r.Ok? then Exec(ps, c, r.value.0, r.value.1, fuel) else r
    decreases |a|
  {
    hide ExecAt;
    if a == [] {
      assert a + c == c;
    } else {
      assert (a + c)[1..] == a[1..] + c;
      var r := ExecAt(ps, a[0].x, a[0].op, v, b, fuel);
      if r.Ok? { ExecConcat(ps, a[1..], c, r.value.0, r.value.1, fuel); }
    }
  }

  lemma ExecSingle(ps: Progs, op: Op, v: GoVal, b: bytes, fuel: nat)
    ensures Exec(ps, [Stmt([], op)], v, b, fuel) == Do(ps, op, v, b, fuel)
  {
    hide Do;
    assert [Stmt([], op)][1..] == [];
    var r := Do(ps, op, v, b, fuel);
    if r.Ok? { ExecNone(ps, r.value.0, r.value.1, fuel); }
  }

  lemma ExecNone(ps: Progs, v: GoVal, b: bytes, fuel: nat)
    ensures Exec(ps, [], v, b, fuel) == Ok((v, b))
  {
  }

  lemma ExecTwo(ps: Progs, op: Op, op': Op, v: GoVal, b: bytes, fuel: nat)
    ensures Exec(ps, [Stmt([], op), Stmt([], op')], v, b, fuel) ==
      var r := Do(ps, op, v, b, fuel);
      if r.Ok? then Do(ps, op', r.value.0, r.value.1, fuel) else r
  {
    hide Do, Exec;
    assert [Stmt([], op), Stmt([], op')] == [Stmt([], op)] + [Stmt([], op')];
    ExecConcat(ps, [Stmt([], op)], [Stmt([], op')], v, b, fuel);
    ExecSingle(ps, op, v, b, fuel);
    var r := Do(ps, op, v, b, fuel);
    if r.Ok? { ExecSingle(ps, op', r.value.0, r.value.1, fuel); }
  }

  // ---- Leading bytes -------------------------------------------------------------------------

  lemma HeaderLead(st: V.Style, n: uint32, v: V.Value)
    ensures V.EncArrayHeader(n)[0] != NIL && V.EncMapHeader(n)[0] != NIL && V.EncBinHeader(n)[0] != NIL
    ensures V.Enc(v, st) != [] && (V.Enc(v, st)[0] == NIL <==> v.Nil?)
  {
    hide BE16, BE32, BE64;
  }

  /** Exactly the values that `NilCoded` names start with the nil byte. */
  lemma {:induction false} NilLead(st: V.Style, env: Env, e: Elem, v: GoVal)
    requires HasType(env, e, v)
    ensures EncGo(env, e, v, st) != [] && (EncGo(env, e, v, st)[0] == NIL <==> NilCoded(v))
    decreases v, if e.Ident? then 1 else 0
  {
    hide EncGoAll, EncGoEntries, EncGoFields, V.Enc, V.EncArrayHeader, V.EncMapHeader, V.EncBinHeader;
    match e
    case Base(p, _, _) => HeaderLead(st, 0, Held(v));
    case Ident(n) => NilLead(st, env, env[n], v);
    case Ptr(y) => if v.PtrTo? { NilLead(st, env, y, v.to); }
    case Slice(_) => HeaderLead(st, |v.els|, V.Nil);
    case Array(n, _) => HeaderLead(st, n, V.Nil);
    case Map(_) => HeaderLead(st, |v.entries|, V.Nil);
    case Struct(fs, _) => HeaderLead(st, |fs|, V.Nil);
  }

  // ---- The round trip ---------------------------------------------------------------------------

  /** No two cases of the switch over the field names are alike. */
  ghost predicate DistinctTags(fs: seq<Field>) {
    forall i, j :: 0 <= i < j < |fs| ==> fs[i].tag != fs[j].tag
  }

  /** The generated reader can tell the fields apart, and expects arrays in the form in which
      they were written: the streaming generator alone writes arrays of `uint8` as bin. */
  ghost predicate Readable(st: V.Style, e: Elem)
    decreases e
  {
    match e
    case Ptr(y) => Readable(st, y)
    case Slice(y) => Readable(st, y)
    case Array(_, y) => IsByteArray(y, st) == IsByteArray(y, V.Slice) && Readable(st, y)
    case Map(y) => Readable(st, y)
    case Struct(fs, tup) => (tup || DistinctTags(fs)) && forall i :: 0 <= i < |fs| ==> Readable(st, fs[i].elem)
    case _ => true
  }

  ghost predicate ReadableEnv(st: V.Style, env: Env) {
    forall n :: n in env ==> Readable(st, env[n])
  }

  /** What decoding must deliver: what the variable receives and the bytes behind it, or the
      error of the first extension it refuses. */
  ghost predicate Delivers(r: Parsed<GoVal>, sent: GoVal, target: GoVal, rest: bytes) {
    r == WithRest(Received(sent, target), rest)
  }

  /** The generated round trip: running `UnmarshalMsg` of a type on what `MarshalMsg` (or
      `EncodeMsg`) of it produced, followed by any bytes, into any target, leaves what the target
      receives, and those bytes. */
  lemma {:induction false} Decodes(st: V.Style, env: Env, e: Elem, sent: GoVal, target: GoVal, rest: bytes, fuel: nat)
    requires HasType(env, e, sent) && Enough(fuel, e, sent) && Readable(st, e) && ReadableEnv(st, env)
    ensures Delivers(Exec(Programs(env), Emit(e), target, EncGo(env, e, sent, st) + rest, fuel), sent, target, rest)
    decreases Depth(sent), if e.Ident? then 2 else 1, 1
  {
    hide Exec, Do, EncGo, Emit, HasType, Enough, Readable, ReadableEnv, Delivers, Depth;
    match e
    case Base(_, _, _) => BaseDecodes(st, env, e, sent, target, rest, fuel);
    case Ident(_) => IdentDecodes(st, env, e, sent, target, rest, fuel);
    case Ptr(_) => PtrDecodes(st, env, e, sent, target, rest, fuel);
    case Slice(_) => SliceDecodes(st, env, e, sent, target, rest, fuel);
    case Array(_, _) => ArrayDecodes(st, env, e, sent, target, rest, fuel);
    case Map(_) => MapDecodes(st, env, e, sent, target, rest, fuel);
    case Struct(_, true) => TupleDecodes(st, env, e, sent, target, rest, fuel);
    case Struct(_, false) => StructDecodes(st, env, e, sent, target, rest, fuel);
  }

  lemma BaseDecodes(st: V.Style, env: Env, e: Elem, sent: GoVal, target: GoVal, rest: bytes, fuel: nat)
    requires e.Base? && HasType(env, e, sent)
    ensures Delivers(Exec(Programs(env), Emit(e), target, EncGo(env, e, sent, st) + rest, fuel), sent, target, rest)
  {
    hide Exec, ReadPrim, V.Enc, V.Fits, V.Norm;
    var p, want, x := e.prim, Wanted(e.prim, target), Held(sent);
    ExecSingle(Programs(env), ReadBase(p), target, V.Enc(x, st) + rest, fuel);
    if p == PIntf {
      IntfPrimBack(st, want, x, rest);
    } else if x.Ext? {
      ExtPrimBack(st, p, want, x.typ, x.body, rest);
    } else {
      PrimBack(st, p, want, x, rest);
    }
  }

  lemma IntfPrimBack(st: V.Style, want: int8, x: V.Value, rest: bytes)
    requires V.Fits(x)
    ensures ReadPrim(PIntf, want, V.Enc(x, st) + rest) == Ok((V.Norm(x), rest))
  {
    hide ReadIntf, V.Enc, V.Norm;
    RoundTrip.IntfBack(x, st, rest);
  }

  lemma IdentDecodes(st: V.Style, env: Env, e: Elem, sent: GoVal, target: GoVal, rest: bytes, fuel: nat)
    requires e.Ident?
    requires HasType(env, e, sent) && Enough(fuel, e, sent) && Readable(st, e) && ReadableEnv(st, env)
    ensures Delivers(Exec(Programs(env), Emit(e), target, EncGo(env, e, sent, st) + rest, fuel), sent, target, rest)
    decreases Depth(sent), 2, 0
  {
    hide Exec, Delivers, Readable, Depth;
    var b := EncGo(env, e, sent, st) + rest;
    ExecSingle(Programs(env), CallUnmarshal(e.name), target, b, fuel);
    Decodes(st, env, env[e.name], sent, target, rest, fuel - 1);
  }

  lemma PtrDecodes(st: V.Style, env: Env, e: Elem, sent: GoVal, target: GoVal, rest: bytes, fuel: nat)
    requires e.Ptr?
    requires HasType(env, e, sent) && Enough(fuel, e, sent) && Readable(st, e) && ReadableEnv(st, env)
    ensures Delivers(Exec(Programs(env), Emit(e), target, EncGo(env, e, sent, st) + rest, fuel), sent, target, rest)
    decreases Depth(sent), 1, 0
  {
    hide Exec, ReadableEnv;
    var b := EncGo(env, e, sent, st) + rest;
    ExecSingle(Programs(env), NilOr(Emit(e.to)), target, b, fuel);
    NilLead(st, env, e, sent);
    if NilCoded(sent) {
      NilAlone(st, env, e, sent);
    } else {
      Decodes(st, env, e.to, sent.to, Pointee(target), rest, fuel);
    }
  }

  /** A value coded as nil is the nil byte and nothing else. */
  lemma {:induction false} NilAlone(st: V.Style, env: Env, e: Elem, v: GoVal)
    requires HasType(env, e, v) && NilCoded(v)
    ensures EncGo(env, e, v, st) == [NIL]
    decreases v, if e.Ident? then 1 else 0
  {
    match e
    case Ident(n) => NilAlone(st, env, env[n], v);
    case Ptr(y) => if v.PtrTo? { NilAlone(st, env, y, v.to); }
    case _ =>
  }

  // ---- Slices and arrays -------------------------------------------------------------------------

  lemma {:induction false} LoopDecodes(st: V.Style, env: Env, e: Elem, sent: seq<GoVal>, targets: seq<GoVal>,
                                       rest: bytes, fuel: nat)
    requires |targets| == |sent| && AllTyped(env, e, sent) && fuel >= MaxDepth(sent)
    requires Readable(st, e) && ReadableEnv(st, env)
    ensures Loop(Programs(env), Emit(e), targets, EncGoAll(env, e, sent, st) + rest, fuel)
         == WithRest(ReceivedAll(sent, targets), rest)
    decreases MaxDepth(sent), 3, |sent|
  {
    hide Exec, EncGo, Emit, HasType, Readable, ReadableEnv, Received, Depth;
    if sent == [] {
      assert EncGoAll(env, e, sent, st) + rest == rest;
    } else {
      var tail := EncGoAll(env, e, sent[1..], st) + rest;
      assert EncGoAll(env, e, sent, st) + rest == EncGo(env, e, sent[0], st) + tail;
      Decodes(st, env, e, sent[0], targets[0], tail, fuel);
      LoopDecodes(st, env, e, sent[1..], targets[1..], rest, fuel);
    }
  }

  lemma SliceDecodes(st: V.Style, env: Env, e: Elem, sent: GoVal, target: GoVal, rest: bytes, fuel: nat)
    requires e.Slice?
    requires HasType(env, e, sent) && Enough(fuel, e, sent) && Readable(st, e) && ReadableEnv(st, env)
    ensures Delivers(Exec(Programs(env), Emit(e), target, EncGo(env, e, sent, st) + rest, fuel), sent, target, rest)
    decreases Depth(sent), 1, 0
  {
    hide Exec, Loop, EncGoAll, ReadableEnv, ReceivedAll, AllTyped, ReadArrayHeader, V.EncArrayHeader, MaxDepth, Resize;
    var n, body := |sent.els|, EncGoAll(env, e.els, sent.els, st) + rest;
    var ps, room := Programs(env), Resize(target, n);
    assert EncGo(env, e, sent, st) + rest == V.EncArrayHeader(n) + body;
    RoundTrip.ArrayHeaderBack(n, body);
    ExecTwo(ps, ResizeSlice, RangeInto(Emit(e.els)), target, V.EncArrayHeader(n) + body, fuel);
    LoopDecodes(st, env, e.els, sent.els, room.els, rest, fuel);
  }

  lemma ArrayDecodes(st: V.Style, env: Env, e: Elem, sent: GoVal, target: GoVal, rest: bytes, fuel: nat)
    requires e.Array?
    requires HasType(env, e, sent) && Enough(fuel, e, sent) && Readable(st, e) && ReadableEnv(st, env)
    ensures Delivers(Exec(Programs(env), Emit(e), target, EncGo(env, e, sent, st) + rest, fuel), sent, target, rest)
    decreases Depth(sent), 1, 0
  {
    hide Exec, Loop, EncGoAll, ReadableEnv, ReceivedAll, ReadArrayHeader, V.EncArrayHeader, V.EncBin, MaxDepth,
      Elements;
    var n, ps := e.size, Programs(env);
    if IsByteArray(e.els, st) {
      ByteArrayDecodes(st, env, e, sent, target, rest, fuel);
    } else {
      var body := EncGoAll(env, e.els, sent.els, st) + rest;
      assert EncGo(env, e, sent, st) + rest == V.EncArrayHeader(n) + body;
      RoundTrip.ArrayHeaderBack(n, body);
      ExecTwo(ps, ArrayHeader(n), RangeInto(Emit(e.els)), target, V.EncArrayHeader(n) + body, fuel);
      LoopDecodes(st, env, e.els, sent.els, Elements(target, n), rest, fuel);
    }
  }

  lemma ByteArrayDecodes(st: V.Style, env: Env, e: Elem, sent: GoVal, target: GoVal, rest: bytes, fuel: nat)
    requires e.Array? && IsByteArray(e.els, st)
    requires HasType(env, e, sent) && Readable(st, e)
    ensures Delivers(Exec(Programs(env), Emit(e), target, EncGo(env, e, sent, st) + rest, fuel), sent, target, rest)
  {
    hide Exec, ReceivedAll, V.EncBin, ReadExact, Elements;
    var ps, data := Programs(env), ByteString(sent.els);
    ExecSingle(ps, ReadExactly(e.size, e.els.convert), target, V.EncBin(data) + rest, fuel);
    RoundTrip.ExactBack(data, ByteString(Elements(target, e.size)), rest);
    BytesReceived(st, env, e.els, sent.els, Elements(target, e.size));
  }

  lemma {:induction false} BytesReceived(st: V.Style, env: Env, e: Elem, sent: seq<GoVal>, targets: seq<GoVal>)
    requires IsByteArray(e, st) && AllTyped(env, e, sent) && |targets| == |sent|
    ensures ReceivedAll(sent, targets) == Ok(BytesToGo(ByteString(sent)))
  {
    if sent != [] {
      BytesReceived(st, env, e, sent[1..], targets[1..]);
      assert HasType(env, e, sent[0]);
      assert BytesToGo(ByteString(sent)) == [sent[0]] + BytesToGo(ByteString(sent[1..]));
    }
  }

  // ---- Maps -------------------------------------------------------------------------------------------

  lemma {:induction false} AssignGoFresh(es: seq<GoEntry>, key: bytes, val: GoVal)
    requires forall i :: 0 <= i < |es| ==> es[i].key != key
    ensures AssignGo(es, key, val) == es + [GoEntry(key, val)]
  {
    if es != [] { AssignGoFresh(es[1..], key, val); }
  }

  /** The keys of `es` are distinct from each other and from those of `acc`. */
  ghost predicate FreshKeys(acc: seq<GoEntry>, es: seq<GoEntry>) {
    DistinctGoKeys(es) && forall i, j :: 0 <= i < |acc| && 0 <= j < |es| ==> acc[i].key != es[j].key
  }

  lemma FreshNext(acc: seq<GoEntry>, es: seq<GoEntry>, val: GoVal)
    requires es != [] && FreshKeys(acc, es)
    ensures AssignGo(acc, es[0].key, val) == acc + [GoEntry(es[0].key, val)]
    ensures FreshKeys(acc + [GoEntry(es[0].key, val)], es[1..])
  {
    AssignGoFresh(acc, es[0].key, val);
  }

  lemma {:induction false} EntriesDecode(st: V.Style, env: Env, e: Elem, sent: seq<GoEntry>, acc: seq<GoEntry>,
                                         rest: bytes, fuel: nat)
    requires EntriesTyped(env, e, sent) && fuel >= EntriesDepth(sent) && FreshKeys(acc, sent)
    requires Readable(st, e) && ReadableEnv(st, env)
    ensures EntryLoop(Programs(env), Emit(e), |sent|, acc, EncGoEntries(env, e, sent, st) + rest, fuel)
         == WithRest(Behind(acc, ReceivedEntries(sent)), rest)
    decreases EntriesDepth(sent), 3, |sent|
  {
    hide EncGo, Emit, HasType, Readable, ReadableEnv, Received, Depth, V.EncStr, ReadStr, FreshKeys, AssignGo, Exec;
    if sent == [] {
      assert EncGoEntries(env, e, sent, st) + rest == rest;
      assert acc + [] == acc;
    } else {
      var tail := EncGoEntries(env, e, sent[1..], st) + rest;
      var o := EncGo(env, e, sent[0].val, st) + tail;
      assert EncGoEntries(env, e, sent, st) + rest == V.EncStr(sent[0].key) + o;
      RoundTrip.StrBack(sent[0].key, o);
      Decodes(st, env, e, sent[0].val, Zero, tail, fuel);
      var got := Received(sent[0].val, Zero);
      if got.Ok? {
        var head := GoEntry(sent[0].key, got.value);
        FreshNext(acc, sent, got.value);
        EntriesDecode(st, env, e, sent[1..], acc + [head], rest, fuel);
        var more := ReceivedEntries(sent[1..]);
        if more.Ok? { assert acc + [head] + more.value == acc + ([head] + more.value); }
      }
    }
  }

  /** The entries before, then those received. */
  function Behind(acc: seq<GoEntry>, got: Result<seq<GoEntry>>): Result<seq<GoEntry>> {
    var es :- got;
    Ok(acc + es)
  }

  lemma MapDecodes(st: V.Style, env: Env, e: Elem, sent: GoVal, target: GoVal, rest: bytes, fuel: nat)
    requires e.Map?
    requires HasType(env, e, sent) && Enough(fuel, e, sent) && Readable(st, e) && ReadableEnv(st, env)
    ensures Delivers(Exec(Programs(env), Emit(e), target, EncGo(env, e, sent, st) + rest, fuel), sent, target, rest)
    decreases Depth(sent), 1, 0
  {
    hide Exec, EntryLoop, EncGoEntries, ReadableEnv, ReceivedEntries, EntriesTyped, ReadMapHeader, V.EncMapHeader,
      EntriesDepth;
    var n, body := |sent.entries|, EncGoEntries(env, e.value, sent.entries, st) + rest;
    assert EncGo(env, e, sent, st) + rest == V.EncMapHeader(n) + body;
    RoundTrip.MapHeaderBack(n, body);
    ExecSingle(Programs(env), MapLoop(Emit(e.value)), target, V.EncMapHeader(n) + body, fuel);
    EntriesDecode(st, env, e.value, sent.entries, [], rest, fuel);
    var got := ReceivedEntries(sent.entries);
    if got.Ok? { assert [] + got.value == got.value; }
  }

  // ---- Tuples --------------------------------------------------------------------------------------------

  /** The fields from `i` on receive what was sent, the others are as they were. */
  function FilledFrom(before: seq<GoVal>, i: nat, sent: seq<GoVal>): Result<GoVal>
    requires i <= |before| == |sent|
  {
    var got :- ReceivedAll(sent[i..], before[i..]);
    Ok(Rec(before[..i] + got))
  }

  lemma FilledNext(before: seq<GoVal>, i: nat, sent: seq<GoVal>)
    requires i < |before| == |sent|
    ensures var got := Received(sent[i], before[i]);
      FilledFrom(before, i, sent) == if got.Ok? then FilledFrom(before[i := got.value], i + 1, sent) else Err(got.error)
  {
    hide Received;
    assert sent[i..][1..] == sent[i + 1..] && before[i..][1..] == before[i + 1..];
    var got := Received(sent[i], before[i]);
    if got.Ok? {
      var after := before[i := got.value];
      assert after[i + 1..] == before[i + 1..] && after[..i + 1] == before[..i] + [got.value];
      var more := ReceivedAll(sent[i + 1..], before[i + 1..]);
      if more.Ok? { assert before[..i] + [got.value] + more.value == before[..i] + ([got.value] + more.value); }
    }
  }

  lemma FilledAll(before: seq<GoVal>, sent: seq<GoVal>)
    requires |before| == |sent|
    ensures FilledFrom(before, |sent|, sent) == Ok(Rec(before))
    ensures FilledFrom(before, 0, sent) == (var got :- ReceivedAll(sent, before); Ok(Rec(got)))
  {
    assert sent[0..] == sent && before[0..] == before && before[..|sent|] + [] == before;
    var got := ReceivedAll(sent, before);
    if got.Ok? { assert before[..0] + got.value == got.value; }
  }

  lemma {:induction false} TupleFieldsDecode(st: V.Style, env: Env, fs: seq<Field>, i: nat, sent: seq<GoVal>,
                                             before: seq<GoVal>, rest: bytes, fuel: nat)
    requires i <= |fs| == |sent| == |before| && FieldsTyped(env, fs, sent) && fuel >= MaxDepth(sent)
    requires ReadableEnv(st, env) && forall j :: 0 <= j < |fs| ==> Readable(st, fs[j].elem)
    ensures Exec(Programs(env), EmitTuple(fs, i), Rec(before), EncGoFields(env, fs, sent, i, true, st) + rest, fuel)
         == WithRest(FilledFrom(before, i, sent), rest)
    decreases MaxDepth(sent), 3, |fs| - i
  {
    hide Exec, EncGo, Emit, HasType, Readable, ReadableEnv, FilledFrom, Received, Depth, Within;
    var ps := Programs(env);
    if i == |fs| {
      assert EncGoFields(env, fs, sent, i, true, st) + rest == rest;
      ExecNone(ps, Rec(before), rest, fuel);
      FilledAll(before, sent);
    } else {
      var tail := EncGoFields(env, fs, sent, i + 1, true, st) + rest;
      var b := EncGo(env, fs[i].elem, sent[i], st) + tail;
      assert EncGoFields(env, fs, sent, i, true, st) + rest == b;
      var s, body := Sel(i, |fs|), Emit(fs[i].elem);
      Decodes(st, env, fs[i].elem, sent[i], before[i], tail, fuel);
      WithinLifts(ps, s, body, Rec(before), b, fuel);
      ExecConcat(ps, Within(s, body), EmitTuple(fs, i + 1), Rec(before), b, fuel);
      FilledNext(before, i, sent);
      var got := Received(sent[i], before[i]);
      if got.Ok? { TupleFieldsDecode(st, env, fs, i + 1, sent, before[i := got.value], rest, fuel); }
    }
  }

  lemma TupleDecodes(st: V.Style, env: Env, e: Elem, sent: GoVal, target: GoVal, rest: bytes, fuel: nat)
    requires e.Struct? && e.asTuple
    requires HasType(env, e, sent) && Enough(fuel, e, sent) && Readable(st, e) && ReadableEnv(st, env)
    ensures Delivers(Exec(Programs(env), Emit(e), target, EncGo(env, e, sent, st) + rest, fuel), sent, target, rest)
    decreases Depth(sent), 1, 0
  {
    hide Exec, EncGoFields, ReadableEnv, ReceivedAll, FieldsTyped, ReadArrayHeader, V.EncArrayHeader, MaxDepth,
      EmitTuple, FilledFrom, Expand;
    var fs, n := e.fields, |e.fields|;
    var before, body := Expand(target, n), EncGoFields(env, fs, sent.fields, 0, true, st) + rest;
    var ps, b := Programs(env), V.EncArrayHeader(n) + body;
    assert EncGo(env, e, sent, st) + rest == b;
    RoundTrip.ArrayHeaderBack(n, body);
    ExecSingle(ps, TupleHeader(n), target, b, fuel);
    ExecConcat(ps, [Stmt([], TupleHeader(n))], EmitTuple(fs, 0), target, b, fuel);
    TupleFieldsDecode(st, env, fs, 0, sent.fields, before, rest, fuel);
    FilledAll(before, sent.fields);
  }

  // ---- Structs as maps: any order, unknown fields, repeated fields ----------------------------------------

  /** An entry of the encoded map: a field of the struct with a value for it, or a name the
      struct does not have with any one object. The key is given as it is encoded. */
  datatype Item =
    | Known(i: nat, keyBytes: bytes, val: GoVal)
    | Unknown(keyBytes: bytes, key: bytes, obj: bytes)

  ghost predicate ItemOk(env: Env, fs: seq<Field>, it: Item) {
    match it
    case Known(i, k, v) => i < |fs| && ReadMapKey(k) == Ok((fs[i].tag, [])) && HasType(env, fs[i].elem, v)
    case Unknown(k, key, obj) =>
      ReadMapKey(k) == Ok((key, [])) && IsObject(obj) && forall i :: 0 <= i < |fs| ==> fs[i].tag != key
  }

  ghost predicate ItemsOk(env: Env, fs: seq<Field>, its: seq<Item>) {
    forall i :: 0 <= i < |its| ==> ItemOk(env, fs, its[i])
  }

  ghost function ItemBytes(st: V.Style, env: Env, fs: seq<Field>, it: Item): bytes
    requires ItemOk(env, fs, it)
  {
    it.keyBytes + if it.Known? then EncGo(env, fs[it.i].elem, it.val, st) else it.obj
  }

  ghost function ItemsBytes(st: V.Style, env: Env, fs: seq<Field>, its: seq<Item>): bytes
    requires ItemsOk(env, fs, its)
  {
    if its == [] then [] else ItemBytes(st, env, fs, its[0]) + ItemsBytes(st, env, fs, its[1..])
  }

  function ItemDepth(it: Item): nat { if it.Known? then Depth(it.val) else 0 }

  function ItemsDepth(its: seq<Item>): (d: nat)
    ensures forall i :: 0 <= i < |its| ==> ItemDepth(its[i]) <= d
  {
    if its == [] then 0
    else
      var rest := ItemsDepth(its[1..]);
      assert forall i :: 0 < i < |its| ==> its[i] == its[1..][i - 1];
      if ItemDepth(its[0]) > rest then ItemDepth(its[0]) else rest
  }

  /** The fields after reading the entries into them, one entry after the other. */
  function After(its: seq<Item>, before: seq<GoVal>): (r: Result<seq<GoVal>>)
    ensures r.Ok? ==> |r.value| == |before|
  {
    if its == [] then Ok(before)
    else if its[0].Known? && its[0].i < |before| then
      var got :- Received(its[0].val, before[its[0].i]);
      After(its[1..], before[its[0].i := got])
    else After(its[1..], before)
  }

  /** Field `i` alone. */
  function FieldAfter(its: seq<Item>, i: nat, before: GoVal): Result<GoVal> {
    if its == [] then Ok(before)
    else if its[0].Known? && its[0].i == i then
      var got :- Received(its[0].val, before);
      FieldAfter(its[1..], i, got)
    else FieldAfter(its[1..], i, before)
  }

  /** The last value given for field `i`. */
  function Last(its: seq<Item>, i: nat): Option<GoVal> {
    if its == [] then None
    else
      var later := Last(its[1..], i);
      if later.Some? then later
      else if its[0].Known? && its[0].i == i then Some(its[0].val)
      else None
  }

  /** Fields do not get in each other's way: whether the entries are taken, and what a field
      holds after them, is told by its own entries. */
  lemma {:induction false} FieldsAreApart(its: seq<Item>, before: seq<GoVal>)
    ensures After(its, before).Ok? <==> forall i :: 0 <= i < |before| ==> FieldAfter(its, i, before[i]).Ok?
    ensures After(its, before).Ok? ==>
      forall i :: 0 <= i < |before| ==> FieldAfter(its, i, before[i]) == Ok(After(its, before).value[i])
  {
    hide Received;
    if its != [] {
      if its[0].Known? && its[0].i < |before| {
        var k := its[0].i;
        var got := Received(its[0].val, before[k]);
        if got.Ok? {
          var next := before[k := got.value];
          FieldsAreApart(its[1..], next);
          assert forall i :: 0 <= i < |before| ==> FieldAfter(its, i, before[i]) == FieldAfter(its[1..], i, next[i]);
        } else {
          assert FieldAfter(its, k, before[k]).Err?;
        }
      } else {
        FieldsAreApart(its[1..], before);
        assert forall i :: 0 <= i < |before| ==> FieldAfter(its, i, before[i]) == FieldAfter(its[1..], i, before[i]);
      }
    }
  }

  /** `got` is what some variable holds after `v` was read into it. */
  ghost predicate Holds(got: GoVal, v: GoVal) {
    exists target :: Received(v, target) == Ok(got)
  }

  /** A field ends up with the last value given for it, or with what it held before. */
  lemma {:induction false} LastWins(its: seq<Item>, i: nat, before: GoVal)
    ensures Last(its, i).None? ==> FieldAfter(its, i, before) == Ok(before)
    ensures Last(its, i).Some? && FieldAfter(its, i, before).Ok? ==>
      Holds(FieldAfter(its, i, before).value, Last(its, i).value)
  {
    hide Received;
    if its != [] {
      if its[0].Known? && its[0].i == i {
        var got := Received(its[0].val, before);
        if got.Ok? { LastWins(its[1..], i, got.value); }
      } else {
        LastWins(its[1..], i, before);
      }
    }
  }

  /** A value without a `RawExtension` is then seen in full. */
  lemma HeldInFull(got: GoVal, v: GoVal)
    requires Holds(got, v) && Unnumbered(v, true)
    ensures Strip(got) == Seen(v)
  {
    var target :| Received(v, target) == Ok(got);
    AnyTarget(v, target);
    ReceivedExactly(v, target);
  }

  /** The switch finds the case of a field, and no case for any other name. */
  lemma {:induction false} CaseOf(fs: seq<Field>, from: nat, i: nat)
    requires from <= i < |fs| && DistinctTags(fs)
    ensures FindCase(EmitCases(fs, from), fs[i].tag) == Ok(Within(Sel(i, |fs|), Emit(fs[i].elem)))
    decreases i - from
  {
    hide Emit, Within;
    CasesSplit(fs, from);
    if from < i {
      CaseOf(fs, from + 1, i);
    }
  }

  lemma CasesSplit(fs: seq<Field>, from: nat)
    requires from < |fs|
    ensures EmitCases(fs, from)[0] == Case(fs[from].tag, Within(Sel(from, |fs|), Emit(fs[from].elem)))
    ensures EmitCases(fs, from)[1..] == EmitCases(fs, from + 1)
  {
    hide Emit, Within;
  }

  lemma {:induction false} NoCase(fs: seq<Field>, from: nat, key: bytes)
    requires from <= |fs| && forall i :: 0 <= i < |fs| ==> fs[i].tag != key
    ensures FindCase(EmitCases(fs, from), key).Err?
    decreases |fs| - from
  {
    hide Emit, Within;
    if from < |fs| {
      assert EmitCases(fs, from)[1..] == EmitCases(fs, from + 1);
      NoCase(fs, from + 1, key);
    }
  }

  /** One entry: the field it names receives its value; an unknown name changes nothing. */
  lemma ItemDecodes(st: V.Style, env: Env, fs: seq<Field>, it: Item, n: nat, before: seq<GoVal>, more: bytes, fuel: nat)
    requires n > 0 && |before| == |fs| && DistinctTags(fs) && ItemOk(env, fs, it) && fuel >= ItemDepth(it)
    requires ReadableEnv(st, env) && forall j :: 0 <= j < |fs| ==> Readable(st, fs[j].elem)
    ensures var after := After([it], before);
      FieldLoop(Programs(env), EmitCases(fs, 0), n, Rec(before), ItemBytes(st, env, fs, it) + more, fuel)
      == if after.Ok? then FieldLoop(Programs(env), EmitCases(fs, 0), n - 1, Rec(after.value), more, fuel)
         else Err(after.error)
    decreases ItemDepth(it), 3, 0
  {
    hide Exec, EncGo, Emit, HasType, Readable, ReadableEnv, Received, Depth, Within, ReadMapKey, FindCase, EmitCases,
      Skip, FieldLoop, IsObject;
    var ps, cases := Programs(env), EmitCases(fs, 0);
    assert [it][1..] == [];
    if it.Known? {
      var val := EncGo(env, fs[it.i].elem, it.val, st);
      var s, body, o := Sel(it.i, |fs|), Emit(fs[it.i].elem), val + more;
      KeyLocal(it.keyBytes, fs[it.i].tag, o);
      assert ItemBytes(st, env, fs, it) + more == it.keyBytes + o;
      CaseOf(fs, 0, it.i);
      Decodes(st, env, fs[it.i].elem, it.val, before[it.i], more, fuel);
      WithinLifts(ps, s, body, Rec(before), o, fuel);
      CaseStep(ps, cases, n, Rec(before), it.keyBytes + o, fuel, fs[it.i].tag, o, Within(s, body));
    } else {
      var o := it.obj + more;
      KeyLocal(it.keyBytes, it.key, o);
      assert ItemBytes(st, env, fs, it) + more == it.keyBytes + o;
      NoCase(fs, 0, it.key);
      ObjectInFront(it.obj, more);
      DefaultStep(ps, cases, n, Rec(before), it.keyBytes + o, fuel, it.key, o, more);
    }
  }

  lemma CaseStep(ps: Progs, cases: seq<Case>, n: nat, v: GoVal, b: bytes, fuel: nat, key: bytes, o: bytes,
                 body: seq<Stmt>)
    requires n > 0 && ReadMapKey(b) == Ok((key, o)) && FindCase(cases, key) == Ok(body)
    ensures var r := Exec(ps, body, v, o, fuel);
      FieldLoop(ps, cases, n, v, b, fuel)
      == if r.Ok? then FieldLoop(ps, cases, n - 1, r.value.0, r.value.1, fuel) else Err(r.error)
  {
    hide ReadMapKey, FindCase, Exec;
  }

  lemma DefaultStep(ps: Progs, cases: seq<Case>, n: nat, v: GoVal, b: bytes, fuel: nat, key: bytes, o: bytes, o': bytes)
    requires n > 0 && ReadMapKey(b) == Ok((key, o)) && FindCase(cases, key).Err? && Skip(o) == Ok(o')
    ensures FieldLoop(ps, cases, n, v, b, fuel) == FieldLoop(ps, cases, n - 1, v, o', fuel)
  {
    hide ReadMapKey, FindCase, Exec, Skip;
  }

  /** Field order, unknown fields and repeated fields do not matter: after any list of entries
      the fields are what `After` says, each told by its own entries. */
  lemma {:induction false} ItemsDecode(st: V.Style, env: Env, fs: seq<Field>, its: seq<Item>, before: seq<GoVal>,
                                       rest: bytes, fuel: nat)
    requires |before| == |fs| && DistinctTags(fs) && ItemsOk(env, fs, its) && fuel >= ItemsDepth(its)
    requires ReadableEnv(st, env) && forall j :: 0 <= j < |fs| ==> Readable(st, fs[j].elem)
    ensures FieldLoop(Programs(env), EmitCases(fs, 0), |its|, Rec(before), ItemsBytes(st, env, fs, its) + rest, fuel)
         == WithRest(Fields(After(its, before)), rest)
    decreases ItemsDepth(its), 4, |its|
  {
    hide FieldLoop, ItemOk, ItemBytes, EmitCases, Readable, ReadableEnv, Received, Depth, DistinctTags;
    var ps, cases := Programs(env), EmitCases(fs, 0);
    if its == [] {
      assert ItemsBytes(st, env, fs, its) + rest == rest;
      NoItems(ps, cases, before, rest, fuel);
    } else {
      var more := ItemsBytes(st, env, fs, its[1..]) + rest;
      assert ItemsBytes(st, env, fs, its) + rest == ItemBytes(st, env, fs, its[0]) + more;
      ItemDecodes(st, env, fs, its[0], |its|, before, more, fuel);
      AfterNext(its, before);
      var after := After([its[0]], before);
      if after.Ok? { ItemsDecode(st, env, fs, its[1..], after.value, rest, fuel); }
    }
  }

  function Fields(r: Result<seq<GoVal>>): Result<GoVal> {
    var fs :- r;
    Ok(Rec(fs))
  }

  lemma AfterNext(its: seq<Item>, before: seq<GoVal>)
    requires its != []
    ensures var after := After([its[0]], before);
      After(its, before) == if after.Ok? then After(its[1..], after.value) else Err(after.error)
  {
    hide Received;
    assert [its[0]][1..] == [];
  }

  lemma NoItems(ps: Progs, cases: seq<Case>, before: seq<GoVal>, b: bytes, fuel: nat)
    ensures FieldLoop(ps, cases, 0, Rec(before), b, fuel) == Ok((Rec(before), b))
  {
  }

  /** The entries `MarshalMsg` writes: every field once, in order. */
  function InOrder(fs: seq<Field>, vs: seq<GoVal>, i: nat): (its: seq<Item>)
    requires |fs| == |vs|
    ensures |its| == if i <= |fs| then |fs| - i else 0
  {
    if i >= |fs| then []
    else seq(|fs| - i, k requires 0 <= k < |fs| - i => Known(i + k, V.EncStr(fs[i + k].tag), vs[i + k]))
  }

  lemma InOrderOk(env: Env, fs: seq<Field>, vs: seq<GoVal>, i: nat)
    requires |fs| == |vs| && FieldsTyped(env, fs, vs)
    ensures ItemsOk(env, fs, InOrder(fs, vs, i))
  {
    hide ReadMapKey, V.EncStr;
    var its := InOrder(fs, vs, i);
    forall k | 0 <= k < |its| ensures ItemOk(env, fs, its[k]) {
      RoundTrip.KeyBack(fs[i + k].tag, []);
      assert V.EncStr(fs[i + k].tag) + [] == V.EncStr(fs[i + k].tag);
    }
  }

  lemma {:induction false} InOrderBytes(st: V.Style, env: Env, fs: seq<Field>, vs: seq<GoVal>, i: nat)
    requires |fs| == |vs| && i <= |fs| && ItemsOk(env, fs, InOrder(fs, vs, i))
    ensures ItemsBytes(st, env, fs, InOrder(fs, vs, i)) == EncGoFields(env, fs, vs, i, false, st)
    decreases |fs| - i
  {
    hide ItemOk, V.EncStr, EncGo;
    if i < |fs| {
      var its := InOrder(fs, vs, i);
      assert its[1..] == InOrder(fs, vs, i + 1);
      InOrderBytes(st, env, fs, vs, i + 1);
    }
  }

  lemma {:induction false} DepthWithin(its: seq<Item>, d: nat)
    requires forall i :: 0 <= i < |its| ==> ItemDepth(its[i]) <= d
    ensures ItemsDepth(its) <= d
  {
    hide ItemDepth;
    if its != [] {
      DepthWithin(its[1..], d);
    }
  }

  lemma InOrderDepth(fs: seq<Field>, vs: seq<GoVal>)
    requires |fs| == |vs|
    ensures ItemsDepth(InOrder(fs, vs, 0)) <= MaxDepth(vs)
  {
    hide Depth, V.EncStr;
    var its := InOrder(fs, vs, 0);
    forall k | 0 <= k < |its| ensures ItemDepth(its[k]) <= MaxDepth(vs) {
      assert its[k].val == vs[k];
    }
    hide MaxDepth;
    DepthWithin(its, MaxDepth(vs));
  }

  /** Entries in field order fill the fields one after the other. */
  lemma {:induction false} InOrderFills(fs: seq<Field>, vs: seq<GoVal>, i: nat, before: seq<GoVal>)
    requires |fs| == |vs| == |before| && i <= |fs|
    ensures Fields(After(InOrder(fs, vs, i), before)) == FilledFrom(before, i, vs)
    decreases |fs| - i
  {
    hide V.EncStr, Received, FilledFrom;
    if i == |fs| {
      FilledAll(before, vs);
    } else {
      FilledNext(before, i, vs);
      assert InOrder(fs, vs, i)[1..] == InOrder(fs, vs, i + 1);
      var got := Received(vs[i], before[i]);
      if got.Ok? { InOrderFills(fs, vs, i + 1, before[i := got.value]); }
    }
  }

  lemma StructDecodes(st: V.Style, env: Env, e: Elem, sent: GoVal, target: GoVal, rest: bytes, fuel: nat)
    requires e.Struct? && !e.asTuple
    requires HasType(env, e, sent) && Enough(fuel, e, sent) && Readable(st, e) && ReadableEnv(st, env)
    ensures Delivers(Exec(Programs(env), Emit(e), target, EncGo(env, e, sent, st) + rest, fuel), sent, target, rest)
    decreases Depth(sent), 1, 0
  {
    hide ItemsOk, ItemsBytes, Exec, ReadableEnv, Emit, EncGo, ItemsDepth, MaxDepth, EncGoFields, FieldsTyped, After,
      FilledFrom, ReceivedAll, Expand;
    var fs, n := e.fields, |e.fields|;
    var its, before := InOrder(fs, sent.fields, 0), Expand(target, n);
    InOrderOk(env, fs, sent.fields, 0);
    InOrderDepth(fs, sent.fields);
    InOrderStruct(st, env, e, sent);
    AnyFieldOrder(st, env, e, its, target, rest, fuel);
    InOrderFills(fs, sent.fields, 0, before);
    FilledAll(before, sent.fields);
  }

  /** The encoding of a map-encoded struct is its entries in field order. */
  lemma InOrderStruct(st: V.Style, env: Env, e: Elem, sent: GoVal)
    requires e.Struct? && !e.asTuple && sent.Rec? && |sent.fields| == |e.fields| < TWO_32
    requires ItemsOk(env, e.fields, InOrder(e.fields, sent.fields, 0))
    ensures EncGo(env, e, sent, st)
         == V.EncMapHeader(|e.fields|) + ItemsBytes(st, env, e.fields, InOrder(e.fields, sent.fields, 0))
  {
    hide ItemsOk, ItemsBytes, EncGoFields, V.EncMapHeader;
    InOrderBytes(st, env, e.fields, sent.fields, 0);
  }

  /** The same for the whole generated method: `UnmarshalMsg` of a map-encoded struct on any
      list of its fields and of unknown entries, in any order and with repetitions. */
  lemma AnyFieldOrder(st: V.Style, env: Env, e: Elem, its: seq<Item>, target: GoVal, rest: bytes, fuel: nat)
    requires e.Struct? && !e.asTuple && DistinctTags(e.fields) && |its| < TWO_32
    requires ItemsOk(env, e.fields, its) && fuel >= ItemsDepth(its)
    requires ReadableEnv(st, env) && forall j :: 0 <= j < |e.fields| ==> Readable(st, e.fields[j].elem)
    ensures var b := V.EncMapHeader(|its|) + ItemsBytes(st, env, e.fields, its) + rest;
      Exec(Programs(env), Emit(e), target, b, fuel)
      == WithRest(Fields(After(its, Expand(target, |e.fields|))), rest)
    decreases ItemsDepth(its), 5, 0
  {
    hide Exec, FieldLoop, EmitCases, ItemsOk, ItemsBytes, Readable, ReadableEnv, After, ReadMapHeader, V.EncMapHeader,
      ItemsDepth, DistinctTags;
    var fs, n := e.fields, |e.fields|;
    var body := ItemsBytes(st, env, fs, its) + rest;
    var b := V.EncMapHeader(|its|) + body;
    assert V.EncMapHeader(|its|) + ItemsBytes(st, env, fs, its) + rest == b;
    RoundTrip.MapHeaderBack(|its|, body);
    ExecSingle(Programs(env), StructLoop(n, EmitCases(fs, 0)), target, b, fuel);
    ItemsDecode(st, env, fs, its, Expand(target, n), rest, fuel);
  }

  // ---- The failing input ----------------------------------------------------------------------------

  /** A struct with a field `X msgp.RawExtension`. */
  function OneExtension(): Elem { Struct([Field([0x58], Base(PRaw, false, false))], false) }

  /** An extension of type 7, read into a new struct: with data it is refused, without data its
      number is lost. */
  lemma FreshRawExtension(st: V.Style, rest: bytes, fuel: nat)
    requires fuel >= 1
    ensures HasType(map[], OneExtension(), Rec([Raw(7, [1])])) && HasType(map[], OneExtension(), Rec([Raw(7, [])]))
    ensures var b := EncGo(map[], OneExtension(), Rec([Raw(7, [1])]), st) + rest;
      Exec(map[], Emit(OneExtension()), Zero, b, fuel) == Err(ExtensionTypeError(7, 0))
    ensures var b := EncGo(map[], OneExtension(), Rec([Raw(7, [])]), st) + rest;
      Exec(map[], Emit(OneExtension()), Zero, b, fuel) == Ok((Rec([Raw(0, [])]), rest))
  {
    hide Received, HasType, Enough, Exec, Emit, EncGo, OneExtension;
    FreshReceives();
    FieldDecodes(st, 7, [1], rest, fuel);
    FieldDecodes(st, 7, [], rest, fuel);
  }

  lemma FieldDecodes(st: V.Style, typ: int8, d: bytes, rest: bytes, fuel: nat)
    requires |d| < TWO_32 && fuel >= 1
    ensures HasType(map[], OneExtension(), Rec([Raw(typ, d)]))
    ensures Exec(map[], Emit(OneExtension()), Zero, EncGo(map[], OneExtension(), Rec([Raw(typ, d)]), st) + rest, fuel)
         == WithRest(Received(Rec([Raw(typ, d)]), Zero), rest)
  {
    FieldTyped(typ, d);
    hide Received, HasType, Depth, Exec, Emit, EncGo;
    assert Programs(map[]) == map[];
    Decodes(st, map[], OneExtension(), Rec([Raw(typ, d)]), Zero, rest, fuel);
  }

  lemma FieldTyped(typ: int8, d: bytes)
    requires |d| < TWO_32
    ensures HasType(map[], OneExtension(), Rec([Raw(typ, d)]))
    ensures Depth(Rec([Raw(typ, d)])) == 2
  {
    assert MaxDepth([Raw(typ, d)][1..]) == 0;
    assert HasType(map[], Base(PRaw, false, false), Raw(typ, d));
  }
}
