/** The emitted `EncodeMsg` (gen/encode.go) running on a `Writer` (msgp/write.go): what the
    sink receives, however the writer buffers, flushes, bypasses or swaps its buffer. */
module EncodeRuns {
  import opened Wire
  import opened TypeTree
  import G = MarshalGen
  import opened Writer
  import V = Encoding

  // ---- What a run accepts ---------------------------------------------------------------------

  /** The bytes accepted, the length of the buffer afterwards, and whether every constant that
      was appended fitted the buffer it met. */
  datatype Sent = Sent(out: bytes, size: nat, whole: bool)

  function More(a: Sent, r: Option<Sent>): Option<Sent> {
    if r.None? then r else Some(Sent(a.out + r.value.out, r.value.size, a.whole && r.value.whole))
  }

  /** The statements with a buffer of length `n`: `Append` cuts a constant to the buffer, and a
      long extension body makes the buffer longer for what follows. */
  function Cut(ps: G.Progs, ss: seq<G.Stmt>, v: GoVal, fuel: nat, n: nat): Option<Sent>
    decreases fuel, ss, 0
  {
    if ss == [] then Some(Sent([], n, true))
    else
      var a := CutOne(ps, ss[0], v, fuel, n);
      if a.None? then a else More(a.value, Cut(ps, ss[1..], v, fuel, a.value.size))
  }

  function CutOne(ps: G.Progs, s: G.Stmt, v: GoVal, fuel: nat, n: nat): Option<Sent>
    decreases fuel, s, 1
  {
    match s
    case AppendRaw(raw) => Some(Sent(if |raw| <= n then raw else raw[..n], n, |raw| <= n))
    case AppendBase(x) =>
      var w := G.Get(v, x);
      if w.Some? && IsLeaf(w.value)
      then Some(Sent(V.Enc(Held(w.value), V.Stream), Widest(n, Held(w.value)), true)) else None
    case AppendMapLen(x) =>
      var w := G.Get(v, x);
      if w.Some? && w.value.Mp? then Some(Sent(V.EncMapHeader(|w.value.entries| % TWO_32), n, true)) else None
    case AppendArrayLen(x) =>
      var w := G.Get(v, x);
      if w.Some? && w.value.Sl? then Some(Sent(V.EncArrayHeader(|w.value.els| % TWO_32), n, true)) else None
    case AppendArrayConst(k) => Some(Sent(V.EncArrayHeader(k % TWO_32), n, true))
    case AppendByteArray(x, _) =>
      var w := G.Get(v, x);
      if w.Some? && w.value.Arr? then Some(Sent(V.EncBin(ByteString(w.value.els)), n, true)) else None
    case Call(x, name) =>
      var w := G.Get(v, x);
      if w.Some? && name in ps && fuel > 0 then Cut(ps, ps[name], w.value, fuel - 1, n) else None
    case Range(x, body) =>
      var w := G.Get(v, x);
      if w.Some? && (w.value.Sl? || w.value.Arr?) then CutRange(ps, body, w.value.els, fuel, n) else None
    case RangeMap(x, body) =>
      var w := G.Get(v, x);
      if w.Some? && w.value.Mp? then CutEntries(ps, body, w.value.entries, fuel, n) else None
    case IfNil(x, body) =>
      var w := G.Get(v, x);
      if w.Some? && w.value.NilPtr? then Some(Sent([NIL], n, true))
      else if w.Some? && w.value.PtrTo? then Cut(ps, body, w.value.to, fuel, n)
      else None
  }

  function CutRange(ps: G.Progs, body: seq<G.Stmt>, vs: seq<GoVal>, fuel: nat, n: nat): Option<Sent>
    decreases fuel, body, 2, |vs|
  {
    if vs == [] then Some(Sent([], n, true))
    else
      var a := Cut(ps, body, vs[0], fuel, n);
      if a.None? then a else More(a.value, CutRange(ps, body, vs[1..], fuel, a.value.size))
  }

  function CutEntries(ps: G.Progs, body: seq<G.Stmt>, es: seq<GoEntry>, fuel: nat, n: nat): Option<Sent>
    decreases fuel, body, 2, |es|
  {
    if es == [] then Some(Sent([], n, true))
    else
      var a := Cut(ps, body, es[0].val, fuel, n);
      if a.None? then a
      else More(Sent(V.EncStr(es[0].key), n, true), More(a.value, CutEntries(ps, body, es[1..], fuel, a.value.size)))
  }

  // ---- Exactly when nothing is cut -------------------------------------------------------------

  /** What is accepted is the program's meaning if every constant fitted, and shorter if not. */
  ghost predicate CutOf(c: Option<Sent>, whole: Option<bytes>, n: nat) {
    && (whole.Some? ==> c.Some? && c.value.size >= n)
    && (whole.Some? && c.value.whole ==> c.value.out == whole.value)
    && (whole.Some? && !c.value.whole ==> |c.value.out| < |whole.value|)
  }

  lemma MoreCut(a: Sent, r: Option<Sent>, x: bytes, y: Option<bytes>, n: nat)
    requires CutOf(Some(a), Some(x), n) && CutOf(r, y, a.size)
    ensures CutOf(More(a, r), G.Join(Some(x), y), n)
  {
  }

  lemma {:induction false} CutExactly(ps: G.Progs, ss: seq<G.Stmt>, v: GoVal, fuel: nat, n: nat)
    ensures CutOf(Cut(ps, ss, v, fuel, n), G.Exec(ps, ss, v, V.Stream, fuel), n)
    decreases fuel, ss, 0
  {
    hide CutOne, G.ExecOne, CutOf, More, G.Join;
    if ss == [] {
      NothingCut(n);
    } else {
      CutOneExactly(ps, ss[0], v, fuel, n);
      var a, x := CutOne(ps, ss[0], v, fuel, n), G.ExecOne(ps, ss[0], v, V.Stream, fuel);
      if x.None? {
        NoMeaning(Cut(ps, ss, v, fuel, n), G.Exec(ps, ss[1..], v, V.Stream, fuel), n);
      } else {
        HasMeaning(a, x, n);
        CutExactly(ps, ss[1..], v, fuel, a.value.size);
        MoreCut(a.value, Cut(ps, ss[1..], v, fuel, a.value.size), x.value, G.Exec(ps, ss[1..], v, V.Stream, fuel), n);
      }
    }
  }

  lemma NothingCut(n: nat)
    ensures CutOf(Some(Sent([], n, true)), Some([]), n)
  {
  }

  lemma NoMeaning(c: Option<Sent>, y: Option<bytes>, n: nat)
    ensures CutOf(c, G.Join(None, y), n) && CutOf(c, None, n)
  {
  }

  lemma HasMeaning(a: Option<Sent>, x: Option<bytes>, n: nat)
    requires x.Some? && CutOf(a, x, n)
    ensures a.Some?
  {
  }

  lemma CutOneExactly(ps: G.Progs, s: G.Stmt, v: GoVal, fuel: nat, n: nat)
    ensures CutOf(CutOne(ps, s, v, fuel, n), G.ExecOne(ps, s, v, V.Stream, fuel), n)
    decreases fuel, s, 1
  {
    hide Cut, CutRange, CutEntries, G.Exec, G.ExecRange, G.ExecEntries, V.Enc, V.EncArrayHeader, V.EncMapHeader,
      V.EncBin, G.Get;
    match s
    case Call(x, name) =>
      if G.Get(v, x).Some? && name in ps && fuel > 0 { CutExactly(ps, ps[name], G.Get(v, x).value, fuel - 1, n); }
    case Range(x, body) =>
      if G.Get(v, x).Some? && (G.Get(v, x).value.Sl? || G.Get(v, x).value.Arr?) {
        CutRangeExactly(ps, body, G.Get(v, x).value.els, fuel, n);
      }
    case RangeMap(x, body) =>
      if G.Get(v, x).Some? && G.Get(v, x).value.Mp? { CutEntriesExactly(ps, body, G.Get(v, x).value.entries, fuel, n); }
    case IfNil(x, body) =>
      if G.Get(v, x).Some? && G.Get(v, x).value.PtrTo? { CutExactly(ps, body, G.Get(v, x).value.to, fuel, n); }
    case _ =>
  }

  lemma {:induction false} CutRangeExactly(ps: G.Progs, body: seq<G.Stmt>, vs: seq<GoVal>, fuel: nat, n: nat)
    ensures CutOf(CutRange(ps, body, vs, fuel, n), G.ExecRange(ps, body, vs, V.Stream, fuel), n)
    decreases fuel, body, 2, |vs|
  {
    hide Cut, G.Exec, CutOf, More, G.Join;
    if vs == [] {
      NothingCut(n);
    } else {
      CutExactly(ps, body, vs[0], fuel, n);
      var a, x := Cut(ps, body, vs[0], fuel, n), G.Exec(ps, body, vs[0], V.Stream, fuel);
      if x.None? {
        NoMeaning(CutRange(ps, body, vs, fuel, n), G.ExecRange(ps, body, vs[1..], V.Stream, fuel), n);
      } else {
        HasMeaning(a, x, n);
        CutRangeExactly(ps, body, vs[1..], fuel, a.value.size);
        MoreCut(a.value, CutRange(ps, body, vs[1..], fuel, a.value.size), x.value,
                G.ExecRange(ps, body, vs[1..], V.Stream, fuel), n);
      }
    }
  }

  lemma {:induction false} CutEntriesExactly(ps: G.Progs, body: seq<G.Stmt>, es: seq<GoEntry>, fuel: nat, n: nat)
    ensures CutOf(CutEntries(ps, body, es, fuel, n), G.ExecEntries(ps, body, es, V.Stream, fuel), n)
    decreases fuel, body, 2, |es|
  {
    hide Cut, G.Exec, CutOf, More, G.Join, V.EncStr;
    if es == [] {
      NothingCut(n);
    } else {
      var key, rest := V.EncStr(es[0].key), G.ExecEntries(ps, body, es[1..], V.Stream, fuel);
      CutExactly(ps, body, es[0].val, fuel, n);
      var a, x := Cut(ps, body, es[0].val, fuel, n), G.Exec(ps, body, es[0].val, V.Stream, fuel);
      if x.None? {
        NoValue(CutEntries(ps, body, es, fuel, n), key, rest, n);
      } else {
        HasMeaning(a, x, n);
        CutEntriesExactly(ps, body, es[1..], fuel, a.value.size);
        MoreCut(a.value, CutEntries(ps, body, es[1..], fuel, a.value.size), x.value, rest, n);
        KeyWhole(key, n);
        var r := CutEntries(ps, body, es[1..], fuel, a.value.size);
        MoreCut(Sent(key, n, true), More(a.value, r), key, G.Join(x, rest), n);
      }
    }
  }

  lemma NoValue(c: Option<Sent>, key: bytes, y: Option<bytes>, n: nat)
    ensures CutOf(c, G.Join(Some(key), G.Join(None, y)), n)
  {
  }

  lemma KeyWhole(key: bytes, n: nat)
    ensures CutOf(Some(Sent(key, n, true)), Some(key), n)
  {
  }

  // ---- Values whose lengths fit the headers -------------------------------------------------------

  /** Lengths fit the 32-bit headers. */
  ghost predicate Writable(v: GoVal)
    decreases v
  {
    match v
    case Scalar(x) => V.Small(x)
    case Dyn(x) => V.Small(x)
    case Raw(_, d) => |d| < TWO_32
    case PtrTo(w) => Writable(w)
    case Sl(els, _) => forall i :: 0 <= i < |els| ==> Writable(els[i])
    case Arr(els) => |els| < TWO_32 && forall i :: 0 <= i < |els| ==> Writable(els[i])
    case Mp(es) => forall i :: 0 <= i < |es| ==> |es[i].key| < TWO_32 && Writable(es[i].val)
    case Rec(fs) => forall i :: 0 <= i < |fs| ==> Writable(fs[i])
    case _ => true
  }

  lemma {:induction false} PartsWritable(v: GoVal, x: Path)
    requires Writable(v) && G.Get(v, x).Some?
    ensures Writable(G.Get(v, x).value)
    decreases |x|
  {
    if x != [] {
      PartsWritable(v.fields[x[0].i], x[1..]);
    }
  }

  lemma {:induction false} FittingIsSmall(x: V.Value)
    requires V.Fits(x)
    ensures V.Small(x)
    decreases x, 1
  {
    match x
    case Arr(els) => AllFittingSmall(els);
    case Map(es) => EntriesFittingSmall(es);
    case _ =>
  }

  lemma {:induction false} AllFittingSmall(xs: seq<V.Value>)
    requires V.AllFit(xs)
    ensures V.AllSmall(xs)
    decreases xs, 0
  {
    if xs != [] {
      FittingIsSmall(xs[0]);
      AllFittingSmall(xs[1..]);
    }
  }

  lemma {:induction false} EntriesFittingSmall(es: seq<V.Entry>)
    requires V.EntriesFit(es)
    ensures V.EntriesSmall(es)
    decreases es, 0
  {
    if es != [] {
      FittingIsSmall(es[0].val);
      EntriesFittingSmall(es[1..]);
    }
  }

  lemma PrimIsSmall(p: Prim, x: V.Value)
    requires PrimOk(p, x)
    ensures V.Small(x)
  {
  }

  lemma {:induction false} TypedIsWritable(env: Env, e: Elem, v: GoVal)
    requires HasType(env, e, v)
    ensures Writable(v)
    decreases v, if e.Ident? then 1 else 0
  {
    hide V.Fits, V.Small, DistinctGoKeys;
    match e
    case Base(p, _, _) => if p == PIntf { FittingIsSmall(v.v); } else { PrimIsSmall(p, Held(v)); }
    case Ident(n) => TypedIsWritable(env, env[n], v);
    case Ptr(y) => if v.PtrTo? { TypedIsWritable(env, y, v.to); }
    case Slice(y) => forall i | 0 <= i < |v.els| ensures Writable(v.els[i]) { TypedIsWritable(env, y, v.els[i]); }
    case Array(_, y) => forall i | 0 <= i < |v.els| ensures Writable(v.els[i]) { TypedIsWritable(env, y, v.els[i]); }
    case Map(y) =>
      forall i | 0 <= i < |v.entries| ensures Writable(v.entries[i].val) { TypedIsWritable(env, y, v.entries[i].val); }
    case Struct(fs, _) =>
      forall i | 0 <= i < |fs| ensures Writable(v.fields[i]) { TypedIsWritable(env, fs[i].elem, v.fields[i]); }
  }

  // ---- The run ----------------------------------------------------------------------------------

  /** The statements one after the other, each followed by `if err != nil { return }`. */
  method Run(ps: G.Progs, ss: seq<G.Stmt>, v: GoVal, fuel: nat, wr: Writer) returns (err: WriteError)
    requires wr.Valid() && Writable(v) && Cut(ps, ss, v, fuel, wr.buf.Length).Some?
    modifies wr, wr.w, wr.buf
    ensures var c := Cut(ps, ss, v, fuel, old(wr.buf.Length)).value;
      wr.Wrote(c.out, err) && (err.NoError? ==> wr.buf.Length == c.size)
    decreases fuel, ss, 0
  {
    hide CutOne, Writable;
    if ss == [] {
      return NoError;
    }
    err := RunOne(ps, ss[0], v, fuel, wr);
    if err.NoError? {
      err := Run(ps, ss[1..], v, fuel, wr);
    }
  }

  method RunOne(ps: G.Progs, s: G.Stmt, v: GoVal, fuel: nat, wr: Writer) returns (err: WriteError)
    requires wr.Valid() && Writable(v) && CutOne(ps, s, v, fuel, wr.buf.Length).Some?
    modifies wr, wr.w, wr.buf
    ensures var c := CutOne(ps, s, v, fuel, old(wr.buf.Length)).value;
      wr.Wrote(c.out, err) && (err.NoError? ==> wr.buf.Length == c.size)
    decreases fuel, s, 1
  {
    hide Cut, CutRange, CutEntries, V.Enc, V.EncArrayHeader, V.EncMapHeader, V.EncBinHeader, V.Small, Widest;
    match s
    case AppendRaw(raw) => err := wr.AppendBytes(raw);
    case AppendArrayConst(n) => err := wr.WriteArrayHeader(n % TWO_32);
    case AppendBase(x) => err := RunBase(x, v, wr);
    case AppendMapLen(x) => err := wr.WriteMapHeader(|G.Get(v, x).value.entries| % TWO_32);
    case AppendArrayLen(x) => err := wr.WriteArrayHeader(|G.Get(v, x).value.els| % TWO_32);
    case AppendByteArray(x, _) =>
      PartsWritable(v, x);
      err := wr.WriteBytes(ByteString(G.Get(v, x).value.els));
    case _ => err := RunBlock(ps, s, v, fuel, wr);
  }

  /** A call, a loop or a branch. */
  method RunBlock(ps: G.Progs, s: G.Stmt, v: GoVal, fuel: nat, wr: Writer) returns (err: WriteError)
    requires s.Call? || s.Range? || s.RangeMap? || s.IfNil?
    requires wr.Valid() && Writable(v) && CutOne(ps, s, v, fuel, wr.buf.Length).Some?
    modifies wr, wr.w, wr.buf
    ensures var c := CutOne(ps, s, v, fuel, old(wr.buf.Length)).value;
      wr.Wrote(c.out, err) && (err.NoError? ==> wr.buf.Length == c.size)
    decreases fuel, s, 0
  {
    hide Cut, CutRange, CutEntries, Widest;
    PartsWritable(v, s.x);
    var w := G.Get(v, s.x).value;
    match s
    case Call(_, name) => err := Run(ps, ps[name], w, fuel - 1, wr);
    case Range(_, body) => err := RunRange(ps, body, w.els, fuel, wr);
    case RangeMap(_, body) => err := RunEntries(ps, body, w.entries, fuel, wr);
    case IfNil(_, body) =>
      if w.NilPtr? {
        err := wr.Push(NIL);
      } else {
        err := Run(ps, body, w.to, fuel, wr);
      }
  }

  method RunBase(x: Path, v: GoVal, wr: Writer) returns (err: WriteError)
    requires wr.Valid() && Writable(v) && G.Get(v, x).Some? && IsLeaf(G.Get(v, x).value)
    modifies wr, wr.w, wr.buf
    ensures wr.Wrote(V.Enc(Held(G.Get(v, x).value), V.Stream), err)
    ensures err.NoError? ==> wr.buf.Length == Widest(old(wr.buf.Length), Held(G.Get(v, x).value))
  {
    hide V.Enc, Widest;
    PartsWritable(v, x);
    err := wr.WriteIntf(Held(G.Get(v, x).value));
  }

  method RunRange(ps: G.Progs, body: seq<G.Stmt>, vs: seq<GoVal>, fuel: nat, wr: Writer) returns (err: WriteError)
    requires wr.Valid() && CutRange(ps, body, vs, fuel, wr.buf.Length).Some?
    requires forall i :: 0 <= i < |vs| ==> Writable(vs[i])
    modifies wr, wr.w, wr.buf
    ensures var c := CutRange(ps, body, vs, fuel, old(wr.buf.Length)).value;
      wr.Wrote(c.out, err) && (err.NoError? ==> wr.buf.Length == c.size)
    decreases fuel, body, 2, |vs|
  {
    hide Cut, Writable;
    if vs == [] {
      return NoError;
    }
    err := Run(ps, body, vs[0], fuel, wr);
    if err.NoError? {
      err := RunRange(ps, body, vs[1..], fuel, wr);
    }
  }

  method RunEntries(ps: G.Progs, body: seq<G.Stmt>, es: seq<GoEntry>, fuel: nat, wr: Writer) returns (err: WriteError)
    requires wr.Valid() && CutEntries(ps, body, es, fuel, wr.buf.Length).Some?
    requires forall i :: 0 <= i < |es| ==> |es[i].key| < TWO_32 && Writable(es[i].val)
    modifies wr, wr.w, wr.buf
    ensures var c := CutEntries(ps, body, es, fuel, old(wr.buf.Length)).value;
      wr.Wrote(c.out, err) && (err.NoError? ==> wr.buf.Length == c.size)
    decreases fuel, body, 2, 2 * |es|
  {
    hide Cut, Writable, V.EncStrHeader;
    if es == [] {
      return NoError;
    }
    err := wr.WriteString(es[0].key);
    if err.NoError? {
      err := RunEntry(ps, body, es, fuel, wr);
    }
  }

  /** The rest of a turn of the map loop, and the turns after it. */
  method RunEntry(ps: G.Progs, body: seq<G.Stmt>, es: seq<GoEntry>, fuel: nat, wr: Writer) returns (err: WriteError)
    requires wr.Valid() && es != [] && Cut(ps, body, es[0].val, fuel, wr.buf.Length).Some?
    requires CutEntries(ps, body, es[1..], fuel, Cut(ps, body, es[0].val, fuel, wr.buf.Length).value.size).Some?
    requires forall i :: 0 <= i < |es| ==> |es[i].key| < TWO_32 && Writable(es[i].val)
    modifies wr, wr.w, wr.buf
    ensures var a := Cut(ps, body, es[0].val, fuel, old(wr.buf.Length)).value;
      var c := CutEntries(ps, body, es[1..], fuel, a.size).value;
      wr.Wrote(a.out + c.out, err) && (err.NoError? ==> wr.buf.Length == c.size)
    decreases fuel, body, 2, 2 * |es| - 1
  {
    hide Cut, CutEntries, Writable, V.EncStrHeader;
    err := Run(ps, body, es[0].val, fuel, wr);
    if err.NoError? {
      err := RunEntries(ps, body, es[1..], fuel, wr);
    }
  }

  /** The whole run of `EncodeMsg` of a type with a buffer of length `n`. */
  function Encoded(env: Env, e: Elem, v: GoVal, fuel: nat, n: nat): Option<Sent> {
    Cut(G.Programs(env, V.Stream, true), G.Emit(e, [], [], V.Stream, true), v, fuel, n)
  }

  /** A run has a meaning for every value of the type, and accepts its encoding exactly if each
      constant that the run appends fits the buffer it meets. */
  lemma EncodedExactly(env: Env, e: Elem, v: GoVal, fuel: nat, n: nat)
    requires HasType(env, e, v) && Enough(fuel, e, v)
    ensures var c := Encoded(env, e, v, fuel, n);
      c.Some? && (c.value.out == EncGo(env, e, v, V.Stream) <==> c.value.whole)
  {
    hide G.Exec, G.Emit, G.Programs, HasType, Enough, EncGo, Cut;
    G.FusingPreservesMeaning(env, e, v, V.Stream, fuel);
    CutExactly(G.Programs(env, V.Stream, true), G.Emit(e, [], [], V.Stream, true), v, fuel, n);
  }

  /** `EncodeMsg` of a new writer with a buffer of size `sz`, then a flush: it succeeds exactly if
      the sink does not fail, and the sink has then received the encoding of the value exactly if
      no constant was cut. */
  method EncodeMsg(env: Env, e: Elem, v: GoVal, fuel: nat, w: Sink, sz: nat) returns (err: WriteError)
    requires HasType(env, e, v) && Enough(fuel, e, v)
    modifies w
    ensures var c := Encoded(env, e, v, fuel, if sz < 18 then 18 else sz);
      && c.Some?
      && (!w.cheated ==> w.delivered <= old(w.delivered) + c.value.out)
      && (!w.cheated && err.NoError? ==> w.delivered == old(w.delivered) + c.value.out)
      && (!w.cheated && err.NoError? ==>
            (w.delivered == old(w.delivered) + EncGo(env, e, v, V.Stream) <==> c.value.whole))
    ensures w.faults == old(w.faults) ==> err.NoError? && w.cheated == old(w.cheated)
    ensures !w.cheated && err.NoError? ==> w.faults == old(w.faults)
  {
    hide Cut, G.Emit, G.Programs, HasType, Enough, EncGo, Writable;
    EncodedExactly(env, e, v, fuel, if sz < 18 then 18 else sz);
    TypedIsWritable(env, e, v);
    var wr := new Writer.Sized(w, sz);
    assert wr.Stream() == w.delivered;
    err := Run(G.Programs(env, V.Stream, true), G.Emit(e, [], [], V.Stream, true), v, fuel, wr);
    if err.NoError? {
      err := wr.Flush();
      assert err.NoError? ==> wr.Stream() == w.delivered;
    }
    assert w.delivered <= wr.Stream();
    ghost var sent := Encoded(env, e, v, fuel, if sz < 18 then 18 else sz).value.out;
    CancelFront(old(w.delivered), sent, EncGo(env, e, v, V.Stream));
  }

  // ---- Told from the programs alone ---------------------------------------------------------------

  /** Every constant in the statements fits a buffer of length `limit`. */
  ghost predicate ConstantsFit(ss: seq<G.Stmt>, limit: nat)
    decreases ss, 1
  {
    forall i :: 0 <= i < |ss| ==> ConstantFits(ss[i], limit)
  }

  ghost predicate ConstantFits(s: G.Stmt, limit: nat)
    decreases s, 0
  {
    match s
    case AppendRaw(raw) => |raw| <= limit
    case Range(_, body) => ConstantsFit(body, limit)
    case RangeMap(_, body) => ConstantsFit(body, limit)
    case IfNil(_, body) => ConstantsFit(body, limit)
    case _ => true
  }

  ghost predicate ProgramsFit(ps: G.Progs, limit: nat) {
    forall n :: n in ps ==> ConstantsFit(ps[n], limit)
  }

  /** If the constants of all programs fit, no run cuts any. */
  lemma {:induction false} FittingRuns(ps: G.Progs, ss: seq<G.Stmt>, v: GoVal, fuel: nat, n: nat, limit: nat)
    requires ConstantsFit(ss, limit) && ProgramsFit(ps, limit) && limit <= n
    ensures var c := Cut(ps, ss, v, fuel, n); c.Some? ==> c.value.whole && c.value.size >= n
    decreases fuel, ss, 0
  {
    hide CutOne, ConstantFits, ProgramsFit;
    if ss != [] {
      FittingStep(ps, ss[0], v, fuel, n, limit);
      var a := CutOne(ps, ss[0], v, fuel, n);
      if a.Some? { FittingRuns(ps, ss[1..], v, fuel, a.value.size, limit); }
    }
  }

  lemma FittingStep(ps: G.Progs, s: G.Stmt, v: GoVal, fuel: nat, n: nat, limit: nat)
    requires ConstantFits(s, limit) && ProgramsFit(ps, limit) && limit <= n
    ensures var c := CutOne(ps, s, v, fuel, n); c.Some? ==> c.value.whole && c.value.size >= n
    decreases fuel, s, 1
  {
    hide Cut, CutRange, CutEntries, G.Get, V.Enc, ConstantsFit;
    match s
    case Call(x, name) =>
      if G.Get(v, x).Some? && name in ps && fuel > 0 {
        FittingRuns(ps, ps[name], G.Get(v, x).value, fuel - 1, n, limit);
      }
    case Range(x, body) =>
      if G.Get(v, x).Some? && (G.Get(v, x).value.Sl? || G.Get(v, x).value.Arr?) {
        FittingRange(ps, body, G.Get(v, x).value.els, fuel, n, limit);
      }
    case RangeMap(x, body) =>
      if G.Get(v, x).Some? && G.Get(v, x).value.Mp? {
        FittingEntries(ps, body, G.Get(v, x).value.entries, fuel, n, limit);
      }
    case IfNil(x, body) =>
      if G.Get(v, x).Some? && G.Get(v, x).value.PtrTo? { FittingRuns(ps, body, G.Get(v, x).value.to, fuel, n, limit); }
    case _ =>
  }

  lemma {:induction false} FittingRange(ps: G.Progs, body: seq<G.Stmt>, vs: seq<GoVal>, fuel: nat, n: nat, limit: nat)
    requires ConstantsFit(body, limit) && ProgramsFit(ps, limit) && limit <= n
    ensures var c := CutRange(ps, body, vs, fuel, n); c.Some? ==> c.value.whole && c.value.size >= n
    decreases fuel, body, 2, |vs|
  {
    hide Cut, ConstantsFit, ProgramsFit;
    if vs != [] {
      FittingRuns(ps, body, vs[0], fuel, n, limit);
      var a := Cut(ps, body, vs[0], fuel, n);
      if a.Some? { FittingRange(ps, body, vs[1..], fuel, a.value.size, limit); }
    }
  }

  lemma {:induction false} FittingEntries(ps: G.Progs, body: seq<G.Stmt>, es: seq<GoEntry>, fuel: nat, n: nat,
                                          limit: nat)
    requires ConstantsFit(body, limit) && ProgramsFit(ps, limit) && limit <= n
    ensures var c := CutEntries(ps, body, es, fuel, n); c.Some? ==> c.value.whole && c.value.size >= n
    decreases fuel, body, 2, |es|
  {
    hide Cut, ConstantsFit, ProgramsFit;
    if es != [] {
      FittingRuns(ps, body, es[0].val, fuel, n, limit);
      var a := Cut(ps, body, es[0].val, fuel, n);
      if a.Some? { FittingEntries(ps, body, es[1..], fuel, a.value.size, limit); }
    }
  }

  // ---- The failing input ------------------------------------------------------------------------------

  /** A tag of nineteen bytes. */
  function LongTag(): bytes { seq(19, _ => 0x61) }

  lemma LongTagProgram()
    ensures G.Emit(Struct([Field(LongTag(), Base(PBool, false, false))], false), [], [], V.Stream, true)
         == [G.AppendRaw([FIXMAP + 1, FIXSTR + 19] + LongTag()), G.AppendBase([Sel(0, 1)])]
  {
    var fs := [Field(LongTag(), Base(PBool, false, false))];
    var x: Path := [Sel(0, 1)];
    var hdr, raw := StructHeader(1, false), [FIXMAP + 1, FIXSTR + 19] + LongTag();
    var none: bytes := [];
    assert none + hdr == hdr && hdr + V.EncStr(LongTag()) == raw;
    assert [] + x == x;
    assert G.EmitFields(fs, 1, [], [], false, V.Stream, true) == [];
    assert G.EmitFields(fs, 0, [], hdr, false, V.Stream, true) == [] + (G.Hook(raw) + [G.AppendBase(x)]) + [];
  }

  /** A struct of one boolean under that tag, with the smallest buffer: of the 21 bytes of header
      and tag only 18 are sent, and no error is reported. */
  lemma LongTagIsCut(env: Env, fuel: nat)
    ensures var e := Struct([Field(LongTag(), Base(PBool, false, false))], false);
      var v := Rec([Scalar(V.Bool(true))]);
      var header := [FIXMAP + 1, FIXSTR + 19] + LongTag();
      Encoded(env, e, v, fuel, 18) == Some(Sent(header[..18] + [TRUE], 18, false))
  {
    var e := Struct([Field(LongTag(), Base(PBool, false, false))], false);
    var v := Rec([Scalar(V.Bool(true))]);
    var header := [FIXMAP + 1, FIXSTR + 19] + LongTag();
    LongTagProgram();
    var x: Path := [Sel(0, 1)];
    assert x[1..] == [];
    assert G.Get(v.fields[0], x[1..]) == Some(v.fields[0]) && G.Get(v, x) == Some(v.fields[0]);
    var ps, ss := G.Programs(env, V.Stream, true), [G.AppendRaw(header), G.AppendBase(x)];
    var none: bytes := [];
    hide G.Programs, G.Get;
    assert ss[1..] == [G.AppendBase(x)] && ss[1..][1..] == [] && [TRUE] + none == [TRUE];
    assert CutOne(ps, ss[1], v, fuel, 18) == Some(Sent([TRUE], 18, true));
    assert Cut(ps, ss[1..][1..], v, fuel, 18) == Some(Sent([], 18, true));
    assert Cut(ps, ss[1..], v, fuel, 18) == Some(Sent([TRUE], 18, true));
    assert CutOne(ps, ss[0], v, fuel, 18) == Some(Sent(header[..18], 18, false));
    assert Encoded(env, e, v, fuel, 18) == Cut(ps, ss, v, fuel, 18);
  }
}
