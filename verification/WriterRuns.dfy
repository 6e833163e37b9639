/** Whole runs of a `Writer`, and how what it delivers compares with the slice encoders. */
module WriterRuns {
  import opened Wire
  import opened Encoding
  import opened Writer

  // ---- Conservation ---------------------------------------------------------------

  datatype Op =
    | WriteValue(v: Value)
    | WriteRaw(p: bytes)
    | AppendFew(bts: bytes)
    | FlushAll

  /** `Append` is for a few bytes: no more than the smallest buffer. */
  ghost predicate OpOk(op: Op) {
    match op
    case WriteValue(v) => Small(v)
    case AppendFew(bts) => |bts| <= 18
    case _ => true
  }

  function OpBytes(op: Op): bytes {
    match op
    case WriteValue(v) => Enc(v, Style.Stream)
    case WriteRaw(p) => p
    case AppendFew(bts) => bts
    case FlushAll => []
  }

  function Concat(pieces: seq<bytes>): bytes {
    if pieces == [] then [] else Concat(pieces[..|pieces| - 1]) + pieces[|pieces| - 1]
  }

  method Perform(wr: Writer, op: Op) returns (err: WriteError)
    requires wr.Valid() && OpOk(op)
    modifies wr, wr.w, wr.buf
    ensures wr.Wrote(OpBytes(op), err)
  {
    hide Enc, Small;
    match op
    case WriteValue(v) => err := wr.WriteIntf(v);
    case WriteRaw(p) => var n; n, err := wr.Write(p);
    case AppendFew(bts) => err := wr.AppendBytes(bts);
    case FlushAll => err := wr.Flush();
  }

  /** One operation and the piece of its bytes that it added to the stream. */
  method PerformPiece(wr: Writer, op: Op) returns (err: WriteError, ghost piece: bytes)
    requires wr.Valid() && OpOk(op)
    modifies wr, wr.w, wr.buf
    ensures wr.Valid() && wr.w == old(wr.w) && (wr.buf == old(wr.buf) || fresh(wr.buf))
    ensures piece <= OpBytes(op) && (err.NoError? ==> piece == OpBytes(op))
    ensures (old(wr.w.cheated) ==> wr.w.cheated) && wr.Blames(err)
    ensures !wr.w.cheated ==> wr.Stream() == old(wr.Stream()) + piece
  {
    hide OpOk, OpBytes;
    err := Perform(wr, op);
    piece := if wr.w.cheated then OpBytes(op) else wr.Stream()[|old(wr.Stream())|..];
  }

  lemma NoPieces(start: bytes)
    ensures start + Concat([]) == start
  {
  }

  lemma ConcatLast(pieces: seq<bytes>, piece: bytes, start: bytes)
    ensures start + Concat(pieces + [piece]) == (start + Concat(pieces)) + piece
  {
    assert (pieces + [piece])[..|pieces|] == pieces;
  }

  /** Over any run of operations, some of which fail, against a sink that obeys its contract:
      the delivered bytes followed by the buffered ones are the old ones followed by one piece
      for each operation, whole if it succeeded and a prefix if it failed. While the sink does
      not fail, no operation does. */
  method Run(wr: Writer, ops: seq<Op>) returns (errs: seq<WriteError>, ghost pieces: seq<bytes>)
    requires wr.Valid() && forall op :: op in ops ==> OpOk(op)
    modifies wr, wr.w, wr.buf
    ensures wr.Valid() && wr.buf.Length >= 18 && |errs| == |pieces| == |ops|
    ensures forall i :: 0 <= i < |ops| ==> pieces[i] <= OpBytes(ops[i])
    ensures forall i :: 0 <= i < |ops| && errs[i].NoError? ==> pieces[i] == OpBytes(ops[i])
    ensures !wr.w.cheated ==> wr.Stream() == old(wr.Stream()) + Concat(pieces)
    ensures wr.w == old(wr.w) && wr.w.faults >= old(wr.w.faults)
    ensures wr.w.faults == old(wr.w.faults) ==> forall err :: err in errs ==> err.NoError?
    ensures !wr.w.cheated && wr.w.faults > old(wr.w.faults) ==> exists err :: err in errs && !err.NoError?
  {
    hide OpOk, OpBytes, Concat;
    errs, pieces := [], [];
    assert wr.Stream() + Concat([]) == wr.Stream() by { NoPieces(wr.Stream()); }
    ghost var start := wr.Stream();
    for i := 0 to |ops|
      invariant wr.Valid() && wr.w == old(wr.w) && (wr.buf == old(wr.buf) || fresh(wr.buf))
      invariant |errs| == |pieces| == i
      invariant forall j :: 0 <= j < i ==> pieces[j] <= OpBytes(ops[j])
      invariant forall j :: 0 <= j < i && errs[j].NoError? ==> pieces[j] == OpBytes(ops[j])
      invariant !wr.w.cheated ==> wr.Stream() == start + Concat(pieces)
      invariant wr.w.faults >= old(wr.w.faults) && (old(wr.w.cheated) ==> wr.w.cheated)
      invariant wr.w.faults == old(wr.w.faults) ==> forall err :: err in errs ==> err.NoError?
      invariant !wr.w.cheated && wr.w.faults > old(wr.w.faults) ==> exists err :: err in errs && !err.NoError?
    {
      var err, piece := PerformPiece(wr, ops[i]);
      ConcatLast(pieces, piece, start);
      errs, pieces := errs + [err], pieces + [piece];
    }
  }

  /** `Encode`: a new writer, one value, a flush. It succeeds exactly if the sink does not fail,
      and the sink has then received exactly the encoding, whatever the buffer size. */
  method Encode(w: Sink, sz: nat, v: Value) returns (err: WriteError)
    requires Small(v)
    modifies w
    ensures !w.cheated && err.NoError? ==> w.delivered == old(w.delivered) + Enc(v, Style.Stream)
    ensures w.faults == old(w.faults) ==> err.NoError? && w.cheated == old(w.cheated)
    ensures !w.cheated && err.NoError? ==> w.faults == old(w.faults)
  {
    hide Enc, Small;
    var wr := new Writer.Sized(w, sz);
    assert wr.Stream() == w.delivered;
    err := wr.WriteIntf(v);
    if err.NoError? {
      err := wr.Flush();
      assert err.NoError? ==> wr.Stream() == w.delivered;
    }
  }

  // ---- Agreement with the slice encoders ----------------------------------------------

  /** No extension inside the value has one of the fixext lengths. */
  predicate NoFixExt(v: Value)
    decreases v, 1
  {
    match v
    case Ext(_, d) => !IsFixLen(|d|)
    case Arr(els) => NoFixExtIn(els)
    case Map(es) => NoFixExtEntries(es)
    case _ => true
  }

  predicate NoFixExtIn(vs: seq<Value>)
    decreases vs, 0
  {
    vs != [] ==> NoFixExt(vs[0]) && NoFixExtIn(vs[1..])
  }

  predicate NoFixExtEntries(es: seq<Entry>)
    decreases es, 0
  {
    es != [] ==> NoFixExt(es[0].val) && NoFixExtEntries(es[1..])
  }

  /** The two encoders write the same bytes exactly when no extension has a fixext length;
      otherwise the stream encoder's bytes are fewer. */
  lemma {:induction false} StylesAgree(v: Value)
    ensures |Enc(v, Style.Stream)| <= |Enc(v, Style.Slice)|
    ensures Enc(v, Style.Stream) == Enc(v, Style.Slice) <==> NoFixExt(v)
    ensures |Enc(v, Style.Stream)| == |Enc(v, Style.Slice)| <==> NoFixExt(v)
    decreases v, 1
  {
    match v
    case Arr(els) => StylesAgreeIn(els);
    case Map(es) => StylesAgreeEntries(es);
    case Ext(typ, d) => ExtStyles(typ, |d|);
    case _ =>
  }

  lemma ExtStyles(typ: int8, n: nat)
    ensures IsFixLen(n) ==> |EncExtHeader(typ, n, Style.Stream)| < |EncExtHeader(typ, n, Style.Slice)|
    ensures !IsFixLen(n) ==> EncExtHeader(typ, n, Style.Stream) == EncExtHeader(typ, n, Style.Slice)
  {
  }

  lemma {:induction false} StylesAgreeIn(vs: seq<Value>)
    ensures |EncAll(vs, Style.Stream)| <= |EncAll(vs, Style.Slice)|
    ensures EncAll(vs, Style.Stream) == EncAll(vs, Style.Slice) <==> NoFixExtIn(vs)
    ensures |EncAll(vs, Style.Stream)| == |EncAll(vs, Style.Slice)| <==> NoFixExtIn(vs)
    decreases vs, 0
  {
    hide Enc, NoFixExt;
    if vs != [] {
      StylesAgree(vs[0]);
      StylesAgreeIn(vs[1..]);
    }
  }

  lemma {:induction false} StylesAgreeEntries(es: seq<Entry>)
    ensures |EncEntries(es, Style.Stream)| <= |EncEntries(es, Style.Slice)|
    ensures EncEntries(es, Style.Stream) == EncEntries(es, Style.Slice) <==> NoFixExtEntries(es)
    ensures |EncEntries(es, Style.Stream)| == |EncEntries(es, Style.Slice)| <==> NoFixExtEntries(es)
    decreases es, 0
  {
    hide Enc, EncStr, NoFixExt;
    if es != [] {
      StylesAgree(es[0].val);
      StylesAgreeEntries(es[1..]);
    }
  }
}
