/** The stream `Reader` of msgp/read.go over an abstract buffered stream, and `appendNext`
    of msgp/read_bytes.go. */
module Reader {
  import opened Wire
  import opened Encoding
  import opened Decoding
  import opened Skipping
  import opened Append
  import Writer
  import Integers

  /** The bytes still to be read, behind a buffer of some capacity. Running out of bytes is
      reported as `ShortBytes`. */
  class Source {
    var rest: bytes
    var bufferSize: nat

    constructor (data: bytes, size: nat)
      ensures rest == data && bufferSize == size
    {
      rest, bufferSize := data, size;
    }

    method Peek(n: nat) returns (r: Result<bytes>)
      ensures r == if |rest| < n then Err(ShortBytes) else Ok(rest[..n])
    {
      r := if |rest| < n then Err(ShortBytes) else Ok(rest[..n]);
    }

    /** The next `n` bytes, which are then consumed; without that many, nothing is. */
    method Next(n: nat) returns (r: Result<bytes>)
      modifies this`rest
      ensures r == if old(|rest|) < n then Err(ShortBytes) else Ok(old(rest)[..n])
      ensures rest == if r.Ok? then old(rest)[n..] else old(rest)
    {
      r := Peek(n);
      if r.Ok? {
        rest := rest[n..];
      }
    }
  }

  /** `getNextSize` peeks; it finds what `getSize` finds on the whole remaining stream. */
  method GetNextSize(r: Source) returns (extent: Result<(nat, nat)>)
    ensures extent == GetSize(r.rest)
  {
    var b :- r.Peek(1);
    var spec := SpecOf(b[0]);
    if spec.size == 0 {
      return Err(InvalidPrefix(b[0]));
    }
    if spec.extra >= 0 {
      return Ok((spec.size, spec.extra));
    }
    b :- r.Peek(spec.size);
    assert b[0] == r.rest[0] && forall i :: 0 <= i < |b| ==> b[i] == r.rest[i];
    return GetSize(b);
  }

  /** `Reader.Skip` sizes an object from five buffered bytes. That is enough for every form
      but ext32, whose prefix has six. */
  lemma FiveBytesSuffice(b: bytes)
    requires |b| >= 5
    ensures GetSize(b[..5]) == GetSize(b) <==> !(b[0] == EXT32 && |b| >= 6)
  {
    assert forall i :: 0 <= i < 5 ==> b[..5][i] == b[i];
  }

  /** No ext32 object among those that `Skip` comes by. */
  ghost predicate NoExt32(b: bytes)
    decreases |b|, 0, 0
  {
    match GetSize(b)
    case Err(_) => true
    case Ok((sz, asz)) => |b| >= sz ==> b[0] != EXT32 && NoExt32In(asz, b[sz..])
  }

  ghost predicate NoExt32In(n: nat, b: bytes)
    decreases |b|, 1, n
  {
    n > 0 ==> NoExt32(b) && (Skip(b).Ok? ==> NoExt32In(n - 1, Skip(b).value))
  }

  /** `Reader.Skip`. How much is buffered is up to the stream; `full` says that all there is
      always is. What it skips is what `Skip` drops, and it skips whatever holds no ext32
      object; with a full buffer it skips nothing else. */
  method SkipNext(r: Source, full: bool) returns (ok: bool)
    modifies r`rest
    ensures |r.rest| <= old(|r.rest|)
    ensures ok ==> Skip(old(r.rest)) == Ok(r.rest)
    ensures Skip(old(r.rest)).Ok? && NoExt32(old(r.rest)) ==> ok
    ensures full && ok ==> NoExt32(old(r.rest))
    decreases |r.rest|, 0
  {
    ghost var start := r.rest;
    var buffered: bool := *;
    var extent;
    if |r.rest| >= 5 && (full || buffered) {
      var p := r.Peek(5);
      extent := GetSize(p.value);
      FiveBytes(start);
    } else {
      extent := GetNextSize(r);
      FewBytes(start);
    }
    if extent.Err? {
      return false;
    }
    var (v, o) := extent.value;
    SkipHead(start);
    NoExt32Head(start);
    hide GetSize, Skip, SkipN, NoExt32In, NoExt32;
    var head := r.Next(v);
    if head.Err? {
      return false;
    }
    ok := SkipElementsOf(r, o, full);
  }

  method SkipElementsOf(r: Source, o: nat, full: bool) returns (ok: bool)
    modifies r`rest
    ensures |r.rest| <= old(|r.rest|)
    ensures ok ==> SkipN(o, old(r.rest)) == Ok(r.rest)
    ensures SkipN(o, old(r.rest)).Ok? && NoExt32In(o, old(r.rest)) ==> ok
    ensures full && ok ==> NoExt32In(o, old(r.rest))
    decreases |r.rest|, 1
  {
    hide Skip, SkipN, NoExt32;
    ghost var start := r.rest;
    var x := 0;
    while x < o
      invariant x <= o && |r.rest| <= |start| && SkipN(o - x, r.rest) == SkipN(o, start)
      invariant NoExt32In(o, start) ==> NoExt32In(o - x, r.rest)
      invariant full && NoExt32In(o - x, r.rest) ==> NoExt32In(o, start)
    {
      ghost var at := r.rest;
      ok := SkipNext(r, full);
      if !ok {
        if Skip(at).Err? { NotSkipped(o - x, at); }
        return;
      }
      SkipStep(o - x, at, r.rest);
      x := x + 1;
    }
    SkipNone(r.rest);
    return true;
  }

  /** Sized from five bytes, an ext32 object is too short; anything else is sized as it is. */
  lemma FiveBytes(b: bytes)
    requires |b| >= 5
    ensures b[0] == EXT32 ==> GetSize(b[..5]) == Err(ShortBytes)
    ensures b[0] != EXT32 ==> GetSize(b[..5]) == GetSize(b)
  {
    assert forall i :: 0 <= i < 5 ==> b[..5][i] == b[i];
  }

  lemma FewBytes(b: bytes)
    ensures |b| < 5 && GetSize(b).Ok? && |b| >= GetSize(b).value.0 ==> b[0] != EXT32
  {
  }

  lemma NoExt32Head(b: bytes)
    requires GetSize(b).Ok?
    ensures var (sz, asz) := GetSize(b).value;
      |b| >= sz ==> (NoExt32(b) <==> b[0] != EXT32 && NoExt32In(asz, b[sz..]))
  {
    hide GetSize, NoExt32In;
  }

  /** The failing input: an array holding an ext32 object of one byte. `Skip` drops it, the
      reader with all of it buffered does not. */
  lemma Ext32NotSkipped()
    ensures var b := [FIXARRAY + 1, EXT32, 0, 0, 0, 1, 7, 42];
      Skip(b) == Ok([]) && !NoExt32(b)
  {
    var b: bytes := [FIXARRAY + 1, EXT32, 0, 0, 0, 1, 7, 42];
    var e := b[1..];
    assert e[0] == EXT32 && U32(e, 1) == 1 && GetSize(e) == Ok((7, 0)) && e[7..] == [];
    assert SkipN(0, e[7..]) == Ok([]) && Skip(e) == Ok([]);
    SkipStep(1, e, []);
    assert GetSize(b) == Ok((1, 1)) && !NoExt32(e);
  }

  // ---- Copying without decoding ---------------------------------------------------------

  datatype CopyError = Done | ReadFailed(error: Error) | WriteFailed

  /** `io.CopyN`: up to `sz` bytes from the source to the sink. */
  method CopyN(r: Source, w: Writer.Sink, sz: nat) returns (n: nat, err: CopyError)
    modifies r`rest, w
    ensures r.rest == old(r.rest)[if sz <= old(|r.rest|) then sz else old(|r.rest|)..]
    ensures w.faults >= old(w.faults) && (err.WriteFailed? <==> w.faults > old(w.faults))
    ensures err.Done? ==> sz <= old(|r.rest|) && n == sz && w.delivered == old(w.delivered) + old(r.rest)[..sz]
    ensures err.ReadFailed? ==> sz > old(|r.rest|)
  {
    var k := if sz <= |r.rest| then sz else |r.rest|;
    var chunk := r.rest[..k];
    r.rest := r.rest[k..];
    var failed;
    n, failed := w.Write(chunk);
    err := if failed || n < k then WriteFailed else if k < sz then ReadFailed(ShortBytes) else Done;
  }

  /** The object's own bytes, by pointer into the buffer when they fit, else by `io.CopyN`. */
  method CopyHead(r: Source, w: Writer.Sink, sz: nat) returns (n: nat, err: CopyError)
    modifies r`rest, w
    ensures |r.rest| <= old(|r.rest|)
    ensures w.faults >= old(w.faults) && (err.WriteFailed? <==> w.faults > old(w.faults))
    ensures err.Done? ==> sz <= old(|r.rest|) && n == sz && r.rest == old(r.rest)[sz..]
    ensures err.Done? ==> w.delivered == old(w.delivered) + old(r.rest)[..sz]
    ensures err.ReadFailed? ==> sz > old(|r.rest|)
  {
    n := 0;
    if sz <= r.bufferSize {
      var chunk := r.Next(sz);
      if chunk.Err? {
        return 0, ReadFailed(chunk.error);
      }
      var failed;
      n, failed := w.Write(chunk.value);
      err := if failed || n < sz then WriteFailed else Done;
    } else {
      n, err := CopyN(r, w, sz);
    }
  }

  /** `CopyNext` fails only if `Skip` or the sink does; otherwise it has
      written the bytes `Skip` drops, counted them, and left the stream at `Skip`'s remainder. */
  method CopyNext(r: Source, w: Writer.Sink) returns (n: nat, err: CopyError)
    modifies r`rest, w
    ensures |r.rest| <= old(|r.rest|) && w.faults >= old(w.faults)
    ensures err.WriteFailed? <==> w.faults > old(w.faults)
    ensures err.Done? ==> Skip(old(r.rest)) == Ok(r.rest) && n == old(|r.rest|) - |r.rest|
    ensures err.Done? ==> w.delivered == old(w.delivered) + Consumed(old(r.rest), r.rest)
    ensures err.ReadFailed? ==> Skip(old(r.rest)).Err?
    decreases |r.rest|, 0
  {
    ghost var start, held := r.rest, w.delivered;
    var extent := GetNextSize(r);
    if extent.Err? {
      return 0, ReadFailed(extent.error);
    }
    var (sz, o) := extent.value;
    SkipHead(start);
    hide GetSize, Skip, SkipN;
    n, err := CopyHead(r, w, sz);
    if !err.Done? {
      return;
    }
    ghost var body := r.rest;
    assert Consumed(start, body) == start[..sz] && Suffix(body, start);
    hide Consumed, Suffix, ProperSuffix;
    var n2;
    n2, err := CopyElements(r, w, o);
    n := n + n2;
    if err.Done? {
      ConsumedJoin(held, start, body, r.rest);
    }
  }

  /** The element loop of `CopyNext`. */
  method CopyElements(r: Source, w: Writer.Sink, o: nat) returns (n: nat, err: CopyError)
    modifies r`rest, w
    ensures |r.rest| <= old(|r.rest|) && w.faults >= old(w.faults)
    ensures err.WriteFailed? <==> w.faults > old(w.faults)
    ensures err.Done? ==> SkipN(o, old(r.rest)) == Ok(r.rest) && n == old(|r.rest|) - |r.rest|
    ensures err.Done? ==> w.delivered == old(w.delivered) + Consumed(old(r.rest), r.rest)
    ensures err.ReadFailed? ==> SkipN(o, old(r.rest)).Err?
    decreases |r.rest|, 1
  {
    hide *;
    ghost var start, held := r.rest, w.delivered;
    n, err := 0, Done;
    var x := 0;
    NothingCopied(held, start);
    while x < o
      invariant x <= o && |r.rest| <= |start| && Copied(held, w.delivered, start, r.rest, n)
      invariant w.faults == old(w.faults) && err.Done?
      invariant SkipN(o - x, r.rest) == SkipN(o, start)
    {
      ghost var at, sent := r.rest, w.delivered;
      var n2;
      n2, err := CopyNext(r, w);
      if !err.Done? {
        if err.ReadFailed? { NotSkipped(o - x, at); }
        return;
      }
      SkipStep(o - x, at, r.rest);
      CopiedNext(held, sent, start, at, r.rest, n);
      n := n + n2;
      x := x + 1;
    }
    SkipNone(r.rest);
    CopiedMeans(held, w.delivered, start, r.rest, n);
  }

  /** Of the bytes `start`, those before `rest` have been delivered behind `held`, and counted. */
  ghost predicate Copied(held: bytes, delivered: bytes, start: bytes, rest: bytes, n: nat) {
    Suffix(rest, start) && n == |start| - |rest| && delivered == held + Consumed(start, rest)
  }

  lemma NothingCopied(held: bytes, start: bytes)
    ensures Copied(held, held, start, start, 0)
  {
  }

  lemma CopiedNext(held: bytes, sent: bytes, start: bytes, at: bytes, rest: bytes, n: nat)
    requires Copied(held, sent, start, at, n) && ProperSuffix(rest, at)
    ensures Copied(held, sent + Consumed(at, rest), start, rest, n + |at| - |rest|)
  {
    ConsumedJoin(held, start, at, rest);
    hide Consumed, Suffix, ProperSuffix;
  }

  lemma CopiedMeans(held: bytes, delivered: bytes, start: bytes, rest: bytes, n: nat)
    requires Copied(held, delivered, start, rest, n)
    ensures Suffix(rest, start) && n == |start| - |rest| && delivered == held + Consumed(start, rest)
  {
  }

  lemma ConsumedJoin(pre: bytes, b: bytes, o: bytes, rest: bytes)
    requires |rest| <= |o| <= |b| && Suffix(o, b) && (Suffix(rest, o) || ProperSuffix(rest, o))
    ensures pre + Consumed(b, o) + Consumed(o, rest) == pre + Consumed(b, rest)
    ensures Suffix(rest, b)
  {
  }

  lemma SkipHead(b: bytes)
    requires GetSize(b).Ok?
    ensures var (sz, o) := GetSize(b).value;
      Skip(b) == if |b| < sz then Err(ShortBytes) else SkipN(o, b[sz..])
  {
    hide GetSize, SkipN;
  }

  lemma NotSkipped(n: nat, b: bytes)
    requires n > 0 && Skip(b).Err?
    ensures SkipN(n, b).Err?
  {
  }

  /** `appendNext`, the body of `Raw.DecodeMsg`: the slice grows by the bytes `Skip` drops. */
  method AppendNext(r: Source, d: Buf) returns (o: Buf, err: CopyError)
    requires d.Valid()
    modifies r`rest, d.data
    ensures o.Valid() && (o.data == d.data || fresh(o.data)) && |r.rest| <= old(|r.rest|)
    ensures Skip(old(r.rest)).Ok? ==> err.Done?
    ensures err.Done? ==> Skip(old(r.rest)) == Ok(r.rest)
    ensures err.Done? ==> o.Bytes() == old(d.Bytes()) + Consumed(old(r.rest), r.rest)
    decreases |r.rest|, 0
  {
    ghost var start, held := r.rest, d.Bytes();
    var extent := GetNextSize(r);
    if extent.Err? {
      return d, ReadFailed(extent.error);
    }
    var (amt, objs) := extent.value;
    SkipHead(start);
    hide GetSize, Skip, SkipN;
    var i;
    o, i := Ensure(d, amt);
    var head := r.Next(amt);
    if head.Err? {
      return o, ReadFailed(head.error);
    }
    CopyIn(o.data, i, head.value);
    assert o.Bytes() == held + head.value;
    ghost var body := r.rest;
    assert Consumed(start, body) == start[..amt] && Suffix(body, start);
    hide Consumed, Suffix, ProperSuffix, Buf.Bytes;
    o, err := AppendElements(r, o, objs);
    if err.Done? {
      ConsumedJoin(held, start, body, r.rest);
    }
  }

  /** The element loop of `appendNext`. */
  method AppendElements(r: Source, d: Buf, objs: nat) returns (o: Buf, err: CopyError)
    requires d.Valid()
    modifies r`rest, d.data
    ensures o.Valid() && (o.data == d.data || fresh(o.data)) && |r.rest| <= old(|r.rest|)
    ensures SkipN(objs, old(r.rest)).Ok? ==> err.Done?
    ensures err.Done? ==> SkipN(objs, old(r.rest)) == Ok(r.rest)
    ensures err.Done? ==> o.Bytes() == old(d.Bytes()) + Consumed(old(r.rest), r.rest)
    decreases |r.rest|, 1
  {
    ghost var start, held := r.rest, d.Bytes();
    o, err := d, Done;
    assert held == held + Consumed(start, start);
    assert Suffix(start, start);
    hide Skip, SkipN, Consumed, Suffix, ProperSuffix, Buf.Bytes;
    ghost var goal := SkipN(objs, start);
    var left := objs;
    while left > 0
      invariant o.Valid() && (o.data == d.data || fresh(o.data)) && err.Done? && |r.rest| <= |start|
      invariant Suffix(r.rest, start)
      invariant SkipN(left, r.rest) == goal
      invariant o.Bytes() == held + Consumed(start, r.rest)
    {
      ghost var at := r.rest;
      o, err := AppendNext(r, o);
      if !err.Done? {
        NotSkipped(left, at);
        return;
      }
      var fewer := left - 1;
      SkipOne(left, fewer, at, r.rest, goal);
      ConsumedJoin(held, start, at, r.rest);
      left := fewer;
    }
    SkipNone(r.rest);
  }

  lemma SkipOne(n: nat, m: nat, b: bytes, o: bytes, goal: Result<bytes>)
    requires n == m + 1 && Skip(b) == Ok(o) && SkipN(n, b) == goal
    ensures SkipN(m, o) == goal
  {
    SkipStep(n, b, o);
  }

  // ---- Integers ---------------------------------------------------------------------------

  /** `Reader.ReadInt64` on the unread bytes: the result, and the bytes left. An overflowing
      value has been consumed when the error is returned. */
  function StreamInt(b: bytes): (Result<int64>, bytes) {
    if |b| < 1 then (Err(ShortBytes), b)
    else if IsFixInt(b[0]) then (Ok(b[0]), b[1..])
    else if IsNFixInt(b[0]) then (Ok(S8(b[0])), b[1..])
    else if b[0] < UINT8 || b[0] > INT64 then (Err(BadPrefix(IntType, b[0])), b)
    else
      var size := SpecOf(b[0]).size;
      if |b| < size then (Err(ShortBytes), b)
      else
        var r :=
          if b[0] == INT8 then Ok(S8(b[1]))
          else if b[0] == INT16 then Ok(Signed(U16(b, 1), 0x8000))
          else if b[0] == INT32 then Ok(Signed(U32(b, 1), TWO_31))
          else if b[0] == INT64 then Ok(Signed(U64(b, 1), TWO_63))
          else if b[0] == UINT8 then Ok(b[1])
          else if b[0] == UINT16 then Ok(U16(b, 1))
          else if b[0] == UINT32 then Ok(U32(b, 1))
          else if U64(b, 1) >= TWO_63 then Err(UintOverflow(U64(b, 1), 64))
          else Ok(U64(b, 1));
        (r, b[size..])
  }

  method ReadStreamInt64(m: Source) returns (r: Result<int64>)
    modifies m`rest
    ensures (r, m.rest) == StreamInt(old(m.rest))
  {
    var p := m.Peek(1);
    if p.Err? {
      return Err(p.error);
    }
    var lead := p.value[0];
    if IsFixInt(lead) {
      p := m.Next(1);
      return Ok(lead);
    } else if IsNFixInt(lead) {
      p := m.Next(1);
      return Ok(S8(lead));
    }
    if lead < UINT8 || lead > INT64 {
      return Err(BadPrefix(IntType, lead));
    }
    p := m.Next(SpecOf(lead).size);
    if p.Err? {
      return Err(p.error);
    }
    var b := p.value;
    assert forall i :: 0 <= i < |b| ==> b[i] == old(m.rest)[i];
    if lead == INT8 {
      return Ok(S8(b[1]));
    } else if lead == INT16 {
      return Ok(Signed(U16(b, 1), 0x8000));
    } else if lead == INT32 {
      return Ok(Signed(U32(b, 1), TWO_31));
    } else if lead == INT64 {
      return Ok(Signed(U64(b, 1), TWO_63));
    } else if lead == UINT8 {
      return Ok(b[1]);
    } else if lead == UINT16 {
      return Ok(U16(b, 1));
    } else if lead == UINT32 {
      return Ok(U32(b, 1));
    }
    var num := U64(b, 1);
    if num >= TWO_63 {
      return Err(UintOverflow(num, 64));
    }
    return Ok(num);
  }

  /** The stream reader returns every signed value, and of the unsigned ones every one that
      fits a signed word; larger ones overflow. The object is consumed either way. */
  lemma StreamIntBack(i: int64, u: uint64, rest: bytes)
    ensures StreamInt(EncInt(i) + rest) == (Ok(i), rest)
    ensures StreamInt(EncUint(u) + rest) == (if u < TWO_63 then Ok(u) else Err(UintOverflow(u, 64)), rest)
  {
    StreamOfInt(i, rest);
    StreamOfUint(u, rest);
  }

  lemma StreamOfInt(i: int64, rest: bytes)
    ensures StreamInt(EncInt(i) + rest) == (Ok(i), rest)
  {
    if -0x80 <= i < 0x80 {
    } else if -0x8000 <= i < 0x8000 {
      ReadBE16([INT16], Unsigned(i, 0x8000), rest);
    } else if -TWO_31 <= i < TWO_31 {
      ReadBE32([INT32], Unsigned(i, TWO_31), rest);
    } else {
      ReadBE64([INT64], Unsigned(i, TWO_63), rest);
    }
  }

  lemma StreamOfUint(u: uint64, rest: bytes)
    ensures StreamInt(EncUint(u) + rest) == (if u < TWO_63 then Ok(u) else Err(UintOverflow(u, 64)), rest)
  {
    hide U16, U32, U64, BE16, BE32, BE64;
    if u < 0x100 {
    } else if u < TWO_16 {
      ReadBE16([UINT16], u, rest);
    } else if u < TWO_32 {
      ReadBE32([UINT32], u, rest);
    } else {
      ReadBE64([UINT64], u, rest);
    }
  }

  /** Stream and slice readers disagree exactly on the upper half of the uint32 form. */
  lemma ReadersDisagree(u: uint64, rest: bytes)
    ensures ReadInt64(EncUint(u) + rest).Ok? ==>
      (Ok(ReadInt64(EncUint(u) + rest).value.0) == StreamInt(EncUint(u) + rest).0 <==> !(TWO_31 <= u < TWO_32))
  {
    hide ReadInt64, StreamInt, EncUint;
    StreamOfUint(u, rest);
    Integers.SignedReadOfUint(u, rest);
  }
}
