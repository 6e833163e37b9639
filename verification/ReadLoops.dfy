/** The readers of msgp/read_bytes.go that loop, reassign the remaining bytes and fill
    buffers, proved against the functions of `Decoding`. */
module ReadLoops {
  import opened Wire
  import opened Encoding
  import opened Decoding
  import opened Skipping
  import opened Append

  method SkipBytes(b: bytes) returns (r: Result<bytes>)
    ensures r == Skip(b)
    decreases |b|
  {
    hide GetSize;
    var extent :- GetSize(b);
    var (sz, asz) := extent;
    if |b| < sz {
      return Err(ShortBytes);
    }
    var o := b[sz..];
    while asz > 0
      invariant |o| < |b| && SkipN(asz, o) == Skip(b)
    {
      var next := SkipBytes(o);
      if next.Err? {
        return next;
      }
      o := next.value;
      asz := asz - 1;
    }
    return Ok(o);
  }

  /** A Go map as an object; its entries are in some order. */
  class GoMap {
    var entries: seq<Entry>

    constructor ()
      ensures entries == []
    {
      entries := [];
    }

    /** The loop that deletes every key, in any order. */
    method Clear()
      modifies this
      ensures entries == []
    {
      while entries != []
        decreases |entries|
      {
        var i :| 0 <= i < |entries|;
        entries := entries[..i] + entries[i + 1..];
      }
    }
  }

  /** `ReadMapStrIntfBytes`: the caller's map, if there is one, is cleared once the header has
      been read and then filled; otherwise a map is made. */
  method ReadMapStrIntf(b: bytes, old_: GoMap?) returns (m: GoMap?, r: Result<bytes>)
    modifies old_
    ensures ReadMapIntf(b).Err? ==> r == Err(ReadMapIntf(b).error)
    ensures ReadMapIntf(b).Ok? ==>
      m != null && r == Ok(ReadMapIntf(b).value.1) && Map(m.entries) == ReadMapIntf(b).value.0
    ensures ReadMapHeader(b).Err? ==> m == old_ && (old_ != null ==> old_.entries == old(old_.entries))
    ensures ReadMapHeader(b).Ok? ==> m != null && if old_ != null then m == old_ else fresh(m)
    decreases |b|, 0
  {
    hide ReadMapHeader, ReadMapKey, ReadIntf, Assign;
    var header := ReadMapHeader(b);
    if header.Err? {
      return old_, Err(header.error);
    }
    var (sz, o) := header.value;
    if old_ != null {
      m := old_;
      m.Clear();
    } else {
      m := new GoMap();
    }
    ghost var all := ReadEntries(sz, o, []);
    var z := 0;
    while z < sz
      invariant z <= sz && |o| < |b| && m != null && (if old_ != null then m == old_ else fresh(m))
      invariant ReadEntries(sz - z, o, m.entries) == all
    {
      var key := ReadMapKey(o);
      if key.Err? {
        return m, Err(key.error);
      }
      var val := ReadIntfBytes(key.value.1);
      if val.Err? {
        return m, Err(val.error);
      }
      m.entries, o := Assign(m.entries, key.value.0, val.value.0), val.value.1;
      z := z + 1;
    }
    return m, Ok(o);
  }

  method ReadArrayIntf(b: bytes) returns (r: Parsed<Value>)
    ensures r == ReadArrIntf(b)
    decreases |b|, 0
  {
    hide ReadArrayHeader, ReadIntf;
    var header :- ReadArrayHeader(b);
    var (sz, o) := header;
    var vs: seq<Value> := [];
    ghost var all := ReadElems(sz, o);
    assert all.Ok? ==> [] + all.value.0 == all.value.0;
    var d := 0;
    while d < sz
      invariant d <= sz && |o| < |b|
      invariant var tail := ReadElems(sz - d, o);
        all == if tail.Ok? then Ok((vs + tail.value.0, tail.value.1)) else tail
    {
      var v := ReadIntfBytes(o);
      if v.Err? {
        return Err(v.error);
      }
      ghost var before := vs;
      vs, o := vs + [v.value.0], v.value.1;
      assert forall tail: seq<Value> :: before + ([v.value.0] + tail) == vs + tail;
      d := d + 1;
    }
    assert vs + [] == vs;
    return Ok((Arr(vs), o));
  }

  /** The dispatch of `ReadIntfBytes`, with the container cases looping. */
  method ReadIntfBytes(b: bytes) returns (r: Parsed<Value>)
    ensures r == ReadIntf(b)
    decreases |b|, 1
  {
    hide NextType, ReadMapIntf, ReadArrIntf;
    if |b| < 1 {
      return Err(ShortBytes);
    }
    if NextType(b) == MapType {
      var m, rest := ReadMapStrIntf(b, null);
      r := if rest.Ok? then Ok((Map(m.entries), rest.value)) else Err(rest.error);
    } else if NextType(b) == ArrayType {
      r := ReadArrayIntf(b);
    } else {
      r := ReadIntf(b);
    }
  }

  /** A slice of length `n` on the scratch array if that is large enough, else on a new one. */
  method Room(scratch: Buf, n: nat) returns (s: Buf)
    requires scratch.Valid()
    ensures s.Valid() && s.len == n
    ensures if scratch.Cap() >= n then s.data == scratch.data else fresh(s.data)
  {
    if scratch.Cap() >= n {
      return Buf(scratch.data, n);
    }
    var a := new byte[n](_ => 0);
    return Buf(a, n);
  }

  /** `ReadBytesBytes`: the copy holds the data read, whatever the scratch slice held. */
  method ReadBytesBytes(b: bytes, scratch: Buf) returns (s: Buf, r: Result<bytes>)
    requires scratch.Valid()
    modifies scratch.data
    ensures s.Valid() && (s.data == scratch.data || fresh(s.data))
    ensures ReadBin(b).Err? ==> r == Err(ReadBin(b).error) && scratch.data[..] == old(scratch.data[..])
    ensures ReadBin(b).Ok? ==> s.Bytes() == ReadBin(b).value.0 && r == Ok(ReadBin(b).value.1)
  {
    hide ReadBin;
    var p := ReadBin(b);
    if p.Err? {
      return scratch, Err(p.error);
    }
    s := Room(scratch, |p.value.0|);
    CopyIn(s.data, 0, p.value.0);
    r := Ok(p.value.1);
  }

  /** `Raw.UnmarshalMsg`: the raw value becomes exactly the next object of the input. */
  method RawUnmarshal(raw: Buf, b: bytes) returns (s: Buf, r: Result<bytes>)
    requires raw.Valid()
    modifies raw.data
    ensures s.Valid() && r == Skip(b)
    ensures r.Err? ==> s == raw && raw.data[..] == old(raw.data[..])
    ensures r.Ok? ==> IsObject(s.Bytes()) && s.Bytes() + r.value == b
  {
    hide Skip;
    r := SkipBytes(b);
    if r.Err? {
      return raw, r;
    }
    var rlen := |b| - |r.value|;
    s := Room(raw, rlen);
    CopyIn(s.data, 0, b[..rlen]);
    assert s.Bytes() == Consumed(b, r.value);
    FrontIsObject(b);
  }
}
