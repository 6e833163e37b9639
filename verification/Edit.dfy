/** Editing an encoded map without decoding it (msgp/edit.go): a search over raw bytes,
    overlapping moves inside one array, and a header rewrite. `val` does not alias `raw`. */
module Edit {
  import opened Wire
  import opened Encoding
  import opened Decoding
  import opened ReadLoops
  import opened Append

  // ---- Searching ----------------------------------------------------------------

  /** Where a search stopped: the bytes from the matching key on, from its value on, and
      after its value. */
  datatype Hit = Miss | Hit(field: bytes, val: bytes, rest: bytes)

  function Search(n: nat, bts: bytes, key: bytes): (h: Hit)
    ensures h.Hit? ==> |h.rest| < |h.val| < |h.field| <= |bts|
    decreases n
  {
    if n == 0 then Miss
    else
      match ReadStr(bts)
      case Err(_) => Miss
      case Ok((field, val)) =>
        match Skip(val)
        case Err(_) => Miss
        case Ok(rest) => if field == key then Hit(bts, val, rest) else Search(n - 1, rest, key)
  }

  function SearchMap(raw: bytes, key: bytes): (h: Hit)
    ensures h.Hit? ==> |h.rest| < |h.val| < |h.field| <= |raw|
  {
    match ReadMapHeader(raw)
    case Err(_) => Miss
    case Ok((sz, bts)) => Search(sz, bts, key)
  }

  /** `locate`: the bounds of the value, or 0, 0. */
  function Bounds(raw: bytes, key: bytes): (r: (nat, nat))
    ensures r.0 <= r.1 <= |raw| && (r.0 == r.1 <==> SearchMap(raw, key).Miss?)
  {
    match SearchMap(raw, key)
    case Miss => (0, 0)
    case Hit(_, val, rest) => (|raw| - |val|, |raw| - |rest|)
  }

  /** `locateKV`: the bounds of key and value, or 0, 0. */
  function BoundsKV(raw: bytes, key: bytes): (r: (nat, nat))
    ensures r.0 <= r.1 <= |raw| && (r.0 == r.1 <==> SearchMap(raw, key).Miss?)
  {
    match SearchMap(raw, key)
    case Miss => (0, 0)
    case Hit(field, _, rest) => (|raw| - |field|, |raw| - |rest|)
  }

  method LocateBounds(raw: bytes, key: bytes) returns (start: nat, end: nat)
    ensures (start, end) == Bounds(raw, key)
  {
    hide ReadMapHeader, ReadStr, Skip;
    var header := ReadMapHeader(raw);
    if header.Err? {
      return 0, 0;
    }
    var (sz, bts) := header.value;
    var i := 0;
    while i < sz
      invariant i <= sz && |bts| <= |raw| && Search(sz - i, bts, key) == SearchMap(raw, key)
    {
      var field := ReadStr(bts);
      if field.Err? {
        return 0, 0;
      }
      bts := field.value.1;
      var l := |raw|;
      start := l - |bts|;
      var skipped := SkipBytes(bts);
      if skipped.Err? {
        return 0, 0;
      }
      bts := skipped.value;
      if field.value.0 == key {
        return start, l - |bts|;
      }
      i := i + 1;
    }
    return 0, 0;
  }

  method LocateKVBounds(raw: bytes, key: bytes) returns (start: nat, end: nat)
    ensures (start, end) == BoundsKV(raw, key)
  {
    hide ReadMapHeader, ReadStr, Skip;
    var header := ReadMapHeader(raw);
    if header.Err? {
      return 0, 0;
    }
    var (sz, bts) := header.value;
    var i := 0;
    while i < sz
      invariant i <= sz && |bts| <= |raw| && Search(sz - i, bts, key) == SearchMap(raw, key)
    {
      start := |raw| - |bts|;
      var field := ReadStr(bts);
      if field.Err? {
        return 0, 0;
      }
      var skipped := SkipBytes(field.value.1);
      if skipped.Err? {
        return 0, 0;
      }
      bts := skipped.value;
      if field.value.0 == key {
        return start, |raw| - |bts|;
      }
      i := i + 1;
    }
    return 0, 0;
  }

  // ---- The edits as functions of the bytes ----------------------------------------

  /** `raw[:start] + val + raw[end:]`. */
  function Splice(raw: bytes, start: nat, end: nat, val: bytes): bytes
    requires start <= end <= |raw|
  {
    raw[..start] + val + raw[end..]
  }

  function Locate(key: bytes, raw: bytes): bytes {
    var (start, end) := Bounds(raw, key);
    raw[start..end]
  }

  function Replaced(key: bytes, raw: bytes, val: bytes): Option<bytes> {
    var (start, end) := Bounds(raw, key);
    if start == end then None else Some(Splice(raw, start, end, val))
  }

  /** What `resizeMap` needs of its argument: a map lead byte with its whole count. */
  predicate HasCount(raw: bytes) {
    |raw| >= 1 && (raw[0] == MAP16 ==> |raw| >= 3) && (raw[0] == MAP32 ==> |raw| >= 5)
  }

  function Count(raw: bytes): nat
    requires HasCount(raw)
  {
    if raw[0] == MAP16 then U16(raw, 1) else if raw[0] == MAP32 then U32(raw, 1) else raw[0] % 0x10
  }

  /** `resizeMap` on the bytes, with `spare` being the unused capacity behind them. */
  function Resized(raw: bytes, n: uint32, spare: nat): bytes
    requires HasCount(raw)
  {
    if raw[0] == MAP16 then
      if n < TWO_16 then [MAP16] + BE16(n) + raw[3..]
      else if spare >= 2 then [MAP16] + BE32(n) + raw[3..]
      else EncMapHeader(n) + raw[3..]
    else if raw[0] == MAP32 then [MAP32] + BE32(n) + raw[5..]
    else EncMapHeader(n) + raw[1..]
  }

  /** Cutting out a pair leaves the header, whose count includes that pair. */
  lemma HeaderKept(key: bytes, raw: bytes)
    requires SearchMap(raw, key).Hit?
    ensures var (start, end) := BoundsKV(raw, key);
      var cut := Splice(raw, start, end, []);
      HasCount(raw) && HasCount(cut) && Count(cut) == Count(raw) == ReadMapHeader(raw).value.0 >= 1
  {
    hide Search;
    var (sz, bts) := ReadMapHeader(raw).value;
    var (start, end) := BoundsKV(raw, key);
    assert sz >= 1 by { SearchNone(bts, key); }
    var cut := Splice(raw, start, end, []);
    assert forall i :: 0 <= i < |raw| - |bts| ==> cut[i] == raw[i];
  }

  lemma SearchNone(bts: bytes, key: bytes)
    ensures Search(0, bts, key).Miss?
  {
  }

  function Removed(key: bytes, raw: bytes): bytes {
    var (start, end) := BoundsKV(raw, key);
    if start == end then raw
    else
      HeaderKept(key, raw);
      var cut := Splice(raw, start, end, []);
      Resized(cut, Count(cut) - 1, 0)
  }

  // ---- In place ---------------------------------------------------------------------

  /** `s` after `copy(s[dst:], s[src:src+n])`. */
  ghost function Moved(s: bytes, dst: nat, src: nat, n: nat): bytes
    requires dst + n <= |s| && src + n <= |s|
  {
    s[..dst] + s[src..src + n] + s[dst + n..]
  }

  /** `s` after `copy(s[at:], bs)`. */
  ghost function Over(s: bytes, at: nat, bs: bytes): bytes
    requires at + |bs| <= |s|
  {
    s[..at] + bs + s[at + |bs|..]
  }

  /** The language's `copy` inside one array: overlapping ranges are moved as a whole. */
  method Move(a: array<byte>, dst: nat, src: nat, n: nat)
    requires dst + n <= a.Length && src + n <= a.Length
    modifies a
    ensures a[..] == Moved(old(a[..]), dst, src, n)
  {
    forall i | 0 <= i < n {
      a[dst + i] := a[src + i];
    }
  }

  method Put(a: array<byte>, at: nat, src: bytes)
    requires at + |src| <= a.Length
    modifies a
    ensures a[..] == Over(old(a[..]), at, src)
  {
    forall i | 0 <= i < |src| {
      a[at + i] := src[i];
    }
  }

  lemma ShrinkBytes(s: bytes, len: nat, start: nat, end: nat, val: bytes)
    requires start + |val| <= end <= len <= |s|
    ensures Moved(Over(s, start, val), start + |val|, end, len - end)[..start + |val| + (len - end)]
         == Splice(s[..len], start, end, val)
  {
  }

  lemma WidenBytes(s: bytes, len: nat, start: nat, end: nat, val: bytes)
    requires start <= end <= len && end <= start + |val| && start + |val| + (len - end) <= |s|
    ensures Over(Moved(s, start + |val|, end, len - end), start, val)[..start + |val| + (len - end)]
         == Splice(s[..len], start, end, val)
  {
    var m := Moved(s, start + |val|, end, len - end);
    assert m[..start] == s[..start] && m[start + |val|..start + |val| + (len - end)] == s[end..len];
  }

  /** `val` is no longer than what it replaces: write it, then close the gap. */
  method Shrink(raw: Buf, start: nat, end: nat, val: bytes) returns (o: Buf)
    requires raw.Valid() && start + |val| <= end <= raw.len
    modifies raw.data
    ensures o.Valid() && o.data == raw.data && o.Bytes() == Splice(old(raw.Bytes()), start, end, val)
  {
    ShrinkBytes(raw.data[..], raw.len, start, end, val);
    Put(raw.data, start, val);
    Move(raw.data, start + |val|, end, raw.len - end);
    o := Buf(raw.data, start + |val| + (raw.len - end));
    hide Moved, Over, Splice;
    assert o.Bytes() == raw.data[..][..o.len];
    assert raw.data[..][..raw.len] == raw.data[..raw.len] && old(raw.data[..])[..raw.len] == old(raw.data[..raw.len]);
  }

  /** `val` is longer and the spare capacity holds the difference: open the gap, then write. */
  method Widen(raw: Buf, start: nat, end: nat, val: bytes) returns (o: Buf)
    requires raw.Valid() && start <= end <= raw.len && end <= start + |val|
    requires raw.len + (start + |val| - end) <= raw.Cap()
    modifies raw.data
    ensures o.Valid() && o.data == raw.data && o.Bytes() == Splice(old(raw.Bytes()), start, end, val)
  {
    WidenBytes(raw.data[..], raw.len, start, end, val);
    Move(raw.data, start + |val|, end, raw.len - end);
    Put(raw.data, start, val);
    o := Buf(raw.data, start + |val| + (raw.len - end));
    hide Moved, Over, Splice;
    assert o.Bytes() == raw.data[..][..o.len];
    assert old(raw.data[..])[..raw.len] == old(raw.data[..raw.len]);
  }

  lemma RebuildBytes(s: bytes, zeros: bytes, start: nat, end: nat, val: bytes)
    requires start <= end <= |s| && |zeros| == |s| + |val| - (end - start)
    ensures Over(Over(Over(zeros, 0, s[..start]), start, val), start + |val|, s[end..]) == Splice(s, start, end, val)
  {
  }

  method Rebuild(raw: Buf, start: nat, end: nat, val: bytes) returns (o: Buf)
    requires raw.Valid() && start <= end <= raw.len
    ensures o.Valid() && fresh(o.data) && o.Bytes() == Splice(raw.Bytes(), start, end, val)
  {
    var out := new byte[raw.len + |val| - (end - start)](_ => 0);
    ghost var zeros := out[..];
    Put(out, 0, raw.data[..start]);
    Put(out, start, val);
    Put(out, start + |val|, raw.data[end..raw.len]);
    o := Buf(out, out.Length);
    RebuildBytes(raw.data[..raw.len], zeros, start, end, val);
    hide Over, Splice;
    assert o.Bytes() == out[..];
    assert raw.data[..raw.len][..start] == raw.data[..start] && raw.data[..raw.len][end..] == raw.data[end..raw.len];
  }

  /** `replace`: every branch, in place or not, yields the same bytes. */
  method Replace(raw: Buf, start: nat, end: nat, val: bytes, inplace: bool) returns (o: Buf)
    requires raw.Valid() && start <= end <= raw.len
    modifies raw.data
    ensures o.Valid() && o.Bytes() == Splice(old(raw.Bytes()), start, end, val)
    ensures !inplace ==> fresh(o.data) && raw.data[..] == old(raw.data[..])
    ensures inplace ==> (o.data == raw.data <==> |val| <= end - start || raw.len + |val| - (end - start) < raw.Cap())
  {
    hide Splice;
    if inplace {
      var extra := |val| - (end - start);
      if extra == 0 {
        o := Shrink(raw, start, end, val);
        return;
      } else if extra < 0 {
        o := Shrink(raw, start, end, val);
        return;
      } else if extra < raw.Cap() - raw.len {
        o := Widen(raw, start, end, val);
        return;
      }
    }
    o := Rebuild(raw, start, end, val);
  }

  /** `Replace` and `CopyReplace`: the edited slice, or no slice if the key is not there. */
  method ReplaceKey(key: bytes, raw: Buf, val: bytes, inplace: bool) returns (found: bool, o: Buf)
    requires raw.Valid()
    modifies raw.data
    ensures var r := Replaced(key, old(raw.Bytes()), val);
      found == r.Some? && (found ==> o.Valid() && o.Bytes() == r.value)
    ensures !inplace || !found ==> raw.data[..] == old(raw.data[..])
  {
    var start, end := LocateBounds(raw.data[..raw.len], key);
    if start == end {
      return false, raw;
    }
    o := Replace(raw, start, end, val, inplace);
    found := true;
  }

  // ---- The header rewrite -------------------------------------------------------------

  /** Bounds on the new count: what a map header can hold. */
  method ResizeMap(raw: Buf, delta: int) returns (o: Buf)
    requires raw.Valid() && HasCount(raw.data[..raw.len]) && 0 <= Count(raw.data[..raw.len]) + delta < TWO_32
    modifies raw.data
    ensures var was := old(raw.Bytes());
      o.Valid() && o.Bytes() == Resized(was, Count(was) + delta, raw.Cap() - raw.len)
  {
    ghost var was := raw.Bytes();
    var lead := raw.data[0];
    if lead == MAP16 {
      var n := raw.data[1] * 0x100 + raw.data[2] + delta;
      if n < TWO_16 {
        o := WriteHeader(raw, [MAP16] + BE16(n), 3);
      } else if raw.Cap() - raw.len >= 2 {
        o := WriteHeader(raw, [MAP16] + BE32(n), 3);
      } else {
        o := Reheaded(raw, n, 3);
      }
    } else if lead == MAP32 {
      var n := U32(raw.data[..raw.len], 1) + delta;
      o := WriteHeader(raw, [MAP32] + BE32(n), 5);
    } else {
      var n := lead % 0x10 + delta;
      if n < 16 {
        raw.data[0] := FIXMAP + n;
        o := raw;
      } else if n < TWO_16 {
        if raw.Cap() - raw.len >= 2 {
          o := WriteHeader(raw, [MAP16] + BE16(n), 1);
        } else {
          o := Reheaded(raw, n, 1);
        }
      } else if raw.Cap() - raw.len >= 4 {
        o := WriteHeader(raw, [MAP32] + BE32(n), 1);
      } else {
        o := Reheaded(raw, n, 1);
      }
    }
  }

  /** The whole of a slice below its end, rewritten as header and body. */
  lemma HeaderBytes(s: bytes, len: nat, hdr: bytes, from: nat)
    requires from <= len <= |s| && from <= |hdr| && len + |hdr| - from <= |s|
    ensures Over(Moved(s, |hdr|, from, len - from), 0, hdr)[..len + |hdr| - from] == hdr + s[..len][from..]
  {
    var m := Moved(s, |hdr|, from, len - from);
    assert m[|hdr|..len + |hdr| - from] == s[from..len] == s[..len][from..];
  }

  /** Shift the body from `from` to behind `hdr` and write `hdr`. */
  method WriteHeader(raw: Buf, hdr: bytes, from: nat) returns (o: Buf)
    requires raw.Valid() && from <= |hdr| && from <= raw.len && raw.len + |hdr| - from <= raw.Cap()
    modifies raw.data
    ensures o.Valid() && o.data == raw.data && o.Bytes() == hdr + old(raw.Bytes())[from..]
  {
    HeaderBytes(raw.data[..], raw.len, hdr, from);
    Move(raw.data, |hdr|, from, raw.len - from);
    Put(raw.data, 0, hdr);
    o := Buf(raw.data, raw.len + |hdr| - from);
    hide Moved, Over;
    assert o.Bytes() == raw.data[..][..o.len];
    assert old(raw.data[..])[..raw.len] == old(raw.data[..raw.len]);
  }

  /** A new slice: a fresh header, then the old body. */
  method Reheaded(raw: Buf, n: uint32, from: nat) returns (o: Buf)
    requires raw.Valid() && from <= raw.len
    ensures o.Valid() && fresh(o.data) && o.Bytes() == EncMapHeader(n) + raw.Bytes()[from..]
  {
    var a := new byte[raw.len + 5](_ => 0);
    o := AppendMapHeader(Buf(a, 0), n);
    var tail := raw.data[from..raw.len];
    o := AppendConst(o, tail);
  }

  method RemoveKey(key: bytes, raw: Buf) returns (o: Buf)
    requires raw.Valid()
    modifies raw.data
    ensures o.Valid() && o.Bytes() == Removed(key, old(raw.Bytes()))
  {
    hide BoundsKV, Resized, Count, HasCount, Splice;
    ghost var was := raw.Bytes();
    var start, end := LocateKVBounds(raw.data[..raw.len], key);
    if start == end {
      return raw;
    }
    HeaderKept(key, was);
    o := Shrink(raw, start, end, []);
    ghost var cut := Splice(was, start, end, []);
    SpareIsIrrelevant(cut, o.Cap() - o.len);
    o := ResizeMap(o, -1);
  }

  /** Counting down never needs room. */
  lemma SpareIsIrrelevant(raw: bytes, spare: nat)
    requires HasCount(raw) && Count(raw) >= 1
    ensures Resized(raw, Count(raw) - 1, spare) == Resized(raw, Count(raw) - 1, 0)
  {
  }
}
