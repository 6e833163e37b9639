/** The `Append*` functions of msgp/write_bytes.go on Go slices: a backing array with a
    length, grown by `Require` and written in place. */
module Append {
  import opened Wire
  import opened Encoding

  /** A Go byte slice that starts at the beginning of its backing array. */
  datatype Buf = Buf(data: array<byte>, len: nat) {
    predicate Valid() { len <= data.Length }

    function Cap(): nat { data.Length }

    ghost function Bytes(): bytes
      reads data
      requires Valid()
    {
      data[..len]
    }
  }

  // ---- Growing ----------------------------------------------------------------

  /** The capacity after `Require`. */
  function Grown(cap: nat, len: nat, extra: nat): nat {
    if cap >= len + extra then cap
    else if 2 * cap < len + extra then len + extra
    else 2 * cap
  }

  method Require(old_: Buf, extra: nat) returns (s: Buf)
    requires old_.Valid()
    ensures s.Valid() && s.len == old_.len && s.Cap() == Grown(old_.Cap(), old_.len, extra) >= s.len + extra
    ensures s.Bytes() == old_.Bytes()
    ensures if old_.Cap() >= old_.len + extra then s == old_ else fresh(s.data)
  {
    var l, c := old_.len, old_.Cap();
    var r := l + extra;
    if c >= r {
      return old_;
    }
    c := 2 * c;
    if c < r {
      c := r;
    }
    var n := new byte[c](_ => 0);
    forall i | 0 <= i < l {
      n[i] := old_.data[i];
    }
    s := Buf(n, l);
    assert s.Bytes() == old_.Bytes();
  }

  /** A slice over a run of `ensure` calls: capacity, length and the bytes copied so far. */
  datatype Growth = Growth(cap: nat, len: nat, copied: nat)

  function Grow(g: Growth, sz: nat): Growth {
    Growth(Grown(g.cap, g.len, sz), g.len + sz, g.copied + if g.cap >= g.len + sz then 0 else g.len)
  }

  function GrowRun(g: Growth, sizes: seq<nat>): Growth
    decreases sizes
  {
    if sizes == [] then g else GrowRun(Grow(g, sizes[0]), sizes[1..])
  }

  function Sum(ns: seq<nat>): nat {
    if ns == [] then 0 else ns[0] + Sum(ns[1..])
  }

  /** Amortised growth: however a slice that starts out empty is extended, the bytes copied
      in all never exceed the capacity, which never exceeds twice the length. */
  lemma {:induction false} AmortisedGrowth(g: Growth, sizes: seq<nat>)
    requires g.copied <= g.cap <= 2 * g.len && g.len <= g.cap
    ensures var r := GrowRun(g, sizes);
      r.len == g.len + Sum(sizes) <= r.cap && r.copied <= r.cap <= 2 * r.len
    decreases sizes
  {
    if sizes != [] {
      AmortisedGrowth(Grow(g, sizes[0]), sizes[1..]);
    }
  }

  /** After `Require(sz)`, extending by no more than `sz` bytes in all never reallocates. */
  lemma {:induction false} NoRegrowth(g: Growth, sizes: seq<nat>)
    requires g.len + Sum(sizes) <= g.cap
    ensures GrowRun(g, sizes) == Growth(g.cap, g.len + Sum(sizes), g.copied)
    decreases sizes
  {
    if sizes != [] {
      NoRegrowth(Grow(g, sizes[0]), sizes[1..]);
    }
  }

  method Ensure(b: Buf, sz: nat) returns (o: Buf, n: nat)
    requires b.Valid()
    ensures o.Valid() && n == b.len && o.len == n + sz && o.data[..n] == b.Bytes()
    ensures o.Cap() == Grown(b.Cap(), b.len, sz)
    ensures if b.Cap() >= b.len + sz then o.data == b.data else fresh(o.data)
  {
    o := Require(b, sz);
    n := o.len;
    o := Buf(o.data, n + sz);
  }

  // ---- Writing numbers in place -----------------------------------------------

  /** The byte-by-byte shifts of msgp/integers.go are the big-endian bytes. */
  lemma Shifts16(u: uint16)
    ensures BE16(u) == [u / 0x100 % 0x100, u % 0x100]
  {
    assert u / 0x100 < 0x100;
  }

  lemma Shifts32(u: uint32)
    ensures BE32(u) == [u / 0x100_0000 % 0x100, u / 0x1_0000 % 0x100, u / 0x100 % 0x100, u % 0x100]
  {
    var hi, lo := u / 0x1_0000, u % 0x1_0000;
    TopByte(u);
    LowBytes(u);
    assert BE32(u) == [hi / 0x100, hi % 0x100, lo / 0x100, lo % 0x100];
  }

  lemma TopByte(u: uint32)
    ensures u / 0x1_0000 / 0x100 == u / 0x100_0000 < 0x100
  {
  }

  lemma LowBytes(u: uint32)
    ensures u % 0x1_0000 / 0x100 == u / 0x100 % 0x100
    ensures u % 0x1_0000 % 0x100 == u % 0x100
  {
    var q, r := u / 0x1_0000, u % 0x1_0000;
    var c, d := r / 0x100, r % 0x100;
    assert u == 0x100 * (0x100 * q + c) + d;
    assert u / 0x100 == 0x100 * q + c;
  }

  method PrefixU8(a: array<byte>, at: nat, pre: byte, sz: byte)
    requires at + 2 <= a.Length
    modifies a
    ensures a[..at + 2] == old(a[..at]) + [pre, sz] && a[at + 2..] == old(a[at + 2..])
  {
    a[at] := pre;
    a[at + 1] := sz;
  }

  method PrefixU16(a: array<byte>, at: nat, pre: byte, sz: uint16)
    requires at + 3 <= a.Length
    modifies a
    ensures a[..at + 3] == old(a[..at]) + ([pre] + BE16(sz)) && a[at + 3..] == old(a[at + 3..])
  {
    a[at + 2] := sz % 0x100;
    a[at] := pre;
    a[at + 1] := sz / 0x100 % 0x100;
    Shifts16(sz);
  }

  method PutUint32(a: array<byte>, at: nat, u: uint32)
    requires at + 4 <= a.Length
    modifies a
    ensures a[..at + 4] == old(a[..at]) + BE32(u) && a[at + 4..] == old(a[at + 4..])
  {
    a[at] := u / 0x100_0000 % 0x100;
    a[at + 1] := u / 0x1_0000 % 0x100;
    a[at + 2] := u / 0x100 % 0x100;
    a[at + 3] := u % 0x100;
    Shifts32(u);
  }

  method PutUint64(a: array<byte>, at: nat, u: uint64)
    requires at + 8 <= a.Length
    modifies a
    ensures a[..at + 8] == old(a[..at]) + BE64(u) && a[at + 8..] == old(a[at + 8..])
  {
    PutUint32(a, at, u / 0x1_0000_0000);
    PutUint32(a, at + 4, u % 0x1_0000_0000);
  }

  method PrefixU32(a: array<byte>, at: nat, pre: byte, sz: uint32)
    requires at + 5 <= a.Length
    modifies a
    ensures a[..at + 5] == old(a[..at]) + ([pre] + BE32(sz)) && a[at + 5..] == old(a[at + 5..])
  {
    a[at] := pre;
    PutUint32(a, at + 1, sz);
  }

  method PrefixU64(a: array<byte>, at: nat, pre: byte, sz: uint64)
    requires at + 9 <= a.Length
    modifies a
    ensures a[..at + 9] == old(a[..at]) + ([pre] + BE64(sz)) && a[at + 9..] == old(a[at + 9..])
  {
    a[at] := pre;
    PutUint64(a, at + 1, sz);
  }

  /** `putUnix`: seconds and nanoseconds, 12 bytes. */
  method PutUnix(a: array<byte>, at: nat, sec: int64, nsec: int32)
    requires at + 12 <= a.Length
    modifies a
    ensures a[..at + 12] == old(a[..at]) + (BE64(Unsigned(sec, TWO_63)) + BE32(Unsigned(nsec, TWO_31)))
    ensures a[at + 12..] == old(a[at + 12..])
  {
    hide BE64, BE32;
    PutUint64(a, at, Unsigned(sec, TWO_63));
    PutUint32(a, at + 8, Unsigned(nsec, TWO_31));
  }

  /** The whole 15-byte time extension. */
  method PutTime(a: array<byte>, at: nat, sec: int64, nsec: int32)
    requires at + 15 <= a.Length
    modifies a
    ensures a[..at + 15] == old(a[..at]) + EncTime(sec, nsec)
  {
    PrefixU8(a, at, EXT8, 12);
    a[at + 2] := 5;
    hide BE64, BE32;
    assert a[..at + 3] == old(a[..at]) + [EXT8, 12, 5];
    PutUnix(a, at + 3, sec, nsec);
  }

  method PutComplex64(a: array<byte>, at: nat, re: uint32, im: uint32)
    requires at + 10 <= a.Length
    modifies a
    ensures a[..at + 10] == old(a[..at]) + ([FIXEXT8, 3] + BE32(re) + BE32(im))
  {
    hide BE32;
    PrefixU8(a, at, FIXEXT8, 3);
    PutUint32(a, at + 2, re);
    PutUint32(a, at + 6, im);
  }

  method PutComplex128(a: array<byte>, at: nat, re: uint64, im: uint64)
    requires at + 18 <= a.Length
    modifies a
    ensures a[..at + 18] == old(a[..at]) + ([FIXEXT16, 4] + BE64(re) + BE64(im))
  {
    hide BE64;
    PrefixU8(a, at, FIXEXT16, 4);
    PutUint64(a, at + 2, re);
    PutUint64(a, at + 10, im);
  }

  /** `copy(a[at:], src)` for a source outside `a`. */
  method CopyIn(a: array<byte>, at: nat, src: bytes)
    requires at + |src| <= a.Length
    modifies a
    ensures a[..at + |src|] == old(a[..at]) + src && a[at + |src|..] == old(a[at + |src|..])
  {
    forall i | 0 <= i < |src| {
      a[at + i] := src[i];
    }
  }

  // ---- Appending --------------------------------------------------------------

  /** The result `o` of appending `enc` to `b`, whose contents were `before`: in place when
      the capacity suffices, otherwise in a new array. */
  twostate predicate Appended(b: Buf, new o: Buf, enc: bytes)
    reads o.data
    requires b.Valid()
  {
    && o.Valid()
    && o.Bytes() == old(b.Bytes()) + enc
    && (o.data == b.data || fresh(o.data))
    && (b.Cap() >= b.len + |enc| ==> o.data == b.data)
  }

  /** The language's own `append` for a few constant bytes. */
  method AppendConst(b: Buf, bs: bytes) returns (o: Buf)
    requires b.Valid()
    modifies b.data
    ensures Appended(b, o, bs)
  {
    var n;
    o, n := Ensure(b, |bs|);
    CopyIn(o.data, n, bs);
  }

  /** The two calls each case of the encoders consists of: make room, then write the lead
      byte and a big-endian number. */
  method AppendU8(b: Buf, pre: byte, u: byte) returns (o: Buf)
    requires b.Valid()
    modifies b.data
    ensures Appended(b, o, [pre, u])
  {
    var n;
    o, n := Ensure(b, 2);
    PrefixU8(o.data, n, pre, u);
  }

  method AppendU16(b: Buf, pre: byte, u: uint16) returns (o: Buf)
    requires b.Valid()
    modifies b.data
    ensures Appended(b, o, [pre] + BE16(u))
  {
    var n;
    o, n := Ensure(b, 3);
    PrefixU16(o.data, n, pre, u);
  }

  method AppendU32(b: Buf, pre: byte, u: uint32) returns (o: Buf)
    requires b.Valid()
    modifies b.data
    ensures Appended(b, o, [pre] + BE32(u))
  {
    var n;
    o, n := Ensure(b, 5);
    PrefixU32(o.data, n, pre, u);
  }

  method AppendU64(b: Buf, pre: byte, u: uint64) returns (o: Buf)
    requires b.Valid()
    modifies b.data
    ensures Appended(b, o, [pre] + BE64(u))
  {
    var n;
    o, n := Ensure(b, 9);
    PrefixU64(o.data, n, pre, u);
  }

  method AppendMapHeader(b: Buf, sz: uint32) returns (o: Buf)
    requires b.Valid()
    modifies b.data
    ensures Appended(b, o, EncMapHeader(sz))
  {
    if sz <= 15 {
      o := AppendConst(b, [FIXMAP + sz]);
      return;
    }
    if sz < TWO_16 {
      o := AppendU16(b, MAP16, sz);
      return;
    }
    o := AppendU32(b, MAP32, sz);
  }

  method AppendArrayHeader(b: Buf, sz: uint32) returns (o: Buf)
    requires b.Valid()
    modifies b.data
    ensures Appended(b, o, EncArrayHeader(sz))
  {
    if sz <= 15 {
      o := AppendConst(b, [FIXARRAY + sz]);
      return;
    }
    if sz < TWO_16 {
      o := AppendU16(b, ARRAY16, sz);
      return;
    }
    o := AppendU32(b, ARRAY32, sz);
  }

  method AppendFloat64(b: Buf, bits: uint64) returns (o: Buf)
    requires b.Valid()
    modifies b.data
    ensures Appended(b, o, [FLOAT64] + BE64(bits))
  {
    o := AppendU64(b, FLOAT64, bits);
  }

  method AppendFloat32(b: Buf, bits: uint32) returns (o: Buf)
    requires b.Valid()
    modifies b.data
    ensures Appended(b, o, [FLOAT32] + BE32(bits))
  {
    o := AppendU32(b, FLOAT32, bits);
  }

  method AppendInt64(b: Buf, i: int64) returns (o: Buf)
    requires b.Valid()
    modifies b.data
    ensures Appended(b, o, EncInt(i))
  {
    hide Appended, BE16, BE32, BE64;
    if i >= 0 {
      if i <= 0x7f {
        o := AppendConst(b, [i]);
      } else if i <= 0x7fff {
        o := AppendU16(b, INT16, i);
      } else if i <= 0x7fff_ffff {
        o := AppendU32(b, INT32, i);
      } else {
        o := AppendU64(b, INT64, i);
      }
      return;
    }
    if i >= -32 {
      o := AppendConst(b, [Unsigned(i, 0x80)]);
    } else if i >= -0x80 {
      o := AppendU8(b, INT8, Unsigned(i, 0x80));
    } else if i >= -0x8000 {
      o := AppendU16(b, INT16, Unsigned(i, 0x8000));
    } else if i >= -0x8000_0000 {
      o := AppendU32(b, INT32, Unsigned(i, TWO_31));
    } else {
      o := AppendU64(b, INT64, Unsigned(i, TWO_63));
    }
  }

  method AppendInt8(b: Buf, i: int8) returns (o: Buf)
    requires b.Valid()
    modifies b.data
    ensures Appended(b, o, EncInt(i))
  {
    if i >= 0 {
      o := AppendConst(b, [i]);
      return;
    }
    if i >= -32 {
      o := AppendConst(b, [Unsigned(i, 0x80)]);
      return;
    }
    o := AppendU8(b, INT8, Unsigned(i, 0x80));
  }

  method AppendUint64(b: Buf, u: uint64) returns (o: Buf)
    requires b.Valid()
    modifies b.data
    ensures Appended(b, o, EncUint(u))
  {
    hide Appended, BE16, BE32, BE64;
    if u <= 0x7f {
      o := AppendConst(b, [u]);
    } else if u <= 0xff {
      o := AppendU8(b, UINT8, u);
    } else if u <= 0xffff {
      o := AppendU16(b, UINT16, u);
    } else if u <= 0xffff_ffff {
      o := AppendU32(b, UINT32, u);
    } else {
      o := AppendU64(b, UINT64, u);
    }
  }

  method AppendUint8(b: Buf, u: byte) returns (o: Buf)
    requires b.Valid()
    modifies b.data
    ensures Appended(b, o, EncUint(u))
  {
    if u <= 0x7f {
      o := AppendConst(b, [u]);
      return;
    }
    o := AppendU8(b, UINT8, u);
  }

  /** Room made by a size switch: the header is written, `body` more bytes are reserved. */
  twostate predicate Headed(b: Buf, new o: Buf, n: nat, hdr: bytes, body: nat)
    reads o.data
    requires b.Valid()
  {
    && o.Valid()
    && n == b.len + |hdr| && o.len == n + body && o.data[..n] == old(b.Bytes()) + hdr
    && (o.data == b.data || fresh(o.data))
    && (b.Cap() >= o.len ==> o.data == b.data)
  }

  /** The size switch of `AppendBytes`. */
  method BinSpace(b: Buf, sz: nat) returns (o: Buf, n: nat)
    requires b.Valid()
    modifies b.data
    ensures Headed(b, o, n, EncBinHeader(sz), sz)
  {
    if sz <= 0xff {
      o, n := Ensure(b, 2 + sz);
      PrefixU8(o.data, n, BIN8, sz);
      n := n + 2;
    } else if sz <= 0xffff {
      o, n := Ensure(b, 3 + sz);
      PrefixU16(o.data, n, BIN16, sz);
      n := n + 3;
    } else {
      o, n := Ensure(b, 5 + sz);
      PrefixU32(o.data, n, BIN32, sz % TWO_32);
      n := n + 5;
    }
  }

  /** The size switch of `AppendString`. */
  method StrSpace(b: Buf, sz: nat) returns (o: Buf, n: nat)
    requires b.Valid()
    modifies b.data
    ensures Headed(b, o, n, EncStrHeader(sz), sz)
  {
    if sz <= 31 {
      o, n := Ensure(b, 1 + sz);
      o.data[n] := FIXSTR + sz;
      n := n + 1;
    } else if sz <= 0xff {
      o, n := Ensure(b, 2 + sz);
      PrefixU8(o.data, n, STR8, sz);
      n := n + 2;
    } else if sz <= 0xffff {
      o, n := Ensure(b, 3 + sz);
      PrefixU16(o.data, n, STR16, sz);
      n := n + 3;
    } else {
      o, n := Ensure(b, 5 + sz);
      PrefixU32(o.data, n, STR32, sz % TWO_32);
      n := n + 5;
    }
  }

  /** The three cases of the second size switch of `AppendExtension`. */
  method Ext8Space(b: Buf, t: byte, sz: nat) returns (o: Buf, n: nat)
    requires b.Valid() && sz < 0x100
    modifies b.data
    ensures Headed(b, o, n, [EXT8, sz, t], sz)
  {
    o, n := Ensure(b, sz + 3);
    PrefixU8(o.data, n, EXT8, sz);
    o.data[n + 2] := t;
    n := n + 3;
  }

  method Ext16Space(b: Buf, t: byte, sz: nat) returns (o: Buf, n: nat)
    requires b.Valid() && sz < TWO_16
    modifies b.data
    ensures Headed(b, o, n, [EXT16] + BE16(sz) + [t], sz)
  {
    o, n := Ensure(b, sz + 4);
    PrefixU16(o.data, n, EXT16, sz);
    o.data[n + 3] := t;
    n := n + 4;
  }

  method Ext32Space(b: Buf, t: byte, sz: nat) returns (o: Buf, n: nat)
    requires b.Valid()
    modifies b.data
    ensures Headed(b, o, n, [EXT32] + BE32(sz % TWO_32) + [t], sz)
  {
    o, n := Ensure(b, sz + 6);
    PrefixU32(o.data, n, EXT32, sz % TWO_32);
    o.data[n + 5] := t;
    n := n + 6;
  }

  method ExtSpace(b: Buf, typ: int8, sz: nat) returns (o: Buf, n: nat)
    requires b.Valid()
    modifies b.data
    ensures Headed(b, o, n, EncExtHeader(typ, sz, Slice), sz)
  {
    hide Headed, BE16, BE32;
    var t := Unsigned(typ, 0x80);
    if sz < 0xff {
      o, n := Ext8Space(b, t, sz);
    } else if sz < 0xffff {
      o, n := Ext16Space(b, t, sz);
    } else {
      o, n := Ext32Space(b, t, sz);
    }
  }

  method AppendBytes(b: Buf, bts: bytes) returns (o: Buf)
    requires b.Valid()
    modifies b.data
    ensures Appended(b, o, EncBin(bts))
  {
    hide EncBinHeader;
    var n;
    o, n := BinSpace(b, |bts|);
    CopyIn(o.data, n, bts);
  }

  method AppendString(b: Buf, s: bytes) returns (o: Buf)
    requires b.Valid()
    modifies b.data
    ensures Appended(b, o, EncStr(s))
  {
    hide EncStrHeader;
    var n;
    o, n := StrSpace(b, |s|);
    CopyIn(o.data, n, s);
  }

  method AppendComplex64(b: Buf, re: uint32, im: uint32) returns (o: Buf)
    requires b.Valid()
    modifies b.data
    ensures Appended(b, o, [FIXEXT8, 3] + BE32(re) + BE32(im))
  {
    var n;
    o, n := Ensure(b, 10);
    PutComplex64(o.data, n, re, im);
  }

  method AppendComplex128(b: Buf, re: uint64, im: uint64) returns (o: Buf)
    requires b.Valid()
    modifies b.data
    ensures Appended(b, o, [FIXEXT16, 4] + BE64(re) + BE64(im))
  {
    var n;
    o, n := Ensure(b, 18);
    PutComplex128(o.data, n, re, im);
  }

  method AppendTime(b: Buf, sec: int64, nsec: int32) returns (o: Buf)
    requires b.Valid()
    modifies b.data
    ensures Appended(b, o, EncTime(sec, nsec))
  {
    var n;
    assert |EncTime(sec, nsec)| == 15;
    o, n := Ensure(b, 15);
    hide EncTime;
    PutTime(o.data, n, sec, nsec);
  }

  method AppendEmptyExt(b: Buf, typ: int8) returns (o: Buf)
    requires b.Valid()
    modifies b.data
    ensures Appended(b, o, EncExt(typ, [], Slice))
  {
    var n;
    o, n := Ensure(b, 3);
    PrefixU8(o.data, n, EXT8, 0);
    o.data[n + 2] := Unsigned(typ, 0x80);
  }

  /** The fixext header that the first switch of `AppendExtension` writes is left behind:
      the second switch extends the original slice again and writes an ext8 header. */
  method AppendExtension(b: Buf, typ: int8, d: bytes) returns (o: Buf)
    requires b.Valid()
    modifies b.data
    ensures Appended(b, o, EncExt(typ, d, Slice))
  {
    hide EncExtHeader;
    var l, n := |d|, 0;
    if l == 0 {
      o := AppendEmptyExt(b, typ);
      assert d == [];
      return;
    }
    if IsFixLen(l) {
      o, n := Ensure(b, l + 2);
      PrefixU8(o.data, n, FixExt(l), Unsigned(typ, 0x80));
    }
    assert b.Bytes() == old(b.Bytes());
    o, n := ExtSpace(b, typ, l);
    CopyIn(o.data, n, d);
  }

  /** `AppendIntf`: dispatch on the dynamic type, with loops over slices and maps. */
  method AppendIntf(b: Buf, v: Value) returns (o: Buf)
    requires b.Valid()
    modifies b.data
    ensures Appended(b, o, Enc(v, Slice))
    decreases v, 1
  {
    match v
    case Nil => o := AppendConst(b, [NIL]);
    case Bool(t) => o := AppendConst(b, [if t then TRUE else FALSE]);
    case Int(i) => o := AppendInt64(b, i);
    case Uint(u) => o := AppendUint64(b, u);
    case Float32(f) => o := AppendFloat32(b, f);
    case Float64(f) => o := AppendFloat64(b, f);
    case Complex64(re, im) => o := AppendComplex64(b, re, im);
    case Complex128(re, im) => o := AppendComplex128(b, re, im);
    case Str(s) => o := AppendString(b, s);
    case Bin(d) => o := AppendBytes(b, d);
    case Time(sec, nsec) => o := AppendTime(b, sec, nsec);
    case Ext(typ, d) => o := AppendExtension(b, typ, d);
    case Arr(els) => o := AppendSlice(b, els);
    case Map(es) => o := AppendMapStrIntf(b, es);
  }

  method AppendSlice(b: Buf, els: seq<Value>) returns (o: Buf)
    requires b.Valid()
    modifies b.data
    ensures Appended(b, o, EncArrayHeader(|els| % TWO_32) + EncAll(els, Slice))
    decreases els, 0
  {
    hide EncArrayHeader, Enc;
    o := AppendArrayHeader(b, |els| % TWO_32);
    ghost var all := old(b.Bytes()) + (EncArrayHeader(|els| % TWO_32) + EncAll(els, Slice));
    assert els[0..] == els;
    for i := 0 to |els|
      invariant o.Valid() && (o.data == b.data || fresh(o.data))
      invariant o.Bytes() + EncAll(els[i..], Slice) == all
      invariant b.Cap() >= |all| ==> o.data == b.data
    {
      ElemNext(els, i, Slice);
      o := AppendIntf(o, els[i]);
    }
  }

  lemma ElemNext(els: seq<Value>, i: nat, st: Style)
    requires i < |els|
    ensures EncAll(els[i..], st) == Enc(els[i], st) + EncAll(els[i + 1..], st)
  {
    hide Enc;
    assert els[i..][1..] == els[i + 1..];
  }

  lemma EntryNext(es: seq<Entry>, i: nat, st: Style)
    requires i < |es|
    ensures EncEntries(es[i..], st) == EncStr(es[i].key) + (Enc(es[i].val, st) + EncEntries(es[i + 1..], st))
  {
    hide Enc, EncStr;
    assert es[i..][1..] == es[i + 1..];
  }

  /** One round of the map loop, in front of what is still to come. */
  method AppendEntry(b: Buf, e: Entry, ghost rest: bytes) returns (o: Buf)
    requires b.Valid()
    modifies b.data
    ensures o.Valid() && (o.data == b.data || fresh(o.data))
    ensures o.Bytes() + rest == old(b.Bytes()) + (EncStr(e.key) + (Enc(e.val, Slice) + rest))
    ensures b.Cap() >= |old(b.Bytes()) + (EncStr(e.key) + (Enc(e.val, Slice) + rest))| ==> o.data == b.data
    decreases e, 2
  {
    hide EncStr, Enc;
    o := AppendString(b, e.key);
    o := AppendIntf(o, e.val);
  }

  method AppendMapStrIntf(b: Buf, es: seq<Entry>) returns (o: Buf)
    requires b.Valid()
    modifies b.data
    ensures Appended(b, o, EncMapHeader(|es| % TWO_32) + EncEntries(es, Slice))
    decreases es, 0
  {
    hide EncMapHeader, EncStr, Enc;
    o := AppendMapHeader(b, |es| % TWO_32);
    ghost var all := old(b.Bytes()) + (EncMapHeader(|es| % TWO_32) + EncEntries(es, Slice));
    assert es[0..] == es;
    for i := 0 to |es|
      invariant o.Valid() && (o.data == b.data || fresh(o.data))
      invariant o.Bytes() + EncEntries(es[i..], Slice) == all
      invariant b.Cap() >= |all| ==> o.data == b.data
    {
      EntryNext(es, i, Slice);
      o := AppendEntry(o, es[i], EncEntries(es[i + 1..], Slice));
    }
  }
}
