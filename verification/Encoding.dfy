/** Dynamic values and the bytes the encoders produce for them. The functions here are
    the specification of the `Append*` functions of msgp/write_bytes.go and, with the
    `Stream` style, of the `Write*` methods of msgp/write.go. */
module Encoding {
  import opened Wire

  /** A value an `interface{}` can hold. A Go map is its entries in the order in which the
      run at hand enumerates them; its keys are distinct. Floats are bit patterns and a
      time is its Unix seconds and nanoseconds. */
  datatype Value =
    | Nil
    | Bool(b: bool)
    | Int(i: int64)
    | Uint(u: uint64)
    | Float32(bits32: uint32)
    | Float64(bits64: uint64)
    | Complex64(re32: uint32, im32: uint32)
    | Complex128(re64: uint64, im64: uint64)
    | Str(s: bytes)
    | Bin(data: bytes)
    | Time(sec: int64, nsec: int32)
    | Ext(typ: int8, body: bytes)
    | Arr(els: seq<Value>)
    | Map(entries: seq<Entry>)

  datatype Entry = Entry(key: bytes, val: Value)

  /** The two encoders write extension headers differently: `AppendExtension` never keeps
      the fixext forms, `WriteExtension` uses them at lengths 1, 2, 4, 8 and 16. */
  datatype Style = Slice | Stream

  function EncMapHeader(n: uint32): (b: bytes)
    ensures 1 <= |b| <= 5
  {
    if n <= 15 then [FIXMAP + n]
    else if n < TWO_16 then [MAP16] + BE16(n)
    else [MAP32] + BE32(n)
  }

  function EncArrayHeader(n: uint32): (b: bytes)
    ensures 1 <= |b| <= 5
  {
    if n <= 15 then [FIXARRAY + n]
    else if n < TWO_16 then [ARRAY16] + BE16(n)
    else [ARRAY32] + BE32(n)
  }

  function EncInt(i: int64): bytes {
    if i >= 0 then
      if i < 0x80 then [i]
      else if i < 0x8000 then [INT16] + BE16(i)
      else if i < TWO_31 then [INT32] + BE32(i)
      else [INT64] + BE64(i)
    else if i >= -32 then [Unsigned(i, 0x80)]
    else if i >= -0x80 then [INT8, Unsigned(i, 0x80)]
    else if i >= -0x8000 then [INT16] + BE16(Unsigned(i, 0x8000))
    else if i >= -TWO_31 then [INT32] + BE32(Unsigned(i, TWO_31))
    else [INT64] + BE64(Unsigned(i, TWO_63))
  }

  function EncUint(u: uint64): bytes {
    if u < 0x80 then [u]
    else if u < 0x100 then [UINT8, u]
    else if u < TWO_16 then [UINT16] + BE16(u)
    else if u < TWO_32 then [UINT32] + BE32(u)
    else [UINT64] + BE64(u)
  }

  function EncStrHeader(n: nat): (b: bytes)
    ensures 1 <= |b| <= 5
  {
    if n <= 31 then [FIXSTR + n]
    else if n < 0x100 then [STR8, n]
    else if n < TWO_16 then [STR16] + BE16(n)
    else [STR32] + BE32(n % TWO_32)
  }

  function EncStr(s: bytes): bytes { EncStrHeader(|s|) + s }

  function EncBinHeader(n: nat): (b: bytes)
    ensures 2 <= |b| <= 5
  {
    if n < 0x100 then [BIN8, n]
    else if n < TWO_16 then [BIN16] + BE16(n)
    else [BIN32] + BE32(n % TWO_32)
  }

  function EncBin(d: bytes): bytes { EncBinHeader(|d|) + d }

  function EncTime(sec: int64, nsec: int32): bytes {
    [EXT8, 12, 5] + BE64(Unsigned(sec, TWO_63)) + BE32(Unsigned(nsec, TWO_31))
  }

  /** The lengths for which a fixext form exists. */
  predicate IsFixLen(n: nat) {
    n == 1 || n == 2 || n == 4 || n == 8 || n == 16
  }

  function FixExt(n: nat): byte
    requires IsFixLen(n)
  {
    if n == 1 then FIXEXT1 else if n == 2 then FIXEXT2 else if n == 4 then FIXEXT4
    else if n == 8 then FIXEXT8 else FIXEXT16
  }

  function EncExtHeader(typ: int8, n: nat, st: Style): (b: bytes)
    ensures 2 <= |b| <= 6
  {
    var t := Unsigned(typ, 0x80);
    if st == Stream && IsFixLen(n) then [FixExt(n), t]
    else if n < 0xff then [EXT8, n, t]
    else if n < 0xffff then [EXT16] + BE16(n) + [t]
    else [EXT32] + BE32(n % TWO_32) + [t]
  }

  function EncExt(typ: int8, d: bytes, st: Style): bytes { EncExtHeader(typ, |d|, st) + d }

  function Enc(v: Value, st: Style): bytes
    decreases v, 1
  {
    match v
    case Nil => [NIL]
    case Bool(b) => [if b then TRUE else FALSE]
    case Int(i) => EncInt(i)
    case Uint(u) => EncUint(u)
    case Float32(f) => [FLOAT32] + BE32(f)
    case Float64(f) => [FLOAT64] + BE64(f)
    case Complex64(re, im) => [FIXEXT8, 3] + BE32(re) + BE32(im)
    case Complex128(re, im) => [FIXEXT16, 4] + BE64(re) + BE64(im)
    case Str(s) => EncStr(s)
    case Bin(d) => EncBin(d)
    case Time(sec, nsec) => EncTime(sec, nsec)
    case Ext(typ, d) => EncExt(typ, d, st)
    case Arr(els) => EncArrayHeader(|els| % TWO_32) + EncAll(els, st)
    case Map(entries) => EncMapHeader(|entries| % TWO_32) + EncEntries(entries, st)
  }

  function EncAll(vs: seq<Value>, st: Style): bytes
    decreases vs, 0
  {
    if vs == [] then [] else Enc(vs[0], st) + EncAll(vs[1..], st)
  }

  function EncEntries(es: seq<Entry>, st: Style): bytes
    decreases es, 0
  {
    if es == [] then [] else EncStr(es[0].key) + Enc(es[0].val, st) + EncEntries(es[1..], st)
  }

  /** No two entries share a key: what makes an entry list a Go map. */
  ghost predicate DistinctKeys(es: seq<Entry>) {
    forall i, j :: 0 <= i < j < |es| ==> es[i].key != es[j].key
  }

  /** Values the dynamic round trip is about: lengths fit the 32-bit headers, maps have
      distinct keys, and no extension uses the type numbers the library reserves for
      complex numbers and times. */
  ghost predicate Fits(v: Value)
    decreases v, 1
  {
    match v
    case Complex64(_, _) => false
    case Complex128(_, _) => false
    case Str(s) => |s| < TWO_32
    case Bin(d) => |d| < TWO_32
    case Ext(typ, d) => |d| < TWO_32 && typ != 3 && typ != 4 && typ != 5
    case Arr(els) => |els| < TWO_32 && AllFit(els)
    case Map(es) => |es| < TWO_32 && DistinctKeys(es) && EntriesFit(es)
    case _ => true
  }

  ghost predicate AllFit(vs: seq<Value>)
    decreases vs, 0
  {
    vs != [] ==> Fits(vs[0]) && AllFit(vs[1..])
  }

  ghost predicate EntriesFit(es: seq<Entry>)
    decreases es, 0
  {
    es != [] ==> |es[0].key| < TWO_32 && Fits(es[0].val) && EntriesFit(es[1..])
  }

  /** Strings, keys and binary data fit the 32-bit headers. */
  ghost predicate Small(v: Value)
    decreases v, 1
  {
    match v
    case Str(s) => |s| < TWO_32
    case Bin(d) => |d| < TWO_32
    case Arr(els) => AllSmall(els)
    case Map(es) => EntriesSmall(es)
    case _ => true
  }

  ghost predicate AllSmall(vs: seq<Value>)
    decreases vs, 0
  {
    vs != [] ==> Small(vs[0]) && AllSmall(vs[1..])
  }

  ghost predicate EntriesSmall(es: seq<Entry>)
    decreases es, 0
  {
    es != [] ==> |es[0].key| < TWO_32 && Small(es[0].val) && EntriesSmall(es[1..])
  }

  /** What a dynamic reader hands back: unsigned values that fit a positive fixint come
      back signed, everything else unchanged. */
  function Norm(v: Value): Value
    decreases v, 1
  {
    match v
    case Uint(u) => if u < 0x80 then Int(u) else v
    case Arr(els) => Arr(NormAll(els))
    case Map(es) => Map(NormEntries(es))
    case _ => v
  }

  function NormAll(vs: seq<Value>): (r: seq<Value>)
    ensures |r| == |vs|
    decreases vs, 0
  {
    if vs == [] then [] else [Norm(vs[0])] + NormAll(vs[1..])
  }

  function NormEntries(es: seq<Entry>): (r: seq<Entry>)
    ensures |r| == |es|
    ensures forall i :: 0 <= i < |es| ==> r[i].key == es[i].key
    decreases es, 0
  {
    if es == [] then [] else [Entry(es[0].key, Norm(es[0].val))] + NormEntries(es[1..])
  }

  /** The Go map an entry list stands for. */
  ghost function AsMap(es: seq<Entry>): map<bytes, Value> {
    if es == [] then map[] else AsMap(es[1..])[es[0].key := es[0].val]
  }

  /** `m[key] = val` on a map kept as an entry list. */
  function Assign(es: seq<Entry>, key: bytes, val: Value): seq<Entry> {
    if es == [] then [Entry(key, val)]
    else if es[0].key == key then [Entry(key, val)] + es[1..]
    else [es[0]] + Assign(es[1..], key, val)
  }

  /** `Assign` is the map update: the map the entries stand for gets the new binding. */
  lemma {:induction false} AssignIsUpdate(es: seq<Entry>, key: bytes, val: Value)
    ensures AsMap(Assign(es, key, val)) == AsMap(es)[key := val]
  {
    if es != [] && es[0].key != key {
      AssignIsUpdate(es[1..], key, val);
    }
  }

  ghost predicate HasKey(es: seq<Entry>, key: bytes) {
    exists i :: 0 <= i < |es| && es[i].key == key
  }

  /** `Assign` adds no key but its own and keeps keys distinct. */
  lemma {:induction false} AssignKeys(es: seq<Entry>, key: bytes, val: Value)
    ensures forall e :: e in Assign(es, key, val) ==> e.key == key || HasKey(es, e.key)
    ensures DistinctKeys(es) ==> DistinctKeys(Assign(es, key, val))
  {
    if es != [] && es[0].key != key {
      var rest, tail := es[1..], Assign(es[1..], key, val);
      AssignKeys(rest, key, val);
      forall e | e in tail && e.key != key ensures HasKey(es, e.key) && (DistinctKeys(es) ==> e.key != es[0].key) {
        assert HasKey(rest, e.key);
        var j :| 0 <= j < |rest| && rest[j].key == e.key;
        assert es[j + 1].key == e.key;
      }
    }
  }
}
