/** The generator's type tree (gen/elem.go), the Go values of such types, and the wire
    encoding of a value, node by node. */
module TypeTree {
  import opened Wire
  import V = Encoding

  /** The base types. An extension type either fixes its number (`PExt`) or is the library's
      `RawExtension`, whose number is a field (`PRaw`). */
  datatype Prim =
    | PBytes | PString | PFloat32 | PFloat64 | PComplex64 | PComplex128
    | PUint | PUint8 | PUint16 | PUint32 | PUint64 | PByte
    | PInt | PInt8 | PInt16 | PInt32 | PInt64
    | PBool | PIntf | PTime
    | PExt(typ: int8)
    | PRaw

  /** A node of the tree. A `Base` with `convert` is a named type over a primitive, encoded
      after a plain conversion; an `Ident` names a type whose own methods are called. */
  datatype Elem =
    | Base(prim: Prim, convert: bool, mustinline: bool)
    | Ident(name: string)
    | Ptr(to: Elem)
    | Slice(els: Elem)
    | Array(size: nat, els: Elem)
    | Map(value: Elem)
    | Struct(fields: seq<Field>, asTuple: bool)

  datatype Field = Field(tag: bytes, elem: Elem)

  /** The named types of the processed file. */
  type Env = map<string, Elem>

  /** A Go value. `Zero` is a zero value nobody has looked into; a slice carries the
      elements between its length and its capacity; a map is its entries in the order in
      which the run at hand enumerates them. */
  datatype GoVal =
    | Zero
    | Scalar(v: V.Value)
    | Dyn(v: V.Value)
    | Raw(typ: int8, body: bytes)
    | NilPtr
    | PtrTo(to: GoVal)
    | Sl(els: seq<GoVal>, spare: seq<GoVal>)
    | Arr(els: seq<GoVal>)
    | Mp(entries: seq<GoEntry>)
    | Rec(fields: seq<GoVal>)

  datatype GoEntry = GoEntry(key: bytes, val: GoVal)

  // ---- Variables of the emitted code ---------------------------------------------

  /** Field `i` of a struct with `n` fields. */
  datatype Sel = Sel(i: nat, n: nat)

  /** A variable: the field selectors applied to the variable of the enclosing block (the
      receiver, a loop element, a map value, or what a pointer points to). */
  type Path = seq<Sel>

  // ---- Typing -------------------------------------------------------------------

  predicate PrimOk(p: Prim, x: V.Value) {
    match p
    case PBytes => x.Bin? && |x.data| < TWO_32
    case PString => x.Str? && |x.s| < TWO_32
    case PFloat32 => x.Float32?
    case PFloat64 => x.Float64?
    case PComplex64 => x.Complex64?
    case PComplex128 => x.Complex128?
    case PUint => x.Uint?
    case PUint64 => x.Uint?
    case PUint32 => x.Uint? && x.u < TWO_32
    case PUint16 => x.Uint? && x.u < TWO_16
    case PUint8 => x.Uint? && x.u < 0x100
    case PByte => x.Uint? && x.u < 0x100
    case PInt => x.Int?
    case PInt64 => x.Int?
    case PInt32 => x.Int? && -TWO_31 <= x.i < TWO_31
    case PInt16 => x.Int? && -0x8000 <= x.i < 0x8000
    case PInt8 => x.Int? && -0x80 <= x.i < 0x80
    case PBool => x.Bool?
    case PIntf => false
    case PTime => x.Time?
    case PExt(t) => x.Ext? && x.typ == t && |x.body| < TWO_32
    case PRaw => x.Ext? && |x.body| < TWO_32
  }

  /** Values of base types, and what they hold. */
  predicate IsLeaf(v: GoVal) { v.Scalar? || v.Dyn? || v.Raw? }

  function Held(v: GoVal): V.Value
    requires IsLeaf(v)
  {
    if v.Raw? then V.Ext(v.typ, v.body) else v.v
  }

  ghost predicate BaseOk(p: Prim, v: GoVal) {
    if p == PIntf then v.Dyn? && V.Fits(v.v)
    else if p == PRaw then v.Raw? && PrimOk(p, Held(v))
    else v.Scalar? && PrimOk(p, v.v)
  }

  ghost predicate DistinctGoKeys(es: seq<GoEntry>) {
    forall i, j :: 0 <= i < j < |es| ==> es[i].key != es[j].key
  }

  /** `v` is a value of the type `e`, small enough for the wire format. A named type is
      never itself just a name: alias resolution has copied its target. */
  ghost predicate HasType(env: Env, e: Elem, v: GoVal)
    decreases v, if e.Ident? then 1 else 0
  {
    match e
    case Base(p, _, _) => BaseOk(p, v)
    case Ident(n) => n in env && !env[n].Ident? && HasType(env, env[n], v)
    case Ptr(x) => v.NilPtr? || (v.PtrTo? && HasType(env, x, v.to))
    case Slice(x) => v.Sl? && |v.els| < TWO_32 && AllTyped(env, x, v.els)
    case Array(n, x) => v.Arr? && |v.els| == n < TWO_32 && AllTyped(env, x, v.els)
    case Map(x) => v.Mp? && |v.entries| < TWO_32 && DistinctGoKeys(v.entries) && EntriesTyped(env, x, v.entries)
    case Struct(fs, _) => v.Rec? && |v.fields| == |fs| < TWO_32 && FieldsTyped(env, fs, v.fields)
  }

  ghost predicate AllTyped(env: Env, e: Elem, vs: seq<GoVal>)
    decreases vs, 2
  {
    forall i :: 0 <= i < |vs| ==> HasType(env, e, vs[i])
  }

  ghost predicate EntriesTyped(env: Env, e: Elem, es: seq<GoEntry>)
    decreases es, 2
  {
    forall i :: 0 <= i < |es| ==> |es[i].key| < TWO_32 && HasType(env, e, es[i].val)
  }

  ghost predicate FieldsTyped(env: Env, fs: seq<Field>, vs: seq<GoVal>)
    requires |fs| == |vs|
    decreases vs, 2
  {
    forall i :: 0 <= i < |vs| ==> |fs[i].tag| < TWO_32 && HasType(env, fs[i].elem, vs[i])
  }

  // ---- The encoding, node by node -------------------------------------------------

  /** The array elements both generators write as one bin object; the streaming one also
      treats `uint8` so. */
  predicate IsByteArray(els: Elem, st: V.Style) {
    els.Base? && (els.prim == PByte || (st.Stream? && els.prim == PUint8))
  }

  /** Go takes an array for a byte slice only if its elements are bytes, not values of a named
      byte type: no array in the tree is written as one bin object without being such. */
  ghost predicate PlainBytes(e: Elem, st: V.Style)
    decreases e
  {
    match e
    case Base(_, _, _) => true
    case Ident(_) => true
    case Ptr(y) => PlainBytes(y, st)
    case Slice(y) => PlainBytes(y, st)
    case Array(_, y) => !(IsByteArray(y, st) && y.convert) && PlainBytes(y, st)
    case Map(y) => PlainBytes(y, st)
    case Struct(fs, _) => forall i :: 0 <= i < |fs| ==> PlainBytes(fs[i].elem, st)
  }

  ghost predicate EnvPlainBytes(env: Env, st: V.Style) {
    forall n :: n in env ==> PlainBytes(env[n], st)
  }

  function ByteOf(v: GoVal): byte {
    if v.Scalar? && v.v.Uint? && v.v.u < 0x100 then v.v.u else 0
  }

  function ByteString(vs: seq<GoVal>): (b: bytes)
    ensures |b| == |vs|
  {
    seq(|vs|, i requires 0 <= i < |vs| => ByteOf(vs[i]))
  }

  function StructHeader(n: nat, asTuple: bool): bytes {
    if asTuple then V.EncArrayHeader(n % TWO_32) else V.EncMapHeader(n % TWO_32)
  }

  /** An array object is never a bin object. */
  lemma HeadersDiffer(k: uint32, els: bytes, data: bytes)
    ensures V.EncArrayHeader(k) + els != V.EncBinHeader(k) + data
  {
    assert (V.EncArrayHeader(k) + els)[0] == V.EncArrayHeader(k)[0];
    assert (V.EncBinHeader(k) + data)[0] == V.EncBinHeader(k)[0];
  }

  function EncGo(env: Env, e: Elem, v: GoVal, st: V.Style): bytes
    decreases v, if e.Ident? then 1 else 0
  {
    match e
    case Base(_, _, _) => if IsLeaf(v) then V.Enc(Held(v), st) else []
    case Ident(n) => if n in env && !env[n].Ident? then EncGo(env, env[n], v, st) else []
    case Ptr(x) => if v.NilPtr? then [NIL] else if v.PtrTo? then EncGo(env, x, v.to, st) else []
    case Slice(x) => if v.Sl? then V.EncArrayHeader(|v.els| % TWO_32) + EncGoAll(env, x, v.els, st) else []
    case Array(n, x) =>
      if !v.Arr? then []
      else if IsByteArray(x, st) then V.EncBin(ByteString(v.els))
      else V.EncArrayHeader(n % TWO_32) + EncGoAll(env, x, v.els, st)
    case Map(x) => if v.Mp? then V.EncMapHeader(|v.entries| % TWO_32) + EncGoEntries(env, x, v.entries, st) else []
    case Struct(fs, tup) =>
      if v.Rec? && |v.fields| == |fs| then StructHeader(|fs|, tup) + EncGoFields(env, fs, v.fields, 0, tup, st) else []
  }

  function EncGoAll(env: Env, e: Elem, vs: seq<GoVal>, st: V.Style): bytes
    decreases vs, 2
  {
    if vs == [] then [] else EncGo(env, e, vs[0], st) + EncGoAll(env, e, vs[1..], st)
  }

  function EncGoEntries(env: Env, e: Elem, es: seq<GoEntry>, st: V.Style): bytes
    decreases es, 2
  {
    if es == [] then []
    else V.EncStr(es[0].key) + (EncGo(env, e, es[0].val, st) + EncGoEntries(env, e, es[1..], st))
  }

  /** The fields from number `i` on, each behind its tag unless the struct is a tuple. */
  function EncGoFields(env: Env, fs: seq<Field>, vs: seq<GoVal>, i: nat, tup: bool, st: V.Style): bytes
    requires |fs| == |vs|
    decreases vs, 3, |vs| - i
  {
    if i >= |vs| then []
    else FieldTag(fs[i], tup) + (EncGo(env, fs[i].elem, vs[i], st) + EncGoFields(env, fs, vs, i + 1, tup, st))
  }

  function FieldTag(f: Field, tup: bool): bytes {
    if tup then [] else V.EncStr(f.tag)
  }

  // ---- Sizes of values ---------------------------------------------------------------

  /** How deep a value nests: a bound on the method calls its encoding can make. */
  function Depth(v: GoVal): (d: nat)
    ensures d >= 1
    decreases v, 1
  {
    match v
    case PtrTo(w) => 1 + Depth(w)
    case Sl(els, _) => 1 + MaxDepth(els)
    case Arr(els) => 1 + MaxDepth(els)
    case Mp(es) => 1 + EntriesDepth(es)
    case Rec(fs) => 1 + MaxDepth(fs)
    case _ => 1
  }

  function MaxDepth(vs: seq<GoVal>): (d: nat)
    ensures forall i :: 0 <= i < |vs| ==> Depth(vs[i]) <= d
    decreases vs, 0
  {
    if vs == [] then 0
    else
      var rest := MaxDepth(vs[1..]);
      assert forall i :: 0 < i < |vs| ==> vs[i] == vs[1..][i - 1];
      if Depth(vs[0]) > rest then Depth(vs[0]) else rest
  }

  function EntriesDepth(es: seq<GoEntry>): (d: nat)
    ensures forall i :: 0 <= i < |es| ==> Depth(es[i].val) <= d
    decreases es, 0
  {
    if es == [] then 0
    else
      var rest := EntriesDepth(es[1..]);
      assert forall i :: 0 < i < |es| ==> es[i] == es[1..][i - 1];
      if Depth(es[0].val) > rest then Depth(es[0].val) else rest
  }

  /** Method calls on the path to a value: a named type calls, other nodes do not. */
  ghost predicate Enough(fuel: nat, e: Elem, v: GoVal) {
    fuel + (if e.Ident? then 0 else 1) >= Depth(v)
  }
}
