/** Whatever a generated method encodes is exactly one object, so that `Skip` (msgp/read_bytes.go)
    drops exactly what `MarshalMsg` appended. */
module GeneratedObjects {
  import opened Wire
  import opened TypeTree
  import opened Decoding
  import opened Skipping
  import V = Encoding
  import RoundTrip
  import F = WireFormat

  /** Complex numbers and extensions of the reserved types are objects too. */
  lemma PrimIsObject(env: Env, p: Prim, convert: bool, inline: bool, v: GoVal, st: V.Style)
    requires p != PIntf && HasType(env, Base(p, convert, inline), v)
    ensures IsObject(EncGo(env, Base(p, convert, inline), v, st))
  {
    hide Skip, V.Enc, V.EncExt, ReadComplex64, ReadComplex128, ReadExtension, PeekExtension, GetSize;
    var x := Held(v);
    var b := V.Enc(x, st);
    assert b + [] == b;
    match x
    case Complex64(re, im) =>
      RoundTrip.Complex64Back(re, im, []);
      ComplexStyles(x, st);
      FixedSize(b);
      SkipLeaf(b, []);
    case Complex128(re, im) =>
      RoundTrip.Complex128Back(re, im, []);
      ComplexStyles(x, st);
      FixedSize(b);
      SkipLeaf(b, []);
    case Ext(typ, d) =>
      RoundTrip.ExtBack(typ, d, st, []);
      ExtStyles(x, st);
      ExtensionSize(b, typ);
      SkipLeaf(b, []);
    case _ => EncodedIsObject(x, st);
  }

  lemma ComplexStyles(x: V.Value, st: V.Style)
    requires x.Complex64? || x.Complex128?
    ensures V.Enc(x, st) == V.Enc(x, V.Slice)
  {
  }

  lemma ExtStyles(x: V.Value, st: V.Style)
    requires x.Ext?
    ensures V.Enc(x, st) == V.EncExt(x.typ, x.body, st)
  {
  }

  /** A header in front of as many objects as it announces. */
  lemma ArrayIsObject(n: uint32, body: bytes)
    requires SkipN(n, body) == Ok([])
    ensures IsObject(V.EncArrayHeader(n) + body)
  {
    hide SkipN, GetSize, ReadArrayHeader, V.EncArrayHeader;
    var b := V.EncArrayHeader(n) + body;
    RoundTrip.ArrayHeaderBack(n, body);
    ArrayHeaderSize(b);
    assert b[|V.EncArrayHeader(n)|..] == body;
  }

  lemma MapIsObject(n: uint32, body: bytes)
    requires SkipN(2 * n, body) == Ok([])
    ensures IsObject(V.EncMapHeader(n) + body)
  {
    hide SkipN, GetSize, ReadMapHeader, V.EncMapHeader;
    var b := V.EncMapHeader(n) + body;
    RoundTrip.MapHeaderBack(n, body);
    MapHeaderSize(b);
    assert b[|V.EncMapHeader(n)|..] == body;
  }

  lemma OneMore(n: nat, p: bytes, c: bytes, m: nat)
    requires IsObject(p) && n == m + 1 && SkipN(m, c) == Ok([])
    ensures SkipN(n, p + c) == Ok([])
  {
    hide Skip, SkipN;
    ObjectInFront(p, c);
    SkipStep(n, p + c, c);
  }

  lemma StrIsObject(s: bytes)
    requires |s| < TWO_32
    ensures IsObject(V.EncStr(s))
  {
    hide IsObject, V.EncStr;
    EncodedIsObject(V.Str(s), V.Slice);
  }

  /** Every generated encoding of a value of a type is exactly one object. */
  lemma {:induction false} GeneratedIsObject(env: Env, e: Elem, v: GoVal, st: V.Style)
    requires HasType(env, e, v)
    ensures IsObject(EncGo(env, e, v, st))
    decreases v, if e.Ident? then 1 else 0
  {
    hide V.Enc, V.EncArrayHeader, V.EncMapHeader, V.EncBin, EncGoAll, EncGoEntries, EncGoFields, IsObject, SkipN,
      PrimOk, V.Fits;
    match e
    case Base(p, c, i) => if p == PIntf { EncodedIsObject(v.v, st); } else { PrimIsObject(env, p, c, i, v, st); }
    case Ident(n) => GeneratedIsObject(env, env[n], v, st);
    case Ptr(y) => if v.PtrTo? { GeneratedIsObject(env, y, v.to, st); } else { NilIsObject(); }
    case Slice(y) =>
      ElementsAreObjects(env, y, v.els, |v.els|, st);
      ArrayIsObject(|v.els|, EncGoAll(env, y, v.els, st));
    case Array(n, y) =>
      if IsByteArray(y, st) {
        BinIsObject(ByteString(v.els));
      } else {
        ElementsAreObjects(env, y, v.els, n, st);
        ArrayIsObject(n, EncGoAll(env, y, v.els, st));
      }
    case Map(y) =>
      EntriesAreObjects(env, y, v.entries, st);
      MapIsObject(|v.entries|, EncGoEntries(env, y, v.entries, st));
    case Struct(fs, tup) =>
      FieldsAreObjects(env, fs, v.fields, 0, tup, st);
      if tup {
        ArrayIsObject(|fs|, EncGoFields(env, fs, v.fields, 0, tup, st));
      } else {
        MapIsObject(|fs|, EncGoFields(env, fs, v.fields, 0, tup, st));
      }
  }

  lemma NilIsObject()
    ensures IsObject([NIL])
  {
    EncodedIsObject(V.Nil, V.Slice);
  }

  lemma BinIsObject(d: bytes)
    requires |d| < TWO_32
    ensures IsObject(V.EncBin(d))
  {
    hide IsObject, V.EncBin;
    EncodedIsObject(V.Bin(d), V.Slice);
  }

  /** As many objects as the header in front of them announces, `n`. */
  lemma {:induction false} ElementsAreObjects(env: Env, e: Elem, vs: seq<GoVal>, n: nat, st: V.Style)
    requires AllTyped(env, e, vs) && n == |vs|
    ensures SkipN(n, EncGoAll(env, e, vs, st)) == Ok([])
    decreases vs, 2
  {
    hide EncGo, HasType, SkipN, IsObject;
    if vs == [] {
      SkipNone([]);
    } else {
      GeneratedIsObject(env, e, vs[0], st);
      ElementsAreObjects(env, e, vs[1..], n - 1, st);
      OneMore(n, EncGo(env, e, vs[0], st), EncGoAll(env, e, vs[1..], st), n - 1);
    }
  }

  lemma {:induction false} EntriesAreObjects(env: Env, e: Elem, es: seq<GoEntry>, st: V.Style)
    requires EntriesTyped(env, e, es)
    ensures SkipN(2 * |es|, EncGoEntries(env, e, es, st)) == Ok([])
    decreases es, 2
  {
    hide EncGo, HasType, SkipN, IsObject, V.EncStr;
    if es == [] {
      SkipNone([]);
    } else {
      GeneratedIsObject(env, e, es[0].val, st);
      EntriesAreObjects(env, e, es[1..], st);
      StrIsObject(es[0].key);
      var rest := EncGoEntries(env, e, es[1..], st);
      OneMore(2 * |es| - 1, EncGo(env, e, es[0].val, st), rest, 2 * |es[1..]|);
      OneMore(2 * |es|, V.EncStr(es[0].key), EncGo(env, e, es[0].val, st) + rest, 2 * |es| - 1);
    }
  }

  lemma {:induction false} FieldsAreObjects(env: Env, fs: seq<Field>, vs: seq<GoVal>, i: nat, tup: bool, st: V.Style)
    requires i <= |fs| == |vs| && FieldsTyped(env, fs, vs)
    ensures SkipN(if tup then |fs| - i else 2 * (|fs| - i), EncGoFields(env, fs, vs, i, tup, st)) == Ok([])
    decreases vs, 3, |vs| - i
  {
    hide EncGo, HasType, SkipN, IsObject, V.EncStr;
    if i == |fs| {
      SkipNone([]);
    } else {
      var val, rest := EncGo(env, fs[i].elem, vs[i], st), EncGoFields(env, fs, vs, i + 1, tup, st);
      var left := |fs| - (i + 1);
      GeneratedIsObject(env, fs[i].elem, vs[i], st);
      FieldsAreObjects(env, fs, vs, i + 1, tup, st);
      if tup {
        OneMore(left + 1, val, rest, left);
        assert [] + (val + rest) == val + rest;
      } else {
        StrIsObject(fs[i].tag);
        OneMore(2 * left + 1, val, rest, 2 * left);
        OneMore(2 * left + 2, V.EncStr(fs[i].tag), val + rest, 2 * left + 1);
      }
    }
  }

  /** `Skip` drops exactly what was appended. */
  lemma SkipDropsEncoding(env: Env, e: Elem, v: GoVal, st: V.Style, rest: bytes)
    requires HasType(env, e, v)
    ensures Skip(EncGo(env, e, v, st) + rest) == Ok(rest)
  {
    hide HasType, EncGo, Skip;
    GeneratedIsObject(env, e, v, st);
    ObjectInFront(EncGo(env, e, v, st), rest);
  }

  // ---- The encoding in numbers -------------------------------------------------------------------------

  /** What each node of a type tree puts on the wire, in the numbers of the specification: an array
      of bytes is a bin object and every other array an array object, a tuple struct is an array
      of its fields and any other a map of their names. */
  lemma GeneratedInNumbers(env: Env, e: Elem, v: GoVal, st: V.Style)
    requires HasType(env, e, v)
    ensures EncGo(env, e, v, st) ==
      match e
      case Base(_, _, _) => F.Format(Held(v), st)
      case Ident(n) => EncGo(env, env[n], v, st)
      case Ptr(y) => if v.NilPtr? then [0xc0] else EncGo(env, y, v.to, st)
      case Slice(y) => F.ArrayHead(|v.els|) + EncGoAll(env, y, v.els, st)
      case Array(n, y) =>
        if y.Base? && (y.prim == PByte || (y.prim == PUint8 && st == V.Stream)) then F.BinHead(n) + Octets(v.els)
        else F.ArrayHead(n) + EncGoAll(env, y, v.els, st)
      case Map(y) => F.MapHead(|v.entries|) + EncGoEntries(env, y, v.entries, st)
      case Struct(fs, tup) =>
        (if tup then F.ArrayHead(|fs|) else F.MapHead(|fs|)) + EncGoFields(env, fs, v.fields, 0, tup, st)
  {
    hide V.Enc, V.EncArrayHeader, V.EncMapHeader, V.EncBinHeader, F.Format, F.ArrayHead, F.MapHead, F.BinHead, EncGoAll,
      EncGoEntries, EncGoFields;
    match e
    case Base(_, _, _) => F.EncodedInNumbers(Held(v), st);
    case Slice(_) => F.CountsInNumbers(|v.els|);
    case Array(n, y) => F.CountsInNumbers(n); F.LengthsInNumbers(n);
    case Map(_) => F.CountsInNumbers(|v.entries|);
    case Struct(fs, _) => F.CountsInNumbers(|fs|);
    case _ =>
  }

  /** The bytes an array of bytes holds. */
  function Octets(vs: seq<GoVal>): bytes {
    seq(|vs|, i requires 0 <= i < |vs| =>
      if vs[i].Scalar? && vs[i].v.Uint? && vs[i].v.u <= 255 then vs[i].v.u else 0)
  }

  /** An entry of a map or field of a struct, its name in front of its value. */
  lemma NamesInNumbers(env: Env, e: Elem, es: seq<GoEntry>, fs: seq<Field>, vs: seq<GoVal>, i: nat, st: V.Style)
    requires es != [] && i < |fs| == |vs|
    ensures EncGoEntries(env, e, es, st)
      == F.StrHead(|es[0].key|) + es[0].key + EncGo(env, e, es[0].val, st) + EncGoEntries(env, e, es[1..], st)
    ensures EncGoFields(env, fs, vs, i, false, st) == F.StrHead(|fs[i].tag|) + fs[i].tag
      + EncGo(env, fs[i].elem, vs[i], st) + EncGoFields(env, fs, vs, i + 1, false, st)
    ensures EncGoFields(env, fs, vs, i, true, st)
      == EncGo(env, fs[i].elem, vs[i], st) + EncGoFields(env, fs, vs, i + 1, true, st)
  {
    hide EncGo, V.EncStrHeader, F.StrHead;
    F.LengthsInNumbers(|es[0].key|);
    F.LengthsInNumbers(|fs[i].tag|);
  }
}
