/** Decoding inverts encoding, for both encoders, every nesting and any trailing bytes. */
module RoundTrip {
  import opened Wire
  import opened Encoding
  import opened Decoding

  // ---- Headers and scalars --------------------------------------------------

  lemma MapHeaderBack(n: uint32, rest: bytes)
    ensures ReadMapHeader(EncMapHeader(n) + rest) == Ok((n, rest))
  {
    var b := EncMapHeader(n) + rest;
    if n > 15 {
      if n < TWO_16 {
        assert b == [MAP16] + BE16(n) + rest;
        ReadBE16([MAP16], n, rest);
      } else {
        assert b == [MAP32] + BE32(n) + rest;
        ReadBE32([MAP32], n, rest);
      }
    }
  }

  lemma ArrayHeaderBack(n: uint32, rest: bytes)
    ensures ReadArrayHeader(EncArrayHeader(n) + rest) == Ok((n, rest))
  {
    var b := EncArrayHeader(n) + rest;
    if n > 15 {
      if n < TWO_16 {
        assert b == [ARRAY16] + BE16(n) + rest;
        ReadBE16([ARRAY16], n, rest);
      } else {
        assert b == [ARRAY32] + BE32(n) + rest;
        ReadBE32([ARRAY32], n, rest);
      }
    }
  }

  lemma IntBack(i: int64, rest: bytes)
    ensures ReadInt64(EncInt(i) + rest) == Ok((i, rest))
  {
    var b := EncInt(i) + rest;
    if -0x80 <= i < 0x80 {
    } else if -0x8000 <= i < 0x8000 {
      ReadBE16([INT16], Unsigned(i, 0x8000), rest);
    } else if -TWO_31 <= i < TWO_31 {
      ReadBE32([INT32], Unsigned(i, TWO_31), rest);
    } else {
      ReadBE64([INT64], Unsigned(i, TWO_63), rest);
    }
  }

  lemma UintBack(u: uint64, rest: bytes)
    ensures ReadUint64(EncUint(u) + rest) == Ok((u, rest))
  {
    if u < 0x100 {
    } else if u < TWO_16 {
      ReadBE16([UINT16], u, rest);
    } else if u < TWO_32 {
      ReadBE32([UINT32], u, rest);
    } else {
      ReadBE64([UINT64], u, rest);
    }
  }

  /** Cutting the body out of header, body and trailing bytes. */
  lemma BodyBack(hdr: bytes, d: bytes, rest: bytes)
    ensures hdr + d + rest == hdr + (d + rest)
    ensures (hdr + d + rest)[|hdr|..] == d + rest
    ensures Take(d + rest, |d|) == Ok((d, rest))
    ensures (hdr + d + rest)[|hdr|..|hdr| + |d|] == d && (hdr + d + rest)[|hdr| + |d|..] == rest
  {
  }

  /** A 16-bit and a 32-bit length behind a lead byte. */
  lemma Length16Back(lead: byte, n: uint16, tail: bytes)
    ensures var b := [lead] + BE16(n) + tail; b[0] == lead && U16(b, 1) == n
  {
    ReadBE16([lead], n, tail);
  }

  lemma Length32Back(lead: byte, n: uint32, tail: bytes)
    ensures var b := [lead] + BE32(n) + tail; b[0] == lead && U32(b, 1) == n
  {
    ReadBE32([lead], n, tail);
  }

  /** A string header announces its length and the body follows it. */
  lemma StrHeaderBack(n: uint32, body: bytes)
    ensures ReadStr(EncStrHeader(n) + body) == Take(body, n)
  {
    hide U16, U32, SpecOf, Take;
    var b := EncStrHeader(n) + body;
    assert b[|EncStrHeader(n)|..] == body;
    if 31 < n && 0x100 <= n {
      if n < TWO_16 { Length16Back(STR16, n, body); } else { Length32Back(STR32, n, body); }
    }
  }

  lemma BinHeaderBack(n: uint32, body: bytes)
    ensures ReadBin(EncBinHeader(n) + body) == Take(body, n)
  {
    hide U16, U32, SpecOf, Take;
    var b := EncBinHeader(n) + body;
    assert b[|EncBinHeader(n)|..] == body;
    if 0x100 <= n {
      if n < TWO_16 { Length16Back(BIN16, n, body); } else { Length32Back(BIN32, n, body); }
    }
  }

  lemma StrBack(s: bytes, rest: bytes)
    requires |s| < TWO_32
    ensures ReadStr(EncStr(s) + rest) == Ok((s, rest))
  {
    hide EncStrHeader, ReadStr;
    StrHeaderBack(|s|, s + rest);
    assert EncStr(s) + rest == EncStrHeader(|s|) + (s + rest);
  }

  lemma BinBack(d: bytes, rest: bytes)
    requires |d| < TWO_32
    ensures ReadBin(EncBin(d) + rest) == Ok((d, rest))
  {
    hide EncBinHeader, ReadBin;
    BinHeaderBack(|d|, d + rest);
    assert EncBin(d) + rest == EncBinHeader(|d|) + (d + rest);
  }

  /** The fixed-size array form reads the same bin object into a destination of its length. */
  lemma ExactBack(d: bytes, dst: bytes, rest: bytes)
    requires |d| == |dst| < TWO_32
    ensures ReadExact(EncBin(d) + rest, dst) == Ok((d, rest))
  {
    hide U16, U32, SpecOf, BadPrefix, BE16, BE32;
    var n, body := |d|, d + rest;
    assert EncBin(d) + rest == EncBinHeader(n) + body;
    BodyBack(EncBinHeader(n), d, rest);
    assert d + dst[|d|..] == d;
    if 0x100 <= n {
      if n < TWO_16 { Length16Back(BIN16, n, body); } else { Length32Back(BIN32, n, body); }
    }
  }

  lemma TimeBack(sec: int64, nsec: int32, rest: bytes)
    ensures ReadTime(EncTime(sec, nsec) + rest) == Ok((Time(sec, nsec), rest))
  {
    var s, n := BE64(Unsigned(sec, TWO_63)), BE32(Unsigned(nsec, TWO_31));
    var b := EncTime(sec, nsec) + rest;
    assert b == [EXT8, 12, 5] + s + (n + rest);
    ReadBE64([EXT8, 12, 5], Unsigned(sec, TWO_63), n + rest);
    assert b == ([EXT8, 12, 5] + s) + n + rest;
    ReadBE32([EXT8, 12, 5] + s, Unsigned(nsec, TWO_31), rest);
  }

  lemma Complex64Back(re: uint32, im: uint32, rest: bytes)
    ensures ReadComplex64(Enc(Complex64(re, im), Slice) + rest) == Ok((Complex64(re, im), rest))
  {
    var b := Enc(Complex64(re, im), Slice) + rest;
    assert b == [FIXEXT8, 3] + BE32(re) + (BE32(im) + rest);
    ReadBE32([FIXEXT8, 3], re, BE32(im) + rest);
    assert b == ([FIXEXT8, 3] + BE32(re)) + BE32(im) + rest;
    ReadBE32([FIXEXT8, 3] + BE32(re), im, rest);
  }

  lemma Complex128Back(re: uint64, im: uint64, rest: bytes)
    ensures ReadComplex128(Enc(Complex128(re, im), Slice) + rest) == Ok((Complex128(re, im), rest))
  {
    var b := Enc(Complex128(re, im), Slice) + rest;
    assert b == [FIXEXT16, 4] + BE64(re) + (BE64(im) + rest);
    ReadBE64([FIXEXT16, 4], re, BE64(im) + rest);
    assert b == ([FIXEXT16, 4] + BE64(re)) + BE64(im) + rest;
    ReadBE64([FIXEXT16, 4] + BE64(re), im, rest);
  }

  lemma ExtFixBack(typ: int8, d: bytes, rest: bytes)
    requires IsFixLen(|d|)
    ensures var b := [FixExt(|d|), Unsigned(typ, 0x80)] + d + rest;
      ReadExtension(b, typ) == Ok((d, rest)) && PeekExtension(b) == Ok(typ)
  {
    hide U16, U32;
    BodyBack([FixExt(|d|), Unsigned(typ, 0x80)], d, rest);
  }

  lemma Ext8Back(typ: int8, d: bytes, rest: bytes)
    requires |d| < 0xff
    ensures var b := [EXT8, |d|, Unsigned(typ, 0x80)] + d + rest;
      ReadExtension(b, typ) == Ok((d, rest)) && PeekExtension(b) == Ok(typ)
  {
    hide U16, U32;
    BodyBack([EXT8, |d|, Unsigned(typ, 0x80)], d, rest);
  }

  lemma Ext16Back(typ: int8, d: bytes, rest: bytes)
    requires |d| < 0xffff
    ensures var b := [EXT16] + BE16(|d|) + [Unsigned(typ, 0x80)] + d + rest;
      ReadExtension(b, typ) == Ok((d, rest)) && PeekExtension(b) == Ok(typ)
  {
    hide U16, U32, BE16;
    var t := [Unsigned(typ, 0x80)];
    BodyBack([EXT16] + BE16(|d|) + t, d, rest);
    assert [EXT16] + BE16(|d|) + t + d + rest == [EXT16] + BE16(|d|) + (t + d + rest);
    Length16Back(EXT16, |d|, t + d + rest);
  }

  lemma Ext32Back(typ: int8, d: bytes, rest: bytes)
    requires |d| < TWO_32
    ensures var b := [EXT32] + BE32(|d|) + [Unsigned(typ, 0x80)] + d + rest;
      ReadExtension(b, typ) == Ok((d, rest)) && PeekExtension(b) == Ok(typ)
  {
    hide U16, U32, BE16, BE32;
    var t := [Unsigned(typ, 0x80)];
    BodyBack([EXT32] + BE32(|d|) + t, d, rest);
    assert [EXT32] + BE32(|d|) + t + d + rest == [EXT32] + BE32(|d|) + (t + d + rest);
    Length32Back(EXT32, |d|, t + d + rest);
  }

  /** Both extension encoders are read back to the same type and data, at every length. */
  lemma ExtBack(typ: int8, d: bytes, st: Style, rest: bytes)
    requires |d| < TWO_32
    ensures ReadExtension(EncExt(typ, d, st) + rest, typ) == Ok((d, rest))
    ensures PeekExtension(EncExt(typ, d, st) + rest) == Ok(typ)
  {
    hide ReadExtension, PeekExtension;
    if st == Stream && IsFixLen(|d|) {
      ExtFixBack(typ, d, rest);
    } else if |d| < 0xff {
      Ext8Back(typ, d, rest);
    } else if |d| < 0xffff {
      Ext16Back(typ, d, rest);
    } else {
      Ext32Back(typ, d, rest);
    }
  }

  /** Read for another number, an extension is refused, unless it has no data. */
  lemma ExtBackInto(typ: int8, d: bytes, st: Style, want: int8, rest: bytes)
    requires |d| < TWO_32
    ensures ReadExtension(EncExt(typ, d, st) + rest, want)
         == if typ == want || d == [] then Ok((d, rest)) else Err(ExtensionTypeError(typ, want))
  {
    hide EncExtHeader;
    ExtBack(typ, d, st, rest);
    if d == [] {
      NoDataHeader(typ, st);
      assert (EncExt(typ, d, st) + rest)[3..] == rest;
    }
  }

  lemma NoDataHeader(typ: int8, st: Style)
    ensures EncExtHeader(typ, 0, st) == [EXT8, 0, Unsigned(typ, 0x80)]
  {
  }

  // ---- Dynamic values -------------------------------------------------------

  /** A built-in type number is recognised from the prefix; others stay extensions. */
  lemma NextTypeOf(b: bytes)
    requires |b| >= 1
    ensures SpecOf(b[0]).typ != ExtensionType ==> NextType(b) == SpecOf(b[0]).typ
    ensures PeekExtension(b).Ok? && PeekExtension(b).value !in {3, 4, 5} ==> NextType(b) == ExtensionType
    ensures PeekExtension(b) == Ok(5) && |b| > SpecOf(b[0]).size ==> NextType(b) == TimeType
  {
  }

  lemma FloatBack(v: Value, st: Style, rest: bytes)
    requires v.Float32? || v.Float64?
    ensures ReadIntf(Enc(v, st) + rest) == Ok((v, rest))
  {
    if v.Float32? {
      ReadBE32([FLOAT32], v.bits32, rest);
    } else {
      ReadBE64([FLOAT64], v.bits64, rest);
    }
  }

  lemma NumberLead(v: Value, st: Style)
    requires v.Int? || v.Uint?
    ensures Enc(v, st) != []
    ensures SpecOf(Enc(v, st)[0]).typ == if v.Int? || v.u < 0x80 then IntType else UintType
  {
    hide BE16, BE32, BE64;
  }

  lemma NumberBack(v: Value, st: Style, rest: bytes)
    requires v.Int? || v.Uint?
    ensures ReadIntf(Enc(v, st) + rest) == Ok((Norm(v), rest))
  {
    hide SpecOf, NextType, EncInt, EncUint, ReadInt64, ReadUint64, ReadIntf, Enc;
    NumberLead(v, st);
    var b := Enc(v, st) + rest;
    NextTypeOf(b);
    NumberBytes(v, st);
    if v.Int? {
      IntBack(v.i, rest);
      ReadsAsInt(b);
    } else {
      UintBack(v.u, rest);
      if v.u < 0x80 {
        SmallUint(v.u);
        IntBack(v.u, rest);
        ReadsAsInt(b);
      } else {
        ReadsAsUint(b);
      }
    }
  }

  lemma NumberBytes(v: Value, st: Style)
    requires v.Int? || v.Uint?
    ensures Enc(v, st) == if v.Int? then EncInt(v.i) else EncUint(v.u)
  {
    hide EncInt, EncUint;
  }

  /** What the dispatch on the type does with numbers. */
  lemma ReadsAsInt(b: bytes)
    requires b != [] && NextType(b) == IntType && ReadInt64(b).Ok?
    ensures ReadIntf(b) == Ok((Int(ReadInt64(b).value.0), ReadInt64(b).value.1))
  {
    hide NextType, ReadInt64;
  }

  lemma ReadsAsUint(b: bytes)
    requires b != [] && NextType(b) == UintType && ReadUint64(b).Ok?
    ensures ReadIntf(b) == Ok((Uint(ReadUint64(b).value.0), ReadUint64(b).value.1))
  {
    hide NextType, ReadUint64;
  }

  /** Signed and unsigned encoders agree on what fits a positive fixint. */
  lemma SmallUint(u: uint64)
    requires u < 0x80
    ensures EncUint(u) == EncInt(u)
  {
  }

  lemma TextBack(v: Value, st: Style, rest: bytes)
    requires v.Str? || v.Bin?
    requires Fits(v)
    ensures ReadIntf(Enc(v, st) + rest) == Ok((v, rest))
  {
    hide U16, U32, U64, ReadStr, ReadBin;
    if v.Str? {
      StrBack(v.s, rest);
    } else {
      BinBack(v.data, rest);
    }
  }

  lemma ExtensionBack(v: Value, st: Style, rest: bytes)
    requires v.Time? || v.Ext?
    requires Fits(v)
    ensures ReadIntf(Enc(v, st) + rest) == Ok((v, rest))
  {
    var b := Enc(v, st) + rest;
    NextTypeOf(b);
    if v.Time? {
      TimeBack(v.sec, v.nsec, rest);
    } else {
      ExtBack(v.typ, v.body, st, rest);
      hide SpecOf, NextType, ReadExtension, PeekExtension, EncExt;
    }
  }

  lemma ScalarBack(v: Value, st: Style, rest: bytes)
    requires Fits(v) && !v.Arr? && !v.Map?
    ensures ReadIntf(Enc(v, st) + rest) == Ok((Norm(v), rest))
  {
    match v
    case Nil =>
    case Bool(b) =>
    case Int(_) => NumberBack(v, st, rest);
    case Uint(_) => NumberBack(v, st, rest);
    case Float32(_) => FloatBack(v, st, rest);
    case Float64(_) => FloatBack(v, st, rest);
    case Str(_) => TextBack(v, st, rest);
    case Bin(_) => TextBack(v, st, rest);
    case Time(_, _) => ExtensionBack(v, st, rest);
    case Ext(_, _) => ExtensionBack(v, st, rest);
  }

  /** A container header selects the container reader. */
  lemma ContainerType(n: uint32, body: bytes)
    ensures ReadIntf(EncMapHeader(n) + body) == ReadMapIntf(EncMapHeader(n) + body)
    ensures ReadIntf(EncArrayHeader(n) + body) == ReadArrIntf(EncArrayHeader(n) + body)
  {
    hide ReadIntf, EncMapHeader, EncArrayHeader;
    MapSelects(n, body);
    ArraySelects(n, body);
  }

  lemma MapSelects(n: uint32, body: bytes)
    ensures ReadIntf(EncMapHeader(n) + body) == ReadMapIntf(EncMapHeader(n) + body)
  {
    hide U16, U32, U64, BE16, BE32, ReadMapIntf, ReadArrIntf;
  }

  lemma ArraySelects(n: uint32, body: bytes)
    ensures ReadIntf(EncArrayHeader(n) + body) == ReadArrIntf(EncArrayHeader(n) + body)
  {
    hide U16, U32, U64, BE16, BE32, ReadMapIntf, ReadArrIntf;
  }

  /** Assigning a fresh key appends an entry. */
  lemma AssignFresh(es: seq<Entry>, key: bytes, val: Value)
    requires forall i :: 0 <= i < |es| ==> es[i].key != key
    ensures Assign(es, key, val) == es + [Entry(key, val)]
  {
  }

  /** The dynamic round trip: whatever the nesting, the order in which maps are enumerated,
      the encoder and the trailing bytes, reading back yields the value and the trailing bytes. */
  lemma {:induction false} IntfBack(v: Value, st: Style, rest: bytes)
    requires Fits(v)
    ensures ReadIntf(Enc(v, st) + rest) == Ok((Norm(v), rest))
    decreases v, 1
  {
    hide ReadIntf, NextType, SpecOf, ReadMapHeader, ReadArrayHeader, EncMapHeader, EncArrayHeader, ReadEntries,
      ReadElems;
    match v
    case Arr(els) =>
      var body := EncAll(els, st) + rest;
      assert Enc(v, st) + rest == EncArrayHeader(|els|) + body;
      ContainerType(|els|, body);
      ArrayHeaderBack(|els|, body);
      ElemsBack(els, st, rest);
    case Map(es) =>
      var body := EncEntries(es, st) + rest;
      assert Enc(v, st) + rest == EncMapHeader(|es|) + body;
      ContainerType(|es|, body);
      MapHeaderBack(|es|, body);
      EntriesBack(es, st, rest, []);
      assert [] + NormEntries(es) == NormEntries(es);
    case _ => ScalarBack(v, st, rest);
  }

  lemma {:induction false} ElemsBack(vs: seq<Value>, st: Style, rest: bytes)
    requires AllFit(vs)
    ensures ReadElems(|vs|, EncAll(vs, st) + rest) == Ok((NormAll(vs), rest))
    decreases vs, 0
  {
    hide ReadIntf, Enc, Norm, Fits;
    if vs == [] {
      assert EncAll(vs, st) + rest == rest;
    } else {
      var tail := EncAll(vs[1..], st) + rest;
      assert EncAll(vs, st) + rest == Enc(vs[0], st) + tail;
      IntfBack(vs[0], st, tail);
      ElemsBack(vs[1..], st, rest);
    }
  }

  /** One step of the map loop. */
  lemma EntryStep(n: nat, b: bytes, acc: seq<Entry>, key: bytes, o: bytes, val: Value, o': bytes)
    requires n > 0 && ReadMapKey(b) == Ok((key, o)) && ReadIntf(o) == Ok((val, o'))
    ensures ReadEntries(n, b, acc) == ReadEntries(n - 1, o', Assign(acc, key, val))
  {
    hide ReadMapKey, ReadIntf, Assign;
  }

  lemma KeyBack(key: bytes, tail: bytes)
    requires |key| < TWO_32
    ensures ReadMapKey(EncStr(key) + tail) == Ok((key, tail))
  {
    hide ReadStr, ReadBin, EncStr;
    StrBack(key, tail);
  }

  lemma EntryBack(n: nat, e: Entry, st: Style, tail: bytes, acc: seq<Entry>)
    requires n > 0 && |e.key| < TWO_32 && Fits(e.val)
    ensures ReadEntries(n, EncStr(e.key) + Enc(e.val, st) + tail, acc)
         == ReadEntries(n - 1, tail, Assign(acc, e.key, Norm(e.val)))
    decreases e, 2
  {
    hide ReadEntries, Enc, Norm, Fits, EncStr, ReadMapKey, ReadIntf, Assign;
    var o := Enc(e.val, st) + tail;
    assert EncStr(e.key) + Enc(e.val, st) + tail == EncStr(e.key) + o;
    KeyBack(e.key, o);
    IntfBack(e.val, st, tail);
    EntryStep(n, EncStr(e.key) + o, acc, e.key, o, Norm(e.val), tail);
  }

  lemma {:induction false} EntriesBack(es: seq<Entry>, st: Style, rest: bytes, acc: seq<Entry>)
    requires EntriesFit(es) && DistinctKeys(acc + es)
    ensures ReadEntries(|es|, EncEntries(es, st) + rest, acc) == Ok((acc + NormEntries(es), rest))
    decreases es, 0
  {
    hide ReadEntries, Enc, Norm, Fits, EncStr, Assign, DistinctKeys;
    if es == [] {
      assert EncEntries(es, st) + rest == rest;
      assert acc + NormEntries(es) == acc;
      NoEntries(rest, acc);
    } else {
      var head, tail := Entry(es[0].key, Norm(es[0].val)), EncEntries(es[1..], st) + rest;
      EntriesSplit(es, st, rest, acc);
      hide EncEntries, NormEntries;
      EntryBack(|es|, es[0], st, tail, acc);
      FreshKey(acc, es, Norm(es[0].val));
      EntriesBack(es[1..], st, rest, acc + [head]);
    }
  }

  lemma EntriesSplit(es: seq<Entry>, st: Style, rest: bytes, acc: seq<Entry>)
    requires es != []
    ensures EncEntries(es, st) + rest == EncStr(es[0].key) + Enc(es[0].val, st) + (EncEntries(es[1..], st) + rest)
    ensures acc + [Entry(es[0].key, Norm(es[0].val))] + NormEntries(es[1..]) == acc + NormEntries(es)
  {
    hide Enc, Norm, EncStr;
  }

  lemma NoEntries(b: bytes, acc: seq<Entry>)
    ensures ReadEntries(0, b, acc) == Ok((acc, b))
  {
  }

  lemma FreshKey(acc: seq<Entry>, es: seq<Entry>, val: Value)
    requires es != [] && DistinctKeys(acc + es)
    ensures Assign(acc, es[0].key, val) == acc + [Entry(es[0].key, val)]
    ensures DistinctKeys(acc + [Entry(es[0].key, val)] + es[1..])
  {
    var before, after := acc + es, acc + [Entry(es[0].key, val)] + es[1..];
    assert |before| == |after| && forall k :: 0 <= k < |before| ==> before[k].key == after[k].key;
    forall i | 0 <= i < |acc| ensures acc[i].key != es[0].key {
      assert before[i] == acc[i] && before[|acc|] == es[0];
    }
    AssignFresh(acc, es[0].key, val);
  }

  /** A complex number is the one kind of value the dynamic reader gets wrong: it comes
      back as a raw extension exactly when nothing follows it. */
  lemma ComplexBack(v: Value, st: Style, rest: bytes)
    requires v.Complex64? || v.Complex128?
    ensures ReadIntf(Enc(v, st) + rest).Ok?
    ensures ReadIntf(Enc(v, st) + rest) == Ok((v, rest)) <==> rest != []
    ensures rest == [] ==> ReadIntf(Enc(v, st)) == Ok((RawComplex(v), []))
  {
    hide ReadIntf, Enc;
    if rest == [] {
      ComplexAlone(v, st);
      assert Enc(v, st) + rest == Enc(v, st);
    } else {
      ComplexInFront(v, st, rest);
    }
  }

  lemma ComplexInFront(v: Value, st: Style, rest: bytes)
    requires (v.Complex64? || v.Complex128?) && rest != []
    ensures ReadIntf(Enc(v, st) + rest) == Ok((v, rest))
  {
    hide BE32, BE64, U16, U32, U64;
    if v.Complex64? {
      Complex64Back(v.re32, v.im32, rest);
    } else {
      Complex128Back(v.re64, v.im64, rest);
    }
  }

  /** A complex number as a raw extension. */
  function RawComplex(v: Value): Value
    requires v.Complex64? || v.Complex128?
  {
    if v.Complex64? then Ext(3, BE32(v.re32) + BE32(v.im32)) else Ext(4, BE64(v.re64) + BE64(v.im64))
  }

  lemma ComplexAlone(v: Value, st: Style)
    requires v.Complex64? || v.Complex128?
    ensures ReadIntf(Enc(v, st)) == Ok((RawComplex(v), []))
  {
    hide BE32, BE64, U16, U32, U64;
    var b := Enc(v, st);
    if v.Complex64? {
      assert b[2..10] == BE32(v.re32) + BE32(v.im32) && b[10..] == [];
    } else {
      assert b[2..18] == BE64(v.re64) + BE64(v.im64) && b[18..] == [];
    }
  }
}
