/** The slice readers of msgp/read_bytes.go and msgp/extension.go as functions from the
    input bytes to the value and the remaining bytes, or to the error. */
module Decoding {
  import opened Wire
  import opened Encoding

  // ---- Headers --------------------------------------------------------------

  function ReadMapHeader(b: bytes): (r: Parsed<uint32>)
    ensures r.Ok? ==> ProperSuffix(r.value.1, b)
  {
    if |b| < 1 then Err(ShortBytes)
    else if IsFixMap(b[0]) then Ok((b[0] % 0x10, b[1..]))
    else if b[0] == MAP16 then if |b| < 3 then Err(ShortBytes) else Ok((U16(b, 1), b[3..]))
    else if b[0] == MAP32 then if |b| < 5 then Err(ShortBytes) else Ok((U32(b, 1), b[5..]))
    else Err(BadPrefix(MapType, b[0]))
  }

  function ReadArrayHeader(b: bytes): (r: Parsed<uint32>)
    ensures r.Ok? ==> ProperSuffix(r.value.1, b)
  {
    if |b| < 1 then Err(ShortBytes)
    else if IsFixArray(b[0]) then Ok((b[0] % 0x10, b[1..]))
    else if b[0] == ARRAY16 then if |b| < 3 then Err(ShortBytes) else Ok((U16(b, 1), b[3..]))
    else if b[0] == ARRAY32 then if |b| < 5 then Err(ShortBytes) else Ok((U32(b, 1), b[5..]))
    else Err(BadPrefix(ArrayType, b[0]))
  }

  // ---- Scalars --------------------------------------------------------------

  predicate IsNil(b: bytes) { |b| > 0 && b[0] == NIL }

  function ReadNil(b: bytes): (r: Result<bytes>)
    ensures r.Ok? ==> ProperSuffix(r.value, b)
  {
    if |b| < 1 then Err(ShortBytes)
    else if b[0] != NIL then Err(BadPrefix(NilType, b[0]))
    else Ok(b[1..])
  }

  function ReadBool(b: bytes): (r: Parsed<bool>)
    ensures r.Ok? ==> ProperSuffix(r.value.1, b)
  {
    if |b| < 1 then Err(ShortBytes)
    else if b[0] == TRUE then Ok((true, b[1..]))
    else if b[0] == FALSE then Ok((false, b[1..]))
    else Err(BadPrefix(BoolType, b[0]))
  }

  function ReadFloat32(b: bytes): (r: Parsed<uint32>)
    ensures r.Ok? ==> ProperSuffix(r.value.1, b)
  {
    if |b| < 5 then Err(ShortBytes)
    else if b[0] != FLOAT32 then Err(TypeError(Float32Type, SpecOf(b[0]).typ))
    else Ok((U32(b, 1), b[5..]))
  }

  /** A float64, or a float32 that is widened (kept here as the float32 pattern it equals). */
  function ReadFloat64(b: bytes): (r: Parsed<Value>)
    ensures r.Ok? ==> ProperSuffix(r.value.1, b)
  {
    if |b| >= 5 && b[0] == FLOAT32 then
      var (f, o) :- ReadFloat32(b);
      Ok((Float32(f), o))
    else if |b| < 9 then Err(ShortBytes)
    else if b[0] != FLOAT64 then Err(BadPrefix(Float64Type, b[0]))
    else Ok((Float64(U64(b, 1)), b[9..]))
  }

  /** The uint32 form is read as a signed 32-bit integer, as the code does. */
  function ReadInt64(b: bytes): (r: Parsed<int64>)
    ensures r.Ok? ==> ProperSuffix(r.value.1, b)
  {
    if |b| < 1 then Err(ShortBytes)
    else
      var lead := b[0];
      if IsFixInt(lead) then Ok((lead, b[1..]))
      else if IsNFixInt(lead) then Ok((S8(lead), b[1..]))
      else if lead == INT8 || lead == UINT8 then
        if |b| < 2 then Err(ShortBytes)
        else Ok((if lead == INT8 then S8(b[1]) else b[1], b[2..]))
      else if lead == INT16 || lead == UINT16 then
        if |b| < 3 then Err(ShortBytes)
        else Ok((if lead == INT16 then Signed(U16(b, 1), 0x8000) else U16(b, 1), b[3..]))
      else if lead == INT32 || lead == UINT32 then
        if |b| < 5 then Err(ShortBytes)
        else Ok((Signed(U32(b, 1), TWO_31), b[5..]))
      else if lead == INT64 || lead == UINT64 then
        if |b| < 9 then Err(ShortBytes)
        else if lead == INT64 then Ok((Signed(U64(b, 1), TWO_63), b[9..]))
        else if U64(b, 1) >= TWO_63 then Err(UintOverflow(U64(b, 1), 64))
        else Ok((U64(b, 1), b[9..]))
      else Err(BadPrefix(IntType, lead))
  }

  /** `ReadInt32Bytes`, `ReadInt16Bytes` and `ReadInt8Bytes`, with `half` being 2^(bits-1). */
  function ReadIntN(b: bytes, half: int, bits: nat): (r: Parsed<int64>)
    ensures r.Ok? ==> ProperSuffix(r.value.1, b) && -half <= r.value.0 < half
  {
    var (i, o) :- ReadInt64(b);
    if i >= half || i < -half then Err(IntOverflow(i, bits)) else Ok((i, o))
  }

  function ReadUint64(b: bytes): (r: Parsed<uint64>)
    ensures r.Ok? ==> ProperSuffix(r.value.1, b)
  {
    if |b| < 1 then Err(ShortBytes)
    else
      var lead := b[0];
      if IsFixInt(lead) then Ok((lead, b[1..]))
      else if lead == UINT8 then if |b| < 2 then Err(ShortBytes) else Ok((b[1], b[2..]))
      else if lead == UINT16 then if |b| < 3 then Err(ShortBytes) else Ok((U16(b, 1), b[3..]))
      else if lead == UINT32 then if |b| < 5 then Err(ShortBytes) else Ok((U32(b, 1), b[5..]))
      else if lead == UINT64 then if |b| < 9 then Err(ShortBytes) else Ok((U64(b, 1), b[9..]))
      else Err(BadPrefix(UintType, lead))
  }

  /** `ReadUint32Bytes`, `ReadUint16Bytes` and `ReadUint8Bytes`, with `limit` being 2^bits. */
  function ReadUintN(b: bytes, limit: nat, bits: nat): (r: Parsed<uint64>)
    ensures r.Ok? ==> ProperSuffix(r.value.1, b) && r.value.0 < limit
  {
    var (u, o) :- ReadUint64(b);
    if u >= limit then Err(UintOverflow(u, bits)) else Ok((u, o))
  }

  // ---- Strings, binary data and map keys ------------------------------------

  /** The first `n` bytes of `b`, and the rest. */
  function Take(b: bytes, n: nat): (r: Parsed<bytes>)
    ensures r.Ok? ==> n <= |b| && r.value.0 == b[..n] && r.value.1 == b[n..]
  {
    if |b| < n then Err(ShortBytes) else Ok((b[..n], b[n..]))
  }

  function ReadStr(b: bytes): (r: Parsed<bytes>)
    ensures r.Ok? ==> ProperSuffix(r.value.1, b)
  {
    if |b| < 1 then Err(ShortBytes)
    else
      var lead := b[0];
      if IsFixStr(lead) then Take(b[1..], lead % 0x20)
      else if lead == STR8 then if |b| < 2 then Err(ShortBytes) else Take(b[2..], b[1])
      else if lead == STR16 then if |b| < 3 then Err(ShortBytes) else Take(b[3..], U16(b, 1))
      else if lead == STR32 then if |b| < 5 then Err(ShortBytes) else Take(b[5..], U32(b, 1))
      else Err(TypeError(StrType, SpecOf(lead).typ))
  }

  function ReadBin(b: bytes): (r: Parsed<bytes>)
    ensures r.Ok? ==> ProperSuffix(r.value.1, b)
  {
    if |b| < 1 then Err(ShortBytes)
    else
      var lead := b[0];
      if lead == BIN8 then if |b| < 2 then Err(ShortBytes) else Take(b[2..], b[1])
      else if lead == BIN16 then if |b| < 3 then Err(ShortBytes) else Take(b[3..], U16(b, 1))
      else if lead == BIN32 then if |b| < 5 then Err(ShortBytes) else Take(b[5..], U32(b, 1))
      else Err(BadPrefix(BinType, lead))
  }

  /** A map key: a string, or binary data where a legacy encoder wrote that. */
  function ReadMapKey(b: bytes): (r: Parsed<bytes>)
    ensures r.Ok? ==> ProperSuffix(r.value.1, b)
  {
    var r := ReadStr(b);
    if r.Err? && r.error.TypeError? && r.error.encoded == BinType then ReadBin(b) else r
  }

  /** `ReadExactBytes`: fills `dst` from a bin object whose header announces exactly
      `|dst|` bytes. A body that is cut short is accepted and fills only a prefix. */
  function ReadExact(b: bytes, dst: bytes): (r: Parsed<bytes>)
    ensures r.Ok? ==> |r.value.0| == |dst| && ProperSuffix(r.value.1, b)
  {
    if |b| < 1 then Err(ShortBytes)
    else
      var lead := b[0];
      var skip := if lead == BIN8 then 2 else if lead == BIN16 then 3 else 5;
      if lead != BIN8 && lead != BIN16 && lead != BIN32 then Err(BadPrefix(BinType, lead))
      else if |b| < skip then Err(ShortBytes)
      else
        var read := if lead == BIN8 then b[1] else if lead == BIN16 then U16(b, 1) else U32(b, 1);
        if read != |dst| % TWO_32 then Err(ArrayError(|dst| % TWO_32, read))
        else
          var k := if |dst| <= |b| - skip then |dst| else |b| - skip;
          Ok((b[skip..skip + k] + dst[k..], b[skip + k..]))
  }

  // ---- Extensions -----------------------------------------------------------

  function ReadComplex64(b: bytes): (r: Parsed<Value>)
    ensures r.Ok? ==> ProperSuffix(r.value.1, b)
  {
    if |b| < 10 then Err(ShortBytes)
    else if b[0] != FIXEXT8 then Err(BadPrefix(Complex64Type, b[0]))
    else if b[1] != 3 then Err(ExtensionTypeError(S8(b[1]), 3))
    else Ok((Complex64(U32(b, 2), U32(b, 6)), b[10..]))
  }

  function ReadComplex128(b: bytes): (r: Parsed<Value>)
    ensures r.Ok? ==> ProperSuffix(r.value.1, b)
  {
    if |b| < 18 then Err(ShortBytes)
    else if b[0] != FIXEXT16 then Err(BadPrefix(Complex128Type, b[0]))
    else if b[1] != 4 then Err(ExtensionTypeError(S8(b[1]), 4))
    else Ok((Complex128(U64(b, 2), U64(b, 10)), b[18..]))
  }

  function ReadTime(b: bytes): (r: Parsed<Value>)
    ensures r.Ok? ==> ProperSuffix(r.value.1, b)
  {
    if |b| < 15 then Err(ShortBytes)
    else if b[0] != EXT8 || b[1] != 12 then Err(BadPrefix(TimeType, b[0]))
    else if b[2] != 5 then Err(ExtensionTypeError(S8(b[2]), 5))
    else Ok((Time(Signed(U64(b, 3), TWO_63), Signed(U32(b, 11), TWO_31)), b[15..]))
  }

  /** `peekExtension` on a non-empty slice. */
  function PeekExtension(b: bytes): Result<int8>
    requires |b| >= 1
  {
    var spec := SpecOf(b[0]);
    if spec.typ != ExtensionType then Err(BadPrefix(ExtensionType, b[0]))
    else if |b| < spec.size then Err(ShortBytes)
    else if spec.extra == 0 then Ok(S8(b[1]))
    else Ok(S8(b[spec.size - 1]))
  }

  /** `ReadExtensionBytes` into an extension of type `want`. The empty ext8 form is
      accepted whatever its type, as the code does. */
  function ReadExtension(b: bytes, want: int8): (r: Parsed<bytes>)
    ensures r.Ok? ==> ProperSuffix(r.value.1, b)
  {
    if |b| < 3 then Err(ShortBytes)
    else
      var lead := b[0];
      if lead == EXT8 && b[1] == 0 then Ok(([], b[3..]))
      else if lead == FIXEXT1 then ExtBody(b, S8(b[1]), want, 2, 1)
      else if lead == FIXEXT2 then ExtBody(b, S8(b[1]), want, 2, 2)
      else if lead == FIXEXT4 then ExtBody(b, S8(b[1]), want, 2, 4)
      else if lead == FIXEXT8 then ExtBody(b, S8(b[1]), want, 2, 8)
      else if lead == FIXEXT16 then ExtBody(b, S8(b[1]), want, 2, 16)
      else if lead == EXT8 then ExtBody(b, S8(b[2]), want, 3, b[1])
      else if lead == EXT16 then
        if |b| < 4 then Err(ShortBytes) else ExtBody(b, S8(b[3]), want, 4, U16(b, 1))
      else if lead == EXT32 then
        if |b| < 6 then Err(ShortBytes) else ExtBody(b, S8(b[5]), want, 6, U32(b, 1))
      else Err(BadPrefix(ExtensionType, lead))
  }

  /** The tail of `ReadExtensionBytes`: check the type, then cut `sz` bytes at `off`. */
  function ExtBody(b: bytes, typ: int8, want: int8, off: nat, sz: nat): Parsed<bytes>
    requires off <= |b|
  {
    if typ != want then Err(ExtensionTypeError(typ, want))
    else if |b| - off < sz then Err(ShortBytes)
    else Ok((b[off..off + sz], b[off + sz..]))
  }

  // ---- Dynamic values -------------------------------------------------------

  /** A built-in extension type is recognised only if a byte follows the prefix. */
  function NextType(b: bytes): WireType {
    if |b| == 0 then InvalidType
    else
      var spec := SpecOf(b[0]);
      if spec.typ == ExtensionType && |b| > spec.size then
        var tp := S8(if spec.extra == 0 then b[1] else b[spec.size - 1]);
        if tp == 5 then TimeType
        else if tp == 4 then Complex128Type
        else if tp == 3 then Complex64Type
        else ExtensionType
      else spec.typ
  }

  function ReadIntf(b: bytes): (r: Parsed<Value>)
    ensures r.Ok? ==> ProperSuffix(r.value.1, b)
    decreases |b|, 1, 0
  {
    if |b| < 1 then Err(ShortBytes)
    else
      match NextType(b)
      case MapType => ReadMapIntf(b)
      case ArrayType => ReadArrIntf(b)
      case Float32Type => var (f, o) :- ReadFloat32(b); Ok((Float32(f), o))
      case Float64Type => ReadFloat64(b)
      case IntType => var (i, o) :- ReadInt64(b); Ok((Int(i), o))
      case UintType => var (u, o) :- ReadUint64(b); Ok((Uint(u), o))
      case BoolType => var (t, o) :- ReadBool(b); Ok((Bool(t), o))
      case TimeType => ReadTime(b)
      case Complex64Type => ReadComplex64(b)
      case Complex128Type => ReadComplex128(b)
      case ExtensionType =>
        var t :- PeekExtension(b);
        var (d, o) :- ReadExtension(b, t);
        Ok((Ext(t, d), o))
      case NilType => var o :- ReadNil(b); Ok((Nil, o))
      case BinType => var (d, o) :- ReadBin(b); Ok((Bin(d), o))
      case StrType => var (s, o) :- ReadStr(b); Ok((Str(s), o))
      case InvalidType => Err(InvalidPrefix(b[0]))
  }

  function ReadMapIntf(b: bytes): (r: Parsed<Value>)
    ensures r.Ok? ==> ProperSuffix(r.value.1, b)
    decreases |b|, 0, 0
  {
    var (sz, o) :- ReadMapHeader(b);
    var (es, o') :- ReadEntries(sz, o, []);
    Ok((Map(es), o'))
  }

  function ReadArrIntf(b: bytes): (r: Parsed<Value>)
    ensures r.Ok? ==> ProperSuffix(r.value.1, b)
    decreases |b|, 0, 0
  {
    var (sz, o) :- ReadArrayHeader(b);
    var (vs, o') :- ReadElems(sz, o);
    Ok((Arr(vs), o'))
  }

  /** The array loop: `n` values in a row. */
  function ReadElems(n: nat, b: bytes): (r: Parsed<seq<Value>>)
    ensures r.Ok? ==> |r.value.0| == n && Suffix(r.value.1, b)
    decreases |b|, 2, n
  {
    if n == 0 then Ok(([], b))
    else
      var (v, o) :- ReadIntf(b);
      var (vs, o') :- ReadElems(n - 1, o);
      Ok(([v] + vs, o'))
  }

  /** The map loop of `ReadMapStrIntfBytes`: `n` entries, assigned one after the other to
      a map that already holds `acc`. */
  function ReadEntries(n: nat, b: bytes, acc: seq<Entry>): (r: Parsed<seq<Entry>>)
    ensures r.Ok? ==> Suffix(r.value.1, b)
    decreases |b|, 2, n
  {
    if n == 0 then Ok((acc, b))
    else
      var (key, o) :- ReadMapKey(b);
      var (val, o') :- ReadIntf(o);
      ReadEntries(n - 1, o', Assign(acc, key, val))
  }

  // ---- Skipping -------------------------------------------------------------

  /** The extent of the next object's own bytes, and how many child objects follow them. */
  function GetSize(b: bytes): (r: Result<(nat, nat)>)
    ensures r.Ok? ==> r.value.0 >= 1
  {
    if |b| == 0 then Err(ShortBytes)
    else
      var spec := SpecOf(b[0]);
      if spec.size == 0 then Err(InvalidPrefix(b[0]))
      else if spec.extra >= 0 then Ok((spec.size, spec.extra))
      else if |b| < spec.size then Err(ShortBytes)
      else if spec.extra == EXTRA8 then Ok((spec.size + b[1], 0))
      else if spec.extra == EXTRA16 then Ok((spec.size + U16(b, 1), 0))
      else if spec.extra == EXTRA32 then Ok((spec.size + U32(b, 1), 0))
      else if spec.extra == MAP16V then Ok((spec.size, 2 * (U16(b, 1) as int)))
      else if spec.extra == MAP32V then Ok((spec.size, 2 * (U32(b, 1) as int)))
      else if spec.extra == ARRAY16V then Ok((spec.size, U16(b, 1)))
      else Ok((spec.size, U32(b, 1)))
  }

  function Skip(b: bytes): (r: Result<bytes>)
    ensures r.Ok? ==> ProperSuffix(r.value, b)
    decreases |b|, 0, 0
  {
    var (sz, asz) :- GetSize(b);
    if |b| < sz then Err(ShortBytes) else SkipN(asz, b[sz..])
  }

  /** The loop of `Skip`: `n` objects in a row. */
  function SkipN(n: nat, b: bytes): (r: Result<bytes>)
    ensures r.Ok? ==> Suffix(r.value, b)
    decreases |b|, 1, n
  {
    if n == 0 then Ok(b)
    else
      var o :- Skip(b);
      SkipN(n - 1, o)
  }
}
