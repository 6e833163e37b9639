/** The MessagePack wire format as the library sees it: bytes, big-endian integers,
    lead bytes, the error values of the readers and the per-lead-byte size table
    (msgp/defs.go, msgp/integers.go, msgp/elsize.go, msgp/errors.go). */
module Wire {

  type byte = b: int | 0 <= b < 0x100
  type bytes = seq<byte>

  const TWO_8 := 0x100
  const TWO_16 := 0x1_0000
  const TWO_31 := 0x8000_0000
  const TWO_32 := 0x1_0000_0000
  const TWO_63 := 0x8000_0000_0000_0000
  const TWO_64 := 0x1_0000_0000_0000_0000

  type uint16 = n: int | 0 <= n < 0x1_0000
  type uint32 = n: int | 0 <= n < 0x1_0000_0000
  type uint64 = n: int | 0 <= n < 0x1_0000_0000_0000_0000
  type int8 = n: int | -0x80 <= n < 0x80
  type int32 = n: int | -0x8000_0000 <= n < 0x8000_0000
  type int64 = n: int | -0x8000_0000_0000_0000 <= n < 0x8000_0000_0000_0000

  // ---- Errors and results -------------------------------------------------

  datatype WireType =
    | InvalidType | StrType | BinType | MapType | ArrayType | Float64Type | Float32Type | BoolType
    | IntType | UintType | NilType | ExtensionType | Complex64Type | Complex128Type | TimeType

  datatype Error =
    | ShortBytes
    | InvalidPrefix(lead: byte)
    | TypeError(method_: WireType, encoded: WireType)
    | IntOverflow(value: int, bits: nat)
    | UintOverflow(uvalue: nat, ubits: nat)
    | ArrayError(wanted: nat, got: nat)
    | ExtensionTypeError(gotType: int8, wantType: int8)
    | NilDereference
    | UnknownMethod
    | OutOfFuel

  datatype Option<+T> = None | Some(value: T)

  /** Success with a value, or the error the Go code returns. */
  datatype Result<+T> = Ok(value: T) | Err(error: Error) {
    predicate IsFailure() { Err? }

    function PropagateFailure<U>(): Result<U>
      requires Err?
    {
      Err(error)
    }

    function Extract(): T
      requires Ok?
    {
      value
    }
  }

  /** What a reader returns: the value it read and the bytes that follow it. */
  type Parsed<+T> = Result<(T, bytes)>

  /** `rest` is a proper suffix of `b`: the reader that returned it consumed at least one byte. */
  ghost predicate ProperSuffix(rest: bytes, b: bytes) {
    |rest| < |b| && rest == b[|b| - |rest|..]
  }

  ghost predicate Suffix(rest: bytes, b: bytes) {
    |rest| <= |b| && rest == b[|b| - |rest|..]
  }

  lemma CancelFront(p: bytes, c: bytes, d: bytes)
    ensures p + c == p + d <==> c == d
  {
    assert (p + c)[|p|..] == c && (p + d)[|p|..] == d;
  }

  // ---- Big-endian integers ------------------------------------------------

  function BE16(n: uint16): (b: bytes)
    ensures |b| == 2
  {
    [n / 0x100, n % 0x100]
  }

  function BE32(n: uint32): (b: bytes)
    ensures |b| == 4
  {
    BE16(n / 0x1_0000) + BE16(n % 0x1_0000)
  }

  function BE64(n: uint64): (b: bytes)
    ensures |b| == 8
  {
    BE32(n / 0x1_0000_0000) + BE32(n % 0x1_0000_0000)
  }

  function U16(b: bytes, at: nat): uint16
    requires at + 2 <= |b|
  {
    (b[at] as int) * 0x100 + b[at + 1]
  }

  function U32(b: bytes, at: nat): uint32
    requires at + 4 <= |b|
  {
    (U16(b, at) as int) * 0x1_0000 + U16(b, at + 2)
  }

  function U64(b: bytes, at: nat): uint64
    requires at + 8 <= |b|
  {
    (U32(b, at) as int) * 0x1_0000_0000 + U32(b, at + 4)
  }

  /** Two's complement: the unsigned pattern of `i` in a word of `2 * half` values, and back. */
  function Unsigned(i: int, half: int): (n: int)
    requires -half <= i < half
    ensures 0 <= n < 2 * half && Signed(n, half) == i
  {
    if i < 0 then i + 2 * half else i
  }

  function Signed(n: int, half: int): (i: int)
    requires 0 <= n < 2 * half
    ensures -half <= i < half
  {
    if n < half then n else n - 2 * half
  }

  function S8(b: byte): int8 { Signed(b, 0x80) }

  /** Reading back what was written, wherever it sits in a longer byte string. */
  lemma ReadBE16(pre: bytes, n: uint16, post: bytes)
    ensures U16(pre + BE16(n) + post, |pre|) == n
  {
  }

  lemma ReadBE32(pre: bytes, n: uint32, post: bytes)
    ensures U32(pre + BE32(n) + post, |pre|) == n
  {
    var b := pre + BE32(n) + post;
    assert b == pre + BE16(n / 0x1_0000) + (BE16(n % 0x1_0000) + post);
    assert b == (pre + BE16(n / 0x1_0000)) + BE16(n % 0x1_0000) + post;
    ReadBE16(pre, n / 0x1_0000, BE16(n % 0x1_0000) + post);
    ReadBE16(pre + BE16(n / 0x1_0000), n % 0x1_0000, post);
  }

  lemma ReadBE64(pre: bytes, n: uint64, post: bytes)
    ensures U64(pre + BE64(n) + post, |pre|) == n
  {
    var b := pre + BE64(n) + post;
    var hi, lo := n / 0x1_0000_0000, n % 0x1_0000_0000;
    assert b == pre + BE32(hi) + (BE32(lo) + post);
    assert b == (pre + BE32(hi)) + BE32(lo) + post;
    ReadBE32(pre, hi, BE32(lo) + post);
    ReadBE32(pre + BE32(hi), lo, post);
  }

  // ---- Lead bytes -----------------------------------------------------------

  const FIXMAP: byte := 0x80
  const FIXARRAY: byte := 0x90
  const FIXSTR: byte := 0xa0
  const NIL: byte := 0xc0
  const FALSE: byte := 0xc2
  const TRUE: byte := 0xc3
  const BIN8: byte := 0xc4
  const BIN16: byte := 0xc5
  const BIN32: byte := 0xc6
  const EXT8: byte := 0xc7
  const EXT16: byte := 0xc8
  const EXT32: byte := 0xc9
  const FLOAT32: byte := 0xca
  const FLOAT64: byte := 0xcb
  const UINT8: byte := 0xcc
  const UINT16: byte := 0xcd
  const UINT32: byte := 0xce
  const UINT64: byte := 0xcf
  const INT8: byte := 0xd0
  const INT16: byte := 0xd1
  const INT32: byte := 0xd2
  const INT64: byte := 0xd3
  const FIXEXT1: byte := 0xd4
  const FIXEXT2: byte := 0xd5
  const FIXEXT4: byte := 0xd6
  const FIXEXT8: byte := 0xd7
  const FIXEXT16: byte := 0xd8
  const STR8: byte := 0xd9
  const STR16: byte := 0xda
  const STR32: byte := 0xdb
  const ARRAY16: byte := 0xdc
  const ARRAY32: byte := 0xdd
  const MAP16: byte := 0xde
  const MAP32: byte := 0xdf
  const NFIXINT: byte := 0xe0

  // The bit masks of msgp/defs.go as arithmetic: `b & 0x0f` is `b % 16`,
  // `b & 0xf0 == 0x80` is `b / 16 == 8`, and so on.
  predicate IsFixInt(b: byte) { b / 0x80 == 0 }

  predicate IsNFixInt(b: byte) { b / 0x20 == 7 }

  predicate IsFixMap(b: byte) { b / 0x10 == 8 }

  predicate IsFixArray(b: byte) { b / 0x10 == 9 }

  predicate IsFixStr(b: byte) { b / 0x20 == 5 }

  // ---- The size table -------------------------------------------------------

  const EXTRA8 := -1
  const EXTRA16 := -2
  const EXTRA32 := -3
  const MAP16V := -4
  const MAP32V := -5
  const ARRAY16V := -6
  const ARRAY32V := -7

  /** One table entry: prefix size (0 when the lead byte is not in the format), how the
      rest of the object's extent is found (a non-negative number counts child objects),
      and the type. */
  datatype Spec = Spec(size: nat, extra: int, typ: WireType)

  /** The entries written out in the table's literal; every other entry starts out zero. */
  function Literal(lead: byte): Spec {
    if lead == NIL then Spec(1, 0, NilType)
    else if lead == FALSE || lead == TRUE then Spec(1, 0, BoolType)
    else if lead == BIN8 then Spec(2, EXTRA8, BinType)
    else if lead == BIN16 then Spec(3, EXTRA16, BinType)
    else if lead == BIN32 then Spec(5, EXTRA32, BinType)
    else if lead == EXT8 then Spec(3, EXTRA8, ExtensionType)
    else if lead == EXT16 then Spec(4, EXTRA16, ExtensionType)
    else if lead == EXT32 then Spec(6, EXTRA32, ExtensionType)
    else if lead == FLOAT32 then Spec(5, 0, Float32Type)
    else if lead == FLOAT64 then Spec(9, 0, Float64Type)
    else if lead == UINT8 then Spec(2, 0, UintType)
    else if lead == UINT16 then Spec(3, 0, UintType)
    else if lead == UINT32 then Spec(5, 0, UintType)
    else if lead == UINT64 then Spec(9, 0, UintType)
    else if lead == INT8 then Spec(2, 0, IntType)
    else if lead == INT16 then Spec(3, 0, IntType)
    else if lead == INT32 then Spec(5, 0, IntType)
    else if lead == INT64 then Spec(9, 0, IntType)
    else if lead == FIXEXT1 then Spec(3, 0, ExtensionType)
    else if lead == FIXEXT2 then Spec(4, 0, ExtensionType)
    else if lead == FIXEXT4 then Spec(6, 0, ExtensionType)
    else if lead == FIXEXT8 then Spec(10, 0, ExtensionType)
    else if lead == FIXEXT16 then Spec(18, 0, ExtensionType)
    else if lead == STR8 then Spec(2, EXTRA8, StrType)
    else if lead == STR16 then Spec(3, EXTRA16, StrType)
    else if lead == STR32 then Spec(5, EXTRA32, StrType)
    else if lead == ARRAY16 then Spec(3, ARRAY16V, ArrayType)
    else if lead == ARRAY32 then Spec(5, ARRAY32V, ArrayType)
    else if lead == MAP16 then Spec(3, MAP16V, MapType)
    else if lead == MAP32 then Spec(5, MAP32V, MapType)
    else Spec(0, 0, InvalidType)
  }

  /** The finished table: the literal, with the ranges that carry a value in the lead byte. */
  function SpecOf(lead: byte): Spec {
    if lead < 0x80 then Spec(1, 0, IntType)
    else if lead < 0x90 then Spec(1, 2 * (lead % 0x10), MapType)
    else if lead < 0xa0 then Spec(1, lead % 0x10, ArrayType)
    else if lead < 0xc0 then Spec(1 + lead % 0x20, 0, StrType)
    else if lead >= 0xe0 then Spec(1, 0, IntType)
    else Literal(lead)
  }

  /** Package initialisation: the literal, then one loop for each range. */
  method BuildSizes() returns (sizes: array<Spec>)
    ensures fresh(sizes) && sizes.Length == 0x100
    ensures forall i: byte :: sizes[i] == SpecOf(i)
  {
    sizes := new Spec[0x100](i requires 0 <= i < 0x100 => Literal(i));
    for i := 0 to 0x80
      invariant forall j: byte :: sizes[j] == if j < i then SpecOf(j) else Literal(j)
    {
      sizes[i] := Spec(1, 0, IntType);
    }
    for i := 0xe0 to 0x100
      invariant forall j: byte :: sizes[j] == if j < 0x80 || 0xe0 <= j < i then SpecOf(j) else Literal(j)
    {
      sizes[i] := Spec(1, 0, IntType);
    }
    for i := 0xa0 to 0xc0
      invariant forall j: byte :: sizes[j] == if j < 0x80 || 0xa0 <= j < i || 0xe0 <= j then SpecOf(j) else Literal(j)
    {
      sizes[i] := Spec(1 + i % 0x20, 0, StrType);
    }
    for i := 0x80 to 0x90
      invariant forall j: byte :: sizes[j] == if j < i || 0xa0 <= j < 0xc0 || 0xe0 <= j then SpecOf(j) else Literal(j)
    {
      sizes[i] := Spec(1, 2 * (i % 0x10), MapType);
    }
    for i := 0x90 to 0xa0
      invariant forall j: byte :: sizes[j] == if j < i || 0xa0 <= j < 0xc0 || 0xe0 <= j then SpecOf(j) else Literal(j)
    {
      sizes[i] := Spec(1, i % 0x10, ArrayType);
    }
  }

  function BadPrefix(want: WireType, lead: byte): Error {
    var t := SpecOf(lead).typ;
    if t == InvalidType then InvalidPrefix(lead) else TypeError(want, t)
  }
}
