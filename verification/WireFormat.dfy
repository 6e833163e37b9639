/** The format in numbers, as the MessagePack specification gives them: what the encoders of
    msgp/write_bytes.go and msgp/write.go produce and what the size table and the readers make of
    each lead byte, said without the names of msgp/defs.go. */
module WireFormat {
  import opened Wire
  import opened Encoding
  import opened Decoding

  // ---- Numbers as bytes -------------------------------------------------------------------------

  /** The last `k` base-256 digits of `n`, most significant first. */
  function Digits(n: nat, k: nat): (b: bytes)
    ensures |b| == k
  {
    if k == 0 then [] else Digits(n / 256, k - 1) + [n % 256]
  }

  lemma CutTwo(n: nat, k: nat)
    ensures Digits(n, k + 2) == Digits(n / 65536, k) + BE16(n % 65536)
  {
    assert n / 256 / 256 == n / 65536 && n % 65536 / 256 == n / 256 % 256 && n % 65536 % 256 == n % 256;
    assert Digits(n, k + 2) == Digits(n / 256, k + 1) + [n % 256];
    assert Digits(n / 256, k + 1) == Digits(n / 65536, k) + [n / 256 % 256];
  }

  lemma CutFour(n: nat, k: nat)
    ensures Digits(n, k + 4) == Digits(n / 4294967296, k) + BE32(n % 4294967296)
  {
    var l := n % 4294967296;
    CutTwo(n, k + 2);
    CutTwo(n / 65536, k);
    assert n / 65536 / 65536 == n / 4294967296 && n / 65536 % 65536 == l / 65536 && n % 65536 == l % 65536;
    hide BE16;
    assert BE32(l) == BE16(l / 65536) + BE16(l % 65536);
  }

  /** Big-endian numbers are their digits. */
  lemma TwoDigits(n: uint16)
    ensures BE16(n) == Digits(n, 2)
  {
    CutTwo(n, 0);
    assert Digits(n / 65536, 0) == [];
  }

  lemma FourDigits(n: nat)
    ensures BE32(n % 4294967296) == Digits(n, 4)
  {
    CutFour(n, 0);
    hide BE32;
    assert Digits(n / 4294967296, 0) == [];
  }

  lemma WordDigits(n: uint32)
    ensures BE32(n) == Digits(n, 4)
  {
    assert n % 4294967296 == n;
    FourDigits(n);
    hide BE32, Digits;
  }

  lemma EightDigits(n: uint64)
    ensures BE64(n) == Digits(n, 8)
  {
    var high: uint32 := n / 4294967296;
    assert BE64(n) == BE32(high) + BE32(n % 4294967296);
    CutFour(n, 4);
    WordDigits(high);
    hide BE32, BE64, Digits;
  }

  // ---- What the encoders produce -----------------------------------------------------------------

  /** A length or count in front of what it counts: the one-byte form up to `few`, then the forms
      with 8 (if `lead8` is not 0), 16 and 32 bits. */
  function Counted(n: nat, fix: byte, few: nat, lead8: byte, lead16: byte, lead32: byte): bytes
    requires fix + few < 256
  {
    if n <= few && few > 0 then [fix + n]
    else if n < 256 && lead8 != 0 then [lead8, n]
    else if n < 65536 then [lead16] + Digits(n, 2)
    else [lead32] + Digits(n, 4)
  }

  function MapHead(n: nat): bytes { Counted(n, 0x80, 15, 0, 0xde, 0xdf) }

  function ArrayHead(n: nat): bytes { Counted(n, 0x90, 15, 0, 0xdc, 0xdd) }

  function StrHead(n: nat): bytes { Counted(n, 0xa0, 31, 0xd9, 0xda, 0xdb) }

  function BinHead(n: nat): bytes { Counted(n, 0, 0, 0xc4, 0xc5, 0xc6) }

  /** A two's complement number in `k` bytes, `most` being 256 to the power of `k`. */
  function Complement(i: int, k: nat, most: nat): bytes
    requires i < 0 ==> i + most >= 0
  {
    Digits(if i < 0 then i + most else i, k)
  }

  function ExtHead(typ: int8, n: nat, st: Style): bytes {
    var t := Complement(typ, 1, 256);
    if st == Stream && n == 1 then [0xd4] + t
    else if st == Stream && n == 2 then [0xd5] + t
    else if st == Stream && n == 4 then [0xd6] + t
    else if st == Stream && n == 8 then [0xd7] + t
    else if st == Stream && n == 16 then [0xd8] + t
    else if n < 255 then [0xc7, n] + t
    else if n < 65535 then [0xc8] + Digits(n, 2) + t
    else [0xc9] + Digits(n, 4) + t
  }

  function IntForm(i: int64): bytes {
    if 0 <= i <= 127 then [i]
    else if -32 <= i < 0 then [256 + i]
    else if -128 <= i < 0 then [0xd0] + Complement(i, 1, 256)
    else if -32768 <= i <= 32767 then [0xd1] + Complement(i, 2, 65536)
    else if -2147483648 <= i <= 2147483647 then [0xd2] + Complement(i, 4, 4294967296)
    else [0xd3] + Complement(i, 8, 18446744073709551616)
  }

  function UintForm(u: uint64): bytes {
    if u <= 127 then [u]
    else if u <= 255 then [0xcc, u]
    else if u <= 65535 then [0xcd] + Digits(u, 2)
    else if u <= 4294967295 then [0xce] + Digits(u, 4)
    else [0xcf] + Digits(u, 8)
  }

  /** The encoding in numbers. */
  function Format(v: Value, st: Style): bytes
    decreases v, 1
  {
    match v
    case Nil => [0xc0]
    case Bool(false) => [0xc2]
    case Bool(true) => [0xc3]
    case Int(i) => IntForm(i)
    case Uint(u) => UintForm(u)
    case Float32(f) => [0xca] + Digits(f, 4)
    case Float64(f) => [0xcb] + Digits(f, 8)
    case Complex64(re, im) => [0xd7, 3] + Digits(re, 4) + Digits(im, 4)
    case Complex128(re, im) => [0xd8, 4] + Digits(re, 8) + Digits(im, 8)
    case Str(s) => StrHead(|s|) + s
    case Bin(d) => BinHead(|d|) + d
    case Time(sec, nsec) =>
      [0xc7, 12, 5] + Complement(sec, 8, 18446744073709551616) + Complement(nsec, 4, 4294967296)
    case Ext(typ, d) => ExtHead(typ, |d|, st) + d
    case Arr(els) => ArrayHead(|els| % 4294967296) + FormatAll(els, st)
    case Map(es) => MapHead(|es| % 4294967296) + FormatEntries(es, st)
  }

  function FormatAll(vs: seq<Value>, st: Style): bytes
    decreases vs, 0
  {
    if vs == [] then [] else Format(vs[0], st) + FormatAll(vs[1..], st)
  }

  function FormatEntries(es: seq<Entry>, st: Style): bytes
    decreases es, 0
  {
    if es == [] then [] else StrHead(|es[0].key|) + es[0].key + Format(es[0].val, st) + FormatEntries(es[1..], st)
  }

  lemma CountsInNumbers(n: uint32)
    ensures EncMapHeader(n) == MapHead(n) && EncArrayHeader(n) == ArrayHead(n)
  {
    if n < 65536 { TwoDigits(n); }
    WordDigits(n);
    hide BE16, BE32, Digits;
  }

  lemma LengthsInNumbers(n: nat)
    ensures EncStrHeader(n) == StrHead(n) && EncBinHeader(n) == BinHead(n)
  {
    if n < 65536 { TwoDigits(n); }
    FourDigits(n);
    hide BE16, BE32, Digits;
  }

  lemma ExtHeadInNumbers(typ: int8, n: nat, st: Style)
    ensures EncExtHeader(typ, n, st) == ExtHead(typ, n, st)
  {
    if n < 65536 { TwoDigits(n); }
    FourDigits(n);
    OneDigit(typ);
    hide BE16, BE32, Digits, Complement;
  }

  lemma OneDigit(i: int)
    requires -128 <= i < 256
    ensures var n := if i < 0 then i + 256 else i; Complement(i, 1, 256) == Digits(n, 1) == [n]
  {
    assert Digits((if i < 0 then i + 256 else i) / 256, 0) == [];
  }

  /** Two's complement numbers are the digits of their patterns. */
  lemma TwoSigned(i: int)
    requires -32768 <= i < 32768
    ensures BE16(Unsigned(i, 0x8000)) == Complement(i, 2, 65536)
  {
    TwoDigits(Unsigned(i, 0x8000));
    hide BE16, Digits;
  }

  lemma FourSigned(i: int32)
    ensures BE32(Unsigned(i, TWO_31)) == Complement(i, 4, 4294967296)
  {
    WordDigits(Unsigned(i, TWO_31));
    hide BE32, Digits;
  }

  lemma EightSigned(i: int64)
    ensures BE64(Unsigned(i, TWO_63)) == Complement(i, 8, 18446744073709551616)
  {
    EightDigits(Unsigned(i, TWO_63));
    hide BE64, Digits;
  }

  lemma IntInNumbers(i: int64)
    ensures EncInt(i) == IntForm(i)
  {
    if -32768 <= i < 32768 { TwoSigned(i); }
    if -2147483648 <= i < 2147483648 { FourSigned(i); }
    EightSigned(i);
    if -128 <= i < 0 {
      OneDigit(i);
      assert Unsigned(i, 0x80) == i + 256;
    }
    if i >= 0 {
      assert i < 0x8000 ==> Unsigned(i, 0x8000) == i;
      assert i < TWO_31 ==> Unsigned(i, TWO_31) == i;
      assert Unsigned(i, TWO_63) == i;
    }
    hide BE16, BE32, BE64, Digits, Complement, Unsigned;
  }

  lemma UintInNumbers(u: uint64)
    ensures EncUint(u) == UintForm(u)
  {
    if u <= 65535 { TwoDigits(u); }
    if u <= 4294967295 { WordDigits(u); }
    EightDigits(u);
    hide BE16, BE32, BE64, Digits;
  }

  lemma TimeInNumbers(sec: int64, nsec: int32)
    ensures EncTime(sec, nsec) == Format(Time(sec, nsec), Slice)
  {
    EightSigned(sec);
    FourSigned(nsec);
    hide BE16, BE32, BE64, Digits, Complement, Unsigned;
  }

  /** Both encoders produce the bytes of the specification, for every value. */
  lemma {:induction false} EncodedInNumbers(v: Value, st: Style)
    ensures Enc(v, st) == Format(v, st)
    decreases v, 1
  {
    hide EncMapHeader, EncArrayHeader, EncStrHeader, EncBinHeader, EncExtHeader, MapHead, ArrayHead, StrHead, BinHead,
      ExtHead, EncInt, EncUint, IntForm, UintForm, EncTime, BE32, BE64, Digits, Complement;
    match v
    case Int(i) => IntInNumbers(i);
    case Uint(u) => UintInNumbers(u);
    case Float32(f) => WordDigits(f);
    case Float64(f) => EightDigits(f);
    case Complex64(re, im) => WordDigits(re); WordDigits(im);
    case Complex128(re, im) => EightDigits(re); EightDigits(im);
    case Str(s) => LengthsInNumbers(|s|);
    case Bin(d) => LengthsInNumbers(|d|);
    case Time(sec, nsec) => TimeInNumbers(sec, nsec);
    case Ext(typ, d) => ExtHeadInNumbers(typ, |d|, st);
    case Arr(els) => CountsInNumbers(|els| % TWO_32); AllInNumbers(els, st);
    case Map(es) => CountsInNumbers(|es| % TWO_32); EntriesInNumbers(es, st);
    case _ =>
  }

  lemma {:induction false} AllInNumbers(vs: seq<Value>, st: Style)
    ensures EncAll(vs, st) == FormatAll(vs, st)
    decreases vs, 0
  {
    hide Enc, Format;
    if vs != [] {
      EncodedInNumbers(vs[0], st);
      AllInNumbers(vs[1..], st);
    }
  }

  lemma {:induction false} EntriesInNumbers(es: seq<Entry>, st: Style)
    ensures EncEntries(es, st) == FormatEntries(es, st)
    decreases es, 0
  {
    hide Enc, Format, EncStrHeader, StrHead;
    if es != [] {
      LengthsInNumbers(|es[0].key|);
      EncodedInNumbers(es[0].val, st);
      EntriesInNumbers(es[1..], st);
    }
  }

  // ---- What the table and the readers make of a lead byte -----------------------------------------

  /** The type of the object that starts with the byte. */
  function KindOf(lead: byte): WireType {
    if lead <= 0x7f then IntType
    else if lead <= 0x8f then MapType
    else if lead <= 0x9f then ArrayType
    else if lead <= 0xbf then StrType
    else if lead == 0xc0 then NilType
    else if lead == 0xc1 then InvalidType
    else if lead <= 0xc3 then BoolType
    else if lead <= 0xc6 then BinType
    else if lead <= 0xc9 then ExtensionType
    else if lead == 0xca then Float32Type
    else if lead == 0xcb then Float64Type
    else if lead <= 0xcf then UintType
    else if lead <= 0xd3 then IntType
    else if lead <= 0xd8 then ExtensionType
    else if lead <= 0xdb then StrType
    else if lead <= 0xdd then ArrayType
    else if lead <= 0xdf then MapType
    else IntType
  }

  /** How many bytes after the lead byte say how long the object is, or how many there are. */
  function CountBytes(lead: byte): nat {
    if lead in {0xc4, 0xc7, 0xd9} then 1
    else if lead in {0xc5, 0xc8, 0xda, 0xdc, 0xde} then 2
    else if lead in {0xc6, 0xc9, 0xdb, 0xdd, 0xdf} then 4
    else 0
  }

  /** How many bytes follow the lead byte before the counted ones. */
  function FixedBytes(lead: byte): nat {
    if 0xa0 <= lead <= 0xbf then lead - 0xa0
    else if lead in {0xcc, 0xd0} then 1
    else if lead in {0xcd, 0xd1, 0xd4} then 2
    else if lead in {0xca, 0xce, 0xd2} then 4
    else if lead in {0xcb, 0xcf, 0xd3} then 8
    else if lead == 0xd5 then 3
    else if lead == 0xd6 then 5
    else if lead == 0xd7 then 9
    else if lead == 0xd8 then 17
    else if lead in {0xc7, 0xc8, 0xc9} then CountBytes(lead) + 1
    else CountBytes(lead)
  }

  /** The objects inside one whose count is `n`. */
  function Inside(lead: byte, n: nat): nat {
    if 0x80 <= lead <= 0x8f then 2 * (lead - 0x80)
    else if 0x90 <= lead <= 0x9f then lead - 0x90
    else if lead in {0xdc, 0xdd} then n
    else if lead in {0xde, 0xdf} then 2 * n
    else 0
  }

  /** How the table marks where the count stands. */
  function Mark(lead: byte): int {
    var k := CountBytes(lead);
    if k == 0 then Inside(lead, 0)
    else if KindOf(lead) == MapType then if k == 2 then MAP16V else MAP32V
    else if KindOf(lead) == ArrayType then if k == 2 then ARRAY16V else ARRAY32V
    else if k == 1 then EXTRA8
    else if k == 2 then EXTRA16
    else EXTRA32
  }

  lemma MarkedInNumbers(lead: byte)
    ensures SpecOf(lead).size == if lead == 0xc1 then 0 else 1 + FixedBytes(lead)
    ensures SpecOf(lead).extra == if lead == 0xc1 then 0 else Mark(lead)
  {
  }

  lemma KindInNumbers(lead: byte)
    ensures SpecOf(lead).typ == KindOf(lead)
  {
  }

  /** What a reader of the type `want` says of a lead byte it does not take: the one byte that is in
      no format is invalid, any other is of the wrong type. */
  lemma BlameInNumbers(want: WireType, lead: byte)
    ensures BadPrefix(want, lead) == if lead == 0xc1 then InvalidPrefix(0xc1) else TypeError(want, KindOf(lead))
  {
    KindInNumbers(lead);
    hide SpecOf;
  }

  /** The size table, for each of the 256 bytes: the type; how many bytes it takes to size the
      object; and, with those bytes there, its own bytes and the objects inside it. */
  lemma TableInNumbers(lead: byte, n: nat, rest: bytes)
    requires n < 256 || CountBytes(lead) > 1
    requires n < 65536 || CountBytes(lead) > 2
    requires n < 4294967296
    ensures SpecOf(lead).typ == KindOf(lead)
    ensures lead == 0xc1 ==> GetSize([lead] + rest) == Err(InvalidPrefix(0xc1))
    ensures lead != 0xc1 ==> SpecOf(lead).size == 1 + FixedBytes(lead)
    ensures var b := [lead] + Digits(n, CountBytes(lead)) + rest;
      var counted := if CountBytes(lead) > 0 && KindOf(lead) in {BinType, StrType, ExtensionType} then n else 0;
      lead != 0xc1 && |b| >= 1 + FixedBytes(lead) ==>
        GetSize(b) == Ok((1 + FixedBytes(lead) + counted, Inside(lead, n)))
  {
    MarkedInNumbers(lead);
    KindInNumbers(lead);
    InsideByKind(lead, n);
    CountRead(lead, CountBytes(lead), n, rest);
    hide SpecOf, BE16, BE32, U16, U32, Digits, FixedBytes, CountBytes, Inside, KindOf;
  }

  lemma InsideByKind(lead: byte, n: nat)
    ensures var k := CountBytes(lead);
      if k == 0 then Inside(lead, n) == Inside(lead, 0)
      else k <= FixedBytes(lead) && if KindOf(lead) == MapType then k > 1 && Inside(lead, n) == 2 * n
        else if KindOf(lead) == ArrayType then k > 1 && Inside(lead, n) == n
        else KindOf(lead) in {BinType, StrType, ExtensionType} && Inside(lead, n) == 0
  {
  }

  lemma CountRead(lead: byte, k: nat, n: nat, rest: bytes)
    requires k in {0, 1, 2, 4} && n < 4294967296
    requires (k < 2 ==> n < 256) && (k < 4 ==> n < 65536)
    ensures var b := [lead] + Digits(n, k) + rest;
      (k == 1 ==> b[1] == n) && (k == 2 ==> U16(b, 1) == n) && (k == 4 ==> U32(b, 1) == n)
  {
    if k == 1 { assert Digits(n, 1) == [n] by { OneDigit(n); } }
    if k == 2 { TwoDigits(n); ReadBE16([lead], n, rest); }
    if k == 4 { WordDigits(n); ReadBE32([lead], n, rest); }
    hide BE16, BE32, U16, U32, Digits;
  }

  /** Every form of a number is read, not only the shortest: the signed reader on the signed forms. */
  lemma SignedFormsRead(i: int64, rest: bytes)
    ensures -128 <= i < 128 ==> ReadInt64([0xd0] + Complement(i, 1, 256) + rest) == Ok((i, rest))
    ensures -32768 <= i < 32768 ==> ReadInt64([0xd1] + Complement(i, 2, 65536) + rest) == Ok((i, rest))
    ensures -2147483648 <= i < 2147483648 ==> ReadInt64([0xd2] + Complement(i, 4, 4294967296) + rest) == Ok((i, rest))
    ensures ReadInt64([0xd3] + Complement(i, 8, 18446744073709551616) + rest) == Ok((i, rest))
  {
    if -128 <= i < 128 { OneDigit(i); }
    if -32768 <= i < 32768 {
      TwoSigned(i);
      ReadBE16([0xd1], Unsigned(i, 0x8000), rest);
    }
    if -2147483648 <= i < 2147483648 {
      FourSigned(i);
      ReadBE32([0xd2], Unsigned(i, TWO_31), rest);
    }
    EightSigned(i);
    ReadBE64([0xd3], Unsigned(i, TWO_63), rest);
    hide BE16, BE32, BE64, U16, U32, U64, Digits, Complement, Unsigned;
  }

  /** The unsigned forms, read by either reader. The signed one takes the 32-bit form for a signed
      number and has no room for the upper half of the 64-bit one. */
  lemma UnsignedFormsRead(k: nat, lead: byte, n: nat, rest: bytes)
    requires (k, lead) in {(1, 0xcc), (2, 0xcd), (4, 0xce), (8, 0xcf)}
    requires n < (if k == 1 then 256 else if k == 2 then 65536 else if k == 4 then 4294967296 else 18446744073709551616)
    ensures ReadUint64([lead] + Digits(n, k) + rest) == Ok((n, rest))
    ensures ReadInt64([lead] + Digits(n, k) + rest) ==
      if k == 4 && n >= 2147483648 then Ok((n - 4294967296, rest))
      else if k == 8 && n >= 9223372036854775808 then Err(UintOverflow(n, 64)) else Ok((n, rest))
  {
    var b := [lead] + Digits(n, k) + rest;
    if k == 8 { EightDigits(n); ReadBE64([lead], n, rest); } else { CountRead(lead, k, n, rest); }
    assert b[1 + k..] == rest;
    hide BE16, BE32, BE64, U16, U32, U64, Digits;
  }

  /** Every form of a header is read, not only the shortest. */
  lemma HeaderFormsRead(n: nat, rest: bytes)
    requires n < 4294967296
    ensures n < 65536 ==> ReadMapHeader([0xde] + Digits(n, 2) + rest) == Ok((n, rest))
    ensures ReadMapHeader([0xdf] + Digits(n, 4) + rest) == Ok((n, rest))
    ensures n < 65536 ==> ReadArrayHeader([0xdc] + Digits(n, 2) + rest) == Ok((n, rest))
    ensures ReadArrayHeader([0xdd] + Digits(n, 4) + rest) == Ok((n, rest))
  {
    if n < 65536 {
      CountRead(0xde, 2, n, rest);
      CountRead(0xdc, 2, n, rest);
    }
    CountRead(0xdf, 4, n, rest);
    CountRead(0xdd, 4, n, rest);
    hide BE16, BE32, U16, U32, Digits;
  }

  /** The forms with 8, 16 and 32 bits of length follow each other. */
  function TextLead(first: byte, k: nat): byte
    requires first < 254
  {
    if k == 1 then first else if k == 2 then first + 1 else first + 2
  }

  /** A string or binary object in any form that has room for its length. */
  lemma TextFormsRead(k: nat, d: bytes, rest: bytes)
    requires k in {1, 2, 4} && |d| < 4294967296
    requires (k < 2 ==> |d| < 256) && (k < 4 ==> |d| < 65536)
    ensures ReadStr([TextLead(0xd9, k)] + Digits(|d|, k) + d + rest) == Ok((d, rest))
    ensures ReadBin([TextLead(0xc4, k)] + Digits(|d|, k) + d + rest) == Ok((d, rest))
  {
    TextAt(TextLead(0xd9, k), k, d, rest);
    TextAt(TextLead(0xc4, k), k, d, rest);
    hide BE16, BE32, U16, U32, Digits;
  }

  lemma TextAt(lead: byte, k: nat, d: bytes, rest: bytes)
    requires k in {1, 2, 4} && |d| < 4294967296
    requires (k < 2 ==> |d| < 256) && (k < 4 ==> |d| < 65536)
    ensures var b := [lead] + Digits(|d|, k) + d + rest;
      (k == 1 ==> b[1] == |d|) && (k == 2 ==> U16(b, 1) == |d|) && (k == 4 ==> U32(b, 1) == |d|)
      && Take(b[1 + k..], |d|) == Ok((d, rest))
  {
    var b := [lead] + Digits(|d|, k) + d + rest;
    CountRead(lead, k, |d|, d + rest);
    hide BE16, BE32, U16, U32, Digits;
    assert b == [lead] + Digits(|d|, k) + (d + rest);
    assert b[1 + k..] == d + rest;
  }
}
