/** The integer encodings: which reader accepts which value, and that no shorter encoding
    of the same family exists (msgp/write_bytes.go, msgp/read_bytes.go). */
module Integers {
  import opened Wire
  import opened Encoding
  import opened Decoding
  import opened RoundTrip

  /** A narrowed signed reader returns the value exactly when it fits, and otherwise reports
      the overflow with the value that was read. */
  lemma NarrowIntBack(i: int64, half: int, bits: nat, rest: bytes)
    requires half > 0
    ensures ReadIntN(EncInt(i) + rest, half, bits)
         == if -half <= i < half then Ok((i, rest)) else Err(IntOverflow(i, bits))
  {
    hide ReadInt64, EncInt;
    IntBack(i, rest);
  }

  lemma NarrowUintBack(u: uint64, limit: nat, bits: nat, rest: bytes)
    ensures ReadUintN(EncUint(u) + rest, limit, bits)
         == if u < limit then Ok((u, rest)) else Err(UintOverflow(u, bits))
  {
    hide ReadUint64, EncUint;
    UintBack(u, rest);
  }

  /** The signed slice reader on unsigned encodings. It is right exactly on the values that
      fit a signed word and are not in the upper half of the uint32 form, which it reads as
      negative. */
  lemma SignedReadOfUint(u: uint64, rest: bytes)
    ensures ReadInt64(EncUint(u) + rest)
         == if u >= TWO_63 then Err(UintOverflow(u, 64))
            else if TWO_31 <= u < TWO_32 then Ok((u - TWO_32, rest))
            else Ok((u, rest))
    ensures ReadInt64(EncUint(u) + rest) == Ok((u as int, rest)) <==> u < TWO_31 || TWO_32 <= u < TWO_63
  {
    hide U16, U32, U64, BE16, BE32, BE64;
    if u < 0x100 {
    } else if u < TWO_16 {
      ReadBE16([UINT16], u, rest);
    } else if u < TWO_32 {
      ReadBE32([UINT32], u, rest);
    } else {
      ReadBE64([UINT64], u, rest);
    }
  }

  /** The smallest value the signed reader gets wrong. */
  lemma SignedReadWrong(rest: bytes)
    ensures ReadInt64(EncUint(0x8000_0000) + rest) == Ok((-0x8000_0000, rest))
  {
    SignedReadOfUint(0x8000_0000, rest);
  }

  /** The unsigned reader accepts of the signed encodings only the positive fixints. */
  lemma UnsignedReadOfInt(i: int64, rest: bytes)
    ensures ReadUint64(EncInt(i) + rest).Ok? <==> 0 <= i < 0x80
    ensures 0 <= i < 0x80 ==> ReadUint64(EncInt(i) + rest) == Ok((i as int, rest))
  {
    hide BE16, BE32, BE64;
  }

  predicate SignedLead(lead: byte) {
    IsFixInt(lead) || IsNFixInt(lead) || INT8 <= lead <= INT64
  }

  predicate UnsignedLead(lead: byte) {
    IsFixInt(lead) || UINT8 <= lead <= UINT64
  }

  /** No encoding of `i` in the signed family is shorter than the one the library writes. */
  lemma IntShortest(i: int64, e: bytes)
    requires e != [] && SignedLead(e[0]) && ReadInt64(e) == Ok((i, []))
    ensures |EncInt(i)| <= |e|
  {
    hide BE16, BE32, BE64, U32, U64;
  }

  lemma UintShortest(u: uint64, e: bytes)
    requires e != [] && UnsignedLead(e[0]) && ReadUint64(e) == Ok((u, []))
    ensures |EncUint(u)| <= |e|
  {
    hide BE16, BE32, BE64, U64;
  }
}
