/** On every input: which readers of msgp/read_bytes.go succeed, and the error of those that
    do not, told from the size table alone. */
module Errors {
  import opened Wire
  import opened Decoding

  /** What a reader of objects of the type `want` reports, with `ready` saying that all the
      bytes it needs are there. */
  ghost predicate Judged<T>(r: Result<T>, b: bytes, want: WireType, ready: bool) {
    if b == [] then r == Err(ShortBytes)
    else if SpecOf(b[0]).typ != want then r == Err(BadPrefix(want, b[0]))
    else if ready then r.Ok?
    else r == Err(ShortBytes)
  }

  /** The lead byte's prefix is all there. */
  predicate PrefixThere(b: bytes) { b != [] && |b| >= SpecOf(b[0]).size }

  /** The lead byte's prefix and body are all there. */
  predicate BodyThere(b: bytes) { GetSize(b).Ok? && |b| >= GetSize(b).value.0 }

  /** Headers, nil and booleans: they succeed exactly on a complete prefix of their type. */
  lemma HeadersByTable(b: bytes)
    ensures Judged(ReadMapHeader(b), b, MapType, PrefixThere(b))
    ensures Judged(ReadArrayHeader(b), b, ArrayType, PrefixThere(b))
    ensures Judged(ReadNil(b), b, NilType, PrefixThere(b))
    ensures Judged(ReadBool(b), b, BoolType, PrefixThere(b))
  {
    hide U16, U32;
  }

  /** Binary data and strings: exactly on a complete object of their type. A string reader
      blames the type also when the lead byte is in no format. */
  lemma TextByTable(b: bytes)
    ensures Judged(ReadBin(b), b, BinType, BodyThere(b))
    ensures b == [] || SpecOf(b[0]).typ == StrType ==> Judged(ReadStr(b), b, StrType, BodyThere(b))
    ensures b != [] && SpecOf(b[0]).typ != StrType ==> ReadStr(b) == Err(TypeError(StrType, SpecOf(b[0]).typ))
  {
    hide U16, U32;
  }

  /** A map key: a string, or binary data in its place, and otherwise what the string reader says. */
  lemma KeyByTable(b: bytes)
    ensures ReadMapKey(b).Ok? <==> b != [] && SpecOf(b[0]).typ in {StrType, BinType} && BodyThere(b)
    ensures b == [] ==> ReadMapKey(b) == Err(ShortBytes)
    ensures b != [] && SpecOf(b[0]).typ !in {StrType, BinType} ==>
      ReadMapKey(b) == Err(TypeError(StrType, SpecOf(b[0]).typ))
    ensures b != [] && SpecOf(b[0]).typ in {StrType, BinType} && !BodyThere(b) ==> ReadMapKey(b) == Err(ShortBytes)
  {
    hide ReadStr, ReadBin, GetSize, SpecOf;
    TextByTable(b);
  }

  /** The signed reader takes every integer form, and fails on a complete one only for a
      64-bit unsigned number beyond int64; the unsigned reader takes no negative form. */
  lemma IntegersByTable(b: bytes)
    requires b != []
    ensures var t := SpecOf(b[0]).typ;
      if t != IntType && t != UintType then ReadInt64(b) == Err(BadPrefix(IntType, b[0]))
      else if !PrefixThere(b) then ReadInt64(b) == Err(ShortBytes)
      else if b[0] == UINT64 && U64(b, 1) >= TWO_63 then ReadInt64(b) == Err(UintOverflow(U64(b, 1), 64))
      else ReadInt64(b).Ok?
    ensures var t := SpecOf(b[0]).typ;
      if t != UintType && !IsFixInt(b[0]) then ReadUint64(b) == Err(BadPrefix(UintType, b[0]))
      else if !PrefixThere(b) then ReadUint64(b) == Err(ShortBytes)
      else ReadUint64(b).Ok?
  {
    hide U16, U32, U64;
  }

  /** Where the bytes behind an extension's type begin. */
  function ExtOffset(lead: byte): nat {
    if lead == EXT8 then 3 else if lead == EXT16 then 4 else if lead == EXT32 then 6 else 2
  }

  /** An extension reader succeeds exactly on a complete extension of the type it wants, or on
      an empty one of any type; too few bytes for any header are reported first, then a
      wrong type, then a body that is cut short. */
  lemma ExtensionsByTable(b: bytes, want: int8)
    ensures ReadExtension(b, want).Ok? <==>
      |b| >= 3 && SpecOf(b[0]).typ == ExtensionType && BodyThere(b)
      && ((b[0] == EXT8 && b[1] == 0) || PeekExtension(b) == Ok(want))
    ensures |b| < 3 ==> ReadExtension(b, want) == Err(ShortBytes)
    ensures |b| >= 3 && SpecOf(b[0]).typ != ExtensionType ==>
      ReadExtension(b, want) == Err(BadPrefix(ExtensionType, b[0]))
    ensures |b| >= 3 && SpecOf(b[0]).typ == ExtensionType && !(b[0] == EXT8 && b[1] == 0) ==>
      var at := ExtOffset(b[0]);
      if |b| < at then ReadExtension(b, want) == Err(ShortBytes)
      else if S8(b[at - 1]) != want then ReadExtension(b, want) == Err(ExtensionTypeError(S8(b[at - 1]), want))
      else if BodyThere(b) then ReadExtension(b, want).Ok?
      else ReadExtension(b, want) == Err(ShortBytes)
  {
    hide U16, U32;
  }

  /** Reading into an array of bytes: only a bin object that announces the array's length is
      taken. If the input ends before it does, what is there fills the front of the array. */
  lemma ExactByTable(b: bytes, dst: bytes)
    ensures var r := ReadExact(b, dst);
      if b == [] then r == Err(ShortBytes)
      else if SpecOf(b[0]).typ != BinType then r == Err(BadPrefix(BinType, b[0]))
      else if !PrefixThere(b) then r == Err(ShortBytes)
      else
        var at := SpecOf(b[0]).size;
        var announced := GetSize(b).value.0 - at;
        if announced != |dst| % 4294967296 then r == Err(ArrayError(|dst| % 4294967296, announced))
        else if |b| >= at + |dst| then r == Ok((b[at..at + |dst|], b[at + |dst|..]))
        else r == Ok((b[at..] + dst[|b| - at..], []))
  {
    hide U16, U32;
    if b != [] && PrefixThere(b) {
      var at := SpecOf(b[0]).size;
      assert dst[|dst|..] == [] && b[at..|b|] == b[at..] && b[|b|..] == [];
      if |b| >= at + |dst| { assert b[at..at + |dst|] + [] == b[at..at + |dst|]; }
    }
  }

  /** The readers of one form: the bytes of that form must be there, and its own lead byte. */
  lemma FixedFormsByTable(b: bytes)
    ensures ReadFloat32(b).Ok? <==> b != [] && SpecOf(b[0]).typ == Float32Type && PrefixThere(b)
    ensures ReadFloat64(b).Ok? <==> b != [] && SpecOf(b[0]).typ in {Float32Type, Float64Type} && PrefixThere(b)
    ensures ReadComplex64(b).Ok? <==> b != [] && b[0] == 0xd7 && PrefixThere(b) && PeekExtension(b) == Ok(3)
    ensures ReadComplex128(b).Ok? <==> b != [] && b[0] == 0xd8 && PrefixThere(b) && PeekExtension(b) == Ok(4)
    ensures ReadTime(b).Ok? <==> |b| >= 2 && b[0] == 0xc7 && b[1] == 12 && BodyThere(b) && PeekExtension(b) == Ok(5)
  {
    hide U16, U32, U64;
  }
}
