/** `Skip` consults only the size table. It agrees with the decoders on every input, it
    looks at nothing beyond the object it skips, and no object is a prefix of another. */
module Skipping {
  import opened Wire
  import opened Encoding
  import opened Decoding
  import RoundTrip

  // ---- Agreement with the decoders -------------------------------------------

  lemma StrSize(b: bytes)
    requires ReadStr(b).Ok?
    ensures GetSize(b) == Ok((|b| - |ReadStr(b).value.1|, 0))
  {
    hide U16, U32;
  }

  lemma BinSize(b: bytes)
    requires ReadBin(b).Ok?
    ensures GetSize(b) == Ok((|b| - |ReadBin(b).value.1|, 0))
  {
    hide U16, U32;
  }

  lemma KeySize(b: bytes)
    requires ReadMapKey(b).Ok?
    ensures GetSize(b) == Ok((|b| - |ReadMapKey(b).value.1|, 0))
  {
    hide ReadStr, ReadBin, GetSize;
    if ReadStr(b).Ok? { StrSize(b); } else { BinSize(b); }
  }

  lemma ExtensionSize(b: bytes, want: int8)
    requires ReadExtension(b, want).Ok?
    ensures GetSize(b) == Ok((|b| - |ReadExtension(b, want).value.1|, 0))
  {
    hide U16, U32;
  }

  lemma NumberSize(b: bytes)
    ensures ReadInt64(b).Ok? ==> GetSize(b) == Ok((|b| - |ReadInt64(b).value.1|, 0))
    ensures ReadUint64(b).Ok? ==> GetSize(b) == Ok((|b| - |ReadUint64(b).value.1|, 0))
  {
    hide U16, U32, U64;
  }

  lemma MapHeaderSize(b: bytes)
    requires ReadMapHeader(b).Ok?
    ensures GetSize(b) == Ok((|b| - |ReadMapHeader(b).value.1|, 2 * (ReadMapHeader(b).value.0 as int)))
  {
    hide U16, U32;
  }

  lemma ArrayHeaderSize(b: bytes)
    requires ReadArrayHeader(b).Ok?
    ensures GetSize(b) == Ok((|b| - |ReadArrayHeader(b).value.1|, ReadArrayHeader(b).value.0))
  {
    hide U16, U32;
  }

  lemma SkipLeaf(b: bytes, rest: bytes)
    requires ProperSuffix(rest, b) && GetSize(b) == Ok((|b| - |rest|, 0))
    ensures Skip(b) == Ok(rest)
  {
    hide GetSize;
  }

  /** The remaining readers, whose extent is a constant of the lead byte. */
  lemma FixedSize(b: bytes)
    ensures ReadNil(b).Ok? ==> GetSize(b) == Ok((|b| - |ReadNil(b).value|, 0))
    ensures ReadBool(b).Ok? ==> GetSize(b) == Ok((|b| - |ReadBool(b).value.1|, 0))
    ensures ReadFloat32(b).Ok? ==> GetSize(b) == Ok((|b| - |ReadFloat32(b).value.1|, 0))
    ensures ReadFloat64(b).Ok? ==> GetSize(b) == Ok((|b| - |ReadFloat64(b).value.1|, 0))
    ensures ReadTime(b).Ok? ==> GetSize(b) == Ok((|b| - |ReadTime(b).value.1|, 0))
    ensures ReadComplex64(b).Ok? ==> GetSize(b) == Ok((|b| - |ReadComplex64(b).value.1|, 0))
    ensures ReadComplex128(b).Ok? ==> GetSize(b) == Ok((|b| - |ReadComplex128(b).value.1|, 0))
  {
    hide U16, U32, U64;
  }

  lemma ScalarAgrees(b: bytes)
    requires ReadIntf(b).Ok? && NextType(b) != MapType && NextType(b) != ArrayType
    ensures Skip(b) == Ok(ReadIntf(b).value.1)
  {
    hide U16, U32, U64, GetSize, Skip, SpecOf, ReadStr, ReadBin, ReadExtension, ReadInt64, ReadUint64,
      ReadNil, ReadBool, ReadFloat32, ReadFloat64, ReadTime, ReadComplex64, ReadComplex128, PeekExtension;
    var rest := ReadIntf(b).value.1;
    match NextType(b) {
      case StrType => StrSize(b);
      case BinType => BinSize(b);
      case ExtensionType => ExtensionSize(b, PeekExtension(b).value);
      case IntType => NumberSize(b);
      case UintType => NumberSize(b);
      case _ => FixedSize(b);
    }
    SkipLeaf(b, rest);
  }

  /** On every byte string, well formed or not: whenever the dynamic reader succeeds,
      `Skip` succeeds with the same remainder. */
  lemma {:induction false} SkipAgrees(b: bytes)
    requires ReadIntf(b).Ok?
    ensures Skip(b) == Ok(ReadIntf(b).value.1)
    decreases |b|, 1, 0
  {
    hide GetSize, NextType, ReadElems, ReadEntries, SkipN, ReadMapHeader, ReadArrayHeader;
    if NextType(b) == MapType {
      MapHeaderSize(b);
      var (sz, o) := ReadMapHeader(b).value;
      EntriesAgree(sz, o, []);
    } else if NextType(b) == ArrayType {
      ArrayHeaderSize(b);
      var (sz, o) := ReadArrayHeader(b).value;
      ElemsAgree(sz, o);
    } else {
      ScalarAgrees(b);
    }
  }

  lemma {:induction false} ElemsAgree(n: nat, b: bytes)
    requires ReadElems(n, b).Ok?
    ensures SkipN(n, b) == Ok(ReadElems(n, b).value.1)
    decreases |b|, 2, n
  {
    hide Skip, ReadIntf;
    if n > 0 {
      SkipAgrees(b);
      ElemsAgree(n - 1, ReadIntf(b).value.1);
    }
  }

  lemma SkipStep(n: nat, b: bytes, o: bytes)
    requires n > 0 && Skip(b) == Ok(o)
    ensures SkipN(n, b) == SkipN(n - 1, o)
  {
    hide Skip;
  }

  lemma {:induction false} EntriesAgree(n: nat, b: bytes, acc: seq<Entry>)
    requires ReadEntries(n, b, acc).Ok?
    ensures SkipN(2 * n, b) == Ok(ReadEntries(n, b, acc).value.1)
    decreases |b|, 2, n
  {
    hide Skip, SkipN, ReadIntf, ReadMapKey, Assign, GetSize;
    if n > 0 {
      var (key, o) := ReadMapKey(b).value;
      var (val, o') := ReadIntf(o).value;
      KeySize(b);
      SkipLeaf(b, o);
      SkipAgrees(o);
      SkipStep(2 * n, b, o);
      SkipStep(2 * n - 1, o, o');
      EntriesAgree(n - 1, o', Assign(acc, key, val));
    } else {
      SkipNone(b);
    }
  }

  lemma SkipNone(b: bytes)
    ensures SkipN(0, b) == Ok(b)
  {
  }

  // ---- Locality of keys ------------------------------------------------------

  /** A string read to the end of its bytes is read in the same way in front of others. */
  lemma StrLocal(k: bytes, key: bytes, c: bytes)
    requires ReadStr(k) == Ok((key, []))
    ensures ReadStr(k + c) == Ok((key, c))
  {
    hide U16, U32;
    var n := |k| - |key|;
    assert k[n..] == key && (k + c)[n..] == key + c;
    PrefixBytes(k, c);
  }

  lemma BinLocal(k: bytes, key: bytes, c: bytes)
    requires ReadBin(k) == Ok((key, []))
    ensures ReadBin(k + c) == Ok((key, c))
    ensures ReadStr(k + c) == Err(TypeError(StrType, BinType))
  {
    hide U16, U32;
    var n := |k| - |key|;
    assert k[n..] == key && (k + c)[n..] == key + c;
    PrefixBytes(k, c);
  }

  /** The bytes a header reader looks at are the same in front of any others. */
  lemma PrefixBytes(k: bytes, c: bytes)
    ensures |k| >= 1 ==> (k + c)[0] == k[0]
    ensures |k| >= 2 ==> (k + c)[1] == k[1]
    ensures |k| >= 3 ==> U16(k + c, 1) == U16(k, 1)
    ensures |k| >= 5 ==> U32(k + c, 1) == U32(k, 1)
  {
  }

  lemma KeyLocal(k: bytes, key: bytes, c: bytes)
    requires ReadMapKey(k) == Ok((key, []))
    ensures ReadMapKey(k + c) == Ok((key, c))
  {
    hide ReadStr, ReadBin;
    if ReadStr(k).Ok? { StrLocal(k, key, c); } else { BinLocal(k, key, c); }
  }

  // ---- Locality ---------------------------------------------------------------

  /** What `Skip` consumes when it succeeds. */
  function Consumed(b: bytes, rest: bytes): bytes
    requires |rest| <= |b|
  {
    b[..|b| - |rest|]
  }

  /** The size computation reads no more than the prefix it reports. */
  lemma GetSizeLocal(b: bytes, c: bytes)
    requires GetSize(b).Ok? && GetSize(b).value.0 <= |b| && GetSize(b).value.0 <= |c|
    requires c[..GetSize(b).value.0] == b[..GetSize(b).value.0]
    ensures GetSize(c) == GetSize(b)
  {
    var n := GetSize(b).value.0;
    assert forall i :: 0 <= i < n ==> b[i] == b[..n][i] == c[i];
    assert SpecOf(b[0]).size <= n;
  }

  /** `Skip` looks at nothing after the object: the same object in front of any other
      bytes is skipped in the same way. */
  lemma {:induction false} SkipLocal(b: bytes, c: bytes)
    requires Skip(b).Ok?
    ensures Skip(Consumed(b, Skip(b).value) + c) == Ok(c)
    decreases |b|, 1, 0
  {
    hide GetSize, SkipN;
    var (sz, asz) := GetSize(b).value;
    var rest := Skip(b).value;
    var d := Consumed(b, rest) + c;
    assert SkipN(asz, b[sz..]) == Ok(rest);
    SkipNLocal(asz, b[sz..], c);
    assert d[sz..] == Consumed(b[sz..], rest) + c;
    GetSizeLocal(b, d);
  }

  lemma ConsumedSplit(b: bytes, o: bytes, rest: bytes, c: bytes)
    requires |rest| <= |o| <= |b| && o == b[|b| - |o|..]
    ensures Consumed(b, rest) + c == Consumed(b, o) + (Consumed(o, rest) + c)
  {
  }

  lemma {:induction false} SkipNLocal(n: nat, b: bytes, c: bytes)
    requires SkipN(n, b).Ok?
    ensures SkipN(n, Consumed(b, SkipN(n, b).value) + c) == Ok(c)
    decreases |b|, 2, n
  {
    if n == 0 {
      assert Consumed(b, b) + c == c;
    } else {
      var o, rest := Skip(b).value, SkipN(n, b).value;
      hide Skip, SkipN, Consumed;
      SkipStep(n, b, o);
      SkipNLocal(n - 1, o, c);
      ConsumedSplit(b, o, rest, c);
      SkipLocal(b, Consumed(o, rest) + c);
      SkipStep(n, Consumed(b, rest) + c, Consumed(o, rest) + c);
    }
  }

  /** A cut-off object is reported as too short, wherever the cut is. */
  lemma {:induction false} SkipPrefix(b: bytes, k: nat)
    requires Skip(b).Ok? && k < |b| - |Skip(b).value|
    ensures Skip(b[..k]) == Err(ShortBytes)
    decreases |b|, 1, 0
  {
    hide SkipN;
    var (sz, asz) := GetSize(b).value;
    if k < sz {
      GetSizeShort(b, k);
    } else {
      GetSizeLocal(b, b[..k]);
      assert b[..k][sz..] == b[sz..][..k - sz];
      SkipNPrefix(asz, b[sz..], k - sz);
    }
  }

  lemma GetSizeShort(b: bytes, k: nat)
    requires GetSize(b).Ok? && k < GetSize(b).value.0 && k <= |b|
    ensures GetSize(b[..k]) == Err(ShortBytes) || (GetSize(b[..k]).Ok? && GetSize(b[..k]).value.0 > k)
  {
  }

  lemma {:induction false} SkipNPrefix(n: nat, b: bytes, k: nat)
    requires SkipN(n, b).Ok? && k < |b| - |SkipN(n, b).value|
    ensures SkipN(n, b[..k]) == Err(ShortBytes)
    decreases |b|, 2, n
  {
    hide Skip;
    var o := Skip(b).value;
    var len := |b| - |o|;
    if k < len {
      SkipPrefix(b, k);
    } else {
      SkipLocal(b, o[..k - len]);
      assert b[..k] == Consumed(b, o) + o[..k - len];
      SkipNPrefix(n - 1, o, k - len);
    }
  }

  /** A byte string that is exactly one object. */
  ghost predicate IsObject(b: bytes) { Skip(b) == Ok([]) }

  /** Objects are prefix-free: no object is a proper prefix of another one, so a
      concatenation of objects splits in only one way. */
  lemma ObjectsPrefixFree(p: bytes, q: bytes, c: bytes, d: bytes)
    requires IsObject(p) && IsObject(q) && p + c == q + d
    ensures p == q && c == d
  {
    hide Skip;
    ObjectInFront(p, c);
    ObjectInFront(q, d);
    assert p == (p + c)[..|p + c| - |c|] && q == (q + d)[..|q + d| - |d|];
  }

  lemma ObjectInFront(p: bytes, c: bytes)
    requires IsObject(p)
    ensures p != [] && Skip(p + c) == Ok(c)
  {
    SkipLocal(p, c);
    assert Consumed(p, []) == p;
  }

  /** What `Skip` cuts off the front is one object. */
  lemma FrontIsObject(b: bytes)
    requires Skip(b).Ok?
    ensures IsObject(Consumed(b, Skip(b).value)) && b == Consumed(b, Skip(b).value) + Skip(b).value
  {
    hide Skip;
    SkipLocal(b, []);
    assert Consumed(b, Skip(b).value) + [] == Consumed(b, Skip(b).value);
  }

  /** Every encoding of a dynamic value is exactly one object. */
  lemma EncodedIsObject(v: Value, st: Style)
    requires Fits(v)
    ensures IsObject(Enc(v, st))
  {
    hide Enc, ReadIntf, Skip;
    RoundTrip.IntfBack(v, st, []);
    assert Enc(v, st) + [] == Enc(v, st);
    SkipAgrees(Enc(v, st));
  }
}
