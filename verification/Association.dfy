/** The edits act on an encoded map as updates of an association list: whatever header
    form, key form and trailing bytes the map has. */
module Association {
  import opened Wire
  import opened Decoding
  import opened Skipping
  import opened Edit
  import RoundTrip

  /** A pair as it sits in the bytes: the encoded key, the key it reads as, the value. */
  datatype Pair = Pair(keyBytes: bytes, key: bytes, val: bytes)

  ghost predicate PairOk(p: Pair) {
    ReadStr(p.keyBytes) == Ok((p.key, [])) && IsObject(p.val)
  }

  ghost predicate PairsOk(ps: seq<Pair>) {
    forall p :: p in ps ==> PairOk(p)
  }

  function Flat(ps: seq<Pair>): bytes {
    if ps == [] then [] else ps[0].keyBytes + (ps[0].val + Flat(ps[1..]))
  }

  /** `hdr` is a map header, in any of its forms, that announces `n` pairs. */
  ghost predicate HeaderOk(hdr: bytes, n: nat) {
    ReadMapHeader(hdr) == Ok((n, []))
  }

  /** A map of well-formed pairs, before any other bytes. */
  ghost predicate EncodedMap(hdr: bytes, ps: seq<Pair>) {
    HeaderOk(hdr, |ps|) && PairsOk(ps)
  }

  function MapBytes(hdr: bytes, ps: seq<Pair>, tail: bytes): bytes {
    hdr + (Flat(ps) + tail)
  }

  /** The index of the first pair with the key, or the number of pairs. */
  function First(ps: seq<Pair>, key: bytes): (i: nat)
    ensures i <= |ps| && (i < |ps| ==> ps[i].key == key)
    ensures forall j :: 0 <= j < i ==> ps[j].key != key
  {
    if ps == [] || ps[0].key == key then 0 else 1 + First(ps[1..], key)
  }

  /** The value of the first pair with the key, or nothing. */
  function Lookup(ps: seq<Pair>, key: bytes): bytes {
    var i := First(ps, key);
    if i < |ps| then ps[i].val else []
  }

  function Update(ps: seq<Pair>, key: bytes, val: bytes): seq<Pair> {
    var i := First(ps, key);
    if i < |ps| then ps[..i] + [ps[i].(val := val)] + ps[i + 1..] else ps
  }

  function Without(ps: seq<Pair>, key: bytes): seq<Pair> {
    var i := First(ps, key);
    if i < |ps| then ps[..i] + ps[i + 1..] else ps
  }

  // ---- Searching ---------------------------------------------------------------------

  lemma HeaderLocal(hdr: bytes, n: nat, c: bytes)
    requires HeaderOk(hdr, n)
    ensures ReadMapHeader(hdr + c) == Ok((n, c))
  {
    assert forall i :: 0 <= i < |hdr| ==> (hdr + c)[i] == hdr[i];
    assert (hdr + c)[|hdr|..] == c;
  }

  lemma SearchStep(n: nat, p: Pair, c: bytes, key: bytes)
    requires n > 0 && PairOk(p)
    ensures var b := p.keyBytes + (p.val + c);
      Search(n, b, key) == if p.key == key then Hit(b, p.val + c, c) else Search(n - 1, c, key)
  {
    hide ReadStr, Skip;
    StrLocal(p.keyBytes, p.key, p.val + c);
    ObjectInFront(p.val, c);
  }

  /** The search finds the first pair with the key, and nothing else. */
  lemma {:induction false} SearchFindsFirst(ps: seq<Pair>, tail: bytes, key: bytes)
    requires PairsOk(ps)
    ensures var i := First(ps, key);
      Search(|ps|, Flat(ps) + tail, key) ==
        if i == |ps| then Miss
        else Hit(Flat(ps[i..]) + tail, ps[i].val + (Flat(ps[i + 1..]) + tail), Flat(ps[i + 1..]) + tail)
  {
    hide Search, PairOk;
    if ps == [] {
      SearchNone(Flat(ps) + tail, key);
    } else {
      var c := Flat(ps[1..]) + tail;
      assert Flat(ps) + tail == ps[0].keyBytes + (ps[0].val + c);
      SearchStep(|ps|, ps[0], c, key);
      SearchFindsFirst(ps[1..], tail, key);
      assert ps[0..] == ps;
      var i := First(ps[1..], key);
      if i < |ps[1..]| { assert ps[1..][i..] == ps[i + 1..] && ps[1..][i + 1..] == ps[i + 2..]; }
    }
  }

  lemma {:induction false} FlatSplit(ps: seq<Pair>, i: nat)
    requires i <= |ps|
    ensures Flat(ps) == Flat(ps[..i]) + Flat(ps[i..])
  {
    if i == 0 {
      assert ps[0..] == ps;
    } else {
      FlatSplit(ps[1..], i - 1);
      assert ps[..i][1..] == ps[1..][..i - 1] && ps[1..][i - 1..] == ps[i..];
    }
  }

  /** The map in front of the first matching pair, that pair, and what follows it. */
  lemma MapSplit(hdr: bytes, ps: seq<Pair>, tail: bytes, i: nat)
    requires i < |ps|
    ensures MapBytes(hdr, ps, tail)
         == (hdr + Flat(ps[..i])) + (ps[i].keyBytes + (ps[i].val + (Flat(ps[i + 1..]) + tail)))
    ensures Flat(ps[i..]) + tail == ps[i].keyBytes + (ps[i].val + (Flat(ps[i + 1..]) + tail))
  {
    FlatSplit(ps, i);
    assert ps[i..][0] == ps[i] && ps[i..][1..] == ps[i + 1..];
  }

  lemma SearchMapFindsFirst(hdr: bytes, ps: seq<Pair>, tail: bytes, key: bytes)
    requires EncodedMap(hdr, ps)
    ensures var i := First(ps, key);
      SearchMap(MapBytes(hdr, ps, tail), key) ==
        if i == |ps| then Miss
        else Hit(Flat(ps[i..]) + tail, ps[i].val + (Flat(ps[i + 1..]) + tail), Flat(ps[i + 1..]) + tail)
  {
    hide Search, ReadMapHeader, PairsOk, Flat;
    HeaderLocal(hdr, |ps|, Flat(ps) + tail);
    SearchFindsFirst(ps, tail, key);
  }

  // ---- The edits -----------------------------------------------------------------------

  /** `Locate` returns the encoding of the first matching value, or nothing. */
  lemma LocateIsLookup(hdr: bytes, ps: seq<Pair>, tail: bytes, key: bytes)
    requires EncodedMap(hdr, ps)
    ensures Locate(key, MapBytes(hdr, ps, tail)) == Lookup(ps, key)
  {
    hide SearchMap, PairsOk, HeaderOk, Flat;
    SearchMapFindsFirst(hdr, ps, tail, key);
    var i := First(ps, key);
    if i < |ps| {
      MapSplit(hdr, ps, tail, i);
    }
  }

  /** `Replace` updates the first matching value and keeps every other byte; it returns no
      slice exactly when the key is missing. */
  lemma ReplaceIsUpdate(hdr: bytes, ps: seq<Pair>, tail: bytes, key: bytes, val: bytes)
    requires EncodedMap(hdr, ps)
    ensures Replaced(key, MapBytes(hdr, ps, tail), val)
         == if First(ps, key) == |ps| then None else Some(MapBytes(hdr, Update(ps, key, val), tail))
  {
    hide SearchMap, PairsOk, HeaderOk, Flat;
    SearchMapFindsFirst(hdr, ps, tail, key);
    var i := First(ps, key);
    if i < |ps| {
      var qs := Update(ps, key, val);
      MapSplit(hdr, ps, tail, i);
      MapSplit(hdr, qs, tail, i);
      assert qs[..i] == ps[..i] && qs[i + 1..] == ps[i + 1..];
      SpliceValue(hdr + Flat(ps[..i]), ps[i].keyBytes, ps[i].val, Flat(ps[i + 1..]) + tail, val);
    }
  }

  lemma SpliceValue(pre: bytes, k: bytes, was: bytes, post: bytes, val: bytes)
    ensures var raw := pre + (k + (was + post));
      var start, end := |raw| - |was + post|, |raw| - |post|;
      Splice(raw, start, end, val) == pre + (k + (val + post))
  {
  }

  /** `Remove` takes out the first matching pair, counts one less in the same header form,
      and keeps every other byte in order. */
  lemma RemoveIsWithout(hdr: bytes, ps: seq<Pair>, tail: bytes, key: bytes) returns (hdr': bytes)
    requires EncodedMap(hdr, ps)
    ensures Removed(key, MapBytes(hdr, ps, tail)) == MapBytes(hdr', Without(ps, key), tail)
    ensures EncodedMap(hdr', Without(ps, key)) && |hdr'| == |hdr|
  {
    hide SearchMap, Flat, Resized, HeaderOk, First, PairOk, ReadMapHeader;
    var raw := MapBytes(hdr, ps, tail);
    SearchMapFindsFirst(hdr, ps, tail, key);
    var i := First(ps, key);
    if i == |ps| {
      hdr' := hdr;
    } else {
      var body := Flat(Without(ps, key)) + tail;
      CutPair(hdr, ps, tail, i);
      HeaderKept(key, raw);
      HeaderLocal(hdr, |ps|, Flat(ps) + tail);
      HeaderLocal(hdr, |ps|, body);
      hdr' := CountDown(hdr, |ps|, body);
    }
  }

  lemma CutPair(hdr: bytes, ps: seq<Pair>, tail: bytes, i: nat)
    requires i < |ps|
    ensures var raw := MapBytes(hdr, ps, tail);
      var field, rest := Flat(ps[i..]) + tail, Flat(ps[i + 1..]) + tail;
      |field| <= |raw| && |rest| <= |field| &&
      Splice(raw, |raw| - |field|, |raw| - |rest|, []) == hdr + (Flat(ps[..i] + ps[i + 1..]) + tail)
  {
    MapSplit(hdr, ps, tail, i);
    FlatSplit(ps[..i] + ps[i + 1..], i);
    assert (ps[..i] + ps[i + 1..])[..i] == ps[..i] && (ps[..i] + ps[i + 1..])[i..] == ps[i + 1..];
  }

  /** Lowering the count by one stays in the header's own form. */
  lemma CountDown(hdr: bytes, n: nat, body: bytes) returns (hdr': bytes)
    requires HeaderOk(hdr, n) && n >= 1
    requires HasCount(hdr + body) && Count(hdr + body) == n
    ensures Resized(hdr + body, n - 1, 0) == hdr' + body
    ensures HeaderOk(hdr', n - 1) && |hdr'| == |hdr|
  {
    hdr' := Resized(hdr, n - 1, 0);
    assert forall k :: 0 <= k < |hdr| ==> (hdr + body)[k] == hdr[k];
    assert hdr[|hdr|..] == [] && (hdr + body)[|hdr|..] == body;
    if hdr[0] == MAP16 {
      RoundTrip.Length16Back(MAP16, n - 1, []);
      assert hdr' == [MAP16] + BE16(n - 1) + [];
    } else if hdr[0] == MAP32 {
      RoundTrip.Length32Back(MAP32, n - 1, []);
      assert hdr' == [MAP32] + BE32(n - 1) + [];
    } else {
      assert hdr' == [FIXMAP + (n - 1)];
    }
  }

  // ---- What a reader sees after an edit --------------------------------------------------

  lemma FirstSkips(ps: seq<Pair>, i: nat, key: bytes)
    requires i <= |ps| && forall j :: 0 <= j < i ==> ps[j].key != key
    ensures First(ps, key) == i + First(ps[i..], key)
  {
    if i == 0 {
      assert ps[0..] == ps;
    } else {
      FirstSkips(ps[1..], i - 1, key);
      assert ps[1..][i - 1..] == ps[i..];
    }
  }

  /** Lookups split at any point of the list. */
  lemma {:induction false} LookupConcat(ps: seq<Pair>, qs: seq<Pair>, key: bytes)
    ensures Lookup(ps + qs, key) == if First(ps, key) < |ps| then Lookup(ps, key) else Lookup(qs, key)
  {
    if ps == [] {
      assert ps + qs == qs;
    } else {
      LookupConcat(ps[1..], qs, key);
      assert (ps + qs)[1..] == ps[1..] + qs;
    }
  }

  /** Updating and removing a key leave every other key's value alone. */
  lemma OtherKeys(ps: seq<Pair>, key: bytes, val: bytes, other: bytes)
    requires other != key && First(ps, key) < |ps|
    ensures Lookup(Update(ps, key, val), other) == Lookup(ps, other)
    ensures Lookup(Without(ps, key), other) == Lookup(ps, other)
  {
    hide Lookup, First;
    var i := First(ps, key);
    var p, rest := ps[i], ps[i + 1..];
    var q := p.(val := val);
    assert ps == ps[..i] + ([p] + rest) && Update(ps, key, val) == ps[..i] + ([q] + rest);
    LookupConcat(ps[..i], [p] + rest, other);
    LookupConcat(ps[..i], [q] + rest, other);
    LookupConcat(ps[..i], rest, other);
    LookupPast(p, rest, other);
    LookupPast(q, rest, other);
  }

  lemma LookupPast(p: Pair, rest: seq<Pair>, key: bytes)
    requires p.key != key
    ensures Lookup([p] + rest, key) == Lookup(rest, key)
  {
    assert ([p] + rest)[1..] == rest;
  }

  lemma UpdatedKey(ps: seq<Pair>, key: bytes, val: bytes)
    requires First(ps, key) < |ps|
    ensures Lookup(Update(ps, key, val), key) == val
  {
    hide Lookup, First;
    var i := First(ps, key);
    var q, rest := ps[i].(val := val), ps[i + 1..];
    assert Update(ps, key, val) == ps[..i] + ([q] + rest);
    LookupConcat(ps[..i], [q] + rest, key);
    FirstInPrefix(ps, i, key);
    LookupHere(q, rest);
  }

  lemma LookupHere(p: Pair, rest: seq<Pair>)
    ensures Lookup([p] + rest, p.key) == p.val
  {
  }

  /** After replacing a value by one well-formed object, the key locates that object and
      every other key locates the bytes it located before. */
  lemma ReplaceThenLocate(hdr: bytes, ps: seq<Pair>, tail: bytes, key: bytes, val: bytes, other: bytes)
    requires EncodedMap(hdr, ps) && IsObject(val) && First(ps, key) < |ps|
    ensures var raw := MapBytes(hdr, ps, tail);
      var r := Replaced(key, raw, val);
      r.Some? && Locate(other, r.value) == if other == key then val else Locate(other, raw)
  {
    hide PairOk, HeaderOk, MapBytes, Replaced, Locate, Lookup;
    var qs := Update(ps, key, val);
    ReplaceIsUpdate(hdr, ps, tail, key, val);
    UpdateKeepsPairs(ps, key, val);
    LocateIsLookup(hdr, ps, tail, other);
    LocateIsLookup(hdr, qs, tail, other);
    if other == key { UpdatedKey(ps, key, val); } else { OtherKeys(ps, key, val, other); }
  }

  lemma UpdateKeepsPairs(ps: seq<Pair>, key: bytes, val: bytes)
    requires PairsOk(ps) && IsObject(val)
    ensures PairsOk(Update(ps, key, val)) && |Update(ps, key, val)| == |ps|
  {
    hide IsObject, ReadStr;
    var i := First(ps, key);
    if i < |ps| {
      forall p | p in Update(ps, key, val) ensures PairOk(p) {
        if p == ps[i].(val := val) { assert PairOk(ps[i]); }
      }
    }
  }

  /** After removing a key, every other key locates the bytes it located before, and the key
      itself locates the next pair that carries it, if any. */
  lemma RemoveThenLocate(hdr: bytes, ps: seq<Pair>, tail: bytes, key: bytes, other: bytes)
    requires EncodedMap(hdr, ps) && First(ps, key) < |ps|
    ensures var raw := MapBytes(hdr, ps, tail);
      Locate(other, Removed(key, raw))
        == if other == key then Lookup(ps[First(ps, key) + 1..], key) else Locate(other, raw)
  {
    hide PairsOk, HeaderOk, MapBytes, Removed, Locate, Lookup;
    var hdr' := RemoveIsWithout(hdr, ps, tail, key);
    LocateIsLookup(hdr, ps, tail, other);
    LocateIsLookup(hdr', Without(ps, key), tail, other);
    if other == key {
      var i := First(ps, key);
      LookupConcat(ps[..i], ps[i + 1..], key);
      FirstInPrefix(ps, i, key);
    } else {
      OtherKeys(ps, key, [], other);
    }
  }

  lemma FirstInPrefix(ps: seq<Pair>, i: nat, key: bytes)
    requires i <= |ps| && i <= First(ps, key)
    ensures First(ps[..i], key) == i
  {
  }

  /** Resizing a map header keeps the body and announces the new count, in every form and
      for every capacity, except when a 16-bit count outgrows its form in place: there the
      lead byte is not rewritten. */
  lemma ResizeKeepsBody(hdr: bytes, count: nat, body: bytes, n: uint32, spare: nat)
    requires HeaderOk(hdr, count)
    ensures HasCount(hdr + body) && Count(hdr + body) == count
    ensures ReadMapHeader(Resized(hdr + body, n, spare)) == Ok((n, body))
       <==> !(hdr[0] == MAP16 && n >= TWO_16 && spare >= 2)
  {
    hide BE16, BE32, U16, U32;
    assert forall k :: 0 <= k < |hdr| ==> (hdr + body)[k] == hdr[k];
    assert (hdr + body)[|hdr|..] == body;
    HeaderLocal(hdr, count, body);
    RoundTrip.MapHeaderBack(n, body);
    if n < TWO_16 { RoundTrip.Length16Back(MAP16, n, body); BodyAfter([MAP16] + BE16(n), body); }
    RoundTrip.Length32Back(MAP32, n, body);
    BodyAfter([MAP32] + BE32(n), body);
  }

  /** 65535 pairs and one more, with two spare bytes: the reader now sees a map of one pair. */
  lemma ResizeOutgrown()
    ensures HeaderOk([MAP16, 0xff, 0xff], 0xffff)
    ensures ReadMapHeader(Resized([MAP16, 0xff, 0xff], 0x1_0000, 2)) == Ok((1, [0, 0]))
  {
    assert BE32(0x1_0000) == [0, 1, 0, 0];
    assert Resized([MAP16, 0xff, 0xff], 0x1_0000, 2) == [MAP16, 0, 1, 0, 0];
  }

  lemma BodyAfter(hdr: bytes, body: bytes)
    ensures (hdr + body)[|hdr|..] == body
  {
  }
}
