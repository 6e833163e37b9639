/** The buffered `Writer` of msgp/write.go over a sink that may fail at any call. */
module Writer {
  import opened Wire
  import opened Encoding
  import opened Append

  datatype WriteError = NoError | SinkFailed | ShortWrite

  /** An `io.Writer`. It accepts any prefix of what it is given. A sink that accepts less
      than everything without reporting an error breaks the interface's contract; `cheated`
      records that, and `faults` counts the calls that did so or reported an error. */
  class Sink {
    var delivered: bytes
    var cheated: bool
    var faults: nat

    constructor ()
      ensures delivered == [] && !cheated && faults == 0
    {
      delivered, cheated, faults := [], false, 0;
    }

    method Write(p: bytes) returns (n: nat, err: bool)
      modifies this
      ensures n <= |p| && delivered == old(delivered) + p[..n]
      ensures cheated == (old(cheated) || (!err && n < |p|))
      ensures faults == old(faults) + if err || n < |p| then 1 else 0
    {
      n :| 0 <= n <= |p|;
      err := *;
      delivered := delivered + p[..n];
      cheated := cheated || (!err && n < |p|);
      faults := faults + if err || n < |p| then 1 else 0;
    }
  }

  /** The buffer's length once a value has been written to it: an extension body that is longer
      than the buffer becomes the buffer. */
  function Widest(n: nat, v: Value): (m: nat)
    ensures m >= n
    decreases v, 1
  {
    match v
    case Ext(_, d) => if |d| > n then |d| else n
    case Arr(els) => WidestIn(n, els)
    case Map(es) => WidestEntry(n, es)
    case _ => n
  }

  function WidestIn(n: nat, vs: seq<Value>): (m: nat)
    ensures m >= n
    decreases vs, 0
  {
    if vs == [] then n else WidestIn(Widest(n, vs[0]), vs[1..])
  }

  function WidestEntry(n: nat, es: seq<Entry>): (m: nat)
    ensures m >= n
    decreases es, 0
  {
    if es == [] then n else WidestEntry(Widest(n, es[0].val), es[1..])
  }

  class Writer {
    var w: Sink
    var buf: array<byte>
    var wLoc: nat

    predicate Valid()
      reads this
    {
      wLoc <= buf.Length && buf.Length >= 18
    }

    /** Everything accepted so far: what the sink has, then what is still buffered. */
    ghost function Stream(): bytes
      reads this, w, buf
      requires Valid()
    {
      w.delivered + buf[..wLoc]
    }

    /** An operation that writes `enc`: if it succeeds the stream grew by `enc`, if it fails
        by at most a prefix of `enc`; nothing is lost, repeated or reordered. */
    twostate predicate Wrote(enc: bytes, err: WriteError)
      reads this, w, buf
      requires old(Valid())
    {
      && Valid() && w == old(w) && (buf == old(buf) || fresh(buf)) && buf.Length >= old(buf.Length)
      && (old(w.cheated) ==> w.cheated)
      && (!w.cheated ==> old(Stream()) <= Stream() <= old(Stream()) + enc)
      && (!w.cheated && err.NoError? ==> Stream() == old(Stream()) + enc)
      && Blames(err)
    }

    /** Only the sink can make an operation fail, and if it does the operation fails. */
    twostate predicate Blames(err: WriteError)
      reads this, w
    {
      && w.faults >= old(w.faults)
      && (w.faults == old(w.faults) ==> err.NoError? && w.cheated == old(w.cheated))
      && (!w.cheated && err.NoError? ==> w.faults == old(w.faults))
      && (err.ShortWrite? ==> w.cheated)
    }

    /** `NewWriterSize`: never fewer than 18 bytes. `NewWriter` passes 2048. */
    constructor Sized(w: Sink, sz: nat)
      ensures Valid() && fresh(buf) && this.w == w && wLoc == 0
      ensures buf.Length == if sz < 18 then 18 else sz
    {
      this.w := w;
      buf := new byte[if sz < 18 then 18 else sz](_ => 0);
      wLoc := 0;
    }

    method Flush() returns (err: WriteError)
      requires Valid()
      modifies this, w, buf
      ensures Wrote([], err) && buf == old(buf)
      ensures err.NoError? ==> wLoc == 0
      ensures w.cheated && !old(w.cheated) ==> err.ShortWrite?
    {
      if wLoc == 0 {
        return NoError;
      }
      ghost var pending := buf[..wLoc];
      var n, failed := w.Write(buf[..wLoc]);
      assert old(w.delivered) + pending == old(w.delivered) + pending[..n] + pending[n..];
      if failed {
        if n > 0 {
          var rest := wLoc - n;
          forall i | 0 <= i < rest {
            buf[i] := buf[n + i];
          }
          wLoc := rest;
          assert buf[..wLoc] == pending[n..];
        }
        return SinkFailed;
      }
      if n < wLoc {
        return ShortWrite;
      }
      wLoc := 0;
      return NoError;
    }

    /** Make room for `n` bytes, at most the buffer's length. */
    method Reserve(n: nat) returns (err: WriteError)
      requires Valid()
      modifies this, w, buf
      ensures Wrote([], err) && buf == old(buf)
      ensures err.NoError? && n <= buf.Length ==> wLoc + n <= buf.Length
      ensures err.NoError? && n > buf.Length ==> wLoc == 0
    {
      err := NoError;
      if buf.Length - wLoc < n {
        err := Flush();
      }
    }

    /** `require`: the index from which `n` bytes may be written; they already count as written. */
    method Require(n: nat) returns (wl: nat, err: WriteError)
      requires Valid() && n <= buf.Length
      modifies this, w, buf
      ensures Valid() && w == old(w) && buf == old(buf) && (old(w.cheated) ==> w.cheated) && Blames(err)
      ensures err.NoError? ==> wLoc == wl + n
      ensures !err.NoError? ==> Wrote([], err)
      ensures !w.cheated && err.NoError? ==> w.delivered + buf[..wl] == old(Stream())
    {
      err := Reserve(n);
      wl := wLoc;
      if err.NoError? {
        wLoc := wLoc + n;
      }
    }

    /** `copy(mw.buf[mw.wLoc:], bts)` when it fits, and the new write index. */
    method Store(bts: bytes)
      requires Valid() && wLoc + |bts| <= buf.Length
      modifies this, buf
      ensures Wrote(bts, NoError) && buf == old(buf) && w.cheated == old(w.cheated) && w.faults == old(w.faults)
    {
      CopyIn(buf, wLoc, bts);
      wLoc := wLoc + |bts|;
    }

    /** `Append`: more bytes than the buffer holds are cut off. */
    method AppendBytes(bts: bytes) returns (err: WriteError)
      requires Valid()
      modifies this, w, buf
      ensures Wrote(if |bts| <= buf.Length then bts else bts[..buf.Length], err) && buf == old(buf)
    {
      err := Reserve(|bts|);
      if err.NoError? {
        Store(if |bts| <= buf.Length then bts else bts[..buf.Length]);
      }
    }

    method Push(b: byte) returns (err: WriteError)
      requires Valid()
      modifies this, w, buf
      ensures Wrote([b], err) && buf == old(buf)
    {
      err := Reserve(1);
      if err.NoError? {
        Store([b]);
      }
    }

    method Prefix8(b: byte, u: byte) returns (err: WriteError)
      requires Valid()
      modifies this, w, buf
      ensures Wrote([b, u], err) && buf == old(buf)
    {
      err := Reserve(2);
      if err.NoError? {
        PrefixU8(buf, wLoc, b, u);
        wLoc := wLoc + 2;
      }
    }

    method Prefix16(b: byte, u: uint16) returns (err: WriteError)
      requires Valid()
      modifies this, w, buf
      ensures Wrote([b] + BE16(u), err) && buf == old(buf)
    {
      err := Reserve(3);
      if err.NoError? {
        PrefixU16(buf, wLoc, b, u);
        wLoc := wLoc + 3;
      }
    }

    method Prefix32(b: byte, u: uint32) returns (err: WriteError)
      requires Valid()
      modifies this, w, buf
      ensures Wrote([b] + BE32(u), err) && buf == old(buf)
    {
      err := Reserve(5);
      if err.NoError? {
        PrefixU32(buf, wLoc, b, u);
        wLoc := wLoc + 5;
      }
    }

    method Prefix64(b: byte, u: uint64) returns (err: WriteError)
      requires Valid()
      modifies this, w, buf
      ensures Wrote([b] + BE64(u), err) && buf == old(buf)
    {
      hide BE64;
      err := Reserve(9);
      if err.NoError? {
        PrefixU64(buf, wLoc, b, u);
        wLoc := wLoc + 9;
      }
    }

    /** `Write` and `writeString`: what is larger than the whole buffer bypasses it. */
    method Write(p: bytes) returns (n: nat, err: WriteError)
      requires Valid()
      modifies this, w, buf
      ensures Wrote(p, err) && buf == old(buf) && n <= |p|
      ensures !w.cheated ==> Stream() == old(Stream()) + p[..n] && (err.NoError? ==> n == |p|)
    {
      err := Reserve(|p|);
      if !err.NoError? {
        return 0, err;
      }
      if |p| > buf.Length {
        var failed;
        n, failed := w.Write(p);
        err := if failed then SinkFailed else NoError;
      } else {
        Store(p);
        n := |p|;
      }
    }

    method WriteStringBody(s: bytes) returns (err: WriteError)
      requires Valid()
      modifies this, w, buf
      ensures Wrote(s, err) && buf == old(buf)
    {
      err := Reserve(|s|);
      if !err.NoError? {
        return err;
      }
      if |s| > buf.Length {
        var n, failed := w.Write(s);
        if failed {
          return SinkFailed;
        }
        if n < |s| {
          return ShortWrite;
        }
        return NoError;
      }
      Store(s);
      return NoError;
    }

    // ---- Headers and scalars ----------------------------------------------------

    method WriteMapHeader(sz: uint32) returns (err: WriteError)
      requires Valid()
      modifies this, w, buf
      ensures Wrote(EncMapHeader(sz), err) && buf == old(buf)
    {
      if sz <= 15 {
        err := Push(FIXMAP + sz);
      } else if sz < TWO_16 {
        err := Prefix16(MAP16, sz);
      } else {
        err := Prefix32(MAP32, sz);
      }
    }

    method WriteArrayHeader(sz: uint32) returns (err: WriteError)
      requires Valid()
      modifies this, w, buf
      ensures Wrote(EncArrayHeader(sz), err) && buf == old(buf)
    {
      if sz <= 15 {
        err := Push(FIXARRAY + sz);
      } else if sz < TWO_16 {
        err := Prefix16(ARRAY16, sz);
      } else {
        err := Prefix32(ARRAY32, sz);
      }
    }

    method WriteInt64(i: int64) returns (err: WriteError)
      requires Valid()
      modifies this, w, buf
      ensures Wrote(EncInt(i), err) && buf == old(buf)
    {
      if i >= 0 {
        if i <= 0x7f {
          err := Push(i);
        } else if i <= 0x7fff {
          err := Prefix16(INT16, i);
        } else if i <= 0x7fff_ffff {
          err := Prefix32(INT32, i);
        } else {
          err := Prefix64(INT64, i);
        }
        return;
      }
      if i >= -32 {
        err := Push(Unsigned(i, 0x80));
      } else if i >= -0x80 {
        err := Prefix8(INT8, Unsigned(i, 0x80));
      } else if i >= -0x8000 {
        err := Prefix16(INT16, Unsigned(i, 0x8000));
      } else if i >= -0x8000_0000 {
        err := Prefix32(INT32, Unsigned(i, TWO_31));
      } else {
        err := Prefix64(INT64, Unsigned(i, TWO_63));
      }
    }

    method WriteUint64(u: uint64) returns (err: WriteError)
      requires Valid()
      modifies this, w, buf
      ensures Wrote(EncUint(u), err) && buf == old(buf)
    {
      if u <= 0x7f {
        err := Push(u);
      } else if u <= 0xff {
        err := Prefix8(UINT8, u);
      } else if u <= 0xffff {
        err := Prefix16(UINT16, u);
      } else if u <= 0xffff_ffff {
        err := Prefix32(UINT32, u);
      } else {
        err := Prefix64(UINT64, u);
      }
    }

    method WriteBytesHeader(sz: uint32) returns (err: WriteError)
      requires Valid()
      modifies this, w, buf
      ensures Wrote(EncBinHeader(sz), err) && buf == old(buf)
    {
      if sz <= 0xff {
        err := Prefix8(BIN8, sz);
      } else if sz <= 0xffff {
        err := Prefix16(BIN16, sz);
      } else {
        err := Prefix32(BIN32, sz);
      }
    }

    method WriteStringHeader(sz: uint32) returns (err: WriteError)
      requires Valid()
      modifies this, w, buf
      ensures Wrote(EncStrHeader(sz), err) && buf == old(buf)
    {
      if sz <= 31 {
        err := Push(FIXSTR + sz);
      } else if sz <= 0xff {
        err := Prefix8(STR8, sz);
      } else if sz <= 0xffff {
        err := Prefix16(STR16, sz);
      } else {
        err := Prefix32(STR32, sz);
      }
    }

    method WriteBytes(b: bytes) returns (err: WriteError)
      requires Valid()
      modifies this, w, buf
      ensures Wrote(EncBinHeader(|b| % TWO_32) + b, err) && buf == old(buf)
    {
      err := WriteBytesHeader(|b| % TWO_32);
      if err.NoError? {
        var n;
        n, err := Write(b);
      }
    }

    method WriteString(s: bytes) returns (err: WriteError)
      requires Valid()
      modifies this, w, buf
      ensures Wrote(EncStrHeader(|s| % TWO_32) + s, err) && buf == old(buf)
    {
      err := WriteStringHeader(|s| % TWO_32);
      if err.NoError? {
        err := WriteStringBody(s);
      }
    }

    method WriteComplex64(re: uint32, im: uint32) returns (err: WriteError)
      requires Valid()
      modifies this, w, buf
      ensures Wrote([FIXEXT8, 3] + BE32(re) + BE32(im), err) && buf == old(buf)
    {
      var i;
      i, err := Require(10);
      if err.NoError? {
        PutComplex64(buf, i, re, im);
      }
    }

    method WriteComplex128(re: uint64, im: uint64) returns (err: WriteError)
      requires Valid()
      modifies this, w, buf
      ensures Wrote([FIXEXT16, 4] + BE64(re) + BE64(im), err) && buf == old(buf)
    {
      var i;
      i, err := Require(18);
      if err.NoError? {
        PutComplex128(buf, i, re, im);
      }
    }

    method WriteTime(sec: int64, nsec: int32) returns (err: WriteError)
      requires Valid()
      modifies this, w, buf
      ensures Wrote(EncTime(sec, nsec), err) && buf == old(buf)
    {
      hide EncTime;
      var i;
      i, err := Require(15);
      if err.NoError? {
        PutTime(buf, i, sec, nsec);
      }
    }

    // ---- Extensions -----------------------------------------------------------------

    /** `require` room and write the bytes there. */
    method Marshal(bs: bytes) returns (err: WriteError)
      requires Valid() && |bs| <= buf.Length
      modifies this, w, buf
      ensures Wrote(bs, err) && buf == old(buf)
    {
      var i;
      i, err := Require(|bs|);
      if err.NoError? {
        CopyIn(buf, i, bs);
      }
    }

    /** The header switch of `WriteExtension`. */
    method WriteExtHeader(typ: int8, l: nat) returns (err: WriteError)
      requires Valid()
      modifies this, w, buf
      ensures Wrote(EncExtHeader(typ, l, Style.Stream), err) && buf == old(buf)
    {
      var t := Unsigned(typ, 0x80);
      if IsFixLen(l) {
        err := Marshal([FixExt(l), t]);
      } else if l < 0xff {
        err := Marshal([EXT8, l, t]);
      } else if l < 0xffff {
        err := Marshal([EXT16] + BE16(l) + [t]);
      } else {
        err := Marshal([EXT32] + BE32(l % TWO_32) + [t]);
      }
    }

    /** Flush, then let a copy of the body be the new, full buffer. */
    method SwapBuffer(d: bytes) returns (err: WriteError)
      requires Valid() && |d| > buf.Length
      modifies this, w, buf
      ensures Wrote(d, err) && (err.NoError? ==> buf.Length == |d|)
    {
      err := Flush();
      if err.NoError? {
        assert !w.cheated ==> w.delivered == old(Stream());
        var bigger := new byte[|d|](_ => 0);
        CopyIn(bigger, 0, d);
        assert bigger[..|d|] == d;
        buf, wLoc := bigger, |d|;
      }
    }

    /** `WriteExtension`: a body larger than the buffer becomes the new buffer. */
    method WriteExtension(typ: int8, d: bytes) returns (err: WriteError)
      requires Valid()
      modifies this, w, buf
      ensures Wrote(EncExt(typ, d, Style.Stream), err)
      ensures err.NoError? ==> buf.Length == if |d| > old(buf.Length) then |d| else old(buf.Length)
    {
      hide EncExtHeader;
      err := WriteExtHeader(typ, |d|);
      if !err.NoError? {
        return;
      }
      if |d| <= buf.Length {
        err := Marshal(d);
        return;
      }
      err := SwapBuffer(d);
    }

    // ---- Dynamic values -----------------------------------------------------------------

    method WriteIntf(v: Value) returns (err: WriteError)
      requires Valid() && Small(v)
      modifies this, w, buf
      ensures Wrote(Enc(v, Style.Stream), err) && (err.NoError? ==> buf.Length == Widest(old(buf.Length), v))
      decreases v, 1
    {
      hide WidestIn, WidestEntry, EncInt, EncUint, EncTime, BE32, BE64, EncStrHeader, EncBinHeader, EncExt, EncAll,
        EncEntries;
      match v
      case Nil => err := Push(NIL);
      case Bool(t) => err := Push(if t then TRUE else FALSE);
      case Int(i) => err := WriteInt64(i);
      case Uint(u) => err := WriteUint64(u);
      case Float32(f) => err := Prefix32(FLOAT32, f);
      case Float64(f) => err := Prefix64(FLOAT64, f);
      case Complex64(re, im) => err := WriteComplex64(re, im);
      case Complex128(re, im) => err := WriteComplex128(re, im);
      case Str(s) => err := WriteString(s);
      case Bin(d) => err := WriteBytes(d);
      case Time(sec, nsec) => err := WriteTime(sec, nsec);
      case Ext(typ, d) => err := WriteExtension(typ, d);
      case Arr(els) => err := WriteSlice(els);
      case Map(es) => err := WriteMapStrIntf(es);
    }

    method WriteSlice(els: seq<Value>) returns (err: WriteError)
      requires Valid() && AllSmall(els)
      modifies this, w, buf
      ensures Wrote(EncArrayHeader(|els| % TWO_32) + EncAll(els, Style.Stream), err)
      ensures err.NoError? ==> buf.Length == WidestIn(old(buf.Length), els)
      decreases els, 0
    {
      hide EncArrayHeader, Enc, Small, Widest;
      err := WriteArrayHeader(|els| % TWO_32);
      if !err.NoError? {
        return;
      }
      ghost var all := old(Stream()) + (EncArrayHeader(|els| % TWO_32) + EncAll(els, Style.Stream));
      assert els[0..] == els;
      for i := 0 to |els|
        invariant Valid() && w == old(w) && (buf == old(buf) || fresh(buf)) && AllSmall(els[i..])
        invariant buf.Length >= old(buf.Length) && WidestIn(buf.Length, els[i..]) == WidestIn(old(buf.Length), els)
        invariant (old(w.cheated) ==> w.cheated) && Blames(NoError)
        invariant !w.cheated ==> old(Stream()) <= Stream() && Stream() + EncAll(els[i..], Style.Stream) == all
      {
        ElemNext(els, i, Style.Stream);
        assert els[i..][0] == els[i] && els[i..][1..] == els[i + 1..];
        err := WriteIntf(els[i]);
        if !err.NoError? {
          return;
        }
      }
      err := NoError;
    }

    method WriteMapStrIntf(es: seq<Entry>) returns (err: WriteError)
      requires Valid() && EntriesSmall(es)
      modifies this, w, buf
      ensures Wrote(EncMapHeader(|es| % TWO_32) + EncEntries(es, Style.Stream), err)
      ensures err.NoError? ==> buf.Length == WidestEntry(old(buf.Length), es)
      decreases es, 0
    {
      hide EncMapHeader, EncStrHeader, Enc, Small, Widest;
      err := WriteMapHeader(|es| % TWO_32);
      if !err.NoError? {
        return;
      }
      ghost var all := old(Stream()) + (EncMapHeader(|es| % TWO_32) + EncEntries(es, Style.Stream));
      assert es[0..] == es;
      for i := 0 to |es|
        invariant Valid() && w == old(w) && (buf == old(buf) || fresh(buf)) && EntriesSmall(es[i..])
        invariant buf.Length >= old(buf.Length) && WidestEntry(buf.Length, es[i..]) == WidestEntry(old(buf.Length), es)
        invariant (old(w.cheated) ==> w.cheated) && Blames(NoError)
        invariant !w.cheated ==> old(Stream()) <= Stream() && Stream() + EncEntries(es[i..], Style.Stream) == all
      {
        EntryNext(es, i, Style.Stream);
        assert es[i..][0] == es[i] && es[i..][1..] == es[i + 1..];
        err := WriteEntry(es[i]);
        if !err.NoError? {
          return;
        }
      }
      err := NoError;
    }

    /** One turn of the map loop: the key, then the value. */
    method WriteEntry(e: Entry) returns (err: WriteError)
      requires Valid() && |e.key| < TWO_32 && Small(e.val)
      modifies this, w, buf
      ensures Wrote(EncStr(e.key) + Enc(e.val, Style.Stream), err)
      ensures err.NoError? ==> buf.Length == Widest(old(buf.Length), e.val)
      decreases e, 2
    {
      hide EncStrHeader, Enc, Small, Widest;
      err := WriteString(e.key);
      if err.NoError? {
        err := WriteIntf(e.val);
      }
    }
  }
}
