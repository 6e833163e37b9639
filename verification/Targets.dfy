/** What the generated `UnmarshalMsg` leaves in a variable (gen/unmarshal.go): a function of the
    value sent and of what the variable held before. What it held matters in one way only: a
    `RawExtension` says with its own number which extension may be read into it. */
module Targets {
  import opened Wire
  import opened TypeTree
  import opened UnmarshalGen
  import V = Encoding

  // ---- The value received ------------------------------------------------------------------

  /** Values whose encoding is the nil byte. */
  predicate NilCoded(v: GoVal) {
    v.NilPtr? || (v.Dyn? && v.v.Nil?) || (v.PtrTo? && NilCoded(v.to))
  }

  /** `sent`, read into a variable that held `target`. Pointers to something that encodes as nil
      become nil pointers, small unsigned numbers in dynamic values signed; a slice keeps the
      variable's capacity; the values of a map are read into zero values; and an extension is
      taken only if it has the variable's number or no data at all. */
  function Received(sent: GoVal, target: GoVal): Result<GoVal>
    decreases sent, 1
  {
    match sent
    case Dyn(x) => Ok(Dyn(V.Norm(x)))
    case Raw(typ, d) =>
      var want := Number(target);
      if typ == want || d == [] then Ok(Raw(want, d)) else Err(ExtensionTypeError(typ, want))
    case PtrTo(w) =>
      if NilCoded(w) then Ok(NilPtr)
      else
        var got :- Received(w, Pointee(target));
        Ok(PtrTo(got))
    case Sl(els, _) =>
      var room := Resize(target, |els|);
      var got :- ReceivedAll(els, room.els);
      Ok(Sl(got, room.spare))
    case Arr(els) =>
      var got :- ReceivedAll(els, Elements(target, |els|));
      Ok(Arr(got))
    case Mp(es) =>
      var got :- ReceivedEntries(es);
      Ok(Mp(got))
    case Rec(fs) =>
      var got :- ReceivedAll(fs, Expand(target, |fs|));
      Ok(Rec(got))
    case _ => Ok(sent)
  }

  function ReceivedAll(sent: seq<GoVal>, targets: seq<GoVal>): (r: Result<seq<GoVal>>)
    requires |sent| == |targets|
    ensures r.Ok? ==> |r.value| == |sent|
    decreases sent, 0
  {
    if sent == [] then Ok([])
    else
      var got :- Received(sent[0], targets[0]);
      var more :- ReceivedAll(sent[1..], targets[1..]);
      Ok([got] + more)
  }

  function ReceivedEntries(sent: seq<GoEntry>): (r: Result<seq<GoEntry>>)
    ensures r.Ok? ==> |r.value| == |sent|
    decreases sent, 0
  {
    if sent == [] then Ok([])
    else
      var got :- Received(sent[0].val, Zero);
      var more :- ReceivedEntries(sent[1..]);
      Ok([GoEntry(sent[0].key, got)] + more)
  }

  // ---- What a program can see of it ----------------------------------------------------------

  /** The value as seen after a round trip through variables of the right numbers. */
  function Seen(v: GoVal): GoVal
    decreases v, 1
  {
    match v
    case Dyn(x) => Dyn(V.Norm(x))
    case PtrTo(w) => if NilCoded(w) then NilPtr else PtrTo(Seen(w))
    case Sl(els, _) => Sl(SeenAll(els), [])
    case Arr(els) => Arr(SeenAll(els))
    case Mp(es) => Mp(SeenEntries(es))
    case Rec(fs) => Rec(SeenAll(fs))
    case _ => v
  }

  function SeenAll(vs: seq<GoVal>): (r: seq<GoVal>)
    ensures |r| == |vs|
    decreases vs, 0
  {
    if vs == [] then [] else [Seen(vs[0])] + SeenAll(vs[1..])
  }

  function SeenEntries(es: seq<GoEntry>): (r: seq<GoEntry>)
    ensures |r| == |es|
    decreases es, 0
  {
    if es == [] then [] else [GoEntry(es[0].key, Seen(es[0].val))] + SeenEntries(es[1..])
  }

  /** A value without the capacity behind its slices. */
  function Strip(v: GoVal): GoVal
    decreases v, 1
  {
    match v
    case PtrTo(w) => PtrTo(Strip(w))
    case Sl(els, _) => Sl(StripAll(els), [])
    case Arr(els) => Arr(StripAll(els))
    case Mp(es) => Mp(StripEntries(es))
    case Rec(fs) => Rec(StripAll(fs))
    case _ => v
  }

  function StripAll(vs: seq<GoVal>): (r: seq<GoVal>)
    ensures |r| == |vs|
    decreases vs, 0
  {
    if vs == [] then [] else [Strip(vs[0])] + StripAll(vs[1..])
  }

  function StripEntries(es: seq<GoEntry>): (r: seq<GoEntry>)
    ensures |r| == |es|
    decreases es, 0
  {
    if es == [] then [] else [GoEntry(es[0].key, Strip(es[0].val))] + StripEntries(es[1..])
  }

  /** Every `RawExtension` in `sent` meets one of its own number; unless `strict`, one without
      data may meet any. */
  predicate Numbered(sent: GoVal, target: GoVal, strict: bool)
    decreases sent, 1
  {
    match sent
    case Raw(typ, d) => typ == Number(target) || (!strict && d == [])
    case PtrTo(w) => Numbered(w, Pointee(target), strict)
    case Sl(els, _) => AllNumbered(els, Resize(target, |els|).els, strict)
    case Arr(els) => AllNumbered(els, Elements(target, |els|), strict)
    case Mp(es) => EntriesNumbered(es, strict)
    case Rec(fs) => AllNumbered(fs, Expand(target, |fs|), strict)
    case _ => true
  }

  predicate AllNumbered(sent: seq<GoVal>, targets: seq<GoVal>, strict: bool)
    requires |sent| == |targets|
    decreases sent, 0
  {
    sent != [] ==> Numbered(sent[0], targets[0], strict) && AllNumbered(sent[1..], targets[1..], strict)
  }

  predicate EntriesNumbered(sent: seq<GoEntry>, strict: bool)
    decreases sent, 0
  {
    sent != [] ==> Numbered(sent[0].val, Zero, strict) && EntriesNumbered(sent[1..], strict)
  }

  // ---- Exactly when -------------------------------------------------------------------------------

  /** Reading succeeds if and only if every `RawExtension` with data meets its own number, and
      delivers all there is to see if and only if every one meets its own number. */
  lemma {:induction false} ReceivedExactly(sent: GoVal, target: GoVal)
    ensures var r := Received(sent, target);
      && (r.Ok? <==> Numbered(sent, target, false))
      && (r.Ok? && Strip(r.value) == Seen(sent) <==> Numbered(sent, target, true))
      && (r.Ok? && Strip(r.value) == Strip(sent) ==> Numbered(sent, target, true))
    decreases sent, 1
  {
    hide ReceivedAll, ReceivedEntries, Resize, Elements, Expand, SeenAll, StripAll, SeenEntries, StripEntries,
      AllNumbered, EntriesNumbered, V.Norm;
    match sent
    case PtrTo(w) => PointeeExactly(w, target);
    case Sl(els, _) => AllExactly(els, Resize(target, |els|).els);
    case Arr(els) => AllExactly(els, Elements(target, |els|));
    case Mp(es) => EntriesExactly(es);
    case Rec(fs) => AllExactly(fs, Expand(target, |fs|));
    case _ =>
  }

  lemma PointeeExactly(w: GoVal, target: GoVal)
    ensures var sent := PtrTo(w);
      var r := Received(sent, target);
      && (r.Ok? <==> Numbered(sent, target, false))
      && (r.Ok? && Strip(r.value) == Seen(sent) <==> Numbered(sent, target, true))
      && (r.Ok? && Strip(r.value) == Strip(sent) ==> Numbered(sent, target, true))
    decreases w, 2
  {
    hide ReceivedAll, ReceivedEntries, Resize, Elements, Expand, SeenAll, StripAll, SeenEntries, StripEntries,
      AllNumbered, EntriesNumbered, V.Norm, NilCoded, Pointee, Number;
    if NilCoded(w) { NilIsNumbered(w, Pointee(target)); } else { ReceivedExactly(w, Pointee(target)); }
  }

  lemma {:induction false} NilIsNumbered(v: GoVal, target: GoVal)
    requires NilCoded(v)
    ensures Numbered(v, target, true) && Numbered(v, target, false)
  {
    if v.PtrTo? { NilIsNumbered(v.to, Pointee(target)); }
  }

  /** Lists of values behave like their elements. */
  lemma {:induction false} AllExactly(sent: seq<GoVal>, targets: seq<GoVal>)
    requires |sent| == |targets|
    ensures var r := ReceivedAll(sent, targets);
      && (r.Ok? <==> AllNumbered(sent, targets, false))
      && (r.Ok? && StripAll(r.value) == SeenAll(sent) <==> AllNumbered(sent, targets, true))
      && (r.Ok? && StripAll(r.value) == StripAll(sent) ==> AllNumbered(sent, targets, true))
    decreases sent, 0
  {
    hide Received, Numbered, Seen, Strip;
    if sent != [] {
      ReceivedExactly(sent[0], targets[0]);
      AllExactly(sent[1..], targets[1..]);
      var r, more := Received(sent[0], targets[0]), ReceivedAll(sent[1..], targets[1..]);
      if r.Ok? && more.Ok? {
        assert ([r.value] + more.value)[1..] == more.value;
        Heads(Strip(r.value), StripAll(more.value), Seen(sent[0]), SeenAll(sent[1..]));
        Heads(Strip(r.value), StripAll(more.value), Strip(sent[0]), StripAll(sent[1..]));
      }
    }
  }

  lemma Heads<T>(x: T, xs: seq<T>, y: T, ys: seq<T>)
    ensures [x] + xs == [y] + ys <==> x == y && xs == ys
  {
    assert ([x] + xs)[0] == x && ([x] + xs)[1..] == xs && ([y] + ys)[0] == y && ([y] + ys)[1..] == ys;
  }

  lemma {:induction false} EntriesExactly(sent: seq<GoEntry>)
    ensures var r := ReceivedEntries(sent);
      && (r.Ok? <==> EntriesNumbered(sent, false))
      && (r.Ok? && StripEntries(r.value) == SeenEntries(sent) <==> EntriesNumbered(sent, true))
      && (r.Ok? && StripEntries(r.value) == StripEntries(sent) ==> EntriesNumbered(sent, true))
    decreases sent, 0
  {
    hide Received, Numbered, Seen, Strip;
    if sent != [] {
      ReceivedExactly(sent[0].val, Zero);
      EntriesExactly(sent[1..]);
      var key, r, more := sent[0].key, Received(sent[0].val, Zero), ReceivedEntries(sent[1..]);
      if r.Ok? && more.Ok? {
        var head := GoEntry(key, r.value);
        assert ([head] + more.value)[1..] == more.value;
        var seen, same := GoEntry(key, Seen(sent[0].val)), GoEntry(key, Strip(sent[0].val));
        Heads(GoEntry(key, Strip(r.value)), StripEntries(more.value), seen, SeenEntries(sent[1..]));
        Heads(GoEntry(key, Strip(r.value)), StripEntries(more.value), same, StripEntries(sent[1..]));
      }
    }
  }

  // ---- Any target, and a fresh one ------------------------------------------------------------

  /** Every `RawExtension` in the value has the number 0 or no data; with `none`, there is none. */
  predicate Unnumbered(v: GoVal, none: bool)
    decreases v, 1
  {
    match v
    case Raw(typ, d) => !none && (typ == 0 || d == [])
    case PtrTo(w) => Unnumbered(w, none)
    case Sl(els, _) => AllUnnumbered(els, none)
    case Arr(els) => AllUnnumbered(els, none)
    case Mp(es) => EntriesUnnumbered(es, none)
    case Rec(fs) => AllUnnumbered(fs, none)
    case _ => true
  }

  predicate AllUnnumbered(vs: seq<GoVal>, none: bool)
    decreases vs, 0
  {
    vs != [] ==> Unnumbered(vs[0], none) && AllUnnumbered(vs[1..], none)
  }

  predicate EntriesUnnumbered(es: seq<GoEntry>, none: bool)
    decreases es, 0
  {
    es != [] ==> Unnumbered(es[0].val, none) && EntriesUnnumbered(es[1..], none)
  }

  /** Without a `RawExtension` any target will do. */
  lemma {:induction false} AnyTarget(sent: GoVal, target: GoVal)
    requires Unnumbered(sent, true)
    ensures Numbered(sent, target, true)
    decreases sent, 1
  {
    match sent
    case PtrTo(w) => AnyTarget(w, Pointee(target));
    case Sl(els, _) => AnyTargets(els, Resize(target, |els|).els);
    case Arr(els) => AnyTargets(els, Elements(target, |els|));
    case Mp(es) => AnyEntries(es);
    case Rec(fs) => AnyTargets(fs, Expand(target, |fs|));
    case _ =>
  }

  lemma {:induction false} AnyTargets(sent: seq<GoVal>, targets: seq<GoVal>)
    requires |sent| == |targets| && AllUnnumbered(sent, true)
    ensures AllNumbered(sent, targets, true)
    decreases sent, 0
  {
    hide Numbered, Unnumbered;
    if sent != [] {
      AnyTarget(sent[0], targets[0]);
      AnyTargets(sent[1..], targets[1..]);
    }
  }

  lemma {:induction false} AnyEntries(sent: seq<GoEntry>)
    requires EntriesUnnumbered(sent, true)
    ensures EntriesNumbered(sent, true)
    decreases sent, 0
  {
    hide Numbered, Unnumbered;
    if sent != [] {
      AnyTarget(sent[0].val, Zero);
      AnyEntries(sent[1..]);
    }
  }

  /** Every `RawExtension` in the values of a map has the number 0. */
  predicate MapsFresh(v: GoVal)
    decreases v, 1
  {
    match v
    case PtrTo(w) => MapsFresh(w)
    case Sl(els, _) => AllMapsFresh(els)
    case Arr(els) => AllMapsFresh(els)
    case Mp(es) => EntriesNumbered(es, true)
    case Rec(fs) => AllMapsFresh(fs)
    case _ => true
  }

  predicate AllMapsFresh(vs: seq<GoVal>)
    decreases vs, 0
  {
    vs != [] ==> MapsFresh(vs[0]) && AllMapsFresh(vs[1..])
  }

  /** A value read back into the variable it came from is restored exactly if every extension in
      its maps has the number 0: slices keep their elements as targets, pointers what they point
      to and structs their fields; maps start afresh. */
  lemma {:induction false} OwnTarget(v: GoVal)
    ensures Numbered(v, v, true) <==> MapsFresh(v)
    decreases v, 1
  {
    hide AllNumbered, EntriesNumbered, AllMapsFresh;
    match v
    case PtrTo(w) => OwnTarget(w);
    case Sl(els, spare) =>
      assert (els + spare)[..|els|] == els;
      OwnTargets(els);
    case Arr(els) => OwnTargets(els);
    case Rec(fs) => OwnTargets(fs);
    case _ =>
  }

  lemma {:induction false} OwnTargets(vs: seq<GoVal>)
    ensures AllNumbered(vs, vs, true) <==> AllMapsFresh(vs)
    decreases vs, 0
  {
    hide Numbered, MapsFresh;
    if vs != [] {
      OwnTarget(vs[0]);
      OwnTargets(vs[1..]);
    }
  }

  lemma RestoredExactly(v: GoVal)
    ensures var r := Received(v, v);
      r.Ok? && Strip(r.value) == Seen(v) <==> MapsFresh(v)
  {
    OwnTarget(v);
    ReceivedExactly(v, v);
  }

  /** With enough capacity a slice is resized in place: its elements and those behind them stay
      where they are, stale ones included. Without, and from nil, every element is new. */
  lemma ResizedInPlace(els: seq<GoVal>, spare: seq<GoVal>, n: nat, i: nat)
    ensures var r := Resize(Sl(els, spare), n);
      if n <= |els| + |spare| then
        r.els + r.spare == els + spare && (i < n ==> r.els[i] == if i < |els| then els[i] else spare[i - |els|])
      else r.spare == [] && (i < n ==> r.els[i] == Zero)
    ensures !(n > 0 && i < n) || Resize(Zero, n).els[i] == Zero
  {
  }

  /** A zero value has zero fields, elements and pointees, all of the number 0: it takes exactly
      the values whose every `RawExtension` has that number or no data. */
  lemma {:induction false} FreshTarget(sent: GoVal)
    ensures Received(sent, Zero).Ok? <==> Unnumbered(sent, false)
    decreases sent, 1
  {
    match sent
    case PtrTo(w) => if NilCoded(w) { NilIsUnnumbered(w); } else { FreshTarget(w); }
    case Sl(els, _) => FreshTargets(els);
    case Arr(els) => FreshTargets(els);
    case Mp(es) => FreshEntries(es);
    case Rec(fs) => FreshTargets(fs);
    case _ =>
  }

  lemma {:induction false} NilIsUnnumbered(v: GoVal)
    requires NilCoded(v)
    ensures Unnumbered(v, false)
  {
    if v.PtrTo? { NilIsUnnumbered(v.to); }
  }

  lemma {:induction false} FreshTargets(sent: seq<GoVal>)
    ensures ReceivedAll(sent, seq(|sent|, _ => Zero)).Ok? <==> AllUnnumbered(sent, false)
    decreases sent, 0
  {
    hide Received, Unnumbered;
    if sent != [] {
      assert seq(|sent|, _ => Zero)[1..] == seq(|sent[1..]|, _ => Zero);
      FreshTarget(sent[0]);
      FreshTargets(sent[1..]);
    }
  }

  lemma {:induction false} FreshEntries(sent: seq<GoEntry>)
    ensures ReceivedEntries(sent).Ok? <==> EntriesUnnumbered(sent, false)
    decreases sent, 0
  {
    hide Received, Unnumbered;
    if sent != [] {
      FreshTarget(sent[0].val);
      FreshEntries(sent[1..]);
    }
  }

  /** The failing value: an extension of type 7 in the field of a new struct. With data it is
      refused, without data its number is lost. */
  lemma FreshReceives()
    ensures Received(Rec([Raw(7, [1])]), Zero) == Err(ExtensionTypeError(7, 0))
    ensures Received(Rec([Raw(7, [])]), Zero) == Ok(Rec([Raw(0, [])]))
  {
    OneField(Raw(7, [1]));
    OneField(Raw(7, []));
  }

  lemma OneField(v: GoVal)
    ensures var got := Received(v, Zero);
      Received(Rec([v]), Zero) == if got.Ok? then Ok(Rec([got.value])) else Err(got.error)
  {
    hide ReceivedAll;
    assert Expand(Zero, 1) == [Zero];
    OneReceived(v);
  }

  lemma OneReceived(v: GoVal)
    ensures var got := Received(v, Zero);
      ReceivedAll([v], [Zero]) == if got.Ok? then Ok([got.value]) else Err(got.error)
  {
    hide Received;
    var got := Received(v, Zero);
    assert [v][1..] == [] && [Zero][1..] == [];
    assert ReceivedAll([v][1..], [Zero][1..]) == Ok([]);
    if got.Ok? { assert [got.value] + [] == [got.value]; }
  }
}
