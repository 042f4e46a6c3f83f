/** Up to the merge, libufdt makes of an unflattened overlay exactly what libfdt makes of the flat one. */
module UfdtSteps {
  import opened Bytes
  import opened Tree
  import opened Encoding
  import opened Positions
  import opened Edits
  import opened Merge
  import opened Sem
  import opened FixupText
  import opened Overlay
  import opened OverlaySteps
  import opened Skeleton
  import opened Refs
  import opened Conflicts
  import opened Lookups
  import opened Ufdt

  // ----- Unflattening -----

  predicate NoProps(b: Forest) {
    match b
    case Nil => true
    case PropF(_, _, _) => false
    case _ => NoProps(b.rest)
  }

  /** In every node the properties come before the subnodes. */
  predicate Ordered(b: Forest) {
    match b
    case Nil => true
    case SubF(_, k, r) => Ordered(k) && NoProps(r) && Ordered(r)
    case _ => Ordered(b.rest)
  }

  /** Every name is one path component. */
  ghost predicate Components(s: set<Str>) {
    forall n | n in s :: Comps(n) == [n]
  }

  lemma {:induction false} StripNoProps(b: Forest, x: Str)
    requires NoProps(b)
    ensures UData(Strip(b), x) == None && Data(b, x) == None
  {
    match b
    case Nil =>
    case SubF(_, _, r) => StripNoProps(r, x);
    case NopF(r) => StripNoProps(r, x);
  }

  lemma {:induction false} StripData(b: Forest, x: Str)
    requires Ordered(b)
    ensures UData(Strip(b), x) == Data(b, x)
  {
    match b
    case Nil =>
    case SubF(_, _, r) => StripNoProps(r, x);
    case NopF(r) => StripData(r, x);
    case PropF(_, _, r) => StripData(r, x);
  }

  lemma {:induction false} StripKid(b: Forest, n: Str)
    ensures KidAt(Strip(b), n) == match KidAt(b, n) case None => None case Some(k) => Some(Strip(k))
    ensures Ordered(b) && KidAt(b, n).Some? ==> Ordered(KidAt(b, n).value)
  {
    match b
    case Nil =>
    case SubF(_, _, r) => StripKid(r, n);
    case _ => StripKid(b.rest, n);
  }

  lemma {:induction false} StripNode(b: Forest, p: Path)
    ensures NodeAt(Strip(b), p) == match NodeAt(b, p) case None => None case Some(k) => Some(Strip(k))
    ensures Ordered(b) && NodeAt(b, p).Some? ==> Ordered(NodeAt(b, p).value)
    decreases |p|
  {
    if p != [] {
      StripKid(b, p[0]);
      if KidAt(b, p[0]).Some? {
        StripNode(KidAt(b, p[0]).value, p[1..]);
      }
    }
  }

  lemma StripValue(b: Forest, p: Path, x: Str)
    requires Ordered(b)
    ensures UValueAt(Strip(b), p, x) == ValueAt(b, p, x)
  {
    StripNode(b, p);
    if NodeAt(b, p).Some? {
      StripData(NodeAt(b, p).value, x);
    }
  }

  lemma {:induction false} StripPutProp(b: Forest, x: Str, d: Str)
    requires HasProp(b, x)
    ensures UData(Strip(b), x) == Some(PropData(b, x)) && Strip(PutProp(b, x, d)) == UPut(Strip(b), x, d)
  {
    match b
    case PropF(n, _, r) => if n != x { StripPutProp(r, x, d); }
    case NopF(r) => StripPutProp(r, x, d);
  }

  lemma {:induction false} StripPutKid(b: Forest, n: Str, k: Forest)
    requires KidAt(b, n).Some?
    ensures KidAt(Strip(b), n).Some? && Strip(PutKid(b, n, k)) == PutKid(Strip(b), n, Strip(k))
  {
    match b
    case SubF(m, _, r) => if m != n { StripPutKid(r, n, k); }
    case NopF(r) => StripPutKid(r, n, k);
    case PropF(_, _, r) => StripPutKid(r, n, k);
  }

  lemma {:induction false} StripPutAt(b: Forest, p: Path, k: Forest)
    requires NodeAt(b, p).Some?
    ensures NodeAt(Strip(b), p).Some? && Strip(PutAt(b, p, k)) == PutAt(Strip(b), p, Strip(k))
    decreases |p|
  {
    if p != [] {
      var j := KidAt(b, p[0]).value;
      StripKid(b, p[0]);
      StripPutAt(j, p[1..], k);
      StripPutKid(b, p[0], PutAt(j, p[1..], k));
    }
  }

  lemma {:induction false} PutSubIsKid(b: Forest, n: Str, k: Forest, s: set<Str>)
    requires NamesIn(b, s) && n in s && Exact(s) && HasSub(b, n)
    ensures KidAt(b, n).Some? && PutSub(b, n, k) == PutKid(b, n, k)
  {
    match b
    case SubF(m, _, r) =>
      assert NodeNameEq(n, n);
      if m != n { PutSubIsKid(r, n, k, s); }
    case NopF(r) => PutSubIsKid(r, n, k, s);
    case PropF(_, _, r) => PutSubIsKid(r, n, k, s);
  }

  lemma {:induction false} SkelOrdered(a: Forest, b: Forest)
    requires Skel(a) == Skel(b)
    ensures NoProps(a) == NoProps(b) && Ordered(a) == Ordered(b)
  {
    match a
    case Nil =>
    case SubF(_, k, r) =>
      SkelOrdered(k, b.body);
      SkelOrdered(r, b.rest);
    case NopF(r) => SkelOrdered(r, b.rest);
    case PropF(_, _, r) => SkelOrdered(r, b.rest);
  }

  /** Where no name stands for another, each finds its own node. */
  lemma ExactOwn(b: Forest, n: Str, s: set<Str>)
    requires NamesIn(b, s) && Exact(s) && n in s
    ensures OwnName(b, n)
  {
    if HasSub(b, n) {
      SubNameIs(b, n, s);
    }
  }

  // ----- Phandles -----

  lemma StripPhandle(b: Forest)
    requires Ordered(b)
    ensures UPhandle(Strip(b)) == Phandle(b)
  {
    StripData(b, PHANDLE);
    StripData(b, LINUX_PHANDLE);
  }

  lemma {:induction false} StripMax(b: Forest)
    requires Ordered(b)
    ensures UMaxPhandle(Strip(b)) == MaxPhandle(b)
    decreases b, 1
  {
    StripPhandle(b);
    StripMaxBelow(b);
  }

  lemma {:induction false} StripMaxBelow(b: Forest)
    requires Ordered(b)
    ensures UMaxBelow(Strip(b)) == MaxBelow(b)
    decreases b, 0
  {
    match b
    case Nil =>
    case SubF(_, k, r) =>
      StripMax(k);
      StripMaxBelow(r);
    case _ => StripMaxBelow(b.rest);
  }

  lemma {:induction false} StripPhandlePath(b: Forest, v: nat)
    requires Ordered(b)
    ensures UPhandlePath(Strip(b), v) == PhandlePath(b, v)
    decreases b, 1
  {
    StripPhandle(b);
    StripPhandleBelow(b, v);
  }

  lemma {:induction false} StripPhandleBelow(b: Forest, v: nat)
    requires Ordered(b)
    ensures UPhandleBelow(Strip(b), v) == PhandleBelow(b, v)
    decreases b, 0
  {
    match b
    case Nil =>
    case SubF(_, k, r) =>
      StripPhandlePath(k, v);
      StripPhandleBelow(r, v);
    case _ => StripPhandleBelow(b.rest, v);
  }

  /** A phandle property of the node that is one cell is not zero and is the node's phandle. */
  ghost predicate Honest(b: Forest) {
    forall x | IsPhandle(x) && CellIn(Data(b, x)).Some? :: CellIn(Data(b, x)).value == Phandle(b) != 0
  }

  ghost predicate HonestSubs(b: Forest) {
    match b
    case Nil => true
    case SubF(_, k, r) => Honest(k) && HonestSubs(k) && HonestSubs(r)
    case _ => HonestSubs(b.rest)
  }

  lemma {:induction false} HonestAll(o: Forest, b: Forest)
    requires Uniq(b) && forall p, x :: PhandlesSound(o, p, x)
    requires forall n | KidAt(b, n).Some? :: KidAt(o, n) == KidAt(b, n)
    ensures Honest(o) && HonestSubs(b)
    decreases b
  {
    hide Honest, Phandle, CellIn, Data;
    HonestHere(o);
    match b
    case Nil =>
    case SubF(n, k, r) =>
      assert KidAt(b, n) == Some(k);
      assert forall m | KidAt(r, m).Some? :: m != n && KidAt(b, m) == KidAt(r, m);
      forall p, x
        ensures PhandlesSound(k, p, x)
      {
        assert PhandlesSound(o, [n] + p, x);
        assert ([n] + p)[1..] == p;
      }
      HonestAll(k, k);
      HonestAll(o, r);
    case NopF(r) =>
      assert forall m :: KidAt(b, m) == KidAt(r, m);
      HonestAll(o, r);
    case PropF(_, _, r) =>
      assert forall m :: KidAt(b, m) == KidAt(r, m);
      HonestAll(o, r);
  }

  lemma HonestHere(o: Forest)
    requires forall p, x :: PhandlesSound(o, p, x)
    ensures Honest(o)
  {
    forall x | IsPhandle(x) && CellIn(Data(o, x)).Some?
      ensures CellIn(Data(o, x)).value == Phandle(o) != 0
    {
      assert PhandlesSound(o, [], x);
    }
  }

  lemma {:induction false} PutPropHonest(b: Forest, x: Str, d: Str)
    requires HasProp(b, x)
    ensures HonestSubs(PutProp(b, x, d)) == HonestSubs(b) && NoProps(PutProp(b, x, d)) == NoProps(b)
            && Ordered(PutProp(b, x, d)) == Ordered(b)
  {
    match b
    case PropF(n, _, r) => if n != x { PutPropHonest(r, x, d); }
    case NopF(r) => PutPropHonest(r, x, d);
  }

  lemma IncreaseIs(b: Forest, x: Str, delta: nat)
    requires Ordered(b) && AddOffset(b, x, delta).Ok?
    ensures var c := AddOffset(b, x, delta).v;
            Strip(c) == UIncrease(Strip(b), x, delta) && Ordered(c) && HonestSubs(c) == HonestSubs(b)
  {
    hide Strip, UPut, PutProp, HonestSubs, Ordered, Put32, Get32, UData;
    StripData(b, x);
    if HasProp(b, x) {
      StripPutProp(b, x, Put32(Get32(PropData(b, x), 0) + delta));
      PutPropHonest(b, x, Put32(Get32(PropData(b, x), 0) + delta));
    }
  }

  /** A node without a phandle has no phandle property that could be shifted. */
  lemma NoneShifted(b: Forest, delta: nat)
    requires Honest(b) && Phandle(b) == 0 && Shift(b, delta).Ok?
    ensures AddOffset(b, PHANDLE, delta) == Ok(b) && AddOffset(b, LINUX_PHANDLE, delta) == Ok(b)
  {
    hide Phandle;
    assert IsPhandle(PHANDLE) && IsPhandle(LINUX_PHANDLE);
    assert CellIn(Data(b, PHANDLE)).None? && CellIn(Data(b, LINUX_PHANDLE)).None?;
  }

  lemma {:induction false} ShiftIs(b: Forest, delta: nat)
    requires Ordered(b) && Honest(b) && HonestSubs(b) && Shift(b, delta).Ok?
    ensures Strip(Shift(b, delta).v) == UShift(Strip(b), delta)
    decreases FSize(b), 1
  {
    hide Honest, Strip, UIncrease, AddOffset, Phandle, UPhandle;
    var b1 := AddOffset(b, PHANDLE, delta).v;
    var b2 := AddOffset(b1, LINUX_PHANDLE, delta).v;
    StripPhandle(b);
    if Phandle(b) == 0 {
      NoneShifted(b, delta);
    }
    IncreaseIs(b, PHANDLE, delta);
    IncreaseIs(b1, LINUX_PHANDLE, delta);
    ShiftSize(b, b1, PHANDLE, delta);
    ShiftSize(b1, b2, LINUX_PHANDLE, delta);
    ShiftSubsIs(b2, delta);
  }

  lemma {:induction false} ShiftSubsIs(b: Forest, delta: nat)
    requires Ordered(b) && HonestSubs(b) && ShiftSubs(b, delta).Ok?
    ensures Strip(ShiftSubs(b, delta).v) == UShiftSubs(Strip(b), delta)
    decreases FSize(b), 0
  {
    match b
    case Nil =>
    case SubF(n, k, r) =>
      ShiftIs(k, delta);
      ShiftSubsIs(r, delta);
    case _ => ShiftSubsIs(b.rest, delta);
  }

  lemma AddNothing(b: Forest, x: Str)
    requires AddOffset(b, x, 0).Ok?
    ensures AddOffset(b, x, 0) == Ok(b)
  {
    if HasProp(b, x) {
      var d := PropData(b, x);
      GetPut32(d);
      assert Put32(Get32(d, 0)) == d;
      PutSame(b, x);
    }
  }

  lemma {:induction false} PutSame(b: Forest, x: Str)
    requires HasProp(b, x)
    ensures PutProp(b, x, PropData(b, x)) == b
  {
    match b
    case PropF(n, _, r) => if n != x { PutSame(r, x); }
    case NopF(r) => PutSame(r, x);
  }

  lemma {:induction false} ShiftNothing(b: Forest)
    requires Shift(b, 0).Ok?
    ensures Shift(b, 0) == Ok(b)
    decreases FSize(b), 1
  {
    AddNothing(b, PHANDLE);
    AddNothing(b, LINUX_PHANDLE);
    ShiftSubsNothing(b);
  }

  lemma {:induction false} ShiftSubsNothing(b: Forest)
    requires ShiftSubs(b, 0).Ok?
    ensures ShiftSubs(b, 0) == Ok(b)
    decreases FSize(b), 0
  {
    match b
    case Nil =>
    case SubF(n, k, r) =>
      ShiftNothing(k);
      ShiftSubsNothing(r);
    case _ => ShiftSubsNothing(b.rest);
  }

  // ----- Local references -----

  /** Where libfdt stores inside the value, libufdt stores the same. */
  lemma {:induction false} FixCellsIs(d: Str, l: Str, delta: nat)
    requires MapCells(d, l, Adding(delta)).Some?
    ensures UFixCells(d, l, delta) == Ok(MapCells(d, l, Adding(delta)).value)
    decreases |l|
  {
    if |l| >= 4 {
      var i := Get32(l, 0);
      FixCellsIs(Overwrite(d, i, Put32((Get32(d, i) + delta) % U32)), l[4..], delta);
    }
  }

  lemma {:induction false} LocalPropsIs(t: Forest, fx: Forest, delta: nat)
    requires RewriteProps(t, fx, Adding(delta)).Ok? && Ordered(t) && Ordered(fx)
    ensures ULocalProps(Strip(t), Strip(fx), delta) == Ok(Strip(RewriteProps(t, fx, Adding(delta)).v))
    decreases fx
  {
    match fx
    case Nil =>
    case PropF(n, l, r) =>
      var d := MapCells(PropData(t, n), l, Adding(delta)).value;
      FixCellsIs(PropData(t, n), l, delta);
      StripPutProp(t, n, d);
      PutPropHonest(t, n, d);
      LocalPropsIs(PutProp(t, n, d), r, delta);
    case NopF(r) => LocalPropsIs(t, r, delta);
    case SubF(_, _, r) => LocalNoProps(Strip(t), r, delta);
  }

  lemma {:induction false} LocalNoProps(t: Forest, fx: Forest, delta: nat)
    requires NoProps(fx)
    ensures ULocalProps(t, Strip(fx), delta) == Ok(t)
  {
    match fx
    case Nil =>
    case NopF(r) => LocalNoProps(t, r, delta);
    case SubF(_, _, r) => LocalNoProps(t, r, delta);
  }

  lemma {:induction false} LocalIs(t: Forest, fx: Forest, delta: nat, s: set<Str>)
    requires Rewrite(t, fx, Adding(delta)).Ok? && Ordered(t) && Ordered(fx)
    requires NamesIn(t, s) && NamesIn(fx, s) && Exact(s) && Components(s) && Uniq(fx)
    ensures ULocal(Strip(t), Strip(fx), delta) == Ok(Strip(Rewrite(t, fx, Adding(delta)).v))
    decreases fx, 1
  {
    var t1 := RewriteProps(t, fx, Adding(delta)).v;
    LocalPropsIs(t, fx, delta);
    SkelRewriteProps(t, fx, Adding(delta));
    SkelOrdered(t, t1);
    SkelNames(t, t1, s);
    LocalSubsIs(t1, fx, delta, s);
  }

  lemma OnePath(t: Forest, n: Str, k: Forest)
    requires Comps(n) == [n]
    ensures NodeAt(t, Comps(n)) == KidAt(t, n)
    ensures KidAt(t, n).Some? ==> PutAt(t, Comps(n), k) == PutKid(t, n, k)
  {
    KidIsNode(t, n);
    if KidAt(t, n).Some? {
      assert Comps(n)[1..] == [];
    }
  }

  lemma {:induction false} LocalSubsIs(t: Forest, fx: Forest, delta: nat, s: set<Str>)
    requires RewriteSubs(t, fx, Adding(delta)).Ok? && Ordered(t) && Ordered(fx)
    requires NamesIn(t, s) && NamesIn(fx, s) && Exact(s) && Components(s) && Uniq(fx)
    ensures ULocalSubs(Strip(t), Strip(fx), delta) == Ok(Strip(RewriteSubs(t, fx, Adding(delta)).v))
    decreases fx, 0
  {
    hide NodeNameEq, Exact, PutSub, PutAt, HasSub, SubBody, KidAt, PutKid, Comps;
    match fx
    case Nil =>
    case SubF(n, k, r) =>
      var j := SubBody(t, n);
      var j' := Rewrite(j, k, Adding(delta)).v;
      SubIsKid(t, n, s);
      StripKid(t, n);
      LocalIs(j, k, delta, s);
      PutSubIsKid(t, n, j', s);
      StripPutKid(t, n, j');
      OnePath(Strip(t), n, Strip(j'));
      SkelRewrite(j, k, Adding(delta));
      SkelPutSub(t, n, j');
      SkelOrdered(t, PutSub(t, n, j'));
      SkelNames(t, PutSub(t, n, j'), s);
      LocalSubsIs(PutSub(t, n, j'), r, delta, s);
    case NopF(r) => LocalSubsIs(t, r, delta, s);
    case PropF(_, _, r) => LocalSubsIs(t, r, delta, s);
  }

  // ----- References into the base -----

  /** A path from the root, made of names of s. */
  ghost predicate PlainPath(path: Str, s: set<Str>) {
    path != [] && path[0] == SLASH && forall n | n in Comps(path) :: n in s
  }

  lemma LookupIs(b: Forest, path: Str, s: set<Str>)
    requires NamesIn(b, s) && Exact(s) && PlainPath(path, s)
    ensures Lookup(b, path) == match ULookup(Strip(b), path) case Some(p) => Ok(p) case None => Err(-NOTFOUND)
    ensures Lookup(b, path).Ok? ==> NodeAt(b, Lookup(b, path).v).Some?
  {
    ResolveIs(b, Comps(path), s);
    StripNode(b, Comps(path));
  }

  lemma FixOneIs(o: Forest, e: Fixup, v: nat, s: set<Str>)
    requires v < U32 && FixOne(o, e, v).Ok? && Ordered(o) && NamesIn(o, s) && Exact(s) && PlainPath(e.path, s)
    ensures UFixOne(Strip(o), e, v) == Ok(Strip(FixOne(o, e, v).v)) && Skel(FixOne(o, e, v).v) == Skel(o)
  {
    hide Comps, ULookup, Lookup, PutAt, NodeAt, Strip, Skel, UData, PlainPath;
    LookupIs(o, e.path, s);
    var p := Lookup(o, e.path).v;
    var k := NodeAt(o, p).value;
    var d := Overwrite(PropData(k, e.prop), e.off, Put32(v));
    StripNode(o, p);
    StripPutProp(k, e.prop, d);
    StripPutAt(o, p, PutProp(k, e.prop, d));
    SkelPutProp(k, e.prop, d);
    SkelPutAt(o, p, PutProp(k, e.prop, d));
  }

  lemma {:induction false} FixEachIs(o: Forest, es: seq<Fixup>, v: nat, s: set<Str>)
    requires v < U32 && FixEach(o, es, v).Ok? && Ordered(o) && NamesIn(o, s) && Exact(s)
    requires forall e | e in es :: PlainPath(e.path, s)
    ensures UFixEach(Strip(o), es, v) == Ok(Strip(FixEach(o, es, v).v)) && Skel(FixEach(o, es, v).v) == Skel(o)
    decreases |es|
  {
    if es != [] {
      var o1 := FixOne(o, es[0], v).v;
      assert es[0] in es;
      FixOneIs(o, es[0], v, s);
      SkelOrdered(o, o1);
      SkelNames(o, o1, s);
      FixEachIs(o1, es[1..], v, s);
    }
  }

  lemma {:induction false} FixEachSmall(o: Forest, es: seq<Fixup>, v: nat, e: Fixup)
    requires v < U32 && FixEach(o, es, v).Ok? && e in es
    ensures e.off <= INT_MAX
    decreases |es|
  {
    if e != es[0] {
      FixEachSmall(FixOne(o, es[0], v).v, es[1..], v, e);
    }
  }

  /** A fixups property that libfdt can read and store, libufdt reads and stores alike. */
  lemma EntriesIs(o: Forest, d: Str, v: nat, s: set<Str>)
    requires v < U32 && FixEntries(o, d, v).Ok? && Ordered(o) && NamesIn(o, s) && Exact(s)
    requires FdtEntries(d).Some? ==> forall e | e in FdtEntries(d).value :: PlainPath(e.path, s)
    ensures d != [] && d[|d| - 1] == 0
    ensures UFixEntries(Strip(o), d, v) == Ok(Strip(FixEntries(o, d, v).v)) && Skel(FixEntries(o, d, v).v) == Skel(o)
  {
    hide PlainPath, FixEach, UFixEach, FixEntries, UFixEntries, FdtEntries, UfdtEntries, Exact, Strip, Skel;
    FixEntriesEach(o, d, v);
    forall e | e in FdtEntries(d).value
      ensures e.off <= INT_MAX
    {
      FixEachSmall(o, FdtEntries(d).value, v, e);
    }
    SameEntries(d);
    UFixEntriesEach(Strip(o), d, v);
    FixEachIs(o, FdtEntries(d).value, v, s);
  }

  /** Every symbol of the base stands for a plain path. */
  ghost predicate PlainSymbols(b: Forest, s: set<Str>) {
    SYMBOLS in s && forall y | ValueAt(b, [SYMBOLS], y).Some? :: PlainPath(CStr(ValueAt(b, [SYMBOLS], y).value), s)
  }

  lemma SymbolIs(b: Forest, y: Str, s: set<Str>)
    requires Ordered(b) && Uniq(b) && NamesIn(b, s) && Exact(s) && PlainSymbols(b, s) && SymbolPhandle(b, y).Ok?
    ensures USymbolPhandle(Strip(b), y) == SymbolPhandle(b, y)
  {
    hide Comps, CStr, ULookup, Lookup, NodeAt, Strip, Phandle, UPhandle, PlainPath, UValueAt, ValueAt, Ordered, Uniq;
    assert HasSub(b, SYMBOLS);
    ExactOwn(b, SYMBOLS, s);
    KidValue(b, SYMBOLS, y);
    StripValue(b, [SYMBOLS], y);
    var path := CStr(ValueAt(b, [SYMBOLS], y).value);
    LookupIs(b, path, s);
    StripNode(b, Lookup(b, path).v);
    StripPhandle(NodeAt(b, Lookup(b, path).v).value);
  }

  ghost predicate PlainLabels(fx: Forest, s: set<Str>) {
    forall y | HasProp(fx, y) && FdtEntries(PropData(fx, y)).Some? ::
      forall e | e in FdtEntries(PropData(fx, y)).value :: PlainPath(e.path, s)
  }

  lemma RestPlain(fx: Forest, s: set<Str>)
    requires Uniq(fx) && PlainLabels(fx, s) && (fx.PropF? || fx.NopF?)
    ensures PlainLabels(fx.rest, s)
    ensures fx.PropF? && FdtEntries(fx.data).Some? ==> forall e | e in FdtEntries(fx.data).value :: PlainPath(e.path, s)
  {
    hide PlainPath;
    assert forall z | HasProp(fx.rest, z) :: HasProp(fx, z) && PropData(fx, z) == PropData(fx.rest, z);
    if fx.PropF? {
      assert HasProp(fx, fx.pname) && PropData(fx, fx.pname) == fx.data;
    }
  }

  lemma {:induction false} FixLabelsIs(b: Forest, o: Forest, fx: Forest, s: set<Str>)
    requires FixLabels(b, o, fx).Ok? && Ordered(o) && NamesIn(o, s) && Exact(s)
    requires Ordered(b) && Uniq(b) && NamesIn(b, s) && PlainSymbols(b, s) && Ordered(fx) && Uniq(fx)
             && PlainLabels(fx, s)
    ensures UFixLabels(Strip(b), Strip(o), Strip(fx)) == Ok(Strip(FixLabels(b, o, fx).v))
    decreases fx
  {
    hide PlainPath, PlainSymbols, PlainLabels, FixEntries, UFixEntries, FdtEntries, SymbolPhandle, USymbolPhandle,
      Exact;
    match fx
    case Nil =>
    case PropF(y, d, r) =>
      SymbolIs(b, y, s);
      var v := SymbolPhandle(b, y).v;
      RestPlain(fx, s);
      EntriesIs(o, d, v, s);
      var o1 := FixEntries(o, d, v).v;
      SkelOrdered(o, o1);
      SkelNames(o, o1, s);
      FixLabelsIs(b, o1, r, s);
    case NopF(r) =>
      RestPlain(fx, s);
      FixLabelsIs(b, o, r, s);
    case SubF(_, _, r) => LabelsEnd(Strip(b), Strip(o), r);
  }

  lemma {:induction false} LabelsEnd(b: Forest, o: Forest, fx: Forest)
    requires NoProps(fx)
    ensures UFixLabels(b, o, Strip(fx)) == Ok(o)
  {
    match fx
    case Nil =>
    case NopF(r) => LabelsEnd(b, o, r);
    case SubF(_, _, r) => LabelsEnd(b, o, r);
  }
}
