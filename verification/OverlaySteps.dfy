/** What each step of applying an overlay does to the value at every path. */
module OverlaySteps {
  import opened Bytes
  import opened Tree
  import opened Positions
  import opened Edits
  import opened Merge
  import opened Sem
  import opened Overlay
  import opened Skeleton

  // ----- Changing one node -----

  lemma {:induction false} PutKidKids(b: Forest, n: Str, k: Forest, m: Str, x: Str, s: set<Str>)
    requires KidAt(b, n).Some?
    ensures KidAt(PutKid(b, n, k), m) == if m == n then Some(k) else KidAt(b, m)
    ensures Data(PutKid(b, n, k), x) == Data(b, x)
    ensures NamesIn(b, s) && NamesIn(k, s) ==> NamesIn(PutKid(b, n, k), s)
  {
    match b
    case SubF(l, _, r) => if l != n { PutKidKids(r, n, k, m, x, s); }
    case NopF(r) => PutKidKids(r, n, k, m, x, s);
    case PropF(_, _, r) => PutKidKids(r, n, k, m, x, s);
  }

  lemma {:induction false} PutAtValue(b: Forest, q: Path, k: Forest, p: Path, x: Str)
    requires NodeAt(b, q).Some?
    ensures NodeAt(PutAt(b, q, k), p).Some? == if q <= p then NodeAt(k, p[|q|..]).Some? else NodeAt(b, p).Some?
    ensures ValueAt(PutAt(b, q, k), p, x) == if q <= p then ValueAt(k, p[|q|..], x) else ValueAt(b, p, x)
    decreases |q|
  {
    if q == [] {
      assert p[|q|..] == p;
    } else {
      var j := KidAt(b, q[0]).value;
      var j' := PutAt(j, q[1..], k);
      PutKidKids(b, q[0], j', if p == [] then q[0] else p[0], x, {});
      if p != [] && p[0] == q[0] {
        PutAtValue(j, q[1..], k, p[1..], x);
        assert q <= p <==> q[1..] <= p[1..];
        assert q <= p ==> p[|q|..] == p[1..][|q[1..]|..];
      }
    }
  }

  lemma {:induction false} PutAtNames(b: Forest, q: Path, k: Forest, s: set<Str>)
    requires NodeAt(b, q).Some? && NamesIn(b, s)
    ensures NamesIn(NodeAt(b, q).value, s)
    ensures NamesIn(k, s) ==> NamesIn(PutAt(b, q, k), s)
    decreases |q|
  {
    if q != [] {
      KidNames(b, q[0], s);
      PutAtNames(KidAt(b, q[0]).value, q[1..], k, s);
      PutKidKids(b, q[0], PutAt(KidAt(b, q[0]).value, q[1..], k), q[0], [], s);
    }
  }

  /** Setting a property that is there changes the value at one path and nothing else. */
  lemma PutPropAt(b: Forest, q: Path, y: Str, d: Str, p: Path, x: Str)
    requires NodeAt(b, q).Some? && HasProp(NodeAt(b, q).value, y)
    ensures var c := PutAt(b, q, PutProp(NodeAt(b, q).value, y, d));
            && NodeAt(c, p).Some? == NodeAt(b, p).Some?
            && ValueAt(c, p, x) == if p == q && x == y then Some(d) else ValueAt(b, p, x)
  {
    var k := NodeAt(b, q).value;
    PutAtValue(b, q, PutProp(k, y, d), p, x);
    if q <= p {
      NodeBelow(b, q, p);
      PutPropBelow(k, y, d, p[|q|..], x);
      assert p == q <==> p[|q|..] == [];
    }
  }

  lemma {:induction false} NodeBelow(b: Forest, q: Path, p: Path)
    requires NodeAt(b, q).Some? && q <= p
    ensures NodeAt(b, p) == NodeAt(NodeAt(b, q).value, p[|q|..])
    decreases |q|
  {
    if q == [] {
      assert p[0..] == p;
    } else {
      NodeBelow(KidAt(b, q[0]).value, q[1..], p[1..]);
      assert p[|q|..] == p[1..][|q[1..]|..];
    }
  }

  lemma PutPropBelow(k: Forest, y: Str, d: Str, p: Path, x: Str)
    requires HasProp(k, y)
    ensures NodeAt(PutProp(k, y, d), p).Some? == NodeAt(k, p).Some?
    ensures ValueAt(PutProp(k, y, d), p, x) == if p == [] && x == y then Some(d) else ValueAt(k, p, x)
  {
    if p == [] {
      PutPropData(k, y, d, x);
    } else {
      PutPropKids(k, y, d, p[0], {});
    }
  }

  // ----- Rewriting -----

  /** The value d of a property after the cells that the list l names, if any, have been passed through g. */
  function Rewritten(d: Option<Str>, l: Option<Str>, g: nat -> nat): Option<Str> {
    if l.None? then d else if d.None? then None else MapCells(d.value, l.value, g)
  }

  lemma {:induction false} RewritePropsHere(t: Forest, fx: Forest, g: nat -> nat, m: Str, x: Str)
    requires RewriteProps(t, fx, g).Ok? && UniqProps(fx)
    ensures var t' := RewriteProps(t, fx, g).v;
            && KidAt(t', m) == KidAt(t, m)
            && Data(t', x) == Rewritten(Data(t, x), Data(fx, x), g)
            && (Data(fx, x).Some? ==> Data(t, x).Some? && Data(t', x).Some? && |Data(fx, x).value| % 4 == 0)
    decreases fx
  {
    match fx
    case PropF(n, l, r) =>
      var d := MapCells(PropData(t, n), l, g).value;
      PutPropKids(t, n, d, m, {});
      PutPropData(t, n, d, x);
      RewritePropsHere(PutProp(t, n, d), r, g, m, x);
    case NopF(r) => RewritePropsHere(t, r, g, m, x);
    case _ =>
  }

  /** No two properties in front of the subnodes share a name. */
  predicate UniqProps(b: Forest) {
    match b
    case PropF(n, _, r) => !HasProp(r, n) && UniqProps(r)
    case NopF(r) => UniqProps(r)
    case _ => true
  }

  lemma {:induction false} CanonProps(b: Forest, o: Forest, x: Str)
    ensures HasProp(Canon(b, o), x) == HasProp(o, x)
    ensures Uniq(Canon(b, o)) ==> UniqProps(o)
    decreases o
  {
    match o
    case Nil =>
    case SubF(_, _, r) => CanonProps(b, r, x);
    case NopF(r) => CanonProps(b, r, x);
    case PropF(n, _, r) =>
      CanonProps(b, r, x);
      CanonProps(b, r, n);
  }

  /** What the rewriting of t makes of its subnode m: c is the content of the fixups' subnode that stands for m. */
  predicate KidRewritten(j: Option<Forest>, j': Option<Forest>, c: Option<Forest>, g: nat -> nat) {
    match c
    case None => j' == j
    case Some(k) => j.Some? && j'.Some? && Rewrite(j.value, k, g) == Ok(j'.value)
  }

  lemma {:induction false} RewriteSubsHere(t: Forest, fx: Forest, g: nat -> nat, m: Str, x: Str)
    requires RewriteSubs(t, fx, g).Ok? && Uniq(Canon(t, fx))
    ensures var t' := RewriteSubs(t, fx, g).v;
            Data(t', x) == Data(t, x) && KidRewritten(KidAt(t, m), KidAt(t', m), KidFor(t, fx, m), g)
    decreases fx, 0
  {
    hide Rewrite, SubBody, HasSub, PutSub, Skel, Meant, Data;
    match fx
    case Nil =>
    case SubF(n, k, r) =>
      var j := Rewrite(SubBody(t, n), k, g).v;
      var t1 := PutSub(t, n, j);
      SubIsMeant(t, n);
      PutSubMeant(t, n, j, m);
      SubsKeepData(t, n, j, x);
      SkelRewrite(SubBody(t, n), k, g);
      SkelPutSub(t, n, j);
      CanonSkel(t1, t, r);
      SkelKidFor(t1, t, r, m);
      CanonHere(t, r, m, x);
      RewriteSubsHere(t1, r, g, m, x);
    case NopF(r) => RewriteSubsHere(t, r, g, m, x);
    case PropF(_, _, r) => RewriteSubsHere(t, r, g, m, x);
  }

  lemma {:induction false} SkelKidFor(a: Forest, b: Forest, o: Forest, m: Str)
    requires Skel(a) == Skel(b)
    ensures KidFor(a, o, m) == KidFor(b, o, m)
    decreases o
  {
    match o
    case Nil =>
    case SubF(n, _, r) =>
      SkelMeant(a, b, n);
      SkelKidFor(a, b, r, m);
    case _ => SkelKidFor(a, b, o.rest, m);
  }

  lemma RewriteHere(t: Forest, fx: Forest, g: nat -> nat, m: Str, x: Str)
    requires Rewrite(t, fx, g).Ok? && Uniq(Canon(t, fx))
    ensures var t' := Rewrite(t, fx, g).v;
            && Data(t', x) == Rewritten(Data(t, x), Data(fx, x), g)
            && (Data(fx, x).Some? ==> Data(t, x).Some? && Data(t', x).Some? && |Data(fx, x).value| % 4 == 0)
            && KidRewritten(KidAt(t, m), KidAt(t', m), KidFor(t, fx, m), g)
    decreases fx, 1
  {
    hide RewriteSubs, RewriteProps, Skel, Data, KidAt, Canon, Uniq, KidFor, MapCells;
    var t1 := RewriteProps(t, fx, g).v;
    CanonProps(t, fx, x);
    RewritePropsHere(t, fx, g, m, x);
    SkelRewriteProps(t, fx, g);
    CanonSkel(t1, t, fx);
    SkelKidFor(t1, t, fx, m);
    RewriteSubsHere(t1, fx, g, m, x);
  }

  /** The value at each path is rewritten by the list that the fixups have for it, if there is one. */
  lemma {:induction false} RewriteAt(t: Forest, fx: Forest, g: nat -> nat, p: Path, x: Str)
    requires Rewrite(t, fx, g).Ok? && Uniq(Canon(t, fx))
    ensures var t' := Rewrite(t, fx, g).v;
            var l := ValueAt(Canon(t, fx), p, x);
            && NodeAt(t', p).Some? == NodeAt(t, p).Some?
            && ValueAt(t', p, x) == Rewritten(ValueAt(t, p, x), l, g)
            && (l.Some? ==> ValueAt(t, p, x).Some? && ValueAt(t', p, x).Some? && |l.value| % 4 == 0)
    decreases |p|
  {
    hide Rewrite, KidAt, Data, MapCells, Canon, Uniq, KidFor;
    var m := if p == [] then [] else p[0];
    RewriteHere(t, fx, g, m, x);
    CanonHere(t, fx, m, x);
    if p != [] && KidFor(t, fx, m).Some? {
      KidUniq(Canon(t, fx), m);
      RewriteAt(KidAt(t, m).value, KidFor(t, fx, m).value, g, p[1..], x);
    }
  }

  // ----- Shifting -----

  predicate IsPhandle(x: Str) {
    x == PHANDLE || x == LINUX_PHANDLE
  }

  lemma AddOffsetHere(b: Forest, y: Str, delta: nat, m: Str, x: Str)
    requires AddOffset(b, y, delta).Ok?
    ensures var c := AddOffset(b, y, delta).v;
            && KidAt(c, m) == KidAt(b, m)
            && Data(c, x) == (if x == y && Data(b, x).Some? then Some(Put32(Get32(Data(b, x).value, 0) + delta))
               else Data(b, x))
            && (Data(b, y).Some? ==> |Data(b, y).value| == 4 && Get32(Data(b, y).value, 0) + delta < U32 - 1)
  {
    if HasProp(b, y) {
      var d := Put32(Get32(PropData(b, y), 0) + delta);
      PutPropData(b, y, d, x);
      PutPropKids(b, y, d, m, {});
    }
  }

  lemma {:induction false} ShiftSubsHere(b: Forest, delta: nat, m: Str, x: Str)
    requires ShiftSubs(b, delta).Ok?
    ensures var c := ShiftSubs(b, delta).v;
            && Data(c, x) == Data(b, x)
            && (KidAt(c, m).Some? == KidAt(b, m).Some?)
            && (KidAt(b, m).Some? ==> Shift(KidAt(b, m).value, delta) == Ok(KidAt(c, m).value))
    decreases FSize(b), 0
  {
    match b
    case Nil =>
    case SubF(n, k, r) =>
      ShiftSubsHere(r, delta, m, x);
    case _ => ShiftSubsHere(b.rest, delta, m, x);
  }

  /** What shifting makes of the value of property x. */
  predicate ShiftsTo(x: Str, d: Option<Str>, e: Option<Str>, delta: nat) {
    match d
    case None => e == None
    case Some(d) =>
      if IsPhandle(x) then |d| == 4 && Get32(d, 0) + delta < U32 - 1 && e == Some(Put32(Get32(d, 0) + delta))
      else e == Some(d)
  }

  lemma ShiftHere(b: Forest, delta: nat, m: Str, x: Str)
    requires Shift(b, delta).Ok?
    ensures var c := Shift(b, delta).v;
            && ShiftsTo(x, Data(b, x), Data(c, x), delta)
            && (KidAt(c, m).Some? == KidAt(b, m).Some?)
            && (KidAt(b, m).Some? ==> Shift(KidAt(b, m).value, delta) == Ok(KidAt(c, m).value))
  {
    hide AddOffset, ShiftSubs, KidAt, Data, Get32, Put32;
    var b1 := AddOffset(b, PHANDLE, delta).v;
    var b2 := AddOffset(b1, LINUX_PHANDLE, delta).v;
    AddOffsetHere(b, PHANDLE, delta, m, x);
    AddOffsetHere(b1, LINUX_PHANDLE, delta, m, x);
    assert PHANDLE != LINUX_PHANDLE by {
      assert |PHANDLE| == 7 && |LINUX_PHANDLE| == 13;
    }
    ShiftSize(b, b1, PHANDLE, delta);
    ShiftSize(b1, b2, LINUX_PHANDLE, delta);
    ShiftSubsHere(b2, delta, m, x);
  }

  /** Shifting adds delta to the phandle properties, which are single cells, and changes no other value. */
  lemma {:induction false} ShiftAt(b: Forest, delta: nat, p: Path, x: Str)
    requires Shift(b, delta).Ok?
    ensures NodeAt(Shift(b, delta).v, p).Some? == NodeAt(b, p).Some?
    ensures ShiftsTo(x, ValueAt(b, p, x), ValueAt(Shift(b, delta).v, p, x), delta)
    decreases |p|
  {
    hide Shift, ShiftsTo, KidAt, Data;
    ShiftHere(b, delta, if p == [] then [] else p[0], x);
    if p == [] {
    } else if KidAt(b, p[0]).Some? {
      ShiftAt(KidAt(b, p[0]).value, delta, p[1..], x);
    } else {
      NothingShifts(x, delta);
    }
  }

  lemma NothingShifts(x: Str, delta: nat)
    ensures ShiftsTo(x, None, None, delta)
  {
  }
}
