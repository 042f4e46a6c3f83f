/** The tree without its property values, which nothing done to an overlay before the merge changes. */
module Skeleton {
  import opened Bytes
  import opened Tree
  import opened Positions
  import opened Edits
  import opened Merge
  import opened Sem
  import opened Overlay

  function Skel(b: Forest): Forest {
    match b
    case Nil => Nil
    case NopF(r) => NopF(Skel(r))
    case PropF(n, _, r) => PropF(n, [], Skel(r))
    case SubF(n, k, r) => SubF(n, Skel(k), Skel(r))
  }

  // ----- What the skeleton decides -----

  lemma {:induction false} SkelHas(a: Forest, b: Forest, n: Str)
    requires Skel(a) == Skel(b)
    ensures HasProp(a, n) == HasProp(b, n) && HasSub(a, n) == HasSub(b, n)
    ensures HasSub(a, n) ==> Skel(SubBody(a, n)) == Skel(SubBody(b, n)) && SubName(a, n) == SubName(b, n)
    ensures KidAt(a, n).Some? == KidAt(b, n).Some?
    ensures KidAt(a, n).Some? ==> Skel(KidAt(a, n).value) == Skel(KidAt(b, n).value)
  {
    match a
    case Nil =>
    case SubF(_, _, r) => SkelHas(r, b.rest, n);
    case NopF(r) => SkelHas(r, b.rest, n);
    case PropF(_, _, r) => SkelHas(r, b.rest, n);
  }

  lemma {:induction false} SkelNode(a: Forest, b: Forest, p: Path)
    requires Skel(a) == Skel(b)
    ensures NodeAt(a, p).Some? == NodeAt(b, p).Some?
    ensures NodeAt(a, p).Some? ==> Skel(NodeAt(a, p).value) == Skel(NodeAt(b, p).value)
    decreases |p|
  {
    if p != [] {
      SkelHas(a, b, p[0]);
      if KidAt(a, p[0]).Some? {
        SkelNode(KidAt(a, p[0]).value, KidAt(b, p[0]).value, p[1..]);
      }
    }
  }

  lemma SkelValue(a: Forest, b: Forest, p: Path, x: Str)
    requires Skel(a) == Skel(b)
    ensures ValueAt(a, p, x).Some? == ValueAt(b, p, x).Some?
  {
    SkelNode(a, b, p);
    if NodeAt(a, p).Some? {
      SkelHas(NodeAt(a, p).value, NodeAt(b, p).value, x);
    }
  }

  lemma {:induction false} SkelNames(a: Forest, b: Forest, s: set<Str>)
    requires Skel(a) == Skel(b)
    ensures NamesIn(a, s) == NamesIn(b, s) && Uniq(a) == Uniq(b)
  {
    match a
    case Nil =>
    case SubF(n, k, r) =>
      SkelNames(k, b.body, s);
      SkelNames(r, b.rest, s);
      SkelHas(r, b.rest, n);
    case NopF(r) => SkelNames(r, b.rest, s);
    case PropF(n, _, r) =>
      SkelNames(r, b.rest, s);
      SkelHas(r, b.rest, n);
  }

  lemma {:induction false} SkelResolve(a: Forest, b: Forest, cs: seq<Str>)
    requires Skel(a) == Skel(b)
    ensures Resolve(a, cs) == Resolve(b, cs)
    decreases |cs|
  {
    if cs != [] {
      SkelHas(a, b, cs[0]);
      if HasSub(a, cs[0]) {
        SkelResolve(SubBody(a, cs[0]), SubBody(b, cs[0]), cs[1..]);
      }
    }
  }

  // ----- What keeps it -----

  lemma {:induction false} SkelPutProp(b: Forest, n: Str, d: Str)
    requires HasProp(b, n)
    ensures Skel(PutProp(b, n, d)) == Skel(b)
  {
    match b
    case PropF(m, _, r) => if m != n { SkelPutProp(r, n, d); }
    case NopF(r) => SkelPutProp(r, n, d);
  }

  lemma {:induction false} SkelPutSub(b: Forest, n: Str, k: Forest)
    requires HasSub(b, n) && Skel(k) == Skel(SubBody(b, n))
    ensures Skel(PutSub(b, n, k)) == Skel(b)
  {
    match b
    case SubF(m, _, r) => if !NodeNameEq(m, n) { SkelPutSub(r, n, k); }
    case NopF(r) => SkelPutSub(r, n, k);
    case PropF(_, _, r) => SkelPutSub(r, n, k);
  }

  lemma {:induction false} SkelPutKid(b: Forest, n: Str, k: Forest)
    requires KidAt(b, n).Some? && Skel(k) == Skel(KidAt(b, n).value)
    ensures Skel(PutKid(b, n, k)) == Skel(b)
  {
    match b
    case SubF(m, _, r) => if m != n { SkelPutKid(r, n, k); }
    case NopF(r) => SkelPutKid(r, n, k);
    case PropF(_, _, r) => SkelPutKid(r, n, k);
  }

  lemma {:induction false} SkelPutAt(b: Forest, p: Path, k: Forest)
    requires NodeAt(b, p).Some? && Skel(k) == Skel(NodeAt(b, p).value)
    ensures Skel(PutAt(b, p, k)) == Skel(b)
    decreases |p|
  {
    if p != [] {
      SkelPutAt(KidAt(b, p[0]).value, p[1..], k);
      SkelPutKid(b, p[0], PutAt(KidAt(b, p[0]).value, p[1..], k));
    }
  }

  lemma {:induction false} SkelRewriteProps(t: Forest, fx: Forest, g: nat -> nat)
    requires RewriteProps(t, fx, g).Ok?
    ensures Skel(RewriteProps(t, fx, g).v) == Skel(t)
    decreases fx
  {
    match fx
    case PropF(n, l, r) =>
      SkelPutProp(t, n, MapCells(PropData(t, n), l, g).value);
      SkelRewriteProps(PutProp(t, n, MapCells(PropData(t, n), l, g).value), r, g);
    case NopF(r) => SkelRewriteProps(t, r, g);
    case _ =>
  }

  lemma {:induction false} SkelRewrite(t: Forest, fx: Forest, g: nat -> nat)
    requires Rewrite(t, fx, g).Ok?
    ensures Skel(Rewrite(t, fx, g).v) == Skel(t)
    decreases fx, 1
  {
    SkelRewriteProps(t, fx, g);
    SkelRewriteSubs(RewriteProps(t, fx, g).v, fx, g);
  }

  lemma {:induction false} SkelRewriteSubs(t: Forest, fx: Forest, g: nat -> nat)
    requires RewriteSubs(t, fx, g).Ok?
    ensures Skel(RewriteSubs(t, fx, g).v) == Skel(t)
    decreases fx, 0
  {
    match fx
    case Nil =>
    case SubF(n, k, r) =>
      SkelRewrite(SubBody(t, n), k, g);
      SkelPutSub(t, n, Rewrite(SubBody(t, n), k, g).v);
      SkelRewriteSubs(PutSub(t, n, Rewrite(SubBody(t, n), k, g).v), r, g);
    case _ => SkelRewriteSubs(t, fx.rest, g);
  }

  lemma SkelAddOffset(b: Forest, x: Str, delta: nat)
    requires AddOffset(b, x, delta).Ok?
    ensures Skel(AddOffset(b, x, delta).v) == Skel(b)
  {
    if HasProp(b, x) {
      SkelPutProp(b, x, Put32(Get32(PropData(b, x), 0) + delta));
    }
  }

  lemma {:induction false} SkelShift(b: Forest, delta: nat)
    requires Shift(b, delta).Ok?
    ensures Skel(Shift(b, delta).v) == Skel(b)
    decreases FSize(b), 1
  {
    var b1 := AddOffset(b, PHANDLE, delta).v;
    var b2 := AddOffset(b1, LINUX_PHANDLE, delta).v;
    SkelAddOffset(b, PHANDLE, delta);
    SkelAddOffset(b1, LINUX_PHANDLE, delta);
    ShiftSize(b, b1, PHANDLE, delta);
    ShiftSize(b1, b2, LINUX_PHANDLE, delta);
    SkelShiftSubs(b2, delta);
  }

  lemma {:induction false} SkelShiftSubs(b: Forest, delta: nat)
    requires ShiftSubs(b, delta).Ok?
    ensures Skel(ShiftSubs(b, delta).v) == Skel(b)
    decreases FSize(b), 0
  {
    match b
    case Nil =>
    case SubF(n, k, r) =>
      SkelShift(k, delta);
      SkelShiftSubs(r, delta);
    case _ => SkelShiftSubs(b.rest, delta);
  }

  lemma SkelSetPhandle(b: Forest, v: nat)
    requires v < U32
    ensures Skel(SetPhandle(b, v)) == Skel(b)
  {
    SkelSetCell(b, PHANDLE, v);
    SkelSetCell(SetCell(b, PHANDLE, v), LINUX_PHANDLE, v);
  }

  lemma SkelSetCell(b: Forest, x: Str, v: nat)
    requires v < U32
    ensures Skel(SetCell(b, x, v)) == Skel(b)
  {
    if CellOf(b, x).Some? {
      SkelPutProp(b, x, Put32(v));
    }
  }

  // ----- Names that stand for others -----

  lemma SkelMeant(a: Forest, b: Forest, n: Str)
    requires Skel(a) == Skel(b)
    ensures Meant(a, n) == Meant(b, n) && Skel(KidOrNil(a, n)) == Skel(KidOrNil(b, n))
  {
    SkelHas(a, b, n);
  }

  /** The name of the first subnode of o that stands for the subnode m of b. */
  function NameFor(b: Forest, o: Forest, m: Str): (n: Option<Str>)
    ensures n.Some? ==> KidAt(o, n.value).Some? && Meant(b, n.value) == m
  {
    match o
    case Nil => None
    case SubF(n, _, r) => if Meant(b, n) == m then Some(n) else NameFor(b, r, m)
    case _ => NameFor(b, o.rest, m)
  }

  /** The path in o of what is at path p once each name of o has been exchanged for the one it stands for in b. */
  function Source(b: Forest, o: Forest, p: Path): Option<Path>
    decreases |p|
  {
    if p == [] then Some([]) else
      match NameFor(b, o, p[0])
      case None => None
      case Some(n) =>
        match Source(KidOrNil(b, p[0]), KidAt(o, n).value, p[1..])
        case None => None
        case Some(q) => Some([n] + q)
  }

  lemma {:induction false} SkelNameFor(a: Forest, b: Forest, o: Forest, o': Forest, m: Str)
    requires Skel(a) == Skel(b) && Skel(o) == Skel(o')
    ensures NameFor(a, o, m) == NameFor(b, o', m)
  {
    match o
    case Nil =>
    case SubF(n, _, r) =>
      SkelMeant(a, b, n);
      SkelNameFor(a, b, r, o'.rest, m);
    case NopF(r) => SkelNameFor(a, b, r, o'.rest, m);
    case PropF(_, _, r) => SkelNameFor(a, b, r, o'.rest, m);
  }

  lemma {:induction false} SkelSource(a: Forest, b: Forest, o: Forest, o': Forest, p: Path)
    requires Skel(a) == Skel(b) && Skel(o) == Skel(o')
    ensures Source(a, o, p) == Source(b, o', p)
    decreases |p|
  {
    hide NameFor, KidAt, Meant;
    if p != [] {
      SkelNameFor(a, b, o, o', p[0]);
      SkelMeant(a, b, p[0]);
      if NameFor(a, o, p[0]).Some? {
        var n := NameFor(a, o, p[0]).value;
        SkelHas(o, o', n);
        SkelSource(KidOrNil(a, p[0]), KidOrNil(b, p[0]), KidAt(o, n).value, KidAt(o', n).value, p[1..]);
      }
    }
  }

  lemma {:induction false} NameForKid(b: Forest, o: Forest, m: Str)
    requires Uniq(o)
    ensures KidFor(b, o, m) == match NameFor(b, o, m) case None => None case Some(n) => KidAt(o, n)
  {
    match o
    case Nil =>
    case SubF(n, _, r) => NameForKid(b, r, m);
    case _ => NameForKid(b, o.rest, m);
  }

  /** The renamed tree has the values of the tree. */
  lemma {:induction false} CanonValue(b: Forest, o: Forest, p: Path, x: Str)
    requires Uniq(o)
    ensures ValueAt(Canon(b, o), p, x) == match Source(b, o, p) case None => None case Some(r) => ValueAt(o, r, x)
    decreases |p|
  {
    hide Canon, KidFor, NameFor, KidAt, Data, Uniq, Meant;
    if p == [] {
      CanonHere(b, o, [], x);
    } else {
      CanonHere(b, o, p[0], x);
      NameForKid(b, o, p[0]);
      if NameFor(b, o, p[0]).Some? {
        var n := NameFor(b, o, p[0]).value;
        KidUniq(o, n);
        CanonValue(KidOrNil(b, p[0]), KidAt(o, n).value, p[1..], x);
        var q := Source(KidOrNil(b, p[0]), KidAt(o, n).value, p[1..]);
        if q.Some? {
          assert ([n] + q.value)[1..] == q.value;
        }
      }
    }
  }

  /** Where no two siblings of o stand for one node, each is what stands for its node. */
  lemma {:induction false} OnlyFor(b: Forest, o: Forest, n: Str)
    requires Uniq(Canon(b, o)) && KidAt(o, n).Some?
    ensures KidFor(b, o, Meant(b, n)) == KidAt(o, n)
  {
    match o
    case SubF(l, k, r) =>
      if l != n {
        OnlyFor(b, r, n);
        CanonHere(b, r, Meant(b, l), []);
      }
    case NopF(r) => OnlyFor(b, r, n);
    case PropF(_, _, r) => OnlyFor(b, r, n);
  }

  /** What is at a path of o is, once renamed, where the path leads in b. */
  lemma {:induction false} CanonInto(b: Forest, o: Forest, r: Path, x: Str)
    requires Uniq(Canon(b, o)) && NodeAt(o, r).Some?
    ensures ValueAt(Canon(b, o), Into(b, r), x) == ValueAt(o, r, x)
    decreases |r|
  {
    hide KidAt, Data, Uniq, Canon, Meant, KidFor;
    if r == [] {
      CanonHere(b, o, [], x);
    } else {
      var n := r[0];
      CanonHere(b, o, Meant(b, n), x);
      OnlyFor(b, o, n);
      KidUniq(Canon(b, o), Meant(b, n));
      assert Into(b, r)[1..] == Into(KidOrNil(b, Meant(b, n)), r[1..]);
      CanonInto(KidOrNil(b, Meant(b, n)), KidAt(o, n).value, r[1..], x);
    }
  }

  lemma {:induction false} CanonSkel(a: Forest, b: Forest, o: Forest)
    requires Skel(a) == Skel(b)
    ensures Canon(a, o) == Canon(b, o)
    decreases o
  {
    match o
    case Nil =>
    case SubF(n, k, r) =>
      SkelMeant(a, b, n);
      SkelMeant(a, b, Meant(a, n));
      CanonSkel(KidOrNil(a, Meant(a, n)), KidOrNil(b, Meant(a, n)), k);
      CanonSkel(a, b, r);
    case NopF(r) => CanonSkel(a, b, r);
    case PropF(_, _, r) => CanonSkel(a, b, r);
  }

  /** Two trees with the same names, their values aside, look alike once renamed. */
  lemma {:induction false} SkelCanon(b: Forest, o: Forest, o': Forest)
    requires Skel(o) == Skel(o')
    ensures Skel(Canon(b, o)) == Skel(Canon(b, o'))
    decreases o
  {
    match o
    case Nil =>
    case SubF(n, k, r) =>
      SkelCanon(KidOrNil(b, Meant(b, n)), k, o'.body);
      SkelCanon(b, r, o'.rest);
    case NopF(r) => SkelCanon(b, r, o'.rest);
    case PropF(_, _, r) => SkelCanon(b, r, o'.rest);
  }
}
