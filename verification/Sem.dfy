/**
 * A device tree up to the order of properties and of siblings: which path of node names leads to
 * a node, and which value each property there has.
 */
module Sem {
  import opened Bytes
  import opened Tree
  import opened Positions
  import opened Edits
  import opened Merge

  type Path = seq<Str>

  function KidAt(b: Forest, n: Str): (k: Option<Forest>)
    ensures k.Some? ==> FSize(k.value) < FSize(b)
  {
    match b
    case Nil => None
    case SubF(m, k, r) => if m == n then Some(k) else KidAt(r, n)
    case _ => KidAt(b.rest, n)
  }

  /** What the node at path p below b contains. */
  function NodeAt(b: Forest, p: Path): Option<Forest>
    decreases |p|
  {
    if p == [] then Some(b) else
      match KidAt(b, p[0])
      case None => None
      case Some(k) => NodeAt(k, p[1..])
  }

  function Data(b: Forest, x: Str): Option<Str> {
    if HasProp(b, x) then Some(PropData(b, x)) else None
  }

  /** The value of property x of the node at path p below b. */
  function ValueAt(b: Forest, p: Path, x: Str): Option<Str> {
    match NodeAt(b, p)
    case None => None
    case Some(k) => Data(k, x)
  }

  /** b and c have the same nodes and properties, in any order. */
  ghost predicate Same(b: Forest, c: Forest) {
    forall p, x :: NodeAt(b, p).Some? == NodeAt(c, p).Some? && ValueAt(b, p, x) == ValueAt(c, p, x)
  }

  /** No two siblings and no two properties of a node share a name. */
  ghost predicate Uniq(b: Forest) {
    match b
    case Nil => true
    case NopF(r) => Uniq(r)
    case PropF(n, _, r) => !HasProp(r, n) && Uniq(r)
    case SubF(n, k, r) => KidAt(r, n) == None && Uniq(k) && Uniq(r)
  }

  /** Every node name below b is in s. */
  ghost predicate NamesIn(b: Forest, s: set<Str>) {
    match b
    case Nil => true
    case SubF(n, k, r) => n in s && NamesIn(k, s) && NamesIn(r, s)
    case _ => NamesIn(b.rest, s)
  }

  /** Leaving out a unit address never makes one name of s stand for another. */
  ghost predicate Exact(s: set<Str>) {
    forall m, n | m in s && n in s && NodeNameEq(m, n) :: m == n
  }

  // ----- Names that stand for others -----

  /** The name of the subnode that a look-up of n finds, or n itself if there is none. */
  function Meant(b: Forest, n: Str): Str {
    if HasSub(b, n) then SubName(b, n) else n
  }

  function KidOrNil(b: Forest, n: Str): Forest {
    match KidAt(b, n)
    case Some(k) => k
    case None => Nil
  }

  /** Where below b a path of names leads, each name looked up as libfdt does. */
  function Into(b: Forest, r: Path): (p: Path)
    ensures |p| == |r|
    decreases |r|
  {
    if r == [] then [] else
      var m := Meant(b, r[0]);
      [m] + Into(KidOrNil(b, m), r[1..])
  }

  /** o with every node name exchanged for the one it stands for in b. */
  function Canon(b: Forest, o: Forest): Forest
    decreases o
  {
    match o
    case Nil => Nil
    case NopF(r) => NopF(Canon(b, r))
    case PropF(n, d, r) => PropF(n, d, Canon(b, r))
    case SubF(n, k, r) => SubF(Meant(b, n), Canon(KidOrNil(b, Meant(b, n)), k), Canon(b, r))
  }

  lemma {:induction false} SubIsMeant(b: Forest, n: Str)
    ensures HasSub(b, n) ==> KidAt(b, Meant(b, n)) == Some(SubBody(b, n)) && NodeNameEq(Meant(b, n), n)
    ensures !HasSub(b, n) ==> KidAt(b, n) == None && Meant(b, n) == n
    ensures KidOrNil(b, Meant(b, n)) == if HasSub(b, n) then SubBody(b, n) else Nil
  {
    match b
    case Nil =>
    case SubF(m, k, r) =>
      assert NodeNameEq(n, n);
      if !NodeNameEq(m, n) {
        SubIsMeant(r, n);
      }
    case _ => SubIsMeant(b.rest, n);
  }

  lemma {:induction false} PutSubMeant(b: Forest, n: Str, k: Forest, m: Str)
    requires HasSub(b, n)
    ensures KidAt(PutSub(b, n, k), m) == if m == Meant(b, n) then Some(k) else KidAt(b, m)
    ensures Meant(PutSub(b, n, k), m) == Meant(b, m) && HasSub(PutSub(b, n, k), m) == HasSub(b, m)
  {
    match b
    case SubF(l, j, r) => if !NodeNameEq(l, n) { PutSubMeant(r, n, k, m); SubIsMeant(r, n); }
    case NopF(r) => PutSubMeant(r, n, k, m);
    case PropF(_, _, r) => PutSubMeant(r, n, k, m);
  }

  lemma {:induction false} AddSubMeant(b: Forest, n: Str, m: Str)
    ensures KidAt(AddSub(b, n), m) == if m == n then Some(Nil) else KidAt(b, m)
    ensures HasSub(AddSub(b, n), m) == (NodeNameEq(n, m) || HasSub(b, m))
    ensures Meant(AddSub(b, n), m) == if NodeNameEq(n, m) then n else Meant(b, m)
  {
    match b
    case NopF(r) => AddSubMeant(r, n, m);
    case PropF(_, _, r) => AddSubMeant(r, n, m);
    case _ =>
  }

  lemma {:induction false} PutPropMeant(b: Forest, n: Str, v: Str, m: Str)
    requires HasProp(b, n)
    ensures HasSub(PutProp(b, n, v), m) == HasSub(b, m) && Meant(PutProp(b, n, v), m) == Meant(b, m)
  {
    match b
    case PropF(l, _, r) => if l != n { PutPropMeant(r, n, v, m); }
    case NopF(r) => PutPropMeant(r, n, v, m);
  }

  // ----- Single edits -----

  lemma {:induction false} SubIsKid(b: Forest, n: Str, s: set<Str>)
    requires NamesIn(b, s) && n in s && Exact(s)
    ensures HasSub(b, n) <==> KidAt(b, n).Some?
    ensures HasSub(b, n) ==> SubBody(b, n) == KidAt(b, n).value && NamesIn(SubBody(b, n), s)
  {
    match b
    case Nil =>
    case SubF(m, k, r) =>
      assert NodeNameEq(n, n);
      assert NodeNameEq(m, n) ==> m == n;
      SubIsKid(r, n, s);
    case _ => SubIsKid(b.rest, n, s);
  }

  lemma {:induction false} KidNames(b: Forest, n: Str, s: set<Str>)
    requires NamesIn(b, s)
    ensures KidAt(b, n).Some? ==> n in s && NamesIn(KidAt(b, n).value, s)
  {
    match b
    case Nil =>
    case SubF(m, k, r) => KidNames(r, n, s);
    case _ => KidNames(b.rest, n, s);
  }

  lemma {:induction false} PutSubKids(b: Forest, n: Str, k: Forest, s: set<Str>, m: Str)
    requires NamesIn(b, s) && n in s && Exact(s) && HasSub(b, n) && NamesIn(k, s)
    ensures KidAt(PutSub(b, n, k), m) == if m == n then Some(k) else KidAt(b, m)
    ensures NamesIn(PutSub(b, n, k), s)
  {
    match b
    case SubF(l, j, r) =>
      assert NodeNameEq(l, n) ==> l == n;
      assert NodeNameEq(n, n);
      if l != n {
        PutSubKids(r, n, k, s, m);
      }
    case NopF(r) => PutSubKids(r, n, k, s, m);
    case PropF(_, _, r) => PutSubKids(r, n, k, s, m);
  }

  lemma {:induction false} AddSubKids(b: Forest, n: Str, s: set<Str>, m: Str)
    requires NamesIn(b, s) && n in s && !HasSub(b, n)
    ensures KidAt(AddSub(b, n), m) == if m == n then Some(Nil) else KidAt(b, m)
    ensures NamesIn(AddSub(b, n), s)
  {
    match b
    case NopF(r) => AddSubKids(r, n, s, m);
    case PropF(_, _, r) => AddSubKids(r, n, s, m);
    case _ =>
  }

  lemma {:induction false} SubsKeepData(b: Forest, n: Str, k: Forest, x: Str)
    ensures Data(AddSub(b, n), x) == Data(b, x)
    ensures HasSub(b, n) ==> Data(PutSub(b, n, k), x) == Data(b, x)
  {
    match b
    case NopF(r) => SubsKeepData(r, n, k, x);
    case PropF(_, _, r) => SubsKeepData(r, n, k, x);
    case _ =>
  }

  lemma {:induction false} PutPropData(b: Forest, n: Str, v: Str, x: Str)
    requires HasProp(b, n)
    ensures Data(PutProp(b, n, v), x) == if x == n then Some(v) else Data(b, x)
  {
    match b
    case PropF(m, _, r) => if m != n { PutPropData(r, n, v, x); }
    case NopF(r) => PutPropData(r, n, v, x);
  }

  lemma SetPropData(b: Forest, n: Str, v: Str, x: Str)
    ensures Data(SetProp(b, n, v), x) == if x == n then Some(v) else Data(b, x)
  {
    if HasProp(b, n) {
      PutPropData(b, n, v, x);
    }
  }

  lemma {:induction false} PutPropKids(b: Forest, n: Str, v: Str, m: Str, s: set<Str>)
    requires HasProp(b, n)
    ensures KidAt(PutProp(b, n, v), m) == KidAt(b, m)
    ensures NamesIn(b, s) ==> NamesIn(PutProp(b, n, v), s)
  {
    match b
    case PropF(l, _, r) => if l != n { PutPropKids(r, n, v, m, s); }
    case NopF(r) => PutPropKids(r, n, v, m, s);
  }

  lemma SetPropKids(b: Forest, n: Str, v: Str, m: Str, s: set<Str>)
    ensures KidAt(SetProp(b, n, v), m) == KidAt(b, m)
    ensures NamesIn(b, s) ==> NamesIn(SetProp(b, n, v), s)
  {
    if HasProp(b, n) {
      PutPropKids(b, n, v, m, s);
    }
  }

  // ----- The merge -----

  lemma {:induction false} ApplyPropsData(b: Forest, o: Forest, x: Str)
    requires Uniq(o)
    ensures Data(ApplyProps(b, o), x) == match Data(o, x) case Some(d) => Some(d) case None => Data(b, x)
    decreases o
  {
    match o
    case PropF(n, d, r) =>
      ApplyPropsData(SetProp(b, n, d), r, x);
      SetPropData(b, n, d, x);
    case NopF(r) => ApplyPropsData(b, r, x);
    case _ =>
  }

  lemma {:induction false} ApplyPropsKids(b: Forest, o: Forest, m: Str, s: set<Str>)
    ensures KidAt(ApplyProps(b, o), m) == KidAt(b, m)
    ensures NamesIn(b, s) ==> NamesIn(ApplyProps(b, o), s)
    decreases o
  {
    match o
    case PropF(n, d, r) =>
      ApplyPropsKids(SetProp(b, n, d), r, m, s);
      SetPropKids(b, n, d, m, s);
    case NopF(r) => ApplyPropsKids(b, r, m, s);
    case _ =>
  }

  lemma WithSubKids(b: Forest, n: Str, s: set<Str>, m: Str, x: Str)
    requires NamesIn(b, s) && n in s && Exact(s)
    ensures var w := WithSub(b, n);
            && KidAt(w, m) == (if m == n then Some(KidOrNil(b, n)) else KidAt(b, m))
            && NamesIn(w, s) && Data(w, x) == Data(b, x)
            && SubBody(w, n) == KidOrNil(b, n) && NamesIn(KidOrNil(b, n), s)
  {
    SubIsKid(b, n, s);
    SubsKeepData(b, n, Nil, x);
    if !HasSub(b, n) {
      AddSubKids(b, n, s, m);
      AddSubKids(b, n, s, n);
    }
    SubIsKid(WithSub(b, n), n, s);
  }

  lemma {:induction false} ApplyNames(b: Forest, o: Forest, s: set<Str>)
    requires NamesIn(b, s) && NamesIn(o, s) && Exact(s)
    ensures NamesIn(Apply(b, o), s)
    decreases o, 1
  {
    ApplyPropsKids(b, o, [], s);
    ApplySubsNames(ApplyProps(b, o), o, s);
  }

  lemma {:induction false} ApplySubsNames(b: Forest, o: Forest, s: set<Str>)
    requires NamesIn(b, s) && NamesIn(o, s) && Exact(s)
    ensures NamesIn(ApplySubs(b, o), s)
    decreases o, 0
  {
    match o
    case Nil =>
    case SubF(n, k, r) =>
      WithSubKids(b, n, s, n, []);
      var w := WithSub(b, n);
      ApplyNames(SubBody(w, n), k, s);
      PutSubKids(w, n, Apply(SubBody(w, n), k), s, n);
      ApplySubsNames(PutSub(w, n, Apply(SubBody(w, n), k)), r, s);
    case _ => ApplySubsNames(b, o.rest, s);
  }

  lemma {:induction false} ApplyPropsMeant(b: Forest, o: Forest, m: Str)
    ensures Meant(ApplyProps(b, o), m) == Meant(b, m)
    decreases o
  {
    match o
    case PropF(n, d, r) =>
      if HasProp(b, n) {
        PutPropMeant(b, n, d, m);
      }
      ApplyPropsMeant(SetProp(b, n, d), r, m);
    case NopF(r) => ApplyPropsMeant(b, r, m);
    case _ =>
  }

  /** What the subnode of o contains that stands for the subnode m of b. */
  function KidFor(b: Forest, o: Forest, m: Str): Option<Forest> {
    match o
    case Nil => None
    case SubF(n, k, r) => if Meant(b, n) == m then Some(k) else KidFor(b, r, m)
    case _ => KidFor(b, o.rest, m)
  }

  lemma {:induction false} CanonHere(b: Forest, o: Forest, m: Str, x: Str)
    ensures KidAt(Canon(b, o), m) == match KidFor(b, o,
            m) case None => None case Some(k) => Some(Canon(KidOrNil(b, m), k))
    ensures Data(Canon(b, o), x) == Data(o, x)
  {
    match o
    case Nil =>
    case SubF(_, _, r) => CanonHere(b, r, m, x);
    case _ => CanonHere(b, o.rest, m, x);
  }

  lemma {:induction false} NilAt(p: Path, x: Str)
    ensures p != [] ==> NodeAt(Nil, p) == None
    ensures ValueAt(Nil, p, x) == None
    ensures forall s :: NamesIn(Nil, s)
  {
  }

  /** The value that d is overlaid with. */
  function Over(d: Option<Str>, e: Option<Str>): Option<Str> {
    if d.Some? then d else e
  }

  /** What the node at p contains, or nothing. */
  function NodeOr(b: Forest, p: Path): Forest {
    match NodeAt(b, p)
    case Some(k) => k
    case None => Nil
  }

  lemma {:induction false} KidUniq(b: Forest, n: Str)
    requires Uniq(b)
    ensures KidAt(b, n).Some? ==> Uniq(KidAt(b, n).value)
  {
    match b
    case Nil =>
    case SubF(m, k, r) => if m != n { KidUniq(r, n); }
    case _ => KidUniq(b.rest, n);
  }
}
