/**
 * Names that go on meaning what they meant while a base grows: of the names that are looked up below one node, none may
 * stand for another that the overlay adds there.
 */
module Steady {
  import opened Bytes
  import opened Tree
  import opened Positions
  import opened Edits
  import opened Merge
  import opened Sem
  import opened Writers
  import opened Overlay
  import opened OverlaySteps
  import opened Refs
  import opened Conflicts
  import opened Merged

  /** Names, each with the path of the node below which it is looked up. */
  type Names = iset<(Path, Str)>

  /** The names of N below path t. */
  ghost function Below(N: Names, t: Path): Names {
    iset q: Path, l: Str | (t + q, l) in N :: (q, l)
  }

  /** Each name of N stands for the same subnode of c as of b, if it stands for one. */
  ghost predicate Stable(b: Forest, c: Forest, N: Names) {
    forall p, l | (p, l) in N ::
      Meant(NodeOr(c, p), l) == Meant(NodeOr(b, p), l) && (HasSub(NodeOr(b, p), l) ==> HasSub(NodeOr(c, p), l))
  }

  /** The subnode m is there, or no other name of N that is looked up at path p could stand for it. */
  ghost predicate Harmless(b: Forest, p: Path, m: Str, N: Names) {
    HasSub(NodeOr(b, p), m) || forall l | (p, l) in N && NodeNameEq(m, l) :: l == m
  }

  /** The names of the overlay content o, merged into b, are in N and harmless. */
  ghost predicate Suits(b: Forest, o: Forest, N: Names) {
    forall r, m | NodeAt(o, r + [m]).Some? :: (Into(b, r), m) in N && Harmless(b, Into(b, r), m, N)
  }

  lemma NodeOrBelow(b: Forest, t: Path, p: Path)
    ensures NodeOr(NodeOr(b, t), p) == NodeOr(b, t + p)
  {
    assert (t + p)[|t|..] == p;
    if NodeAt(b, t).Some? {
      NodeBelow(b, t, t + p);
    } else {
      NilAt(p, []);
      NoneBelow(b, t, t + p);
    }
  }

  lemma KidIsOr(b: Forest, m: Str)
    ensures KidOrNil(b, m) == NodeOr(b, [m])
  {
    KidIsNode(b, m);
  }

  lemma RootIsOr(b: Forest)
    ensures NodeOr(b, []) == b
  {
  }

  lemma StableBelow(b: Forest, c: Forest, N: Names, t: Path)
    requires Stable(b, c, N)
    ensures Stable(NodeOr(b, t), NodeOr(c, t), Below(N, t))
  {
    hide Meant, NodeOr, HasSub;
    forall p, l | (p, l) in Below(N, t)
      ensures Meant(NodeOr(NodeOr(c, t), p), l) == Meant(NodeOr(NodeOr(b, t), p), l)
      ensures HasSub(NodeOr(NodeOr(b, t), p), l) ==> HasSub(NodeOr(NodeOr(c, t), p), l)
    {
      NodeOrBelow(b, t, p);
      NodeOrBelow(c, t, p);
    }
  }

  lemma IntoMore(b: Forest, n: Str, r: Path)
    ensures Into(b, [n] + r) == [Meant(b, n)] + Into(KidOrNil(b, Meant(b, n)), r)
  {
    assert ([n] + r)[1..] == r;
  }

  lemma SuitsKid(b: Forest, o: Forest, N: Names, n: Str)
    requires Suits(b, o, N) && KidAt(o, n).Some?
    ensures ([], n) in N && Harmless(b, [], n, N)
    ensures Suits(KidOrNil(b, Meant(b, n)), KidAt(o, n).value, Below(N, [Meant(b, n)]))
  {
    hide Meant, HasSub, NodeOr, KidOrNil, Into;
    var k, m0 := KidAt(o, n).value, Meant(b, n);
    RootInto(b);
    assert [] + [n] == [n];
    KidIsNode(o, n);
    assert NodeAt(o, [] + [n]).Some?;
    KidIsOr(b, m0);
    forall r, m | NodeAt(k, r + [m]).Some?
      ensures (Into(KidOrNil(b, m0), r), m) in Below(N, [m0])
      ensures Harmless(KidOrNil(b, m0), Into(KidOrNil(b, m0), r), m, Below(N, [m0]))
    {
      assert ([n] + r) + [m] == [n] + (r + [m]) && ([n] + (r + [m]))[1..] == r + [m];
      assert NodeAt(o, ([n] + r) + [m]).Some?;
      IntoMore(b, n, r);
      NodeOrBelow(b, [m0], Into(KidOrNil(b, m0), r));
    }
  }

  lemma RootInto(b: Forest)
    ensures Into(b, []) == []
  {
  }

  // ----- One node merged -----

  /** One turn of the loop over the subnodes keeps the names at the node itself, and below all subnodes but its own. */
  lemma KidStable(b: Forest, c: Forest, n: Str, k: Forest, N: Names)
    requires Stable(b, c, N) && ([], n) in N && Harmless(b, [], n, N)
    requires var m := Meant(c, n); Stable(KidOrNil(b, m), Apply(KidOrNil(c, m), k), Below(N, [m]))
    ensures Stable(b, WithKid(c, n, k), N)
  {
    hide Meant, HasSub, WithKid, Apply, KidOrNil, NodeOr, KidAt;
    RootIsOr(b);
    RootIsOr(c);
    var c' := WithKid(c, n, k);
    RootIsOr(c');
    forall p, l | (p, l) in N
      ensures Meant(NodeOr(c', p), l) == Meant(NodeOr(b, p), l)
              && (HasSub(NodeOr(b, p), l) ==> HasSub(NodeOr(c', p), l))
    {
      if p == [] {
        WithKidAt(c, n, k, l, []);
        SubIsMeant(c, n);
      } else {
        WithKidAt(c, n, k, p[0], []);
        KidBelow(b, p);
        KidBelow(c, p);
        KidBelow(c', p);
        if p[0] == Meant(c, n) {
          assert [p[0]] + p[1..] == p;
          assert (p[1..], l) in Below(N, [p[0]]);
        }
        OrNilSame(c, c', p[0], k);
      }
    }
  }

  lemma OrNilSame(c: Forest, c': Forest, m: Str, k: Forest)
    ensures KidAt(c', m) == KidAt(c, m) ==> KidOrNil(c', m) == KidOrNil(c, m)
    ensures KidAt(c', m) == Some(Apply(KidOrNil(c, m), k)) ==> KidOrNil(c', m) == Apply(KidOrNil(c, m), k)
  {
  }

  lemma KidBelow(b: Forest, p: Path)
    requires p != []
    ensures NodeOr(b, p) == NodeOr(KidOrNil(b, p[0]), p[1..])
  {
    KidIsOr(b, p[0]);
    NodeOrBelow(b, [p[0]], p[1..]);
    assert [p[0]] + p[1..] == p;
  }

  lemma PropsStable(b: Forest, c: Forest, o: Forest, N: Names)
    requires Stable(b, c, N)
    ensures Stable(b, ApplyProps(c, o), N)
  {
    hide Meant, HasSub, ApplyProps, NodeOr, KidOrNil;
    var c' := ApplyProps(c, o);
    forall p, l | (p, l) in N
      ensures Meant(NodeOr(c', p), l) == Meant(NodeOr(b, p), l)
              && (HasSub(NodeOr(b, p), l) ==> HasSub(NodeOr(c', p), l))
    {
      if p == [] {
        RootIsOr(c);
        RootIsOr(c');
        PropsKeepKids(c, o, l);
        PropsKeepSubs(c, o, l);
      } else {
        KidBelow(c, p);
        KidBelow(c', p);
        PropsKeepKids(c, o, p[0]);
      }
    }
  }

  lemma {:induction false} PropsKeepSubs(b: Forest, o: Forest, m: Str)
    ensures HasSub(ApplyProps(b, o), m) == HasSub(b, m)
    decreases o
  {
    match o
    case PropF(n, d, r) =>
      if HasProp(b, n) {
        PutPropMeant(b, n, d, m);
      }
      PropsKeepSubs(SetProp(b, n, d), r, m);
    case NopF(r) => PropsKeepSubs(b, r, m);
    case _ =>
  }

  /** Merging keeps what the names of N stand for, and every overlay node goes where its names lead in b. */
  lemma {:induction false} ApplyStable(b: Forest, c: Forest, o: Forest, N: Names, r: Path)
    requires Stable(b, c, N) && Suits(b, o, N) && Uniq(o)
    ensures Stable(b, Apply(c, o), N)
    ensures NodeAt(o, r).Some? ==> Went(c, o, r) == Into(b, r)
    decreases o, 1
  {
    hide Stable, Suits, ApplyProps, Into;
    PropsStable(b, c, o, N);
    RootInto(b);
    SubsStable(b, ApplyProps(c, o), o, o, N, r);
  }

  /** o is what is left of whole. */
  lemma {:induction false} SubsStable(b: Forest, c: Forest, whole: Forest, o: Forest, N: Names, r: Path)
    requires Stable(b, c, N) && Suits(b, whole, N) && Uniq(o)
    requires forall n | KidAt(o, n).Some? :: KidAt(whole, n) == KidAt(o, n)
    ensures Stable(b, ApplySubs(c, o), N)
    ensures r != [] && NodeAt(o, r).Some? ==> WentSubs(c, o, r) == Into(b, r)
    decreases o, 0
  {
    hide Stable, Suits, Apply, WithKid, Meant, KidOrNil, Went, Into, ApplySubs, Harmless;
    match o
    case Nil => SubsNothing(c, whole, o, [[]], []);
    case SubF(n, k, rest) =>
      assert KidAt(o, n) == Some(k) && forall m | KidAt(rest, m).Some? :: m != n && KidAt(o, m) == KidAt(rest, m);
      SuitsKid(b, whole, N, n);
      StableHere(b, c, N, n);
      var m := Meant(b, n);
      KidIsOr(b, m);
      KidIsOr(c, m);
      StableBelow(b, c, N, [m]);
      var q := if r == [] then [] else r[1..];
      ApplyStable(KidOrNil(b, m), KidOrNil(c, m), k, Below(N, [m]), q);
      KidStable(b, c, n, k, N);
      KidStep(c, n, k, rest);
      SubsStable(b, WithKid(c, n, k), whole, rest, N, r);
      if r != [] && r[0] == n {
        assert r == [n] + r[1..];
        IntoMore(b, n, r[1..]);
      }
    case NopF(rest) =>
      SubsNothing(c, whole, o, [[]], []);
      SubsStable(b, c, whole, rest, N, r);
    case PropF(_, _, rest) =>
      SubsNothing(c, whole, o, [[]], []);
      SubsStable(b, c, whole, rest, N, r);
  }

  lemma StableHere(b: Forest, c: Forest, N: Names, n: Str)
    requires Stable(b, c, N) && ([], n) in N
    ensures Meant(c, n) == Meant(b, n) && (HasSub(b, n) ==> HasSub(c, n))
  {
    RootIsOr(b);
    RootIsOr(c);
  }

  // ----- One fragment merged -----

  lemma {:induction false} PutKidMeant(b: Forest, n: Str, k: Forest, m: Str)
    requires KidAt(b, n).Some?
    ensures Meant(PutKid(b, n, k), m) == Meant(b, m) && HasSub(PutKid(b, n, k), m) == HasSub(b, m)
  {
    match b
    case SubF(l, _, r) => if l != n { PutKidMeant(r, n, k, m); }
    case NopF(r) => PutKidMeant(r, n, k, m);
    case PropF(_, _, r) => PutKidMeant(r, n, k, m);
  }

  /** What a name stands for outside the node at t does not depend on what that node contains. */
  lemma {:induction false} PutAtMeant(b: Forest, t: Path, k: Forest, p: Path, n: Str)
    requires NodeAt(b, t).Some?
    ensures t <= p ==> NodeOr(PutAt(b, t, k), p) == NodeOr(k, p[|t|..])
    ensures !(t <= p) ==> Meant(NodeOr(PutAt(b, t, k), p), n) == Meant(NodeOr(b, p), n)
                          && HasSub(NodeOr(PutAt(b, t, k), p), n) == HasSub(NodeOr(b, p), n)
    decreases |t|
  {
    hide Meant, HasSub;
    if t == [] {
      assert p[|t|..] == p;
    } else {
      var j := KidAt(b, t[0]).value;
      var j' := PutAt(j, t[1..], k);
      if p == [] {
        PutKidMeant(b, t[0], j', n);
      } else {
        PutKidKids(b, t[0], j', p[0], [], {});
        if p[0] == t[0] {
          PutAtMeant(j, t[1..], k, p[1..], n);
          assert t <= p <==> t[1..] <= p[1..];
          assert t <= p ==> p[|t|..] == p[1..][|t[1..]|..];
        }
      }
    }
  }

  lemma MergeStable(b: Forest, c: Forest, t: Path, ov: Forest, N: Names)
    requires Stable(b, c, N) && NodeAt(c, t).Some? && Suits(NodeOr(b, t), ov, Below(N, t)) && Uniq(ov)
    ensures Stable(b, MergeIn(c, t, ov), N)
  {
    hide Meant, HasSub, NodeOr, Apply, PutAt, Suits, Below;
    var j := NodeAt(c, t).value;
    assert NodeOr(c, t) == j by { OrSome(c, t); }
    StableBelow(b, c, N, t);
    ApplyStable(NodeOr(b, t), j, ov, Below(N, t), []);
    forall p, l | (p, l) in N
      ensures Meant(NodeOr(MergeIn(c, t, ov), p), l) == Meant(NodeOr(b, p), l)
      ensures HasSub(NodeOr(b, p), l) ==> HasSub(NodeOr(MergeIn(c, t, ov), p), l)
    {
      PutAtMeant(c, t, Apply(j, ov), p, l);
      if t <= p {
        assert t + p[|t|..] == p;
        NodeOrBelow(b, t, p[|t|..]);
        InBelow(N, t, p[|t|..], l);
      }
    }
  }

  lemma OrSome(c: Forest, t: Path)
    requires NodeAt(c, t).Some?
    ensures NodeOr(c, t) == NodeAt(c, t).value
  {
  }

  lemma InBelow(N: Names, t: Path, q: Path, l: Str)
    ensures (q, l) in Below(N, t) <==> (t + q, l) in N
  {
  }

  /** Where the nodes of a fragment go: where their names lead in b. */
  lemma MergeWent(b: Forest, c: Forest, t: Path, ov: Forest, N: Names, r: Path)
    requires Stable(b, c, N) && NodeAt(c, t).Some? && Suits(NodeOr(b, t), ov, Below(N, t)) && Uniq(ov)
             && NodeAt(ov, r).Some?
    ensures Went(NodeAt(c, t).value, ov, r) == Into(NodeOr(b, t), r)
  {
    hide Stable, Suits, Below, Apply, Went, Into, NodeAt;
    OrSome(c, t);
    StableBelow(b, c, N, t);
    ApplyStable(NodeOr(b, t), NodeAt(c, t).value, ov, Below(N, t), r);
  }

  // ----- Paths -----

  /** Each of the names cs, looked up in b one after the other, is in N. */
  ghost predicate Along(b: Forest, cs: seq<Str>, N: Names)
    decreases |cs|
  {
    cs == [] ||
    var m := Meant(b, cs[0]);
    ([], cs[0]) in N && Along(KidOrNil(b, m), cs[1..], Below(N, [m]))
  }

  /** Such names lead in the grown base where they lead in b. */
  lemma {:induction false} StableInto(b: Forest, c: Forest, cs: seq<Str>, N: Names)
    requires Stable(b, c, N) && Along(b, cs, N)
    ensures Into(c, cs) == Into(b, cs)
    decreases |cs|
  {
    hide Meant, KidOrNil, Stable, Below;
    if cs != [] {
      var m := Meant(b, cs[0]);
      StableHere(b, c, N, cs[0]);
      KidIsOr(b, m);
      KidIsOr(c, m);
      StableBelow(b, c, N, [m]);
      StableInto(KidOrNil(b, m), KidOrNil(c, m), cs[1..], Below(N, [m]));
    }
  }

  // ----- Where no name stands for another -----

  /** The names of s, below every node. */
  ghost function Everywhere(s: set<Str>): Names {
    iset p: Path, l: Str | l in s :: (p, l)
  }

  lemma EverywhereBelow(s: set<Str>, t: Path)
    ensures Below(Everywhere(s), t) == Everywhere(s)
  {
    forall e: (Path, Str)
      ensures e in Below(Everywhere(s), t) <==> e in Everywhere(s)
    {
      InBelow(Everywhere(s), t, e.0, e.1);
      InEverywhere(s, e.0, e.1);
      InEverywhere(s, t + e.0, e.1);
      assert e == (e.0, e.1);
    }
  }

  lemma InEverywhere(s: set<Str>, p: Path, l: Str)
    ensures (p, l) in Everywhere(s) <==> l in s
  {
  }

  /** Names none of which stands for another do no harm. */
  lemma ExactSuits(b: Forest, o: Forest, s: set<Str>)
    requires NamesIn(o, s) && Exact(s)
    ensures Suits(b, o, Everywhere(s))
  {
    hide Exact, NamesIn, Into, NodeNameEq;
    forall r, m | NodeAt(o, r + [m]).Some?
      ensures (Into(b, r), m) in Everywhere(s) && Harmless(b, Into(b, r), m, Everywhere(s))
    {
      NodeExtend(o, r, m);
      PutAtNames(o, r, Nil, s);
      KidNames(NodeAt(o, r).value, m, s);
      ExactHarmless(b, Into(b, r), m, s);
    }
  }

  lemma ExactHarmless(b: Forest, p: Path, m: Str, s: set<Str>)
    requires m in s && Exact(s)
    ensures Harmless(b, p, m, Everywhere(s))
  {
  }

  lemma {:induction false} ExactAlong(b: Forest, cs: seq<Str>, s: set<Str>)
    requires forall n | n in cs :: n in s
    ensures Along(b, cs, Everywhere(s))
    decreases |cs|
  {
    hide Meant, Below;
    if cs != [] {
      EverywhereBelow(s, [Meant(b, cs[0])]);
      assert cs[0] in cs && forall n | n in cs[1..] :: n in cs;
      ExactAlong(KidOrNil(b, Meant(b, cs[0])), cs[1..], s);
    }
  }
}
