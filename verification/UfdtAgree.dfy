/** The two overlay engines give the same tree, up to the order of properties and of subnodes. */
module UfdtAgree {
  import opened Bytes
  import opened Tree
  import opened Encoding
  import opened Positions
  import opened Edits
  import opened Merge
  import opened Sem
  import opened FixupText
  import opened Overlay
  import opened OverlaySteps
  import opened Skeleton
  import opened Refs
  import opened Conflicts
  import opened Lookups
  import opened Merged
  import opened Steady
  import opened OverlayProof
  import opened Targets
  import opened Ufdt
  import opened UfdtSteps

  // ----- merge_children, path by path -----

  lemma {:induction false} AppendHere(b: Forest, e: Forest, n: Str, x: Str)
    ensures KidAt(Append(b, e), n) == if KidAt(b, n).Some? then KidAt(b, n) else KidAt(e, n)
    ensures UData(Append(b, e), x) == Over(UData(b, x), UData(e, x))
  {
    match b
    case Nil =>
    case _ => AppendHere(b.rest, e, n, x);
  }

  lemma {:induction false} UPutHere(b: Forest, y: Str, d: Str, n: Str, x: Str)
    requires UData(b, y).Some?
    ensures KidAt(UPut(b, y, d), n) == KidAt(b, n)
    ensures UData(UPut(b, y, d), x) == if x == y then Some(d) else UData(b, x)
  {
    match b
    case PropF(m, _, r) => if m != y { UPutHere(r, y, d, n, x); }
    case NopF(r) => UPutHere(r, y, d, n, x);
    case SubF(_, _, r) => UPutHere(r, y, d, n, x);
  }

  lemma {:induction false} PutKidHere(b: Forest, m: Str, k: Forest, n: Str, x: Str)
    requires KidAt(b, m).Some?
    ensures KidAt(PutKid(b, m, k), n) == if n == m then Some(k) else KidAt(b, n)
    ensures UData(PutKid(b, m, k), x) == UData(b, x)
  {
    match b
    case SubF(l, _, r) => if l != m { PutKidHere(r, m, k, n, x); }
    case NopF(r) => PutKidHere(r, m, k, n, x);
    case PropF(_, _, r) => PutKidHere(r, m, k, n, x);
  }

  function MergedKid(j: Option<Forest>, k: Option<Forest>): Option<Forest> {
    match k
    case None => j
    case Some(k) => match j case None => Some(k) case Some(j) => Some(UMerge(j, k))
  }

  lemma {:induction false} UMergeHere(a: Forest, b: Forest, n: Str, x: Str)
    requires UUniq(b)
    ensures KidAt(UMerge(a, b), n) == MergedKid(KidAt(a, n), KidAt(b, n))
    ensures UData(UMerge(a, b), x) == Over(UData(b, x), UData(a, x))
    decreases b
  {
    match b
    case Nil =>
    case PropF(m, d, r) =>
      if UData(a, m).Some? {
        UPutHere(a, m, d, n, x);
      } else {
        AppendHere(a, PropF(m, d, Nil), n, x);
      }
      UMergeHere(USetProp(a, m, d), r, n, x);
    case SubF(m, k, r) =>
      match KidAt(a, m) {
        case Some(j) =>
          PutKidHere(a, m, UMerge(j, k), n, x);
          UMergeHere(PutKid(a, m, UMerge(j, k)), r, n, x);
        case None =>
          AppendHere(a, SubF(m, k, Nil), n, x);
          UMergeHere(Append(a, SubF(m, k, Nil)), r, n, x);
      }
    case NopF(r) => UMergeHere(a, r, n, x);
  }

  lemma {:induction false} UKidUniq(b: Forest, n: Str)
    requires UUniq(b)
    ensures KidAt(b, n).Some? ==> UUniq(KidAt(b, n).value)
  {
    match b
    case Nil =>
    case SubF(m, k, r) => if m != n { UKidUniq(r, n); }
    case _ => UKidUniq(b.rest, n);
  }

  /** merge_children has the nodes of both trees, and at each of them the overlay's value before the base's. */
  lemma {:induction false} UMergeAt(a: Forest, b: Forest, p: Path, x: Str)
    requires UUniq(b)
    ensures NodeAt(UMerge(a, b), p).Some? <==> NodeAt(a, p).Some? || NodeAt(b, p).Some?
    ensures UValueAt(UMerge(a, b), p, x) == Over(UValueAt(b, p, x), UValueAt(a, p, x))
    decreases |p|
  {
    hide UMerge, KidAt, UData, UUniq;
    UMergeHere(a, b, if p == [] then [] else p[0], x);
    if p != [] {
      UKidUniq(b, p[0]);
      if KidAt(a, p[0]).Some? && KidAt(b, p[0]).Some? {
        UMergeAt(KidAt(a, p[0]).value, KidAt(b, p[0]).value, p[1..], x);
      }
    }
  }

  lemma {:induction false} StripUniq(b: Forest)
    requires Uniq(b) && Ordered(b)
    ensures UUniq(Strip(b))
  {
    match b
    case Nil =>
    case SubF(n, k, r) =>
      StripUniq(k);
      StripUniq(r);
      StripKid(r, n);
    case NopF(r) => StripUniq(r);
    case PropF(n, _, r) =>
      StripUniq(r);
      StripData(r, n);
  }

  // ----- Writing the tree out -----

  lemma {:induction false} PropsOfHere(b: Forest, n: Str, x: Str)
    ensures KidAt(PropsOf(b), n) == None && UData(PropsOf(b), x) == UData(b, x)
  {
    match b
    case Nil =>
    case _ => PropsOfHere(b.rest, n, x);
  }

  lemma {:induction false} EmitSubsHere(b: Forest, n: Str, x: Str)
    ensures KidAt(EmitSubs(b), n) == match KidAt(b, n) case None => None case Some(k) => Some(Emit(k))
    ensures UData(EmitSubs(b), x) == None && NoProps(EmitSubs(b))
  {
    match b
    case Nil =>
    case _ => EmitSubsHere(b.rest, n, x);
  }

  /** The tree that is written out has the properties of every node before its subnodes. */
  lemma {:induction false} EmitOrdered(b: Forest)
    ensures Ordered(Emit(b))
    decreases b, 2
  {
    EmitSubsOrdered(b);
    EmitPropsOrdered(b, EmitSubs(b));
  }

  lemma {:induction false} NoPropsOf(f: Forest)
    requires NoProps(f)
    ensures PropsOf(Strip(f)) == Nil
  {
    if !f.Nil? {
      NoPropsOf(f.rest);
    }
  }

  /** A tree that lists properties before subnodes is written out as it was read, but for its NOPs. */
  lemma {:induction false} EmitSame(f: Forest)
    requires Ordered(f)
    ensures Emit(Strip(f)) == Strip(f)
    decreases f
  {
    match f
    case Nil =>
    case SubF(_, k, r) =>
      EmitSame(k);
      EmitSame(r);
      NoPropsOf(r);
    case _ => EmitSame(f.rest);
  }

  lemma {:induction false} EmitPropsOrdered(b: Forest, e: Forest)
    requires Ordered(e)
    ensures Ordered(Append(PropsOf(b), e))
    decreases b, 0
  {
    match b
    case Nil =>
    case _ => EmitPropsOrdered(b.rest, e);
  }

  lemma {:induction false} EmitSubsOrdered(b: Forest)
    ensures Ordered(EmitSubs(b))
    decreases b, 1
  {
    match b
    case Nil =>
    case SubF(_, k, r) =>
      EmitOrdered(k);
      EmitSubsOrdered(r);
      EmitSubsHere(r, [], []);
    case _ => EmitSubsOrdered(b.rest);
  }

  lemma {:induction false} OrderedData(b: Forest, x: Str)
    requires Ordered(b)
    ensures UData(b, x) == Data(b, x)
  {
    match b
    case Nil =>
    case SubF(_, _, r) => NoPropsData(r, x);
    case _ => OrderedData(b.rest, x);
  }

  lemma {:induction false} NoPropsData(b: Forest, x: Str)
    requires NoProps(b)
    ensures UData(b, x) == None
  {
    match b
    case Nil =>
    case NopF(r) => NoPropsData(r, x);
    case SubF(_, _, r) => NoPropsData(r, x);
  }

  /** Writing the tree out loses and changes nothing. */
  lemma {:induction false} EmitAt(b: Forest, p: Path, x: Str)
    ensures NodeAt(Emit(b), p).Some? == NodeAt(b, p).Some?
    ensures ValueAt(Emit(b), p, x) == UValueAt(b, p, x)
    decreases |p|
  {
    var n := if p == [] then [] else p[0];
    EmitOrdered(b);
    OrderedData(Emit(b), x);
    PropsOfHere(b, n, x);
    EmitSubsHere(b, n, x);
    AppendHere(PropsOf(b), EmitSubs(b), n, x);
    if p != [] && KidAt(b, n).Some? {
      EmitAt(KidAt(b, n).value, p[1..], x);
    }
  }

  // ----- libfdt's merge, path by path, where no name stands for another -----

  lemma {:induction false} ApplySubsKids(b: Forest, o: Forest, s: set<Str>, m: Str, x: Str)
    requires NamesIn(b, s) && NamesIn(o, s) && Exact(s) && Uniq(o)
    ensures KidAt(ApplySubs(b, o), m) == match KidAt(o, m)
                                         case None => KidAt(b, m)
                                         case Some(k) => Some(Apply(KidOrNil(b, m), k))
    ensures Data(ApplySubs(b, o), x) == Data(b, x)
    decreases o
  {
    match o
    case Nil =>
    case SubF(n, k, r) =>
      WithSubKids(b, n, s, m, x);
      var w := WithSub(b, n);
      var a := Apply(SubBody(w, n), k);
      ApplyNames(SubBody(w, n), k, s);
      PutSubKids(w, n, a, s, m);
      SubsKeepData(w, n, a, x);
      ApplySubsKids(PutSub(w, n, a), r, s, m, x);
    case _ => ApplySubsKids(b, o.rest, s, m, x);
  }

  lemma ApplyHere(b: Forest, o: Forest, s: set<Str>, m: Str, x: Str)
    requires NamesIn(b, s) && NamesIn(o, s) && Exact(s) && Uniq(o)
    ensures KidAt(Apply(b, o), m) == match KidAt(o, m)
                                     case None => KidAt(b, m)
                                     case Some(k) => Some(Apply(KidOrNil(b, m), k))
    ensures Data(Apply(b, o), x) == match Data(o, x) case Some(d) => Some(d) case None => Data(b, x)
  {
    ApplyPropsKids(b, o, m, s);
    ApplyPropsData(b, o, x);
    ApplySubsKids(ApplyProps(b, o), o, s, m, x);
  }

  /** The merge has the nodes of both trees, and at each of them the overlay's value before the base's. */
  lemma {:induction false} ApplyAt(b: Forest, o: Forest, s: set<Str>, p: Path, x: Str)
    requires NamesIn(b, s) && NamesIn(o, s) && Exact(s) && Uniq(o)
    ensures NodeAt(Apply(b, o), p).Some? <==> NodeAt(b, p).Some? || NodeAt(o, p).Some?
    ensures ValueAt(Apply(b, o), p, x) == match ValueAt(o, p, x) case Some(d) => Some(d) case None => ValueAt(b, p, x)
    decreases |p|
  {
    hide Apply, KidAt, Data, NamesIn, Uniq;
    ApplyHere(b, o, s, if p == [] then [] else p[0], x);
    if p != [] {
      var n := p[0];
      KidNames(b, n, s);
      KidNames(o, n, s);
      KidUniq(o, n);
      NilAt(p[1..], x);
      if KidAt(o, n).Some? {
        ApplyAt(KidOrNil(b, n), KidAt(o, n).value, s, p[1..], x);
      }
    }
  }

  // ----- Without conflicts nothing is renamed -----

  /** No overlay node with a phandle is to be merged into a base node with one. */
  ghost predicate NoConflict(b: Forest, o: Forest, goals: Goals) {
    forall n | InFragment(n) && Ph(o, n) != 0 :: Ph(b, Aim(b, goals, n)) == 0
  }

  ghost predicate Disjoint(o: Forest, q: Path, bb: Forest) {
    forall r :: Ph(o, q + r) == 0 || Ph(bb, Into(bb, r)) == 0
  }

  lemma {:induction false} NothingRenamed(o: Forest, q: Path, bb: Forest, shape: Forest)
    requires PreventNode(o, q, bb, shape).Ok? && Disjoint(o, q, bb)
    ensures PreventNode(o, q, bb, shape) == Ok(o)
    decreases shape, 1
  {
    assert q + [] == q && Into(bb, []) == [];
    assert Ph(o, q + []) == 0 || Ph(bb, Into(bb, [])) == 0;
    NoneRenamed(o, q, bb, shape);
  }

  lemma {:induction false} NoneRenamed(o: Forest, q: Path, bb: Forest, shape: Forest)
    requires PreventSubs(o, q, bb, shape).Ok? && Disjoint(o, q, bb)
    ensures PreventSubs(o, q, bb, shape) == Ok(o)
    decreases shape, 0
  {
    hide HasSub, SubBody, Ph, NodeNameEq, Into;
    match shape
    case Nil =>
    case SubF(n, k, r) =>
      if HasSub(bb, n) {
        forall t
          ensures Ph(o, q + [n] + t) == 0 || Ph(SubBody(bb, n), Into(SubBody(bb, n), t)) == 0
        {
          KidPh(bb, n, [n] + t);
          assert ([n] + t)[1..] == t && q + [n] + t == q + ([n] + t);
        }
        NothingRenamed(o, q + [n], SubBody(bb, n), k);
      }
      NoneRenamed(o, q, bb, r);
    case _ => NoneRenamed(o, q, bb, shape.rest);
  }

  ghost predicate DisjointAt(b: Forest, o: Forest, f: Str, t: Path) {
    NodeAt(b, t).Some? ==> Disjoint(o, [f, OVERLAY], NodeAt(b, t).value)
  }

  lemma FragmentKept(b: Forest, o: Forest, f: Str, k: Forest)
    requires PreventFragment(b, o, f, k).Ok? && OwnName(k, OVERLAY)
    requires HasSub(k, OVERLAY) && TargetOf(b, o, f).Ok? ==> DisjointAt(b, o, f, TargetOf(b, o, f).v)
    ensures PreventFragment(b, o, f, k) == Ok(o)
  {
    hide Target, HasSub, SubBody, SubName, PreventNode, NodeAt, Disjoint;
    OwnSub(k, OVERLAY);
    if HasSub(k, OVERLAY) && TargetOf(b, o, f).Ok? {
      NothingRenamed(o, [f, OVERLAY], NodeAt(b, TargetOf(b, o, f).v).value, SubBody(k, OVERLAY));
    }
  }

  lemma {:induction false} NoneExchanged(b: Forest, o: Forest, frags: Forest)
    requires Prevent(b, o, frags).Ok? && Uniq(frags) && AllOwn(frags)
    requires forall f | Foreseen(b, o, frags, f).Ok? :: DisjointAt(b, o, f, Foreseen(b, o, frags, f).v)
    ensures Prevent(b, o, frags) == Ok(o)
    decreases frags
  {
    hide HasSub, PreventFragment, DisjointAt, TargetOf, AllOwn, OwnName;
    match frags
    case Nil =>
    case SubF(f, k, r) =>
      OwnRest(frags);
      ForeseenNot(b, o, r, f);
      assert Foreseen(b, o, frags, f) == if HasSub(k, OVERLAY) then TargetOf(b, o, f) else Err(-NOTFOUND);
      FragmentKept(b, o, f, k);
      assert forall g | g != f :: Foreseen(b, o, frags, g) == Foreseen(b, o, r, g);
      NoneExchanged(b, o, r);
    case NopF(r) =>
      OwnRest(frags);
      assert forall g :: Foreseen(b, o, frags, g) == Foreseen(b, o, r, g);
      NoneExchanged(b, o, r);
    case PropF(_, _, r) =>
      OwnRest(frags);
      assert forall g :: Foreseen(b, o, frags, g) == Foreseen(b, o, r, g);
      NoneExchanged(b, o, r);
  }

  // ----- The merge -----

  /** libufdt's tree c' has the nodes and values of libfdt's tree c. */
  ghost predicate Matching(c: Forest, c': Forest) {
    forall p, x :: NodeAt(c', p).Some? == NodeAt(c, p).Some? && UValueAt(c', p, x) == ValueAt(c, p, x)
  }

  lemma LookupMatching(c: Forest, c': Forest, path: Str, s: set<Str>)
    requires Matching(c, c') && NamesIn(c, s) && Exact(s) && path != [] && path[0] == SLASH
             && forall n | n in Comps(path) :: n in s
    ensures Lookup(c, path) == match ULookup(c', path) case Some(p) => Ok(p) case None => Err(-NOTFOUND)
  {
    hide Comps, Resolve, ValueAt, UValueAt, NodeAt, NamesIn, Exact;
    ResolveIs(c, Comps(path), s);
    assert ValueAt(c, Comps(path), []) == UValueAt(c', Comps(path), []);
  }

  /** Both engines find the target t: libufdt looks phandles up in the base as it was. */
  lemma UTargetIs(b: Forest, c: Forest, c': Forest, k: Forest, t: Path, s: set<Str>)
    requires Matching(c, c') && NamesIn(c, s) && Exact(s) && Ordered(b) && Ordered(k) && Target(c, k) == Ok(t)
    requires CellAims(b, Data(k, TARGET), t)
             || (Data(k, TARGET) == None && Data(k, TARGET_PATH).Some?
                && PlainPath(CStr(Data(k, TARGET_PATH).value), s))
    ensures UTarget(Strip(b), c', Strip(k)) == Ok(t)
  {
    hide Comps, CStr, NodeAt, Strip, UData, HasProp, PropData, PhandlePath, UPhandlePath, NamesIn, Exact, Get32, Lookup,
      ULookup, Matching;
    StripData(k, TARGET);
    StripData(k, TARGET_PATH);
    if HasProp(k, TARGET) {
      StripPhandlePath(b, Get32(PropData(k, TARGET), 0));
    } else {
      LookupMatching(c, c', CStr(PropData(k, TARGET_PATH)), s);
    }
  }

  /** The value of property x at path p below ov, put in at path t. */
  function Part(t: Path, ov: Forest, p: Path, x: Str): Option<Str> {
    if t <= p then ValueAt(ov, p[|t|..], x) else None
  }

  lemma MergedValue(c: Forest, t: Path, ov: Forest, s: set<Str>, p: Path, x: Str)
    requires NodeAt(c, t).Some? && NamesIn(c, s) && NamesIn(ov, s) && Exact(s) && Uniq(ov)
    ensures ValueAt(MergeIn(c, t, ov), p, x) == Over(Part(t, ov, p, x), ValueAt(c, p, x))
    ensures NodeAt(MergeIn(c, t, ov), p).Some? <==> NodeAt(c, p).Some? || (t <= p && NodeAt(ov, p[|t|..]).Some?)
  {
    hide Apply, PutAt, ValueAt, NamesIn, Uniq, Exact, NodeAt;
    var j := NodeAt(c, t).value;
    PutAtValue(c, t, Apply(j, ov), p, x);
    if t <= p {
      PutAtNames(c, t, Nil, s);
      ApplyAt(j, ov, s, p[|t|..], x);
      BelowValue(c, t, p, x);
    }
  }

  lemma UMergedValue(c: Forest, t: Path, ov: Forest, p: Path, x: Str)
    requires NodeAt(c, t).Some? && Uniq(ov) && Ordered(ov)
    ensures var c' := PutAt(c, t, UMerge(NodeAt(c, t).value, Strip(ov)));
            && UValueAt(c', p, x) == Over(Part(t, ov, p, x), UValueAt(c, p, x))
            && (NodeAt(c', p).Some? <==> NodeAt(c, p).Some? || (t <= p && NodeAt(ov, p[|t|..]).Some?))
  {
    hide UMerge, PutAt, Strip, Uniq, UUniq, NodeAt, UData, Data;
    var j := NodeAt(c, t).value;
    UPutAtValue(c, t, UMerge(j, Strip(ov)), p, x);
    StripUniq(ov);
    if t <= p {
      UMergeAt(j, Strip(ov), p[|t|..], x);
      NodeBelow(c, t, p);
      StripValue(ov, p[|t|..], x);
      StripNode(ov, p[|t|..]);
    }
  }

  lemma {:induction false} UPutAtValue(b: Forest, q: Path, k: Forest, p: Path, x: Str)
    requires NodeAt(b, q).Some?
    ensures NodeAt(PutAt(b, q, k), p).Some? == if q <= p then NodeAt(k, p[|q|..]).Some? else NodeAt(b, p).Some?
    ensures UValueAt(PutAt(b, q, k), p, x) == if q <= p then UValueAt(k, p[|q|..], x) else UValueAt(b, p, x)
    decreases |q|
  {
    if q == [] {
      assert p[|q|..] == p;
    } else {
      var j := KidAt(b, q[0]).value;
      var j' := PutAt(j, q[1..], k);
      PutKidHere(b, q[0], j', if p == [] then q[0] else p[0], x);
      if p != [] && p[0] == q[0] {
        UPutAtValue(j, q[1..], k, p[1..], x);
        assert q <= p <==> q[1..] <= p[1..];
        assert q <= p ==> p[|q|..] == p[1..][|q[1..]|..];
      }
    }
  }

  lemma OverlayOrdered(k: Forest)
    requires Ordered(k) && OwnName(k, OVERLAY)
    ensures HasSub(k, OVERLAY) <==> KidAt(Strip(k), OVERLAY).Some?
    ensures HasSub(k, OVERLAY) ==> KidAt(Strip(k), OVERLAY).value == Strip(SubBody(k, OVERLAY))
                                   && Ordered(SubBody(k, OVERLAY))
  {
    OwnSub(k, OVERLAY);
    StripKid(k, OVERLAY);
  }

  lemma MergedNames(c: Forest, t: Path, ov: Forest, s: set<Str>)
    requires NodeAt(c, t).Some? && NamesIn(c, s) && NamesIn(ov, s) && Exact(s)
    ensures NamesIn(MergeIn(c, t, ov), s)
  {
    PutAtNames(c, t, Apply(NodeAt(c, t).value, ov), s);
    ApplyNames(NodeAt(c, t).value, ov, s);
  }

  lemma MergedMatchingAt(c: Forest, c': Forest, t: Path, ov: Forest, s: set<Str>, p: Path, x: Str)
    requires Matching(c, c') && NodeAt(c, t).Some? && NamesIn(c, s) && NamesIn(ov, s) && Exact(s) && Uniq(ov)
             && Ordered(ov)
    ensures NodeAt(c', t).Some?
    ensures var m, m' := MergeIn(c, t, ov), PutAt(c', t, UMerge(NodeAt(c', t).value, Strip(ov)));
            NodeAt(m', p).Some? == NodeAt(m, p).Some? && UValueAt(m', p, x) == ValueAt(m, p, x)
  {
    hide NodeAt, ValueAt, UValueAt, NamesIn, Uniq, Exact, Ordered, UMerge, PutAt, Strip, MergeIn;
    assert NodeAt(c', t).Some? by { assert ValueAt(c, t, []) == UValueAt(c', t, []); }
    assert ValueAt(c, p, x) == UValueAt(c', p, x);
    MergedValue(c, t, ov, s, p, x);
    UMergedValue(c', t, ov, p, x);
  }

  /** Merging the same fragment into like trees gives like trees. */
  lemma MergedMatching(c: Forest, c': Forest, t: Path, ov: Forest, s: set<Str>)
    requires Matching(c, c') && NodeAt(c, t).Some? && NamesIn(c, s) && NamesIn(ov, s) && Exact(s) && Uniq(ov)
             && Ordered(ov)
    ensures NodeAt(c', t).Some? && NamesIn(MergeIn(c, t, ov), s)
    ensures Matching(MergeIn(c, t, ov), PutAt(c', t, UMerge(NodeAt(c', t).value, Strip(ov))))
  {
    hide NodeAt, ValueAt, UValueAt, NamesIn, Uniq, Exact, Ordered, UMerge, PutAt, Strip, MergeIn;
    MergedNames(c, t, ov, s);
    MergedMatchingAt(c, c', t, ov, s, [], []);
    var m, m' := MergeIn(c, t, ov), PutAt(c', t, UMerge(NodeAt(c', t).value, Strip(ov)));
    forall p, x
      ensures NodeAt(m', p).Some? == NodeAt(m, p).Some? && UValueAt(m', p, x) == ValueAt(m, p, x)
    {
      MergedMatchingAt(c, c', t, ov, s, p, x);
    }
    assert Matching(m, m');
  }

  /** The targets of both engines' choice: phandles, or absolute paths of names of s. */
  ghost predicate BothGoal(b: Forest, o: Forest, goals: Goals, s: set<Str>, f: Str)
    requires f in goals
  {
    Pointed(b, o, goals, f) || (ValueAt(o, [f], TARGET) == None && ValueAt(o, [f], TARGET_PATH).Some?
      && PlainPath(TargetPath(o, f), s))
  }

  ghost predicate BothGoals(b: Forest, o: Forest, goals: Goals, s: set<Str>) {
    forall f | NodeAt(o, [f, OVERLAY]).Some? :: f in goals && BothGoal(b, o, goals, s, f)
  }

  lemma FinalGoal(b: Forest, o: Forest, goals: Goals, N: Names, s: set<Str>, f: Str)
    requires Applies(b, o) && Guarded(b, o, goals, N) && BothGoals(b, o, goals, s) && NodeAt(o, [f, OVERLAY]).Some?
    requires KidAt(Final(b, o), f).Some?
    ensures var k := KidAt(Final(b, o), f).value;
            CellAims(b, Data(k, TARGET), goals[f])
            || (Data(k, TARGET) == None && Data(k, TARGET_PATH).Some? && PlainPath(CStr(Data(k, TARGET_PATH).value), s))
  {
    hide Applies, Suits, Final, NodeAt, LabelOf, LabelsAim, Lists, ValueAt, CStr, CellAims, IsPhandle, PlainPath, Leads;
    NotPhandles();
    FinalValue(b, o, f, TARGET, goals[f]);
    NoAim(b, o, f, TARGET_PATH, goals[f]);
    FinalValue(b, o, f, TARGET_PATH, goals[f]);
    KidData(Final(b, o), f, TARGET);
    KidData(Final(b, o), f, TARGET_PATH);
  }

  /** What is known of the two bases when some fragments have been merged. */
  ghost predicate Paired(b: Forest, o: Forest, goals: Goals, N: Names, s: set<Str>, c: Forest, c': Forest) {
    Grown(b, o, goals, N, c) && Matching(c, c') && NamesIn(c, s)
  }

  lemma UStepHolds(b: Forest, o: Forest, goals: Goals, N: Names, s: set<Str>, c: Forest, c': Forest, f: Str, k: Forest)
    requires Applies(b, o) && Guarded(b, o, goals, N) && BothGoals(b, o, goals, s) && NodeAt(o, [f, OVERLAY]).Some?
    requires Exact(s) && Ordered(b) && NamesIn(o, s) && Ordered(k)
    requires c == Before(b, Final(b, o), f) && KidAt(Final(b, o), f) == Some(k) && Paired(b, o, goals, N, s, c, c')
    ensures KidAt(Strip(k), OVERLAY).Some? && UTarget(Strip(b), c', Strip(k)).Ok?
    ensures var t := UTarget(Strip(b), c', Strip(k)).v;
            && NodeAt(c', t).Some?
            && Paired(b, o, goals, N, s, Step(c, k),
               PutAt(c', t, UMerge(NodeAt(c', t).value, KidAt(Strip(k), OVERLAY).value)))
  {
    hide Applies, Guarded, Grown, Matching, NamesIn, Exact, Ordered, BothGoals, Target, HasSub, SubBody, KidAt, NodeAt,
      UTarget, Uniq, Strip, UMerge, PutAt, MergeIn,
      Content, CellAims, PlainPath, OwnName, Before, Final, Suits;
    GuardedGoal(b, o, goals, N, f);
    FragmentGoes(b, o, goals, N, c, f);
    FragmentGrown(b, o, goals, N, c, f);
    FinalGoal(b, o, goals, N, s, f);
    UTargetIs(b, c, c', k, goals[f], s);
    OverlayOrdered(k);
    FinalNames(b, o, s, f);
    assert SubBody(k, OVERLAY) == Content(b, o, f);
    MergedMatching(c, c', goals[f], SubBody(k, OVERLAY), s);
  }

  lemma GuardedGoal(b: Forest, o: Forest, goals: Goals, N: Names, f: Str)
    requires Guarded(b, o, goals, N) && NodeAt(o, [f, OVERLAY]).Some?
    ensures f in goals
  {
  }

  lemma FinalNames(b: Forest, o: Forest, s: set<Str>, f: Str)
    requires Applies(b, o) && NamesIn(o, s)
    ensures NamesIn(Content(b, o, f), s)
  {
    hide Applies, Final, Settled, Skel, Uniq, Adopted, Mid, Ph, AllOwn;
    FinalIs(b, o);
    SkelNames(o, Final(b, o), s);
    if NodeAt(Final(b, o), [f, OVERLAY]).Some? {
      PutAtNames(Final(b, o), [f, OVERLAY], Nil, s);
    }
  }

  /** ufdt_overlay_apply_fragments does what overlay_merge does. */
  lemma {:induction false} UMergeAllHolds(b: Forest, o: Forest, goals: Goals, N: Names, s: set<Str>, c: Forest,
      c': Forest, frags: Forest)
    requires Applies(b, o) && Guarded(b, o, goals, N) && BothGoals(b, o, goals, s)
    requires Exact(s) && Ordered(b) && NamesIn(o, s) && Ordered(frags)
    requires Tail(b, Final(b, o), c, frags) && Paired(b, o, goals, N, s, c, c')
    requires MergeAll(c, frags).Ok? && Uniq(frags) && AllOwn(frags)
    ensures UMergeAll(Strip(b), c', Strip(frags)).Ok?
    ensures Matching(MergeAll(c, frags).v, UMergeAll(Strip(b), c', Strip(frags)).v)
    decreases frags
  {
    hide Applies, Guarded, Paired, Matching, NamesIn, Exact, BothGoals, HasSub, SubBody, KidAt, NodeAt, UTarget, Uniq,
      UMerge, PutAt, Step, Merges, MergeAll, Tail,
      AllOwn, OwnName, Final, Before;
    match frags
    case Nil => NothingLeft(c); AlongMatching(b, o, goals, N, s, c, c');
    case SubF(f, k, r) =>
      TailRest(b, Final(b, o), c, frags);
      OwnRest(frags);
      StepIs(c, f, k, r);
      OverlayOrdered(k);
      HasContent(b, o, f);
      if HasSub(k, OVERLAY) {
        UStepHolds(b, o, goals, N, s, c, c', f, k);
        var t := UTarget(Strip(b), c', Strip(k)).v;
        UMergeAllHolds(b, o, goals, N, s, Step(c, k),
          PutAt(c', t, UMerge(NodeAt(c', t).value, KidAt(Strip(k), OVERLAY).value)), r);
      } else {
        NoStep(c, k);
        UMergeAllHolds(b, o, goals, N, s, c, c', r);
      }
    case NopF(r) =>
      TailRest(b, Final(b, o), c, frags);
      OwnRest(frags);
      PassOver(c, frags);
      UMergeAllHolds(b, o, goals, N, s, c, c', r);
    case PropF(_, _, r) =>
      TailRest(b, Final(b, o), c, frags);
      OwnRest(frags);
      PassOver(c, frags);
      UMergeAllHolds(b, o, goals, N, s, c, c', r);
  }

  lemma AlongMatching(b: Forest, o: Forest, goals: Goals, N: Names, s: set<Str>, c: Forest, c': Forest)
    requires Paired(b, o, goals, N, s, c, c')
    ensures Matching(c, c')
  {
  }

  lemma HasContent(b: Forest, o: Forest, f: Str)
    requires Applies(b, o) && KidAt(Final(b, o), f).Some?
    ensures HasSub(KidAt(Final(b, o), f).value, OVERLAY) <==> NodeAt(o, [f, OVERLAY]).Some?
  {
    hide Applies, Final, Settled, Skel, Uniq, Mid, Adopted, NodeAt, Ph;
    FinalIs(b, o);
    SkelNode(Final(b, o), o, [f, OVERLAY]);
    ThroughKid(Final(b, o), f);
    OwnSub(KidAt(Final(b, o), f).value, OVERLAY);
  }

  lemma NoStep(c: Forest, k: Forest)
    requires !HasSub(k, OVERLAY)
    ensures Step(c, k) == c
  {
  }

  // ----- The theorem -----

  /** Every entry of the overlay's fixups names its property by a plain path. */
  ghost predicate PlainFixups(o: Forest, s: set<Str>) {
    forall y | ValueAt(o, [FIXUPS], y).Some? && FdtEntries(ValueAt(o, [FIXUPS], y).value).Some? ::
      forall e | e in FdtEntries(ValueAt(o, [FIXUPS], y).value).value :: PlainPath(e.path, s)
  }

  /**
   * What is asked of base and overlay, beyond what is asked for libfdt, for the two engines to agree: properties come
   * before subnodes, no name stands for another, paths are plain, and no overlay node with a phandle meets a base node
   * with one.
   */
  ghost predicate BothFit(b: Forest, o: Forest, goals: Goals, s: set<Str>) {
    && NamesIn(b, s) && NamesIn(o, s) && Exact(s) && Components(s) && {LOCAL_FIXUPS, FIXUPS, OVERLAY} <= s
    && Ordered(b) && Ordered(o) && PlainSymbols(b, s) && PlainFixups(o, s) && NoConflict(b, o, goals)
       && BothGoals(b, o, goals, s)
  }

  lemma ShiftStep(o: Forest, delta: nat, s: set<Str>)
    requires Sound(o) && NamesIn(o, s) && Ordered(o) && Shift(o, delta).Ok?
    ensures (if delta > 0 then UShift(Strip(o), delta) else Strip(o)) == Strip(Shift(o, delta).v)
    ensures Ordered(Shift(o, delta).v) && Uniq(Shift(o, delta).v) && NamesIn(Shift(o, delta).v, s)
  {
    hide Shift, UShift, Strip, Skel, ListsSound, PhandlesSound, Ph, Canon;
    HonestAll(o, o);
    SkelShift(o, delta);
    SkelOrdered(o, Shift(o, delta).v);
    SkelNames(o, Shift(o, delta).v, s);
    if delta > 0 {
      ShiftIs(o, delta);
    } else {
      ShiftNothing(o);
    }
  }

  lemma LocalStep(o: Forest, delta: nat, s: set<Str>)
    requires Ordered(o) && Uniq(o) && NamesIn(o, s) && Exact(s) && Components(s) && LOCAL_FIXUPS in s
             && RewriteLocal(o, Adding(delta)).Ok?
    ensures match KidAt(Strip(o), LOCAL_FIXUPS)
            case None => RewriteLocal(o, Adding(delta)).v == o
            case Some(fx) => ULocal(Strip(o), fx, delta) == Ok(Strip(RewriteLocal(o, Adding(delta)).v))
    ensures var o2 := RewriteLocal(o, Adding(delta)).v; Ordered(o2) && Uniq(o2) && NamesIn(o2, s)
  {
    hide Rewrite, ULocal, Strip, Skel, HasSub, SubBody, KidAt, Comps;
    SubIsKid(o, LOCAL_FIXUPS, s);
    StripKid(o, LOCAL_FIXUPS);
    KidUniq(o, LOCAL_FIXUPS);
    RewriteLocalSkel(o, Adding(delta));
    SkelOrdered(o, RewriteLocal(o, Adding(delta)).v);
    SkelNames(o, RewriteLocal(o, Adding(delta)).v, s);
    if HasSub(o, LOCAL_FIXUPS) {
      LocalIs(o, SubBody(o, LOCAL_FIXUPS), delta, s);
    }
  }

  lemma RewriteLocalSkel(o: Forest, g: nat -> nat)
    requires RewriteLocal(o, g).Ok?
    ensures Skel(RewriteLocal(o, g).v) == Skel(o)
  {
    if HasSub(o, LOCAL_FIXUPS) {
      SkelRewrite(o, SubBody(o, LOCAL_FIXUPS), g);
    }
  }

  lemma FixupStep(b: Forest, o0: Forest, o: Forest, delta: nat, s: set<Str>)
    requires Sound(o0) && FixupsSound(o0) && PlainFixups(o0, s) && Exact(s) && FIXUPS in s
    requires Shift(o0, delta).Ok? && RewriteLocal(Shift(o0, delta).v, Adding(delta)) == Ok(o) && Fixups(b, o).Ok?
    requires Ordered(b) && Uniq(b) && NamesIn(b, s) && PlainSymbols(b, s) && Ordered(o) && Uniq(o) && NamesIn(o, s)
    ensures match KidAt(Strip(o), FIXUPS)
            case None => Fixups(b, o).v == o
            case Some(fx) => UFixLabels(Strip(b), Strip(o), fx) == Ok(Strip(Fixups(b, o).v))
  {
    hide Shift, RewriteLocal, ValueAt, Strip, HasSub, SubBody, KidAt, FixLabels, UFixLabels, PlainPath, PlainSymbols,
      ListsSound, PhandlesSound, Ph, FixupsSound;
    SubIsKid(o, FIXUPS, s);
    StripKid(o, FIXUPS);
    KidUniq(o, FIXUPS);
    if HasSub(o, FIXUPS) {
      var fx := SubBody(o, FIXUPS);
      forall y | HasProp(fx, y) && FdtEntries(PropData(fx, y)).Some?
        ensures forall e | e in FdtEntries(PropData(fx, y)).value :: PlainPath(e.path, s)
      {
        FixupsKept(o0, delta, y);
      }
      FixLabelsIs(b, o, fx, s);
    }
  }

  /** Up to the merge both engines do the same to the overlay. */
  lemma SettledAgree(b: Forest, o: Forest, goals: Goals, s: set<Str>)
    requires Applies(b, o) && BothFit(b, o, goals, s)
    ensures UResolved(Strip(b), Strip(o)) == Ok(Strip(Settled(b, o)))
    ensures Ordered(Settled(b, o))
  {
    hide Shift, UShift, RewriteLocal, ULocal, Fixups, UFixLabels, ValueAt, Strip, KidAt, Skel, Sound, Ph, FixupsSound,
      PhandlesApart,
      NoConflict, Prevent, PlainFixups, PlainSymbols, MaxPhandle, UMaxPhandle, Comps, BothGoals, MergeAll, Mid, Ready,
        Uniq, NamesIn, Components, Exact;
    StripMax(b);
    var delta := MaxPhandle(b);
    assert Uniq(o) by { SoundUniq(o); }
    ShiftStep(o, delta, s);
    var o1 := Shift(o, delta).v;
    LocalStep(o1, delta, s);
    var o2 := RewriteLocal(o1, Adding(delta)).v;
    FixupStep(b, o, o2, delta, s);
    SettledIs(b, o);
    SkelOrdered(o, Settled(b, o));
  }

  lemma SoundUniq(o: Forest)
    requires Sound(o)
    ensures Uniq(o)
  {
  }

  /** Where the conflict pass looks, no overlay node with a phandle meets a base node with one. */
  lemma NoneMeets(b: Forest, o: Forest, goals: Goals, N: Names, f: Str)
    requires Applies(b, o) && Guarded(b, o, goals, N) && NoConflict(b, o, goals) && NodeAt(o, [f, OVERLAY]).Some?
    requires Foreseen(b, Settled(b, o), Settled(b, o), f).Ok?
    ensures DisjointAt(b, Settled(b, o), f, Foreseen(b, Settled(b, o), Settled(b, o), f).v)
  {
    hide Applies, TargetLeads, Suits, Ready, Mid, Skel, Uniq, Ph, NodeAt, Settled, Foreseen, Into, NodeOr;
    SettledIs(b, o);
    ForeseenLeads(b, o, goals, N, f);
    var t := goals[f];
    if NodeAt(b, t).Some? {
      var bb := NodeAt(b, t).value;
      forall r
        ensures Ph(Settled(b, o), [f, OVERLAY] + r) == 0 || Ph(bb, Into(bb, r)) == 0
      {
        var n := [f, OVERLAY] + r;
        assert n[2..] == r && InFragment(n);
        OrSome(b, t);
        PhOr(b, t, Into(bb, r));
      }
    }
  }

  lemma {:induction false} ForeseenThere(b: Forest, o: Forest, frags: Forest, f: Str)
    requires Foreseen(b, o, frags, f).Ok?
    ensures KidAt(frags, f).Some? && HasSub(KidAt(frags, f).value, OVERLAY)
    decreases frags
  {
    hide HasSub, PreventFragment, TargetOf;
    match frags
    case SubF(g, k, r) => if g != f { ForeseenThere(b, PreventFragment(b, o, g, k).v, r, f); }
    case NopF(r) => ForeseenThere(b, o, r, f);
    case PropF(_, _, r) => ForeseenThere(b, o, r, f);
  }

  /** So the overlay that is merged is the settled one. */
  lemma FinalIsSettled(b: Forest, o: Forest, goals: Goals, N: Names)
    requires Applies(b, o) && Guarded(b, o, goals, N) && NoConflict(b, o, goals)
    ensures Final(b, o) == Settled(b, o)
  {
    hide Applies, Guarded, Ready, Mid, Skel, Uniq, Ph, NodeAt, Final, Settled, Foreseen, NoConflict, DisjointAt, HasSub,
      Prevent, Sound, Resolved, MergeAll, Outcome,
      AllOwn, FixupsSound, PhandlesApart;
    Stages(b, o);
    SettledIs(b, o);
    var o3 := Settled(b, o);
    SkelOwn(o, o3);
    forall f | Foreseen(b, o3, o3, f).Ok?
      ensures DisjointAt(b, o3, f, Foreseen(b, o3, o3, f).v)
    {
      ForeseenThere(b, o3, o3, f);
      KidOwn(o3, f);
      OwnSub(KidAt(o3, f).value, OVERLAY);
      ThroughKid(o3, f);
      SkelNode(o3, o, [f, OVERLAY]);
      NoneMeets(b, o, goals, N, f);
    }
    NoneExchanged(b, o3, o3);
  }

  lemma KidOwn(o: Forest, f: Str)
    requires AllOwn(o) && KidAt(o, f).Some?
    ensures OwnName(KidAt(o, f).value, OVERLAY)
  {
  }

  lemma StripMatching(b: Forest)
    requires Ordered(b)
    ensures Matching(b, Strip(b))
  {
    hide NodeAt, ValueAt, UValueAt, Strip, Ordered;
    forall p, x
      ensures NodeAt(Strip(b), p).Some? == NodeAt(b, p).Some? && UValueAt(Strip(b), p, x) == ValueAt(b, p, x)
    {
      StripNode(b, p);
      StripValue(b, p, x);
    }
  }

  lemma BothMerge(b: Forest, o: Forest, goals: Goals, N: Names, s: set<Str>)
    requires Applies(b, o) && Guarded(b, o, goals, N) && BothFit(b, o, goals, s)
    ensures UOverlayApply(Strip(b), Strip(o)).Ok? && Matching(Outcome(b, o), UOverlayApply(Strip(b), Strip(o)).v)
  {
    hide Guarded, Settled, Final, Outcome, UResolved, Grown, Ordered, Uniq, NamesIn, MergeAll, UMergeAll, NoConflict,
      Components, PlainSymbols, PlainFixups,
      BothGoals, Matching, Strip, Exact, Sound, Prevent, Resolved, Mid, Adopted, Ph, KidAt, Before, FixupsSound,
        PhandlesApart, AllOwn, Skel;
    Stages(b, o);
    SettledAgree(b, o, goals, s);
    FinalIsSettled(b, o, goals, N);
    FinalIs(b, o);
    BaseGrown(b, o, goals, N);
    StripMatching(b);
    UMergeAllHolds(b, o, goals, N, s, b, Strip(b), Settled(b, o));
  }

  /**
   * libfdt and libufdt agree: on a base and an overlay that libfdt can apply, when no phandle conflicts, libufdt
   * succeeds too and the two results have the same nodes and the same values; libufdt's lists properties before
   * subnodes.
   */
  lemma EnginesAgree(b: Forest, o: Forest, goals: Goals, N: Names, s: set<Str>)
    requires Applies(b, o) && Guarded(b, o, goals, N) && BothFit(b, o, goals, s)
    ensures OverlayApply(b, o).Ok? && UfdtApplyOverlay(b, o).Ok?
    ensures Same(OverlayApply(b, o).v, UfdtApplyOverlay(b, o).v)
    ensures Ordered(UfdtApplyOverlay(b, o).v)
  {
    hide Applies, Guarded, BothFit, UOverlayApply, ValueAt, UValueAt, NodeAt, Emit, Ordered, Outcome, Resolved, Prevent,
      MergeAll, Final, Settled, Sound,
      OverlayApply, PhandlesApart, FixupsSound;
    Stages(b, o);
    BothMerge(b, o, goals, N, s);
    var u := UOverlayApply(Strip(b), Strip(o)).v;
    assert UfdtApplyOverlay(b, o) == Ok(Emit(u));
    EmitOrdered(u);
    forall p, x
      ensures NodeAt(Outcome(b, o), p).Some? == NodeAt(Emit(u), p).Some?
              && ValueAt(Outcome(b, o), p, x) == ValueAt(Emit(u), p, x)
    {
      EmitAt(u, p, x);
      assert UValueAt(u, p, x) == ValueAt(Outcome(b, o), p, x);
    }
  }
}
