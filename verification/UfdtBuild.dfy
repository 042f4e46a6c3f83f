/** ufdt_from_fdt (libs/libufdt/ufdt_convert.c): the nodes that are made of a blob, and the tree they form. */
module UfdtBuild {
  import opened Bytes
  import opened Tree
  import opened Encoding
  import opened Positions
  import opened Tags
  import opened FdtRead
  import opened Edits
  import opened NodePools
  import opened UfdtNames
  import opened UfdtHeap

  // ----- The items of a tree, one by one -----

  /** The part of f that is one property or one subnode. */
  function One(f: Forest): Forest {
    match f
    case PropF(n, d, _) => PropF(n, d, Nil)
    case SubF(n, b, _) => SubF(n, Strip(b), Nil)
    case _ => Nil
  }

  lemma StripOne(f: Forest)
    requires !f.Nil?
    ensures Strip(f) == Ufdt.Append(One(f), Strip(f.rest))
  {
  }

  lemma {:induction false} AppendAgain(f: Forest, g: Forest, h: Forest)
    ensures Ufdt.Append(Ufdt.Append(f, g), h) == Ufdt.Append(f, Ufdt.Append(g, h)) && Ufdt.Append(f, Nil) == f
  {
    match f
    case Nil =>
    case _ => AppendAgain(f.rest, g, h);
  }

  /** Where the walk is after the item at p. */
  function Past(p: Pos): (q: Pos)
    requires !p.f.Nil?
    ensures Whole(q) == Whole(p) && Depth(q.c) == Depth(p.c) && q.f == p.f.rest && Remaining(q) < Remaining(p)
  {
    if p.f.SubF? then After(p) else Next(p)
  }

  lemma PastInside(p: Pos)
    requires !p.f.Nil? && Depth(p.c) > 0
    ensures Leave(Past(p).c, Past(p).f) == Leave(p.c, p.f)
  {
  }

  // ----- New nodes -----

  /** Memory h has, beyond h0, the nodes of e, a list of at most one node that r points to. */
  ghost predicate Built(h0: Heap, h: Heap, r: Option<Ptr>, e: Shape) {
    && r == (if e == GNil then None else Some(e.p)) && (e != GNil ==> e.rest == GNil)
    && Rep(h, r, e) && Lasts(h, e) && Sep(e) && Ptrs(e) !! h0.Keys && h.Keys == h0.Keys + Ptrs(e)
    && forall p | p in h0 :: h[p] == h0[p]
  }

  /** Memory h has, beyond h0, the node a, called name, and its list c. */
  ghost predicate Growing(h0: Heap, h: Heap, a: Ptr, name: Str, c: Shape) {
    && a !in h0 && a !in Ptrs(c) && Ptrs(c) !! h0.Keys && h.Keys == h0.Keys + ({a} + Ptrs(c))
    && h[a].SubNode? && h[a].name == name && h[a].sibling == None && h[a].last == Last(c)
    && Rep(h, h[a].child, c) && Lasts(h, c) && Sep(c)
    && forall p | p in h0 :: h[p] == h0[p]
  }

  lemma GrowStart(h0: Heap, h: Heap, a: Ptr, name: Str)
    requires a !in h0 && h == h0[a := SubNode(name, None, None, None)]
    ensures Growing(h0, h, a, name, GNil)
  {
  }

  lemma GrowApart(h0: Heap, h: Heap, n: Heap, a: Ptr, name: Str, c: Shape, e: Shape)
    requires Growing(h0, h, a, name, c) && e != GNil && Built(h, n, Some(e.p), e)
    ensures Detached(n, n, a, Ptrs(c) + Ptrs(e), c, e, GNil, None, {})
    ensures a in n && n[a] == h[a] && n.Keys == h0.Keys + ({a} + (Ptrs(c) + Ptrs(e))) && a !in Ptrs(c) + Ptrs(e)
    ensures forall p | p in h0 :: p in n && n[p] == h0[p] && p !in Ptrs(c) + Ptrs(e)
  {
    hide Sep, Rep, Lasts, Last, Ptrs;
    RepFrame(h, n, h[a].child, c);
    NoneLeft(n);
  }

  /** ufdt_node_add_child of a node that has just been made. */
  lemma GrowMore(h0: Heap, h: Heap, n: Heap, a: Ptr, name: Str, c: Shape, e: Shape)
    requires Growing(h0, h, a, name, c) && e != GNil && Built(h, n, Some(e.p), e)
    ensures a in n && n[a].SubNode? && (n[a].last.Some? ==> n[a].last.value in n && n[a].last.value != a)
    ensures Growing(h0, AddChild(n, a, e.p), a, name, GAppend(c, e))
  {
    hide Sep, Rep, Lasts, GAppend, Last, Ptrs, Built, Detached, Merging, AddChild;
    var all := Ptrs(c) + Ptrs(e);
    GrowApart(h0, h, n, a, name, c, e);
    Added(n, n, a, all, c, e, GNil, None, {});
    MergingGives(n, AddChild(n, a, e.p), a, all, GAppend(c, e));
  }

  lemma NoneLeft(n: Heap)
    ensures Rep(n, None, GNil) && Lasts(n, GNil) && Sep(GNil) && Ptrs(GNil) == {}
  {
  }

  lemma MergingGives(h: Heap, m: Heap, a: Ptr, all: set<Ptr>, c: Shape)
    requires Merging(h, m, a, all, c, GNil, None, {}) && a in h && h[a].SubNode?
    ensures m.Keys == h.Keys && m[a].SubNode? && m[a].name == h[a].name && m[a].sibling == h[a].sibling
            && m[a].last == Last(c)
    ensures Rep(m, m[a].child, c) && Lasts(m, c) && Sep(c) && Ptrs(c) == all && a !in all
    ensures forall p | p in h && p !in all && p != a :: m[p] == h[p]
  {
    hide Sep, Rep, Lasts, Last;
    assert h.Keys - {} == h.Keys && Ptrs(c) + Ptrs(GNil) + {} == Ptrs(c);
  }

  lemma GrowDone(h0: Heap, h: Heap, a: Ptr, name: Str, c: Shape)
    requires Growing(h0, h, a, name, c)
    ensures Built(h0, h, Some(a), GSub(a, name, c, GNil))
  {
    assert Rep(h, None, GNil);
  }

  lemma PropBuilt(h0: Heap, p: Ptr, name: Str, at: nat, data: Str)
    requires p !in h0
    ensures Built(h0, h0[p := PropNode(name, at, data, None)], Some(p), GProp(p, name, data, GNil))
  {
    var h, g := h0[p := PropNode(name, at, data, None)], GProp(p, name, data, GNil);
    NoneLeft(h);
    assert Rep(h, Some(p), g) && Sep(g) && Ptrs(g) == {p};
    assert h.Keys == h0.Keys + {p};
  }

  lemma NothingBuilt(h: Heap)
    ensures Built(h, h, None, GNil)
  {
  }

  /** The names in the strings block strs, which is at address addr, are found there among the tables. */
  ghost predicate Covers(tables: seq<Table>, addr: nat, strs: Str) {
    forall i: nat, n | IsStringAt(strs, i, n) :: PointsTo(tables, addr + i, n)
  }

  lemma CoversFirst(t: Table, more: seq<Table>)
    ensures Covers([t] + more, t.start, t.text)
  {
    hide IsStringAt;
    forall i: nat, n | IsStringAt(t.text, i, n)
      ensures PointsTo([t] + more, t.start + i, n)
    {
      StringInside(t.text, i, n);
      assert ([t] + more)[0] == t;
    }
  }

  lemma StringInside(text: Str, i: nat, n: Str)
    requires IsStringAt(text, i, n)
    ensures i < |text|
  {
  }

  /** The overlay's blob comes second, and the two strings blocks do not overlap. */
  lemma CoversSecond(s: Table, t: Table)
    requires forall a: nat :: !(InTable(s, a) && InTable(t, a))
    ensures Covers([s, t], t.start, t.text)
  {
    hide IsStringAt;
    CoversFirst(t, []);
    forall i: nat, n | IsStringAt(t.text, i, n)
      ensures PointsTo([s, t], t.start + i, n)
    {
      StringInside(t.text, i, n);
      assert [t] + [] == [t] && PointsTo([t], t.start + i, n);
      assert InTable(t, t.start + i);
      assert [s, t] == [s] + [t];
      PointsToBehind([s], [t], t.start + i, n);
    }
  }

  // ----- Reading the blob -----

  lemma NoNul(v: Fdt, p: Pos)
    requires Encodes(v, Whole(p)) && p.f.SubF?
    ensures 0 !in p.f.name
  {
    hide Encodes, Whole, Off;
    RepsAt(v, p);
  }

  lemma GoodNew(tables: seq<Table>, h: Heap, p: Ptr, n: Node)
    requires Good(tables, h) && GoodNode(tables, n)
    ensures Good(tables, h[p := n])
  {
  }

  /** The list so far, and what the rest of the node's content will add to it. */
  ghost predicate SoFar(kids: Shape, q: Pos, body: Forest) {
    Ufdt.Append(Erase(kids), Strip(q.f)) == Strip(body)
  }

  lemma SoFarStart(p: Pos)
    requires p.f.SubF?
    ensures Leave(Enter(p).c, Enter(p).f) == After(p) && SoFar(GNil, Enter(p), p.f.body)
  {
  }

  /** One turn of the loop: the child is put at the end of the list. */
  lemma SoFarOn(kids: Shape, q: Pos, body: Forest, e: Shape)
    requires SoFar(kids, q, body) && Erase(e) == One(q.f)
    ensures q.f.Nil? ==> Erase(kids) == Strip(body)
    ensures !q.f.Nil? ==> SoFar(GAppend(kids, e), Past(q), body)
    ensures q.f.Nil? || q.f.NopF? ==> e == GNil
    ensures e == GNil ==> GAppend(kids, e) == kids
  {
    AppendShape(kids, e);
    AppendNothing(kids);
    if !q.f.Nil? {
      StripOne(q.f);
      AppendAgain(Erase(kids), One(q.f), Strip(q.f.rest));
    } else {
      AppendAgain(Erase(kids), Nil, Nil);
    }
  }

  lemma {:induction false} AppendNothing(g: Shape)
    ensures GAppend(g, GNil) == g
  {
    if g != GNil {
      AppendNothing(g.rest);
    }
  }

  /** ufdt_node_add_child, when both nodes are there. */
  method AddKid(ns: Nodes, a: Ptr, kid: Option<Ptr>, ghost tables: seq<Table>, ghost h0: Heap, ghost h1: Heap,
      ghost name: Str, ghost c: Shape, ghost e: Shape)
    requires ns.Valid() && Growing(h0, h1, a, name, c) && Built(h1, ns.h, kid, e) && Good(tables, ns.h)
    modifies ns`h
    ensures ns.Valid() && Growing(h0, ns.h, a, name, GAppend(c, e)) && Good(tables, ns.h)
  {
    hide Good, Growing, Built, Rep, Lasts, Sep, Last, GAppend, Linked, Accounted, FreeFirst, OneEmpty;
    if kid.None? {
      NoKid(h0, h1, ns.h, a, name, c, e);
      return;
    }
    KidIs(h1, ns.h, kid, e);
    GrowMore(h0, h1, ns.h, a, name, c, e);
    GoodAdded(tables, ns.h, a, kid.value);
    ghost var before := ns.h;
    ns.h := AddChild(ns.h, a, kid.value);
    assert ns.h.Keys == before.Keys;
  }

  lemma NoKid(h0: Heap, h1: Heap, h: Heap, a: Ptr, name: Str, c: Shape, e: Shape)
    requires Growing(h0, h1, a, name, c) && Built(h1, h, None, e)
    ensures h == h1 && Growing(h0, h, a, name, GAppend(c, e))
  {
    hide Rep, Lasts, Sep, Last;
    AppendNothing(c);
    assert h.Keys == h1.Keys;
  }

  lemma KidIs(h1: Heap, h: Heap, kid: Option<Ptr>, e: Shape)
    requires Built(h1, h, kid, e) && kid.Some?
    ensures e != GNil && kid == Some(e.p)
  {
  }

  /** fdt_to_ufdt_tree: the item at p as a node, or no node; next is moved past what has been read. */
  method FdtToUfdtTree(ns: Nodes, v: Fdt, addr: nat, cur: int, next0: int, tag: nat, ghost p: Pos,
      ghost tables: seq<Table>)
    returns (r: Option<Ptr>, next: int, ghost e: Shape)
    requires ns.Valid() && Good(tables, ns.h) && Covers(tables, addr, v.strs)
    requires At(v, p, cur) && tag == TagOf(TagAt(p)) && next0 == cur + TokSize(TagAt(p))
    modifies ns`h, ns.pool
    ensures ns.Valid() && Good(tables, ns.h) && Built(old(ns.h), ns.h, r, e) && Erase(e) == One(p.f)
    ensures next == if p.f.Nil? then next0 else Off(Past(p).c)
    decreases Remaining(p)
  {
    hide Encodes, Whole, Off, PointsTo, One, Strip, IsStringAt, Good, Growing, Built, Erase, SoFar, Covers, Linked,
      Accounted, FreeFirst, OneEmpty, Rep, Sep, Lasts, Last;
    r, next, e := None, next0, GNil;
    if tag == PROP {
      PropHere(v, p);
      var i := Get32(v.struct, cur + 8);
      var s := GetString(v, i);
      StringUnique(v.strs, i, s.value, p.f.pname);
      var data := v.struct[cur + 12..cur + 12 + Get32(v.struct, cur + 4)];
      GoodProp(tables, addr, v.strs, i, s.value, data);
      ghost var h0 := ns.h;
      var n := ns.NewPropNode(s.value, addr + i, data);
      GoodNew(tables, h0, n, PropNode(s.value, addr + i, data, None));
      PropBuilt(h0, n, s.value, addr + i, data);
      r, e := Some(n), GProp(n, s.value, data, GNil);
      OneProp(p.f, n);
    } else if tag == BEGIN_NODE {
      r, next, e := NodeToUfdtTree(ns, v, addr, cur, next, p, tables);
    } else {
      NothingBuilt(ns.h);
      OneNone(p.f);
    }
  }

  /** The part of fdt_to_ufdt_tree that reads a node and, one after the other, what it contains. */
  method NodeToUfdtTree(ns: Nodes, v: Fdt, addr: nat, cur: int, next0: int, ghost p: Pos, ghost tables: seq<Table>)
    returns (r: Option<Ptr>, next: int, ghost e: Shape)
    requires ns.Valid() && Good(tables, ns.h) && Covers(tables, addr, v.strs)
    requires At(v, p, cur) && p.f.SubF? && next0 == cur + TokSize(TagAt(p))
    modifies ns`h, ns.pool
    ensures ns.Valid() && Good(tables, ns.h) && Built(old(ns.h), ns.h, r, e) && Erase(e) == One(p.f)
    ensures next == Off(Past(p).c)
    decreases Remaining(p), 0
  {
    hide Encodes, Whole, Off, PointsTo, One, Strip, IsStringAt, Good, Growing, Built, Erase, SoFar, Covers, Linked,
      Accounted, FreeFirst, OneEmpty, Rep, Sep, Lasts, Last, GAppend;
    next := next0;
    var name := GetName(v, cur, p);
    NoNul(v, p);
    ghost var h0 := ns.h;
    var a := ns.NewSubNode(name.value);
    GoodNew(tables, h0, a, SubNode(name.value, None, None, None));
    GrowStart(h0, ns.h, a, name.value);
    ghost var kids, q := GNil, Enter(p);
    SoFarStart(p);
    var t := BEGIN_NODE;
    while t != END_NODE
      invariant ns.Valid() && Good(tables, ns.h) && Growing(h0, ns.h, a, name.value, kids)
      invariant t == END_NODE ==> next == Off(After(p).c) && Erase(kids) == Strip(p.f.body)
      invariant t != END_NODE ==> At(v, q, next) && Depth(q.c) == Depth(p.c) + 1 && Remaining(q) < Remaining(p)
                                  && Leave(q.c, q.f) == After(p)
      invariant t != END_NODE ==> SoFar(kids, q, p.f.body)
      decreases if t == END_NODE then 0 else Remaining(q) + 1
    {
      var c := next;
      t, next := TagAtOffset(v, c, q);
      if t == END {
        break;
      }
      ghost var h1, kid := ns.h, GNil;
      var child;
      child, next, kid := FdtToUfdtTree(ns, v, addr, c, next, t, q, tables);
      SoFarOn(kids, q, p.f.body, kid);
      AddKid(ns, a, child, tables, h0, h1, name.value, kids, kid);
      kids := GAppend(kids, kid);
      if !q.f.Nil? {
        PastInside(q);
        q := Past(q);
      }
    }
    GrowDone(h0, ns.h, a, name.value, kids);
    r, e := Some(a), GSub(a, name.value, kids, GNil);
    OneSub(p.f, a, kids);
  }

  lemma GoodProp(tables: seq<Table>, addr: nat, strs: Str, i: nat, name: Str, data: Str)
    requires Covers(tables, addr, strs) && IsStringAt(strs, i, name) && |data| < INT_MAX
    ensures GoodNode(tables, PropNode(name, addr + i, data, None))
  {
  }

  lemma OneProp(f: Forest, n: Ptr)
    requires f.PropF?
    ensures Erase(GProp(n, f.pname, f.data, GNil)) == One(f)
  {
  }

  lemma OneSub(f: Forest, a: Ptr, kids: Shape)
    requires f.SubF? && Erase(kids) == Strip(f.body)
    ensures Erase(GSub(a, f.name, kids, GNil)) == One(f)
  {
  }

  lemma OneNone(f: Forest)
    requires f.Nil? || f.NopF?
    ensures Erase(GNil) == One(f)
  {
  }

  /** ufdt_from_fdt: the tree of the blob, without its NOPs; or no tree if the blob does not start with a node. */
  method FromFdt(ns: Nodes, v: Fdt, addr: nat, ghost f: Forest, ghost tables: seq<Table>)
      returns (root: Option<Ptr>, ghost e: Shape)
    requires ns.Valid() && Good(tables, ns.h) && Covers(tables, addr, v.strs) && Encodes(v, f)
    modifies ns`h, ns.pool
    ensures ns.Valid() && Good(tables, ns.h) && Built(old(ns.h), ns.h, root, e)
    ensures root.Some? <==> f.SubF?
    ensures root.Some? ==> Erase(e) == SubF(f.name, Strip(f.body), Nil)
  {
    hide Encodes, Strip, FSize, Good, Built, Covers, Linked, Accounted, FreeFirst, OneEmpty, Off;
    ghost var p := Pos(Top, f);
    TopAt(v, f);
    var tag, end := TagAtOffset(v, 0, p);
    e := GNil;
    if tag != BEGIN_NODE {
      NothingBuilt(ns.h);
      return None, e;
    }
    root, end, e := FdtToUfdtTree(ns, v, addr, 0, end, tag, p, tables);
    RootBuilt(ns.h, root, e);
  }

  lemma TopAt(v: Fdt, f: Forest)
    requires Encodes(v, f)
    ensures At(v, Pos(Top, f), 0)
  {
  }

  lemma RootBuilt(h: Heap, root: Option<Ptr>, e: Shape)
    requires exists h0 :: Built(h0, h, root, e)
    ensures Erase(e).SubF? ==> root.Some?
  {
  }
}
