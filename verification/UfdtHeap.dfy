/**
 * The unflattened tree as nodes in pooled memory, linked by child, sibling and last-child pointers, and its merge
 * and release (libs/libufdt/ufdt_node.c).
 */
module UfdtHeap {
  import opened Bytes
  import opened Tree
  import opened Positions
  import opened Sem
  import opened Overlay
  import opened Ufdt
  import opened NodePools
  import opened UfdtNames

  /**
   * A node in memory.  A property's name is the string at address at.  last says whose sibling pointer last_child_p is,
   * or none for the node's own child pointer.
   */
  datatype Node =
    | PropNode(name: Str, at: nat, data: Str, sibling: Option<Ptr>)
    | SubNode(name: Str, child: Option<Ptr>, last: Option<Ptr>, sibling: Option<Ptr>)

  type Heap = map<Ptr, Node>

  /**
   * What every node has from the blob it was made of: a name that is where its name pointer says, and a value that is
   * not too long.
   */
  predicate GoodNode(tables: seq<Table>, n: Node) {
    match n
    case PropNode(name, at, data, _) => PointsTo(tables, at, name) && |data| < INT_MAX
    case SubNode(name, _, _, _) => 0 !in name
  }

  ghost predicate Good(tables: seq<Table>, h: Heap) {
    forall p | p in h :: GoodNode(tables, h[p])
  }

  /** A list of nodes together with where they are. */
  datatype Shape =
    | GNil
    | GProp(p: Ptr, name: Str, data: Str, rest: Shape)
    | GSub(p: Ptr, name: Str, body: Shape, rest: Shape)

  function Erase(g: Shape): Forest {
    match g
    case GNil => Nil
    case GProp(_, n, d, r) => PropF(n, d, Erase(r))
    case GSub(_, n, k, r) => SubF(n, Erase(k), Erase(r))
  }

  ghost function Ptrs(g: Shape): set<Ptr> {
    match g
    case GNil => {}
    case GProp(p, _, _, r) => {p} + Ptrs(r)
    case GSub(p, _, k, r) => {p} + Ptrs(k) + Ptrs(r)
  }

  /** No node is in two places. */
  ghost predicate Sep(g: Shape) {
    match g
    case GNil => true
    case GProp(p, _, _, r) => p !in Ptrs(r) && Sep(r)
    case GSub(p, _, k, r) => p !in Ptrs(k) && p !in Ptrs(r) && Ptrs(k) !! Ptrs(r) && Sep(k) && Sep(r)
  }

  /** The last node of the list. */
  function Last(g: Shape): Option<Ptr> {
    match g
    case GNil => None
    case _ => if g.rest == GNil then Some(g.p) else Last(g.rest)
  }

  /** From first on, the siblings in h are the list g. */
  ghost predicate Rep(h: Heap, first: Option<Ptr>, g: Shape)
    decreases g
  {
    match g
    case GNil => first == None
    case GProp(p, n, d, r) =>
      && first == Some(p) && p in h && h[p].PropNode? && h[p].name == n && h[p].data == d
      && Rep(h, h[p].sibling, r)
    case GSub(p, n, k, r) =>
      && first == Some(p) && p in h && h[p].SubNode? && h[p].name == n
      && Rep(h, h[p].child, k) && Rep(h, h[p].sibling, r)
  }

  /** The last-child pointers in g are right. */
  ghost predicate Lasts(h: Heap, g: Shape) {
    match g
    case GNil => true
    case GProp(_, _, _, r) => Lasts(h, r)
    case GSub(p, _, k, r) => p in h && h[p].SubNode? && h[p].last == Last(k) && Lasts(h, k) && Lasts(h, r)
  }

  lemma {:induction false} RepFrame(h: Heap, n: Heap, first: Option<Ptr>, g: Shape)
    requires Rep(h, first, g) && forall p | p in Ptrs(g) :: p in h && p in n && n[p] == h[p]
    ensures Rep(n, first, g) && (Lasts(h, g) ==> Lasts(n, g))
    decreases g
  {
    match g
    case GNil =>
    case GProp(p, _, _, r) => RepFrame(h, n, h[p].sibling, r);
    case GSub(p, _, k, r) =>
      RepFrame(h, n, h[p].child, k);
      RepFrame(h, n, h[p].sibling, r);
  }

  lemma {:induction false} RepIn(h: Heap, first: Option<Ptr>, g: Shape)
    requires Rep(h, first, g)
    ensures Ptrs(g) <= h.Keys
    decreases g
  {
    match g
    case GNil =>
    case GProp(p, _, _, r) => RepIn(h, h[p].sibling, r);
    case GSub(p, _, k, r) =>
      RepIn(h, h[p].child, k);
      RepIn(h, h[p].sibling, r);
  }

  // ----- Changes of a list -----

  function GAppend(g: Shape, e: Shape): Shape {
    match g
    case GNil => e
    case GProp(p, n, d, r) => GProp(p, n, d, GAppend(r, e))
    case GSub(p, n, k, r) => GSub(p, n, k, GAppend(r, e))
  }

  /** Where the first property called x is. */
  function PropPtr(g: Shape, x: Str): Option<Ptr> {
    match g
    case GNil => None
    case GProp(p, n, _, r) => if n == x then Some(p) else PropPtr(r, x)
    case GSub(_, _, _, r) => PropPtr(r, x)
  }

  function SubPtr(g: Shape, x: Str): Option<Ptr> {
    match g
    case GNil => None
    case GProp(_, _, _, r) => SubPtr(r, x)
    case GSub(p, n, _, r) => if n == x then Some(p) else SubPtr(r, x)
  }

  function GPutData(g: Shape, x: Str, d: Str): Shape
    requires PropPtr(g, x).Some?
  {
    match g
    case GProp(p, n, e, r) => if n == x then GProp(p, n, d, r) else GProp(p, n, e, GPutData(r, x, d))
    case GSub(p, n, k, r) => GSub(p, n, k, GPutData(r, x, d))
  }

  function GBody(g: Shape, x: Str): (k: Shape)
    requires SubPtr(g, x).Some?
  {
    match g
    case GProp(_, _, _, r) => GBody(r, x)
    case GSub(_, n, k, r) => if n == x then k else GBody(r, x)
  }

  function GPutBody(g: Shape, x: Str, k: Shape): Shape
    requires SubPtr(g, x).Some?
  {
    match g
    case GProp(p, n, d, r) => GProp(p, n, d, GPutBody(r, x, k))
    case GSub(p, n, j, r) => if n == x then GSub(p, n, k, r) else GSub(p, n, j, GPutBody(r, x, k))
  }

  lemma {:induction false} AppendShape(g: Shape, e: Shape)
    ensures Erase(GAppend(g, e)) == Append(Erase(g), Erase(e)) && Ptrs(GAppend(g, e)) == Ptrs(g) + Ptrs(e)
    ensures Sep(g) && Sep(e) && Ptrs(g) !! Ptrs(e) ==> Sep(GAppend(g, e))
    ensures Last(GAppend(g, e)) == if e == GNil then Last(g) else Last(e)
  {
    match g
    case GNil =>
    case GProp(_, _, _, r) => AppendShape(r, e);
    case GSub(_, _, _, r) => AppendShape(r, e);
  }

  lemma {:induction false} PutDataShape(g: Shape, x: Str, d: Str)
    ensures PropPtr(g, x).Some? <==> UData(Erase(g), x).Some?
    ensures PropPtr(g, x).Some? ==> PropPtr(g, x).value in Ptrs(g)
    ensures PropPtr(g, x).Some? ==> Erase(GPutData(g, x, d)) == UPut(Erase(g), x, d)
                                    && Ptrs(GPutData(g, x, d)) == Ptrs(g)
    ensures PropPtr(g, x).Some? && Sep(g) ==> Sep(GPutData(g, x, d))
    ensures PropPtr(g, x).Some? ==> Last(GPutData(g, x, d)) == Last(g) && GPutData(g, x, d) != GNil
  {
    match g
    case GNil =>
    case GProp(_, n, _, r) => if n != x { PutDataShape(r, x, d); }
    case GSub(_, _, _, r) => PutDataShape(r, x, d);
  }

  lemma {:induction false} PutBodyTree(g: Shape, x: Str, k: Shape)
    ensures SubPtr(g, x).Some? <==> KidAt(Erase(g), x).Some?
    ensures SubPtr(g, x).Some? ==> KidAt(Erase(g), x) == Some(Erase(GBody(g, x)))
                                   && Erase(GPutBody(g, x, k)) == PutKid(Erase(g), x, Erase(k))
    ensures SubPtr(g, x).Some? ==> Last(GPutBody(g, x, k)) == Last(g) && GPutBody(g, x, k) != GNil
  {
    match g
    case GNil =>
    case GProp(_, _, _, r) => PutBodyTree(r, x, k);
    case GSub(_, n, _, r) => if n != x { PutBodyTree(r, x, k); }
  }

  lemma {:induction false} BodyShape(g: Shape, x: Str)
    requires SubPtr(g, x).Some? && Sep(g)
    ensures SubPtr(g, x).value in Ptrs(g) && Ptrs(GBody(g, x)) <= Ptrs(g) && Sep(GBody(g, x))
            && SubPtr(g, x).value !in Ptrs(GBody(g, x))
  {
    match g
    case GProp(_, _, _, r) => BodyShape(r, x);
    case GSub(_, n, _, r) => if n != x { BodyShape(r, x); }
  }

  lemma {:induction false} PutBodyShape(g: Shape, x: Str, k: Shape)
    requires SubPtr(g, x).Some? && Sep(g)
    ensures Ptrs(GPutBody(g, x, k)) == Ptrs(g) - Ptrs(GBody(g, x)) + Ptrs(k)
    ensures Sep(k) && Ptrs(k) !! Ptrs(g) - Ptrs(GBody(g, x)) ==> Sep(GPutBody(g, x, k))
  {
    hide Sep;
    PutBodySep(g, x, k);
    BodyShape(g, x);
    match g
    case GProp(_, _, _, r) =>
      SepRest(g);
      BodyShape(r, x);
      PutBodyShape(r, x, k);
    case GSub(_, n, _, r) =>
      SepRest(g);
      if n != x {
        BodyShape(r, x);
        PutBodyShape(r, x, k);
      }
  }

  lemma SepRest(g: Shape)
    requires Sep(g) && g != GNil
    ensures Sep(g.rest) && g.p !in Ptrs(g.rest)
    ensures g.GSub? ==> Sep(g.body) && g.p !in Ptrs(g.body) && Ptrs(g.body) !! Ptrs(g.rest)
  {
  }

  lemma {:induction false} PutBodySep(g: Shape, x: Str, k: Shape)
    requires SubPtr(g, x).Some? && Sep(g)
    ensures Ptrs(GPutBody(g, x, k)) <= Ptrs(g) - Ptrs(GBody(g, x)) + Ptrs(k)
    ensures Sep(k) && Ptrs(k) !! Ptrs(g) - Ptrs(GBody(g, x)) ==> Sep(GPutBody(g, x, k))
  {
    BodyShape(g, x);
    match g
    case GProp(_, _, _, r) =>
      BodyShape(r, x);
      PutBodySep(r, x, k);
    case GSub(_, n, _, r) =>
      if n != x {
        BodyShape(r, x);
        PutBodySep(r, x, k);
      }
  }

  // ----- The same changes in memory -----

  function SetSibling(h: Heap, p: Ptr, s: Option<Ptr>): Heap
    requires p in h
  {
    h[p := h[p].(sibling := s)]
  }

  /** ufdt_node_add_child's stores, the list not being empty: cur becomes the sibling of the last node. */
  lemma {:induction false} RepAppend(h: Heap, first: Option<Ptr>, g: Shape, e: Shape)
    requires Rep(h, first, g) && Lasts(h, g) && Sep(g) && g != GNil && e != GNil
    requires Rep(h, Some(e.p), e) && Lasts(h, e) && Ptrs(g) !! Ptrs(e)
    ensures Last(g).Some? && Last(g).value in h && Last(g).value in Ptrs(g)
    ensures var n := SetSibling(h, Last(g).value, Some(e.p)); Rep(n, first, GAppend(g, e)) && Lasts(n, GAppend(g, e))
    decreases g
  {
    hide Sep;
    SepRest(g);
    RepIn(h, first, g);
    RepIn(h, Some(e.p), e);
    if g.rest == GNil {
      var n := SetSibling(h, g.p, Some(e.p));
      RepFrame(h, n, Some(e.p), e);
      if g.GSub? {
        RepFrame(h, n, h[g.p].child, g.body);
      }
    } else {
      RepAppend(h, h[g.p].sibling, g.rest, e);
      var n := SetSibling(h, Last(g).value, Some(e.p));
      if g.GSub? {
        RepFrame(h, n, h[g.p].child, g.body);
      }
    }
  }

  lemma {:induction false} RepPutData(h: Heap, first: Option<Ptr>, g: Shape, x: Str, d: Str)
    requires Rep(h, first, g) && Lasts(h, g) && Sep(g) && PropPtr(g, x).Some?
    ensures PropPtr(g, x).value in h && PropPtr(g, x).value in Ptrs(g) && h[PropPtr(g, x).value].PropNode?
    ensures var t := PropPtr(g, x).value; var n := h[t := h[t].(data := d)];
            Rep(n, first, GPutData(g, x, d)) && Lasts(n, GPutData(g, x, d))
    decreases g
  {
    hide Sep;
    SepRest(g);
    RepIn(h, first, g);
    if g.GProp? && g.name == x {
      RepFrame(h, h[g.p := h[g.p].(data := d)], h[g.p].sibling, g.rest);
    } else {
      RepPutData(h, h[g.p].sibling, g.rest, x, d);
      var t := PropPtr(g, x).value;
      if g.GSub? {
        RepFrame(h, h[t := h[t].(data := d)], h[g.p].child, g.body);
      }
    }
  }

  /** The list g with another list below its subnode x, which has changed nothing outside that subnode. */
  lemma {:induction false} RepPutBody(h: Heap, n: Heap, first: Option<Ptr>, g: Shape, x: Str, k: Shape)
    requires Rep(h, first, g) && Lasts(h, g) && Sep(g) && SubPtr(g, x).Some?
    requires forall p | p in Ptrs(g) && p !in Ptrs(GBody(g, x)) && p != SubPtr(g, x).value ::
             p in h && p in n && n[p] == h[p]
    requires var t := SubPtr(g, x).value;
             t in h && t in n && n[t].SubNode? && n[t].name == h[t].name && n[t].sibling == h[t].sibling
             && Rep(n, n[t].child, k) && Lasts(n, k) && n[t].last == Last(k)
    ensures Rep(n, first, GPutBody(g, x, k)) && Lasts(n, GPutBody(g, x, k))
    decreases g
  {
    hide Sep;
    SepRest(g);
    RepIn(h, first, g);
    BodyShape(g, x);
    if g.GSub? && g.name == x {
      RepFrame(h, n, h[g.p].sibling, g.rest);
    } else {
      BodyShape(g.rest, x);
      RepPutBody(h, n, h[g.p].sibling, g.rest, x, k);
      if g.GSub? {
        RepFrame(h, n, h[g.p].child, g.body);
      }
    }
  }

  // ----- Merging -----

  /** What merge_children makes of the lists a and b, and the nodes of b it gives back to the pool. */
  ghost function GMerge(a: Shape, b: Shape): (Shape, set<Ptr>)
    decreases b, 1
  {
    if b == GNil then (a, {}) else
      var m := GMerge(ShapeStep(a, b).0, b.rest);
      (m.0, m.1 + ShapeStep(a, b).1)
  }

  /** The first turn of its loop: the list a afterwards, and what has been given back. */
  ghost function ShapeStep(a: Shape, b: Shape): (Shape, set<Ptr>)
    requires b != GNil
    decreases b, 0
  {
    match b
    case GProp(p, n, d, _) =>
      if PropPtr(a, n).Some? then (GPutData(a, n, d), {p}) else (GAppend(a, GProp(p, n, d, GNil)), {})
    case GSub(p, n, k, _) =>
      if SubPtr(a, n).Some? then var j := GMerge(GBody(a, n), k); (GPutBody(a, n, j.0), j.1 + {p})
      else (GAppend(a, GSub(p, n, k, GNil)), {})
  }

  /** What the nodes of a and b come to: every one is in the merged list or given back, none is both. */
  ghost predicate Shared(a: Shape, b: Shape, g: Shape, f: set<Ptr>) {
    Sep(g) && Ptrs(g) !! f && Ptrs(g) + f == Ptrs(a) + Ptrs(b) && f <= Ptrs(b)
  }

  /** The merged list is the merge of the two trees. */
  lemma {:induction false} MergeTree(a: Shape, b: Shape)
    ensures Erase(GMerge(a, b).0) == UMerge(Erase(a), Erase(b))
    decreases b
  {
    match b
    case GNil =>
    case GProp(p, n, d, r) =>
      PutDataShape(a, n, d);
      AppendShape(a, GProp(p, n, d, GNil));
      MergeTree(if PropPtr(a, n).Some? then GPutData(a, n, d) else GAppend(a, GProp(p, n, d, GNil)), r);
    case GSub(p, n, k, r) =>
      if SubPtr(a, n).Some? {
        var j := GMerge(GBody(a, n), k);
        MergeTree(GBody(a, n), k);
        PutBodyTree(a, n, j.0);
        MergeTree(GPutBody(a, n, j.0), r);
      } else {
        PutBodyTree(a, n, GNil);
        AppendShape(a, GSub(p, n, k, GNil));
        MergeTree(GAppend(a, GSub(p, n, k, GNil)), r);
      }
  }

  /** Every node of the two lists is in the merged one or given back. */
  lemma {:induction false} MergeShares(a: Shape, b: Shape)
    requires Sep(a) && Sep(b) && Ptrs(a) !! Ptrs(b)
    ensures Shared(a, b, GMerge(a, b).0, GMerge(a, b).1)
    decreases b
  {
    match b
    case GNil =>
    case GProp(_, _, _, r) =>
      StepShape(a, b);
      MergeShares(ShapeStep(a, b).0, r);
    case GSub(p, n, k, r) =>
      if SubPtr(a, n).Some? {
        BodyShape(a, n);
        MergeShares(GBody(a, n), k);
      }
      StepShape(a, b);
      MergeShares(ShapeStep(a, b).0, r);
  }

  /** One turn of the loop loses no node and uses none twice. */
  lemma StepShape(a: Shape, b: Shape)
    requires Sep(a) && Sep(b) && Ptrs(a) !! Ptrs(b) && b != GNil
    requires b.GSub? && SubPtr(a, b.name).Some? ==>
             Shared(GBody(a, b.name), b.body, GMerge(GBody(a, b.name), b.body).0, GMerge(GBody(a, b.name), b.body).1)
    ensures Sep(ShapeStep(a, b).0) && Ptrs(ShapeStep(a, b).0) !! Ptrs(b.rest)
            && ShapeStep(a, b).1 <= Ptrs(b) - Ptrs(b.rest)
    ensures Ptrs(ShapeStep(a, b).0) !! ShapeStep(a, b).1
            && Ptrs(ShapeStep(a, b).0) + ShapeStep(a, b).1 == Ptrs(a) + (Ptrs(b) - Ptrs(b.rest))
  {
    hide Sep, GMerge, GAppend, GPutData, GPutBody, PropPtr, SubPtr, GBody, Erase;
    SepRest(b);
    match b
    case GProp(p, n, d, r) =>
      var e := GProp(p, n, d, GNil);
      PutDataShape(a, n, d);
      AppendShape(a, e);
      SepOne(e);
    case GSub(p, n, k, r) =>
      if SubPtr(a, n).Some? {
        BodyShape(a, n);
        PutBodyShape(a, n, GMerge(GBody(a, n), k).0);
      } else {
        var e := GSub(p, n, k, GNil);
        AppendShape(a, e);
        SepOne(e);
      }
  }

  lemma SepOne(e: Shape)
    requires e != GNil && e.rest == GNil && (e.GSub? ==> Sep(e.body) && e.p !in Ptrs(e.body))
    ensures Sep(e)
  {
  }

  // ----- The loop -----

  /**
   * Memory while b's list is being merged into a's: c is a's list now, r what is left of b's from it on, f given back.
   */
  ghost predicate Merging(h0: Heap, h: Heap, a: Ptr, all: set<Ptr>, c: Shape, r: Shape, it: Option<Ptr>, f: set<Ptr>) {
    && Outside(h0, h, a, all) && f <= all && h.Keys == h0.Keys - f
    && a in h && a !in all && h[a].SubNode? && h[a].last == Last(c)
    && Rep(h, h[a].child, c) && Lasts(h, c) && Rep(h, it, r) && Lasts(h, r)
    && Sep(c) && Sep(r) && Ptrs(c) !! Ptrs(r) && Ptrs(c) + Ptrs(r) + f == all && f !! Ptrs(c) + Ptrs(r)
  }

  /** Only a's list pointers and the nodes all have changed. */
  ghost predicate Outside(h0: Heap, h: Heap, a: Ptr, all: set<Ptr>) {
    && (forall p | p !in all :: p in h <==> p in h0)
    && (forall p | p in h0 && p !in all && p != a :: h[p] == h0[p])
    && (a in h0 && a !in all && h0[a].SubNode? ==>
       h[a].SubNode? && h[a].name == h0[a].name && h[a].sibling == h0[a].sibling)
  }

  /** ufdt_node_add_child on the node a, when cur stands alone. */
  function AddChild(h: Heap, a: Ptr, cur: Ptr): Heap
    requires a in h && h[a].SubNode? && (h[a].last.Some? ==> h[a].last.value in h && h[a].last.value != a)
  {
    if h[a].last.None? then h[a := h[a].(child := Some(cur), last := Some(cur))]
    else SetSibling(h, h[a].last.value, Some(cur))[a := h[a].(last := Some(cur))]
  }

  /** The first node of a list, alone. */
  function Alone(r: Shape): (e: Shape)
    requires r != GNil
    ensures e != GNil && e.p == r.p && e.rest == GNil
  {
    match r
    case GProp(p, n, d, _) => GProp(p, n, d, GNil)
    case GSub(p, n, k, _) => GSub(p, n, k, GNil)
  }

  /** Memory after the next node e has been taken out of b's list. */
  ghost predicate Detached(h0: Heap, h: Heap, a: Ptr, all: set<Ptr>, c: Shape, e: Shape, r: Shape, it: Option<Ptr>,
      f: set<Ptr>) {
    && Outside(h0, h, a, all) && f <= all && h.Keys == h0.Keys - f
    && a in h && a !in all && h[a].SubNode? && h[a].last == Last(c)
    && Rep(h, h[a].child, c) && Lasts(h, c) && Rep(h, it, r) && Lasts(h, r)
    && e != GNil && e.rest == GNil && Rep(h, Some(e.p), e) && Lasts(h, e)
    && Sep(c) && Sep(e) && Sep(r) && Ptrs(c) !! Ptrs(r) && Ptrs(c) !! Ptrs(e) && Ptrs(e) !! Ptrs(r)
    && Ptrs(c) + Ptrs(e) + Ptrs(r) + f == all && f !! Ptrs(c) + Ptrs(e) + Ptrs(r)
  }

  lemma TakenOut(h0: Heap, h: Heap, a: Ptr, all: set<Ptr>, c: Shape, r: Shape, it: Option<Ptr>, f: set<Ptr>)
    requires Merging(h0, h, a, all, c, r, it, f) && r != GNil
    ensures it == Some(r.p) && r.p in h && r.p in all
    ensures Detached(h0, SetSibling(h, r.p, None), a, all, c, Alone(r), r.rest, h[r.p].sibling, f)
  {
    hide Sep, Outside, Last;
    var n := SetSibling(h, r.p, None);
    RepIn(h, it, r);
    RepIn(h, h[a].child, c);
    SepRest(r);
    SepOne(Alone(r));
    RepFrame(h, n, h[a].child, c);
    RepFrame(h, n, h[r.p].sibling, r.rest);
    if r.GSub? {
      RepFrame(h, n, h[r.p].child, r.body);
    }
    OutsideSet(h0, h, a, all, r.p, n[r.p]);
    assert Ptrs(r) == Ptrs(Alone(r)) + Ptrs(r.rest);
    assert Rep(n, None, GNil) && Rep(n, Some(r.p), Alone(r));
    assert n.Keys == h.Keys;
    assert Ptrs(Alone(r)) !! Ptrs(r.rest);
    SetParts(Ptrs(c), Ptrs(r), Ptrs(Alone(r)), Ptrs(r.rest), f, all);
    assert Lasts(n, Alone(r));
  }

  lemma SetParts<T>(c: set<T>, r: set<T>, e: set<T>, s: set<T>, f: set<T>, all: set<T>)
    requires r == e + s && c !! r && c + r + f == all && f !! c + r
    ensures c !! e && c !! s && c + e + s + f == all && f !! c + e + s
  {
  }

  lemma OutsideSet(h0: Heap, h: Heap, a: Ptr, all: set<Ptr>, p: Ptr, v: Node)
    requires Outside(h0, h, a, all) && p in all
    ensures Outside(h0, h[p := v], a, all)
  {
  }

  lemma {:induction false} LastIn(g: Shape)
    requires g != GNil
    ensures Last(g).Some? && Last(g).value in Ptrs(g)
  {
    if g.rest != GNil {
      LastIn(g.rest);
    }
  }

  /** The node is put at the end of a's list. */
  lemma Added(h0: Heap, h: Heap, a: Ptr, all: set<Ptr>, c: Shape, e: Shape, r: Shape, it: Option<Ptr>, f: set<Ptr>)
    requires Detached(h0, h, a, all, c, e, r, it, f)
    ensures h[a].last.Some? ==> h[a].last.value in h && h[a].last.value != a
    ensures Merging(h0, AddChild(h, a, e.p), a, all, GAppend(c, e), r, it, f)
  {
    hide Sep, Outside, GAppend, Last;
    RepIn(h, h[a].child, c);
    RepIn(h, Some(e.p), e);
    RepIn(h, it, r);
    AppendShape(c, e);
    AppendNil(e);
    LastIs(c, e);
    if c == GNil {
      var m := h[a := h[a].(child := Some(e.p), last := Some(e.p))];
      RepFrame(h, m, Some(e.p), e);
      RepFrame(h, m, it, r);
      OutsideList(h0, h, a, all, m[a]);
    } else {
      LastIn(c);
      var l := Last(c).value;
      RepAppend(h, h[a].child, c, e);
      var n := SetSibling(h, l, Some(e.p));
      var m := n[a := n[a].(last := Some(e.p))];
      RepFrame(n, m, h[a].child, GAppend(c, e));
      RepFrame(h, m, it, r);
      OutsideSet(h0, h, a, all, l, n[l]);
      OutsideList(h0, n, a, all, m[a]);
    }
  }

  lemma AppendNil(e: Shape)
    ensures GAppend(GNil, e) == e
  {
  }

  lemma LastIs(c: Shape, e: Shape)
    requires e != GNil && e.rest == GNil
    ensures Last(e) == Some(e.p) && (c == GNil <==> Last(c).None?)
  {
    if c != GNil {
      LastIn(c);
    }
  }

  lemma OutsideList(h0: Heap, h: Heap, a: Ptr, all: set<Ptr>, v: Node)
    requires Outside(h0, h, a, all) && a in h && h[a].SubNode? && v.SubNode? && v.name == h[a].name
             && v.sibling == h[a].sibling
    ensures Outside(h0, h[a := v], a, all)
  {
  }

  /** The node has given its value to the property of the same name, and is given back. */
  lemma ValueTaken(h0: Heap, h: Heap, a: Ptr, all: set<Ptr>, c: Shape, e: Shape, r: Shape, it: Option<Ptr>, f: set<Ptr>)
    requires Detached(h0, h, a, all, c, e, r, it, f) && e.GProp? && PropPtr(c, e.name).Some?
    ensures var t := PropPtr(c, e.name).value;
            && t in h && h[t].PropNode? && e.p in h && h[e.p].PropNode? && h[e.p].data == e.data
            && Merging(h0, h[t := h[t].(data := e.data)] - {e.p}, a, all, GPutData(c, e.name, e.data), r, it, f + {e.p})
  {
    hide Sep, Outside, GPutData, PropPtr, Last;
    RepIn(h, h[a].child, c);
    RepIn(h, it, r);
    PutDataShape(c, e.name, e.data);
    RepPutData(h, h[a].child, c, e.name, e.data);
    var t := PropPtr(c, e.name).value;
    var n := h[t := h[t].(data := e.data)];
    var m := n - {e.p};
    RepFrame(n, m, h[a].child, GPutData(c, e.name, e.data));
    RepFrame(h, m, it, r);
    OutsideSet(h0, h, a, all, t, n[t]);
    OutsideDrop(h0, n, a, all, e.p);
    assert Ptrs(e) == {e.p};
    assert m.Keys == h0.Keys - (f + {e.p});
  }

  lemma OutsideDrop(h0: Heap, h: Heap, a: Ptr, all: set<Ptr>, p: Ptr)
    requires Outside(h0, h, a, all) && p in all
    ensures Outside(h0, h - {p}, a, all)
  {
  }

  /** The nodes a and b, with lists ga and gb, may be merged. */
  ghost predicate Mergeable(h: Heap, a: Ptr, b: Ptr, ga: Shape, gb: Shape) {
    && a in h && b in h && a != b && h[a].SubNode? && h[b].SubNode?
    && a !in Ptrs(ga) + Ptrs(gb) && b !in Ptrs(ga) + Ptrs(gb) && Sep(ga) && Sep(gb) && Ptrs(ga) !! Ptrs(gb)
    && Rep(h, h[a].child, ga) && Rep(h, h[b].child, gb) && Lasts(h, ga) && Lasts(h, gb) && h[a].last == Last(ga)
  }

  /** Memory h0 after merge_children on a and b: b has no children, and what is neither a's nor b's is untouched. */
  ghost predicate Merged(h0: Heap, h: Heap, a: Ptr, b: Ptr, ga: Shape, gb: Shape) {
    && a in h0 && b in h0 && a in h && b in h && h[a].SubNode? && h[b].SubNode?
    && h[a].name == h0[a].name && h[a].sibling == h0[a].sibling
    && h[b].name == h0[b].name && h[b].sibling == h0[b].sibling && h[b].child == None
    && Rep(h, h[a].child, GMerge(ga, gb).0) && Lasts(h, GMerge(ga, gb).0) && h[a].last == Last(GMerge(ga, gb).0)
    && h.Keys == h0.Keys - GMerge(ga, gb).1
    && forall p | p in h0 && p != a && p != b && p !in Ptrs(ga) && p !in Ptrs(gb) :: p in h && h[p] == h0[p]
  }

  lemma SubReady(h0: Heap, h: Heap, a: Ptr, all: set<Ptr>, c: Shape, e: Shape, r: Shape, it: Option<Ptr>, f: set<Ptr>)
    requires Detached(h0, h, a, all, c, e, r, it, f) && e.GSub? && SubPtr(c, e.name).Some?
    ensures Mergeable(h, SubPtr(c, e.name).value, e.p, GBody(c, e.name), e.body)
  {
    hide Sep, Outside, Last;
    RepIn(h, h[a].child, c);
    BodyShape(c, e.name);
    SepRest(e);
    BodyRep(h, h[a].child, c, e.name);
  }

  lemma {:induction false} BodyRep(h: Heap, first: Option<Ptr>, g: Shape, x: Str)
    requires Rep(h, first, g) && Lasts(h, g) && SubPtr(g, x).Some?
    ensures var t := SubPtr(g, x).value;
            t in h && h[t].SubNode? && Rep(h, h[t].child, GBody(g, x)) && Lasts(h, GBody(g, x))
              && h[t].last == Last(GBody(g, x))
    decreases g
  {
    match g
    case GProp(p, _, _, r) => BodyRep(h, h[p].sibling, r, x);
    case GSub(p, n, _, r) => if n != x { BodyRep(h, h[p].sibling, r, x); }
  }

  /** The list c after the children of a subnode of it have been merged with those of e, which is dropped. */
  lemma ChildrenRep(h: Heap, n: Heap, first: Option<Ptr>, c: Shape, x: Str, e: Ptr, eb: Shape)
    requires Rep(h, first, c) && Lasts(h, c) && Sep(c) && SubPtr(c, x).Some? && Ptrs(c) !! Ptrs(eb) && e !in Ptrs(c)
             && e !in Ptrs(eb) && Sep(eb)
    requires Merged(h, n, SubPtr(c, x).value, e, GBody(c, x), eb)
    ensures var j := GMerge(GBody(c, x), eb).0;
            Rep(n - {e}, first, GPutBody(c, x, j)) && Lasts(n - {e}, GPutBody(c, x, j))
              && Last(GPutBody(c, x, j)) == Last(c)
  {
    hide Sep, Last, GMerge, Erase;
    var t, k := SubPtr(c, x).value, GBody(c, x);
    var j := GMerge(k, eb);
    BodyShape(c, x);
    MergeShares(k, eb);
    SharedSets(k, eb, j.0, j.1);
    PutBodyTree(c, x, j.0);
    RepIn(h, first, c);
    RepIn(n, n[t].child, j.0);
    RepFrame(n, n - {e}, n[t].child, j.0);
    RepPutBody(h, n - {e}, first, c, x, j.0);
  }

  /** The node's children have gone to the subnode of the same name, and it is given back. */
  lemma ChildrenTaken(h0: Heap, h: Heap, n: Heap, a: Ptr, all: set<Ptr>, c: Shape, e: Shape, r: Shape, it: Option<Ptr>,
      f: set<Ptr>)
    requires Detached(h0, h, a, all, c, e, r, it, f) && e.GSub? && SubPtr(c, e.name).Some?
    requires Merged(h, n, SubPtr(c, e.name).value, e.p, GBody(c, e.name), e.body)
    ensures var j := GMerge(GBody(c, e.name), e.body);
            Merging(h0, n - {e.p}, a, all, GPutBody(c, e.name, j.0), r, it, f + (j.1 + {e.p}))
  {
    hide Sep, Outside, Last, GMerge, Erase, GPutBody, GBody, SubPtr;
    var t, k := SubPtr(c, e.name).value, GBody(c, e.name);
    var j := GMerge(k, e.body);
    var m := n - {e.p};
    BodyShape(c, e.name);
    SepRest(e);
    MergeShares(k, e.body);
    SharedSets(k, e.body, j.0, j.1);
    PutBodyShape(c, e.name, j.0);
    assert Ptrs(e) == {e.p} + Ptrs(e.body);
    ChildrenRep(h, n, h[a].child, c, e.name, e.p, e.body);
    RepIn(h, it, r);
    TakenSets(Ptrs(c), t, Ptrs(k), e.p, Ptrs(e.body), Ptrs(r), f, Ptrs(j.0), j.1, all);
    RepFrame(h, m, it, r);
    OutsideMerge(h0, h, n, a, all, t, e.p, Ptrs(k), Ptrs(e.body), j.1);
    OutsideDrop(h0, n, a, all, e.p);
    assert m.Keys == h0.Keys - (f + (j.1 + {e.p}));
  }

  lemma SharedSets(a: Shape, b: Shape, g: Shape, f: set<Ptr>)
    requires Shared(a, b, g, f)
    ensures Sep(g) && Ptrs(g) !! f && Ptrs(g) + f == Ptrs(a) + Ptrs(b) && f <= Ptrs(b)
  {
  }

  /** c's nodes with those of k exchanged for j, when k and eb have become j and jf. */
  lemma TakenSets<T>(c: set<T>, t: T, k: set<T>, ep: T, eb: set<T>, r: set<T>, f: set<T>, j: set<T>, jf: set<T>,
      all: set<T>)
    requires k <= c && t in c && t !in k && ep !in eb && ep !in c && eb !! c && r !! c && ep !in r && eb !! r
    requires c + ({ep} + eb) + r + f == all && f !! c + ({ep} + eb) + r
    requires j + jf == k + eb && j !! jf && jf <= eb
    ensures (c - k + j) + r + (f + (jf + {ep})) == all && (f + (jf + {ep})) !! (c - k + j) + r && (c - k + j) !! r
            && j !! c - k
  {
  }

  lemma OutsideMerge(h0: Heap, h: Heap, n: Heap, a: Ptr, all: set<Ptr>, t: Ptr, e: Ptr, k: set<Ptr>, eb: set<Ptr>,
      jf: set<Ptr>)
    requires Outside(h0, h, a, all) && t in all && e in all && k <= all && eb <= all && jf <= eb && a in h && a !in all
    requires n.Keys == h.Keys - jf && forall p | p in h && p != t && p != e && p !in k && p !in eb ::
             p in n && n[p] == h[p]
    ensures Outside(h0, n, a, all)
  {
  }

  lemma MergingStart(h: Heap, a: Ptr, b: Ptr, ga: Shape, gb: Shape)
    requires Mergeable(h, a, b, ga, gb)
    ensures Merging(h, h, a, Ptrs(ga) + Ptrs(gb), ga, gb, h[b].child, {})
  {
    hide Sep, Last;
    RepIn(h, h[a].child, ga);
    RepIn(h, h[b].child, gb);
  }

  lemma MergingEnd(h0: Heap, h: Heap, a: Ptr, b: Ptr, ga: Shape, gb: Shape, c: Shape, r: Shape, f: set<Ptr>)
    requires Mergeable(h0, a, b, ga, gb) && Merging(h0, h, a, Ptrs(ga) + Ptrs(gb), c, r, None, f)
    requires GMerge(ga, gb) == (GMerge(c, r).0, GMerge(c, r).1 + f)
    ensures b in h && h[b].SubNode? && Merged(h0, h[b := h[b].(child := None)], a, b, ga, gb)
  {
    hide Sep, Last;
    var n := h[b := h[b].(child := None)];
    assert r == GNil && {} + f == f;
    RepIn(h, h[a].child, c);
    RepFrame(h, n, h[a].child, c);
  }

  lemma Turn(ga: Shape, gb: Shape, c: Shape, r: Shape, f: set<Ptr>)
    requires r != GNil && GMerge(ga, gb) == (GMerge(c, r).0, GMerge(c, r).1 + f)
    ensures GMerge(ga, gb) == (GMerge(ShapeStep(c, r).0, r.rest).0,
            GMerge(ShapeStep(c, r).0, r.rest).1 + (f + ShapeStep(c, r).1))
  {
    hide ShapeStep;
    var m, x := GMerge(ShapeStep(c, r).0, r.rest).1, ShapeStep(c, r).1;
    assert m + x + f == m + (f + x);
  }

  /** The turn of the loop in terms of the node taken out. */
  lemma ShapeStepIs(c: Shape, r: Shape)
    requires r != GNil
    ensures var e := Alone(r);
            && e.name == r.name && (e.GSub? <==> r.GSub?)
            && (e.GSub? && SubPtr(c, e.name).None? ==> ShapeStep(c, r) == (GAppend(c, e), {}))
            && (e.GProp? && PropPtr(c, e.name).None? ==> ShapeStep(c, r) == (GAppend(c, e), {}))
            && (e.GSub? && SubPtr(c, e.name).Some? ==>
                  var j := GMerge(GBody(c, e.name), e.body);
                    e.body == r.body && ShapeStep(c, r) == (GPutBody(c, e.name, j.0), j.1 + {e.p}))
            && (e.GProp? && PropPtr(c, e.name).Some? ==> ShapeStep(c, r) == (GPutData(c, e.name, e.data), {e.p}))
  {
  }

  lemma GoodSibling(tables: seq<Table>, h: Heap, p: Ptr, s: Option<Ptr>)
    requires Good(tables, h) && p in h
    ensures Good(tables, SetSibling(h, p, s))
  {
  }

  lemma GoodAdded(tables: seq<Table>, h: Heap, a: Ptr, cur: Ptr)
    requires Good(tables, h) && a in h && h[a].SubNode?
             && (h[a].last.Some? ==> h[a].last.value in h && h[a].last.value != a)
    ensures Good(tables, AddChild(h, a, cur))
  {
  }

  lemma GoodValue(tables: seq<Table>, h: Heap, t: Ptr, p: Ptr)
    requires Good(tables, h) && t in h && p in h && h[t].PropNode? && h[p].PropNode?
    ensures Good(tables, h[t := h[t].(data := h[p].data)])
  {
  }

  lemma GoodEmptied(tables: seq<Table>, h: Heap, b: Ptr)
    requires Good(tables, h) && b in h && h[b].SubNode?
    ensures Good(tables, h[b := h[b].(child := None)])
  {
  }

  lemma GoodDrop(tables: seq<Table>, h: Heap, p: Ptr)
    requires Good(tables, h)
    ensures Good(tables, h - {p})
  {
  }

  class Nodes {
    const pool: Pool
    var h: Heap

    /** The nodes in memory are exactly the live entries of the pool. */
    ghost predicate Valid()
      reads this, pool
    {
      pool.Valid() && h.Keys == pool.live
    }

    constructor (pool: Pool)
      requires pool.Valid() && pool.live == {}
      ensures Valid() && this.pool == pool && h == map[]
    {
      this.pool, h := pool, map[];
    }

    /** ufdt_node_construct for a node tag. */
    method NewSubNode(name: Str) returns (p: Ptr)
      requires Valid()
      modifies this`h, pool
      ensures Valid() && p !in old(h) && h == old(h)[p := SubNode(name, None, None, None)]
    {
      p := pool.Alloc();
      h := h[p := SubNode(name, None, None, None)];
    }

    /** ufdt_node_construct for a property tag. */
    method NewPropNode(name: Str, at: nat, data: Str) returns (p: Ptr)
      requires Valid()
      modifies this`h, pool
      ensures Valid() && p !in old(h) && h == old(h)[p := PropNode(name, at, data, None)]
    {
      p := pool.Alloc();
      h := h[p := PropNode(name, at, data, None)];
    }

    /** ufdt_node_pool_free of a node. */
    method Free(p: Ptr)
      requires Valid() && p in h
      modifies this`h, pool
      ensures Valid() && h == old(h) - {p}
    {
      pool.Free(p);
      h := h - {p};
    }

    /** ufdt_node_get_subnode_by_name, among the siblings from first on. */
    method SubnodeByName(first: Option<Ptr>, name: Str, ghost g: Shape) returns (t: Option<Ptr>)
      requires Rep(h, first, g)
      ensures t == SubPtr(g, name)
    {
      t := first;
      ghost var r := g;
      while t.Some?
        invariant Rep(h, t, r) && SubPtr(r, name) == SubPtr(g, name)
        decreases r
      {
        if h[t.value].SubNode? && h[t.value].name == name {
          return;
        }
        t := h[t.value].sibling;
        r := r.rest;
      }
    }

    /** ufdt_node_get_property_by_name, among the siblings from first on. */
    method PropertyByName(first: Option<Ptr>, name: Str, ghost g: Shape) returns (t: Option<Ptr>)
      requires Rep(h, first, g)
      ensures t == PropPtr(g, name)
    {
      t := first;
      ghost var r := g;
      while t.Some?
        invariant Rep(h, t, r) && PropPtr(r, name) == PropPtr(g, name)
        decreases r
      {
        if h[t.value].PropNode? && h[t.value].name == name {
          return;
        }
        t := h[t.value].sibling;
        r := r.rest;
      }
    }

    /** merge_children: a's list becomes the merge of both, and every node of b's is in it or given back to the pool. */
    method MergeChildren(a: Ptr, b: Ptr, ghost ga: Shape, ghost gb: Shape, ghost tables: seq<Table>)
      requires Valid() && Mergeable(h, a, b, ga, gb) && Good(tables, h)
      modifies this`h, pool
      ensures Valid() && Merged(old(h), h, a, b, ga, gb) && Good(tables, h)
      ensures Erase(GMerge(ga, gb).0) == UMerge(Erase(ga), Erase(gb))
      decreases gb
    {
      hide Good, Sep, Outside, Last, GMerge, ShapeStep, Merging, Detached, Merged, Mergeable, Rep, Lasts, Erase, UMerge,
        Linked, Accounted, FreeFirst, OneEmpty, Ptrs;
      MergeTree(ga, gb);
      MergingStart(h, a, b, ga, gb);
      MergeableIn(h, a, b, ga, gb);
      ghost var h0, all, c, r, f := h, Ptrs(ga) + Ptrs(gb), ga, gb, {};
      assert GMerge(ga, gb).1 + {} == GMerge(ga, gb).1;
      var it := h[b].child;
      while it.Some?
        invariant Valid() && Merging(h0, h, a, all, c, r, it, f) && Good(tables, h)
        invariant GMerge(ga, gb) == (GMerge(c, r).0, GMerge(c, r).1 + f)
        decreases r
      {
        MergingHere(h0, h, a, all, c, r, it, f);
        it := MergeOne(h0, a, it.value, all, c, r, f, tables);
        Turn(ga, gb, c, r, f);
        c, r, f := ShapeStep(c, r).0, r.rest, f + ShapeStep(c, r).1;
      }
      MergingEnd(h0, h, a, b, ga, gb, c, r, f);
      GoodEmptied(tables, h, b);
      h := h[b := h[b].(child := None)];
    }

    /** One turn of the loop: the node cur goes into a's list or into the node there that has its name. */
    method MergeOne(ghost h0: Heap, a: Ptr, cur: Ptr, ghost all: set<Ptr>, ghost c: Shape, ghost r: Shape,
        ghost f: set<Ptr>,
                    ghost tables: seq<Table>) returns (it: Option<Ptr>)
      requires Valid() && r != GNil && Merging(h0, h, a, all, c, r, Some(cur), f) && Good(tables, h)
      modifies this`h, pool
      ensures Valid() && Good(tables, h) && Merging(h0, h, a, all, ShapeStep(c, r).0, r.rest, it, f + ShapeStep(c, r).1)
      decreases r, 0
    {
      hide Good, Sep, Outside, Last, GMerge, ShapeStep, Merging, Detached, Merged, Mergeable, Rep, Lasts, Erase, UMerge,
        Linked, Accounted, FreeFirst, OneEmpty, Ptrs,
        Alone, SubPtr, PropPtr, GBody, GPutBody, GPutData, GAppend;
      TakenOut(h0, h, a, all, c, r, Some(cur), f);
      it := h[cur].sibling;
      GoodSibling(tables, h, cur, None);
      h := SetSibling(h, cur, None);
      ghost var e := Alone(r);
      ApartHere(h0, h, a, all, c, e, r.rest, it, f);
      ShapeStepIs(c, r);
      ghost var m := h;
      if h[cur].SubNode? {
        var target := SubnodeByName(h[a].child, h[cur].name, c);
        if target.None? {
          Added(h0, h, a, all, c, e, r.rest, it, f);
          GoodAdded(tables, h, a, cur);
          h := AddChild(h, a, cur);
          assert f + {} == f;
        } else {
          SubReady(h0, h, a, all, c, e, r.rest, it, f);
          MergeChildren(target.value, cur, GBody(c, e.name), e.body, tables);
          ChildrenTaken(h0, m, h, a, all, c, e, r.rest, it, f);
          MergedIn(m, h, target.value, cur, GBody(c, e.name), e.body);
          GoodDrop(tables, h, cur);
          Free(cur);
        }
      } else {
        var target := PropertyByName(h[a].child, h[cur].name, c);
        if target.None? {
          Added(h0, h, a, all, c, e, r.rest, it, f);
          GoodAdded(tables, h, a, cur);
          h := AddChild(h, a, cur);
          assert f + {} == f;
        } else {
          ValueTaken(h0, h, a, all, c, e, r.rest, it, f);
          GoodValue(tables, h, target.value, cur);
          h := h[target.value := h[target.value].(data := h[cur].data)];
          GoodDrop(tables, h, cur);
          Free(cur);
        }
      }
    }
  }

  lemma MergeableIn(h: Heap, a: Ptr, b: Ptr, ga: Shape, gb: Shape)
    requires Mergeable(h, a, b, ga, gb)
    ensures b in h && h[b].SubNode?
  {
  }

  lemma MergedIn(h0: Heap, h: Heap, a: Ptr, b: Ptr, ga: Shape, gb: Shape)
    requires Merged(h0, h, a, b, ga, gb)
    ensures b in h
  {
  }

  lemma MergingHere(h0: Heap, h: Heap, a: Ptr, all: set<Ptr>, c: Shape, r: Shape, it: Option<Ptr>, f: set<Ptr>)
    requires Merging(h0, h, a, all, c, r, it, f) && it.Some?
    ensures r != GNil && it == Some(r.p) && r.p in h
  {
  }

  lemma ApartHere(h0: Heap, h: Heap, a: Ptr, all: set<Ptr>, c: Shape, e: Shape, r: Shape, it: Option<Ptr>, f: set<Ptr>)
    requires Detached(h0, h, a, all, c, e, r, it, f)
    ensures a in h && h[a].SubNode? && Rep(h, h[a].child, c) && e != GNil && e.p in h && e.p != a
    ensures h[e.p].SubNode? == e.GSub? && h[e.p].name == e.name
            && (e.GProp? ==> h[e.p].PropNode? && h[e.p].data == e.data)
  {
    RepIn(h, Some(e.p), e);
  }
}
