/**
 * Applying an overlay with libufdt (libs/libufdt/ufdt_overlay.c, ufdt_apply_overlay): two blobs are unflattened into
 * one pool, the overlay's fragments go into the main tree one after the other, the result is written out, and all is
 * released.
 */
module UfdtApply {
  import opened Bytes
  import opened Tree
  import opened Encoding
  import opened Positions
  import opened Tags
  import opened Edits
  import opened Sem
  import opened Overlay
  import opened Ufdt
  import opened NodePools
  import opened UfdtNames
  import opened UfdtHeap
  import opened UfdtLife
  import UfdtSizes
  import UfdtBuild
  import UfdtOut
  import FdtSw

  // ----- The value of a tree, and a tree with other values -----

  /** The list from first on, as a value. */
  method ReadList(h: Heap, first: Option<Ptr>, ghost g: Shape) returns (f: Forest)
    requires Rep(h, first, g)
    ensures f == Erase(g)
    decreases g
  {
    if first.None? {
      return Nil;
    }
    var n := h[first.value];
    var rest := ReadList(h, n.sibling, g.rest);
    if n.PropNode? {
      f := PropF(n.name, n.data, rest);
    } else {
      var body := ReadList(h, n.child, g.body);
      f := SubF(n.name, body, rest);
    }
  }

  /** The nodes g with the values of f. */
  function Refill(g: Shape, f: Forest): (r: Shape)
    requires UfdtSizes.Alike(Erase(g), f)
  {
    match g
    case GNil => GNil
    case GProp(p, n, _, r) => GProp(p, n, f.data, Refill(r, f.rest))
    case GSub(p, n, k, r) => GSub(p, n, Refill(k, f.body), Refill(r, f.rest))
  }

  lemma {:induction false} RefillIs(g: Shape, f: Forest)
    requires UfdtSizes.Alike(Erase(g), f)
    ensures Erase(Refill(g, f)) == f && Ptrs(Refill(g, f)) == Ptrs(g) && (Sep(g) ==> Sep(Refill(g, f)))
    ensures Last(Refill(g, f)) == Last(g) && (Refill(g, f) == GNil <==> g == GNil)
  {
    match g
    case GNil =>
    case GProp(_, _, _, r) => RefillIs(r, f.rest);
    case GSub(_, _, k, r) =>
      RefillIs(k, f.body);
      RefillIs(r, f.rest);
  }

  /** Only values of properties among s differ, and none of them is longer. */
  ghost predicate OtherValues(h: Heap, n: Heap, s: set<Ptr>) {
    && n.Keys == h.Keys
    && (forall p | p in h && p !in s :: n[p] == h[p])
    && (forall p | p in h && h[p].SubNode? :: n[p] == h[p])
    && (forall p | p in h && h[p].PropNode? :: n[p].PropNode? && n[p] == h[p].(data := n[p].data)
                                               && |n[p].data| == |h[p].data|)
  }

  /** The values of the overlay tree once phandles and references have been resolved, stored in the nodes. */
  method StoreValues(ns: Nodes, first: Option<Ptr>, f: Forest, ghost g: Shape)
    requires ns.Valid() && Rep(ns.h, first, g) && Lasts(ns.h, g) && Sep(g) && UfdtSizes.Alike(Erase(g), f)
    modifies ns`h
    ensures ns.Valid() && OtherValues(old(ns.h), ns.h, Ptrs(g))
    ensures Rep(ns.h, first, Refill(g, f)) && Lasts(ns.h, Refill(g, f))
    decreases g
  {
    hide Linked, Accounted, FreeFirst, OneEmpty, Last, Sep;
    if first.None? {
      return;
    }
    ghost var h0 := ns.h;
    var p := first.value;
    SepRest(g);
    RepIn(h0, first, g);
    RefillIs(g, f);
    RefillIs(g.rest, f.rest);
    if ns.h[p].PropNode? {
      ns.h := ns.h[p := ns.h[p].(data := f.data)];
      assert ns.h.Keys == h0.Keys;
      RepFrame(h0, ns.h, h0[p].sibling, g.rest);
      ghost var h1 := ns.h;
      StoreValues(ns, ns.h[p].sibling, f.rest, g.rest);
    } else {
      RefillIs(g.body, f.body);
      StoreValues(ns, ns.h[p].child, f.body, g.body);
      ghost var h1 := ns.h;
      RepFrame(h0, h1, h0[p].sibling, g.rest);
      StoreValues(ns, ns.h[p].sibling, f.rest, g.rest);
      RepFrame(h1, ns.h, h0[p].child, Refill(g.body, f.body));
    }
  }

  lemma ValuesGood(tables: seq<Table>, h: Heap, n: Heap, s: set<Ptr>)
    requires Good(tables, h) && OtherValues(h, n, s)
    ensures Good(tables, n)
  {
    forall p | p in n
      ensures GoodNode(tables, n[p])
    {
      assert GoodNode(tables, h[p]);
    }
  }

  /** The two trees after the overlay's values have changed. */
  lemma ValuesTrees(h: Heap, n: Heap, m: Ptr, o: Ptr, gm: Shape, go: Shape, f: Forest)
    requires Trees(h, m, o, gm, go) && UfdtSizes.Alike(Erase(go), f) && OtherValues(h, n, Ptrs(go))
    requires Rep(n, h[o].child, Refill(go, f))
    ensures Trees(n, m, o, gm, Refill(go, f)) && n[m] == h[m] && n[o] == h[o]
  {
    hide Sep, Rep, Lasts, Last;
    RefillIs(go, f);
    RepIn(h, h[m].child, gm);
    RepFrame(h, n, h[m].child, gm);
  }

  // ----- Finding a node -----

  /** ufdt_node_get_node_by_path, the path being split into names. */
  method NodeByPath(ns: Nodes, root: Ptr, path: Path, ghost g: Shape) returns (r: Option<Ptr>)
    requires root in ns.h && ns.h[root].SubNode? && Rep(ns.h, ns.h[root].child, g)
    ensures r == PathPtr(root, g, path)
  {
    var cur, i := root, 0;
    ghost var b := g;
    assert path[0..] == path;
    while i < |path|
      invariant 0 <= i <= |path| && cur in ns.h && ns.h[cur].SubNode? && Rep(ns.h, ns.h[cur].child, b)
      invariant PathPtr(cur, b, path[i..]) == PathPtr(root, g, path)
    {
      var t := ns.SubnodeByName(ns.h[cur].child, path[i], b);
      assert path[i..][1..] == path[i + 1..];
      if t.None? {
        return None;
      }
      SubRep(ns.h, ns.h[cur].child, b, path[i]);
      cur, b := t.value, GBody(b, path[i]);
      i := i + 1;
    }
    r := Some(cur);
  }

  /** The node at a path, and the tree with another list there, as values. */
  lemma {:induction false} PathErase(root: Ptr, g: Shape, path: Path, k: Shape)
    ensures PathPtr(root, g, path).Some? <==> NodeAt(Erase(g), path).Some?
    ensures PathPtr(root, g, path).Some? ==> NodeAt(Erase(g), path) == Some(Erase(PathBody(root, g, path)))
                                             && Erase(PutPath(root, g, path, k)) == PutAt(Erase(g), path, Erase(k))
    decreases |path|
  {
    if path != [] {
      PutBodyTree(g, path[0], GNil);
      if SubPtr(g, path[0]).Some? {
        var t, b := SubPtr(g, path[0]).value, GBody(g, path[0]);
        PathErase(t, b, path[1..], k);
        if PathPtr(t, b, path[1..]).Some? {
          PutBodyTree(g, path[0], PutPath(t, b, path[1..], k));
        }
      }
    }
  }

  // ----- The fragments -----

  lemma {:induction false} AppendParts(d: Shape, r: Shape)
    requires Sep(GAppend(d, r))
    ensures Sep(d) && Sep(r) && Ptrs(d) !! Ptrs(r)
  {
    AppendShape(d, r);
    if d != GNil {
      AppendShape(d.rest, r);
      AppendParts(d.rest, r);
    }
  }

  /** The list d and then r, when r has become another list that starts with the same node. */
  lemma {:induction false} RepTail(h: Heap, n: Heap, first: Option<Ptr>, d: Shape, r: Shape, q: Shape)
    requires Rep(h, first, GAppend(d, r)) && forall p | p in Ptrs(d) :: p in h && p in n && n[p] == h[p]
    requires r != GNil && q != GNil && r.p == q.p && (Rep(h, Some(r.p), r) ==> Rep(n, Some(r.p), q))
    ensures Rep(n, first, GAppend(d, q))
    decreases d
  {
    match d
    case GNil =>
    case GProp(p, _, _, e) => RepTail(h, n, h[p].sibling, e, r, q);
    case GSub(p, _, k, e) =>
      RepFrame(h, n, h[p].child, k);
      RepTail(h, n, h[p].sibling, e, r, q);
  }

  /** The fragment node r without what its __overlay__ node contained. */
  function Emptied(r: Shape): Shape
    requires r.GSub? && SubPtr(r.body, OVERLAY).Some?
  {
    GSub(r.p, r.name, GPutBody(r.body, OVERLAY, GNil), r.rest)
  }

  /** Where ufdt_overlay_apply_fragments is: the overlay's list is d, done, and r, from it on. */
  ghost predicate Applying(h: Heap, m: Ptr, o: Ptr, gm: Shape, d: Shape, r: Shape, it: Option<Ptr>) {
    Trees(h, m, o, gm, GAppend(d, r)) && Rep(h, it, r) && Lasts(h, r)
  }

  /** The fragment node r has an __overlay__ node, which is to be merged into the main node at path t. */
  ghost predicate TargetIn(h: Heap, m: Ptr, o: Ptr, gm: Shape, d: Shape, r: Shape, it: Option<Ptr>, t: Path) {
    Applying(h, m, o, gm, d, r, it) && r.GSub? && SubPtr(r.body, OVERLAY).Some? && PathPtr(m, gm, t).Some?
  }

  lemma OverlayParts(d: Shape, r: Shape)
    requires Sep(GAppend(d, r)) && r.GSub? && SubPtr(r.body, OVERLAY).Some?
    ensures var v, b, all := SubPtr(r.body, OVERLAY).value, GBody(r.body, OVERLAY), Ptrs(GAppend(d, r));
            && Sep(b) && v !in Ptrs(b) && v in Ptrs(r.body) && Ptrs(b) <= Ptrs(r.body)
            && all == Ptrs(d) + ({r.p} + Ptrs(r.body) + Ptrs(r.rest))
            && Ptrs(d) !! {r.p} + Ptrs(r.body) + Ptrs(r.rest) && r.p !in Ptrs(r.body) && r.p !in Ptrs(r.rest)
               && Ptrs(r.body) !! Ptrs(r.rest)
            && Sep(Emptied(r)) && Ptrs(Emptied(r)) == {r.p} + (Ptrs(r.body) - Ptrs(b)) + Ptrs(r.rest)
            && Sep(GAppend(d, Emptied(r))) && Ptrs(GAppend(d, Emptied(r))) == all - Ptrs(b)
  {
    hide GAppend, GPutBody, GBody, SubPtr;
    AppendShape(d, r);
    AppendParts(d, r);
    SepRest(r);
    BodyShape(r.body, OVERLAY);
    PutBodyShape(r.body, OVERLAY, GNil);
    NilIs();
    AppendShape(d, Emptied(r));
  }

  lemma TargetReady(h: Heap, m: Ptr, o: Ptr, gm: Shape, d: Shape, r: Shape, it: Option<Ptr>, t: Path)
    requires TargetIn(h, m, o, gm, d, r, it, t)
    ensures Mergeable(h, PathPtr(m, gm, t).value, SubPtr(r.body, OVERLAY).value, PathBody(m, gm, t),
            GBody(r.body, OVERLAY))
  {
    hide Sep, Rep, Lasts, Last, Ptrs, GAppend;
    OverlayParts(d, r);
    PathTree(h, m, gm, t);
    HeadRep(h, it, r);
    SubRep(h, h[r.p].child, r.body, OVERLAY);
  }

  lemma HeadRep(h: Heap, it: Option<Ptr>, r: Shape)
    requires Rep(h, it, r) && Lasts(h, r) && r != GNil
    ensures it == Some(r.p) && r.p in h && Rep(h, h[r.p].sibling, r.rest) && Lasts(h, r.rest)
    ensures r.GSub? ==> h[r.p].SubNode? && h[r.p].name == r.name && Rep(h, h[r.p].child, r.body) && Lasts(h, r.body)
    ensures r.GProp? ==> h[r.p].PropNode?
  {
  }

  /** The overlay's list after the merge: only what the __overlay__ node contained is gone. */
  lemma OverlayKept(h: Heap, n: Heap, o: Ptr, d: Shape, r: Shape, it: Option<Ptr>)
    requires Hangs(h, o, GAppend(d, r)) && Rep(h, it, r) && Lasts(h, r) && r.GSub? && SubPtr(r.body, OVERLAY).Some?
    requires var v := SubPtr(r.body, OVERLAY).value;
             KeptNodes(h, n, Ptrs(GAppend(d, r)) + {o} - Ptrs(GBody(r.body, OVERLAY)), v) && n[v].child == None
    ensures Hangs(n, o, GAppend(d, Emptied(r)))
    ensures r.p in n && Rep(n, n[r.p].sibling, r.rest) && Lasts(n, r.rest)
  {
    hide Sep, Lasts, Last, Ptrs, GAppend, GPutBody, GBody, SubPtr, Rep;
    var v, b := SubPtr(r.body, OVERLAY).value, GBody(r.body, OVERLAY);
    OverlayParts(d, r);
    HeadRep(h, it, r);
    NoneRep(n);
    AppendParts(d, r);
    SepRest(r);
    PutBodyRep(h, n, h[r.p].child, r.body, OVERLAY, GNil);
    RepFrame(h, n, h[r.p].sibling, r.rest);
    HeadAgain(n, r.p, r.name, GPutBody(r.body, OVERLAY, GNil), r.rest);
    RepTail(h, n, h[o].child, d, r, Emptied(r));
  }

  lemma NoneRep(n: Heap)
    ensures Rep(n, None, GNil) && Lasts(n, GNil)
  {
  }

  lemma HeadAgain(n: Heap, p: Ptr, name: Str, k: Shape, e: Shape)
    requires p in n && n[p].SubNode? && n[p].name == name && Rep(n, n[p].child, k) && Rep(n, n[p].sibling, e)
    ensures Rep(n, Some(p), GSub(p, name, k, e))
  {
  }

  /** One fragment merged: the two trees still share no node, and what has left the memory was the overlay's. */
  lemma TargetMerged(h: Heap, n: Heap, m: Ptr, o: Ptr, gm: Shape, d: Shape, r: Shape, it: Option<Ptr>, t: Path)
    requires TargetIn(h, m, o, gm, d, r, it, t)
    requires Merged(h, n, PathPtr(m, gm, t).value, SubPtr(r.body, OVERLAY).value, PathBody(m, gm, t),
             GBody(r.body, OVERLAY))
    ensures var j := GMerge(PathBody(m, gm, t), GBody(r.body, OVERLAY));
            Trees(n, m, o, PutPath(m, gm, t, j.0), GAppend(d, Emptied(r)))
    ensures r.p in n && Rep(n, n[r.p].sibling, r.rest) && Lasts(n, r.rest) && n[m].name == h[m].name
  {
    hide Sep, Rep, Lasts, Last, Ptrs, GMerge, GAppend, PathPtr, PathBody, PutPath, Mergeable;
    TargetReady(h, m, o, gm, d, r, it, t);
    var tp, v := PathPtr(m, gm, t).value, SubPtr(r.body, OVERLAY).value;
    var ga, gb, go := PathBody(m, gm, t), GBody(r.body, OVERLAY), GAppend(d, r);
    var j := GMerge(ga, gb);
    MergeableIn(h, tp, v, ga, gb);
    OverlayParts(d, r);
    PathTree(h, m, gm, t);
    MergeShares(ga, gb);
    SharedSets(ga, gb, j.0, j.1);
    NilIs();
    FragmentSets(Ptrs(gm), m, Ptrs(go), o, Ptrs(ga), tp, Ptrs(gb), v, Ptrs(j.0), j.1);
    MergedKeeps(h, n, tp, v, ga, gb, Ptrs(gm) + {m} - Ptrs(ga), tp);
    MergedKeeps(h, n, tp, v, ga, gb, Ptrs(go) + {o} - Ptrs(gb), v);
    MergedHangs(h, n, tp, v, ga, gb);
    PutPathTree(h, n, m, gm, t, j.0);
    OverlayKept(h, n, o, d, r, it);
  }

  lemma {:induction false} AppendOne(d: Shape, r: Shape)
    requires r != GNil
    ensures GAppend(GAppend(d, Alone(r)), r.rest) == GAppend(d, r)
  {
    if d != GNil {
      AppendOne(d.rest, r);
    }
  }

  /** On to the next node of the overlay's list. */
  lemma NextFragment(h: Heap, m: Ptr, o: Ptr, gm: Shape, d: Shape, r: Shape)
    requires Trees(h, m, o, gm, GAppend(d, r)) && r != GNil && r.p in h && Rep(h, h[r.p].sibling, r.rest)
             && Lasts(h, r.rest)
    ensures Applying(h, m, o, gm, GAppend(d, Alone(r)), r.rest, h[r.p].sibling)
  {
    hide Trees, Rep, Lasts, GAppend, Alone;
    AppendOne(d, r);
  }

  /** What UMergeAll has still to do after one fragment. */
  lemma FragmentStep(b: Forest, m: Ptr, gm: Shape, r: Shape, t: Res<Path>)
    requires r.GSub? && SubPtr(r.body, OVERLAY).Some? && t == UTarget(b, Erase(gm), Erase(r.body))
    ensures var all := UMergeAll(b, Erase(gm), Erase(r));
            if t.Ok? && PathPtr(m, gm, t.v).Some? then
              all == UMergeAll(b, Erase(PutPath(m, gm, t.v, GMerge(PathBody(m, gm, t.v), GBody(r.body, OVERLAY)).0)),
                Erase(r.rest))
            else all.Err?
  {
    hide UTarget, UMerge, GMerge, PathPtr, PathBody, PutPath, NodeAt, PutAt;
    PutBodyTree(r.body, OVERLAY, GNil);
    if t.Ok? {
      var k := GBody(r.body, OVERLAY);
      PathErase(m, gm, t.v, GNil);
      if PathPtr(m, gm, t.v).Some? {
        var j := GMerge(PathBody(m, gm, t.v), k).0;
        PathErase(m, gm, t.v, j);
        MergeTree(PathBody(m, gm, t.v), k);
      }
    }
  }

  lemma NoFragment(b: Forest, c: Forest, r: Shape)
    requires r != GNil && (r.GSub? ==> SubPtr(r.body, OVERLAY).None?)
    ensures UMergeAll(b, c, Erase(r)) == UMergeAll(b, c, Erase(r.rest))
  {
    if r.GSub? {
      PutBodyTree(r.body, OVERLAY, GNil);
    }
  }

  /** ufdt_apply_fragment, when the fragment node has an __overlay__ node: 0, or an error that ends the loop. */
  method ApplyFragment(ns: Nodes, m: Ptr, frag: Ptr, v: Ptr, b: Forest, ghost o: Ptr, ghost gm: Shape, ghost d: Shape,
      ghost r: Shape, ghost tables: seq<Table>)
    returns (err: int, ghost g: Shape, ghost q: Shape)
    requires ns.Valid() && Good(tables, ns.h) && Applying(ns.h, m, o, gm, d, r, Some(frag))
    requires r.GSub? && SubPtr(r.body, OVERLAY) == Some(v)
    modifies ns`h, ns.pool
    ensures ns.Valid() && Good(tables, ns.h) && Trees(ns.h, m, o, g, GAppend(d, q)) && q.GSub? && q.p == frag
            && q.rest == r.rest
    ensures frag in ns.h && Rep(ns.h, ns.h[frag].sibling, r.rest) && Lasts(ns.h, r.rest)
    ensures m in old(ns.h) && m in ns.h && ns.h[m].SubNode? && ns.h[m].name == old(ns.h[m].name)
    ensures err == 0 || err == -1
    ensures if err == 0 then UMergeAll(b, Erase(gm), Erase(r)) == UMergeAll(b, Erase(g), Erase(r.rest))
            else UMergeAll(b, Erase(gm), Erase(r)).Err?
  {
    hide Good, Trees, Rep, Lasts, Linked, Accounted, FreeFirst, OneEmpty, Erase, UTarget, UMergeAll, UMerge, GMerge,
      GAppend, PathPtr, PathBody, PutPath,
      Mergeable, Merged, GBody, SubPtr, Sep;
    g, q := gm, r;
    HeadRep(ns.h, Some(frag), r);
    TreesHere(ns.h, m, o, gm, GAppend(d, r));
    var c := ReadList(ns.h, ns.h[m].child, gm);
    var k := ReadList(ns.h, ns.h[frag].child, r.body);
    var t := UTarget(b, c, k);
    FragmentStep(b, m, gm, r, t);
    if t.Err? {
      return -1, g, q;
    }
    var target := NodeByPath(ns, m, t.v, gm);
    if target.None? {
      return -1, g, q;
    }
    ghost var h0 := ns.h;
    TargetReady(ns.h, m, o, gm, d, r, Some(frag), t.v);
    ns.MergeChildren(target.value, v, PathBody(m, gm, t.v), GBody(r.body, OVERLAY), tables);
    TargetMerged(h0, ns.h, m, o, gm, d, r, Some(frag), t.v);
    g, q := PutPath(m, gm, t.v, GMerge(PathBody(m, gm, t.v), GBody(r.body, OVERLAY)).0), Emptied(r);
    TreesHere(ns.h, m, o, g, GAppend(d, q));
    err := 0;
  }

  lemma TreesHere(h: Heap, m: Ptr, o: Ptr, gm: Shape, go: Shape)
    requires Trees(h, m, o, gm, go)
    ensures m in h && h[m].SubNode? && Rep(h, h[m].child, gm) && Sep(gm)
    ensures o in h && h[o].SubNode? && Rep(h, h[o].child, go) && Sep(go)
  {
  }

  /** ufdt_overlay_apply_fragments: b is the main tree as it was at the start. */
  method ApplyFragments(ns: Nodes, m: Ptr, o: Ptr, b: Forest, ghost gm: Shape, ghost go: Shape,
      ghost tables: seq<Table>)
    returns (err: int, ghost g: Shape, ghost q: Shape)
    requires ns.Valid() && Good(tables, ns.h) && Trees(ns.h, m, o, gm, go) && Lasts(ns.h, go)
    modifies ns`h, ns.pool
    ensures ns.Valid() && Good(tables, ns.h) && Trees(ns.h, m, o, g, q) && m in old(ns.h) && m in ns.h
            && ns.h[m].SubNode? && ns.h[m].name == old(ns.h[m].name)
    ensures (err == 0 || err == -1) && (err == 0 <==> UMergeAll(b, Erase(gm), Erase(go)).Ok?)
    ensures err == 0 ==> UMergeAll(b, Erase(gm), Erase(go)) == Ok(Erase(g))
  {
    hide Good, Trees, Rep, Lasts, Linked, Accounted, FreeFirst, OneEmpty, Erase, UMergeAll, GAppend, SubPtr, Sep, Alone;
    ghost var d, r := GNil, go;
    g := gm;
    TreesHere(ns.h, m, o, gm, go);
    NothingDone(go);
    var it := ns.h[o].child;
    while it.Some?
      invariant ns.Valid() && Good(tables, ns.h) && Applying(ns.h, m, o, g, d, r, it)
      invariant m in ns.h && ns.h[m].SubNode? && ns.h[m].name == old(ns.h[m].name)
      invariant UMergeAll(b, Erase(gm), Erase(go)) == UMergeAll(b, Erase(g), Erase(r))
      decreases r
    {
      var frag := it.value;
      SomeLeft(ns.h, it, r);
      HeadRep(ns.h, it, r);
      q := r;
      var v: Option<Ptr> := None;
      if ns.h[frag].SubNode? {
        v := ns.SubnodeByName(ns.h[frag].child, OVERLAY, r.body);
      }
      if v.Some? {
        err, g, q := ApplyFragment(ns, m, frag, v.value, b, o, g, d, r, tables);
        if err < 0 {
          q := GAppend(d, q);
          return;
        }
      } else {
        NoFragment(b, Erase(g), r);
      }
      NextFragment(ns.h, m, o, g, d, q);
      it := ns.h[frag].sibling;
      d, r := GAppend(d, Alone(q)), q.rest;
    }
    NoneRemain(ns.h, b, Erase(g), r);
    q := GAppend(d, r);
    err := 0;
  }

  lemma NothingDone(go: Shape)
    ensures GAppend(GNil, go) == go
  {
  }

  lemma SomeLeft(h: Heap, it: Option<Ptr>, r: Shape)
    requires Rep(h, it, r) && it.Some?
    ensures r != GNil
  {
  }

  lemma NoneRemain(h: Heap, b: Forest, c: Forest, r: Shape)
    requires Rep(h, None, r)
    ensures UMergeAll(b, c, Erase(r)) == Ok(c)
  {
  }

  // ----- The whole -----

  /** The root nodes of the two trees that have been made, the overlay's after the main one. */
  lemma BothBuilt(h1: Heap, h: Heap, m: Option<Ptr>, o: Option<Ptr>, em: Shape, eo: Shape)
    requires UfdtBuild.Built(map[], h1, m, em) && UfdtBuild.Built(h1, h, o, eo) && Erase(em).SubF? && Erase(eo).SubF?
    ensures m.Some? && o.Some? && em.GSub? && eo.GSub? && m.value == em.p && o.value == eo.p && em.rest == GNil
            && eo.rest == GNil
    ensures Trees(h, em.p, eo.p, em.body, eo.body) && Lasts(h, eo.body) && h[em.p].name == em.name
  {
    hide Sep, Last;
    RepFrame(h1, h, m, em);
    SepRest(em);
    SepRest(eo);
    BuiltOpen(h, em);
    BuiltOpen(h, eo);
    assert h.Keys == Ptrs(em) + Ptrs(eo);
  }

  lemma BuiltOpen(h: Heap, e: Shape)
    requires e.GSub? && Rep(h, Some(e.p), e) && Lasts(h, e)
    ensures e.p in h && h[e.p].SubNode? && Rep(h, h[e.p].child, e.body) && Open(h, e.p, e.body) && h[e.p].name == e.name
  {
  }

  /** The blocks of a blob with n reserve entries lie side by side in its size bytes, behind the header. */
  predicate BlocksApart(v: Fdt, n: nat, size: nat) {
    40 + 16 * (n + 1) + |v.struct| + |v.strs| <= size
  }

  /**
   * A buffer of the size of both blobs is large enough for the merged tree: the writer, which checks for the end of
   * the buffer only, never reaches the strings.
   */
  lemma EnoughRoom(main: Fdt, ov: Fdt, mainAddr: nat, ovAddr: nat, f: Forest, o: Forest, u: Forest, n: nat,
      mainSize: nat, ovSize: nat)
    requires Encodes(main, f) && Encodes(ov, o) && f.SubF? && o.SubF?
             && UOverlayApply(Strip(f.body), Strip(o.body)) == Ok(u)
    requires BlocksApart(main, n, mainSize) && BlocksApart(ov, 0, ovSize)
    ensures UfdtOut.BlobSize(n, f.name, u, [Table(mainAddr, main.strs), Table(ovAddr, ov.strs)]) <= mainSize + ovSize
  {
    hide UOverlayApply, PropsOf, EmitSubs, Strip, RepAll, Flat;
    UfdtSizes.ApplySize(f.body, o.body);
    TwoTables(mainAddr, main.strs, ovAddr, ov.strs);
  }

  lemma TwoTables(a: nat, s: Str, b: nat, t: Str)
    ensures TotalText([Table(a, s), Table(b, t)]) == |s| + |t|
  {
    assert [Table(a, s), Table(b, t)][1..] == [Table(b, t)] && [Table(b, t)][1..] == [];
    assert TotalText([Table(b, t)]) == |t|;
  }

  /** Resolving phandles and references, then the fragments. */
  method OverlayTrees(ns: Nodes, m: Ptr, o: Ptr, ghost gm: Shape, ghost go: Shape, ghost tables: seq<Table>)
    returns (err: int, ghost g: Shape, ghost q: Shape)
    requires ns.Valid() && Good(tables, ns.h) && Trees(ns.h, m, o, gm, go) && Lasts(ns.h, go)
    modifies ns`h, ns.pool
    ensures ns.Valid() && Good(tables, ns.h) && Trees(ns.h, m, o, g, q) && m in old(ns.h) && m in ns.h
            && ns.h[m].SubNode? && ns.h[m].name == old(ns.h[m].name)
    ensures (err == 0 || err == -1) && (err == 0 <==> UOverlayApply(Erase(gm), Erase(go)).Ok?)
    ensures err == 0 ==> UOverlayApply(Erase(gm), Erase(go)) == Ok(Erase(g))
  {
    hide Good, Trees, Rep, Lasts, Linked, Accounted, FreeFirst, OneEmpty, Erase, UMergeAll, UResolved, Sep, OtherValues;
    g, q := gm, go;
    TreesHere(ns.h, m, o, gm, go);
    var b := ReadList(ns.h, ns.h[m].child, gm);
    var x := ReadList(ns.h, ns.h[o].child, go);
    var y := UResolved(b, x);
    if y.Err? {
      return -1, g, q;
    }
    UfdtSizes.ResolvedAlike(b, x);
    ghost var h0 := ns.h;
    StoreValues(ns, ns.h[o].child, y.v, go);
    ValuesTrees(h0, ns.h, m, o, gm, go, y.v);
    ValuesGood(tables, h0, ns.h, Ptrs(go));
    RefillIs(go, y.v);
    err, g, q := ApplyFragments(ns, m, o, b, gm, Refill(go, y.v), tables);
  }

  /**
   * ufdt_apply_overlay: it succeeds exactly if the overlay can be applied; the blob then decodes to the merged tree
   * and has the reserve entries of the main blob.  On success and on failure no node stays behind in the pool.
   */
  method ApplyOverlay(w: FdtSw.Writer, out: nat, main: Fdt, mainAddr: nat, rsvmap: Str, mainSize: nat, ov: Fdt,
      ovAddr: nat, ovSize: nat,
                      hash: Str -> nat, ghost f: Forest, ghost o: Forest)
    returns (err: int, ns: Nodes, ghost n: nat)
    requires Encodes(main, f) && IsRoot(f) && Encodes(ov, o) && IsRoot(o)
    requires forall a: nat :: !(InTable(Table(mainAddr, main.strs), a) && InTable(Table(ovAddr, ov.strs), a))
    requires (forall i: nat | UfdtOut.Reserved(rsvmap, i) :: BlocksApart(main, i, mainSize))
             && BlocksApart(ov, 0, ovSize)
    requires out + mainSize + ovSize <= w.mem.Length && mainSize + ovSize <= INT_MAX && w.mem[..] == w.bytes
    modifies w, w.mem
    ensures fresh(ns) && ns.Valid() && ns.pool.live == {}
    ensures err == 0 <==> UfdtApplyOverlay(f.body, o.body).Ok?
    ensures err == 0 ==> w.Layout() && w.finished && w.base == out && w.totalsize == mainSize + ovSize
                         && w.offStrings + w.sizeStrings <= w.totalsize
                         && Encodes(UfdtOut.Finished(w), SubF(f.name, UfdtApplyOverlay(f.body, o.body).v, Nil))
    ensures err == 0 ==> UfdtOut.Reserved(rsvmap, n) && 16 * n <= |rsvmap| && FdtSw.AllRsv(w.rsv)
                         && w.rsv == UfdtOut.Entries(rsvmap, n) + [FdtSw.Rsv(0, 0)]
                            && w.RsvBlock() == FdtSw.RsvBytes(w.rsv)
  {
    hide *;
    RootIsNode(f);
    RootIsNode(o);
    ApplyIs(f.body, o.body);
    var pool := new Pool();
    ns := new Nodes(pool);
    var tables := [Table(mainAddr, main.strs), Table(ovAddr, ov.strs)];
    ghost var gm, go, g, q;
    var m, r;
    m, r, gm, go := FromBoth(ns, main, mainAddr, ov, ovAddr, tables, f, o);
    err, g, q := OverlayTrees(ns, m, r, gm, go, tables);
    n := UfdtOut.ReservedOf(rsvmap);
    if err == 0 {
      TreesHere(ns.h, m, r, g, q);
      err, n := UfdtOut.UfdtToFdt(w, out, mainSize + ovSize, ns.h, Some(m), tables, rsvmap, hash, g);
      EnoughRoom(main, ov, mainAddr, ovAddr, f, o, Erase(g), n, mainSize, ovSize);
    }
    Release(ns, m, r, g, q);
  }

  lemma ApplyIs(b: Forest, o: Forest)
    ensures UfdtApplyOverlay(b, o) == match UOverlayApply(Strip(b),
            Strip(o)) case Ok(u) => Ok(Emit(u)) case Err(e) => Err(e)
  {
    hide UOverlayApply;
  }

  lemma RootIsNode(f: Forest)
    requires IsRoot(f)
    ensures f.SubF?
  {
  }

  /** Both blobs unflattened, the main one first. */
  method FromBoth(ns: Nodes, main: Fdt, mainAddr: nat, ov: Fdt, ovAddr: nat, ghost tables: seq<Table>, ghost f: Forest,
      ghost o: Forest)
    returns (m: Ptr, r: Ptr, ghost gm: Shape, ghost go: Shape)
    requires ns.Valid() && ns.h == map[] && tables == [Table(mainAddr, main.strs), Table(ovAddr, ov.strs)]
    requires Encodes(main, f) && IsRoot(f) && Encodes(ov, o) && IsRoot(o)
    requires forall a: nat :: !(InTable(Table(mainAddr, main.strs), a) && InTable(Table(ovAddr, ov.strs), a))
    modifies ns`h, ns.pool
    ensures ns.Valid() && Good(tables, ns.h) && Trees(ns.h, m, r, gm, go) && Lasts(ns.h, go)
    ensures m in ns.h && ns.h[m].name == f.name && Erase(gm) == Strip(f.body) && Erase(go) == Strip(o.body)
  {
    hide Good, Trees, Rep, Lasts, Linked, Accounted, FreeFirst, OneEmpty, Erase, Sep, Encodes, Strip, PointsTo,
      UfdtBuild.Built, UfdtBuild.Covers;
    UfdtBuild.CoversFirst(tables[0], [tables[1]]);
    UfdtBuild.CoversSecond(tables[0], tables[1]);
    assert tables == [tables[0]] + [tables[1]];
    NoneGood(tables);
    var p, em := UfdtBuild.FromFdt(ns, main, mainAddr, f, tables);
    ghost var h1 := ns.h;
    var q, eo := UfdtBuild.FromFdt(ns, ov, ovAddr, o, tables);
    BothBuilt(h1, ns.h, p, q, em, eo);
    BodyErased(em);
    BodyErased(eo);
    TreesHere(ns.h, p.value, q.value, em.body, eo.body);
    m, r, gm, go := p.value, q.value, em.body, eo.body;
  }

  lemma NoneGood(tables: seq<Table>)
    ensures Good(tables, map[])
  {
  }

  lemma BodyErased(e: Shape)
    requires e.GSub?
    ensures Erase(e).SubF? && Erase(e).name == e.name && Erase(e).body == Erase(e.body)
  {
  }

  /**
   * ufdt_from_fdt, then ufdt_to_fdt: it succeeds exactly if the blob fits, and the blob decodes to the tree there was.
   */
  method RoundTrip(w: FdtSw.Writer, out: nat, bufSize: int, v: Fdt, addr: nat, rsvmap: Str, hash: Str -> nat,
      ghost f: Forest)
    returns (err: int, ghost n: nat)
    requires Encodes(v, f) && out + bufSize <= w.mem.Length && 0 <= bufSize <= INT_MAX && w.mem[..] == w.bytes
    modifies w, w.mem
    ensures UfdtOut.Reserved(rsvmap, n) && 16 * n <= |rsvmap|
    ensures err == 0 <==> f.SubF? && UfdtOut.BlobSize(n, f.name, Strip(f.body), [Table(addr, v.strs)]) <= bufSize
    ensures err == 0 ==> w.Layout() && w.offStrings + w.sizeStrings <= w.totalsize
                         && Encodes(UfdtOut.Finished(w), SubF(f.name, Emit(Strip(f.body)), Nil))
    ensures err == 0 ==> FdtSw.AllRsv(w.rsv) && w.rsv == UfdtOut.Entries(rsvmap, n) + [FdtSw.Rsv(0, 0)]
                         && w.RsvBlock() == FdtSw.RsvBytes(w.rsv)
  {
    hide *;
    var pool := new Pool();
    var ns := new Nodes(pool);
    var tables := [Table(addr, v.strs)];
    UfdtBuild.CoversFirst(tables[0], []);
    assert [tables[0]] + [] == tables;
    NoneGood(tables);
    var root, e := UfdtBuild.FromFdt(ns, v, addr, f, tables);
    RootNode(ns.h, root, e);
    err, n := UfdtOut.UfdtToFdt(w, out, bufSize, ns.h, root, tables, rsvmap, hash, if e.GSub? then e.body else GNil);
  }

  lemma RootNode(h: Heap, root: Option<Ptr>, e: Shape)
    requires UfdtBuild.Built(map[], h, root, e)
    ensures root.Some? && Erase(e).SubF? ==>
              e.GSub? && root.value in h && h[root.value].SubNode? && h[root.value].name == Erase(e).name
              && Rep(h, h[root.value].child, e.body) && Erase(e.body) == Erase(e).body
  {
  }
}
