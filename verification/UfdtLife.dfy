/**
 * The two trees of an overlay application in one memory: no node is lost or freed twice (libs/libufdt/ufdt_overlay.c).
 */
module UfdtLife {
  import opened Bytes
  import opened Positions
  import opened Sem
  import opened NodePools
  import opened UfdtHeap

  // ----- A node below another -----

  /** The node that path leads to from the node root, whose list is g. */
  function PathPtr(root: Ptr, g: Shape, path: Path): Option<Ptr>
    decreases |path|
  {
    if path == [] then Some(root) else
      match SubPtr(g, path[0])
      case None => None
      case Some(t) => PathPtr(t, GBody(g, path[0]), path[1..])
  }

  function PathBody(root: Ptr, g: Shape, path: Path): Shape
    requires PathPtr(root, g, path).Some?
    decreases |path|
  {
    if path == [] then g else PathBody(SubPtr(g, path[0]).value, GBody(g, path[0]), path[1..])
  }

  function PutPath(root: Ptr, g: Shape, path: Path, k: Shape): Shape
    requires PathPtr(root, g, path).Some?
    decreases |path|
  {
    if path == [] then k else
      GPutBody(g, path[0], PutPath(SubPtr(g, path[0]).value, GBody(g, path[0]), path[1..], k))
  }

  /** root is a node whose children are the list g, each node once. */
  ghost predicate Hangs(h: Heap, root: Ptr, g: Shape) {
    root in h && h[root].SubNode? && root !in Ptrs(g) && Sep(g) && Rep(h, h[root].child, g)
  }

  /** The last-child pointers below root are right, so that children may be added. */
  ghost predicate Open(h: Heap, root: Ptr, g: Shape) {
    root in h && h[root].SubNode? && h[root].last == Last(g) && Lasts(h, g)
  }

  lemma {:induction false} PathTree(h: Heap, root: Ptr, g: Shape, path: Path)
    requires Hangs(h, root, g) && PathPtr(root, g, path).Some?
    ensures Hangs(h, PathPtr(root, g, path).value, PathBody(root, g, path))
    ensures Open(h, root, g) ==> Open(h, PathPtr(root, g, path).value, PathBody(root, g, path))
    ensures Ptrs(PathBody(root, g, path)) <= Ptrs(g) && PathPtr(root, g, path).value in Ptrs(g) + {root}
    decreases |path|
  {
    hide Sep, Rep, Lasts, Last, Ptrs;
    if path != [] {
      BodyShape(g, path[0]);
      SubRep(h, h[root].child, g, path[0]);
      PathTree(h, SubPtr(g, path[0]).value, GBody(g, path[0]), path[1..]);
    }
  }

  lemma {:induction false} SubRep(h: Heap, first: Option<Ptr>, g: Shape, x: Str)
    requires Rep(h, first, g) && SubPtr(g, x).Some?
    ensures var t := SubPtr(g, x).value;
            && t in h && h[t].SubNode? && Rep(h, h[t].child, GBody(g, x))
            && (Lasts(h, g) ==> Lasts(h, GBody(g, x)) && h[t].last == Last(GBody(g, x)))
    decreases g
  {
    match g
    case GProp(p, _, _, r) => SubRep(h, h[p].sibling, r, x);
    case GSub(p, n, _, r) => if n != x { SubRep(h, h[p].sibling, r, x); }
  }

  /** n agrees with h on the nodes s, and on the name and the sibling of t. */
  ghost predicate KeptNodes(h: Heap, n: Heap, s: set<Ptr>, t: Ptr) {
    && (forall p | p in s && p != t :: p in h && p in n && n[p] == h[p])
    && t in h && t in n && n[t].SubNode? && h[t].SubNode? && n[t].name == h[t].name && n[t].sibling == h[t].sibling
  }

  /** The list g with another list below its subnode x. */
  lemma {:induction false} PutBodyRep(h: Heap, n: Heap, first: Option<Ptr>, g: Shape, x: Str, k: Shape)
    requires Rep(h, first, g) && Sep(g) && SubPtr(g, x).Some?
    requires KeptNodes(h, n, Ptrs(g) - Ptrs(GBody(g, x)), SubPtr(g, x).value) && Rep(n, n[SubPtr(g, x).value].child, k)
    ensures Rep(n, first, GPutBody(g, x, k))
    ensures Lasts(h, g) && Lasts(n, k) && n[SubPtr(g, x).value].last == Last(k) ==> Lasts(n, GPutBody(g, x, k))
    decreases g
  {
    hide Sep, Last;
    SepRest(g);
    BodyShape(g, x);
    PutBodyTree(g, x, k);
    if g.GSub? && g.name == x {
      RepFrame(h, n, h[g.p].sibling, g.rest);
    } else {
      BodyShape(g.rest, x);
      PutBodyRep(h, n, h[g.p].sibling, g.rest, x, k);
      if g.GSub? {
        RepFrame(h, n, h[g.p].child, g.body);
      }
    }
  }

  /** The tree below root with another list below the node at path, when nothing else has changed. */
  lemma {:induction false} PutPathTree(h: Heap, n: Heap, root: Ptr, g: Shape, path: Path, k: Shape)
    requires Hangs(h, root, g) && PathPtr(root, g, path).Some?
    requires var t := PathPtr(root, g, path).value; var b := PathBody(root, g, path);
             KeptNodes(h, n, Ptrs(g) + {root} - Ptrs(b), t) && Hangs(n, t, k) && Ptrs(k) !! Ptrs(g) + {root} - Ptrs(b)
    ensures Hangs(n, root, PutPath(root, g, path, k))
    ensures Ptrs(PutPath(root, g, path, k)) == Ptrs(g) - Ptrs(PathBody(root, g, path)) + Ptrs(k)
    ensures Open(h, root, g) && Open(n, PathPtr(root, g, path).value, k) ==> Open(n, root, PutPath(root, g, path, k))
    decreases |path|
  {
    hide Sep, Rep, Lasts, Last, Ptrs;
    if path != [] {
      var x := path[0];
      var s, j := SubPtr(g, x).value, GBody(g, x);
      BodyShape(g, x);
      SubRep(h, h[root].child, g, x);
      PathTree(h, s, j, path[1..]);
      PutPathTree(h, n, s, j, path[1..], k);
      var j' := PutPath(s, j, path[1..], k);
      PutBodyShape(g, x, j');
      PutBodyTree(g, x, j');
      PutBodyRep(h, n, h[root].child, g, x, j');
    }
  }

  // ----- Both trees -----

  /** The main tree and the overlay tree share no node, and there is nothing else in memory. */
  ghost predicate Trees(h: Heap, m: Ptr, o: Ptr, gm: Shape, go: Shape) {
    && Hangs(h, m, gm) && Open(h, m, gm) && Hangs(h, o, go)
    && Ptrs(gm) + {m} !! Ptrs(go) + {o} && h.Keys == Ptrs(gm) + {m} + (Ptrs(go) + {o})
  }

  lemma NilIs()
    ensures Ptrs(GNil) == {} && Sep(GNil)
  {
  }

  lemma MergedKeeps(h: Heap, n: Heap, t: Ptr, b: Ptr, ga: Shape, gb: Shape, s: set<Ptr>, p: Ptr)
    requires Merged(h, n, t, b, ga, gb) && (p == t || p == b) && (p == t ==> b !in s) && (p == b ==> t !in s)
    requires s <= h.Keys && s !! Ptrs(ga) + Ptrs(gb) && h[p].SubNode?
    ensures KeptNodes(h, n, s, p)
  {
  }

  lemma MergedHangs(h: Heap, n: Heap, t: Ptr, b: Ptr, ga: Shape, gb: Shape)
    requires Merged(h, n, t, b, ga, gb) && Sep(GMerge(ga, gb).0) && t !in Ptrs(GMerge(ga, gb).0)
    ensures Hangs(n, t, GMerge(ga, gb).0) && Open(n, t, GMerge(ga, gb).0) && Hangs(n, b, GNil)
  {
  }

  /** gm without ga and with j, go without gb, when ga and gb have become j and f. */
  lemma FragmentSets<T>(gm: set<T>, m: T, go: set<T>, o: T, ga: set<T>, t: T, gb: set<T>, b: T, j: set<T>, f: set<T>)
    requires gm + {m} !! go + {o} && ga <= gm && gb <= go && t in gm + {m} && t !in ga && b in go + {o} && b !in gb
             && m !in gm && o !in go
    requires j !! f && j + f == ga + gb && f <= gb
    ensures j !! gm + {m} - ga && t !in j
    ensures t !in go + {o} - gb && b !in gm + {m} - ga
    ensures gm + {m} - ga !! ga + gb && go + {o} - gb !! ga + gb
    ensures (gm - ga + j) + {m} !! (go - gb + {}) + {o}
    ensures (gm + {m} + (go + {o})) - f == (gm - ga + j) + {m} + ((go - gb + {}) + {o})
    ensures (gm + {m} + (go + {o})) - ((gm + {m} + (go + {o})) - f) == f
  {
  }

  // ----- Releasing -----

  /** The node p with the children k, or a property if k is empty. */
  ghost predicate WholeNode(h: Heap, p: Ptr, k: Shape) {
    p in h && p !in Ptrs(k) && Sep(k) && if h[p].SubNode? then Rep(h, h[p].child, k) else k == GNil
  }

  function GSize(g: Shape): nat {
    match g
    case GNil => 0
    case GProp(_, _, _, r) => 1 + GSize(r)
    case GSub(_, _, k, r) => 1 + GSize(k) + GSize(r)
  }

  /** ufdt_node_destruct: the node and all below it are given back, each once. */
  method Destruct(ns: Nodes, p: Ptr, ghost k: Shape)
    requires ns.Valid() && WholeNode(ns.h, p, k)
    modifies ns`h, ns.pool
    ensures ns.Valid() && ns.h == old(ns.h) - (Ptrs(k) + {p})
    decreases GSize(k)
  {
    hide Linked, Accounted, FreeFirst, OneEmpty, Sep;
    ghost var h0, r, done := ns.h, k, {};
    if ns.h[p].SubNode? {
      var it := ns.h[p].child;
      assert h0 - {} == h0;
      while it.Some?
        invariant ns.Valid() && p in ns.h && p !in Ptrs(k) && p !in done && Rep(ns.h, it, r) && Sep(r)
        invariant ns.h == h0 - done && done !! Ptrs(r) && done + Ptrs(r) == Ptrs(k)
        invariant GSize(r) <= GSize(k)
        decreases r
      {
        var next := ns.h[it.value].sibling;
        SepRest(r);
        NilIs();
        ghost var b := if r.GSub? then r.body else GNil;
        ghost var h1 := ns.h;
        Destruct(ns, it.value, b);
        RepIn(h1, it, r);
        RepFrame(h1, ns.h, next, r.rest);
        done := done + (Ptrs(b) + {it.value});
        r := r.rest;
        it := next;
      }
    }
    ns.Free(p);
    assert ns.h == h0 - (Ptrs(k) + {p});
  }

  /** ufdt_destruct of both trees: nothing is live any more. */
  method Release(ns: Nodes, m: Ptr, o: Ptr, ghost gm: Shape, ghost go: Shape)
    requires ns.Valid() && Trees(ns.h, m, o, gm, go)
    modifies ns`h, ns.pool
    ensures ns.Valid() && ns.h == map[] && ns.pool.live == {}
  {
    hide Linked, Accounted, FreeFirst, OneEmpty, Sep, Rep, Ptrs, Lasts;
    ghost var h0 := ns.h;
    Destruct(ns, o, go);
    RepFrame(h0, ns.h, h0[m].child, gm);
    Destruct(ns, m, gm);
  }
}
