/** Children and parents: fdt_for_each_subnode, fdt_supernode_atdepth_offset, fdt_node_depth, fdt_parent_offset. */
module Family {
  import opened Bytes
  import opened Tree
  import opened Encoding
  import opened Positions
  import opened Tags
  import opened FdtRead
  import opened Walk
  import opened Paths

  // ----- Children -----

  /** The subnodes at this level from p on. */
  function Kids(p: Pos): (s: seq<Pos>)
    ensures forall q | q in s :: q.f.SubF? && Whole(q) == Whole(p) && Depth(q.c) == Depth(p.c)
    decreases p.f
  {
    match p.f
    case Nil => []
    case SubF(_, _, _) => [p] + Kids(After(p))
    case _ => Kids(Next(p))
  }

  /** The subnodes in a node's content: their names and their own contents, in order. */
  function Subs(f: Forest): seq<(Str, Forest)> {
    match f
    case Nil => []
    case SubF(n, b, r) => [(n, b)] + Subs(r)
    case _ => Subs(f.rest)
  }

  lemma {:induction false} KidsAreSubs(p: Pos, i: nat)
    requires i < |Kids(p)|
    ensures |Subs(p.f)| == |Kids(p)| && Subs(p.f)[i] == (Kids(p)[i].f.name, Kids(p)[i].f.body)
    decreases p.f
  {
    match p.f
    case SubF(_, _, _) =>
      if i > 0 {
        KidsAreSubs(After(p), i - 1);
      } else {
        KidsCount(After(p));
      }
    case NopF(_) => KidsAreSubs(Next(p), i);
    case PropF(_, _, _) => KidsAreSubs(Next(p), i);
  }

  lemma {:induction false} KidsCount(p: Pos)
    ensures |Subs(p.f)| == |Kids(p)|
    decreases p.f
  {
    match p.f
    case Nil =>
    case SubF(_, _, _) => KidsCount(After(p));
    case _ => KidsCount(Next(p));
  }

  /** The subnodes from the one that a search has found on. */
  function KidsFrom(s: Option<Pos>): seq<Pos>
    requires s.Some? ==> s.value.f.SubF?
  {
    if s.None? then [] else [s.value] + Kids(After(s.value))
  }

  lemma {:induction false} KidsFind(p: Pos)
    ensures Kids(p) == KidsFrom(FindSub(p, Any))
    decreases p.f
  {
    match p.f
    case Nil =>
    case SubF(_, _, _) =>
    case _ => KidsFind(Next(p));
  }

  lemma KidsStep(done: seq<Pos>, q: Pos)
    requires q.f.SubF?
    ensures done + KidsFrom(Some(q)) == done + [q] + KidsFrom(FindSub(After(q), Any))
  {
    KidsFind(After(q));
  }

  /** offs are the offsets of the positions ps. */
  ghost predicate Offsets(offs: seq<int>, ps: seq<Pos>) {
    |offs| == |ps| && forall i :: 0 <= i < |offs| ==> offs[i] == Off(ps[i].c)
  }

  lemma OffsetsMore(offs: seq<int>, ps: seq<Pos>, o: int, q: Pos)
    requires Offsets(offs, ps) && o == Off(q.c)
    ensures Offsets(offs + [o], ps + [q])
  {
    hide Off;
  }

  /** The offsets that the loop fdt_for_each_subnode goes through. */
  method ForEachSubnode(v: Fdt, parent: int, ghost p: Pos) returns (offs: seq<int>)
    requires At(v, p, parent)
    ensures Offsets(offs, if p.f.SubF? then Kids(Enter(p)) else [])
  {
    hide Encodes, Whole, Off, FindSub, Kids, FSize, Remaining, Offsets, KidsFrom, Plug;
    offs := [];
    var node := FirstSubnode(v, parent, p);
    ghost var done: seq<Pos>, s: Option<Pos> := [], if p.f.SubF? then FindSub(Enter(p), Any) else None;
    KidsStart(p);
    while node >= 0
      invariant if s.None? then node < 0 else At(v, s.value, node) && s.value.f.SubF? && Depth(s.value.c) > 0
      invariant (if p.f.SubF? then Kids(Enter(p)) else []) == done + KidsFrom(s)
      invariant Offsets(offs, done)
      decreases if s.None? then 0 else Remaining(s.value) + 1
    {
      ghost var q := s.value;
      OffsetsMore(offs, done, node, q);
      KidsStep(done, q);
      offs := offs + [node];
      done := done + [q];
      node := NextSubnode(v, node, q);
      s := FindSub(After(q), Any);
    }
    assert done + [] == done;
    KidsEnd();
  }

  lemma KidsStart(p: Pos)
    ensures p.f.SubF? ==> Kids(Enter(p)) == [] + KidsFrom(FindSub(Enter(p), Any))
    ensures KidsFrom(None) == [] && Offsets([], [])
  {
    if p.f.SubF? {
      KidsFind(Enter(p));
    }
  }

  lemma KidsEnd()
    ensures KidsFrom(None) == []
  {
  }

  /** The node that a child is in is the node whose children were asked for. */
  lemma {:induction false} KidsParent(x: Pos, p: Pos, i: nat)
    requires Depth(p.c) > 0 && Parent(p.c, p.f) == x && i < |Kids(p)|
    ensures Depth(Kids(p)[i].c) > 0 && Parent(Kids(p)[i].c, Kids(p)[i].f) == x
    decreases p.f
  {
    match p.f
    case SubF(_, _, _) => if i > 0 { KidsParent(x, After(p), i - 1); }
    case NopF(_) => KidsParent(x, Next(p), i);
    case PropF(_, _, _) => KidsParent(x, Next(p), i);
  }

  // ----- Parents -----

  /** The node at depth d that p is in, or p itself. */
  function Ancestor(p: Pos, d: nat): (q: Pos)
    requires p.f.SubF? && d <= Depth(p.c)
    ensures q.f.SubF? && Whole(q) == Whole(p) && Depth(q.c) == d
    decreases Depth(p.c)
  {
    if Depth(p.c) == d then p else Ancestor(Parent(p.c, p.f), d)
  }

  /** The scan to the next node stays inside the nodes around the one it stops at. */
  lemma {:induction false} ScanInside(x: Pos, k: nat)
    requires k + 1 == Depth(x.c) && ScanFrom(x, k, true).Found?
    ensures var s := ScanFrom(x, k, true);
            1 <= s.depth == Depth(s.p.c) <= k + 1 && Parent(s.p.c, s.p.f) == Ancestor(Parent(x.c, x.f), s.depth - 1)
    decreases Remaining(x)
  {
    hide Chain, Plug, Off, FSize, PostSize, Remaining;
    if x.f.Nil? {
      if k > 0 {
        ParentLeave(x.c, x.f);
        ScanInside(Next(x), k - 1);
      }
    } else if !x.f.SubF? {
      ScanInside(Next(x), k);
    }
  }

  lemma {:induction false} ParentLeave(c: Ctx, f: Forest)
    requires Depth(c) > 1
    ensures var q := Leave(c, f); Parent(q.c, q.f) == Parent(Parent(c, f).c, Parent(c, f).f)
    decreases c
  {
    if !c.frame.InBody? {
      ParentLeave(c.up, Fill(c.frame, f));
    }
  }

  /** Going on from q to the next node keeps every ancestor above both. */
  lemma StepInside(q: Pos, depth: nat, d: nat)
    requires q.f.SubF? && depth == Depth(q.c)
    requires var s := ScanFrom(Enter(q), depth, true); s.Found? && d < s.depth
    ensures var s := ScanFrom(Enter(q), depth, true);
            s.depth == Depth(s.p.c) && d <= depth && Ancestor(s.p, d) == Ancestor(q, d)
  {
    hide Chain, Plug, Off, ScanFrom;
    ScanInside(Enter(q), depth);
    var s := ScanFrom(Enter(q), depth, true);
    AncestorTwice(q, s.depth - 1, d);
  }

  lemma {:induction false} AncestorTwice(q: Pos, e: nat, d: nat)
    requires q.f.SubF? && d <= e <= Depth(q.c)
    ensures Ancestor(Ancestor(q, e), d) == Ancestor(q, d)
    decreases Depth(q.c)
  {
    if Depth(q.c) > e {
      AncestorTwice(Parent(q.c, q.f), e, d);
    }
  }

  /** fdt_supernode_atdepth_offset: the node at the given depth on the way from the root to p. */
  method SupernodeAtDepth(v: Fdt, nodeoffset: int, supernodedepth: int, ghost p: Pos) returns (r: int, nodedepth: int)
    requires At(v, p, nodeoffset) && IsRoot(Whole(p)) && (p.f.SubF? || Depth(p.c) > 0)
    ensures r == if supernodedepth < 0 then -NOTFOUND else if !p.f.SubF? then -BADOFFSET else
                 if supernodedepth > Depth(p.c) then -NOTFOUND else Off(Ancestor(p, supernodedepth).c)
    ensures supernodedepth >= 0 && p.f.SubF? ==> nodedepth == Depth(p.c)
  {
    hide Encodes, Off, Held, Reaches, Stops, Full, SlashFree, PathStr, Plug, Chain, Ancestor;
    nodedepth := 0;
    if supernodedepth < 0 {
      return -NOTFOUND, nodedepth;
    }
    var supernodeoffset, offset, depth := -INTERNAL, 0, 0;
    ghost var q := Pos(Top, Whole(p));
    WalkStart(v, p, nodeoffset, []);
    while offset >= 0 && offset <= nodeoffset
      invariant 0 <= offset <= nodeoffset ==>
                At(v, q, offset) && q.f.SubF? && depth == Depth(q.c) && Whole(q) == Whole(p)
      invariant 0 <= offset <= nodeoffset && supernodedepth < depth ==>
                supernodeoffset == Off(Ancestor(q, supernodedepth).c)
      invariant p.f.SubF? ==> 0 <= offset <= nodeoffset && Reaches(q, p)
      invariant !p.f.SubF? ==> offset >= 0
      decreases if 0 <= offset <= nodeoffset then Remaining(q) + 1 else 0
    {
      if depth == supernodedepth {
        supernodeoffset := offset;
        AncestorSelf(q);
      }
      if offset == nodeoffset {
        SameOffset(q, p, nodeoffset);
        nodedepth := depth;
        if supernodedepth > depth {
          return -NOTFOUND, nodedepth;
        }
        return supernodeoffset, nodedepth;
      }
      ghost var s;
      WalkOn(q, p, depth, offset, nodeoffset);
      ghost var t := ScanFrom(Enter(q), depth, true);
      if t.Found? && supernodedepth < t.depth {
        StepInside(q, depth, supernodedepth);
      }
      offset, depth, s := NextNode(v, offset, depth, true, q);
      if s.Found? {
        q := s.p;
      }
    }
    r := -BADOFFSET;
  }

  lemma AncestorSelf(q: Pos)
    requires q.f.SubF?
    ensures Ancestor(q, Depth(q.c)) == q
  {
  }

  /** fdt_node_depth. */
  method NodeDepth(v: Fdt, nodeoffset: int, ghost p: Pos) returns (r: int)
    requires At(v, p, nodeoffset) && IsRoot(Whole(p)) && (p.f.SubF? || Depth(p.c) > 0)
    ensures r == if p.f.SubF? then Depth(p.c) else -BADOFFSET
  {
    hide Encodes, Whole;
    var err, nodedepth := SupernodeAtDepth(v, nodeoffset, 0, p);
    if p.f.SubF? {
      RootIs(Ancestor(p, 0));
    }
    if err != 0 {
      return if err < 0 then err else -INTERNAL;
    }
    r := nodedepth;
  }

  /** fdt_parent_offset: the node that the node at p is in; the root is in none. */
  method ParentOffset(v: Fdt, nodeoffset: int, ghost p: Pos) returns (r: int)
    requires At(v, p, nodeoffset) && IsRoot(Whole(p)) && (p.f.SubF? || Depth(p.c) > 0)
    ensures r == if !p.f.SubF? then -BADOFFSET else if Depth(p.c) == 0 then -NOTFOUND else Off(Parent(p.c, p.f).c)
  {
    hide Encodes, Whole, Off;
    var nodedepth := NodeDepth(v, nodeoffset, p);
    if nodedepth < 0 {
      return nodedepth;
    }
    var d;
    r, d := SupernodeAtDepth(v, nodeoffset, nodedepth - 1, p);
  }

  /** The parent of every child of a node is the node. */
  lemma ChildrenReturn(p: Pos, i: nat)
    requires p.f.SubF? && i < |Kids(Enter(p))|
    ensures var q := Kids(Enter(p))[i];
            q.f.SubF? && Whole(q) == Whole(p) && Depth(q.c) > 0 && Parent(q.c, q.f) == p
            && i < |Subs(p.f.body)| && Subs(p.f.body)[i] == (q.f.name, q.f.body)
  {
    KidsAreSubs(Enter(p), i);
    KidsParent(p, Enter(p), i);
    assert Kids(Enter(p))[i] in Kids(Enter(p));
  }
}
