/** The order in which a walk over the tag stream meets its positions. */
module Walk {
  import opened Bytes
  import opened Tree
  import opened Positions

  /** A walk that steps over one tag at a time comes from x to p. */
  predicate Reaches(x: Pos, p: Pos)
    decreases Remaining(x)
  {
    x == p || (!TagAt(x).End? && Reaches(Next(x), p))
  }

  lemma {:induction false} ReachesTrans(x: Pos, y: Pos, z: Pos)
    requires Reaches(x, y) && Reaches(y, z)
    ensures Reaches(x, z)
    decreases Remaining(x)
  {
    if x != y {
      ReachesTrans(Next(x), y, z);
    }
  }

  lemma ReachesNext(x: Pos)
    requires !TagAt(x).End?
    ensures Reaches(x, Next(x))
  {
    assert Reaches(Next(x), Next(x));
  }

  /** The walk goes on in the tree, and forward. */
  lemma {:induction false} ReachesForward(x: Pos, p: Pos)
    requires Reaches(x, p)
    ensures Whole(p) == Whole(x) && (x == p || Off(x.c) < Off(p.c))
    decreases Remaining(x)
  {
    if x != p {
      ReachesForward(Next(x), p);
    }
  }

  lemma {:induction false} ReachesLinear(x: Pos, a: Pos, b: Pos)
    requires Reaches(x, a) && Reaches(x, b)
    ensures Reaches(a, b) || Reaches(b, a)
    decreases Remaining(x)
  {
    if x != a && x != b {
      ReachesLinear(Next(x), a, b);
    }
  }

  /** From anywhere in a node the walk comes to the position after the node. */
  lemma {:induction false} ReachesLeave(c: Ctx, f: Forest)
    requires Depth(c) > 0
    ensures Reaches(Pos(c, f), Leave(c, f))
    decreases f
  {
    var p := Pos(c, f);
    ReachesNext(p);
    match f
    case Nil =>
    case NopF(r) =>
      ReachesLeave(Next(p).c, r);
      ReachesTrans(p, Next(p), Leave(c, f));
    case PropF(_, _, r) =>
      ReachesLeave(Next(p).c, r);
      ReachesTrans(p, Next(p), Leave(c, f));
    case SubF(n, b, r) =>
      ReachesLeave(Enter(p).c, b);
      assert Leave(Enter(p).c, b) == After(p);
      ReachesTrans(p, Enter(p), After(p));
      ReachesLeave(After(p).c, r);
      ReachesTrans(p, After(p), Leave(c, f));
  }

  /** Every position of a tree is reached from its start. */
  lemma {:induction false} StartReaches(c: Ctx, f: Forest)
    ensures Reaches(Pos(Top, Plug(c, f)), Pos(c, f))
    decreases c
  {
    hide Reaches;
    if c.Top? {
      ReachesSelf(Pos(c, f));
    } else {
      var q := Pos(c.up, Fill(c.frame, f));
      StartReaches(c.up, Fill(c.frame, f));
      FrameReaches(c, f);
      ReachesTrans(Pos(Top, Plug(c, f)), q, Pos(c, f));
    }
  }

  lemma ReachesSelf(x: Pos)
    ensures Reaches(x, x)
  {
  }

  lemma FrameReaches(c: Ctx, f: Forest)
    requires !c.Top?
    ensures Reaches(Pos(c.up, Fill(c.frame, f)), Pos(c, f))
  {
    hide Reaches, Plug, Off, Remaining, Depth, FSize;
    var q := Pos(c.up, Fill(c.frame, f));
    ReachesNext(q);
    if c.frame.AfterSub? {
      ReachesLeave(Enter(q).c, c.frame.body);
      assert Leave(Enter(q).c, c.frame.body) == Pos(c, f);
      ReachesTrans(q, Enter(q), Pos(c, f));
    }
  }

  /** An offset in the structure block belongs to one position of the tree. */
  lemma OffUnique(a: Pos, b: Pos)
    requires Whole(a) == Whole(b) && Off(a.c) == Off(b.c)
    ensures a == b
  {
    StartReaches(a.c, a.f);
    StartReaches(b.c, b.f);
    ReachesLinear(Pos(Top, Whole(a)), a, b);
    if Reaches(a, b) {
      ReachesForward(a, b);
    } else {
      ReachesForward(b, a);
    }
  }

  // ----- Enclosing nodes -----

  /** The names of the nodes that are open at the hole of c, outermost first. */
  function Chain(c: Ctx): (s: seq<Str>)
    ensures |s| == Depth(c)
  {
    if c.Top? then [] else if c.frame.InBody? then Chain(c.up) + [c.frame.name] else Chain(c.up)
  }

  lemma {:induction false} ChainLeave(c: Ctx, f: Forest)
    requires Depth(c) > 0
    ensures Chain(Leave(c, f).c) == Chain(c)[..Depth(c) - 1]
    decreases c
  {
    if !c.frame.InBody? {
      ChainLeave(c.up, Fill(c.frame, f));
    }
  }

  lemma {:induction false} NopsReach(x: Pos, p: Pos)
    requires Depth(x.c) == 0 && OnlyNops(x.f) && Reaches(x, p)
    ensures Depth(p.c) == 0 && OnlyNops(p.f)
    decreases Remaining(x)
  {
    if x != p {
      NopsReach(Next(x), p);
    }
  }

  /** A tree with one root has nothing but NOPs after the root. */
  lemma {:induction false} RootEnds(c: Ctx, f: Forest)
    requires Depth(c) == 1 && IsRoot(Plug(c, f))
    ensures OnlyNops(Leave(c, f).f)
    decreases c
  {
    if c.frame.InBody? {
      if c.up.Top? {
        assert Plug(c, f) == Plug(c.up, Fill(c.frame, f)) == Fill(c.frame, f);
      } else {
        NotRoot(c.up, Fill(c.frame, f));
      }
    } else {
      RootEnds(c.up, Fill(c.frame, f));
    }
  }

  /** Where the scan from a node k levels below the outermost one stops. */
  ghost predicate Stops(x: Pos, s: Scan) {
    match s
    case Found(q, d) => d == Depth(q.c) <= Depth(x.c) && Chain(q.c) == Chain(x.c)[..d] && Reaches(x, q)
    case Left(q) => Depth(q.c) == 0 && Reaches(x, q)
    case Exhausted => false
  }

  lemma StopsBefore(x: Pos, s: Scan)
    requires !TagAt(x).End? && !x.f.SubF? && Stops(Next(x), s)
    ensures Stops(x, s)
  {
    hide Reaches;
    ReachesNext(x);
    if x.f.Nil? {
      ChainLeave(x.c, x.f);
    }
    match s
    case Found(q, d) => ReachesTrans(x, Next(x), q);
    case Left(q) => ReachesTrans(x, Next(x), q);
  }

  /** The scan to the next node: the nodes open there are those open before, up to its depth. */
  lemma {:induction false} ScanChain(x: Pos, k: nat)
    requires k + 1 == Depth(x.c)
    ensures Stops(x, ScanFrom(x, k, true))
    decreases Remaining(x)
  {
    hide Stops;
    if x.f.SubF? {
      StopsHere(x, k);
    } else {
      if !x.f.Nil? {
        ScanChain(Next(x), k);
      } else if k > 0 {
        ScanChain(Next(x), k - 1);
      } else {
        StopsOut(Next(x));
      }
      StopsBefore(x, ScanFrom(x, k, true));
    }
  }

  lemma StopsHere(x: Pos, k: nat)
    requires x.f.SubF? && k + 1 == Depth(x.c)
    ensures Stops(x, Found(x, k + 1))
  {
  }

  lemma StopsOut(x: Pos)
    requires Depth(x.c) == 0
    ensures Stops(x, Left(x))
  {
  }

  /** The scan stops at the first node, so it does not go past a node that lies ahead. */
  lemma {:induction false} ScanNotPast(x: Pos, k: nat, p: Pos)
    requires k + 1 == Depth(x.c) && IsRoot(Whole(x)) && Reaches(x, p) && p.f.SubF?
    ensures ScanFrom(x, k, true).Found? && Reaches(ScanFrom(x, k, true).p, p)
    decreases Remaining(x)
  {
    if !x.f.SubF? {
      if x.f.Nil? {
        if k > 0 {
          ScanNotPast(Next(x), k - 1, p);
        } else {
          RootEnds(x.c, x.f);
          NopsReach(Next(x), p);
        }
      } else {
        ScanNotPast(Next(x), k, p);
      }
    }
  }

  /** The scan leaves the root only at the very end. */
  lemma {:induction false} ScanLeaves(x: Pos, k: nat)
    requires k + 1 == Depth(x.c) && IsRoot(Whole(x)) && ScanFrom(x, k, true).Left?
    ensures var q := ScanFrom(x, k, true).p; Depth(q.c) == 0 && OnlyNops(q.f) && Whole(q) == Whole(x)
    decreases Remaining(x)
  {
    if x.f.Nil? {
      if k > 0 {
        ScanLeaves(Next(x), k - 1);
      } else {
        RootEnds(x.c, x.f);
      }
    } else {
      ScanLeaves(Next(x), k);
    }
  }

  /** The end of the tree lies behind every position in it. */
  lemma EndIsLast(q: Pos, p: Pos)
    requires Whole(q) == Whole(p) && Depth(q.c) == 0 && OnlyNops(q.f) && Depth(p.c) > 0
    ensures Off(p.c) < Off(q.c)
  {
    StartReaches(q.c, q.f);
    StartReaches(p.c, p.f);
    ReachesLinear(Pos(Top, Whole(p)), p, q);
    if Reaches(p, q) {
      ReachesForward(p, q);
    } else {
      NopsReach(q, p);
    }
  }
}
