/**
 * Positions in a tag stream and the walks between them.  A position is a context and the Forest
 * still to come at that level, so moving over a tag is a local change of the pair.
 */
module Positions {
  import opened Bytes
  import opened Tree

  datatype Option<+T> = None | Some(value: T)

  datatype Pos = Pos(c: Ctx, f: Forest)

  function Whole(p: Pos): Forest {
    Plug(p.c, p.f)
  }

  /** Number of nodes that are open at the hole of c. */
  function Depth(c: Ctx): nat {
    if c.Top? then 0 else Depth(c.up) + if c.frame.InBody? then 1 else 0
  }

  function PostSize(c: Ctx): nat {
    if c.Top? then 0 else PostSize(c.up) + if c.frame.InBody? then 4 + FSize(c.frame.rest) else 0
  }

  /** Bytes of the structure block from p on, up to the end tag. */
  function Remaining(p: Pos): nat {
    FSize(p.f) + PostSize(p.c)
  }

  function TagAt(p: Pos): Tok {
    match p.f
    case Nil => if Depth(p.c) > 0 then EndNode else End
    case NopF(_) => Nop
    case PropF(n, d, _) => Prop(n, d)
    case SubF(n, _, _) => Begin(n)
  }

  /** Past the end of the innermost open node, whose content from the hole on is f. */
  function Leave(c: Ctx, f: Forest): (q: Pos)
    requires Depth(c) > 0
    ensures Whole(q) == Plug(c, f)
    ensures Depth(q.c) == Depth(c) - 1
    ensures Off(q.c) == Off(c) + FSize(f) + 4
    ensures Remaining(q) + FSize(f) + 4 == Remaining(Pos(c, f))
    decreases c
  {
    match c.frame
    case InBody(n, r) => Pos(In(AfterSub(n, f), c.up), r)
    case _ => Leave(c.up, Fill(c.frame, f))
  }

  /** The position after the tag at p. */
  function Next(p: Pos): (q: Pos)
    requires !TagAt(p).End?
    ensures Whole(q) == Whole(p)
    ensures Off(q.c) == Off(p.c) + TokSize(TagAt(p))
    ensures Remaining(q) + TokSize(TagAt(p)) == Remaining(p)
  {
    match p.f
    case Nil => Leave(p.c, Nil)
    case NopF(r) => Pos(In(AfterNop, p.c), r)
    case PropF(n, d, r) => Pos(In(AfterProp(n, d), p.c), r)
    case SubF(n, b, r) => Pos(In(InBody(n, r), p.c), b)
  }

  /** The start of what the node at p contains. */
  function Enter(p: Pos): (q: Pos)
    requires p.f.SubF?
    ensures q == Next(p) && Depth(q.c) == Depth(p.c) + 1
  {
    Pos(In(InBody(p.f.name, p.f.rest), p.c), p.f.body)
  }

  lemma {:induction false} PostTags(c: Ctx)
    ensures Size(Post(c)) == PostSize(c)
    ensures Depth(c) == 0 ==> Post(c) == []
    ensures Depth(c) > 0 ==> Post(c) != [] && Post(c)[0].EndNode?
  {
    if !c.Top? {
      PostTags(c.up);
      if c.frame.InBody? {
        FSizeFlat(c.frame.rest);
        SizeCat([EndNode], Flat(c.frame.rest));
        SizeCat([EndNode] + Flat(c.frame.rest), Post(c.up));
      } else {
        assert Post(c) == Post(c.up);
      }
    }
  }

  /** The tags from p on start with TagAt(p). */
  lemma TailAt(p: Pos) returns (post: seq<Tok>)
    ensures Flat(p.f) + (Post(p.c) + [End]) == [TagAt(p)] + post
    ensures post == [] <==> TagAt(p).End?
  {
    PostTags(p.c);
    var f := Flat(p.f);
    var tail := f + (Post(p.c) + [End]);
    post := tail[1..];
    if f == [] {
      assert tail == Post(p.c) + [End];
      if Depth(p.c) > 0 {
        assert tail[0] == Post(p.c)[0];
      }
    } else {
      assert tail[0] == f[0];
    }
  }

  /** The stream splits at every position, with TagAt first in what follows. */
  lemma StreamAt(p: Pos) returns (post: seq<Tok>)
    ensures Flat(Whole(p)) + [End] == Pre(p.c) + ([TagAt(p)] + post)
    ensures Size(Pre(p.c)) == Off(p.c)
    ensures post == [] <==> TagAt(p).End?
  {
    FlatPlug(p.c, p.f);
    OffPre(p.c);
    post := TailAt(p);
    Assoc(Pre(p.c), Flat(p.f), Post(p.c), [End]);
  }

  lemma Assoc<T>(a: seq<T>, b: seq<T>, c: seq<T>, d: seq<T>)
    ensures a + b + c + d == a + (b + (c + d))
  {
  }

  predicate OnlyNops(f: Forest) {
    f.Nil? || (f.NopF? && OnlyNops(f.rest))
  }

  /** One root node, and after it nothing but NOPs. */
  predicate IsRoot(f: Forest) {
    f.SubF? && OnlyNops(f.rest)
  }

  lemma {:induction false} NotRoot(c: Ctx, f: Forest)
    requires Depth(c) == 0 && !c.Top? && !OnlyNops(f)
    ensures !IsRoot(Plug(c, f))
  {
    if !c.up.Top? {
      NotRoot(c.up, Fill(c.frame, f));
    }
  }

  /** A tree with one root still has one root when something inside the root changes. */
  lemma {:induction false} RootKept(c: Ctx, f: Forest, g: Forest)
    requires Depth(c) > 0 && IsRoot(Plug(c, f))
    ensures IsRoot(Plug(c, g))
  {
    if Depth(c.up) > 0 {
      RootKept(c.up, Fill(c.frame, f), Fill(c.frame, g));
    } else if c.up.Top? {
      assert Plug(c, f) == Plug(c.up, Fill(c.frame, f)) == Fill(c.frame, f);
      assert Plug(c, g) == Plug(c.up, Fill(c.frame, g)) == Fill(c.frame, g);
    } else {
      NotRoot(c.up, Fill(c.frame, f));
    }
  }

  lemma RemainingIs(p: Pos)
    ensures FSize(Whole(p)) == Off(p.c) + Remaining(p)
  {
    FlatPlug(p.c, p.f);
    OffPre(p.c);
    PostTags(p.c);
    FSizeFlat(Whole(p));
    FSizeFlat(p.f);
    SizeCat(Pre(p.c), Flat(p.f));
    SizeCat(Pre(p.c) + Flat(p.f), Post(p.c));
  }

  // ----- Searching the subnodes of a node -----

  /** fdt_nodename_eq_: s names a node called n; the unit address may be left out of s. */
  predicate NodeNameEq(n: Str, s: Str) {
    && |s| <= |n|
    && n[..|s|] == s
    && (|n| == |s| || ('@' as int !in s && n[|s|] == '@' as int))
  }

  datatype Key = Any | Named(name: Str)

  predicate Matches(k: Key, n: Str) {
    k.Named? ==> NodeNameEq(n, k.name)
  }

  /** The first subnode at this level that matches. */
  function FindSub(p: Pos, k: Key): (r: Option<Pos>)
    ensures r.Some? ==> Whole(r.value) == Whole(p) && r.value.f.SubF? && Matches(k, r.value.f.name)
    ensures r.Some? ==> Depth(r.value.c) == Depth(p.c) && FSize(r.value.f) <= FSize(p.f)
    ensures r.Some? ==> Remaining(r.value) <= Remaining(p)
    decreases p.f
  {
    match p.f
    case Nil => None
    case SubF(n, b, r) => if Matches(k, n) then Some(p) else FindSub(Pos(In(AfterSub(n, b), p.c), r), k)
    case _ => FindSub(Next(p), k)
  }

  datatype Scan = Found(p: Pos, depth: int) | Left(p: Pos) | Exhausted

  /** fdt_next_node from inside a node: the next node tag, unless track is set and depth goes negative first. */
  function ScanFrom(p: Pos, depth: int, track: bool): (s: Scan)
    ensures s.Found? ==> s.p.f.SubF? && s.depth <= depth + 1
    ensures !s.Exhausted? ==> Whole(s.p) == Whole(p) && Remaining(s.p) <= Remaining(p)
    decreases Remaining(p)
  {
    match TagAt(p)
    case Begin(_) => Found(p, depth + 1)
    case EndNode => if track && depth - 1 < 0 then Left(Next(p)) else ScanFrom(Next(p), depth - 1, track)
    case End => Exhausted
    case _ => ScanFrom(Next(p), depth, track)
  }

  /** What a search k levels below a node's content will come to find among that node's subnodes. */
  function Pending(p: Pos, k: nat, key: Key): Option<Pos>
    requires k <= Depth(p.c)
    decreases k
  {
    if k == 0 then FindSub(p, key) else Pending(Leave(p.c, p.f), k - 1, key)
  }

  lemma NextPending(p: Pos, k: nat, key: Key)
    requires k < Depth(p.c) && !p.f.SubF? && !(p.f.Nil? && k == 0)
    ensures p.f.Nil? ==> k - 1 < Depth(Next(p).c) && Pending(Next(p), k - 1, key) == Pending(p, k, key)
    ensures !p.f.Nil? ==> Depth(Next(p).c) == Depth(p.c) && Pending(Next(p), k, key) == Pending(p, k, key)
  {
    if !p.f.Nil? && k > 0 {
      assert Leave(Next(p).c, Next(p).f) == Leave(p.c, p.f);
    }
  }

  /** A scan stopped at a node from which goal is still to be found, or past where goal could be. */
  ghost predicate Keeps(s: Scan, goal: Option<Pos>, key: Key) {
    match s
    case Found(q, d) => 1 <= d <= Depth(q.c) && Pending(q, d - 1, key) == goal
    case Left(q) => goal == None
    case Exhausted => false
  }

  /** Moving to the next node loses nothing that a search is still looking for. */
  lemma {:induction false} ScanPending(p: Pos, k: nat, key: Key)
    requires k < Depth(p.c)
    ensures Keeps(ScanFrom(p, k, true), Pending(p, k, key), key)
    decreases Remaining(p)
  {
    hide Plug, Off, FSize, PostSize, Remaining;
    if p.f.Nil? {
      if k > 0 {
        NextPending(p, k, key);
        ScanPending(Next(p), k - 1, key);
      }
    } else if !p.f.SubF? {
      NextPending(p, k, key);
      ScanPending(Next(p), k, key);
    }
  }

  lemma EnterPending(p: Pos, k: nat, key: Key)
    requires p.f.SubF? && k <= Depth(p.c)
    requires k > 0 || !Matches(key, p.f.name)
    ensures Pending(Enter(p), k + 1, key) == Pending(p, k, key)
  {
    var q := Pos(In(AfterSub(p.f.name, p.f.body), p.c), p.f.rest);
    assert Leave(Enter(p).c, Enter(p).f) == q;
  }

  /** A search stands at the node q, depth levels below the node whose subnodes it is looking through. */
  ghost predicate Searching(q: Pos, depth: int, key: Key, goal: Option<Pos>) {
    q.f.SubF? && 1 <= depth <= Depth(q.c) && Pending(q, depth - 1, key) == goal
  }

  /** The next node on the way of a search that has not found its node at q. */
  function After(p: Pos): (q: Pos)
    requires p.f.SubF?
    ensures Whole(q) == Whole(p) && Depth(q.c) == Depth(p.c) && Remaining(q) < Remaining(p)
  {
    Pos(In(AfterSub(p.f.name, p.f.body), p.c), p.f.rest)
  }

  lemma SearchOn(q: Pos, depth: int, key: Key, goal: Option<Pos>)
    requires Searching(q, depth, key, goal)
    requires depth > 1 || !Matches(key, q.f.name)
    ensures var s := ScanFrom(Enter(q), depth, true);
            !s.Exhausted? && (s.Found? ==> Searching(s.p, s.depth, key, goal)) && (s.Left? ==> goal == None)
  {
    EnterPending(q, depth - 1, key);
    ScanPending(Enter(q), depth, key);
  }

  lemma SearchStart(p: Pos, key: Key)
    requires p.f.SubF?
    ensures var s := ScanFrom(Enter(p), 0, true); var goal := FindSub(Enter(p), key);
            !s.Exhausted? && (s.Found? ==> Searching(s.p, s.depth, key, goal)) && (s.Left? ==> goal == None)
  {
    ScanPending(Enter(p), 0, key);
  }

  lemma SearchAfter(p: Pos, key: Key)
    requires p.f.SubF? && Depth(p.c) > 0
    ensures var s := ScanFrom(Enter(p), 1, true); var goal := FindSub(After(p), key);
            !s.Exhausted? && (s.Found? ==> Searching(s.p, s.depth, key, goal)) && (s.Left? ==> goal == None)
  {
    assert Leave(Enter(p).c, Enter(p).f) == After(p);
    ScanPending(Enter(p), 1, key);
  }

  // ----- The end of a node -----

  /** Past the end of the node k levels out from the innermost open one. */
  function Out(p: Pos, k: nat): Pos
    requires k < Depth(p.c)
    decreases k
  {
    if k == 0 then Leave(p.c, p.f) else Out(Leave(p.c, p.f), k - 1)
  }

  lemma NextOut(p: Pos, k: nat)
    requires k < Depth(p.c) && !p.f.SubF? && !(p.f.Nil? && k == 0)
    ensures p.f.Nil? ==> k - 1 < Depth(Next(p).c) && Out(Next(p), k - 1) == Out(p, k)
    ensures !p.f.Nil? ==> Depth(Next(p).c) == Depth(p.c) && Out(Next(p), k) == Out(p, k)
  {
    if !p.f.Nil? {
      assert Leave(Next(p).c, Next(p).f) == Leave(p.c, p.f);
    }
  }

  ghost predicate LeadsTo(s: Scan, goal: Pos) {
    match s
    case Found(q, d) => 1 <= d <= Depth(q.c) && Out(q, d - 1) == goal
    case Left(q) => q == goal
    case Exhausted => false
  }

  /** A scan that leaves the node it started in leaves it at its end. */
  lemma {:induction false} ScanOut(p: Pos, k: nat)
    requires k < Depth(p.c)
    ensures LeadsTo(ScanFrom(p, k, true), Out(p, k))
    decreases Remaining(p)
  {
    hide Plug, Off, FSize, PostSize, Remaining;
    if p.f.Nil? {
      if k > 0 {
        NextOut(p, k);
        ScanOut(Next(p), k - 1);
      }
    } else if !p.f.SubF? {
      NextOut(p, k);
      ScanOut(Next(p), k);
    }
  }

  lemma EnterOut(q: Pos, d: nat)
    requires q.f.SubF? && 1 <= d <= Depth(q.c)
    ensures LeadsTo(ScanFrom(Enter(q), d, true), Out(q, d - 1))
  {
    OutEnter(q, d);
    ScanOut(Enter(q), d);
  }

  lemma OutEnter(q: Pos, d: nat)
    requires q.f.SubF? && 1 <= d <= Depth(q.c)
    ensures Out(Enter(q), d) == Out(q, d - 1)
  {
    assert Leave(Enter(q).c, Enter(q).f) == After(q);
    assert Out(Enter(q), d) == Out(After(q), d - 1);
    assert Leave(After(q).c, After(q).f) == Leave(q.c, q.f);
    if d > 1 {
      assert Out(After(q), d - 1) == Out(Leave(q.c, q.f), d - 2);
    }
  }

  // ----- Searching the properties of a node: those before its first subnode -----

  function FirstProp(p: Pos): (r: Option<Pos>)
    ensures r.Some? ==> Whole(r.value) == Whole(p) && r.value.f.PropF? && Remaining(r.value) <= Remaining(p)
    ensures r.Some? ==> Depth(r.value.c) == Depth(p.c)
    decreases p.f
  {
    match p.f
    case PropF(_, _, _) => Some(p)
    case NopF(_) => FirstProp(Next(p))
    case _ => None
  }

  /** The first property called name. */
  function FindProp(p: Pos, name: Str): (r: Option<Pos>)
    ensures r.Some? ==> Whole(r.value) == Whole(p) && r.value.f.PropF? && r.value.f.pname == name
    decreases p.f
  {
    match p.f
    case PropF(n, _, _) => if n == name then Some(p) else FindProp(Next(p), name)
    case NopF(_) => FindProp(Next(p), name)
    case _ => None
  }

  lemma {:induction false} FindFirst(p: Pos, name: Str)
    ensures FindProp(p, name) == match FirstProp(p)
                                 case None => None
                                 case Some(q) => if q.f.pname == name then Some(q) else FindProp(Next(q), name)
    decreases p.f
  {
    if p.f.NopF? {
      FindFirst(Next(p), name);
    }
  }
}
