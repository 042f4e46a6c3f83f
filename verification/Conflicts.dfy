/**
 * overlay_prevent_phandle_overwrite: where an overlay node is going to be merged into a base node that has a
 * phandle, it takes that phandle first, and every local reference to it follows.
 */
module Conflicts {
  import opened Bytes
  import opened Tree
  import opened Encoding
  import opened Positions
  import opened Merge
  import opened Sem
  import opened Overlay
  import opened OverlaySteps
  import opened Skeleton
  import opened Refs

  // ----- Giving a node another phandle -----

  lemma SetCellHere(b: Forest, y: Str, v: nat, m: Str, x: Str)
    requires v < U32
    ensures KidAt(SetCell(b, y, v), m) == KidAt(b, m)
    ensures Data(SetCell(b, y, v), x) == if x == y && CellOf(b, x).Some? then Some(Put32(v)) else Data(b, x)
  {
    if CellOf(b, y).Some? {
      PutPropData(b, y, Put32(v), x);
      PutPropKids(b, y, Put32(v), m, {});
    }
  }

  lemma SetPhandleHere(b: Forest, v: nat, m: Str, x: Str)
    requires v < U32
    ensures KidAt(SetPhandle(b, v), m) == KidAt(b, m)
    ensures Data(SetPhandle(b, v), x) == if IsPhandle(x) && CellOf(b, x).Some? then Some(Put32(v)) else Data(b, x)
  {
    var c := SetCell(b, PHANDLE, v);
    SetCellHere(b, PHANDLE, v, m, x);
    SetCellHere(b, PHANDLE, v, m, LINUX_PHANDLE);
    SetCellHere(c, LINUX_PHANDLE, v, m, x);
    assert PHANDLE != LINUX_PHANDLE by {
      assert |PHANDLE| == 7 && |LINUX_PHANDLE| == 13;
    }
  }

  lemma SetPhandleBelow(b: Forest, v: nat, p: Path, x: Str)
    requires v < U32
    ensures ValueAt(SetPhandle(b, v), p, x) == if p == [] && IsPhandle(x)
                                                  && CellIn(ValueAt(b, p, x)).Some? then Some(Put32(v))
            else ValueAt(b, p, x)
  {
    SetPhandleHere(b, v, if p == [] then [] else p[0], x);
  }

  lemma SetPhandleAt(o: Forest, q: Path, v: nat, p: Path, x: Str)
    requires NodeAt(o, q).Some? && v < U32
    ensures ValueAt(PutAt(o, q, SetPhandle(NodeAt(o, q).value, v)), p, x) ==
            if p == q && IsPhandle(x) && CellIn(ValueAt(o, p, x)).Some? then Some(Put32(v)) else ValueAt(o, p, x)
  {
    var k := NodeAt(o, q).value;
    PutAtValue(o, q, SetPhandle(k, v), p, x);
    if q <= p {
      NodeBelow(o, q, p);
      SetPhandleBelow(k, v, p[|q|..], x);
      assert p == q <==> p[|q|..] == [];
    }
  }

  /** o' is o with the phandle of the node at q, if it has one, changed to v. */
  ghost predicate Rephandled(o: Forest, o': Forest, q: Path, v: nat) {
    && v < U32 && Skel(o') == Skel(o)
    && forall p, x :: ValueAt(o', p, x) ==
                      if p == q && IsPhandle(x) && CellIn(ValueAt(o, p, x)).Some? then Some(Put32(v))
                        else ValueAt(o, p, x)
  }

  lemma SetPhandleRephandles(o: Forest, q: Path, v: nat)
    requires NodeAt(o, q).Some? && v < U32
    ensures Rephandled(o, PutAt(o, q, SetPhandle(NodeAt(o, q).value, v)), q, v)
  {
    hide PutAt, SetPhandle, ValueAt, Skel, NodeAt, CellIn;
    forall p, x
      ensures ValueAt(PutAt(o, q, SetPhandle(NodeAt(o, q).value, v)), p, x) ==
              if p == q && IsPhandle(x) && CellIn(ValueAt(o, p, x)).Some? then Some(Put32(v)) else ValueAt(o, p, x)
    {
      SetPhandleAt(o, q, v, p, x);
    }
    SkelSetPhandle(NodeAt(o, q).value, v);
    SkelPutAt(o, q, SetPhandle(NodeAt(o, q).value, v));
  }

  lemma RephandledPh(o: Forest, o': Forest, q: Path, v: nat, p: Path, x: Str)
    requires Rephandled(o, o', q, v) && Agreeing(o) && Ph(o, q) != 0
    ensures Ph(o', p) == if p == q then v else Ph(o, p)
    ensures IsPhandle(x) && ValueAt(o', p, x).Some? ==> CellIn(ValueAt(o', p, x)) == Some(Ph(o', p))
  {
    hide ValueAt, Skel;
    PhIs(o, p);
    PhIs(o', p);
    PutGet32(v);
    assert IsPhandle(PHANDLE) && IsPhandle(LINUX_PHANDLE);
    if p == q {
      assert ValueAt(o, p, PHANDLE).Some? || ValueAt(o, p, LINUX_PHANDLE).Some?;
    }
  }

  // ----- One conflict -----

  /** All phandles of o are above delta, and no two nodes share one. */
  ghost predicate Fresh(o: Forest, delta: nat) {
    && (forall p :: Ph(o, p) == 0 || Ph(o, p) > delta)
    && (forall p, q | Ph(o, p) != 0 && Ph(o, p) == Ph(o, q) :: p == q)
  }

  /** o3 with some of its phandles exchanged for ones of the base, which are at most delta. */
  ghost predicate Mid(o0: Forest, o3: Forest, o: Forest, delta: nat) {
    && Holds(o0, o) && Plain(o0, o3, o)
    && forall p :: Ph(o, p) == Ph(o3, p) || (0 < Ph(o, p) <= delta && Ph(o3, p) != 0)
  }

  /** What is neither a phandle nor a local reference is the same in o as in o3. */
  ghost predicate Plain(o0: Forest, o3: Forest, o: Forest) {
    && (forall p, x | !IsPhandle(x) && Lists(o0, p, x) == None :: ValueAt(o, p, x) == ValueAt(o3, p, x))
    && (forall p, x, i | Unlisted(o0, p, x, i) :: Cell(o, p, x, i) == Cell(o3, p, x, i))
  }

  /** The cell at offset i of property x of the node at path p overlaps no local reference, though there are some. */
  predicate Unlisted(o: Forest, p: Path, x: Str, i: nat) {
    !IsPhandle(x) && Lists(o, p, x).Some? && Apart(Lists(o, p, x).value, i)
  }

  lemma HeldListing(o0: Forest, o: Forest)
    requires Sound(o0) && SameLists(o0, o) && Agreeing(o)
    ensures Listing(o) && forall p, x :: ListsSound(o, p, x) && Lists(o, p, x) == Lists(o0, p, x)
  {
    hide Sound, Listing, SameLists, ListsSound, Lists;
    SoundLists(o0);
    SameListing(o0, o);
  }

  /** The middle of Rename: the node has its new phandle and the references have not followed yet. */
  lemma RephandledSound(o0: Forest, o: Forest, o1: Forest, q: Path, v: nat)
    requires Sound(o0) && SameLists(o0, o) && Agreeing(o) && Rephandled(o, o1, q, v)
    ensures SameLists(o0, o1) && Listing(o1) && forall p, x :: ListsSound(o1, p, x)
                                                               && Lists(o1, p, x) == Lists(o0, p, x)
    ensures forall p, x | !IsPhandle(x) :: ValueAt(o1, p, x) == ValueAt(o, p, x)
  {
    hide ValueAt, Skel, Sound, Listing, Lists, ListsSound, RefsHold, Agreeing;
    HeldListing(o0, o);
    forall r, x
      ensures ValueAt(o1, [LOCAL_FIXUPS] + r, x) == ValueAt(o0, [LOCAL_FIXUPS] + r, x)
    {
      if IsPhandle(x) {
        FixupsPlain(o, r, x);
      }
    }
    SoundLists(o0);
    SameListing(o0, o1);
  }

  lemma RenamedPh(o0: Forest, o: Forest, q: Path, v: nat, p: Path, x: Str)
    requires Sound(o0) && SameLists(o0, o) && Agreeing(o) && NodeAt(o, q).Some? && 0 < v < U32 && Ph(o, q) != 0
    requires Rename(o, q, v).Ok?
    ensures var o' := Rename(o, q, v).v;
            && Ph(o', p) == (if p == q then v else Ph(o, p))
            && (!IsPhandle(x) && Lists(o0, p, x) == None ==> ValueAt(o', p, x) == ValueAt(o, p, x))
            && (IsPhandle(x) && ValueAt(o', p, x).Some? ==> CellIn(ValueAt(o', p, x)) == Some(Ph(o', p)))
  {
    hide PutAt, SetPhandle, ValueAt, Skel, CellIn, RewriteLocal, Ph, NodeAt;
    var k := NodeAt(o, q).value;
    var o1 := PutAt(o, q, SetPhandle(k, v));
    var g := Replacing(Phandle(k), v);
    SetPhandleRephandles(o, q, v);
    RephandledPh(o, o1, q, v, p, x);
    RephandledSound(o0, o, o1, q, v);
    RewriteLocalKeeps(o1, g, p);
    RewriteLocalAt(o1, g, p, x);
  }

  lemma RenamedApart(o0: Forest, o: Forest, q: Path, v: nat, p: Path, x: Str, i: nat)
    requires Sound(o0) && SameLists(o0, o) && Agreeing(o) && NodeAt(o, q).Some? && 0 < v < U32
    requires Rename(o, q, v).Ok? && Unlisted(o0, p, x, i)
    ensures Cell(Rename(o, q, v).v, p, x, i) == Cell(o, p, x, i)
  {
    hide PutAt, SetPhandle, ValueAt, Skel, CellIn, RewriteLocal, Lists, Spread, Apart;
    var k := NodeAt(o, q).value;
    var o1 := PutAt(o, q, SetPhandle(k, v));
    var g := Replacing(Phandle(k), v);
    SetPhandleRephandles(o, q, v);
    RephandledSound(o0, o, o1, q, v);
    assert ListsSound(o1, p, x);
    assert Cell(o1, p, x, i) == Cell(o, p, x, i);
    RewriteLocalAt(o1, g, p, x);
    MapCellsGet(ValueAt(o1, p, x).value, Lists(o1, p, x).value, g, i);
  }

  lemma RenamedCell(o0: Forest, o: Forest, q: Path, v: nat, p: Path, x: Str, i: nat)
    requires Sound(o0) && SameLists(o0, o) && Agreeing(o) && NodeAt(o, q).Some? && 0 < v < U32
    requires Rename(o, q, v).Ok? && IsRef(o0, p, x, i)
    ensures Cell(o, p, x, i).Some?
    ensures Cell(Rename(o, q, v).v, p, x, i) ==
            Some(if Cell(o, p, x, i).value == Ph(o, q) then v else Cell(o, p, x, i).value)
  {
    hide PutAt, SetPhandle, ValueAt, Skel, CellIn, RewriteLocal, Listed, Lists, Spread;
    var k := NodeAt(o, q).value;
    var o1 := PutAt(o, q, SetPhandle(k, v));
    var g := Replacing(Phandle(k), v);
    SetPhandleRephandles(o, q, v);
    RephandledSound(o0, o, o1, q, v);
    assert ListsSound(o1, p, x) && ListsSound(o0, p, x);
    assert IsRef(o1, p, x, i) && !IsPhandle(x);
    assert Cell(o1, p, x, i) == Cell(o, p, x, i);
    RewriteLocalCell(o1, g, p, x, i);
    ReplacingFits(Phandle(k), v, Cell(o1, p, x, i).value);
  }

  lemma ReplacingFits(u: nat, v: nat, c: nat)
    requires v < U32 && c < U32
    ensures Replacing(u, v)(c) % U32 == if c == u then v else c
  {
  }

  lemma RenamedSkel(o0: Forest, o: Forest, q: Path, v: nat)
    requires Sound(o0) && SameLists(o0, o) && Agreeing(o) && NodeAt(o, q).Some? && v < U32 && Rename(o, q, v).Ok?
    ensures SameLists(o0, Rename(o, q, v).v)
  {
    hide PutAt, SetPhandle, ValueAt, Skel, CellIn, RewriteLocal, Lists, Sound, Listing, ListsSound;
    var o1 := PutAt(o, q, SetPhandle(NodeAt(o, q).value, v));
    SetPhandleRephandles(o, q, v);
    RephandledSound(o0, o, o1, q, v);
    RewriteLocalKeeps(o1, Replacing(Phandle(NodeAt(o, q).value), v), []);
  }

  /** One conflict resolved: only the phandle of the node at q has changed, and every reference holds. */
  lemma RenameHolds(o0: Forest, o3: Forest, o: Forest, delta: nat, q: Path, v: nat)
    requires Sound(o0) && Fresh(o3, delta) && Mid(o0, o3, o, delta)
    requires forall n :: Ph(o0, n) != 0 <==> Ph(o3, n) != 0
    requires NodeAt(o, q).Some? && Ph(o, q) == Ph(o3, q) != 0 && 0 < v <= delta < U32 && Rename(o, q, v).Ok?
    ensures Mid(o0, o3, Rename(o, q, v).v, delta)
    ensures forall p :: Ph(Rename(o, q, v).v, p) == if p == q then v else Ph(o, p)
  {
    hide Rename, ValueAt, Skel, CellIn, Ph, NodeAt, IsRef, Cell, Lists, Sound, Unlisted;
    var o' := Rename(o, q, v).v;
    RenamedSkel(o0, o, q, v);
    forall p
      ensures Ph(o', p) == if p == q then v else Ph(o, p)
    {
      RenamedPh(o0, o, q, v, p, []);
    }
    forall p, x
      ensures IsPhandle(x) && ValueAt(o', p, x).Some? ==> CellIn(ValueAt(o', p, x)) == Some(Ph(o', p))
      ensures !IsPhandle(x) && Lists(o0, p, x) == None ==> ValueAt(o', p, x) == ValueAt(o3, p, x)
    {
      RenamedPh(o0, o, q, v, p, x);
    }
    forall p, x, i | Unlisted(o0, p, x, i)
      ensures Cell(o', p, x, i) == Cell(o3, p, x, i)
    {
      RenamedApart(o0, o, q, v, p, x, i);
    }
    forall p, x, i, n | IsRef(o0, p, x, i) && Ph(o0, n) != 0 && Cell(o0, p, x, i) == Some(Ph(o0, n))
      ensures Cell(o', p, x, i) == Some(Ph(o', n))
    {
      RenamedCell(o0, o, q, v, p, x, i);
      assert Cell(o, p, x, i) == Some(Ph(o, n));
      assert n != q ==> Ph(o, n) != Ph(o, q) by {
        assert Ph(o, n) == Ph(o3, n) || Ph(o, n) <= delta;
      }
    }
  }

  // ----- All conflicts below one node -----

  /**
   * The phandle of an overlay node that has v, once it has been matched with the base node that path r leads to below
   * bb.
   */
  function Taken(bb: Forest, r: Path, v: nat): nat {
    if v != 0 && Ph(bb, Into(bb, r)) != 0 then Ph(bb, Into(bb, r)) else v
  }

  /** p leads to a node below the node at q, through a subnode of it that shape has. */
  predicate Through(q: Path, shape: Forest, p: Path) {
    q <= p && |q| < |p| && KidAt(shape, p[|q|]).Some?
  }

  /** The subnodes that shape lists are subnodes of the node at q. */
  ghost predicate Shapes(o: Forest, q: Path, shape: Forest) {
    forall n | KidAt(shape, n).Some? ::
      NodeAt(o, q + [n]).Some? && Skel(NodeAt(o, q + [n]).value) == Skel(KidAt(shape, n).value)
  }

  ghost predicate SameBelow(o3: Forest, o: Forest, q: Path) {
    forall p | q <= p :: Ph(o, p) == Ph(o3, p)
  }

  ghost predicate SameThrough(o3: Forest, o: Forest, q: Path, shape: Forest) {
    forall p | Through(q, shape, p) :: Ph(o, p) == Ph(o3, p)
  }

  lemma {:induction false} NodeExtend(o: Forest, q: Path, n: Str)
    ensures NodeAt(o, q + [n]) == match NodeAt(o, q) case None => None case Some(k) => KidAt(k, n)
    decreases |q|
  {
    if q == [] {
      assert (q + [n])[1..] == [];
    } else {
      assert (q + [n])[1..] == q[1..] + [n];
      if KidAt(o, q[0]).Some? {
        NodeExtend(KidAt(o, q[0]).value, q[1..], n);
      }
    }
  }

  lemma ShapesOf(o: Forest, q: Path, shape: Forest)
    requires NodeAt(o, q).Some? && Skel(NodeAt(o, q).value) == Skel(shape)
    ensures Shapes(o, q, shape)
  {
    forall n | KidAt(shape, n).Some?
      ensures NodeAt(o, q + [n]).Some? && Skel(NodeAt(o, q + [n]).value) == Skel(KidAt(shape, n).value)
    {
      NodeExtend(o, q, n);
      SkelHas(NodeAt(o, q).value, shape, n);
    }
  }

  /** Nothing is below the node at q but what shape lists. */
  lemma NoOther(o: Forest, q: Path, shape: Forest, p: Path)
    requires NodeAt(o, q).Some? && Skel(NodeAt(o, q).value) == Skel(shape)
    requires q <= p && p != q && !Through(q, shape, p)
    ensures Ph(o, p) == 0
  {
    NodeBelow(o, q, p);
    SkelHas(NodeAt(o, q).value, shape, p[|q|]);
    assert p[|q|..][0] == p[|q|];
  }

  lemma KidPh(bb: Forest, n: Str, r: Path)
    requires r != [] && r[0] == n
    ensures Ph(bb, Into(bb, r)) == if HasSub(bb, n) then Ph(SubBody(bb, n), Into(SubBody(bb, n), r[1..])) else 0
  {
    SubIsMeant(bb, n);
    assert Into(bb, r)[1..] == Into(KidOrNil(bb, Meant(bb, n)), r[1..]);
  }

  ghost predicate Bounded(bb: Forest, delta: nat) {
    forall r :: Ph(bb, r) <= delta
  }

  lemma SubBounded(bb: Forest, n: Str, delta: nat)
    requires HasSub(bb, n) && Bounded(bb, delta)
    ensures Bounded(SubBody(bb, n), delta)
  {
    SubIsMeant(bb, n);
    forall r
      ensures Ph(SubBody(bb, n), r) <= delta
    {
      assert Ph(bb, [Meant(bb, n)] + r) <= delta && ([Meant(bb, n)] + r)[1..] == r;
    }
  }

  /** What is known before the conflicts are looked at; o3 is the overlay at that time. */
  ghost predicate Ready(o0: Forest, o3: Forest, delta: nat) {
    Sound(o0) && Fresh(o3, delta) && delta < U32 && forall n :: Ph(o0, n) != 0 <==> Ph(o3, n) != 0
  }

  lemma MidSkel(o0: Forest, o3: Forest, o: Forest, delta: nat)
    requires Mid(o0, o3, o, delta)
    ensures Skel(o) == Skel(o0)
  {
  }

  lemma ReadyRename(o0: Forest, o3: Forest, o: Forest, delta: nat, q: Path, v: nat)
    requires Ready(o0, o3, delta) && Mid(o0, o3, o, delta)
    requires NodeAt(o, q).Some? && Ph(o, q) == Ph(o3, q) != 0 && 0 < v <= delta && Rename(o, q, v).Ok?
    ensures Mid(o0, o3, Rename(o, q, v).v, delta)
    ensures forall p :: Ph(Rename(o, q, v).v, p) == if p == q then v else Ph(o, p)
  {
    hide Sound, Fresh, Mid, Rename, Ph, NodeAt;
    RenameHolds(o0, o3, o, delta, q, v);
  }

  /** overlay_prevent_phandle_overwrite_node: every node below takes the base's phandle, and every reference holds. */
  lemma {:induction false} PreventNodeHolds(o0: Forest, o3: Forest, o: Forest, delta: nat, q: Path, bb: Forest,
      shape: Forest)
    requires Ready(o0, o3, delta) && Mid(o0, o3, o, delta)
    requires NodeAt(o0, q).Some? && Skel(NodeAt(o0, q).value) == Skel(shape)
    requires Uniq(shape) && Bounded(bb, delta) && SameBelow(o3, o, q)
    requires PreventNode(o, q, bb, shape).Ok?
    ensures Mid(o0, o3, PreventNode(o, q, bb, shape).v, delta)
    ensures forall p :: Ph(PreventNode(o, q, bb, shape).v, p) == if q <= p then Taken(bb, p[|q|..], Ph(o, p))
            else Ph(o, p)
    decreases shape, 1
  {
    hide Ready, Mid, Rename, Taken, Through, PreventSubs, ValueAt, Skel, CellIn, Ph, NodeAt, KidAt, Uniq, NamesIn;
    var c := Ph(bb, []) != 0 && Ph(o, q) != 0;
    MidSkel(o0, o3, o, delta);
    SkelNodeOf(o0, o, q, shape);
    assert Ph(bb, []) == Phandle(bb) && Ph(o, q) == Phandle(NodeAt(o, q).value) by { RootPh(o, q, bb); }
    var o1 := if c then Rename(o, q, Ph(bb, [])).v else o;
    if c {
      ReadyRename(o0, o3, o, delta, q, Ph(bb, []));
    }
    ShapesOf(o0, q, shape);
    forall p
      ensures Through(q, shape, p) ==> q <= p && p != q
    {
      TakenHere(o, q, bb, shape, p);
    }
    assert SameThrough(o3, o1, q, shape);
    PreventSubsHolds(o0, o3, o1, delta, q, bb, shape);
    var o' := PreventNode(o, q, bb, shape).v;
    assert o' == PreventSubs(o1, q, bb, shape).v;
    forall p
      ensures Ph(o', p) == if q <= p then Taken(bb, p[|q|..], Ph(o, p)) else Ph(o, p)
    {
      TakenHere(o, q, bb, shape, p);
    }
  }

  lemma TakenHere(o: Forest, q: Path, bb: Forest, shape: Forest, p: Path)
    requires NodeAt(o, q).Some? && Skel(NodeAt(o, q).value) == Skel(shape)
    ensures Through(q, shape, p) ==> q <= p && p != q
    ensures q <= p && p != q && !Through(q, shape, p) ==> Taken(bb, p[|q|..], Ph(o, p)) == Ph(o, p)
    ensures p == q ==> Taken(bb, p[|q|..], Ph(o, p)) == if Ph(bb, []) != 0 && Ph(o, q) != 0 then Ph(bb, [])
            else Ph(o, q)
  {
    if q <= p && p != q && !Through(q, shape, p) {
      NoOther(o, q, shape, p);
    }
    assert p == q ==> p[|q|..] == [];
  }

  lemma RootPh(o: Forest, q: Path, bb: Forest)
    requires NodeAt(o, q).Some?
    ensures Ph(bb, []) == Phandle(bb) && Ph(o, q) == Phandle(NodeAt(o, q).value)
  {
  }

  lemma SkelNodeOf(o0: Forest, o: Forest, q: Path, shape: Forest)
    requires Skel(o) == Skel(o0) && NodeAt(o0, q).Some? && Skel(NodeAt(o0, q).value) == Skel(shape)
    ensures NodeAt(o, q).Some? && Skel(NodeAt(o, q).value) == Skel(shape)
  {
    SkelNode(o0, o, q);
  }

  /** A node is below the first of the subnodes or below one of the others, never both. */
  lemma ThroughSplit(o0: Forest, q: Path, shape: Forest)
    requires shape.SubF? && Uniq(shape) && Shapes(o0, q, shape)
    ensures forall p :: Through(q, shape, p) <==> q + [shape.name] <= p || Through(q, shape.rest, p)
    ensures forall p :: !(q + [shape.name] <= p && Through(q, shape.rest, p))
    ensures Shapes(o0, q, shape.rest)
    ensures NodeAt(o0, q + [shape.name]).Some? && Skel(NodeAt(o0, q + [shape.name]).value) == Skel(shape.body)
  {
    hide Skel, NodeAt;
    assert KidAt(shape, shape.name) == Some(shape.body);
    assert forall m | KidAt(shape.rest, m).Some? :: m != shape.name && KidAt(shape, m) == KidAt(shape.rest, m);
  }

  lemma NilThrough(q: Path)
    ensures forall p :: !Through(q, Nil, p)
  {
  }

  lemma KidTaken(bb: Forest, n: Str, q: Path, p: Path, v: nat)
    requires q + [n] <= p
    ensures Taken(bb, p[|q|..], v) == if HasSub(bb, n) then Taken(SubBody(bb, n), p[|q + [n]|..], v) else v
  {
    KidPh(bb, n, p[|q|..]);
    assert p[|q|..][1..] == p[|q + [n]|..];
  }

  lemma {:induction false} PreventSubsHolds(o0: Forest, o3: Forest, o: Forest, delta: nat, q: Path, bb: Forest,
      shape: Forest)
    requires Ready(o0, o3, delta) && Mid(o0, o3, o, delta)
    requires Shapes(o0, q, shape)
    requires Uniq(shape) && Bounded(bb, delta) && SameThrough(o3, o, q, shape)
    requires PreventSubs(o, q, bb, shape).Ok?
    ensures Mid(o0, o3, PreventSubs(o, q, bb, shape).v, delta)
    ensures forall p :: Ph(PreventSubs(o, q, bb, shape).v, p) ==
                        if Through(q, shape, p) then Taken(bb, p[|q|..], Ph(o, p)) else Ph(o, p)
    decreases shape, 0
  {
    hide Ready, Mid, NodeNameEq, HasSub, SubBody, Bounded, ValueAt, Skel, CellIn, Ph, NodeAt, Shapes, Through, Taken,
      KidAt;
    match shape
    case Nil => NilThrough(q);
    case SubF(n, k, r) =>
      ThroughSplit(o0, q, shape);
      var o1 := if HasSub(bb, n) then PreventNode(o, q + [n], SubBody(bb, n), k).v else o;
      if HasSub(bb, n) {
        SubBounded(bb, n, delta);
        PreventNodeHolds(o0, o3, o, delta, q + [n], SubBody(bb, n), k);
      }
      forall p
        ensures Ph(o1, p) == if q + [n] <= p then Taken(bb, p[|q|..], Ph(o, p)) else Ph(o, p)
      {
        if q + [n] <= p {
          KidTaken(bb, n, q, p, Ph(o, p));
        }
      }
      PreventSubsHolds(o0, o3, o1, delta, q, bb, r);
    case NopF(r) => PreventRest(o0, o3, o, delta, q, bb, shape);
    case PropF(_, _, r) => PreventRest(o0, o3, o, delta, q, bb, shape);
  }

  lemma PreventRest(o0: Forest, o3: Forest, o: Forest, delta: nat, q: Path, bb: Forest, shape: Forest)
    requires Ready(o0, o3, delta) && Mid(o0, o3, o, delta)
    requires Shapes(o0, q, shape) && (shape.NopF? || shape.PropF?)
    requires Uniq(shape) && Bounded(bb, delta) && SameThrough(o3, o, q, shape)
    requires PreventSubs(o, q, bb, shape).Ok?
    ensures Mid(o0, o3, PreventSubs(o, q, bb, shape).v, delta)
    ensures forall p :: Ph(PreventSubs(o, q, bb, shape).v, p) ==
                        if Through(q, shape, p) then Taken(bb, p[|q|..], Ph(o, p)) else Ph(o, p)
    decreases shape, 0, 0
  {
    hide Ready, Mid, NodeNameEq, HasSub, SubBody, Bounded, ValueAt, Skel, CellIn, Ph, NodeAt;
    assert forall m :: KidAt(shape.rest, m) == KidAt(shape, m);
    assert forall p :: Through(q, shape, p) == Through(q, shape.rest, p);
    PreventSubsHolds(o0, o3, o, delta, q, bb, shape.rest);
  }

  // ----- All fragments -----

  lemma NodePh(b: Forest, t: Path, r: Path)
    requires NodeAt(b, t).Some?
    ensures Ph(NodeAt(b, t).value, r) == Ph(b, t + r)
  {
    NodeBelow(b, t, t + r);
    assert (t + r)[|t|..] == r;
  }

  lemma {:induction false} MaxBound(b: Forest, p: Path)
    ensures Ph(b, p) <= MaxPhandle(b)
    decreases |p|
  {
    if p != [] && KidAt(b, p[0]).Some? {
      MaxBound(KidAt(b, p[0]).value, p[1..]);
      MaxKid(b, p[0]);
    }
  }

  lemma {:induction false} MaxKid(b: Forest, n: Str)
    requires KidAt(b, n).Some?
    ensures MaxPhandle(KidAt(b, n).value) <= MaxBelow(b)
  {
    match b
    case SubF(m, k, r) => if m != n { MaxKid(r, n); }
    case NopF(r) => MaxKid(r, n);
    case PropF(_, _, r) => MaxKid(r, n);
  }

  /** The greatest phandle is one: some node has it. */
  lemma {:induction false} MaxAttained(b: Forest) returns (p: Path)
    requires Uniq(b)
    ensures Ph(b, p) == MaxPhandle(b)
    decreases b, 1
  {
    hide Phandle;
    p := [];
    if MaxBelow(b) != 0 && Phandle(b) <= MaxBelow(b) {
      p := MaxBelowAttained(b);
    }
  }

  lemma {:induction false} MaxBelowAttained(b: Forest) returns (p: Path)
    requires Uniq(b) && MaxBelow(b) != 0
    ensures p != [] && Ph(b, p) == MaxBelow(b)
    decreases b, 0
  {
    hide Phandle;
    match b
    case SubF(n, k, r) =>
      if MaxPhandle(k) > MaxBelow(r) {
        var q := MaxAttained(k);
        p := [n] + q;
        assert p[1..] == q;
      } else {
        p := MaxBelowAttained(r);
        assert KidAt(b, p[0]) == KidAt(r, p[0]);
      }
    case NopF(r) => p := MaxBelowAttained(r);
    case PropF(_, _, r) => p := MaxBelowAttained(r);
  }

  /** Where the fragment f of overlay o goes in the base b. */
  function TargetOf(b: Forest, o: Forest, f: Str): Res<Path> {
    match KidAt(o, f)
    case Some(k) => Target(b, k)
    case None => Err(-NOTFOUND)
  }

  /**
   * Where the fragment f of frags goes in the base b, as the conflict pass finds it when its turn comes; o is the
   * overlay now.
   */
  function Foreseen(b: Forest, o: Forest, frags: Forest, f: Str): Res<Path>
    decreases frags
  {
    match frags
    case Nil => Err(-NOTFOUND)
    case SubF(g, k, r) =>
      if g == f then (if HasSub(k, OVERLAY) then TargetOf(b, o, f) else Err(-NOTFOUND)) else
        (match PreventFragment(b, o, g, k) case Err(e) => Err(e) case Ok(o1) => Foreseen(b, o1, r, f))
    case _ => Foreseen(b, o, frags.rest, f)
  }

  lemma {:induction false} ForeseenNot(b: Forest, o: Forest, frags: Forest, f: Str)
    requires KidAt(frags, f) == None
    ensures Foreseen(b, o, frags, f).Err?
    decreases frags
  {
    match frags
    case Nil =>
    case SubF(g, k, r) =>
      if PreventFragment(b, o, g, k).Ok? {
        ForeseenNot(b, PreventFragment(b, o, g, k).v, r, f);
      }
    case _ => ForeseenNot(b, o, frags.rest, f);
  }

  /**
   * The phandle that the node at overlay path p, which has v, has after a fragment called f with target t has had its
   * turn.
   */
  function TakenIn(b: Forest, f: Str, t: Res<Path>, p: Path, v: nat): nat {
    if |p| >= 2 && p[0] == f && p[1] == OVERLAY && t.Ok? then Taken(NodeOr(b, t.v), p[2..], v) else v
  }

  /** The phandle that the node at path p, which has v, has after the conflicts of the fragments have been resolved. */
  function Adopted(b: Forest, o: Forest, frags: Forest, p: Path, v: nat): nat {
    if |p| >= 2 then TakenIn(b, p[0], Foreseen(b, o, frags, p[0]), p, v) else v
  }

  lemma {:induction false} NoneBelow(o: Forest, q: Path, p: Path)
    requires NodeAt(o, q).None? && q <= p
    ensures NodeAt(o, p).None?
    decreases |q|
  {
    if KidAt(o, q[0]).Some? {
      NoneBelow(KidAt(o, q[0]).value, q[1..], p[1..]);
    }
  }

  lemma OverlaySkel(o: Forest, f: Str, k: Forest)
    requires NodeAt(o, [f]).Some? && Skel(NodeAt(o, [f]).value) == Skel(k)
    ensures NodeAt(o, [f, OVERLAY]).Some? == KidAt(k, OVERLAY).Some?
    ensures KidAt(k, OVERLAY).Some? ==> Skel(NodeAt(o, [f, OVERLAY]).value) == Skel(KidAt(k, OVERLAY).value)
  {
    NodeExtend(o, [f], OVERLAY);
    assert [f] + [OVERLAY] == [f, OVERLAY];
    SkelHas(NodeAt(o, [f]).value, k, OVERLAY);
  }

  lemma KidIsNode(o: Forest, f: Str)
    ensures NodeAt(o, [f]) == KidAt(o, f)
  {
    NodeExtend(o, [], f);
    assert [] + [f] == [f];
  }

  lemma BoundedAt(b: Forest, t: Path, delta: nat)
    requires Bounded(b, delta) && NodeAt(b, t).Some?
    ensures Bounded(NodeAt(b, t).value, delta)
  {
    forall r
      ensures Ph(NodeAt(b, t).value, r) <= delta
    {
      NodePh(b, t, r);
    }
  }

  lemma InOverlay(f: Str, p: Path)
    ensures [f, OVERLAY] <= p <==> |p| >= 2 && p[0] == f && p[1] == OVERLAY
    ensures [f, OVERLAY] <= p ==> [f] <= p
  {
  }

  /** The name that finds the __overlay__ node of a fragment is its own. */
  lemma FragmentOwn(o0: Forest, o3: Forest, delta: nat, f: Str, k: Forest)
    requires Ready(o0, o3, delta) && NodeAt(o0, [f]).Some? && Skel(NodeAt(o0, [f]).value) == Skel(k)
    ensures OwnName(k, OVERLAY)
  {
    hide Skel, Fresh, Uniq, Canon;
    KidIsNode(o0, f);
    SkelMeant(NodeAt(o0, [f]).value, k, OVERLAY);
  }

  lemma PreventFragmentHolds(b: Forest, o0: Forest, o3: Forest, o: Forest, delta: nat, f: Str, k: Forest)
    requires Ready(o0, o3, delta) && Mid(o0, o3, o, delta)
    requires NodeAt(o0, [f]).Some? && Skel(NodeAt(o0, [f]).value) == Skel(k)
    requires Uniq(k) && SameBelow(o3, o, [f])
    requires Bounded(b, delta) && PreventFragment(b, o, f, k).Ok?
    ensures Mid(o0, o3, PreventFragment(b, o, f, k).v, delta)
    ensures var t := if HasSub(k, OVERLAY) then TargetOf(b, o, f) else Err(-NOTFOUND);
            && (t.Ok? ==> NodeAt(b, t.v).Some?)
            && forall p :: Ph(PreventFragment(b, o, f, k).v, p) == TakenIn(b, f, t, p, Ph(o, p))
  {
    hide Ready, Mid, NodeNameEq, HasSub, SubBody, SubName, Bounded, ValueAt, Skel, CellIn, Ph, Taken, Target;
    MidSkel(o0, o3, o, delta);
    FragmentOwn(o0, o3, delta, f, k);
    OwnSub(k, OVERLAY);
    OverlaySkel(o0, f, k);
    KidIsNode(o, f);
    SkelNode(o, o0, [f]);
    var o1 := PreventFragment(b, o, f, k).v;
    var t := if HasSub(k, OVERLAY) then TargetOf(b, o, f) else Err(-NOTFOUND);
    if t.Ok? {
      var q := [f, OVERLAY];
      var bb := NodeAt(b, t.v).value;
      BoundedAt(b, t.v, delta);
      KidUniq(k, OVERLAY);
      SameInside(o3, o, f);
      PreventNodeHolds(o0, o3, o, delta, q, bb, SubBody(k, OVERLAY));
      forall p
        ensures Ph(o1, p) == TakenIn(b, f, t, p, Ph(o, p))
      {
        InOverlay(f, p);
      }
    }
  }

  lemma SameInside(o3: Forest, o: Forest, f: Str)
    requires SameBelow(o3, o, [f])
    ensures SameBelow(o3, o, [f, OVERLAY])
  {
    forall p | [f, OVERLAY] <= p
      ensures Ph(o, p) == Ph(o3, p)
    {
      InOverlay(f, p);
    }
  }

  lemma AdoptedSplit(b: Forest, o: Forest, f: Str, k: Forest, r: Forest, p: Path, v: nat)
    requires KidAt(r, f) == None && PreventFragment(b, o, f, k).Ok?
    ensures var t := if HasSub(k, OVERLAY) then TargetOf(b, o, f) else Err(-NOTFOUND);
            && Adopted(b, o, SubF(f, k, r), p, v) ==
               Adopted(b, PreventFragment(b, o, f, k).v, r, p, TakenIn(b, f, t, p, v))
            && (!([f] <= p) ==> TakenIn(b, f, t, p, v) == v)
  {
    hide PreventFragment, Taken, Target;
    ForeseenNot(b, PreventFragment(b, o, f, k).v, r, f);
  }

  /** overlay_prevent_phandle_overwrite: nodes take the phandles of the base nodes they are matched with. */
  lemma {:induction false} PreventHolds(b: Forest, o0: Forest, o3: Forest, o: Forest, delta: nat, frags: Forest)
    requires Ready(o0, o3, delta) && Mid(o0, o3, o, delta)
    requires Shapes(o0, [], frags) && Uniq(frags) && SameThrough(o3, o, [], frags)
    requires Bounded(b, delta) && Prevent(b, o, frags).Ok?
    ensures Mid(o0, o3, Prevent(b, o, frags).v, delta)
    ensures forall p :: Ph(Prevent(b, o, frags).v, p) == Adopted(b, o, frags, p, Ph(o, p))
    decreases frags
  {
    hide Ready, Mid, PreventFragment, Bounded, Skel, Ph, NodeAt, Shapes, Through, KidAt, Adopted, TakenIn;
    match frags
    case Nil => NothingAdopted(b, o);
    case SubF(f, k, r) =>
      ThroughSplit(o0, [], frags);
      assert [] + [f] == [f];
      NotAgain(frags);
      var o1 := PreventFragment(b, o, f, k).v;
      PreventFragmentHolds(b, o0, o3, o, delta, f, k);
      forall p
        ensures !([f] <= p) ==> Ph(o1, p) == Ph(o, p)
        ensures Adopted(b, o, frags, p, Ph(o, p)) == Adopted(b, o1, r, p, Ph(o1, p))
      {
        AdoptedSplit(b, o, f, k, r, p, Ph(o, p));
      }
      PreventHolds(b, o0, o3, o1, delta, r);
    case NopF(r) => PreventPast(b, o0, o3, o, delta, frags);
    case PropF(_, _, r) => PreventPast(b, o0, o3, o, delta, frags);
  }

  lemma NotAgain(frags: Forest)
    requires frags.SubF? && Uniq(frags)
    ensures KidAt(frags.rest, frags.name) == None
  {
  }

  lemma NothingAdopted(b: Forest, o: Forest)
    ensures forall p, v :: Adopted(b, o, Nil, p, v) == v
  {
  }

  lemma PreventPast(b: Forest, o0: Forest, o3: Forest, o: Forest, delta: nat, frags: Forest)
    requires Ready(o0, o3, delta) && Mid(o0, o3, o, delta)
    requires Shapes(o0, [], frags) && Uniq(frags) && SameThrough(o3, o, [], frags)
    requires Bounded(b, delta) && Prevent(b, o, frags).Ok? && (frags.NopF? || frags.PropF?)
    ensures Mid(o0, o3, Prevent(b, o, frags).v, delta)
    ensures forall p :: Ph(Prevent(b, o, frags).v, p) == Adopted(b, o, frags, p, Ph(o, p))
    decreases frags, 0
  {
    hide Ready, Mid, PreventFragment, Bounded, Skel, Ph, NodeAt, TargetOf, Taken;
    assert forall m :: KidAt(frags.rest, m) == KidAt(frags, m);
    assert forall p :: Through([], frags, p) == Through([], frags.rest, p);
    PreventHolds(b, o0, o3, o, delta, frags.rest);
  }
}
