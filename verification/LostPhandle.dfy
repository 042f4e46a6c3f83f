/**
 * An overlay that makes libfdt overwrite a phandle of the base: the target of its second fragment is a phandle that its
 * first fragment gives to a base node, so that the conflict pass, which looks in the base as it was, passes it over.
 */
module LostPhandle {
  import opened Bytes
  import opened Tree
  import opened Encoding
  import opened Positions
  import opened Edits
  import opened Merge
  import opened Sem
  import opened Overlay
  import opened Refs
  import opened Conflicts
  import opened Merged
  import opened OverlayProof
  import opened Examples

  const R: Str := [0x72]  // r
  const Q: Str := [0x71]  // q
  const Y: Str := [0x79]  // y
  const TO_ROOT: Str := [0x2f, 0]  // /

  /** / { q { r { phandle = 3 } } } */
  function DeepBase(): Forest {
    SubF(Q, HeldNode(3), Nil)
  }

  /** r { phandle = v } */
  function HeldNode(v: nat): Forest
    requires v < U32
  {
    SubF(R, WithPhandle(v, Nil), Nil)
  }

  /**
   * / { x { target-path = "/"; __overlay__ { q { phandle = v } } } y { target = t; __overlay__ { r { phandle = w } } }
   *     __local_fixups__ { y { target = 0 } } }
   */
  function DeepOverlay(v: nat, t: nat, w: nat): Forest
    requires v < U32 && t < U32 && w < U32
  {
    SubF(X, First(v), SubF(Y, Second(t, w), SubF(LOCAL_FIXUPS, SubF(Y, PropF(TARGET, [0, 0, 0, 0], Nil), Nil), Nil)))
  }

  function First(v: nat): Forest
    requires v < U32
  {
    PropF(TARGET_PATH, TO_ROOT, SubF(OVERLAY, SubF(Q, WithPhandle(v, Nil), Nil), Nil))
  }

  function Second(t: nat, w: nat): Forest
    requires t < U32 && w < U32
  {
    PropF(TARGET, Put32(t), SubF(OVERLAY, HeldNode(w), Nil))
  }

  lemma DeepNamesDiffer()
    ensures Q != R && Q != X && Q != Y && R != X && R != Y && X != Y && Y != LOCAL_FIXUPS && X != LOCAL_FIXUPS
            && OVERLAY != LOCAL_FIXUPS
    ensures X != FIXUPS && Y != FIXUPS && LOCAL_FIXUPS != FIXUPS && X != OVERLAY && Y != OVERLAY && Q != OVERLAY
            && R != OVERLAY
    ensures PHANDLE != LINUX_PHANDLE && TARGET != PHANDLE && TARGET != LINUX_PHANDLE && TARGET_PATH != PHANDLE
            && TARGET_PATH != LINUX_PHANDLE && TARGET_PATH != TARGET
  {
    assert |PHANDLE| == 7 && |LINUX_PHANDLE| == 13 && |TARGET_PATH| == 11 && |TARGET| == 6 && |OVERLAY| == 11
           && |LOCAL_FIXUPS| == 16 && |FIXUPS| == 10;
    assert |X| == 1 && |Y| == 1 && |Q| == 1 && |R| == 1;
  }

  // ----- Base and overlay are as they should be -----

  lemma DeepEntries(v: nat, t: nat, w: nat)
    requires v < U32 && t < U32 && w < U32
    ensures Bindings(DeepBase(), []) == [Binding([Q, R], PHANDLE, Put32(3))]
    ensures Bindings(DeepOverlay(v, t, w), []) ==
            [Binding([X], TARGET_PATH, TO_ROOT), Binding([X, OVERLAY, Q], PHANDLE, Put32(v)),
             Binding([Y], TARGET, Put32(t)), Binding([Y, OVERLAY, R], PHANDLE, Put32(w)),
               Binding([LOCAL_FIXUPS, Y], TARGET, [0, 0, 0, 0])]
  {
    hide Bindings;
    OneEntry(Q, HeldNode(3), [], [Q], [], []);
    HeldEntries(3, [Q], [Q, R]);
    FirstEntries(v);
    SecondEntries(t, w);
    var fx, l := SubF(Y, PropF(TARGET, [0, 0, 0, 0], Nil), Nil),
      SubF(LOCAL_FIXUPS, SubF(Y, PropF(TARGET, [0, 0, 0, 0], Nil), Nil), Nil);
    OneEntry(LOCAL_FIXUPS, fx, [], [LOCAL_FIXUPS], [], []);
    OneEntry(Y, PropF(TARGET, [0, 0, 0, 0], Nil), [LOCAL_FIXUPS], [LOCAL_FIXUPS, Y], [], []);
    OneEntry(Y, Nil, [LOCAL_FIXUPS, Y], [LOCAL_FIXUPS, Y] + [Y], TARGET, [0, 0, 0, 0]);
    SubEntry(X, First(v), SubF(Y, Second(t, w), l), [], [X]);
    SubEntry(Y, Second(t, w), l, [], [Y]);
  }

  lemma HeldEntries(v: nat, at: Path, q: Path)
    requires v < U32 && q == at + [R]
    ensures Bindings(HeldNode(v), at) == [Binding(q, PHANDLE, Put32(v))]
  {
    OneEntry(R, WithPhandle(v, Nil), at, q, [], []);
    OneEntry(R, Nil, q, q + [R], PHANDLE, Put32(v));
  }

  lemma FirstEntries(v: nat)
    requires v < U32
    ensures Bindings(First(v), [X]) == [Binding([X], TARGET_PATH, TO_ROOT), Binding([X, OVERLAY, Q], PHANDLE, Put32(v))]
  {
    hide Bindings;
    var o := SubF(OVERLAY, SubF(Q, WithPhandle(v, Nil), Nil), Nil);
    SubEntry([], Nil, o, [X], [X, []]);
    OneEntry(OVERLAY, SubF(Q, WithPhandle(v, Nil), Nil), [X], [X, OVERLAY], [], []);
    OneEntry(Q, WithPhandle(v, Nil), [X, OVERLAY], [X, OVERLAY, Q], [], []);
    OneEntry(Q, Nil, [X, OVERLAY, Q], [X, OVERLAY, Q] + [Q], PHANDLE, Put32(v));
  }

  lemma SecondEntries(t: nat, w: nat)
    requires t < U32 && w < U32
    ensures Bindings(Second(t, w), [Y]) == [Binding([Y], TARGET, Put32(t)), Binding([Y, OVERLAY, R], PHANDLE, Put32(w))]
  {
    hide Bindings;
    var o := SubF(OVERLAY, HeldNode(w), Nil);
    SubEntry([], Nil, o, [Y], [Y, []]);
    OneEntry(OVERLAY, HeldNode(w), [Y], [Y, OVERLAY], [], []);
    HeldEntries(w, [Y, OVERLAY], [Y, OVERLAY, R]);
  }

  lemma DeepBaseAt(p: Path)
    ensures Ph(DeepBase(), p) == if p == [Q, R] then 3 else 0
  {
    hide ValueAt, NodeAt, DeepBase;
    DeepEntries(0, 0, 0);
    DeepNamesDiffer();
    PutGet32(3);
    DeepBaseHas();
    PhIs(DeepBase(), p);
    assert [] + p == p;
    if ValueAt(DeepBase(), p, PHANDLE).Some? {
      ValueListed(DeepBase(), [], p, PHANDLE);
    }
    if ValueAt(DeepBase(), p, LINUX_PHANDLE).Some? {
      ValueListed(DeepBase(), [], p, LINUX_PHANDLE);
    }
  }

  lemma DeepBaseHas()
    ensures NodeAt(DeepBase(), [Q, R]) == Some(WithPhandle(3, Nil))
            && ValueAt(DeepBase(), [Q, R], PHANDLE) == Some(Put32(3))
    ensures NodeAt(DeepBase(), [Q]) == Some(HeldNode(3))
  {
    Grandchild(DeepBase(), Q, R);
    KidIsNode(DeepBase(), Q);
  }

  lemma DeepBaseSound()
    ensures Uniq(DeepBase()) && PhandlesApart(DeepBase())
  {
    hide Ph;
    forall p
      ensures Ph(DeepBase(), p) == if p == [Q, R] then 3 else 0
    {
      DeepBaseAt(p);
    }
    DeepNamesDiffer();
  }

  lemma DeepOverlayAt(p: Path, x: Str)
    requires ValueAt(DeepOverlay(1, 1, 2), p, x).Some?
    ensures || (p == [X] && x == TARGET_PATH)
            || (p == [X, OVERLAY, Q] && x == PHANDLE && ValueAt(DeepOverlay(1, 1, 2), p, x) == Some(Put32(1)))
            || (p == [Y] && x == TARGET)
            || (p == [Y, OVERLAY, R] && x == PHANDLE && ValueAt(DeepOverlay(1, 1, 2), p, x) == Some(Put32(2)))
            || (p == [LOCAL_FIXUPS, Y] && x == TARGET && ValueAt(DeepOverlay(1, 1, 2), p, x) == Some([0, 0, 0, 0]))
  {
    hide ValueAt, Bindings;
    DeepEntries(1, 1, 2);
    ValueListed(DeepOverlay(1, 1, 2), [], p, x);
    assert [] + p == p;
  }

  lemma DeepPhandles(p: Path, x: Str)
    ensures PhandlesSound(DeepOverlay(1, 1, 2), p, x)
    ensures Ph(DeepOverlay(1, 1, 2), p) != 0 ==>
              (p == [X, OVERLAY, Q] && Ph(DeepOverlay(1, 1, 2), p) == 1)
                || (p == [Y, OVERLAY, R] && Ph(DeepOverlay(1, 1, 2), p) == 2)
  {
    hide ValueAt, NodeAt, DeepOverlay, Ph;
    DeepNamesDiffer();
    PutGet32(1);
    PutGet32(2);
    PhIs(DeepOverlay(1, 1, 2), p);
    if ValueAt(DeepOverlay(1, 1, 2), p, PHANDLE).Some? {
      DeepOverlayAt(p, PHANDLE);
    }
    if ValueAt(DeepOverlay(1, 1, 2), p, LINUX_PHANDLE).Some? {
      DeepOverlayAt(p, LINUX_PHANDLE);
    }
  }

  /** The local fixups, under the names that they have in the overlay. */
  lemma DeepFixupsOf()
    ensures FixupsOf(DeepOverlay(1, 1, 2)) == SubF(Y, PropF(TARGET, [0, 0, 0, 0], Nil), Nil)
    ensures Canon(DeepOverlay(1, 1, 2), FixupsOf(DeepOverlay(1, 1, 2))) == FixupsOf(DeepOverlay(1, 1, 2))
  {
    DeepMeet();
  }

  lemma DeepLists(p: Path, x: Str)
    ensures ListsSound(DeepOverlay(1, 1, 2), p, x)
    ensures x != TARGET ==> Lists(DeepOverlay(1, 1, 2), p, x) == None
  {
    hide ValueAt, NodeAt, DeepOverlay, Bindings;
    DeepNamesDiffer();
    DeepFixupsOf();
    var fx := FixupsOf(DeepOverlay(1, 1, 2));
    var l: Str := [0, 0, 0, 0];
    assert l[4..] == [] && Spread(l);
    OneEntry(Y, PropF(TARGET, l, Nil), [], [Y], [], []);
    OneEntry(Y, Nil, [Y], [Y, Y], TARGET, l);
    if ValueAt(fx, p, x).Some? {
      ValueListed(fx, [], p, x);
      assert [] + p == p && [Y][0] == Y;
    }
  }

  lemma DeepFixups(y: Str)
    ensures FixupSound(DeepOverlay(1, 1, 2), y)
  {
    hide ValueAt, NodeAt, DeepOverlay, Lists;
    DeepNamesDiffer();
    assert [FIXUPS][0] == FIXUPS && [FIXUPS] != [X] && [FIXUPS] != [Y];
    if ValueAt(DeepOverlay(1, 1, 2), [FIXUPS], y).Some? {
      DeepOverlayAt([FIXUPS], y);
    }
  }

  lemma FirstShape()
    ensures Uniq(First(1)) && OwnName(First(1), OVERLAY)
  {
    DeepMeet();
    DeepNamesDiffer();
    hide NodeNameEq;
    assert Uniq(SubF(Q, WithPhandle(1, Nil), Nil));
  }

  lemma SecondShape()
    ensures Uniq(Second(1, 2)) && OwnName(Second(1, 2), OVERLAY)
  {
    DeepMeet();
    DeepNamesDiffer();
    hide NodeNameEq;
    assert Uniq(HeldNode(2));
  }

  lemma FixupsShape()
    ensures var fx := SubF(Y, PropF(TARGET, [0, 0, 0, 0], Nil), Nil); Uniq(fx) && OwnName(fx, OVERLAY)
  {
    DeepMeet();
    hide NodeNameEq;
  }

  lemma DeepShape()
    ensures var o := DeepOverlay(1, 1, 2); Uniq(o) && Specials(o) && Uniq(FixupsOf(o))
  {
    DeepMeet();
    DeepNamesDiffer();
    FirstShape();
    SecondShape();
    FixupsShape();
    hide NodeNameEq, First, Second;
    var o, fx := DeepOverlay(1, 1, 2), SubF(Y, PropF(TARGET, [0, 0, 0, 0], Nil), Nil);
    assert OwnName(o, LOCAL_FIXUPS) && OwnName(o, FIXUPS) && FixupsOf(o) == fx;
    forall f | KidAt(o, f).Some?
      ensures OwnName(KidAt(o, f).value, OVERLAY)
    {
      OneOfThree(X, First(1), Y, Second(1, 2), LOCAL_FIXUPS, fx, f);
    }
  }

  lemma OneOfThree(a: Str, j: Forest, c: Str, k: Forest, d: Str, l: Forest, f: Str)
    requires KidAt(SubF(a, j, SubF(c, k, SubF(d, l, Nil))), f).Some?
    ensures KidAt(SubF(a, j, SubF(c, k, SubF(d, l, Nil))), f).value in {j, k, l}
  {
    assert KidAt(SubF(d, l, Nil), f) == if d == f then Some(l) else None;
    assert KidAt(SubF(c, k, SubF(d, l, Nil)), f) == if c == f then Some(k) else KidAt(SubF(d, l, Nil), f);
  }

  lemma DeepSound()
    ensures Sound(DeepOverlay(1, 1, 2)) && FixupsSound(DeepOverlay(1, 1, 2))
  {
    hide ValueAt, NodeAt, DeepOverlay, Ph, Uniq, ListsSound, PhandlesSound, FixupSound, Specials, FixupsOf, Canon;
    var o := DeepOverlay(1, 1, 2);
    DeepShape();
    DeepFixupsOf();
    forall p, x
      ensures ListsSound(o, p, x) && PhandlesSound(o, p, x)
    {
      DeepLists(p, x);
      DeepPhandles(p, x);
    }
    forall p, q | Ph(o, p) != 0 && Ph(o, p) == Ph(o, q)
      ensures p == q
    {
      DeepPhandles(p, []);
      DeepPhandles(q, []);
    }
    forall y
      ensures FixupSound(o, y)
    {
      DeepFixups(y);
    }
  }

  // ----- What the code does -----

  lemma DeepMax()
    ensures MaxPhandle(DeepBase()) == 3
  {
    PutGet32(3);
    DeepNamesDiffer();
    assert Phandle(WithPhandle(3, Nil)) == 3;
    assert MaxPhandle(HeldNode(3)) == 3;
  }

  lemma PartsShifted()
    ensures Shift(First(1), 3) == Ok(First(4)) && Shift(Second(1, 2), 3) == Ok(Second(1, 5))
  {
    PutGet32(1);
    PutGet32(2);
    DeepNamesDiffer();
    assert Shift(WithPhandle(1, Nil), 3) == Ok(WithPhandle(4, Nil))
           && Shift(WithPhandle(2, Nil), 3) == Ok(WithPhandle(5, Nil));
    hide AddOffset;
    NoOffset();
    assert Shift(SubF(Q, WithPhandle(1, Nil), Nil), 3) == Ok(SubF(Q, WithPhandle(4, Nil), Nil));
    assert Shift(HeldNode(2), 3) == Ok(HeldNode(5));
  }

  lemma NoOffset()
    ensures forall k, x | !HasProp(k, x) :: AddOffset(k, x, 3) == Ok(k)
  {
  }

  lemma DeepShifted()
    ensures Shift(DeepOverlay(1, 1, 2), 3) == Ok(DeepOverlay(4, 1, 5))
  {
    hide AddOffset, First, Second;
    DeepNamesDiffer();
    NoOffset();
    PartsShifted();
    var fx := SubF(Y, PropF(TARGET, [0, 0, 0, 0], Nil), Nil);
    assert Shift(fx, 3) == Ok(fx);
  }

  lemma DeepMeet()
    ensures NodeNameEq(X, X) && NodeNameEq(Y, Y) && NodeNameEq(Q, Q) && NodeNameEq(R, R)
    ensures NodeNameEq(OVERLAY, OVERLAY) && NodeNameEq(LOCAL_FIXUPS, LOCAL_FIXUPS)
    ensures !NodeNameEq(X, LOCAL_FIXUPS) && !NodeNameEq(Y, LOCAL_FIXUPS) && !NodeNameEq(X, FIXUPS)
            && !NodeNameEq(Y, FIXUPS) && !NodeNameEq(LOCAL_FIXUPS, FIXUPS)
    ensures !NodeNameEq(X, Y) && !NodeNameEq(Y, OVERLAY)
  {
    assert |OVERLAY| == 11 && |LOCAL_FIXUPS| == 16 && |FIXUPS| == 10 && |X| == 1 && |Y| == 1;
    assert LOCAL_FIXUPS[2] != FIXUPS[2] && LOCAL_FIXUPS[..10][2] == LOCAL_FIXUPS[2];
    assert X[..1] == X;
  }

  lemma DeepFollowed()
    ensures RewriteLocal(DeepOverlay(4, 1, 5), Adding(3)) == Ok(DeepOverlay(4, 4, 5))
  {
    hide MapCells;
    DeepCell();
    DeepNamesDiffer();
    DeepMeet();
    var l := PropF(TARGET, [0, 0, 0, 0], Nil);
    assert Rewrite(Second(1, 5), l, Adding(3)) == Ok(Second(4, 5));
    assert Rewrite(DeepOverlay(4, 1, 5), SubF(Y, l, Nil), Adding(3)) == Ok(DeepOverlay(4, 4, 5));
  }

  lemma DeepCell()
    ensures MapCells(Put32(1), [0, 0, 0, 0], Adding(3)) == Some(Put32(4))
  {
    var l: Str := [0, 0, 0, 0];
    PutGet32(1);
    assert Get32(l, 0) == 0 && l[4..] == [];
    assert Overwrite(Put32(1), 0, Put32(4)) == Put32(4);
  }

  lemma DeepSettled()
    ensures Resolved(DeepBase(), DeepOverlay(1, 1, 2)) == Ok(DeepOverlay(4, 4, 5))
  {
    hide Shift, RewriteLocal, MaxPhandle;
    DeepMax();
    DeepShifted();
    DeepFollowed();
    DeepMeet();
  }

  /** q with a phandle, and below it r. */
  function Grew(v: nat): Forest
    requires v < U32
  {
    SubF(Q, WithPhandle(4, HeldNode(v)), Nil)
  }

  lemma DeepTargets()
    ensures Target(DeepBase(), First(4)) == Ok([]) && Target(DeepBase(), Second(4, 5)) == Err(-NOTFOUND)
    ensures Target(Grew(3), Second(4, 5)) == Ok([Q])
  {
    DeepNamesDiffer();
    PutGet32(4);
    PutGet32(3);
    assert CStr(TO_ROOT) == [SLASH] by { assert TO_ROOT[1..] == [0]; }
    assert Comps([SLASH]) == [] by { assert Comps([SLASH][1..]) == []; }
    assert Phandle(WithPhandle(3, Nil)) == 3 && Phandle(WithPhandle(4, HeldNode(3))) == 4;
    assert PhandlePath(WithPhandle(3, Nil), 4) == None;
    assert PhandlePath(HeldNode(3), 4) == None;
    assert PhandlePath(DeepBase(), 4) == None;
    assert PhandlePath(WithPhandle(4, HeldNode(3)), 4) == Some([]) && [Q] + [] == [Q];
    assert PhandlePath(Grew(3), 4) == Some([Q]);
  }

  /** The first fragment meets the base's q, which has no phandle. */
  lemma FirstPrevented()
    ensures PreventFragment(DeepBase(), DeepOverlay(4, 4, 5), X, First(4)) == Ok(DeepOverlay(4, 4, 5))
  {
    hide Target, NodeAt;
    DeepTargets();
    DeepMeet();
    DeepNamesDiffer();
    var b, o := DeepBase(), DeepOverlay(4, 4, 5);
    var q := SubF(Q, WithPhandle(4, Nil), Nil);
    DeepNodes();
    assert [X, OVERLAY] + [Q] == [X, OVERLAY, Q];
    assert Phandle(b) == 0 && Phandle(HeldNode(3)) == 0;
    assert PreventNode(o, [X, OVERLAY, Q], HeldNode(3), WithPhandle(4, Nil)) == Ok(o);
    assert PreventNode(o, [X, OVERLAY], b, q) == Ok(o);
    assert SubName(First(4), OVERLAY) == OVERLAY && SubBody(First(4), OVERLAY) == q;
  }

  /** The second has no target in the base. */
  lemma SecondPrevented()
    ensures PreventFragment(DeepBase(), DeepOverlay(4, 4, 5), Y, Second(4, 5)) == Ok(DeepOverlay(4, 4, 5))
  {
    hide Target, NodeAt, DeepBase, PreventNode;
    DeepTargets();
    DeepNamesDiffer();
    assert KidAt(DeepOverlay(4, 4, 5), Y) == Some(Second(4, 5));
  }

  lemma DeepPrevented()
    ensures Prevent(DeepBase(), DeepOverlay(4, 4, 5), DeepOverlay(4, 4, 5)) == Ok(DeepOverlay(4, 4, 5))
  {
    hide Target, NodeAt, DeepBase, PreventNode, First, Second;
    FirstPrevented();
    SecondPrevented();
    DeepMeet();
    var b, o := DeepBase(), DeepOverlay(4, 4, 5);
    var fx := SubF(Y, PropF(TARGET, [0, 0, 0, 0], Nil), Nil);
    assert !HasSub(fx, OVERLAY) && PreventFragment(b, o, LOCAL_FIXUPS, fx) == Ok(o);
    hide PreventFragment;
    assert Prevent(b, o, SubF(LOCAL_FIXUPS, fx, Nil)) == Ok(o);
    assert Prevent(b, o, SubF(Y, Second(4, 5), SubF(LOCAL_FIXUPS, fx, Nil))) == Ok(o);
  }

  lemma DeepNodes()
    ensures NodeAt(DeepOverlay(4, 4, 5), [X, OVERLAY]) == Some(SubF(Q, WithPhandle(4, Nil), Nil))
    ensures NodeAt(DeepOverlay(4, 4, 5), [X, OVERLAY, Q]) == Some(WithPhandle(4, Nil))
    ensures NodeAt(DeepBase(), []) == Some(DeepBase())
  {
    DeepNamesDiffer();
    Grandchild(DeepOverlay(4, 4, 5), X, OVERLAY);
    NodeExtend(DeepOverlay(4, 4, 5), [X, OVERLAY], Q);
    assert [X, OVERLAY] + [Q] == [X, OVERLAY, Q];
  }

  lemma DeepApplied()
    ensures Apply(DeepBase(), SubF(Q, WithPhandle(4, Nil), Nil)) == Grew(3)
    ensures Apply(WithPhandle(4, HeldNode(3)), HeldNode(5)) == WithPhandle(4, HeldNode(5))
    ensures NodeAt(Grew(3), [Q]) == Some(WithPhandle(4, HeldNode(3)))
            && PutAt(Grew(3), [Q], WithPhandle(4, HeldNode(5))) == Grew(5)
  {
    DeepNamesDiffer();
    DeepMeet();
    assert Apply(HeldNode(3), WithPhandle(4, Nil)) == WithPhandle(4, HeldNode(3));
    assert Apply(WithPhandle(3, Nil), WithPhandle(5, Nil)) == WithPhandle(5, Nil);
    KidIsNode(Grew(3), Q);
    assert [Q][1..] == [];
  }

  lemma DeepMerged()
    ensures MergeAll(DeepBase(), DeepOverlay(4, 4, 5)) == Ok(Grew(5))
  {
    hide Target, NodeAt, Apply, PutAt, DeepBase, Grew;
    DeepTargets();
    DeepMeet();
    DeepApplied();
    WholeTree();
    var fx := SubF(Y, PropF(TARGET, [0, 0, 0, 0], Nil), Nil);
    assert !HasSub(fx, OVERLAY);
    assert HasSub(First(4), OVERLAY) && SubBody(First(4), OVERLAY) == SubF(Q, WithPhandle(4, Nil), Nil);
    assert HasSub(Second(4, 5), OVERLAY) && SubBody(Second(4, 5), OVERLAY) == HeldNode(5);
    assert MergeAll(Grew(5), SubF(LOCAL_FIXUPS, fx, Nil)) == Ok(Grew(5));
    assert MergeAll(Grew(3), SubF(Y, Second(4, 5), SubF(LOCAL_FIXUPS, fx, Nil))) == Ok(Grew(5));
  }

  lemma WholeTree()
    ensures NodeAt(DeepBase(), []) == Some(DeepBase()) && PutAt(DeepBase(), [], Grew(3)) == Grew(3)
  {
  }

  /**
   * The phandle of the base's r, by which other nodes may refer to it, is overwritten: the overlay node that gives it
   * one has been matched with no base node.
   */
  lemma PhandleOverwritten()
    ensures var b, o := DeepBase(), DeepOverlay(1, 1, 2);
            && Applies(b, o) && !SafeAt(b, o, [Q, R])
            && Ph(b, [Q, R]) == 3 && Ph(OverlayApply(b, o).v, [Q, R]) == 5
  {
    hide Uniq, PhandlesApart, Sound, FixupsSound, DeepBase, DeepOverlay, Grew, Resolved, Prevent, MergeAll, Ph, SafeAt;
    DeepBaseSound();
    DeepSound();
    DeepSettled();
    DeepPrevented();
    DeepMerged();
    DeepBaseAt([Q, R]);
    GrewPh();
    KeptAt(DeepBase(), DeepOverlay(1, 1, 2), [Q, R]);
  }

  lemma GrewPh()
    ensures Ph(Grew(5), [Q, R]) == 5
  {
    DeepNamesDiffer();
    PutGet32(5);
    Grandchild(Grew(5), Q, R);
    assert Phandle(WithPhandle(5, Nil)) == 5;
  }
}
