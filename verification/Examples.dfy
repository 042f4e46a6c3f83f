/** Overlays, worked out, that the hypotheses of the theorems admit, and overlays that show why they are there. */
module Examples {
  import opened Bytes
  import opened Tree
  import opened Positions
  import opened Merge
  import opened Sem
  import opened Overlay
  import opened Refs
  import opened Conflicts
  import opened Merged
  import opened OverlayProof

  const P: Str := [0x70]  // p
  const X: Str := [0x78]  // x
  const F: Str := [0x66]  // f
  const F1: Str := [0x66, 0x40, 0x31]  // f@1
  const F2: Str := [0x66, 0x40, 0x32]  // f@2
  const TO_P: Str := [0x2f, 0x70, 0]  // /p

  function WithPhandle(v: nat, f: Forest): Forest
    requires v < U32
  {
    PropF(PHANDLE, Put32(v), f)
  }

  // ----- All values of a tree -----

  datatype Binding = Binding(path: Path, name: Str, value: Str)

  function Bindings(o: Forest, at: Path): seq<Binding> {
    match o
    case Nil => []
    case NopF(r) => Bindings(r, at)
    case PropF(n, d, r) => [Binding(at, n, d)] + Bindings(r, at)
    case SubF(n, k, r) => Bindings(k, at + [n]) + Bindings(r, at)
  }

  lemma {:induction false} DataListed(o: Forest, at: Path, x: Str)
    requires Data(o, x).Some?
    ensures Binding(at, x, Data(o, x).value) in Bindings(o, at)
  {
    match o
    case PropF(n, _, r) => if n != x { DataListed(r, at, x); }
    case NopF(r) => DataListed(r, at, x);
  }

  /** Every value of the tree is in the list. */
  lemma {:induction false} ValueListed(o: Forest, at: Path, p: Path, x: Str)
    requires ValueAt(o, p, x).Some?
    ensures Binding(at + p, x, ValueAt(o, p, x).value) in Bindings(o, at)
    decreases o
  {
    if p == [] {
      assert at + p == at;
      DataListed(o, at, x);
    } else {
      match o
      case NopF(r) => ValueListed(r, at, p, x);
      case PropF(_, _, r) => ValueListed(r, at, p, x);
      case SubF(n, k, r) =>
        if n == p[0] {
          assert at + [n] + p[1..] == at + p;
          ValueListed(k, at + [n], p[1..], x);
        } else {
          ValueListed(r, at, p, x);
        }
    }
  }

  lemma OneEntry(n: Str, k: Forest, at: Path, q: Path, x: Str, d: Str)
    requires q == at + [n]
    ensures Bindings(SubF(n, k, Nil), at) == Bindings(k, q)
    ensures Bindings(PropF(x, d, Nil), at) == [Binding(at, x, d)]
  {
    assert Bindings(Nil, at) == [];
  }

  lemma SubEntry(n: Str, k: Forest, r: Forest, at: Path, q: Path)
    requires q == at + [n]
    ensures Bindings(SubF(n, k, r), at) == Bindings(k, q) + Bindings(r, at)
    ensures forall x, d :: Bindings(PropF(x, d, r), at) == [Binding(at, x, d)] + Bindings(r, at)
  {
  }

  // ----- A name without a unit address -----

  /** / { p { f@1 { phandle = 5 } } } */
  function AddressBase(): Forest {
    SubF(P, SubF(F1, WithPhandle(5, Nil), Nil), Nil)
  }

  /** A fragment on /p with f@2 {} and f { phandle = v }. */
  function AddressOverlay(v: nat): Forest
    requires v < U32
  {
    SubF(X, Fragment(v), Nil)
  }

  function Fragment(v: nat): Forest
    requires v < U32
  {
    PropF(TARGET_PATH, TO_P, SubF(OVERLAY, Content(v), Nil))
  }

  function Content(v: nat): Forest
    requires v < U32
  {
    SubF(F2, Nil, SubF(F, WithPhandle(v, Nil), Nil))
  }

  lemma NamesDiffer()
    ensures NodeNameEq(F1, F) && NodeNameEq(F2, F) && !NodeNameEq(F1, F2) && !NodeNameEq(F2, F1) && F1 != F && F2 != F
            && F1 != F2
    ensures !NodeNameEq(X, LOCAL_FIXUPS) && !NodeNameEq(X, FIXUPS) && NodeNameEq(OVERLAY, OVERLAY)
    ensures PHANDLE != LINUX_PHANDLE && TARGET_PATH != PHANDLE && TARGET_PATH != LINUX_PHANDLE && TARGET_PATH != TARGET
  {
    assert |PHANDLE| == 7 && |LINUX_PHANDLE| == 13 && |TARGET_PATH| == 11 && |TARGET| == 6 && |X| == 1;
    assert F1[..3] == F1 && F2[..3] == F2 && F1[2] != F2[2];
    assert F1[..1] == F && F2[..1] == F && F1[1] == 0x40;
  }

  lemma AddressMax()
    ensures MaxPhandle(AddressBase()) == 5
  {
    PutGet32(5);
    NamesDiffer();
    assert Phandle(WithPhandle(5, Nil)) == 5;
  }

  lemma AddressShifted()
    ensures Shift(AddressOverlay(1), 5) == Ok(AddressOverlay(6))
  {
    PutGet32(1);
    NamesDiffer();
  }

  lemma AddressSettled()
    ensures Resolved(AddressBase(), AddressOverlay(1)) == Ok(AddressOverlay(6))
  {
    AddressMax();
    AddressShifted();
    NamesDiffer();
    hide Shift, MaxPhandle;
  }

  lemma AddressTarget()
    ensures Target(AddressBase(), Fragment(6)) == Ok([P])
    ensures Target(AddressBase(), Fragment(5)) == Ok([P])
  {
    NamesDiffer();
    LeadsToP();
    assert P[..1] == P;
    assert Resolve(AddressBase(), [P]) == Some([P]);
  }

  lemma LeadsToP()
    ensures CStr(TO_P) == [SLASH] + P && Comps([SLASH] + P) == [P]
  {
    assert CStr(TO_P[2..]) == [];
    assert TO_P[1..][1..] == TO_P[2..] && CStr(TO_P[1..]) == P;
    assert ([SLASH] + P)[1..] == P && Word(P) == 1 && P[..1] == P && P[1..] == [];
  }

  lemma AddressKids(v: nat, w: nat)
    requires v < U32 && w < U32
    ensures var o := AddressOverlay(v);
            && KidAt(o, X) == Some(Fragment(v)) && KidAt(Fragment(v), OVERLAY) == Some(Content(v))
            && KidAt(Content(v), F) == Some(WithPhandle(v, Nil)) && KidAt(Content(v), F2) == Some(Nil)
            && PutKid(Content(v), F, WithPhandle(w, Nil)) == Content(w)
            && PutKid(Fragment(v), OVERLAY, Content(w)) == Fragment(w)
            && PutKid(o, X, Fragment(w)) == AddressOverlay(w)
  {
    NamesDiffer();
  }

  lemma AddressNode(v: nat, w: nat)
    requires v < U32 && w < U32
    ensures NodeAt(AddressOverlay(v), [X, OVERLAY]) == Some(Content(v))
    ensures NodeAt(AddressOverlay(v), [X, OVERLAY, F]) == Some(WithPhandle(v, Nil))
    ensures NodeAt(AddressOverlay(v), [X, OVERLAY, F2]) == Some(Nil)
    ensures PutAt(AddressOverlay(v), [X, OVERLAY, F], WithPhandle(w, Nil)) == AddressOverlay(w)
  {
    hide KidAt, PutKid, NodeAt, PutAt, AddressOverlay, Fragment, Content, WithPhandle;
    var o, e := AddressOverlay(v), WithPhandle(w, Nil);
    AddressKids(v, w);
    Grandchild(o, X, OVERLAY);
    NodeExtend(o, [X, OVERLAY], F);
    NodeExtend(o, [X, OVERLAY], F2);
    assert [X, OVERLAY] + [F] == [X, OVERLAY, F] && [X, OVERLAY] + [F2] == [X, OVERLAY, F2];
    PutGrandchild(Fragment(v), OVERLAY, F, e);
    PutDown(o, X, [OVERLAY, F], e);
    assert [X] + [OVERLAY, F] == [X, OVERLAY, F];
  }

  lemma PutDown(b: Forest, n: Str, p: Path, e: Forest)
    requires KidAt(b, n).Some? && NodeAt(KidAt(b, n).value, p).Some?
    ensures NodeAt(b, [n] + p).Some? && PutAt(b, [n] + p, e) == PutKid(b, n, PutAt(KidAt(b, n).value, p, e))
  {
    assert ([n] + p)[1..] == p;
  }

  lemma PutGrandchild(b: Forest, n: Str, m: Str, e: Forest)
    requires KidAt(b, n).Some? && KidAt(KidAt(b, n).value, m).Some?
    ensures NodeAt(b, [n, m]).Some? && PutAt(b, [n, m], e) == PutKid(b, n, PutKid(KidAt(b, n).value, m, e))
  {
    var k := KidAt(b, n).value;
    KidIsNode(k, m);
    PutOneDown(k, m, e);
    PutDown(b, n, [m], e);
    assert [n] + [m] == [n, m];
  }

  lemma PutOneDown(k: Forest, m: Str, e: Forest)
    requires KidAt(k, m).Some?
    ensures NodeAt(k, [m]).Some? && PutAt(k, [m], e) == PutKid(k, m, e)
  {
    KidIsNode(k, m);
    assert [m][1..] == [];
  }

  lemma AddressRenamed()
    ensures NodeAt(AddressOverlay(6), [X, OVERLAY, F]).Some?
    ensures Rename(AddressOverlay(6), [X, OVERLAY, F], 5) == Ok(AddressOverlay(5))
  {
    hide NodeAt, PutAt;
    NamesDiffer();
    PutGet32(6);
    AddressNode(6, 5);
    AddressNode(5, 5);
    assert SetPhandle(WithPhandle(6, Nil), 5) == WithPhandle(5, Nil);
  }

  /** The overlay's f is matched with f@1 and takes its phandle. */
  lemma AddressMatched()
    ensures PreventNode(AddressOverlay(6), [X, OVERLAY], SubF(F1, WithPhandle(5, Nil), Nil), Content(6)) ==
            Ok(AddressOverlay(5))
  {
    hide NodeAt, PutAt, Rename, AddressOverlay;
    NamesDiffer();
    AddressNode(6, 5);
    AddressNode(5, 5);
    AddressRenamed();
    AddressTops();
    var bb := SubF(F1, WithPhandle(5, Nil), Nil);
    assert [X, OVERLAY] + [F] == [X, OVERLAY, F];
    assert PreventNode(AddressOverlay(6), [X, OVERLAY, F], WithPhandle(5, Nil), WithPhandle(6, Nil)) ==
           Ok(AddressOverlay(5));
    assert PreventSubs(AddressOverlay(6), [X, OVERLAY], bb, Content(6)) == Ok(AddressOverlay(5));
  }

  lemma AddressPrevented()
    ensures Prepare(AddressBase(), AddressOverlay(1)) == Ok(AddressOverlay(5))
  {
    hide NodeAt, PreventNode, Target, Resolved, AddressBase, Content;
    AddressSettled();
    AddressTarget();
    AddressMatched();
    NamesDiffer();
    AddressTops();
    assert KidAt(AddressOverlay(6), X) == Some(Fragment(6));
    assert HasSub(Fragment(6), OVERLAY) && SubName(Fragment(6), OVERLAY) == OVERLAY
           && SubBody(Fragment(6), OVERLAY) == Content(6);
    assert PreventFragment(AddressBase(), AddressOverlay(6), X, Fragment(6)) == Ok(AddressOverlay(5));
  }

  lemma AddressTops()
    ensures NodeAt(AddressBase(), [P]) == Some(SubF(F1, WithPhandle(5, Nil), Nil))
    ensures Phandle(WithPhandle(5, Nil)) == 5 && Phandle(WithPhandle(6, Nil)) == 6
  {
    NamesDiffer();
    PutGet32(5);
    PutGet32(6);
    assert [P][1..] == [];
  }

  /** / { p { f@2 { phandle = 5 } f@1 { phandle = 5 } } } */
  function AddressResult(): Forest {
    SubF(P, SubF(F2, WithPhandle(5, Nil), SubF(F1, WithPhandle(5, Nil), Nil)), Nil)
  }

  lemma AddressMerged()
    ensures OverlayApply(AddressBase(), AddressOverlay(1)) == Ok(AddressResult())
  {
    hide NodeAt, Target, Prepare, AddressBase, Content;
    AddressPrevented();
    AddressTarget();
    AddressTops();
    NamesDiffer();
    var bb := SubF(F1, WithPhandle(5, Nil), Nil);
    assert HasSub(Fragment(5), OVERLAY) && SubBody(Fragment(5), OVERLAY) == Content(5);
    AddressApplied();
    AddressPut();
  }

  /** The merge puts f@2 in front, so that f now stands for it. */
  lemma AddressApplied()
    ensures Apply(SubF(F1, WithPhandle(5, Nil), Nil), Content(5)) ==
            SubF(F2, WithPhandle(5, Nil), SubF(F1, WithPhandle(5, Nil), Nil))
  {
    NamesDiffer();
    var bb := SubF(F1, WithPhandle(5, Nil), Nil);
    assert ApplyProps(bb, Content(5)) == bb;
    var w := WithSub(bb, F2);
    assert w == SubF(F2, Nil, bb) && SubBody(w, F2) == Nil && Apply(Nil, Nil) == Nil && PutSub(w, F2, Nil) == w;
    assert WithSub(w, F) == w && SubBody(w, F) == Nil && Apply(Nil, WithPhandle(5, Nil)) == WithPhandle(5, Nil);
  }

  lemma AddressPut()
    ensures NodeAt(AddressBase(), [P]).Some?
    ensures PutAt(AddressBase(), [P], SubF(F2, WithPhandle(5, Nil), SubF(F1, WithPhandle(5, Nil), Nil))) ==
            AddressResult()
  {
    assert [P][1..] == [];
  }

  lemma AddressBaseAt(p: Path)
    ensures Ph(AddressBase(), p) == if p == [P, F1] then 5 else 0
  {
    PutGet32(5);
    NamesDiffer();
    if p != [] && p[0] == P {
      assert NodeAt(AddressBase(), p) == NodeAt(SubF(F1, WithPhandle(5, Nil), Nil), p[1..]);
      if p[1..] != [] && p[1] == F1 {
        assert NodeAt(AddressBase(), p) == NodeAt(WithPhandle(5, Nil), p[2..]) by { assert p[1..][1..] == p[2..]; }
        assert p == [P, F1] + p[2..];
      }
    }
  }

  lemma AddressEntries()
    ensures Bindings(AddressOverlay(1), []) ==
            [Binding([X], TARGET_PATH, TO_P), Binding([X, OVERLAY, F], PHANDLE, Put32(1))]
  {
    hide Bindings;
    OneEntry(X, Fragment(1), [], [X], [], []);
    SubEntry([], Nil, SubF(OVERLAY, Content(1), Nil), [X], [X, []]);
    OneEntry(OVERLAY, Content(1), [X], [X, OVERLAY], [], []);
    SubEntry(F2, Nil, SubF(F, WithPhandle(1, Nil), Nil), [X, OVERLAY], [X, OVERLAY, F2]);
    OneEntry(F, WithPhandle(1, Nil), [X, OVERLAY], [X, OVERLAY, F], [], []);
    OneEntry(F, Nil, [X, OVERLAY, F], [X, OVERLAY, F] + [F], PHANDLE, Put32(1));
    NoEntries([X, OVERLAY, F2]);
  }

  lemma NoEntries(at: Path)
    ensures Bindings(Nil, at) == []
  {
  }

  lemma AddressOverlayAt(p: Path, x: Str)
    requires ValueAt(AddressOverlay(1), p, x).Some?
    ensures (p == [X] && x == TARGET_PATH)
            || (p == [X, OVERLAY, F] && x == PHANDLE && ValueAt(AddressOverlay(1), p, x) == Some(Put32(1)))
  {
    hide ValueAt, Bindings;
    AddressEntries();
    ValueListed(AddressOverlay(1), [], p, x);
    assert [] + p == p;
  }

  lemma AddressPhandles(p: Path, x: Str)
    ensures PhandlesSound(AddressOverlay(1), p, x)
    ensures Ph(AddressOverlay(1), p) != 0 ==> p == [X, OVERLAY, F]
  {
    hide ValueAt, NodeAt, AddressOverlay, Ph;
    NamesDiffer();
    PutGet32(1);
    PhIs(AddressOverlay(1), p);
    if ValueAt(AddressOverlay(1), p, PHANDLE).Some? {
      AddressOverlayAt(p, PHANDLE);
    }
    if ValueAt(AddressOverlay(1), p, LINUX_PHANDLE).Some? {
      AddressOverlayAt(p, LINUX_PHANDLE);
    }
  }

  lemma AddressShape()
    ensures var o := AddressOverlay(1); Uniq(o) && Specials(o) && FixupsOf(o) == Nil
  {
    NamesDiffer();
    hide NodeNameEq;
    assert forall f | KidAt(AddressOverlay(1), f).Some? :: KidAt(AddressOverlay(1), f).value == Fragment(1);
  }

  /** The overlay has no fixups of either kind. */
  lemma AddressFree(p: Path, x: Str)
    ensures Lists(AddressOverlay(1), p, x) == None && ValueAt(AddressOverlay(1), [FIXUPS], x) == None
  {
    hide ValueAt, AddressOverlay, Uniq, Specials;
    AddressShape();
    NilAt(p, x);
    assert Canon(AddressOverlay(1), Nil) == Nil;
    assert [FIXUPS] != [X] && [FIXUPS][0] == FIXUPS by { assert |FIXUPS| == 10 && |X| == 1; }
    if ValueAt(AddressOverlay(1), [FIXUPS], x).Some? {
      AddressOverlayAt([FIXUPS], x);
    }
  }

  lemma AddressSound()
    ensures Sound(AddressOverlay(1)) && FixupsSound(AddressOverlay(1))
  {
    hide ValueAt, AddressOverlay, Specials, PhandlesSound, Ph, Lists;
    var o := AddressOverlay(1);
    AddressShape();
    assert Uniq(Canon(o, Nil)) by { assert Canon(o, Nil) == Nil; }
    forall p, x
      ensures ListsSound(o, p, x) && PhandlesSound(o, p, x)
    {
      AddressFree(p, x);
      AddressPhandles(p, x);
    }
    forall y
      ensures FixupSound(o, y)
    {
      AddressFree([], y);
    }
    forall p, q | Ph(o, p) != 0 && Ph(o, p) == Ph(o, q)
      ensures p == q
    {
      AddressPhandles(p, []);
      AddressPhandles(q, []);
    }
  }

  lemma AddressBaseSound()
    ensures Uniq(AddressBase()) && PhandlesApart(AddressBase())
  {
    hide Ph;
    forall p
      ensures Ph(AddressBase(), p) == if p == [P, F1] then 5 else 0
    {
      AddressBaseAt(p);
    }
    NamesDiffer();
  }

  /**
   * An overlay name without its unit address that stands for two nodes: libfdt gives the overlay's f the phandle of
   * f@1, adds f@2 in front, and then merges f, with that phandle, into f@2.
   */
  lemma AddressClash()
    ensures Applies(AddressBase(), AddressOverlay(1)) && !Safe(AddressBase(), AddressOverlay(1))
    ensures var m := OverlayApply(AddressBase(), AddressOverlay(1)).v;
            Ph(m, [P, F2]) == Ph(m, [P, F1]) == 5 && !PhandlesApart(m)
  {
    hide OverlayApply, Ph, NodeAt, Uniq, PhandlesApart, Sound, FixupsSound, Safe, BaseKept;
    AddressBaseSound();
    AddressSound();
    AddressMerged();
    AddressResultPh();
    AddressApartNot();
    PhandlesSafe(AddressBase(), AddressOverlay(1));
  }

  lemma AddressApartNot()
    ensures Ph(AddressResult(), [P, F2]) == Ph(AddressResult(), [P, F1]) == 5 ==> !PhandlesApart(AddressResult())
  {
    hide Ph;
    NamesDiffer();
    assert [P, F2][1] != [P, F1][1];
  }

  lemma Grandchild(b: Forest, n: Str, m: Str)
    ensures NodeAt(b, [n, m]) == match KidAt(b, n) case None => None case Some(k) => KidAt(k, m)
  {
    KidIsNode(b, n);
    NodeExtend(b, [n], m);
    assert [n] + [m] == [n, m];
  }

  lemma AddressResultPh()
    ensures Ph(AddressResult(), [P, F2]) == 5 && Ph(AddressResult(), [P, F1]) == 5
  {
    hide Phandle, NodeAt;
    AddressTops();
    NamesDiffer();
    Grandchild(AddressResult(), P, F2);
    Grandchild(AddressResult(), P, F1);
  }
}
