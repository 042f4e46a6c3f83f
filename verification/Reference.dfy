/**
 * A base and an overlay with a reference into the base, below a fragment, that meet the hypotheses about such
 * references, and those of the exact conditions for an overlay to be applied.
 */
module Reference {
  import opened Bytes
  import opened Tree
  import opened Positions
  import opened Edits
  import opened Merge
  import opened Sem
  import opened FixupText
  import opened FixupForm
  import opened Overlay
  import opened OverlaySteps
  import opened Refs
  import opened Conflicts
  import opened Lookups
  import opened Merged
  import opened OverlayProof
  import opened Targets
  import opened BaseRefs
  import opened Ufdt
  import opened UfdtAccept
  import opened OverlayAccept
  import opened ApplyAccept
  import opened Paths
  import opened UfdtAgree
  import opened Examples
  import opened Witness

  /** /x/__overlay__:r:0 */
  const E: Fixup := Fixup([SLASH] + (X + IN_FRAGMENT), R, 0)
  const IN_FRAGMENT: Str := [SLASH] + (OVERLAY + [])

  /** / { p { phandle = 5 } __symbols__ { l = "/p" } } */
  function RefBase(): Forest {
    SubF(P, WithPhandle(5, Nil), SubF(SYMBOLS, RefSymbols(), Nil))
  }

  function RefSymbols(): Forest {
    PropF(L, TO_P, Nil)
  }

  /** / { x { target-path = "/p"; __overlay__ { r = u } } __fixups__ { l = "/x/__overlay__:r:0" } } */
  function RefOverlay(u: nat): Forest
    requires u < U32
  {
    SubF(X, RefFragment(u), SubF(FIXUPS, RefFixups(), Nil))
  }

  function RefFragment(u: nat): Forest
    requires u < U32
  {
    PropF(TARGET_PATH, TO_P, SubF(OVERLAY, RefContent(u), Nil))
  }

  function RefContent(u: nat): Forest
    requires u < U32
  {
    PropF(R, Put32(u), Nil)
  }

  function RefFixups(): Forest {
    PropF(L, Written([E]), Nil)
  }

  // ----- The text -----

  lemma EntryRead()
    ensures Writable(E) && FdtEntries(Written([E])) == Some([E])
    ensures Comps(E.path) == [X, OVERLAY] && E.path != [] && E.path[0] == SLASH
  {
    hide Written, FdtEntries, Comps;
    WrittenRead([E]);
    NoComps();
    OneComp(OVERLAY, []);
    OneComp(X, IN_FRAGMENT);
    assert [X] + ([OVERLAY] + []) == [X, OVERLAY];
  }

  // ----- The trees are as they should be -----

  lemma RefShaped(u: nat)
    requires u < U32
    ensures Shaped(RefOverlay(u), SmallNames()) && Shaped(RefFragment(u), SmallNames())
            && Shaped(RefBase(), SmallNames())
  {
    hide Shaped, SmallNames, Written;
    SmallNamesDiffer();
    var s := SmallNames();
    NamesThere();
    EmptyShaped(s);
    PropShaped(PHANDLE, Put32(5), Nil, s);
    PropShaped(L, TO_P, Nil, s);
    NodeShaped(SYMBOLS, RefSymbols(), s);
    MoreShaped(P, WithPhandle(5, Nil), SubF(SYMBOLS, RefSymbols(), Nil), s);
    PropShaped(R, Put32(u), Nil, s);
    NodeShaped(OVERLAY, RefContent(u), s);
    PropShaped(TARGET_PATH, TO_P, SubF(OVERLAY, RefContent(u), Nil), s);
    PropShaped(L, Written([E]), Nil, s);
    NodeShaped(FIXUPS, RefFixups(), s);
    MoreShaped(X, RefFragment(u), SubF(FIXUPS, RefFixups(), Nil), s);
  }

  lemma RefKids(u: nat)
    requires u < U32
    ensures var o := RefOverlay(u);
            && KidAt(o, X) == Some(RefFragment(u)) && KidAt(o, FIXUPS) == Some(RefFixups())
            && KidAt(o, LOCAL_FIXUPS) == None && KidAt(RefFragment(u), OVERLAY) == Some(RefContent(u))
            && KidAt(RefFixups(), OVERLAY) == None
            && KidAt(RefBase(), P) == Some(WithPhandle(5, Nil)) && KidAt(RefBase(), SYMBOLS) == Some(RefSymbols())
  {
    hide Written;
    SmallNamesDiffer();
  }

  lemma RefTops(u: nat)
    requires u < U32
    ensures var o, k := RefOverlay(u), RefFragment(u);
            && OwnName(o, X) && OwnName(o, FIXUPS) && OwnName(o, LOCAL_FIXUPS) && OwnName(k, OVERLAY)
            && OwnName(RefBase(), P) && OwnName(RefBase(), SYMBOLS)
            && HasSub(o, X) && SubBody(o, X) == k && SubName(o, X) == X
            && HasSub(o, FIXUPS) && SubBody(o, FIXUPS) == RefFixups() && !HasSub(o, LOCAL_FIXUPS)
            && HasSub(k, OVERLAY) && SubBody(k, OVERLAY) == RefContent(u) && SubName(k, OVERLAY) == OVERLAY
            && !HasSub(RefFixups(), OVERLAY)
            && HasSub(RefBase(), P) && SubBody(RefBase(), P) == WithPhandle(5, Nil) && SubName(RefBase(), P) == P
            && HasSub(RefBase(), SYMBOLS) && SubBody(RefBase(), SYMBOLS) == RefSymbols()
  {
    hide Shaped, SmallNames, Exact, OwnName, HasSub, SubBody, SubName, RefOverlay, RefFragment, RefBase, RefFixups;
    var o, k, s := RefOverlay(u), RefFragment(u), SmallNames();
    RefShaped(u);
    RefKids(u);
    SmallNamesPlain();
    NamesThere();
    Witness.Found(o, X, s);
    Witness.Found(o, FIXUPS, s);
    Witness.Found(o, LOCAL_FIXUPS, s);
    Witness.Found(k, OVERLAY, s);
    Witness.Found(RefBase(), P, s);
    Witness.Found(RefBase(), SYMBOLS, s);
    FixupsPlainNode();
  }

  lemma FixupsPlainNode()
    ensures !HasSub(RefFixups(), OVERLAY)
  {
    hide Written;
  }

  lemma RefEntries(u: nat)
    requires u < U32
    ensures Bindings(RefOverlay(u), []) ==
            [Binding([X], TARGET_PATH, TO_P), Binding([X, OVERLAY], R, Put32(u)),
              Binding([FIXUPS], L, Written([E]))]
    ensures Bindings(RefBase(), []) == [Binding([P], PHANDLE, Put32(5)), Binding([SYMBOLS], L, TO_P)]
  {
    hide Bindings, Written;
    var fs := SubF(FIXUPS, RefFixups(), Nil);
    OneEntry(FIXUPS, RefFixups(), [], [FIXUPS], [], []);
    OneEntry([], Nil, [FIXUPS], [FIXUPS] + [[]], L, Written([E]));
    SubEntry(X, RefFragment(u), fs, [], [X]);
    OneEntry(OVERLAY, RefContent(u), [X], [X, OVERLAY], [], []);
    OneEntry([], Nil, [X, OVERLAY], [X, OVERLAY] + [[]], R, Put32(u));
    SubEntry([], Nil, SubF(OVERLAY, RefContent(u), Nil), [X], [X] + [[]]);
    var sy := SubF(SYMBOLS, RefSymbols(), Nil);
    OneEntry(SYMBOLS, RefSymbols(), [], [SYMBOLS], [], []);
    OneEntry([], Nil, [SYMBOLS], [SYMBOLS] + [[]], L, TO_P);
    SubEntry(P, WithPhandle(5, Nil), sy, [], [P]);
    OneEntry([], Nil, [P], [P] + [[]], PHANDLE, Put32(5));
  }

  /** The overlay has no other values. */
  lemma RefOverlayAt(u: nat, p: Path, x: Str)
    requires u < U32 && ValueAt(RefOverlay(u), p, x).Some?
    ensures || (p == [X] && x == TARGET_PATH) || (p == [X, OVERLAY] && x == R)
            || (p == [FIXUPS] && x == L && ValueAt(RefOverlay(u), p, x) == Some(Written([E])))
  {
    hide ValueAt, Bindings, Written;
    RefEntries(u);
    ValueListed(RefOverlay(u), [], p, x);
    assert [] + p == p;
  }

  lemma RefOverlayHas(u: nat)
    requires u < U32
    ensures ValueAt(RefOverlay(u), [FIXUPS], L) == Some(Written([E]))
    ensures ValueAt(RefOverlay(u), [X, OVERLAY], R) == Some(Put32(u)) && NodeAt(RefOverlay(u), [X, OVERLAY]).Some?
    ensures NodeAt(RefOverlay(u), [X, OVERLAY]) == Some(RefContent(u))
  {
    hide NodeAt, RefOverlay, RefFragment, Written;
    RefKids(u);
    KidIsNode(RefOverlay(u), FIXUPS);
    Grandchild(RefOverlay(u), X, OVERLAY);
  }

  lemma RefPh(u: nat, p: Path)
    requires u < U32
    ensures Ph(RefOverlay(u), p) == 0
  {
    hide ValueAt, RefOverlay, Written;
    SmallNamesDiffer();
    PhIs(RefOverlay(u), p);
    if ValueAt(RefOverlay(u), p, PHANDLE).Some? {
      RefOverlayAt(u, p, PHANDLE);
    }
    if ValueAt(RefOverlay(u), p, LINUX_PHANDLE).Some? {
      RefOverlayAt(u, p, LINUX_PHANDLE);
    }
  }

  lemma RefBasePh(p: Path)
    ensures Ph(RefBase(), p) == if p == [P] then 5 else 0
  {
    hide ValueAt, RefBase, Bindings;
    SmallNamesDiffer();
    PhIs(RefBase(), p);
    RefEntries(0);
    PutGet32(5);
    RefBaseHas();
    assert [] + p == p;
    if ValueAt(RefBase(), p, PHANDLE).Some? {
      ValueListed(RefBase(), [], p, PHANDLE);
    }
    if ValueAt(RefBase(), p, LINUX_PHANDLE).Some? {
      ValueListed(RefBase(), [], p, LINUX_PHANDLE);
    }
  }

  lemma RefBaseHas()
    ensures ValueAt(RefBase(), [P], PHANDLE) == Some(Put32(5)) && ValueAt(RefBase(), [SYMBOLS], L) == Some(TO_P)
    ensures NodeAt(RefBase(), [P]) == Some(WithPhandle(5, Nil))
  {
    hide NodeAt, RefBase;
    RefKids(0);
    KidIsNode(RefBase(), P);
    KidIsNode(RefBase(), SYMBOLS);
  }

  lemma RefUnlisted(u: nat, p: Path, x: Str)
    requires u < U32
    ensures FixupsOf(RefOverlay(u)) == Nil && Lists(RefOverlay(u), p, x) == None
  {
    hide RefOverlay;
    RefTops(u);
    NilAt(p, x);
  }

  lemma RefSound()
    ensures Sound(RefOverlay(1)) && FixupsSound(RefOverlay(1)) && Uniq(RefBase()) && PhandlesApart(RefBase())
  {
    hide ValueAt, RefOverlay, RefBase, Ph, Lists, Shaped, Uniq, SmallNames, Exact, NamesIn, Specials, FixupSound;
    var o := RefOverlay(1);
    RefShaped(1);
    ShapedIs(o, SmallNames());
    ShapedIs(RefBase(), SmallNames());
    NamesThere();
    SmallNamesPlain();
    ExactSpecials(o, SmallNames());
    SmallNamesDiffer();
    NothingUniq();
    forall p
      ensures Ph(o, p) == 0 && (Ph(RefBase(), p) == if p == [P] then 5 else 0)
    {
      RefPh(1, p);
      RefBasePh(p);
    }
    forall p, x
      ensures Lists(o, p, x) == None && FixupsOf(o) == Nil && PhandlesSound(o, p, x)
    {
      RefUnlisted(1, p, x);
      if ValueAt(o, p, x).Some? {
        RefOverlayAt(1, p, x);
      }
    }
    RefUnlisted(1, [], []);
    assert Canon(o, Nil) == Nil;
    forall y
      ensures FixupSound(o, y)
    {
      RefFixupSound(y);
    }
  }

  lemma EntryClean()
    ensures Clean(RefOverlay(1), E) && Resolve(RefOverlay(1), Comps(E.path)) == Some([X, OVERLAY])
  {
    hide RefOverlay, Lists, Comps, Resolve;
    EntryRead();
    SmallNamesDiffer();
    RefLeads(1);
    RefUnlisted(1, [X, OVERLAY], R);
  }

  lemma RefLeads(u: nat)
    requires u < U32
    ensures Resolve(RefOverlay(u), [X, OVERLAY]) == Some([X, OVERLAY])
    ensures Into(RefOverlay(u), [X, OVERLAY]) == [X, OVERLAY]
  {
    hide RefOverlay, RefFragment, RefContent, NodeAt;
    RefTops(u);
    RefOverlayHas(u);
    SubIsMeant(RefOverlay(u), X);
    SubIsMeant(RefFragment(u), OVERLAY);
    assert [X, OVERLAY][1..] == [OVERLAY] && [OVERLAY][1..] == [];
    var k := RefFragment(u);
    assert Into(k, [OVERLAY]) == [OVERLAY] + Into(KidOrNil(k, OVERLAY), []);
    assert Into(RefOverlay(u), [X, OVERLAY]) == [X] + Into(k, [OVERLAY]);
    assert Into(RefOverlay(u), [X, OVERLAY]) == [X, OVERLAY];
    hide Resolve, Into;
    ResolveInto(RefOverlay(u), [X, OVERLAY]);
  }

  lemma RefFixupSound(y: Str)
    ensures FixupSound(RefOverlay(1), y)
  {
    hide ValueAt, RefOverlay, Lists, Clean, FdtEntries, Written;
    SmallNamesDiffer();
    if ValueAt(RefOverlay(1), [FIXUPS], y).Some? {
      RefOverlayAt(1, [FIXUPS], y);
      assert [FIXUPS][0] == FIXUPS && [X][0] == X;
      RefUnlisted(1, [FIXUPS], y);
      EntryRead();
      EntryClean();
    }
  }

  // ----- The overlay is applied -----

  lemma RefMax()
    ensures MaxPhandle(RefBase()) == 5
  {
    hide Written;
    PutGet32(5);
    SmallNamesDiffer();
    assert Phandle(WithPhandle(5, Nil)) == 5 && MaxPhandle(WithPhandle(5, Nil)) == 5;
    assert Phandle(RefSymbols()) == 0 && MaxPhandle(RefSymbols()) == 0;
    var sy := SubF(SYMBOLS, RefSymbols(), Nil);
    assert MaxBelow(sy) == 0;
    assert Phandle(RefBase()) == 0;
  }

  lemma RefShifted()
    ensures Shift(RefOverlay(1), 5) == Ok(RefOverlay(1))
  {
    hide AddOffset, Written;
    SmallNamesDiffer();
    NoOffsets();
    assert Shift(RefContent(1), 5) == Ok(RefContent(1));
    assert Shift(RefFixups(), 5) == Ok(RefFixups());
    hide RefContent, RefFixups;
    assert !HasProp(RefFragment(1), PHANDLE) && !HasProp(RefFragment(1), LINUX_PHANDLE);
    assert ShiftSubs(SubF(OVERLAY, RefContent(1), Nil), 5) == Ok(SubF(OVERLAY, RefContent(1), Nil));
    assert Shift(RefFragment(1), 5) == Ok(RefFragment(1));
    hide RefFragment;
    var fs := SubF(FIXUPS, RefFixups(), Nil);
    assert ShiftSubs(fs, 5) == Ok(fs);
    assert !HasProp(RefOverlay(1), PHANDLE) && !HasProp(RefOverlay(1), LINUX_PHANDLE);
  }

  lemma LeadsToTarget()
    ensures Lookup(RefBase(), CStr(TO_P)) == Ok([P])
  {
    hide RefBase, Comps, HasSub, SubBody, SubName;
    LeadsToP();
    RefTops(0);
    assert [P][1..] == [] && Resolve(WithPhandle(5, Nil), []) == Some([]) && [P] + [] == [P];
    assert Resolve(RefBase(), [P]) == Some([P]);
  }

  lemma RefSymbol()
    ensures SymbolPhandle(RefBase(), L) == Ok(5)
  {
    hide RefBase, Lookup, CStr;
    RefTops(0);
    RefBaseHas();
    LeadsToTarget();
    PutGet32(5);
    SmallNamesDiffer();
    assert HasProp(RefSymbols(), L) && PropData(RefSymbols(), L) == TO_P;
    assert Phandle(WithPhandle(5, Nil)) == 5;
  }

  lemma RefStored()
    ensures FixOne(RefOverlay(1), E, 5) == Ok(RefOverlay(5))
  {
    hide RefOverlay, RefFragment, RefContent, Resolve, Comps, PutAt, PutKid, Overwrite, Put32, NodeAt;
    var k, o := RefContent(1), RefOverlay(1);
    EntryRead();
    RefLeads(1);
    RefOverlayHas(1);
    RefKids(1);
    ContentStored();
    PutGrandchild(o, X, OVERLAY, RefContent(5));
    RefPut();
    assert Lookup(o, E.path) == Ok([X, OVERLAY]);
  }

  lemma ContentStored()
    ensures var k := RefContent(1);
            && HasProp(k, R) && |PropData(k, R)| == 4
            && PutProp(k, R, Overwrite(PropData(k, R), 0, Put32(5))) == RefContent(5)
  {
    assert Overwrite(Put32(1), 0, Put32(5)) == Put32(5);
  }

  lemma RefPut()
    ensures KidAt(RefOverlay(1), X) == Some(RefFragment(1)) && KidAt(RefFragment(1), OVERLAY).Some?
    ensures PutKid(RefFragment(1), OVERLAY, RefContent(5)) == RefFragment(5)
    ensures PutKid(RefOverlay(1), X, RefFragment(5)) == RefOverlay(5)
  {
    hide Written;
  }

  lemma RefFixed()
    ensures Fixups(RefBase(), RefOverlay(1)) == Ok(RefOverlay(5))
  {
    hide RefBase, RefOverlay, Written, FdtEntries, FixOne, FixEntries, SymbolPhandle;
    RefTops(1);
    RefSymbol();
    EntryRead();
    RefStored();
    var d := Written([E]);
    assert [E][1..] == [] && FixEach(RefOverlay(5), [], 5) == Ok(RefOverlay(5));
    assert FixEach(RefOverlay(1), [E], 5) == Ok(RefOverlay(5));
    EachDone(RefOverlay(1), d, 5);
    FixEntriesEach(RefOverlay(1), d, 5);
    assert FixLabels(RefBase(), RefOverlay(5), Nil) == Ok(RefOverlay(5));
    assert RefFixups() == PropF(L, d, Nil);
  }

  lemma RefSettled()
    ensures Resolved(RefBase(), RefOverlay(1)) == Ok(RefOverlay(5))
  {
    hide RefBase, RefOverlay, Shift, MaxPhandle, Fixups;
    RefMax();
    RefShifted();
    RefTops(1);
    RefFixed();
  }

  lemma RefTarget()
    ensures Target(RefBase(), RefFragment(5)) == Ok([P])
  {
    hide RefBase, Lookup, CStr;
    SmallNamesDiffer();
    LeadsToTarget();
  }

  lemma RefPrevented()
    ensures Prevent(RefBase(), RefOverlay(5), RefOverlay(5)) == Ok(RefOverlay(5))
  {
    hide RefBase, Target, HasSub, SubBody, SubName, NodeAt, Written;
    var b, o, fs := RefBase(), RefOverlay(5), SubF(FIXUPS, RefFixups(), Nil);
    RefTops(5);
    RefKids(5);
    RefTarget();
    RefBaseHas();
    RefOverlayHas(5);
    SmallNamesDiffer();
    assert Phandle(RefContent(5)) == 0;
    assert PreventSubs(o, [X, OVERLAY], WithPhandle(5, Nil), Nil) == Ok(o);
    assert PreventNode(o, [X, OVERLAY], WithPhandle(5, Nil), RefContent(5)) == Ok(o);
    assert PreventFragment(b, o, X, RefFragment(5)) == Ok(o);
    assert PreventFragment(b, o, FIXUPS, RefFixups()) == Ok(o);
    assert Prevent(b, o, Nil) == Ok(o);
    assert Prevent(b, o, fs) == Ok(o);
  }

  /** / { p { r = 5; phandle = 5 } __symbols__ { l = "/p" } } */
  function RefResult(): Forest {
    SubF(P, PropF(R, Put32(5), WithPhandle(5, Nil)), SubF(SYMBOLS, RefSymbols(), Nil))
  }

  lemma RefMerged()
    ensures OverlayApply(RefBase(), RefOverlay(1)) == Ok(RefResult())
  {
    hide Resolved, Prevent, Target, HasSub, SubBody, NodeAt, Written, PutAt;
    var b, o, fs := RefBase(), RefOverlay(5), SubF(FIXUPS, RefFixups(), Nil);
    RefSettled();
    RefPrevented();
    RefTops(5);
    RefTarget();
    RefBaseHas();
    SmallNamesDiffer();
    var m := PropF(R, Put32(5), WithPhandle(5, Nil));
    assert ApplyProps(WithPhandle(5, Nil), RefContent(5)) == m && ApplySubs(m, RefContent(5)) == m;
    RefPutInto(m);
    assert MergeAll(RefResult(), Nil) == Ok(RefResult());
    assert MergeAll(RefResult(), fs) == Ok(RefResult());
  }

  lemma RefPutInto(m: Forest)
    ensures NodeAt(RefBase(), [P]).Some?
    ensures PutAt(RefBase(), [P], m) == SubF(P, m, SubF(SYMBOLS, RefSymbols(), Nil))
  {
    RefKids(0);
    PutOneDown(RefBase(), P, m);
  }

  // ----- The reference -----

  lemma RefAlone()
    ensures EntryOf(RefOverlay(1), L, E) && Alone(RefOverlay(1), L, [X, OVERLAY], R, 0)
  {
    hide RefOverlay, ValueAt, Written, FdtEntries, Resolve, Comps;
    RefOverlayHas(1);
    EntryRead();
    forall y, e | EntryOf(RefOverlay(1), y, e) && Touches(RefOverlay(1), e, [X, OVERLAY], R, 0)
      ensures y == L && e.off == 0
    {
      RefOverlayAt(1, [FIXUPS], y);
      SmallNamesDiffer();
      assert [FIXUPS][0] == FIXUPS && [X][0] == X;
      assert e == E;
    }
  }

  /**
   * The overlay applies; its one cell is listed under the label of the node p, whose phandle is 5; and that is what the
   * cell holds when the overlay is merged, and in the result.
   */
  lemma ReferenceStored()
    ensures var b, o, p := RefBase(), RefOverlay(1), [X, OVERLAY];
            && Applies(b, o) && EntryOf(o, L, E) && p == Into(o, Comps(E.path)) && NodeAt(o, p).Some?
            && Alone(o, L, p, E.prop, E.off) && LabelNode(b, L) == Some([P]) && Ph(b, [P]) == 5
            && Cell(o, p, R, 0) == Some(1) && Cell(Final(b, o), p, R, 0) == Some(5)
            && Cell(Outcome(b, o), [P], R, 0) == Some(5)
            && PathsUnlisted(o) && UUniq(o) && FixupsPlainly(o)
  {
    hide UUniq, FixupsPlainly, PathsUnlisted, RefOverlay, RefBase, Written, FdtEntries, Comps, Resolve, Into, NodeAt,
      Sound, FixupsSound, OverlayApply, PhandlesApart, Uniq, Alone, EntryOf, Final, LabelNode, RefResult;
    RefSound();
    RefOpenToBoth();
    RefMerged();
    EntryRead();
    RefLeads(1);
    RefOverlayHas(1);
    RefAlone();
    RefBasePh([P]);
    PutGet32(1);
    LabelsFollow(RefBase(), RefOverlay(1), L, E, [X, OVERLAY]);
    LabelAtP();
    ResultHas();
  }

  lemma RefOpenToBoth()
    ensures PathsUnlisted(RefOverlay(1)) && UUniq(RefOverlay(1)) && FixupsPlainly(RefOverlay(1))
  {
    hide RefOverlay, Lists, RefFragment;
    forall f
      ensures Lists(RefOverlay(1), [f], TARGET_PATH) == None
    {
      RefUnlisted(1, [f], TARGET_PATH);
    }
    RefUUniq();
    RefKids(1);
    RefLabels();
  }

  lemma RefUUniq()
    ensures UUniq(RefOverlay(1))
  {
    hide Written;
    SmallNamesDiffer();
    assert UUniq(RefContent(1)) && UUniq(RefFixups());
    hide RefFixups, RefContent;
    assert UUniq(SubF(OVERLAY, RefContent(1), Nil)) && UData(SubF(OVERLAY, RefContent(1), Nil), TARGET_PATH) == None;
    assert UUniq(RefFragment(1)) && UUniq(SubF(FIXUPS, RefFixups(), Nil));
  }

  lemma RefLabels()
    ensures Unnamed(RefFixups()) && LabelsAbsolute(RefFixups())
  {
    hide Written, UfdtEntries;
    SmallNamesDiffer();
    EntryRead();
    WrittenSame([E]);
    assert forall y, d :: HasLabel(RefFixups(), y, d) <==> y == L && d == Written([E]);
    assert Absolute(E.path);
  }

  lemma LabelAtP()
    ensures LabelNode(RefBase(), L) == Some([P])
  {
    hide RefBase, Lookup, CStr;
    RefTops(0);
    RefBaseHas();
    LeadsToTarget();
  }

  lemma ResultHas()
    ensures Cell(RefResult(), [P], R, 0) == Some(5)
  {
    hide NodeAt;
    KidIsNode(RefResult(), P);
    PutGet32(5);
  }
}
