/**
 * An overlay whose f stands for the base's f@1 and takes its phandle, with the target-path written out and as an alias
 * of one character: the label of f leads to f@1 only in the first case.
 */
module ShortAlias {
  import opened Bytes
  import opened Tree
  import opened Positions
  import opened Edits
  import opened Merge
  import opened Sem
  import opened Overlay
  import opened OverlaySteps
  import opened Refs
  import opened Conflicts
  import opened Lookups
  import opened Merged
  import opened Steady
  import opened OverlayProof
  import opened Targets
  import opened Symbols
  import opened Paths
  import opened Examples
  import opened Witness

  /** / { aliases { a = "/p" } p { f@1 { phandle = 5 } } } */
  function AliasBase(): Forest {
    SubF(ALIASES, AliasList(), SubF(P, Held(), Nil))
  }

  function AliasList(): Forest {
    PropF(A, TO_P, Nil)
  }

  /** f@1 { phandle = 5 } */
  function Held(): Forest {
    SubF(F1, WithPhandle(5, Nil), Nil)
  }

  /** The path /p, or the alias of it. */
  predicate Way(w: Str) {
    w == TO_P || w == TO_A
  }

  lemma AliasNamesDiffer()
    ensures P != ALIASES && !NodeNameEq(ALIASES, P) && NodeNameEq(P, P) && NodeNameEq(ALIASES, ALIASES)
            && NodeNameEq(F1, F) && F1 != F
    ensures A != PHANDLE && A != LINUX_PHANDLE && !NodeNameEq(F1, OVERLAY)
  {
    assert |PHANDLE| == 7 && |LINUX_PHANDLE| == 13 && |A| == 1 && |P| == 1 && |ALIASES| == 7 && ALIASES[0] != P[0]
           && ALIASES[..1][0] == ALIASES[0];
    assert P[..1] == P && F1[..1] == F && F1[1] == 0x40 && |OVERLAY| == 11 && ALIASES[..7] == ALIASES;
  }

  // ----- The base -----

  lemma AliasKids()
    ensures var b := AliasBase();
            && KidAt(b, ALIASES) == Some(AliasList()) && KidAt(b, P) == Some(Held())
               && KidAt(Held(), F1) == Some(WithPhandle(5, Nil))
            && HasSub(b, ALIASES) && Meant(b, ALIASES) == ALIASES && SubBody(b, ALIASES) == AliasList()
            && HasSub(b, P) && Meant(b, P) == P && SubBody(b, P) == Held() && SubName(b, P) == P
            && HasSub(Held(), F) && Meant(Held(), F) == F1 && SubBody(Held(), F) == WithPhandle(5, Nil)
  {
    AliasNamesDiffer();
    hide NodeNameEq;
    assert Meant(SubF(P, Held(), Nil), P) == P;
  }

  lemma AliasEntries()
    ensures Bindings(AliasBase(), []) == [Binding([ALIASES], A, TO_P), Binding([P, F1], PHANDLE, Put32(5))]
  {
    hide Bindings;
    SubEntry(ALIASES, AliasList(), SubF(P, Held(), Nil), [], [ALIASES]);
    OneEntry([], Nil, [ALIASES], [ALIASES, []], A, TO_P);
    OneEntry(P, Held(), [], [P], [], []);
    OneEntry(F1, WithPhandle(5, Nil), [P], [P, F1], [], []);
    OneEntry([], Nil, [P, F1], [P, F1] + [[]], PHANDLE, Put32(5));
  }

  lemma AliasBaseAt(p: Path, x: Str)
    requires ValueAt(AliasBase(), p, x).Some?
    ensures (p == [ALIASES] && x == A) || (p == [P, F1] && x == PHANDLE)
  {
    hide ValueAt, Bindings;
    AliasEntries();
    ValueListed(AliasBase(), [], p, x);
    assert [] + p == p;
  }

  lemma AliasNodes()
    ensures NodeAt(AliasBase(), [P]) == Some(Held()) && NodeAt(AliasBase(), [P, F1]) == Some(WithPhandle(5, Nil))
    ensures Phandle(AliasBase()) == 0 && Phandle(Held()) == 0 && Phandle(WithPhandle(5, Nil)) == 5
    ensures Ph(AliasBase(), [P, F1]) == 5
  {
    hide NodeAt;
    AliasKids();
    PutGet32(5);
    KidIsNode(AliasBase(), P);
    Grandchild(AliasBase(), P, F1);
  }

  lemma AliasPh(p: Path)
    ensures Ph(AliasBase(), p) == if p == [P, F1] then 5 else 0
  {
    hide ValueAt, NodeAt, AliasBase;
    AliasNodes();
    AliasNamesDiffer();
    PhIs(AliasBase(), p);
    if p != [P, F1] {
      if ValueAt(AliasBase(), p, PHANDLE).Some? {
        AliasBaseAt(p, PHANDLE);
      }
      if ValueAt(AliasBase(), p, LINUX_PHANDLE).Some? {
        AliasBaseAt(p, LINUX_PHANDLE);
      }
    }
  }

  lemma AliasBaseSound()
    ensures Uniq(AliasBase()) && PhandlesApart(AliasBase())
  {
    hide Ph;
    AliasNamesDiffer();
    forall p
      ensures Ph(AliasBase(), p) == if p == [P, F1] then 5 else 0
    {
      AliasPh(p);
    }
  }

  lemma AliasMax()
    ensures MaxPhandle(AliasBase()) == 5
  {
    AliasNodes();
    AliasNamesDiffer();
    assert MaxPhandle(WithPhandle(5, Nil)) == 5;
    assert MaxPhandle(Held()) == 5;
    assert MaxPhandle(AliasList()) == 0;
  }

  /** Both ways lead to p. */
  lemma AliasWay(w: Str)
    requires Way(w)
    ensures PathNames(AliasBase(), CStr(w)) == Ok([P]) && Into(AliasBase(), [P]) == [P] && CStr(w) != []
    ensures CStr(w)[0] != SLASH <==> w == TO_A
    ensures w == TO_A ==> CStr(w) == A && Word(CStr(w)) == 1
  {
    hide Comps;
    AliasKids();
    LeadsToP();
    NoComps();
    assert [P][1..] == [] && [P] + [] == [P];
    assert CStr(TO_A[1..]) == [];
    assert CStr(TO_A) == A && A[..1] == A && A[1..] == [] && Word(A[1..]) == 0;
    assert AliasValue(AliasBase(), A) == Some(TO_P);
  }

  lemma AliasTarget(w: Str, u: nat, v: nat)
    requires Way(w) && u < U32 && v < U32
    ensures Target(AliasBase(), SmallFragment(w, u, v)) == Ok([P])
  {
    hide CStr, Lookup, PathNames, AliasBase, SmallContent, NodeAt, Resolve, Into;
    AliasWay(w);
    AliasNodes();
    SmallNamesDiffer();
    FragmentWay(w, u, v);
    LookupNames(AliasBase(), CStr(w));
    ResolveInto(AliasBase(), [P]);
  }

  lemma FragmentWay(w: Str, u: nat, v: nat)
    requires u < U32 && v < U32
    ensures var k := SmallFragment(w, u, v);
            !HasProp(k, TARGET) && HasProp(k, TARGET_PATH) && PropData(k, TARGET_PATH) == w
  {
    SmallNamesDiffer();
  }

  // ----- f takes the phandle of f@1 -----

  lemma AliasRenamed(w: Str)
    ensures NodeAt(SmallOverlay(w, 6, 6), [X, OVERLAY, F]).Some?
    ensures Rename(SmallOverlay(w, 6, 6), [X, OVERLAY, F], 5) == Ok(SmallOverlay(w, 5, 5))
  {
    hide NodeAt, PutAt, RewriteLocal, SmallOverlay, SetPhandle;
    SmallOverlayHas(w, 6, 6);
    PhandleChanged();
    SmallPut(w);
    SmallFollowed(w, 6, 5, 5, Replacing(6, 5));
  }

  lemma PhandleChanged()
    ensures SetPhandle(WithPhandle(6, Nil), 5) == WithPhandle(5, Nil) && Phandle(WithPhandle(6, Nil)) == 6
  {
    SmallNamesDiffer();
    PutGet32(6);
  }

  lemma SmallPut(w: Str)
    ensures NodeAt(SmallOverlay(w, 6, 6), [X, OVERLAY, F]).Some?
    ensures PutAt(SmallOverlay(w, 6, 6), [X, OVERLAY, F], WithPhandle(5, Nil)) == SmallOverlay(w, 6, 5)
  {
    hide NodeAt, PutAt;
    SmallKids(w, 6, 6);
    SmallNamesDiffer();
    var e := WithPhandle(5, Nil);
    assert KidAt(SmallContent(6, 6), F) == Some(WithPhandle(6, Nil));
    PutGrandchild(SmallFragment(w, 6, 6), OVERLAY, F, e);
    PutDown(SmallOverlay(w, 6, 6), X, [OVERLAY, F], e);
    assert [X] + [OVERLAY, F] == [X, OVERLAY, F];
    assert PutKid(SmallContent(6, 6), F, e) == SmallContent(6, 5);
    assert PutKid(SmallFragment(w, 6, 6), OVERLAY, SmallContent(6, 5)) == SmallFragment(w, 6, 5);
  }

  lemma AliasMatched(w: Str)
    ensures PreventNode(SmallOverlay(w, 6, 6), [X, OVERLAY], Held(), SmallContent(6, 6)) == Ok(SmallOverlay(w, 5, 5))
  {
    hide NodeAt, PutAt, Rename, SmallOverlay, HasSub, SubBody, Phandle, Held;
    SmallOverlayHas(w, 6, 6);
    AliasRenamed(w);
    AliasNodes();
    AliasKids();
    PhandleChanged();
    assert [X, OVERLAY] + [F] == [X, OVERLAY, F];
    var o, k := SmallOverlay(w, 6, 6), WithPhandle(6, Nil);
    assert PreventNode(o, [X, OVERLAY, F], WithPhandle(5, Nil), k) == Ok(SmallOverlay(w, 5, 5));
    hide PreventNode;
    assert PreventSubs(o, [X, OVERLAY], Held(), SubF(F, k, Nil)) == Ok(SmallOverlay(w, 5, 5));
    assert PreventSubs(o, [X, OVERLAY], Held(), SmallContent(6, 6)) == Ok(SmallOverlay(w, 5, 5));
    MatchedFrom(o, Held(), SmallContent(6, 6));
  }

  lemma MatchedFrom(o: Forest, bb: Forest, shape: Forest)
    requires NodeAt(o, [X, OVERLAY]).Some? && Phandle(bb) == 0
    ensures PreventNode(o, [X, OVERLAY], bb, shape) == PreventSubs(o, [X, OVERLAY], bb, shape)
  {
  }

  lemma AliasPrevented(w: Str)
    requires Way(w)
    ensures Prevent(AliasBase(), SmallOverlay(w, 6, 6), SmallOverlay(w, 6, 6)) == Ok(SmallOverlay(w, 5, 5))
  {
    hide Target, NodeAt, AliasBase, SmallOverlay, SmallFragment, HasSub, SubBody, SubName, PreventNode;
    AliasTarget(w, 6, 6);
    AliasNodes();
    SmallTops(w, 6, 6);
    SmallKids(w, 6, 6);
    SmallTurns(AliasBase(), w, 6, 6);
    AliasMatched(w);
  }

  lemma AliasApplies(w: Str)
    requires Way(w)
    ensures Applies(AliasBase(), SmallOverlay(w, 1, 1))
            && Final(AliasBase(), SmallOverlay(w, 1, 1)) == SmallOverlay(w, 5, 5)
  {
    hide Uniq, PhandlesApart, Sound, FixupsSound, AliasBase, SmallOverlay, Resolved, Prevent, MergeAll, NodeAt;
    AliasBaseSound();
    SmallSound(w);
    AliasMax();
    SmallResolved(AliasBase(), w);
    AliasPrevented(w);
    AliasTarget(w, 5, 5);
    AliasNodes();
    SmallMerges(AliasBase(), w, 5, 5, [P]);
  }

  // ----- The guard -----

  /** The names that are looked up: aliases and p below the root, f below p. */
  ghost function AliasUsed(): Names {
    iset{([], ALIASES), ([], P), ([P], F)}
  }

  lemma UsedBelow()
    ensures ([], F) in Below(AliasUsed(), [P])
    ensures forall q, l | (q, l) in Below(AliasUsed(), [P]) :: q == [] && l == F
  {
    AliasNamesDiffer();
    assert [P] + [] == [P];
    forall q, l | (q, l) in Below(AliasUsed(), [P])
      ensures q == [] && l == F
    {
      InBelow(AliasUsed(), [P], q, l);
      assert ([P] + q)[0] == P;
      assert |[P] + q| == 1 + |q|;
    }
  }

  lemma AliasAlong()
    ensures Along(AliasBase(), [P], AliasUsed()) && Along(AliasBase(), [P, F], AliasUsed())
  {
    hide Below, AliasBase, Held;
    AliasKids();
    UsedBelow();
    assert KidOrNil(AliasBase(), P) == Held();
    assert [P][1..] == [] && [P, F][1..] == [F] && [F][1..] == [];
    var N := Below(AliasUsed(), [P]);
    assert Along(Held(), [F], N) by {
      assert Along(KidOrNil(Held(), F1), [], Below(N, [F1]));
    }
    assert Along(Held(), [], N);
  }

  /** No overlay node sets an alias. */
  lemma AliasUnset(w: Str)
    ensures Unset(AliasBase(), SmallOverlay(w, 1, 1), SmallGoals(), AliasesAt(AliasBase()), A)
  {
    hide ValueAt, SmallOverlay, AliasBase, AliasesAt;
    SmallNamesDiffer();
    assert A != R && A != PHANDLE && A != L && A != TARGET_PATH;
    forall n
      ensures ValueAt(SmallOverlay(w, 1, 1), n, A).None?
    {
      if ValueAt(SmallOverlay(w, 1, 1), n, A).Some? {
        SmallOverlayAt(w, 1, 1, n, A);
      }
    }
  }

  lemma AliasAims(w: Str)
    requires Way(w)
    ensures PathAims(AliasBase(), SmallOverlay(w, 1, 1), SmallGoals(), AliasUsed(), CStr(w), [P])
  {
    hide SmallOverlay, AliasBase, CStr, PathNames, Into, Along, Word;
    AliasWay(w);
    AliasAlong();
    AliasUnset(w);
    assert A[..1] == A;
  }

  lemma AliasSuits()
    ensures Suits(Held(), SmallContent(1, 1), Below(AliasUsed(), [P]))
  {
    hide Below, Held;
    AliasKids();
    UsedBelow();
    forall r, m | NodeAt(SmallContent(1, 1), r + [m]).Some?
      ensures (Into(Held(), r), m) in Below(AliasUsed(), [P])
              && Harmless(Held(), Into(Held(), r), m, Below(AliasUsed(), [P]))
    {
      OnlyF(r, m);
      assert Into(Held(), []) == [] && NodeOr(Held(), []) == Held();
    }
  }

  lemma OnlyF(r: Path, m: Str)
    requires NodeAt(SmallContent(1, 1), r + [m]).Some?
    ensures r == [] && m == F
  {
    var p := r + [m];
    SmallNamesDiffer();
    assert KidAt(SmallContent(1, 1), p[0]) == KidAt(SubF(F, WithPhandle(1, Nil), Nil), p[0]);
    assert p[0] == F;
    assert NodeAt(WithPhandle(1, Nil), p[1..]).Some?;
    if p[1..] != [] {
      assert KidAt(WithPhandle(1, Nil), p[1]).Some?;
    }
    assert |p| == 1;
  }

  lemma AliasGuarded(w: Str)
    requires Way(w)
    ensures Guarded(AliasBase(), SmallOverlay(w, 1, 1), SmallGoals(), AliasUsed())
  {
    hide NodeAt, SmallOverlay, AliasBase, TargetLeads, Suits, CStr, Pointed, Below, PathAims, SmallContent;
    AliasAims(w);
    SmallLeads(AliasBase(), w, AliasUsed());
    SmallOverlayHas(w, 1, 1);
    AliasNodes();
    AliasSuits();
    forall f | NodeAt(SmallOverlay(w, 1, 1), [f, OVERLAY]).Some?
      ensures f == X
    {
      OnlyFragment(w, f);
    }
  }

  lemma AliasAim()
    ensures Aim(AliasBase(), SmallGoals(), [X, OVERLAY, F]) == [P, F1]
  {
    hide AliasBase, Held;
    AliasNodes();
    AliasKids();
    assert [X, OVERLAY, F][2..] == [F] && [F][1..] == [] && Into(Held(), [F]) == [F1];
    assert [P] + [F1] == [P, F1];
  }

  lemma AliasTraced(w: Str)
    requires Way(w)
    ensures var b, o, g := AliasBase(), SmallOverlay(w, 1, 1), SmallGoals();
            Traced(b, o, g, AliasUsed(), [X, OVERLAY, F]) && (Short(b, o, g, X) <==> w == TO_A)
  {
    hide NodeAt, SmallOverlay, AliasBase, CStr, Pointed, Along, PathAims, TargetLeads, TargetPath, PathNames, OwnName,
      Word;
    AliasAims(w);
    SmallLeads(AliasBase(), w, AliasUsed());
    SmallOverlayHas(w, 1, 1);
    SmallTops(w, 1, 1);
    AliasWay(w);
    AliasAlong();
    LeadsToP();
    assert [X, OVERLAY, F][2..] == [F] && [P] + [F] == [P, F];
  }

  // ----- The update of the symbols -----

  lemma AliasUpdated(w: Str)
    requires Way(w)
    ensures FdtOverlayApply(AliasBase(), SmallOverlay(w, 1, 1)).Ok?
  {
    hide Applies, Guarded, LabelsSound, NodeAt, SmallOverlay, AliasBase, Onward, Outcome, SymbolValue, WithSymbol,
      WithSub, SmallGoals, AliasUsed, Touched,
      LABEL, HasSub, SubBody, KidAt, FdtOverlayApply, AliasesAt, Final, SmallFragment;
    AliasApplies(w);
    AliasGuarded(w);
    SkippedUpdate(AliasBase(), SmallOverlay(w, 1, 1));
    OutcomeOnward(AliasBase(), SmallOverlay(w, 1, 1), SmallGoals(), AliasUsed());
    var m := Outcome(AliasBase(), SmallOverlay(w, 1, 1));
    var r := WithSub(m, SYMBOLS);
    OnwardUniq(AliasBase(), SmallOverlay(w, 1, 1), SmallGoals(), AliasUsed(), m);
    WithSymbolsTouches(m, []);
    SymbolsPlain();
    RootNotAliases(AliasBase());
    OnwardTouched(AliasBase(), SmallOverlay(w, 1, 1), SmallGoals(), AliasUsed(), m, r, [], []);
    WithSubHas(m);
    SubIsMeant(r, SYMBOLS);
    SmallTops(w, 5, 5);
    AliasValued(w, r);
    var v := SymbolValue(r, SmallOverlay(w, 5, 5), LABEL).v;
    assert PutSymbols(WithSymbol(r, Meant(r, SYMBOLS), L, v), SmallOverlay(w, 5, 5), Meant(r, SYMBOLS), Nil).Ok?;
    assert PutSymbols(r, SmallOverlay(w, 5, 5), Meant(r, SYMBOLS), SmallSymbols()).Ok?;
  }

  lemma AliasValued(w: Str, r: Forest)
    requires Way(w) && Onward(AliasBase(), SmallOverlay(w, 1, 1), SmallGoals(), AliasUsed(), r)
    ensures SymbolValue(r, SmallOverlay(w, 5, 5), LABEL).Ok?
  {
    hide Applies, Guarded, NodeAt, SmallOverlay, AliasBase, Onward, Final, HasSub, SubBody, Target, CStr, Comps,
      SymbolPlace, AliasUsed;
    AliasApplies(w);
    AliasGuarded(w);
    SmallOverlayHas(w, 1, 1);
    TargetAgain(AliasBase(), SmallOverlay(w, 1, 1), SmallGoals(), AliasUsed(), X, r);
    SmallTops(w, 5, 5);
    SmallKids(w, 5, 5);
    LabelText();
    SmallNamesDiffer();
  }

  lemma LabelText()
    ensures LABEL != [] && |CStr(LABEL)| == |LABEL| - 1 && LABEL[0] == SLASH && CStr(LABEL) != []
    ensures SymbolPlace(CStr(LABEL)).Some? && SymbolPlace(CStr(LABEL)).value.fragment == X
  {
    hide CStr, Comps, SymbolPlace;
    LabelPath();
    assert [X, OVERLAY, F][0] == X;
    var p := LABEL[..|LABEL| - 1];
    assert LABEL == p + [0] + [];
    CStrStops(p, []);
  }

  // ----- What becomes of the label -----

  /**
   * The phandle of f@1 is kept, and the label of f, which is merged into f@1, leads there only if the target-path is
   * written out.
   */
  lemma LabelLeads(w: Str)
    requires Way(w)
    ensures var b, o, n := AliasBase(), SmallOverlay(w, 1, 1), [X, OVERLAY, F];
            && Applies(b, o) && Guarded(b, o, SmallGoals(), AliasUsed()) && LabelsSound(o) && FdtOverlayApply(b, o).Ok?
            && MergedPath(b, Final(b, o), n) == [P, F1] && Ph(o, n) == 1
               && Ph(b, [P, F1]) == Ph(Outcome(b, o), [P, F1]) == 5
            && var r := FdtOverlayApply(b, o).v;
               && HasSub(r, SYMBOLS) && HasProp(SubBody(r, SYMBOLS), L)
               && (Lookup(r, CStr(PropData(SubBody(r, SYMBOLS), L))) == Ok([P, F1]) <==> w == TO_P)
  {
    hide Applies, Guarded, LabelsSound, NodeAt, SmallOverlay, AliasBase, Outcome, FdtOverlayApply, Traced, Short, Aim,
      Final, MergedPath, Lookup, CStr, HasSub,
      SubBody, Ph, IsPathOf, BaseKept, PhandlesApart, Safe, AliasUsed, LabelOf, Lists, MatchedPh;
    AliasApplies(w);
    AliasGuarded(w);
    SmallLabel(w);
    AliasUpdated(w);
    AliasTraced(w);
    AliasAim();
    SmallPh(w, 1, [X, OVERLAY, F]);
    AliasPh([P, F1]);
    GuardedSafe(AliasBase(), SmallOverlay(w, 1, 1), SmallGoals(), AliasUsed());
    KeptHere(AliasBase(), Outcome(AliasBase(), SmallOverlay(w, 1, 1)), [P, F1]);
    SmallOverlayHas(w, 1, 1);
    GuardedGoes(AliasBase(), SmallOverlay(w, 1, 1), SmallGoals(), AliasUsed(), [X, OVERLAY, F]);
    SmallLists(w, 1, 1, [SYMBOLS], L);
    NoLabels(SmallOverlay(w, 1, 1), Nil, SYMBOLS, L);
    SymbolsResolve(AliasBase(), SmallOverlay(w, 1, 1), SmallGoals(), AliasUsed(), L, LABEL, [X, OVERLAY, F]);
    assert SmallGoals()[X] == [P] && TO_P != TO_A by { assert |TO_P| == 3 && |TO_A| == 2; }
  }
}
