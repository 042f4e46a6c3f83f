/**
 * Which labels of an overlay overlay_symbol_update (libs/libfdt/fdt_overlay.c) writes, which it passes over, and when
 * it fails.
 */
module SymbolsKept {
  import opened Bytes
  import opened Tree
  import opened Encoding
  import opened Positions
  import opened Edits
  import opened Merge
  import opened Sem
  import opened Overlay
  import opened OverlaySteps
  import opened Skeleton
  import opened Refs
  import opened Conflicts
  import opened Lookups
  import opened Merged
  import opened Steady
  import opened OverlayProof
  import opened Targets
  import opened Paths
  import opened Symbols

  // ----- The paths that lie in a fragment -----

  /** The text w is /f/__overlay__ or /f/__overlay__/rel, for a name f. */
  predicate InText(w: Str, f: Str, rel: Str) {
    && SLASH !in f
    && (w == [SLASH] + f + IN_OVERLAY + [SLASH] + rel || (w == [SLASH] + f + IN_OVERLAY && rel == []))
  }

  /** The code finds a fragment and a path below its __overlay__ node exactly in the texts that are made of them. */
  lemma PlaceIs(w: Str, f: Str, rel: Str)
    requires w != [] && w[0] == SLASH
    ensures SymbolPlace(w) == Some(Place(f, rel)) <==> InText(w, f, rel)
  {
    hide SymbolPlace, InText;
    if SymbolPlace(w) == Some(Place(f, rel)) {
      PlaceText(w, f, rel);
    } else if InText(w, f, rel) {
      TextPlace(w, f, rel);
    }
  }

  lemma PlaceText(w: Str, f: Str, rel: Str)
    requires w != [] && w[0] == SLASH && SymbolPlace(w) == Some(Place(f, rel))
    ensures InText(w, f, rel)
  {
    hide Word, SymbolPlace;
    PartsRest(w);
    var i := 1 + Word(w[1..]);
    WordFree(w[1..]);
    assert w[1..i] == w[1..][..Word(w[1..])];
    Rejoin(w, i, f, w[i..]);
    assert [SLASH] + (f + (IN_OVERLAY + ([SLASH] + rel))) == [SLASH] + f + IN_OVERLAY + [SLASH] + rel;
    assert [SLASH] + (f + (IN_OVERLAY + [])) == [SLASH] + f + IN_OVERLAY;
  }

  lemma TextPlace(w: Str, f: Str, rel: Str)
    requires InText(w, f, rel)
    ensures w != [] && SymbolPlace(w) == Some(Place(f, rel))
  {
    hide SymbolPlace;
    if w == [SLASH] + f + IN_OVERLAY {
      assert w == [SLASH] + f + IN_OVERLAY + [];
      TextCut(w, f, []);
      assert |[SLASH] + f + IN_OVERLAY + [SLASH] + rel| > |w|;
    } else {
      assert w == [SLASH] + f + IN_OVERLAY + ([SLASH] + rel);
      TextCut(w, f, [SLASH] + rel);
    }
  }

  lemma Rejoin(w: Str, i: nat, f: Str, rest: Str)
    requires 1 <= i <= |w| && w[0] == SLASH && w[1..i] == f && w[i..] == rest
    ensures w == [SLASH] + (f + rest)
  {
  }

  lemma TextCut(w: Str, f: Str, more: Str)
    requires SLASH !in f && w == [SLASH] + f + IN_OVERLAY + more && (more == [] || more[0] == SLASH)
    ensures SymbolPlace(w) == Some(Place(f, if more == [] then [] else more[1..]))
  {
    hide Word;
    var rest := IN_OVERLAY + more;
    assert w[1..] == f + rest;
    WordStops(f, rest);
    var i := 1 + |f|;
    assert w[1..i] == f && w[i..] == rest;
    var n := |IN_OVERLAY|;
    if more == [] {
      assert rest == IN_OVERLAY;
    } else {
      assert w[i..i + n] == rest[..n] == IN_OVERLAY && w[i + n] == SLASH && w[i + n + 1..] == more[1..];
      assert rest != IN_OVERLAY;
    }
  }

  // ----- Labels that are passed over -----

  /**
   * The path d has fewer than two names, or its second name is not __overlay__. A path that begins with two slashes
   * could name a node of the overlay that is called nothing but a unit address.
   */
  ghost predicate Outside(o: Forest, d: Str) {
    && (|Comps(CStr(d))| < 2 || Comps(CStr(d))[1] != OVERLAY)
    && (|CStr(d)| < 2 || CStr(d)[1] != SLASH || !HasSub(o, []))
  }

  /** Such a path is no new value, if it is accepted at all. */
  lemma OutsideNone(m: Forest, o: Forest, d: Str)
    requires Outside(o, d) && SymbolValue(m, o, d).Ok?
    ensures SymbolValue(m, o, d) == Ok(None)
  {
    hide Comps, TargetText, Word;
    CStrFree(d);
    var w := CStr(d);
    if SymbolPlace(w).Some? {
      InsideOnly(w);
    }
  }

  lemma InsideOnly(w: Str)
    requires w != [] && w[0] == SLASH && SymbolPlace(w).Some?
    ensures || (|Comps(w)| >= 2 && Comps(w)[1] == OVERLAY)
            || (|w| >= 2 && w[1] == SLASH && SymbolPlace(w).value.fragment == [])
  {
    hide Comps, SymbolPlace, Word;
    var e := SymbolPlace(w).value;
    PartsAre(w);
    PartsRest(w);
    if e.fragment == [] {
      var i := 1 + Word(w[1..]);
      assert i == 1 && |w[1..]| > 0;
      WordFree(w[1..]);
      assert w[1] == w[1..][0];
    }
  }

  /** The loop leaves the value of a symbol that no label sets, or whose label is passed over. */
  lemma {:induction false} PutOthers(m: Forest, o: Forest, sym: Str, syms: Forest, y: Str)
    requires KidAt(m, sym).Some? && Uniq(syms) && PutSymbols(m, o, sym, syms).Ok?
    requires Data(syms, y).Some? ==> Outside(o, Data(syms, y).value)
    ensures ValueAt(PutSymbols(m, o, sym, syms).v, [sym], y) == ValueAt(m, [sym], y)
    decreases syms
  {
    hide KidAt, ValueAt, SymbolValue, WithSymbol, Outside;
    match syms
    case PropF(z, d, r) =>
      var v := SymbolValue(m, o, d).v;
      assert forall i | HasProp(r, i) :: i != z && HasProp(syms, i) && PropData(syms, i) == PropData(r, i);
      if z == y {
        OutsideNone(m, o, d);
        NothingPut(m, sym, z);
      } else {
        OtherPut(m, sym, z, v, y);
      }
      PutOthers(WithSymbol(m, sym, z, v), o, sym, r, y);
    case NopF(r) =>
      assert forall i | HasProp(r, i) :: HasProp(syms, i) && PropData(syms, i) == PropData(r, i);
      PutOthers(m, o, sym, r, y);
    case _ =>
  }

  lemma OtherPut(m: Forest, sym: Str, z: Str, v: Option<Str>, y: Str)
    requires KidAt(m, sym).Some? && y != z
    ensures ValueAt(WithSymbol(m, sym, z, v), [sym], y) == ValueAt(m, [sym], y)
  {
    if v.Some? {
      PutSymbolAt(m, sym, z, v.value, [sym], [], y);
    }
  }

  /**
   * A label that lies in no fragment's __overlay__ node, or is no label of the overlay at all, is passed over: the
   * symbol of that name in the base, if there is one, is what it was.
   */
  lemma OutsideKept(b: Forest, o: Forest, y: Str)
    requires Applies(b, o) && LabelsSound(o) && FdtOverlayApply(b, o).Ok?
    requires !IsPhandle(y) && Lists(o, [SYMBOLS], y) == None && !LabelOf(o, Labels(o), SYMBOLS, y)
    requires ValueAt(o, [SYMBOLS], y).Some? ==> Outside(o, ValueAt(o, [SYMBOLS], y).value)
    ensures var m, r := Outcome(b, o), FdtOverlayApply(b, o).v;
            ValueAt(r, [Meant(m, SYMBOLS)], y) == ValueAt(m, [Meant(m, SYMBOLS)], y)
  {
    hide Applies, Final, Settled, Outcome, Uniq, Meant, Ph, ValueAt, PutSymbols, KidAt, HasSub, SubBody, Lists, LabelOf,
      NoPhandles, LabelsSound, SymbolValue, WithSub, Skel, Mid, Adopted, AllOwn, Touched, FdtOverlayApply, IsPhandle,
      Comps, CStr;
    var m, o' := Outcome(b, o), Final(b, o);
    SkippedUpdate(b, o);
    SymbolsNode(b, o, y);
    assert LabelsAim(b, o, Labels(o), SYMBOLS, y, []) by { NoAim(b, o, SYMBOLS, y, []); }
    FinalValue(b, o, SYMBOLS, y, []);
    FinalIs(b, o);
    SkelHas(o', o, []);
    ResultAt(b, o, [], []);
    if HasSub(o', SYMBOLS) {
      var r := WithSub(m, SYMBOLS);
      WithSymbolsTouches(m, []);
      TouchedRoot(m, r, [], []);
      TouchedSame(m, [Meant(m, SYMBOLS)], y);
      SubIsMeant(r, SYMBOLS);
      WithSubHas(m);
      PutOthers(r, o', Meant(r, SYMBOLS), SubBody(o', SYMBOLS), y);
    }
  }

  // ----- When the update succeeds -----

  /** If the path w lies in a fragment the overlay has it, and it has an __overlay__ node. */
  ghost predicate FragmentHas(o: Forest, w: Str) {
    forall f, rel | InText(w, f, rel) :: HasSub(o, f) && HasSub(SubBody(o, f), OVERLAY)
  }

  /** The value d is the text of an absolute path, and if that lies in a fragment the overlay has that fragment. */
  ghost predicate LabelText(o: Forest, d: Str) {
    && d != [] && d[0] == SLASH && d[|d| - 1] == 0 && 0 !in d[..|d| - 1]
    && FragmentHas(o, d[..|d| - 1])
  }

  lemma {:induction false} CStrAll(d: Str)
    requires d != []
    ensures |CStr(d)| == |d| - 1 <==> d[|d| - 1] == 0 && 0 !in d[..|d| - 1]
    ensures |CStr(d)| == |d| - 1 ==> CStr(d) == d[..|d| - 1]
  {
    if |d| > 1 {
      assert d[1..][..|d| - 2] == d[1..|d| - 1];
      assert d[..|d| - 1] == [d[0]] + d[1..|d| - 1];
      CStrAll(d[1..]);
    } else {
      assert d[1..] == [];
    }
  }

  /** A label is accepted exactly if its text is as it should be. */
  lemma ValueAccepted(b: Forest, o: Forest, goals: Goals, N: Names, r: Forest, d: Str)
    requires Applies(b, o) && Guarded(b, o, goals, N) && Onward(b, o, goals, N, r)
    ensures SymbolValue(r, Final(b, o), d).Ok? <==> LabelText(o, d)
  {
    hide Applies, Guarded, Final, NodeAt, Onward, CStr, SymbolPlace, Skel, Uniq, Adopted, Mid, Settled, HasSub, SubBody,
      Target, KidAt;
    if d != [] && d[0] == SLASH {
      CStrAll(d);
      CStrFree(d);
      FinalIs(b, o);
      var w, o' := d[..|d| - 1], Final(b, o);
      if |CStr(d)| == |d| - 1 {
        forall f, rel
          ensures SymbolPlace(w) == Some(Place(f, rel)) <==> InText(w, f, rel)
        {
          PlaceIs(w, f, rel);
        }
        if SymbolPlace(w).Some? {
          var e := SymbolPlace(w).value;
          assert InText(w, e.fragment, e.rel);
          SkelHas(o', o, e.fragment);
          if HasSub(o', e.fragment) {
            SkelHas(SubBody(o', e.fragment), SubBody(o, e.fragment), OVERLAY);
            if HasSub(SubBody(o', e.fragment), OVERLAY) {
              var f := FragmentFound(b, o, e.fragment);
              TargetAgain(b, o, goals, N, f, r);
              TextThere(r, SubBody(o', e.fragment));
            }
          }
        }
      }
    }
  }

  lemma TextThere(r: Forest, k: Forest)
    requires Target(r, k).Ok?
    ensures TargetText(r, k).Ok?
  {
    hide PathStr, PhandlePath, Lookup;
  }

  ghost predicate AllText(o: Forest, syms: Forest) {
    forall y | HasProp(syms, y) :: LabelText(o, PropData(syms, y))
  }

  lemma AllTextRest(o: Forest, syms: Forest)
    requires Uniq(syms)
    ensures match syms
            case PropF(_, d, r) => AllText(o, syms) <==> LabelText(o, d) && AllText(o, r)
            case NopF(r) => AllText(o, syms) <==> AllText(o, r)
            case _ => AllText(o, syms)
  {
    hide LabelText;
    match syms
    case PropF(z, d, r) =>
      assert HasProp(syms, z) && PropData(syms, z) == d;
      assert forall i | HasProp(r, i) :: i != z && HasProp(syms, i) && PropData(syms, i) == PropData(r, i);
      assert forall i | HasProp(syms, i) :: i == z || HasProp(r, i);
    case NopF(r) =>
      assert forall i | HasProp(r, i) :: HasProp(syms, i) && PropData(syms, i) == PropData(r, i);
      assert forall i | HasProp(syms, i) :: HasProp(r, i);
    case _ =>
  }

  lemma {:induction false} PutAccepted(b: Forest, o: Forest, goals: Goals, N: Names, r: Forest, sym: Str, syms: Forest)
    requires Applies(b, o) && Guarded(b, o, goals, N) && Onward(b, o, goals, N, r) && KidAt(r, sym).Some?
    requires Uniq(syms) && NoPhandles(syms) && [sym] != AliasesAt(b)
    ensures PutSymbols(r, Final(b, o), sym, syms).Ok? <==> AllText(o, syms)
    decreases syms
  {
    hide Applies, Guarded, Final, Outcome, Onward, KidAt, SymbolValue, WithSymbol, AliasesAt, LabelText, ValueAt, Ph,
      Meant, SymbolSet, AllText;
    AllTextRest(o, syms);
    match syms
    case PropF(z, d, t) =>
      assert HasProp(syms, z) && forall i | HasProp(t, i) :: HasProp(syms, i);
      ValueAccepted(b, o, goals, N, r, d);
      if SymbolValue(r, Final(b, o), d).Ok? {
        OneSymbol(b, o, goals, N, r, sym, z, d, [], []);
        PutAccepted(b, o, goals, N, WithSymbol(r, sym, z, SymbolValue(r, Final(b, o), d).v), sym, t);
      }
    case NopF(t) =>
      assert forall i | HasProp(t, i) :: HasProp(syms, i);
      PutAccepted(b, o, goals, N, r, sym, t);
    case _ =>
  }

  lemma SymbolsText(b: Forest, o: Forest)
    requires Applies(b, o) && LabelsSound(o)
    ensures (forall y | ValueAt(Final(b, o), [SYMBOLS], y).Some? ::
               LabelText(o, ValueAt(Final(b, o), [SYMBOLS], y).value)) <==>
            !HasSub(Final(b, o), SYMBOLS) || AllText(o, SubBody(Final(b, o), SYMBOLS))
  {
    hide Applies, Final, ValueAt, HasSub, SubBody, LabelsSound, LabelText, NoPhandles, Uniq;
    SymbolsNode(b, o, []);
    forall y
      ensures ValueAt(Final(b, o), [SYMBOLS], y) ==
              if HasSub(o, SYMBOLS) then Data(SubBody(Final(b, o), SYMBOLS), y) else None
    {
      SymbolsNode(b, o, y);
    }
    if HasSub(o, SYMBOLS) {
      var syms := SubBody(Final(b, o), SYMBOLS);
      assert forall y :: HasProp(syms, y) <==> ValueAt(Final(b, o), [SYMBOLS], y).Some?;
      assert forall y | HasProp(syms, y) :: PropData(syms, y) == ValueAt(Final(b, o), [SYMBOLS], y).value;
    }
  }

  /** When the merge has succeeded, fdt_overlay_apply succeeds exactly if every label's text is as it should be. */
  lemma UpdateAccepted(b: Forest, o: Forest, goals: Goals, N: Names)
    requires Applies(b, o) && Guarded(b, o, goals, N) && LabelsSound(o)
    ensures FdtOverlayApply(b, o).Ok? <==>
            forall y | ValueAt(Final(b, o), [SYMBOLS], y).Some? ::
              LabelText(o, ValueAt(Final(b, o), [SYMBOLS], y).value)
  {
    hide Applies, Guarded, Final, Outcome, Uniq, Meant, ValueAt, Onward, PutSymbols, KidAt, HasSub, SubBody, Touched,
      NoPhandles, LabelsSound, WithSub, AliasesAt, LabelText, AllText, FdtOverlayApply;
    SkippedUpdate(b, o);
    SymbolsText(b, o);
    SymbolsNode(b, o, []);
    OutcomeOnward(b, o, goals, N);
    var m, o' := Outcome(b, o), Final(b, o);
    if HasSub(o', SYMBOLS) {
      var r := WithSub(m, SYMBOLS);
      OnwardUniq(b, o, goals, N, m);
      WithSymbolsTouches(m, []);
      SymbolsPlain();
      RootNotAliases(b);
      OnwardTouched(b, o, goals, N, m, r, [], []);
      SubIsMeant(r, SYMBOLS);
      WithSubHas(m);
      SymbolsApart(b, r);
      PutAccepted(b, o, goals, N, r, Meant(r, SYMBOLS), SubBody(o', SYMBOLS));
    }
  }
}
