/**
 * overlay_symbol_update (libs/libfdt/fdt_overlay.c): the labels of the overlay, put into the __symbols__ node of the
 * base, where later overlays look for them, each with the path of the node it stands for now.
 */
module Symbols {
  import opened Bytes
  import opened Tree
  import opened Encoding
  import opened Positions
  import opened Edits
  import opened Merge
  import opened Sem
  import opened Overlay
  import opened OverlaySteps
  import opened Skeleton
  import opened Refs
  import opened Conflicts
  import opened Lookups
  import opened Merged
  import opened Steady
  import opened OverlayProof
  import opened Targets
  import opened Paths

  // ----- The code -----

  /** Which fragment a path of the overlay is in, and the path below its __overlay__ node. */
  datatype Place = Place(fragment: Str, rel: Str)

  const IN_OVERLAY: Str := [SLASH] + OVERLAY  // /__overlay__

  /** /fragment/__overlay__/rel or /fragment/__overlay__; anything else does not end up in the base. */
  function SymbolPlace(w: Str): Option<Place>
    requires w != []
  {
    var i := 1 + Word(w[1..]);
    var n := |IN_OVERLAY|;
    if |w| - i > n && w[i..i + n] == IN_OVERLAY && w[i + n] == SLASH then Some(Place(w[1..i], w[i + n + 1..]))
    else if w[i..] == IN_OVERLAY then Some(Place(w[1..i], []))
    else None
  }

  /**
   * The path of the target of the fragment with content k: as target-path has it, or else as fdt_get_path writes it.
   */
  function TargetText(m: Forest, k: Forest): Res<Str> {
    var t :- Target(m, k);
    if HasProp(k, TARGET) && |PropData(k, TARGET)| == 4 && Get32(PropData(k, TARGET), 0) != 0 then Ok(PathStr([[]] + t))
    else if HasProp(k, TARGET_PATH) then Ok(CStr(PropData(k, TARGET_PATH)))
    else Err(-BADOVERLAY)
  }

  /** The path of the target and below it rel; a path of one character is taken for that of the root. */
  function SymbolText(target: Str, rel: Str): Str {
    (if |target| > 1 then target else []) + [SLASH] + rel
  }

  /** The new value of a symbol that the overlay o gives the value d, if it stands for a node of the base m. */
  function SymbolValue(m: Forest, o: Forest, d: Str): Res<Option<Str>> {
    if d == [] || |CStr(d)| != |d| - 1 || d[0] != SLASH then Err(-BADVALUE) else
      match SymbolPlace(CStr(d))
      case None => Ok(None)
      case Some(e) =>
        if !HasSub(o, e.fragment) || !HasSub(SubBody(o, e.fragment), OVERLAY) then Err(-BADOVERLAY) else
          var target :- TargetText(m, SubBody(o, e.fragment));
          Ok(Some(SymbolText(target, e.rel) + [0]))
  }

  /** The loop: syms is what is left of the overlay's symbols, sym the name of the symbols node of m. */
  function PutSymbols(m: Forest, o: Forest, sym: Str, syms: Forest): Res<Forest>
    requires KidAt(m, sym).Some?
    decreases syms
  {
    match syms
    case PropF(y, d, r) =>
      var v :- SymbolValue(m, o, d);
      PutSymbols(WithSymbol(m, sym, y, v), o, sym, r)
    case NopF(r) => PutSymbols(m, o, sym, r)
    case _ => Ok(m)
  }

  function WithSymbol(m: Forest, sym: Str, y: Str, v: Option<Str>): (r: Forest)
    requires KidAt(m, sym).Some?
    ensures KidAt(r, sym).Some?
  {
    match v
    case None => m
    case Some(e) =>
      var k := SetProp(KidAt(m, sym).value, y, e);
      PutKidKids(m, sym, k, sym, [], {});
      PutKid(m, sym, k)
  }

  function SymbolUpdate(m: Forest, o: Forest): Res<Forest> {
    if !HasSub(o, SYMBOLS) then Ok(m) else
      SubIsMeant(WithSub(m, SYMBOLS), SYMBOLS);
      PutSymbols(WithSub(m, SYMBOLS), o, Meant(WithSub(m, SYMBOLS), SYMBOLS), SubBody(o, SYMBOLS))
  }

  /** fdt_overlay_apply. */
  function FdtOverlayApply(b: Forest, o: Forest): Res<Forest> {
    var o' :- Prepare(b, o);
    var m :- MergeAll(b, o');
    SymbolUpdate(m, o')
  }

  // ----- Paths as text -----

  lemma CutAfter(w: Str, a: Str)
    requires |w| > |a| && w[..|a|] == a && w[|a|] == SLASH
    ensures w == a + ([SLASH] + w[|a| + 1..])
  {
  }

  lemma PartsText(w: Str, f: Str, rest: Str)
    requires w != [] && w[0] == SLASH && f == w[1..1 + Word(w[1..])] && rest == w[1 + Word(w[1..])..]
    ensures w == [SLASH] + (f + rest) && SLASH !in f && w[1..] == f + rest
    ensures rest == [] || rest[0] == SLASH
  {
    WordFree(w[1..]);
    assert f == w[1..][..Word(w[1..])];
  }

  lemma PartsRest(w: Str)
    requires w != [] && SymbolPlace(w).Some?
    ensures var e, i := SymbolPlace(w).value, 1 + Word(w[1..]);
            && e.fragment == w[1..i]
            && (w[i..] == IN_OVERLAY + ([SLASH] + e.rel) || (w[i..] == IN_OVERLAY + [] && e.rel == []))
  {
    hide Word;
    var i := 1 + Word(w[1..]);
    if w[i..] == IN_OVERLAY {
      assert IN_OVERLAY + [] == IN_OVERLAY;
    } else {
      var n := |IN_OVERLAY|;
      assert w[i..][..n] == w[i..i + n] && w[i..][n + 1..] == w[i + n + 1..];
      CutAfter(w[i..], IN_OVERLAY);
    }
  }

  /** A path as text is cut up where its names begin and end. */
  lemma PartsAre(w: Str)
    requires w != [] && w[0] == SLASH && SymbolPlace(w).Some?
    ensures var e := SymbolPlace(w).value;
            Comps(w) == (if e.fragment == [] then [] else [e.fragment]) + ([OVERLAY] + Comps(e.rel))
  {
    hide Comps, SymbolPlace, Word;
    var e := SymbolPlace(w).value;
    var rest := w[1 + Word(w[1..])..];
    PartsRest(w);
    PartsText(w, e.fragment, rest);
    OverlayComps(e.rel, if rest == IN_OVERLAY + [] then [] else [SLASH] + e.rel);
    FirstComp(w, e.fragment, rest);
  }

  lemma FirstComp(w: Str, f: Str, rest: Str)
    requires w == [SLASH] + (f + rest) && SLASH !in f && rest != [] && rest[0] == SLASH
    ensures Comps(w) == (if f == [] then [] else [f]) + Comps(rest)
  {
    hide Comps;
    if f == [] {
      assert w == [SLASH] + rest && w[1..] == rest;
      CompsSkip(w);
    } else {
      OneComp(f, rest);
    }
  }

  lemma OverlayComps(rel: Str, more: Str)
    requires more == [SLASH] + rel || (more == [] && rel == [])
    ensures Comps(IN_OVERLAY + more) == [OVERLAY] + Comps(rel)
  {
    hide Comps;
    assert IN_OVERLAY + more == [SLASH] + (OVERLAY + more);
    assert Proper(OVERLAY);
    OneComp(OVERLAY, more);
    if more != [] {
      CompsSkip(more);
      assert more[1..] == rel;
    }
  }

  lemma {:induction false} WordMore(w: Str, more: Str)
    requires more != [] && more[0] == SLASH
    ensures Word(w + more) == Word(w)
  {
    if w == [] {
      assert w + more == more;
    } else if w[0] != SLASH {
      assert (w + more)[1..] == w[1..] + more;
      WordMore(w[1..], more);
    }
  }

  lemma AliasMore(r: Forest, w: Str, more: Str)
    requires PathNames(r, w).Ok? && w[0] != SLASH && more != [] && more[0] == SLASH
    ensures PathNames(r, w + more) == Ok(PathNames(r, w).v + Comps(more))
  {
    hide Comps, Word, AliasNames;
    WordMore(w, more);
    var i := Word(w);
    CutMore(w, more, i);
    CompsCat(w[i..], more);
    AliasRest(r, w[..i], Comps(w[i..]), Comps(more));
  }

  lemma CutMore(w: Str, more: Str, i: nat)
    requires i <= |w|
    ensures (w + more)[..i] == w[..i] && (w + more)[i..] == w[i..] + more
  {
  }

  lemma AliasRest(r: Forest, name: Str, rest: seq<Str>, more: seq<Str>)
    requires AliasNames(r, name, rest).Ok?
    ensures AliasNames(r, name, rest + more) == Ok(AliasNames(r, name, rest).v + more)
  {
    hide Comps, CStr, AliasValue;
    var a := Comps(CStr(AliasValue(r, name).value));
    assert a + (rest + more) == (a + rest) + more;
  }

  /**
   * The path of a target, with rel added, leads through the names of both; but it is not added to a single character.
   */
  lemma TextNames(r: Forest, w: Str, rel: Str)
    requires PathNames(r, w).Ok?
    ensures PathNames(r, SymbolText(w, rel)) == Ok((if |w| > 1 then PathNames(r, w).v else []) + Comps(rel))
    ensures w != [] && (|w| == 1 && w[0] == SLASH ==> PathNames(r, w) == Ok([]))
  {
    hide Comps, CStr, Word, AliasValue;
    var more := [SLASH] + rel;
    CompsSkip(more);
    assert more[1..] == rel;
    NoComps();
    if |w| == 1 {
      assert SymbolText(w, rel) == more && [] + Comps(rel) == Comps(rel);
      if w[0] == SLASH {
        CompsSkip(w);
        assert w[1..] == [];
      }
    } else {
      assert SymbolText(w, rel) == w + more;
      if w[0] == SLASH {
        CompsCat(w, more);
      } else {
        AliasMore(r, w, more);
      }
    }
  }

  lemma {:induction false} CStrStops(s: Str, rest: Str)
    requires 0 !in s
    ensures CStr(s + [0] + rest) == s
  {
    var d := s + [0] + rest;
    if s != [] {
      assert d[1..] == s[1..] + [0] + rest;
      CStrStops(s[1..], rest);
    }
  }

  lemma {:induction false} CStrFree(d: Str)
    ensures 0 !in CStr(d) && |CStr(d)| <= |d| && CStr(d) == d[..|CStr(d)|]
    ensures d != [] && d[0] != 0 ==> CStr(d) != []
  {
    if d != [] && d[0] != 0 {
      CStrFree(d[1..]);
    }
  }

  // ----- What the update changes -----

  /** r' has the nodes of r and perhaps more, and the same values but for property y at path q. */
  ghost predicate Touched(r: Forest, r': Forest, q: Path, y: Str) {
    && Uniq(r') && (forall p | NodeAt(r, p).Some? :: NodeAt(r', p).Some?)
    && (forall p, n :: Meant(NodeOr(r', p), n) == Meant(NodeOr(r, p), n))
    && (forall p, n | HasSub(NodeOr(r, p), n) :: HasSub(NodeOr(r', p), n))
    && (forall p, x | p != q || x != y :: ValueAt(r', p, x) == ValueAt(r, p, x))
  }

  lemma TouchedGrown(b: Forest, o: Forest, goals: Goals, N: Names, r: Forest, r': Forest, q: Path, y: Str)
    requires Grown(b, o, goals, N, r) && Touched(r, r', q, y) && !IsPhandle(y) && q != AliasesAt(b)
    ensures Grown(b, o, goals, N, r')
  {
    hide Uniq, NodeAt, NodeOr, Meant, Ph, ValueAt, HasSub, Unset, AliasesAt;
    forall p
      ensures Ph(r', p) == Ph(r, p)
    {
      PhIs(r, p);
      PhIs(r', p);
    }
  }

  lemma {:induction false} SetPropMeant(b: Forest, y: Str, e: Str, n: Str)
    ensures Meant(SetProp(b, y, e), n) == Meant(b, n) && HasSub(SetProp(b, y, e), n) == HasSub(b, n)
  {
    if HasProp(b, y) {
      PutPropMeant(b, y, e, n);
    }
  }

  lemma SetPropNodes(b: Forest, y: Str, e: Str, p: Path)
    ensures p != [] ==> NodeAt(SetProp(b, y, e), p) == NodeAt(b, p)
  {
    if p != [] {
      SetPropKids(b, y, e, p[0], {});
    }
  }

  lemma SetPropUniq(b: Forest, y: Str, e: Str)
    requires Uniq(b)
    ensures Uniq(SetProp(b, y, e))
  {
    if HasProp(b, y) {
      PutPropUniq(b, y, e, y);
    }
  }

  lemma PutSymbolAt(r: Forest, sym: Str, y: Str, e: Str, p: Path, n: Str, x: Str)
    requires KidAt(r, sym).Some?
    ensures var r' := WithSymbol(r, sym, y, Some(e));
            && NodeAt(r', p).Some? == NodeAt(r, p).Some? && Meant(NodeOr(r', p), n) == Meant(NodeOr(r, p), n)
            && HasSub(NodeOr(r', p), n) == HasSub(NodeOr(r, p), n)
            && ValueAt(r', p, x) == if p == [sym] && x == y then Some(e) else ValueAt(r, p, x)
  {
    hide Meant, HasSub, SetProp, PutKid, PutAt;
    var k := KidAt(r, sym).value;
    var k' := SetProp(k, y, e);
    KidIsNode(r, sym);
    assert PutAt(r, [sym], k') == WithSymbol(r, sym, y, Some(e)) by { PutOne(r, sym, k'); }
    PutAtValue(r, [sym], k', p, x);
    PutAtMeant(r, [sym], k', p, n);
    if [sym] <= p {
      NodeBelow(r, [sym], p);
      SetPropNodes(k, y, e, p[1..]);
      SetPropData(k, y, e, x);
      SetPropMeant(k, y, e, n);
      assert p == [sym] + p[1..];
    }
  }

  lemma PutOne(r: Forest, sym: Str, k: Forest)
    requires KidAt(r, sym).Some?
    ensures NodeAt(r, [sym]).Some? && PutAt(r, [sym], k) == PutKid(r, sym, k)
  {
    KidIsNode(r, sym);
    assert [sym][1..] == [];
  }

  lemma PutSymbolTouches(r: Forest, sym: Str, y: Str, v: Option<Str>)
    requires KidAt(r, sym).Some? && Uniq(r)
    ensures Touched(r, WithSymbol(r, sym, y, v), [sym], y)
    ensures v.Some? ==> ValueAt(WithSymbol(r, sym, y, v), [sym], y) == v
  {
    hide Meant, HasSub, Uniq, NodeOr, ValueAt, NodeAt;
    if v.Some? {
      PutSymbolUniq(r, sym, y, v.value);
      PutSymbolAt(r, sym, y, v.value, [sym], [], y);
      hide WithSymbol;
      var r' := WithSymbol(r, sym, y, v);
      forall p | NodeAt(r, p).Some?
        ensures NodeAt(r', p).Some?
      {
        PutSymbolAt(r, sym, y, v.value, p, [], []);
      }
      forall p, n
        ensures Meant(NodeOr(r', p), n) == Meant(NodeOr(r, p), n) && HasSub(NodeOr(r', p), n) == HasSub(NodeOr(r, p), n)
      {
        PutSymbolAt(r, sym, y, v.value, p, n, []);
      }
      forall p, x | p != [sym] || x != y
        ensures ValueAt(r', p, x) == ValueAt(r, p, x)
      {
        PutSymbolAt(r, sym, y, v.value, p, [], x);
      }
    }
  }

  lemma PutSymbolUniq(r: Forest, sym: Str, y: Str, e: Str)
    requires KidAt(r, sym).Some? && Uniq(r)
    ensures Uniq(WithSymbol(r, sym, y, Some(e)))
  {
    KidUniq(r, sym);
    SetPropUniq(KidAt(r, sym).value, y, e);
    PutKidUniq(r, sym, SetProp(KidAt(r, sym).value, y, e), []);
  }

  lemma SymbolsNoUnit(n: Str)
    requires NodeNameEq(SYMBOLS, n)
    ensures n == SYMBOLS
  {
    assert SYMBOLS[..11] == SYMBOLS && '@' as int !in SYMBOLS;
  }

  lemma WithSymbolsAt(r: Forest, p: Path, n: Str, x: Str)
    ensures var r' := WithSub(r, SYMBOLS);
            && (NodeAt(r, p).Some? ==> NodeAt(r', p).Some?) && Meant(NodeOr(r', p), n) == Meant(NodeOr(r, p), n)
            && (HasSub(NodeOr(r, p), n) ==> HasSub(NodeOr(r', p), n))
            && ValueAt(r', p, x) == ValueAt(r, p, x)
  {
    if !HasSub(r, SYMBOLS) {
      SubIsMeant(r, SYMBOLS);
      AddSubMeant(r, SYMBOLS, if p == [] then n else p[0]);
      SubsKeepData(r, SYMBOLS, Nil, x);
      if p == [] {
        if NodeNameEq(SYMBOLS, n) {
          SymbolsNoUnit(n);
        }
      } else {
        NilAt(p[1..], x);
      }
    }
  }

  /** The node __symbols__ is there in the end, and making it changes nothing else. */
  lemma WithSymbolsTouches(r: Forest, y: Str)
    requires Uniq(r)
    ensures Touched(r, WithSub(r, SYMBOLS), [], y)
  {
    hide Meant, Uniq, NodeOr, ValueAt, NodeAt, HasSub;
    var r' := WithSub(r, SYMBOLS);
    forall p | NodeAt(r, p).Some?
      ensures NodeAt(r', p).Some?
    {
      WithSymbolsAt(r, p, [], []);
    }
    forall p, n
      ensures Meant(NodeOr(r', p), n) == Meant(NodeOr(r, p), n)
              && (HasSub(NodeOr(r, p), n) ==> HasSub(NodeOr(r', p), n))
    {
      WithSymbolsAt(r, p, n, []);
    }
    forall p, x
      ensures ValueAt(r', p, x) == ValueAt(r, p, x)
    {
      WithSymbolsAt(r, p, [], x);
    }
    if !HasSub(r, SYMBOLS) {
      AddSubUniq(r, SYMBOLS, []);
    }
  }

  // ----- The symbols that are written -----

  /** r is the result of the merge, perhaps with some symbols already written. */
  ghost predicate Onward(b: Forest, o: Forest, goals: Goals, N: Names, r: Forest) {
    Grown(b, o, goals, N, r) && forall p | NodeAt(Outcome(b, o), p).Some? :: NodeAt(r, p).Some?
  }

  lemma OnwardTouched(b: Forest, o: Forest, goals: Goals, N: Names, r: Forest, r': Forest, q: Path, y: Str)
    requires Onward(b, o, goals, N, r) && Touched(r, r', q, y) && !IsPhandle(y) && q != AliasesAt(b)
    ensures Onward(b, o, goals, N, r')
  {
    hide Grown, NodeAt, Outcome, Uniq, Meant, ValueAt, NodeOr, HasSub;
    TouchedGrown(b, o, goals, N, r, r', q, y);
  }

  /** The target that is looked up again is the one the fragment was merged into. */
  lemma TargetAgain(b: Forest, o: Forest, goals: Goals, N: Names, f: Str, r: Forest)
    requires Applies(b, o) && Guarded(b, o, goals, N) && NodeAt(o, [f, OVERLAY]).Some? && Onward(b, o, goals, N, r)
    ensures KidAt(Final(b, o), f).Some? && Target(r, KidAt(Final(b, o), f).value) == Ok(goals[f])
            && NodeAt(r, goals[f]).Some?
  {
    hide Applies, TargetLeads, Suits, Settled, Final, Outcome, NodeAt, Grown, Leads, Target, Readable, Merges, Before,
      MergedPath, MatchedPh, Uniq, PhandlesApart,
      Ph, Into, NodeOr;
    Stages(b, o);
    FinalLeads(b, o, goals, N, f, goals[f]);
    NodeMerged(b, o, [f, OVERLAY]);
    GuardedGoes(b, o, goals, N, [f, OVERLAY]);
    RootInto(NodeOr(b, goals[f]));
    assert [f, OVERLAY][2..] == [] && goals[f] + [] == goals[f];
    var c := Before(b, Final(b, o), f);
    MergesReads(c, KidAt(Final(b, o), f).value);
    ReadableSame(c, KidAt(Settled(b, o), f).value);
    LeadsGrown(b, o, goals, N, r, KidAt(Settled(b, o), f).value, goals[f]);
  }

  /** Whatever symbols have been written, the next one is written as if it were the first. */
  lemma SameValue(b: Forest, o: Forest, goals: Goals, N: Names, r: Forest, d: Str)
    requires Applies(b, o) && Guarded(b, o, goals, N) && Onward(b, o, goals, N, r)
    ensures SymbolValue(r, Final(b, o), d) == SymbolValue(Outcome(b, o), Final(b, o), d)
  {
    hide Applies, Guarded, Final, Outcome, Onward, CStr, SymbolPlace, Target, NodeAt, Uniq, Skel, Adopted, Mid, Settled,
      Ph, HasSub, SubBody;
    CStrFree(d);
    if d != [] && d[0] == SLASH && SymbolPlace(CStr(d)).Some? {
      var e := SymbolPlace(CStr(d)).value;
      var o' := Final(b, o);
      if HasSub(o', e.fragment) && HasSub(SubBody(o', e.fragment), OVERLAY) {
        var f := FragmentFound(b, o, e.fragment);
        OutcomeOnward(b, o, goals, N);
        TargetAgain(b, o, goals, N, f, r);
        TargetAgain(b, o, goals, N, f, Outcome(b, o));
      }
    }
  }

  lemma FragmentFound(b: Forest, o: Forest, n: Str) returns (f: Str)
    requires Applies(b, o) && HasSub(Final(b, o), n) && HasSub(SubBody(Final(b, o), n), OVERLAY)
    ensures f == Meant(Final(b, o), n)
    ensures KidAt(Final(b, o), f) == Some(SubBody(Final(b, o), n)) && NodeAt(o, [f, OVERLAY]).Some?
  {
    hide Applies, Final, NodeAt, Uniq, Skel, Adopted, Mid, Settled, Ph, HasSub, SubBody, Meant;
    FinalIs(b, o);
    SubIsMeant(Final(b, o), n);
    f := Meant(Final(b, o), n);
    OwnSub(SubBody(Final(b, o), n), OVERLAY);
    ThroughKid(Final(b, o), f);
    SkelNode(Final(b, o), o, [f, OVERLAY]);
  }

  lemma OutcomeOnward(b: Forest, o: Forest, goals: Goals, N: Names)
    requires Applies(b, o) && Guarded(b, o, goals, N)
    ensures Onward(b, o, goals, N, Outcome(b, o))
  {
    hide Applies, Guarded, Grown, Outcome;
    ResultGrown(b, o, goals, N, []);
  }

  // ----- All symbols -----

  /** No symbol in syms is called phandle. */
  ghost predicate NoPhandles(syms: Forest) {
    forall y | HasProp(syms, y) :: !IsPhandle(y)
  }

  /**
   * The value of the symbol y, which was v, is v' now: the one made from the path that syms has for it, if that is the
   * path of a node of a fragment, else v.
   */
  ghost predicate SymbolSet(b: Forest, o: Forest, syms: Forest, y: Str, v: Option<Str>, v': Option<Str>) {
    if Data(syms, y).None? then v' == v else
      var e := SymbolValue(Outcome(b, o), Final(b, o), Data(syms, y).value);
      e.Ok? && v' == Over(e.v, v)
  }

  lemma OneSymbol(b: Forest, o: Forest, goals: Goals, N: Names, r: Forest, sym: Str, z: Str, d: Str, p: Path, y: Str)
    requires Applies(b, o) && Guarded(b, o, goals, N) && Onward(b, o, goals, N, r) && KidAt(r, sym).Some?
    requires !IsPhandle(z) && [sym] != AliasesAt(b) && SymbolValue(r, Final(b, o), d).Ok?
    ensures var r' := WithSymbol(r, sym, z, SymbolValue(r, Final(b, o), d).v);
            && Onward(b, o, goals, N, r') && Meant(r', SYMBOLS) == Meant(r, SYMBOLS) && Ph(r', p) == Ph(r, p)
            && (p != [sym] || y != z ==> ValueAt(r', p, y) == ValueAt(r, p, y))
            && SymbolSet(b, o, PropF(z, d, Nil), z, ValueAt(r, [sym], z), ValueAt(r', [sym], z))
  {
    hide Applies, Guarded, Final, KidAt, Meant, Ph, ValueAt, SymbolValue, WithSymbol, NodeOr, NodeAt, Outcome, Stable,
      Grown, AliasesAt, HasSub;
    SameValue(b, o, goals, N, r, d);
    var v := SymbolValue(r, Final(b, o), d).v;
    var r' := WithSymbol(r, sym, z, v);
    assert Uniq(r) by { OnwardUniq(b, o, goals, N, r); }
    PutSymbolTouches(r, sym, z, v);
    OnwardTouched(b, o, goals, N, r, r', [sym], z);
    TouchedRoot(r, r', [sym], z);
    PhIs(r, p);
    PhIs(r', p);
    NothingPut(r, sym, z);
  }

  lemma OnwardUniq(b: Forest, o: Forest, goals: Goals, N: Names, r: Forest)
    requires Onward(b, o, goals, N, r)
    ensures Uniq(r)
  {
  }

  lemma NothingPut(r: Forest, sym: Str, z: Str)
    requires KidAt(r, sym).Some?
    ensures WithSymbol(r, sym, z, None) == r
  {
  }

  lemma TouchedRoot(r: Forest, r': Forest, q: Path, y: Str)
    requires Touched(r, r', q, y)
    ensures forall n :: Meant(r', n) == Meant(r, n)
  {
    assert NodeOr(r, []) == r && NodeOr(r', []) == r';
  }

  lemma {:induction false} PutSymbolsHold(b: Forest, o: Forest, goals: Goals, N: Names, r: Forest, sym: Str,
      syms: Forest, p: Path, y: Str)
    requires Applies(b, o) && Guarded(b, o, goals, N) && Onward(b, o, goals, N, r) && KidAt(r, sym).Some?
    requires Uniq(syms) && NoPhandles(syms) && [sym] != AliasesAt(b) && PutSymbols(r, Final(b, o), sym, syms).Ok?
    ensures var r' := PutSymbols(r, Final(b, o), sym, syms).v;
            && Onward(b, o, goals, N, r') && Meant(r', SYMBOLS) == Meant(r, SYMBOLS) && Ph(r', p) == Ph(r, p)
            && (p != [sym] ==> ValueAt(r', p, y) == ValueAt(r, p, y))
            && SymbolSet(b, o, syms, y, ValueAt(r, [sym], y), ValueAt(r', [sym], y))
    decreases syms
  {
    hide Applies, Guarded, Final, Outcome, Onward, KidAt, Meant, Ph, ValueAt, SymbolValue, WithSymbol, Touched,
      AliasesAt;
    match syms
    case Nil =>
    case SubF(_, _, _) =>
    case NopF(t) =>
      assert forall z | HasProp(t, z) :: HasProp(syms, z) && PropData(syms, z) == PropData(t, z);
      PutSymbolsHold(b, o, goals, N, r, sym, t, p, y);
    case PropF(z, d, t) =>
      assert HasProp(syms, z) && PropData(syms, z) == d;
      assert forall i | HasProp(t, i) :: i != z && HasProp(syms, i) && PropData(syms, i) == PropData(t, i);
      OneSymbol(b, o, goals, N, r, sym, z, d, p, y);
      OneSymbol(b, o, goals, N, r, sym, z, d, [sym], y);
      PutSymbolsHold(b, o, goals, N, WithSymbol(r, sym, z, SymbolValue(r, Final(b, o), d).v), sym, t, p, y);
  }

  // ----- The update -----

  /** The overlay's labels are found under their own name, and none is called phandle. */
  ghost predicate LabelsSound(o: Forest) {
    OwnName(o, SYMBOLS) && forall y | ValueAt(o, [SYMBOLS], y).Some? :: !IsPhandle(y)
  }

  /** The overlay's symbols, when they are written. */
  lemma SymbolsNode(b: Forest, o: Forest, y: Str)
    requires Applies(b, o) && LabelsSound(o)
    ensures HasSub(Final(b, o), SYMBOLS) == HasSub(o, SYMBOLS)
    ensures HasSub(o, SYMBOLS) ==> Uniq(SubBody(Final(b, o), SYMBOLS)) && NoPhandles(SubBody(Final(b, o), SYMBOLS))
    ensures ValueAt(Final(b, o), [SYMBOLS], y) == if HasSub(o, SYMBOLS) then Data(SubBody(Final(b, o), SYMBOLS), y)
            else None
  {
    hide Applies, Final, Settled, Uniq, HasSub, SubBody, Mid, Adopted, Ph, Skel, ValueAt, Data, NodeAt, IsPhandle,
      OwnName, AllOwn;
    FinalIs(b, o);
    SkelMeant(o, Final(b, o), SYMBOLS);
    SkelHas(Final(b, o), o, SYMBOLS);
    OwnSame(o, Final(b, o), SYMBOLS);
    if HasSub(o, SYMBOLS) {
      KidValue(Final(b, o), SYMBOLS, y);
      forall z | HasProp(SubBody(Final(b, o), SYMBOLS), z)
        ensures !IsPhandle(z)
      {
        KidValue(Final(b, o), SYMBOLS, z);
        DataIs(SubBody(Final(b, o), SYMBOLS), z);
        SkelValue(Final(b, o), o, [SYMBOLS], z);
      }
    } else {
      NoKidValue(Final(b, o), SYMBOLS, y);
    }
  }

  lemma OwnSame(o: Forest, o': Forest, n: Str)
    requires OwnName(o, n) && Meant(o', n) == Meant(o, n)
    ensures OwnName(o', n)
  {
  }

  lemma NoKidValue(o: Forest, n: Str, y: Str)
    requires OwnName(o, n) && !HasSub(o, n)
    ensures ValueAt(o, [n], y) == None
  {
    OwnSub(o, n);
  }

  lemma DataIs(k: Forest, y: Str)
    ensures Data(k, y).Some? <==> HasProp(k, y)
    ensures Data(k, y).Some? ==> Data(k, y).value == PropData(k, y)
  {
  }

  lemma TouchedSame(m: Forest, p: Path, y: Str)
    ensures ValueAt(WithSub(m, SYMBOLS), p, y) == ValueAt(m, p, y) && Ph(WithSub(m, SYMBOLS), p) == Ph(m, p)
  {
    hide ValueAt, Ph, WithSub, NodeAt;
    WithSymbolsAt(m, p, [], y);
    WithSymbolsAt(m, p, [], PHANDLE);
    WithSymbolsAt(m, p, [], LINUX_PHANDLE);
    PhIs(m, p);
    PhIs(WithSub(m, SYMBOLS), p);
  }

  lemma SymbolsApart(b: Forest, m: Forest)
    ensures [Meant(m, SYMBOLS)] != AliasesAt(b)
  {
    SubIsMeant(m, SYMBOLS);
    SubIsMeant(b, ALIASES);
    assert NodeNameEq(SYMBOLS, SYMBOLS) && NodeNameEq(ALIASES, ALIASES);
    assert SYMBOLS[0] == 0x5f && ALIASES[0] == 0x61;
    assert Meant(m, SYMBOLS)[0] == 0x5f && Meant(b, ALIASES)[0] == 0x61;
  }

  /** The update keeps what the merge has made but for the symbols, and sets each that is in a fragment. */
  lemma UpdateHolds(b: Forest, o: Forest, goals: Goals, N: Names, p: Path, y: Str)
    requires Applies(b, o) && Guarded(b, o, goals, N) && LabelsSound(o) && FdtOverlayApply(b, o).Ok?
    ensures var m, r, sym := Outcome(b, o), FdtOverlayApply(b, o).v, Meant(Outcome(b, o), SYMBOLS);
            && Onward(b, o, goals, N, r) && Meant(r, SYMBOLS) == sym && Ph(r, p) == Ph(m, p)
            && (p != [sym] ==> ValueAt(r, p, y) == ValueAt(m, p, y))
            && (if ValueAt(Final(b, o), [SYMBOLS], y).None? then ValueAt(r, [sym], y) == ValueAt(m, [sym], y) else
                  var e := SymbolValue(m, Final(b, o), ValueAt(Final(b, o), [SYMBOLS], y).value);
                  e.Ok? && ValueAt(r, [sym], y) == Over(e.v, ValueAt(m, [sym], y)))
  {
    hide Guarded, Final, Settled, Outcome, Uniq, Meant, Ph, ValueAt, NodeAt, Onward, PutSymbols, Prevent, Resolved,
      MergeAll, KidAt, HasSub, SubBody, Touched,
      Sound, FixupsSound, PhandlesApart, NoPhandles, LabelsSound, SymbolValue, WithSub, AliasesAt;
    Stages(b, o);
    SymbolsNode(b, o, y);
    OutcomeOnward(b, o, goals, N);
    var m, o' := Outcome(b, o), Final(b, o);
    SkippedUpdate(b, o);
    if HasSub(o', SYMBOLS) {
      var r := WithSub(m, SYMBOLS);
      OnwardUniq(b, o, goals, N, m);
      WithSymbolsTouches(m, []);
      SymbolsPlain();
      RootNotAliases(b);
      OnwardTouched(b, o, goals, N, m, r, [], []);
      TouchedRoot(m, r, [], []);
      TouchedSame(m, p, y);
      TouchedSame(m, [Meant(m, SYMBOLS)], y);
      SubIsMeant(r, SYMBOLS);
      WithSubHas(m);
      SymbolsApart(b, r);
      PutSymbolsHold(b, o, goals, N, r, Meant(r, SYMBOLS), SubBody(o', SYMBOLS), p, y);
    }
  }

  lemma SkippedUpdate(b: Forest, o: Forest)
    requires Applies(b, o)
    ensures FdtOverlayApply(b, o) == SymbolUpdate(Outcome(b, o), Final(b, o))
  {
    hide Prevent, Resolved, MergeAll, Sound, FixupsSound, PhandlesApart, SymbolUpdate;
  }

  lemma WithSubHas(m: Forest)
    ensures HasSub(WithSub(m, SYMBOLS), SYMBOLS)
  {
    AddSubMeant(m, SYMBOLS, SYMBOLS);
    assert NodeNameEq(SYMBOLS, SYMBOLS);
  }

  lemma RootNotAliases(b: Forest)
    ensures [] != AliasesAt(b)
  {
  }

  lemma SymbolsPlain()
    ensures !IsPhandle([])
  {
  }

  /**
   * No two nodes of the base, with the overlay applied and its symbols added, share a phandle, and the base's are kept.
   */
  lemma UpdatedApart(b: Forest, o: Forest, goals: Goals, N: Names)
    requires Applies(b, o) && Guarded(b, o, goals, N) && LabelsSound(o) && FdtOverlayApply(b, o).Ok?
    ensures PhandlesApart(FdtOverlayApply(b, o).v) && BaseKept(b, FdtOverlayApply(b, o).v)
  {
    hide Applies, Guarded, LabelsSound, FdtOverlayApply, Outcome, Ph, Onward, ValueAt, HasSub, Final, Meant;
    GuardedSafe(b, o, goals, N);
    forall p
      ensures Ph(FdtOverlayApply(b, o).v, p) == Ph(Outcome(b, o), p)
    {
      UpdateHolds(b, o, goals, N, p, []);
    }
  }

  // ----- Symbols lead to their nodes -----

  /** The names that the path of the target of fragment f is made of. */
  ghost function Front(b: Forest, o: Forest, goals: Goals, f: Str): seq<Str>
    requires f in goals
  {
    if Pointed(b, o, goals, f) then goals[f] else
      match PathNames(b, TargetPath(o, f))
      case Ok(cs) => cs
      case Err(_) => []
  }

  /** The target-path of fragment f is one character and no slash. */
  ghost predicate Short(b: Forest, o: Forest, goals: Goals, f: Str)
    requires f in goals
  {
    !Pointed(b, o, goals, f) && |TargetPath(o, f)| == 1 && TargetPath(o, f)[0] != SLASH
  }

  /** The names t lead to the node with these names, and can be written as a path. */
  ghost predicate Spelled(b: Forest, t: Path) {
    Into(b, t) == t && forall n | n in t :: Proper(n) && 0 !in n
  }

  /** The names that lead to where the overlay node n is merged, from the root of the base, are all in N. */
  ghost predicate Traced(b: Forest, o: Forest, goals: Goals, N: Names, n: Path) {
    && InFragment(n) && NodeAt(o, n).Some? && OwnName(o, n[0]) && n[0] in goals
    && Along(b, Front(b, o, goals, n[0]) + n[2..], N)
    && (Pointed(b, o, goals, n[0]) ==> Spelled(b, goals[n[0]]))
  }

  /** The value d is the path of the node n, which is in a fragment. */
  predicate IsPathOf(d: Str, n: Path) {
    && CStr(d) != [] && SymbolPlace(CStr(d)).Some?
    && n == [SymbolPlace(CStr(d)).value.fragment, OVERLAY] + Comps(SymbolPlace(CStr(d)).value.rel)
  }

  lemma {:induction false} IntoCat(b: Forest, cs: Path, rs: Path)
    ensures Into(b, cs + rs) == Into(b, cs) + Into(NodeOr(b, Into(b, cs)), rs)
    decreases |cs|
  {
    hide Meant, KidOrNil;
    if cs == [] {
      assert cs + rs == rs && Into(b, cs) == [];
      assert Into(b, cs) + Into(NodeOr(b, []), rs) == Into(b, rs);
    } else {
      var m := Meant(b, cs[0]);
      var k := KidOrNil(b, m);
      assert (cs + rs)[0] == cs[0] && (cs + rs)[1..] == cs[1..] + rs;
      IntoCat(k, cs[1..], rs);
      KidIsOr(b, m);
      NodeOrBelow(b, [m], Into(k, cs[1..]));
      assert Into(b, cs) == [m] + Into(k, cs[1..]);
      assert Into(b, cs + rs) == [m] + (Into(k, cs[1..]) + Into(NodeOr(b, Into(b, cs)), rs));
    }
  }

  lemma {:induction false} FullFree(names: seq<Str>)
    requires forall n | n in names :: 0 !in n
    ensures 0 !in Full(names)
  {
    if names != [] {
      assert forall n | n in names[..|names| - 1] :: n in names;
      FullFree(names[..|names| - 1]);
      assert names[|names| - 1] in names;
    }
  }

  lemma {:induction false} SuffixFree(d: Str, i: nat)
    requires 0 !in d && i <= |d|
    ensures 0 !in d[i..]
  {
  }

  lemma RelFree(w: Str)
    requires w != [] && SymbolPlace(w).Some? && 0 !in w
    ensures 0 !in SymbolPlace(w).value.rel
  {
    hide Word;
    var i := 1 + Word(w[1..]);
    if i + |IN_OVERLAY| + 1 <= |w| {
      SuffixFree(w, i + |IN_OVERLAY| + 1);
    }
  }

  lemma SymbolRead(r: Forest, y: Str, v: Str)
    requires ValueAt(r, [Meant(r, SYMBOLS)], y) == Some(v)
    ensures HasSub(r, SYMBOLS) && HasProp(SubBody(r, SYMBOLS), y) && PropData(SubBody(r, SYMBOLS), y) == v
  {
    SubIsMeant(r, SYMBOLS);
    KidIsNode(r, Meant(r, SYMBOLS));
  }

  /** The text that is found for the target of a fragment. */
  lemma TextFound(b: Forest, o: Forest, goals: Goals, N: Names, f: Str, r: Forest)
    requires Applies(b, o) && Guarded(b, o, goals, N) && NodeAt(o, [f, OVERLAY]).Some? && Onward(b, o, goals, N, r)
    requires f in goals && (Pointed(b, o, goals, f) ==> Spelled(b, goals[f]))
    ensures KidAt(Final(b, o), f).Some?
    ensures var w := if Pointed(b, o, goals, f) then PathStr([[]] + goals[f]) else TargetPath(o, f);
            && TargetText(r, KidAt(Final(b, o), f).value) == Ok(w) && 0 !in w
            && PathNames(r, w) == Ok(Front(b, o, goals, f)) && (Short(b, o, goals, f) <==> |w| == 1 && w[0] != SLASH)
            && Into(b, Front(b, o, goals, f)) == goals[f]
  {
    hide Applies, Suits, Settled, Final, NodeAt, Grown, LabelOf, LabelsAim, Uniq, Ph, Lists, Onward, ValueAt, PathStr,
      PathNames, CStr, Spelled, Comps, Into, Target,
      CellAims, Along, Unset, IsPhandle;
    var t := goals[f];
    TargetAgain(b, o, goals, N, f, r);
    NotPhandles();
    FinalValue(b, o, f, TARGET, t);
    NoAim(b, o, f, TARGET_PATH, t);
    FinalValue(b, o, f, TARGET_PATH, t);
    var k := KidAt(Final(b, o), f).value;
    KidData(Final(b, o), f, TARGET);
    KidData(Final(b, o), f, TARGET_PATH);
    if Pointed(b, o, goals, f) {
      CellRead(b, r, k, t);
      PathNamed(b, r, t);
    } else {
      var w := TargetPath(o, f);
      CStrFree(ValueAt(o, [f], TARGET_PATH).value);
      OnwardGrown(b, o, goals, N, r);
      NamesGrown(b, o, goals, N, r, w, t);
    }
  }

  lemma OnwardGrown(b: Forest, o: Forest, goals: Goals, N: Names, r: Forest)
    requires Onward(b, o, goals, N, r)
    ensures Grown(b, o, goals, N, r)
  {
  }

  lemma CellRead(b: Forest, r: Forest, k: Forest, t: Path)
    requires CellAims(b, Data(k, TARGET), t) && Target(r, k) == Ok(t)
    ensures TargetText(r, k) == Ok(PathStr([[]] + t))
  {
    hide PathStr, PhandlePath, CStr;
  }

  /** What fdt_get_path writes for a node that its names lead to. */
  lemma PathNamed(b: Forest, r: Forest, t: Path)
    requires Spelled(b, t)
    ensures var w := PathStr([[]] + t); 0 !in w && PathNames(r, w) == Ok(t) && w != [] && w[0] == SLASH
    ensures Into(b, t) == t
  {
    hide Comps, Into;
    var names := [[]] + t;
    assert names[1..] == t;
    assert forall n | n in names :: n == [] || n in t;
    PathStrComps(names);
    FullFree(names);
  }

  /** The new value of a symbol that is the path of the node n. */
  lemma ValueOfSymbol(b: Forest, o: Forest, goals: Goals, N: Names, d: Str, n: Path, r: Forest)
    requires Applies(b, o) && Guarded(b, o, goals, N) && Onward(b, o, goals, N, r) && Traced(b, o, goals, N, n)
             && IsPathOf(d, n)
    requires SymbolValue(r, Final(b, o), d).Ok?
    ensures SymbolValue(r, Final(b, o), d).v.Some?
    ensures var u := CStr(SymbolValue(r, Final(b, o), d).v.value);
            PathNames(r, u) == Ok((if Short(b, o, goals, n[0]) then [] else Front(b, o, goals, n[0])) + n[2..])
    ensures Into(b, Front(b, o, goals, n[0])) == goals[n[0]]
  {
    hide Applies, Guarded, Final, NodeAt, Onward, CStr, SymbolPlace, Comps, TargetText, PathNames, Front, Along,
      Pointed, Short, Spelled, SymbolText, Skel, Uniq,
      Adopted, Mid, Settled, AllOwn, HasSub, SubBody, OwnName, Meant, TargetPath, PathStr, Into;
    var o', f, e := Final(b, o), n[0], SymbolPlace(CStr(d)).value;
    assert n[2..] == Comps(e.rel);
    FinalIs(b, o);
    SkelNode(o', o, n);
    FragmentOf(o', n);
    SkelMeant(o, o', f);
    OwnSame(o, o', f);
    OwnSub(o', f);
    FragmentThere(o, n);
    TextFound(b, o, goals, N, f, r);
    var w := if Pointed(b, o, goals, f) then PathStr([[]] + goals[f]) else TargetPath(o, f);
    CStrFree(d);
    RelFree(CStr(d));
    TextNames(r, w, e.rel);
    TextStops(w, e.rel);
    NoNames(w, Front(b, o, goals, f), Comps(e.rel));
  }

  lemma NoNames(w: Str, cs: seq<Str>, rs: seq<Str>)
    requires w != [] && (|w| == 1 && w[0] == SLASH ==> cs == [])
    ensures (if |w| > 1 then cs else []) + rs == (if |w| == 1 && w[0] != SLASH then [] else cs) + rs
  {
  }

  lemma TextStops(w: Str, rel: Str)
    requires 0 !in w && 0 !in rel
    ensures CStr(SymbolText(w, rel) + [0]) == SymbolText(w, rel)
  {
    hide CStr;
    CStrStops(SymbolText(w, rel), []);
    assert SymbolText(w, rel) + [0] + [] == SymbolText(w, rel) + [0];
  }

  /**
   * Names that begin with those of the target lead to where the node n is merged; without them they do so at the root
   * only.
   */
  lemma NamesLead(b: Forest, r: Forest, N: Names, front: seq<Str>, rest: seq<Str>, short: bool)
    requires Stable(b, r, N) && Along(b, front + rest, N)
    requires var p := Into(b, front) + Into(NodeOr(b, Into(b, front)), rest); NodeAt(r, p).Some?
    ensures var p := Into(b, front) + Into(NodeOr(b, Into(b, front)), rest);
            NodeOf(r, Ok((if short then [] else front) + rest)) == Ok(p) <==> !short || Into(b, front) == []
  {
    hide Into, NodeAt, Resolve, Along, Stable, NodeOr;
    var p := Into(b, front) + Into(NodeOr(b, Into(b, front)), rest);
    IntoCat(b, front, rest);
    StableInto(b, r, front + rest, N);
    ResolveInto(r, front + rest);
    if short {
      ResolveInto(r, [] + rest);
      if Into(b, front) == [] {
        assert front == [] && [] + rest == front + rest;
      }
    }
  }

  /**
   * A label of the overlay that is the path of a node of a fragment is, after the overlay has been applied, a symbol of
   * the base; and a look-up of it leads to the node that the overlay's node was merged into, unless the target-path is
   * an alias of one character, which is lost: then only if that alias is the root.
   */
  lemma SymbolsResolve(b: Forest, o: Forest, goals: Goals, N: Names, y: Str, d: Str, n: Path)
    requires Applies(b, o) && Guarded(b, o, goals, N) && LabelsSound(o) && FdtOverlayApply(b, o).Ok?
    requires ValueAt(o, [SYMBOLS], y) == Some(d) && Lists(o, [SYMBOLS], y) == None && !LabelOf(o, Labels(o), SYMBOLS, y)
    requires IsPathOf(d, n) && Traced(b, o, goals, N, n)
    ensures var r, p := FdtOverlayApply(b, o).v, MergedPath(b, Final(b, o), n);
            && HasSub(r, SYMBOLS) && HasProp(SubBody(r, SYMBOLS), y)
            && (Lookup(r, CStr(PropData(SubBody(r, SYMBOLS), y))) == Ok(p) <==>
               !Short(b, o, goals, n[0]) || goals[n[0]] == [])
            && NodeAt(r, p).Some? && Ph(r, p) == Ph(Outcome(b, o), p)
  {
    hide Applies, Guarded, Final, Outcome, FdtOverlayApply, Ph, ValueAt, NodeAt, CStr, Resolve, SymbolPlace, MergedPath,
      Into, HasSub, SubBody, IsPhandle,
      Meant, Data, Lookup, PathNames, Front, Short, Pointed, Along, Lists, LabelOf, SymbolValue, NodeOf, NodeOr, Grown,
        OwnName, Comps, Stable;
    var r, f := FdtOverlayApply(b, o).v, n[0];
    var sym := Meant(Outcome(b, o), SYMBOLS);
    assert LabelsAim(b, o, Labels(o), SYMBOLS, y, []) by { NoAim(b, o, SYMBOLS, y, []); }
    assert !IsPhandle(y);
    FinalValue(b, o, SYMBOLS, y, []);
    UpdateHolds(b, o, goals, N, [sym], y);
    OutcomeOnward(b, o, goals, N);
    SameValue(b, o, goals, N, r, d);
    ValueOfSymbol(b, o, goals, N, d, n, r);
    var v := ValueAt(r, [sym], y).value;
    SymbolRead(r, y, v);
    LookupNames(r, CStr(v));
    GuardedGoes(b, o, goals, N, n);
    UpdateHolds(b, o, goals, N, MergedPath(b, Final(b, o), n), y);
    OnwardGrown(b, o, goals, N, r);
    GrownStable(b, o, goals, N, r);
    NamesLead(b, r, N, Front(b, o, goals, f), n[2..], Short(b, o, goals, f));
  }
}
