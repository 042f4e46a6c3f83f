/**
 * What can be checked of a base and an overlay, as they are passed in, that makes sure that every fragment goes where
 * the conflict pass looks: where its target is, and that names go on meaning what they meant.
 */
module Targets {
  import opened Bytes
  import opened Tree
  import opened Encoding
  import opened Positions
  import opened Edits
  import opened Merge
  import opened Sem
  import opened Writers
  import opened FixupText
  import opened Overlay
  import opened OverlaySteps
  import opened Skeleton
  import opened Refs
  import opened Conflicts
  import opened Lookups
  import opened Merged
  import opened Steady
  import opened OverlayProof

  // ----- What the symbol fixups do to a fragment's properties -----

  /** The fixup e is of property x of the fragment f. */
  predicate IsOf(o: Forest, e: Fixup, f: Str, x: Str) {
    e.prop == x && Resolve(o, Comps(e.path)) == Some([f])
  }

  predicate SomeOf(o: Forest, es: seq<Fixup>, f: Str, x: Str) {
    exists e :: e in es && IsOf(o, e, f, x)
  }

  /** The fixup property with value d has an entry for property x of the fragment f. */
  predicate ValueOf(o: Forest, d: Str, f: Str, x: Str) {
    FdtEntries(d).Some? && SomeOf(o, FdtEntries(d).value, f, x)
  }

  /** The phandle v is that of the base node at t. */
  predicate Aims(b: Forest, v: nat, t: Path) {
    v != 0 && PhandlePath(b, v) == Some(t)
  }

  /** The value d, if it is one cell, is the phandle of the base node at t. */
  predicate CellAims(b: Forest, d: Option<Str>, t: Path) {
    d.Some? && (|d.value| == 4 ==> Aims(b, Get32(d.value, 0), t))
  }

  lemma FixOneOf(o0: Forest, o: Forest, e: Fixup, v: nat, f: Str, x: Str)
    requires Skel(o) == Skel(o0) && v < U32 && e.path != [] && e.path[0] == SLASH && FixOne(o, e, v).Ok?
    ensures Skel(FixOne(o, e, v).v) == Skel(o0)
    ensures IsOf(o0, e, f, x) ==> ValueAt(o, [f], x).Some? && e.off + 4 <= |ValueAt(o, [f], x).value|
                                  && ValueAt(FixOne(o, e, v).v, [f], x) ==
                                     Some(Overwrite(ValueAt(o, [f], x).value, e.off, Put32(v)))
    ensures !IsOf(o0, e, f, x) ==> ValueAt(FixOne(o, e, v).v, [f], x) == ValueAt(o, [f], x)
  {
    hide Comps, Resolve, PutAt, PutProp, Skel, NodeAt;
    SkelResolve(o, o0, Comps(e.path));
    var p := Lookup(o, e.path).v;
    var k := NodeAt(o, p).value;
    var d := Overwrite(PropData(k, e.prop), e.off, Put32(v));
    PutPropAt(o, p, e.prop, d, [f], x);
    ValueHere(o, p, e.prop);
    SkelPutProp(k, e.prop, d);
    SkelPutAt(o, p, PutProp(k, e.prop, d));
  }

  lemma CellStored(b: Forest, d: Str, off: nat, v: nat, t: Path)
    requires off + 4 <= |d| && v < U32 && Aims(b, v, t)
    ensures CellAims(b, Some(Overwrite(d, off, Put32(v))), t)
  {
    OverwriteCell(d, off, v);
  }

  lemma {:induction false} FixEachOf(b: Forest, o0: Forest, o: Forest, es: seq<Fixup>, v: nat, f: Str, x: Str, t: Path)
    requires Skel(o) == Skel(o0) && v < U32 && (forall e | e in es :: e.path != [] && e.path[0] == SLASH)
             && FixEach(o, es, v).Ok?
    requires SomeOf(o0, es, f, x) ==> Aims(b, v, t)
    ensures Skel(FixEach(o, es, v).v) == Skel(o0)
    ensures SomeOf(o0, es, f, x) || CellAims(b, ValueAt(o, [f], x), t) ==>
            CellAims(b, ValueAt(FixEach(o, es, v).v, [f], x), t)
    ensures !SomeOf(o0, es, f, x) ==> ValueAt(FixEach(o, es, v).v, [f], x) == ValueAt(o, [f], x)
    decreases |es|
  {
    hide FixOne, ValueAt, Skel, IsOf, CellAims, Aims;
    if es != [] {
      var e := es[0];
      assert e in es && forall i | i in es[1..] :: i in es;
      FixOneOf(o0, o, e, v, f, x);
      if IsOf(o0, e, f, x) {
        CellStored(b, ValueAt(o, [f], x).value, e.off, v, t);
      }
      FixEachOf(b, o0, FixOne(o, e, v).v, es[1..], v, f, x, t);
      assert SomeOf(o0, es, f, x) <==> IsOf(o0, e, f, x) || SomeOf(o0, es[1..], f, x);
    }
  }

  /** Every entry of the fixups is an absolute path. */
  ghost predicate AllAbsolute(fx: Forest) {
    forall y | HasProp(fx, y) && FdtEntries(PropData(fx, y)).Some? ::
      forall e | e in FdtEntries(PropData(fx, y)).value :: e.path != [] && e.path[0] == SLASH
  }

  /** A symbol in fx has an entry for property x of the fragment f. */
  ghost predicate LabelOf(o: Forest, fx: Forest, f: Str, x: Str) {
    exists y :: HasProp(fx, y) && ValueOf(o, PropData(fx, y), f, x)
  }

  /** Every symbol in fx that has one is of the base node at t. */
  ghost predicate LabelsAim(b: Forest, o: Forest, fx: Forest, f: Str, x: Str, t: Path) {
    forall y | HasProp(fx, y) && ValueOf(o, PropData(fx, y), f, x)
      && SymbolPhandle(b, y).Ok? :: Aims(b, SymbolPhandle(b, y).v, t)
  }

  lemma LabelsRest(b: Forest, o: Forest, fx: Forest, f: Str, x: Str, t: Path)
    requires Uniq(fx) && (fx.PropF? || fx.NopF?) && AllAbsolute(fx) && LabelsAim(b, o, fx, f, x, t)
    ensures AllAbsolute(fx.rest) && LabelsAim(b, o, fx.rest, f, x, t)
    ensures LabelOf(o, fx, f, x) <==> (fx.PropF? && ValueOf(o, fx.data, f, x)) || LabelOf(o, fx.rest, f, x)
    ensures fx.PropF? && ValueOf(o, fx.data, f, x) && SymbolPhandle(b, fx.pname).Ok? ==>
            Aims(b, SymbolPhandle(b, fx.pname).v, t)
    ensures fx.PropF? && FdtEntries(fx.data).Some? ==>
            forall e | e in FdtEntries(fx.data).value :: e.path != [] && e.path[0] == SLASH
  {
    hide ValueOf, FdtEntries, SymbolPhandle, Aims;
    assert forall z | HasProp(fx.rest, z) :: HasProp(fx, z) && PropData(fx, z) == PropData(fx.rest, z);
    if fx.PropF? {
      assert HasProp(fx, fx.pname) && PropData(fx, fx.pname) == fx.data;
      assert forall z | HasProp(fx, z) :: z == fx.pname || HasProp(fx.rest, z);
    }
  }

  lemma {:induction false} FixLabelsOf(b: Forest, o0: Forest, o: Forest, fx: Forest, f: Str, x: Str, t: Path)
    requires Skel(o) == Skel(o0) && FixLabels(b, o, fx).Ok? && Uniq(fx) && AllAbsolute(fx)
             && LabelsAim(b, o0, fx, f, x, t)
    ensures LabelOf(o0, fx, f, x) || CellAims(b, ValueAt(o, [f], x), t) ==>
            CellAims(b, ValueAt(FixLabels(b, o, fx).v, [f], x), t)
    ensures !LabelOf(o0, fx, f, x) ==> ValueAt(FixLabels(b, o, fx).v, [f], x) == ValueAt(o, [f], x)
    decreases fx
  {
    hide FixEntries, FixEach, FdtEntries, SymbolPhandle, Skel, ValueAt, CellAims, Aims, AllAbsolute, LabelsAim, LabelOf,
      SomeOf;
    match fx
    case PropF(y, d, r) =>
      LabelsRest(b, o0, fx, f, x, t);
      var v := SymbolPhandle(b, y).v;
      FixEntriesEach(o, d, v);
      FixEachOf(b, o0, o, FdtEntries(d).value, v, f, x, t);
      FixLabelsOf(b, o0, FixEntries(o, d, v).v, r, f, x, t);
    case NopF(r) =>
      LabelsRest(b, o0, fx, f, x, t);
      FixLabelsOf(b, o0, o, r, f, x, t);
    case Nil => NoLabels(o0, fx, f, x);
    case SubF(_, _, _) => NoLabels(o0, fx, f, x);
  }

  lemma NoLabels(o: Forest, fx: Forest, f: Str, x: Str)
    requires fx.Nil? || fx.SubF?
    ensures !LabelOf(o, fx, f, x)
  {
  }

  // ----- The overlay's targets when it is settled -----

  /** The content of the overlay's fixups. */
  function Labels(o: Forest): Forest {
    if HasSub(o, FIXUPS) then SubBody(o, FIXUPS) else Nil
  }

  lemma SettledIsFixed(b: Forest, o: Forest)
    requires Applies(b, o)
    ensures var o1 := Shift(o, MaxPhandle(b));
            && o1.Ok? && RewriteLocal(o1.v, Adding(MaxPhandle(b))).Ok?
            && Fixups(b, RewriteLocal(o1.v, Adding(MaxPhandle(b))).v) == Ok(Settled(b, o))
  {
  }

  lemma NotPhandles()
    ensures !IsPhandle(TARGET) && !IsPhandle(TARGET_PATH)
  {
    assert |TARGET| == 6 && |TARGET_PATH| == 11 && |PHANDLE| == 7 && |LINUX_PHANDLE| == 13;
  }

  /** A value that is no phandle and no local reference is not changed before the fixups. */
  lemma EarlierSame(o: Forest, delta: nat, p: Path, x: Str)
    requires Sound(o) && Shift(o, delta).Ok? && RewriteLocal(Shift(o, delta).v, Adding(delta)).Ok?
    requires !IsPhandle(x) && Lists(o, p, x) == None
    ensures ValueAt(RewriteLocal(Shift(o, delta).v, Adding(delta)).v, p, x) == ValueAt(o, p, x)
  {
    hide Shift, RewriteLocal, ValueAt, Skel, Sound, Lists, Rewritten, IsPhandle, ListsSound;
    var o1 := Shift(o, delta).v;
    ShiftKeepsSound(o, delta);
    ShiftAt(o, delta, p, x);
    RewriteLocalAt(o1, Adding(delta), p, x);
    NoList(o1, Adding(delta), p, x);
  }

  /** The labels are the same when the fixups are applied. */
  lemma LabelsKept(b: Forest, o: Forest, f: Str, x: Str, t: Path)
    requires Applies(b, o)
    ensures var o2 := RewriteLocal(Shift(o, MaxPhandle(b)).v, Adding(MaxPhandle(b))).v;
            && Skel(o2) == Skel(o) && HasSub(o2, FIXUPS) == HasSub(o, FIXUPS)
            && Uniq(Labels(o2)) && AllAbsolute(Labels(o2))
            && (LabelOf(o, Labels(o2), f, x) <==> LabelOf(o, Labels(o), f, x))
            && (LabelsAim(b, o, Labels(o2), f, x, t) <==> LabelsAim(b, o, Labels(o), f, x, t))
  {
    hide Shift, RewriteLocal, ValueAt, Skel, Sound, Lists, FixupsSound, HasSub, SubBody, Prevent, MergeAll, Fixups,
      PhandlesApart, Uniq, ValueOf, SymbolPhandle, Aims;
    var delta := MaxPhandle(b);
    var o2 := RewriteLocal(Shift(o, delta).v, Adding(delta)).v;
    SettledIsFixed(b, o);
    ShiftedSkel(o, delta);
    SkelHas(o2, o, FIXUPS);
    if HasSub(o2, FIXUPS) {
      FixupsNodeClean(o, delta);
      CleanAbsolute(o, Labels(o2));
      forall y
        ensures HasProp(Labels(o2), y) <==> HasProp(Labels(o), y)
        ensures HasProp(Labels(o2), y) ==> PropData(Labels(o2), y) == PropData(Labels(o), y)
      {
        LabelKept(o, delta, y);
      }
    } else {
      NothingUniq();
    }
  }

  lemma NothingUniq()
    ensures Uniq(Nil)
  {
  }

  lemma CleanAbsolute(o: Forest, fx: Forest)
    requires CleanLabels(o, fx)
    ensures AllAbsolute(fx)
  {
    hide FdtEntries;
  }

  lemma LabelKept(o: Forest, delta: nat, y: Str)
    requires Sound(o) && FixupsSound(o)
    requires Shift(o, delta).Ok? && RewriteLocal(Shift(o, delta).v, Adding(delta)).Ok?
    requires var o2 := RewriteLocal(Shift(o, delta).v, Adding(delta)).v;
             HasSub(o2, FIXUPS) && HasSub(o, FIXUPS) && Skel(o2) == Skel(o)
    ensures var o2 := RewriteLocal(Shift(o, delta).v, Adding(delta)).v;
            && (HasProp(SubBody(o2, FIXUPS), y) <==> HasProp(SubBody(o, FIXUPS), y))
            && (HasProp(SubBody(o2, FIXUPS), y) ==> PropData(SubBody(o2, FIXUPS), y) == PropData(SubBody(o, FIXUPS), y))
  {
    hide Shift, RewriteLocal, ValueAt, Skel, Lists, FixupsSound, HasSub, SubBody, Uniq, Canon;
    var o2 := RewriteLocal(Shift(o, delta).v, Adding(delta)).v;
    SkelUniq(o2, o);
    SkelMeant(o, o2, FIXUPS);
    KidValue(o, FIXUPS, y);
    KidValue(o2, FIXUPS, y);
    SkelValue(o2, o, [FIXUPS], y);
    if HasProp(SubBody(o2, FIXUPS), y) {
      FixupsKept(o, delta, y);
    }
  }

  /** What the settled overlay has for property x of a fragment, no local reference. */
  lemma SettledValue(b: Forest, o: Forest, f: Str, x: Str, t: Path)
    requires Applies(b, o) && !IsPhandle(x) && Lists(o, [f], x) == None && LabelsAim(b, o, Labels(o), f, x, t)
    ensures !LabelOf(o, Labels(o), f, x) ==> ValueAt(Settled(b, o), [f], x) == ValueAt(o, [f], x)
    ensures LabelOf(o, Labels(o), f, x) || CellAims(b, ValueAt(o, [f], x), t) ==>
            CellAims(b, ValueAt(Settled(b, o), [f], x), t)
  {
    hide Applies, Settled, Shift, RewriteLocal, FixLabels, ValueAt, CellAims, LabelsAim, LabelOf, AllAbsolute, Skel,
      Uniq, Lists, Sound, FixupsSound, HasSub, IsPhandle;
    SettledIsFixed(b, o);
    Stages(b, o);
    EarlierSame(o, MaxPhandle(b), [f], x);
    LabelsKept(b, o, f, x, t);
    var o2 := RewriteLocal(Shift(o, MaxPhandle(b)).v, Adding(MaxPhandle(b))).v;
    if HasSub(o2, FIXUPS) {
      FixLabelsOf(b, o, o2, SubBody(o2, FIXUPS), f, x, t);
    } else {
      NoLabels(o, Nil, f, x);
    }
  }

  // ----- What is asked of a fragment's target -----

  /** Where each fragment is to go, by its name. */
  type Goals = map<Str, Path>

  /** The path in the base that the node n, which is in a fragment, is to be merged into: where its names lead there. */
  function Aim(b: Forest, goals: Goals, n: Path): Path {
    if |n| >= 2 && n[0] in goals then goals[n[0]] + Into(NodeOr(b, goals[n[0]]), n[2..]) else []
  }

  /** No overlay node that is to be merged into the node at p sets property x. */
  ghost predicate Unset(b: Forest, o: Forest, goals: Goals, p: Path, x: Str) {
    forall n | InFragment(n) && ValueAt(o, n, x).Some? :: Aim(b, goals, n) != p
  }

  /** The path w, absolute or below an alias that no fragment sets, leads to t in the base, by names of N. */
  ghost predicate PathAims(b: Forest, o: Forest, goals: Goals, N: Names, w: Str, t: Path) {
    && PathNames(b, w).Ok? && Along(b, PathNames(b, w).v, N) && Into(b, PathNames(b, w).v) == t
    && (w[0] != SLASH ==> ([], ALIASES) in N && Unset(b, o, goals, AliasesAt(b), w[..Word(w)]))
  }

  /** The value d is a path to t. */
  ghost predicate ValueLeads(b: Forest, o: Forest, goals: Goals, N: Names, d: Option<Str>, t: Path) {
    d.Some? && PathAims(b, o, goals, N, CStr(d.value), t)
  }

  /** The target of a fragment with these two values is the base node at t, or one that is to be added there. */
  ghost predicate Leads(b: Forest, o: Forest, goals: Goals, N: Names, cell: Option<Str>, path: Option<Str>, t: Path) {
    CellAims(b, cell, t) || ((cell.None? || CellIn(cell) == Some(0)) && ValueLeads(b, o, goals, N, path, t))
  }

  /**
   * The target of the fragment f of the overlay, as it is passed in, is the base node at t, or one that is to be added
   * there.
   */
  ghost predicate TargetLeads(b: Forest, o: Forest, goals: Goals, N: Names, f: Str, t: Path) {
    && Lists(o, [f], TARGET) == None && Lists(o, [f], TARGET_PATH) == None
    && LabelsAim(b, o, Labels(o), f, TARGET, t) && !LabelOf(o, Labels(o), f, TARGET_PATH)
    && (LabelOf(o, Labels(o), f, TARGET)
       || Leads(b, o, goals, N, ValueAt(o, [f], TARGET), ValueAt(o, [f], TARGET_PATH), t))
  }

  /**
   * Every fragment goes where goals says; and of the names that are looked up below one node of the base, which are in
   * N, none stands for another that the overlay adds there.
   */
  ghost predicate Guarded(b: Forest, o: Forest, goals: Goals, N: Names) {
    forall f | NodeAt(o, [f, OVERLAY]).Some? ::
      && f in goals && TargetLeads(b, o, goals, N, f, goals[f])
      && Suits(NodeOr(b, goals[f]), NodeAt(o, [f, OVERLAY]).value, Below(N, goals[f]))
  }

  /** The fragment f gives its target by a phandle. */
  ghost predicate Pointed(b: Forest, o: Forest, goals: Goals, f: Str)
    requires f in goals
  {
    LabelOf(o, Labels(o), f, TARGET) || CellAims(b, ValueAt(o, [f], TARGET), goals[f])
  }

  /** The target-path of fragment f. */
  function TargetPath(o: Forest, f: Str): Str {
    match ValueAt(o, [f], TARGET_PATH)
    case Some(d) => CStr(d)
    case None => []
  }

  // ----- The base while it grows -----

  /** The phandle w of a node of the grown base, where the base had v: kept, or new and above delta. */
  predicate Kept(v: nat, w: nat, delta: nat) {
    w == v || (v == 0 && w > delta)
  }

  /** The base after some fragments have been merged. */
  ghost predicate Grown(b: Forest, o: Forest, goals: Goals, N: Names, c: Forest) {
    && Uniq(c) && Stable(b, c, N)
    && (forall p | NodeAt(b, p).Some? :: NodeAt(c, p).Some?)
    && (forall p :: Kept(Ph(b, p), Ph(c, p), MaxPhandle(b)))
    && (forall x | Unset(b, o, goals, AliasesAt(b), x) :: ValueAt(c, AliasesAt(b), x) == ValueAt(b, AliasesAt(b), x))
  }

  /** The path of the node in which the base keeps its aliases, if it has one. */
  function AliasesAt(b: Forest): Path {
    [Meant(b, ALIASES)]
  }

  lemma PhandleGrown(b: Forest, c: Forest, v: nat, t: Path)
    requires Uniq(b) && PhandlesApart(b) && Uniq(c) && (forall p :: Kept(Ph(b, p), Ph(c, p), MaxPhandle(b)))
             && Aims(b, v, t)
    ensures PhandlePath(c, v) == Some(t) && NodeAt(b, t).Some?
  {
    hide PhandlePath, Ph, Uniq, NodeAt;
    PhandlePathFinds(b, v, t);
    BaseBounded(b);
    assert Ph(b, t) == v && v <= MaxPhandle(b);
    PhandlePathFinds(c, v, t);
    assert Kept(Ph(b, t), Ph(c, t), MaxPhandle(b));
    var q := PhandlePath(c, v).value;
    assert Kept(Ph(b, q), Ph(c, q), MaxPhandle(b));
  }

  lemma AliasGrown(b: Forest, o: Forest, goals: Goals, N: Names, c: Forest, name: Str)
    requires Grown(b, o, goals, N, c) && ([], ALIASES) in N && Unset(b, o, goals, AliasesAt(b), name)
             && HasSub(b, ALIASES)
    ensures AliasValue(c, name) == AliasValue(b, name)
  {
    hide Unset, Meant, Uniq, Kept, Ph;
    StableHere(b, c, N, ALIASES);
    SubIsMeant(b, ALIASES);
    SubIsMeant(c, ALIASES);
    KidIsNode(b, Meant(b, ALIASES));
    KidIsNode(c, Meant(b, ALIASES));
  }

  lemma NamesGrown(b: Forest, o: Forest, goals: Goals, N: Names, c: Forest, w: Str, t: Path)
    requires Grown(b, o, goals, N, c) && PathAims(b, o, goals, N, w, t)
    ensures PathNames(c, w) == PathNames(b, w)
  {
    hide Grown, Unset, Comps, CStr, Resolve, AliasValue, AliasesAt;
    if w[0] != SLASH {
      assert HasSub(b, ALIASES) by { HasAliases(b, w[..Word(w)]); }
      AliasGrown(b, o, goals, N, c, w[..Word(w)]);
    }
  }

  lemma PathGrown(b: Forest, o: Forest, goals: Goals, N: Names, c: Forest, w: Str, t: Path)
    requires Grown(b, o, goals, N, c) && PathAims(b, o, goals, N, w, t)
    ensures Lookup(c, w) == if NodeAt(c, t).Some? then Ok(t) else Err(-NOTFOUND)
  {
    hide Grown, Unset, PathNames, Lookup, Resolve, AliasesAt;
    LookupNames(c, w);
    NamesGrown(b, o, goals, N, c, w, t);
    GrownStable(b, o, goals, N, c);
    StableInto(b, c, PathNames(b, w).v, N);
    ResolveInto(c, PathNames(b, w).v);
  }

  lemma GrownStable(b: Forest, o: Forest, goals: Goals, N: Names, c: Forest)
    requires Grown(b, o, goals, N, c)
    ensures Stable(b, c, N) && Uniq(c)
    ensures forall p :: Kept(Ph(b, p), Ph(c, p), MaxPhandle(b))
  {
  }

  lemma HasAliases(b: Forest, name: Str)
    requires AliasValue(b, name).Some?
    ensures HasSub(b, ALIASES)
  {
  }

  /** The target property of the fragment with content k, if there is one, is a cell that may be a phandle. */
  predicate Readable(k: Forest) {
    HasProp(k, TARGET) ==> |PropData(k, TARGET)| == 4 && Get32(PropData(k, TARGET), 0) != U32 - 1
  }

  /** While the base grows, a fragment whose values lead to t has its target there, if it has one. */
  lemma LeadsGrown(b: Forest, o: Forest, goals: Goals, N: Names, c: Forest, k: Forest, t: Path)
    requires Uniq(b) && PhandlesApart(b) && Grown(b, o, goals, N, c)
             && Leads(b, o, goals, N, Data(k, TARGET), Data(k, TARGET_PATH), t)
    ensures Target(c, k).Ok? ==> Target(c, k).v == t
    ensures NodeAt(c, t).Some? && Readable(k) ==> Target(c, k).Ok?
  {
    hide Grown, PathAims, Lookup, NodeAt, CStr, Uniq, PhandlesApart;
    GrownStable(b, o, goals, N, c);
    if CellAims(b, Data(k, TARGET), t) {
      if |PropData(k, TARGET)| == 4 {
        PhandleGrown(b, c, Get32(PropData(k, TARGET), 0), t);
      }
    } else {
      PathGrown(b, o, goals, N, c, CStr(Data(k, TARGET_PATH).value), t);
    }
  }

  // ----- Where the conflict pass looks -----

  lemma PlainAt(o0: Forest, o3: Forest, o: Forest, delta: nat, p: Path, x: Str)
    requires Mid(o0, o3, o, delta) && !IsPhandle(x) && Lists(o0, p, x) == None
    ensures ValueAt(o, p, x) == ValueAt(o3, p, x)
  {
  }

  lemma KidData(o: Forest, f: Str, x: Str)
    requires KidAt(o, f).Some?
    ensures Data(KidAt(o, f).value, x) == ValueAt(o, [f], x)
  {
    KidIsNode(o, f);
  }

  lemma SameTarget(c: Forest, k: Forest, j: Forest)
    requires Data(k, TARGET) == Data(j, TARGET) && Data(k, TARGET_PATH) == Data(j, TARGET_PATH)
    ensures Target(c, k) == Target(c, j)
  {
  }

  /** The target properties of f are, at every stage, what they were when the references into the base were resolved. */
  lemma TargetStays(c: Forest, o0: Forest, o3: Forest, o: Forest, delta: nat, f: Str)
    requires Mid(o0, o3, o, delta) && Skel(o3) == Skel(o0) && Lists(o0, [f], TARGET) == None
             && Lists(o0, [f], TARGET_PATH) == None
    ensures KidAt(o, f).Some? == KidAt(o3, f).Some?
    ensures KidAt(o3, f).Some? ==> Target(c, KidAt(o, f).value) == Target(c, KidAt(o3, f).value)
  {
    hide Skel, Target, Mid, ValueAt, Data, IsPhandle;
    NotPhandles();
    PlainAt(o0, o3, o, delta, [f], TARGET);
    PlainAt(o0, o3, o, delta, [f], TARGET_PATH);
    MidSkel(o0, o3, o, delta);
    SkelHas(o, o3, f);
    if KidAt(o3, f).Some? {
      KidData(o, f, TARGET);
      KidData(o3, f, TARGET);
      KidData(o, f, TARGET_PATH);
      KidData(o3, f, TARGET_PATH);
      SameTarget(c, KidAt(o, f).value, KidAt(o3, f).value);
    }
  }

  /** The conflict pass finds the target that it would have found at its start. */
  lemma {:induction false} ForeseenIs(b: Forest, o0: Forest, o3: Forest, o: Forest, delta: nat, frags: Forest, f: Str)
    requires Ready(o0, o3, delta) && Mid(o0, o3, o, delta) && Skel(o3) == Skel(o0)
    requires Shapes(o0, [], frags) && Uniq(frags) && SameThrough(o3, o, [], frags)
    requires Bounded(b, delta) && Prevent(b, o, frags).Ok?
    requires Lists(o0, [f], TARGET) == None && Lists(o0, [f], TARGET_PATH) == None
    requires KidAt(frags, f).Some? && HasSub(KidAt(frags, f).value, OVERLAY) && KidAt(o3, f).Some?
    ensures Foreseen(b, o, frags, f) == Target(b, KidAt(o3, f).value)
    decreases frags
  {
    hide Ready, Mid, PreventFragment, Bounded, Skel, Ph, NodeAt, Shapes, Through, TakenIn, Target, Lists;
    match frags
    case SubF(g, k, r) =>
      TargetStays(b, o0, o3, o, delta, f);
      if g != f {
        ThroughSplit(o0, [], frags);
        assert [] + [g] == [g];
        var o1 := PreventFragment(b, o, g, k).v;
        PreventFragmentHolds(b, o0, o3, o, delta, g, k);
        forall p
          ensures !([g] <= p) ==> Ph(o1, p) == Ph(o, p)
        {
          ElseSame(b, g, if HasSub(k, OVERLAY) then TargetOf(b, o, g) else Err(-NOTFOUND), p, Ph(o, p));
        }
        ForeseenIs(b, o0, o3, o1, delta, r, f);
      }
    case NopF(r) =>
      ForeseenPast(o0, o3, o, frags);
      ForeseenIs(b, o0, o3, o, delta, r, f);
    case PropF(_, _, r) =>
      ForeseenPast(o0, o3, o, frags);
      ForeseenIs(b, o0, o3, o, delta, r, f);
  }

  lemma ElseSame(b: Forest, f: Str, t: Res<Path>, p: Path, v: nat)
    ensures !([f] <= p) ==> TakenIn(b, f, t, p, v) == v
  {
  }

  lemma ForeseenPast(o0: Forest, o3: Forest, o: Forest, frags: Forest)
    requires (frags.NopF? || frags.PropF?) && Shapes(o0, [], frags) && SameThrough(o3, o, [], frags)
    ensures Shapes(o0, [], frags.rest) && SameThrough(o3, o, [], frags.rest)
  {
    hide Skel, Ph, NodeAt;
    assert forall m :: KidAt(frags.rest, m) == KidAt(frags, m);
    assert forall p :: Through([], frags, p) == Through([], frags.rest, p);
  }

  lemma BaseGrown(b: Forest, o: Forest, goals: Goals, N: Names)
    requires Uniq(b)
    ensures Grown(b, o, goals, N, b)
  {
  }

  /** The final values of the target properties lead where those of the overlay as it is passed in do. */
  lemma FinalLeads(b: Forest, o: Forest, goals: Goals, N: Names, f: Str, t: Path)
    requires Applies(b, o) && TargetLeads(b, o, goals, N, f, t) && NodeAt(o, [f, OVERLAY]).Some?
    ensures var o3, o' := Settled(b, o), Final(b, o);
            && KidAt(o3, f).Some? && KidAt(o', f).Some?
            && Leads(b, o, goals, N, Data(KidAt(o3, f).value, TARGET), Data(KidAt(o3, f).value, TARGET_PATH), t)
            && forall c :: Target(c, KidAt(o', f).value) == Target(c, KidAt(o3, f).value)
  {
    hide Applies, Settled, Final, ValueAt, CellAims, LabelsAim, LabelOf, Skel, Uniq, Lists, IsPhandle, Adopted, Mid,
      Ready, PathAims, Target, Ph, NodeAt;
    NotPhandles();
    SettledIs(b, o);
    FinalIs(b, o);
    var o3 := Settled(b, o);
    SkelNode(o3, o, [f, OVERLAY]);
    ThroughKid(o3, f);
    KidData(o3, f, TARGET);
    KidData(o3, f, TARGET_PATH);
    SettledValue(b, o, f, TARGET, t);
    SettledValue(b, o, f, TARGET_PATH, t) by { NoAim(b, o, f, TARGET_PATH, t); }
    TargetStays(b, o, o3, Final(b, o), MaxPhandle(b), f);
    forall c
      ensures KidAt(Final(b, o), f).Some? && Target(c, KidAt(Final(b, o), f).value) == Target(c, KidAt(o3, f).value)
    {
      TargetStays(c, o, o3, Final(b, o), MaxPhandle(b), f);
    }
  }

  /** A value of the overlay as it is passed in, no local reference, when it is merged. */
  lemma FinalValue(b: Forest, o: Forest, f: Str, x: Str, t: Path)
    requires Applies(b, o) && !IsPhandle(x) && Lists(o, [f], x) == None && LabelsAim(b, o, Labels(o), f, x, t)
    ensures !LabelOf(o, Labels(o), f, x) ==> ValueAt(Final(b, o), [f], x) == ValueAt(o, [f], x)
    ensures LabelOf(o, Labels(o), f, x) || CellAims(b, ValueAt(o, [f], x), t) ==>
            CellAims(b, ValueAt(Final(b, o), [f], x), t)
  {
    hide Applies, Settled, Final, ValueAt, CellAims, LabelsAim, LabelOf, Skel, Uniq, Lists, IsPhandle, Adopted, Mid,
      Ready, Ph;
    FinalIs(b, o);
    SettledValue(b, o, f, x, t);
    PlainAt(o, Settled(b, o), Final(b, o), MaxPhandle(b), [f], x);
  }

  lemma NoAim(b: Forest, o: Forest, f: Str, x: Str, t: Path)
    requires !LabelOf(o, Labels(o), f, x)
    ensures LabelsAim(b, o, Labels(o), f, x, t)
  {
    hide ValueOf, Labels, SymbolPhandle, Aims;
  }

  lemma FragmentThere(o: Forest, n: Path)
    requires InFragment(n) && NodeAt(o, n).Some?
    ensures NodeAt(o, [n[0], OVERLAY]).Some?
  {
    if NodeAt(o, [n[0], OVERLAY]).None? {
      NoneBelow(o, [n[0], OVERLAY], n);
    }
  }

  lemma MergesReads(c: Forest, k: Forest)
    requires Merges(c, k)
    ensures Readable(k) && Target(c, k).Ok?
  {
  }

  /** Where the conflict pass finds the target, if there is a node in the base. */
  lemma ForeseenLeads(b: Forest, o: Forest, goals: Goals, N: Names, f: Str)
    requires Applies(b, o) && Guarded(b, o, goals, N) && NodeAt(o, [f, OVERLAY]).Some?
    ensures var r := Foreseen(b, Settled(b, o), Settled(b, o), f);
            if NodeAt(b, goals[f]).Some? then r == Ok(goals[f]) else r.Ok? ==> r.v == goals[f]
  {
    hide Applies, Settled, Final, Skel, Uniq, Lists, Adopted, Mid, Ready, Target, Leads, Suits, Readable, Ph, AllOwn,
      Foreseen, Shapes, Bounded, Prevent, Resolved,
      MergeAll, Outcome, HasSub, Sound, FixupsSound, PhandlesApart, Merges, Grown, NodeAt, TargetLeads;
    var o3, t := Settled(b, o), goals[f];
    Stages(b, o);
    SettledIs(b, o);
    FinalLeads(b, o, goals, N, f, t);
    SkelOwn(o, o3);
    SkelNode(o3, o, [f, OVERLAY]);
    FragmentOf(o3, [f, OVERLAY]);
    ShapesSelf(o, o3);
    BaseBounded(b);
    assert Lists(o, [f], TARGET) == None && Lists(o, [f], TARGET_PATH) == None by { LeadsPlain(b, o, goals, N, f, t); }
    ForeseenIs(b, o, o3, o3, MaxPhandle(b), o3, f);
    NodeMerged(b, o, [f, OVERLAY]);
    MergesReads(Before(b, Final(b, o), f), KidAt(Final(b, o), f).value);
    BaseGrown(b, o, goals, N);
    ReadableSame(Before(b, Final(b, o), f), KidAt(o3, f).value);
    LeadsGrown(b, o, goals, N, b, KidAt(o3, f).value, t);
  }

  lemma LeadsPlain(b: Forest, o: Forest, goals: Goals, N: Names, f: Str, t: Path)
    requires TargetLeads(b, o, goals, N, f, t)
    ensures Lists(o, [f], TARGET) == None && Lists(o, [f], TARGET_PATH) == None
  {
    hide Lists, Leads, LabelsAim, LabelOf;
  }

  lemma ReadableSame(c: Forest, k: Forest)
    requires Target(c, k).Ok?
    ensures Readable(k)
  {
  }

  /** Each overlay node is matched with the base node that it is to be merged into. */
  lemma MatchedIs(b: Forest, o: Forest, goals: Goals, N: Names, n: Path)
    requires Applies(b, o) && Guarded(b, o, goals, N) && InFragment(n) && NodeAt(o, n).Some?
    ensures MatchedPh(b, o, n) == Ph(b, Aim(b, goals, n))
  {
    hide Applies, Settled, Foreseen, Ph, Into, NodeOr, TargetLeads, Suits;
    FragmentThere(o, n);
    ForeseenLeads(b, o, goals, N, n[0]);
    var t := goals[n[0]];
    if NodeAt(b, t).None? {
      NoPhBelow(b, t, Into(NodeOr(b, t), n[2..]));
    }
  }

  lemma NoPhBelow(b: Forest, t: Path, r: Path)
    requires NodeAt(b, t).None?
    ensures Ph(b, t + r) == 0
  {
    NoneBelow(b, t, t + r);
  }

  // ----- One fragment -----

  /** The content that the fragment f merges. */
  function Content(b: Forest, o: Forest, f: Str): Forest {
    match NodeAt(Final(b, o), [f, OVERLAY])
    case Some(k) => k
    case None => Nil
  }

  /** In the base as it has grown by then, the fragment has its target where it should be. */
  lemma FragmentGoes(b: Forest, o: Forest, goals: Goals, N: Names, c: Forest, f: Str)
    requires Applies(b, o) && Guarded(b, o, goals, N) && NodeAt(o, [f, OVERLAY]).Some?
    requires c == Before(b, Final(b, o), f) && Grown(b, o, goals, N, c)
    ensures KidAt(Final(b, o), f).Some?
    ensures var k, t := KidAt(Final(b, o), f).value, goals[f];
            && Uniq(k) && OwnName(k, OVERLAY)
            && Merges(c, k) && Target(c, k) == Ok(t) && NodeAt(c, t).Some?
            && SubBody(k, OVERLAY) == SubBodyOrNil(k) == Content(b, o, f) && Uniq(Content(b, o, f))
            && Suits(NodeOr(b, t), Content(b, o, f), Below(N, t))
  {
    hide Applies, Settled, Final, Skel, Uniq, Adopted, Mid, Leads, Suits, Ph, AllOwn, Grown, NodeAt, TargetLeads,
      Before, Target, PhandlesApart, HasSub, OwnName;
    var o', t := Final(b, o), goals[f];
    FinalIs(b, o);
    FinalLeads(b, o, goals, N, f, t);
    NodeMerged(b, o, [f, OVERLAY]);
    SkelNode(o', o, [f, OVERLAY]);
    FragmentOf(o', [f, OVERLAY]);
    var k := KidAt(o', f).value;
    FragmentValue(o', f, k, [], []);
    assert SubBody(k, OVERLAY) == Content(b, o, f);
    KidUniq(o', f);
    OwnSub(k, OVERLAY);
    KidUniq(k, OVERLAY);
    SameLeads(b, o, goals, N, f, c);
    SkelSuits(NodeOr(b, t), NodeAt(o, [f, OVERLAY]).value, Content(b, o, f), Below(N, t));
  }

  lemma SameLeads(b: Forest, o: Forest, goals: Goals, N: Names, f: Str, c: Forest)
    requires Applies(b, o) && f in goals && TargetLeads(b, o, goals, N, f, goals[f]) && NodeAt(o, [f, OVERLAY]).Some?
    requires KidAt(Final(b, o), f).Some? && Grown(b, o, goals, N, c) && Merges(c, KidAt(Final(b, o), f).value)
    ensures Target(c, KidAt(Final(b, o), f).value) == Ok(goals[f]) && NodeAt(c, goals[f]).Some?
  {
    hide Settled, Final, Sound, FixupsSound, Uniq, Leads, Ph, Grown, NodeAt, TargetLeads, Target, PhandlesApart, HasSub,
      Prevent, Resolved, MergeAll;
    FinalLeads(b, o, goals, N, f, goals[f]);
    LeadsGrown(b, o, goals, N, c, KidAt(Settled(b, o), f).value, goals[f]);
  }

  lemma SkelSuits(b: Forest, o: Forest, o': Forest, N: Names)
    requires Suits(b, o, N) && Skel(o') == Skel(o)
    ensures Suits(b, o', N)
  {
    hide Skel, Harmless, Into;
    forall r, m | NodeAt(o', r + [m]).Some?
      ensures (Into(b, r), m) in N && Harmless(b, Into(b, r), m, N)
    {
      SkelNode(o', o, r + [m]);
    }
  }

  /** A node of the fragment goes where its names lead in the base. */
  lemma FragmentAims(b: Forest, o: Forest, goals: Goals, N: Names, c: Forest, n: Path)
    requires Applies(b, o) && Guarded(b, o, goals, N) && InFragment(n) && NodeAt(o, n).Some?
    requires c == Before(b, Final(b, o), n[0]) && Grown(b, o, goals, N, c)
    ensures KidAt(Final(b, o), n[0]).Some? && StepPath(c, KidAt(Final(b, o), n[0]).value, n[2..]) == Aim(b, goals, n)
  {
    hide Applies, Final, Skel, Uniq, Adopted, Mid, Suits, Ph, AllOwn, Grown, NodeAt, TargetLeads, Before, Target,
      HasSub, OwnName, Merges, Settled, Went, Into, NodeOr,
      Stable, Content;
    FragmentThere(o, n);
    FragmentGoes(b, o, goals, N, c, n[0]);
    FinalIs(b, o);
    SkelNode(Final(b, o), o, n);
    var k, t := KidAt(Final(b, o), n[0]).value, goals[n[0]];
    FragmentValue(Final(b, o), n[0], k, n[2..], []);
    assert [n[0], OVERLAY] + n[2..] == n;
    GrownStable(b, o, goals, N, c);
    MergeWent(b, c, t, Content(b, o, n[0]), N, n[2..]);
  }

  /** The value of property x at path p is that of an overlay node n that is to be merged there. */
  ghost predicate Given(b: Forest, o: Forest, goals: Goals, n: Path, p: Path, x: Str, d: Option<Str>) {
    InFragment(n) && NodeAt(o, n).Some? && Aim(b, goals, n) == p && d.Some? && ValueAt(Final(b, o), n, x) == d
  }

  lemma FragmentWrites(b: Forest, o: Forest, goals: Goals, N: Names, c: Forest, f: Str, p: Path, x: Str)
    requires Applies(b, o) && Guarded(b, o, goals, N) && NodeAt(o, [f, OVERLAY]).Some?
    requires c == Before(b, Final(b, o), f) && Grown(b, o, goals, N, c)
    ensures KidAt(Final(b, o), f).Some?
    ensures var d := ValueAt(Step(c, KidAt(Final(b, o), f).value), p, x);
            d == ValueAt(c, p, x) || exists n :: Given(b, o, goals, n, p, x, d)
  {
    hide Applies, Final, Skel, Uniq, Adopted, Mid, Suits, Ph, AllOwn, Grown, NodeAt, TargetLeads, Before, Target,
      HasSub, OwnName, Merges, Settled, Stable, Content,
      Step, StepWriter, StepPath, ValueAt, Aim;
    FragmentGoes(b, o, goals, N, c, f);
    var k := KidAt(Final(b, o), f).value;
    StepWrites(c, k, p, x);
    if StepWriter(c, k, p, x).Some? {
      StepAuthor(c, k, p, x);
      var r := StepWriter(c, k, p, x).value;
      var n := [f, OVERLAY] + r;
      assert n[0] == f && n[1] == OVERLAY && n[2..] == r;
      FragmentValue(Final(b, o), f, k, r, x);
      FinalIs(b, o);
      NodeOfValue(Final(b, o), n, x);
      SkelNode(Final(b, o), o, n);
      FragmentAims(b, o, goals, N, c, n);
      assert Given(b, o, goals, n, p, x, ValueAt(Step(c, k), p, x));
    }
  }

  /** A value given to a node whose phandle in the base is u is u, or above delta if u is 0. */
  predicate Fits(u: nat, d: Option<Str>, delta: nat) {
    match CellIn(d)
    case Some(v) => v != 0 && Kept(u, v, delta)
    case None => false
  }

  lemma GivenFits(b: Forest, o: Forest, goals: Goals, N: Names, n: Path, p: Path, x: Str, d: Option<Str>)
    requires Applies(b, o) && Guarded(b, o, goals, N) && IsPhandle(x) && Given(b, o, goals, n, p, x, d)
    ensures Fits(Ph(b, p), d, MaxPhandle(b))
  {
    hide Applies, Guarded, Final, ValueAt, Ph, NodeAt, MatchedPh, Aim;
    HadPhandle(b, o, n, x);
    FinalPh(b, o, n);
    MatchedIs(b, o, goals, N, n);
  }

  lemma FitsKept(u: nat, a: Option<Str>, l: Option<Str>, a': Option<Str>, l': Option<Str>, delta: nat)
    requires Kept(u, PhandleOf(a, l), delta) && (a' == a || Fits(u, a', delta)) && (l' == l || Fits(u, l', delta))
    ensures Kept(u, PhandleOf(a', l'), delta)
  {
  }

  lemma StepFits(b: Forest, o: Forest, goals: Goals, N: Names, c: Forest, f: Str, p: Path, x: Str)
    requires Applies(b, o) && Guarded(b, o, goals, N) && NodeAt(o, [f, OVERLAY]).Some? && IsPhandle(x)
    requires c == Before(b, Final(b, o), f) && Grown(b, o, goals, N, c)
    ensures KidAt(Final(b, o), f).Some?
    ensures var d := ValueAt(Step(c, KidAt(Final(b, o), f).value), p, x);
            d == ValueAt(c, p, x) || Fits(Ph(b, p), d, MaxPhandle(b))
  {
    hide Applies, Guarded, Final, ValueAt, Ph, NodeAt, Grown, Step, Fits, Given, IsPhandle, Before;
    FragmentWrites(b, o, goals, N, c, f, p, x);
    var d := ValueAt(Step(c, KidAt(Final(b, o), f).value), p, x);
    if d != ValueAt(c, p, x) {
      var n :| Given(b, o, goals, n, p, x, d);
      GivenFits(b, o, goals, N, n, p, x, d);
    }
  }

  lemma StepKept(b: Forest, o: Forest, goals: Goals, N: Names, c: Forest, f: Str, p: Path)
    requires Applies(b, o) && Guarded(b, o, goals, N) && NodeAt(o, [f, OVERLAY]).Some?
    requires c == Before(b, Final(b, o), f) && Grown(b, o, goals, N, c)
    ensures KidAt(Final(b, o), f).Some? && Kept(Ph(b, p), Ph(Step(c, KidAt(Final(b, o), f).value), p), MaxPhandle(b))
  {
    hide Applies, Guarded, Final, ValueAt, Ph, NodeAt, Grown, Step, Fits, Before, Kept;
    StepFits(b, o, goals, N, c, f, p, PHANDLE);
    StepFits(b, o, goals, N, c, f, p, LINUX_PHANDLE);
    GrownStable(b, o, goals, N, c);
    var c' := Step(c, KidAt(Final(b, o), f).value);
    PhIs(c, p);
    PhIs(c', p);
    FitsKept(Ph(b, p), ValueAt(c, p, PHANDLE), ValueAt(c, p, LINUX_PHANDLE), ValueAt(c', p, PHANDLE),
      ValueAt(c', p, LINUX_PHANDLE), MaxPhandle(b));
  }

  lemma StepUnset(b: Forest, o: Forest, goals: Goals, N: Names, c: Forest, f: Str, p: Path, x: Str)
    requires Applies(b, o) && Guarded(b, o, goals, N) && NodeAt(o, [f, OVERLAY]).Some?
    requires c == Before(b, Final(b, o), f) && Grown(b, o, goals, N, c) && Unset(b, o, goals, p, x)
    ensures KidAt(Final(b, o), f).Some? && ValueAt(Step(c, KidAt(Final(b, o), f).value), p, x) == ValueAt(c, p, x)
  {
    hide Applies, Guarded, Final, ValueAt, Ph, NodeAt, Grown, Step, Before, Skel, Mid, Uniq, AllOwn, Adopted, Aim;
    FragmentWrites(b, o, goals, N, c, f, p, x);
    var d := ValueAt(Step(c, KidAt(Final(b, o), f).value), p, x);
    if d != ValueAt(c, p, x) {
      var n :| Given(b, o, goals, n, p, x, d);
      FinalIs(b, o);
      SkelValue(Final(b, o), o, n, x);
    }
  }

  /** One fragment: the base goes on as it should. */
  lemma FragmentGrown(b: Forest, o: Forest, goals: Goals, N: Names, c: Forest, f: Str)
    requires Applies(b, o) && Guarded(b, o, goals, N) && NodeAt(o, [f, OVERLAY]).Some?
    requires c == Before(b, Final(b, o), f) && Grown(b, o, goals, N, c)
    ensures KidAt(Final(b, o), f).Some? && Grown(b, o, goals, N, Step(c, KidAt(Final(b, o), f).value))
  {
    hide Applies, TargetLeads, Final, ValueAt, Ph, NodeAt, MergeIn, Before, Stable, Content, Suits, Target, HasSub,
      OwnName, Uniq, Kept, Unset;
    FragmentGoes(b, o, goals, N, c, f);
    var k := KidAt(Final(b, o), f).value;
    var c' := Step(c, k);
    StepUniq(c, k);
    MergeStable(b, c, goals[f], Content(b, o, f), N);
    assert c' == MergeIn(c, goals[f], Content(b, o, f));
    hide Step;
    forall p
      ensures NodeAt(b, p).Some? ==> NodeAt(c', p).Some?
      ensures Kept(Ph(b, p), Ph(c', p), MaxPhandle(b))
    {
      StepWrites(c, k, p, []);
      StepKept(b, o, goals, N, c, f, p);
    }
    forall x | Unset(b, o, goals, AliasesAt(b), x)
      ensures ValueAt(c', AliasesAt(b), x) == ValueAt(b, AliasesAt(b), x)
    {
      StepUnset(b, o, goals, N, c, f, AliasesAt(b), x);
    }
  }

  // ----- All fragments -----

  lemma NothingGrows(b: Forest, o: Forest, c: Forest, f: Str)
    requires Applies(b, o) && KidAt(Final(b, o), f).Some? && NodeAt(o, [f, OVERLAY]).None?
    ensures Step(c, KidAt(Final(b, o), f).value) == c
  {
    hide Applies, Final, Settled, Skel, Uniq, Mid, Adopted, MergeIn, Target, NodeAt, Ph;
    FinalIs(b, o);
    SkelNode(Final(b, o), o, [f, OVERLAY]);
    ThroughKid(Final(b, o), f);
    OwnSub(KidAt(Final(b, o), f).value, OVERLAY);
  }

  /** While all fragments are merged, the base grows as it should. frags is what is left. */
  lemma {:induction false} AllGrown(b: Forest, o: Forest, goals: Goals, N: Names, c: Forest, frags: Forest, f: Str)
    requires Applies(b, o) && Guarded(b, o, goals, N) && Tail(b, Final(b, o), c, frags) && Grown(b, o, goals, N, c)
    requires MergeAll(c, frags).Ok? && Uniq(frags)
    ensures KidAt(frags, f).Some? ==> Grown(b, o, goals, N, Before(b, Final(b, o), f))
    ensures Grown(b, o, goals, N, MergeAll(c, frags).v)
    decreases frags
  {
    hide Applies, Guarded, Grown, Final, Step, Before, NodeAt, Uniq, MergeAll, Tail, KidAt;
    match frags
    case Nil => NothingLeft(c); NoMore(f);
    case SubF(g, k, r) =>
      TailRest(b, Final(b, o), c, frags);
      UniqRest(frags);
      StepIs(c, g, k, r);
      if NodeAt(o, [g, OVERLAY]).Some? {
        FragmentGrown(b, o, goals, N, c, g);
      } else {
        NothingGrows(b, o, c, g);
      }
      AllGrown(b, o, goals, N, Step(c, k), r, f);
      MoreKids(frags, f);
    case NopF(r) =>
      TailRest(b, Final(b, o), c, frags);
      UniqRest(frags);
      PassOver(c, frags);
      AllGrown(b, o, goals, N, c, r, f);
      MoreKids(frags, f);
    case PropF(_, _, r) =>
      TailRest(b, Final(b, o), c, frags);
      UniqRest(frags);
      PassOver(c, frags);
      AllGrown(b, o, goals, N, c, r, f);
      MoreKids(frags, f);
  }

  lemma NoMore(f: Str)
    ensures KidAt(Nil, f) == None
  {
  }

  lemma UniqRest(frags: Forest)
    requires Uniq(frags) && !frags.Nil?
    ensures Uniq(frags.rest)
  {
  }

  lemma MoreKids(frags: Forest, f: Str)
    requires !frags.Nil?
    ensures KidAt(frags, f) == if frags.SubF? && frags.name == f then Some(frags.body) else KidAt(frags.rest, f)
  {
  }

  // ----- The theorems -----

  /** The result, and the base before each fragment, have grown out of the base. */
  lemma ResultGrown(b: Forest, o: Forest, goals: Goals, N: Names, f: Str)
    requires Applies(b, o) && Guarded(b, o, goals, N)
    ensures Grown(b, o, goals, N, Outcome(b, o))
    ensures KidAt(Final(b, o), f).Some? ==> Grown(b, o, goals, N, Before(b, Final(b, o), f))
  {
    hide Guarded, Grown, Final, Before, Uniq, MergeAll, Mid, Adopted, Skel, Ph, Sound, FixupsSound, PhandlesApart,
      Outcome, Resolved, Prevent, Settled;
    Stages(b, o);
    FinalIs(b, o);
    BaseGrown(b, o, goals, N);
    AllGrown(b, o, goals, N, b, Final(b, o), f);
  }

  /**
   * Every node of a guarded overlay is merged where goals and its names say, and has been matched with what is there.
   */
  lemma GuardedGoes(b: Forest, o: Forest, goals: Goals, N: Names, n: Path)
    requires Applies(b, o) && Guarded(b, o, goals, N) && InFragment(n) && NodeAt(o, n).Some?
    ensures MergedPath(b, Final(b, o), n) == Aim(b, goals, n) && MatchedPh(b, o, n) == Ph(b, Aim(b, goals, n))
    ensures NodeAt(Outcome(b, o), Aim(b, goals, n)).Some?
  {
    hide Applies, Guarded, Grown, Final, Before, StepPath, Aim, MatchedPh, Ph, NodeAt, Outcome, Merges;
    MatchedIs(b, o, goals, N, n);
    NodeMerged(b, o, n);
    ResultGrown(b, o, goals, N, n[0]);
    FragmentAims(b, o, goals, N, Before(b, Final(b, o), n[0]), n);
  }

  /** A guarded overlay keeps the phandles of the base, and no two nodes of the result share one. */
  lemma GuardedSafe(b: Forest, o: Forest, goals: Goals, N: Names)
    requires Applies(b, o) && Guarded(b, o, goals, N)
    ensures Safe(b, o) && BaseKept(b, Outcome(b, o)) && PhandlesApart(Outcome(b, o))
  {
    hide Applies, Guarded, Final, Giver, MergedPath, Aim, MatchedPh, Ph, NodeAt, Outcome, BaseKept, PhandlesApart,
      InFragment;
    forall p
      ensures SafeAt(b, o, p)
    {
      GiverIs(b, o, p);
      if Giver(b, Final(b, o), p).Some? {
        GuardedGoes(b, o, goals, N, Giver(b, Final(b, o), p).value);
      }
    }
    PhandlesSafe(b, o);
  }

  /**
   * References to a node of a guarded overlay follow if the base has a phandle there, or else if no later node gives
   * one.
   */
  lemma GuardedFollows(b: Forest, o: Forest, goals: Goals, N: Names, n: Path)
    requires Applies(b, o) && Guarded(b, o, goals, N) && InFragment(n) && Ph(o, n) != 0
    ensures Follows(b, o, n) <==> Ph(b, Aim(b, goals, n)) != 0 || Giver(b, Final(b, o), Aim(b, goals, n)) == Some(n)
  {
    hide Applies, Guarded, Final, Giver, MergedPath, Aim, MatchedPh, Ph, NodeAt, Outcome, InFragment;
    PhNode(o, n);
    GuardedGoes(b, o, goals, N, n);
    var p := Aim(b, goals, n);
    GiverIs(b, o, p);
    if Giver(b, Final(b, o), p).Some? {
      GuardedGoes(b, o, goals, N, Giver(b, Final(b, o), p).value);
    }
  }

  lemma PhNode(o: Forest, n: Path)
    requires Ph(o, n) != 0
    ensures NodeAt(o, n).Some?
  {
  }
}
