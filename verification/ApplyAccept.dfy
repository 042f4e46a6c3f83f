/**
 * When libfdt applies an overlay, from the conflicts on (libs/libfdt/fdt_overlay.c): what it asks of the fragments'
 * targets before and while it merges, and the exact condition for the whole call to succeed.
 */
module ApplyAccept {
  import opened Bytes
  import opened Tree
  import opened Encoding
  import opened Positions
  import opened Edits
  import opened Merge
  import opened Sem
  import opened FixupText
  import opened Overlay
  import opened OverlaySteps
  import opened Skeleton
  import opened Refs
  import opened Conflicts
  import opened Lookups
  import opened Merged
  import opened OverlayProof
  import opened Targets
  import opened BaseRefs
  import opened Paths
  import opened UfdtSizes
  import opened UfdtAccept
  import opened OverlayAccept

  // ----- What a target has to be -----

  /** The fragment with content k gives no phandle as its target. */
  predicate Unpointed(k: Forest) {
    match Data(k, TARGET)
    case None => true
    case Some(d) => |d| == 4 && Get32(d, 0) == 0
  }

  /** The target of the fragment, if there is one, is a phandle. */
  predicate OneCell(k: Forest) {
    match Data(k, TARGET)
    case None => true
    case Some(d) => |d| == 4 && Get32(d, 0) != U32 - 1
  }

  /** s begins as a path does: with a slash, or with an alias. */
  predicate BeginsPath(b: Forest, s: Str) {
    s != [] && (s[0] == SLASH || match AliasValue(b, s[..Word(s)]) case None => false case Some(v) => IsAlias(v))
  }

  /** A fragment's target can be read, if not found: it is one cell, or there is a path. */
  predicate Readable(b: Forest, k: Forest) {
    && OneCell(k)
    && (Unpointed(k) ==> Data(k, TARGET_PATH).Some? && BeginsPath(b, CStr(Data(k, TARGET_PATH).value)))
  }

  /**
   * The fragment with content k is for the node at t: the first with the phandle that target holds, or that of the
   * path.
   */
  predicate Goes(c: Forest, k: Forest, t: Path) {
    && OneCell(k) && NodeAt(c, t).Some?
    && if Unpointed(k) then Data(k, TARGET_PATH).Some? && Lookup(c, CStr(Data(k, TARGET_PATH).value)) == Ok(t)
       else PhandlePath(c, Get32(Data(k, TARGET).value, 0)) == Some(t)
  }

  lemma BeginsFound(b: Forest, s: Str)
    ensures Lookup(b, s).Ok? || Lookup(b, s) == Err(-NOTFOUND) <==> BeginsPath(b, s)
  {
    hide Resolve, Comps;
  }

  lemma TargetRead(b: Forest, k: Forest)
    ensures Target(b, k).Ok? || Target(b, k) == Err(-NOTFOUND) <==> Readable(b, k)
  {
    hide Lookup, PhandlePath, BeginsPath, Get32, CStr;
    if HasProp(k, TARGET_PATH) {
      BeginsFound(b, CStr(PropData(k, TARGET_PATH)));
    }
  }

  lemma TargetThere(b: Forest, k: Forest)
    requires Uniq(b)
    ensures Target(b, k).Ok? ==> NodeAt(b, Target(b, k).v).Some?
  {
    hide Lookup, PhandlePath, Get32, CStr, NodeAt;
    if HasProp(k, TARGET) && |PropData(k, TARGET)| == 4 {
      PhandlePathFinds(b, Get32(PropData(k, TARGET), 0), []);
    }
    if HasProp(k, TARGET_PATH) {
      LookupThere(b, CStr(PropData(k, TARGET_PATH)));
    }
  }

  lemma MergesIff(c: Forest, k: Forest)
    ensures Merges(c, k) <==> HasSub(k, OVERLAY) && exists t :: Goes(c, k, t)
    ensures forall t | Goes(c, k, t) :: Target(c, k) == Ok(t)
  {
    hide Lookup, PhandlePath, Get32, CStr, NodeAt, HasSub;
    if Merges(c, k) {
      assert Goes(c, k, Target(c, k).v);
    }
  }

  /** Which error a target gives that is not found. */
  lemma TargetFails(c: Forest, k: Forest)
    requires Target(c, k).Err?
    ensures Target(c, k).code ==
            if !OneCell(k) then -BADPHANDLE
            else if !Unpointed(k) then -NOTFOUND
            else if Data(k, TARGET_PATH).None? then -BADOVERLAY
            else if BeginsPath(c, CStr(Data(k, TARGET_PATH).value)) then -NOTFOUND
            else -BADPATH
  {
    hide Lookup, PhandlePath, BeginsPath, Get32, CStr;
    if HasProp(k, TARGET_PATH) {
      LookupFails(c, CStr(PropData(k, TARGET_PATH)));
    }
  }

  lemma LookupFails(b: Forest, s: Str)
    ensures Lookup(b, s).Err? ==> Lookup(b, s).code == if BeginsPath(b, s) then -NOTFOUND else -BADPATH
  {
    hide Resolve, Comps;
  }

  /**
   * Which error a label gives: there are no symbols, the symbol is no path, or there is no such symbol, node or
   * phandle.
   */
  lemma SymbolFails(b: Forest, y: Str)
    requires SymbolPhandle(b, y).Err?
    ensures SymbolPhandle(b, y).code ==
            if Resolve(b, [SYMBOLS]).None? then -BADOFFSET
            else if LabelText(b, y).Some? && !BeginsPath(b, LabelText(b, y).value) then -BADPATH
            else -NOTFOUND
  {
    hide Lookup, CStr, NodeAt, BeginsPath, Phandle, Meant, ValueAt;
    SymbolsAt(b, y);
    assert [SYMBOLS][1..] == [] && (HasSub(b, SYMBOLS) ==> Resolve(SubBody(b, SYMBOLS), []) == Some([]));
    if HasSub(b, SYMBOLS) && HasProp(SubBody(b, SYMBOLS), y) {
      var s := CStr(PropData(SubBody(b, SYMBOLS), y));
      LookupThere(b, s);
      if Lookup(b, s).Err? {
        LookupFails(b, s);
      } else {
        BeginsFound(b, s);
      }
    }
  }

  /** The text of the symbol y of the base. */
  function LabelText(b: Forest, y: Str): Option<Str> {
    match ValueAt(b, [Meant(b, SYMBOLS)], y)
    case None => None
    case Some(d) => Some(CStr(d))
  }

  /** Which error an entry gives: there is no such node, no such property, or the cell is not inside its value. */
  lemma EntryFails(o: Forest, e: Fixup, v: nat)
    requires v < U32 && e.path != [] && e.path[0] == SLASH && FixOne(o, e, v).Err?
    ensures FixOne(o, e, v).code ==
            match Resolve(o, Comps(e.path))
            case None => -BADOVERLAY
            case Some(p) =>
              match ValueAt(o, p, e.prop)
              case None => -NOTFOUND
              case Some(d) => if |d| < (e.off + 4) % U32 then -NOSPACE else WILD
  {
    hide Comps, Resolve, PutAt, PutProp, Overwrite, Put32;
    LookupThere(o, e.path);
  }

  // ----- Before the merge -----

  /** The values are alike as targets: as long, and neither or both 0, neither or both the largest number. */
  predicate SameKind(d: Option<Str>, e: Option<Str>) {
    && d.Some? == e.Some?
    && (d.Some? ==> |d.value| == |e.value|)
    && (d.Some? && |d.value| == 4 ==>
          && (Get32(d.value, 0) == 0 <==> Get32(e.value, 0) == 0)
          && (Get32(d.value, 0) == U32 - 1 <==> Get32(e.value, 0) == U32 - 1))
  }

  ghost predicate TargetKept(o3: Forest, o: Forest, f: Str) {
    && SameKind(ValueAt(o3, [f], TARGET), ValueAt(o, [f], TARGET))
    && ValueAt(o, [f], TARGET_PATH) == ValueAt(o3, [f], TARGET_PATH)
  }

  /** No phandle is the largest number, nor is one exchanged for that. */
  ghost predicate Small(o: Forest, delta: nat) {
    (forall p :: Ph(o, p) < U32 - 1) && (delta < U32 - 1 || forall p :: Ph(o, p) == 0)
  }

  /** No local fixup is about a fragment's target-path. */
  ghost predicate PathsUnlisted(o: Forest) {
    forall f :: Lists(o, [f], TARGET_PATH) == None
  }

  /** What is kept while the conflicts are resolved; o0 is the overlay as it was passed in, o3 as it is at first. */
  ghost predicate Turn(o0: Forest, o3: Forest, o: Forest, delta: nat) {
    && Sound(o0) && LocalsFit(o0) && PathsUnlisted(o0)
    && SameLists(o0, o) && Agreeing(o) && Alike(o0, o) && Small(o, delta) && forall f :: TargetKept(o3, o, f)
  }

  lemma SetCellAlike(b: Forest, x: Str, v: nat)
    requires v < U32
    ensures Alike(b, SetCell(b, x, v))
  {
    hide Put32, Get32;
    AlikeSelf(b);
    if CellOf(b, x).Some? {
      PropAlike(b, x, Put32(v));
    }
  }

  lemma RephandledAlike(o: Forest, q: Path, v: nat)
    requires NodeAt(o, q).Some? && v < U32
    ensures Alike(o, PutAt(o, q, SetPhandle(NodeAt(o, q).value, v)))
  {
    hide SetCell, Alike, PutAt, NodeAt;
    var k := NodeAt(o, q).value;
    SetCellAlike(k, PHANDLE, v);
    SetCellAlike(SetCell(k, PHANDLE, v), LINUX_PHANDLE, v);
    AlikeTrans(k, SetCell(k, PHANDLE, v), SetPhandle(k, v));
    PutAtAlike(o, q, SetPhandle(k, v));
  }

  /** The lists fit however the phandles are changed, so a conflict can be resolved. */
  lemma RenameOk(o0: Forest, o: Forest, q: Path, v: nat)
    requires Sound(o0) && LocalsFit(o0) && SameLists(o0, o) && Agreeing(o) && Alike(o0, o)
    requires NodeAt(o, q).Some? && v < U32
    ensures Rename(o, q, v).Ok? && Alike(o0, Rename(o, q, v).v)
  {
    hide Sound, LocalsFit, SameLists, Agreeing, Alike, PutAt, SetPhandle, NodeAt, RewriteLocal, Rephandled, Listing,
      Lists, ListsSound, Uniq, ValueAt;
    var o1 := PutAt(o, q, SetPhandle(NodeAt(o, q).value, v));
    SetPhandleRephandles(o, q, v);
    RephandledSound(o0, o, o1, q, v);
    RephandledAlike(o, q, v);
    AlikeTrans(o0, o, o1);
    SoundParts(o0);
    LocalsSame(o0, o1);
    AlikeSkel(o0, o1);
    SkelUniq(o0, o1);
    SkelMeant(o0, o1, LOCAL_FIXUPS);
    RewriteLocalOk(o1, Replacing(Phandle(NodeAt(o, q).value), v));
    AlikeTrans(o0, o1, RewriteLocal(o1, Replacing(Phandle(NodeAt(o, q).value), v)).v);
  }

  lemma {:induction false} OnlyFirst(d: Str, l: Str, g: nat -> nat)
    requires |d| == 4 && MapCells(d, l, g).Some?
    ensures Listed(l, 0) || Apart(l, 0)
    decreases |l|
  {
    hide Get32, Put32, Overwrite;
    if |l| >= 4 && Get32(l, 0) != 0 {
      assert false;
    }
  }

  /** A listed target that is no zero and not the largest number is exchanged for another such. */
  lemma KindKept(d: Option<Str>, l: Option<Str>, u: nat, v: nat)
    requires 0 < u < U32 - 1 && 0 < v < U32 - 1
    requires l.Some? ==> d.Some? && Spread(l.value) && Rewritten(d, l, Replacing(u, v)).Some?
    ensures SameKind(d, Rewritten(d, l, Replacing(u, v)))
  {
    hide Get32, Spread, Listed, Apart;
    if l.Some? && |d.value| == 4 {
      OnlyFirst(d.value, l.value, Replacing(u, v));
      MapCellsGet(d.value, l.value, Replacing(u, v), 0);
      ReplacingFits(u, v, Get32(d.value, 0));
    }
  }

  lemma SameKindTrans(d: Option<Str>, e: Option<Str>, h: Option<Str>)
    requires SameKind(d, e) && SameKind(e, h)
    ensures SameKind(d, h)
  {
  }

  lemma RenamedTarget(o0: Forest, o3: Forest, o: Forest, q: Path, v: nat, f: Str)
    requires Sound(o0) && SameLists(o0, o) && Agreeing(o) && PathsUnlisted(o0) && TargetKept(o3, o, f)
    requires NodeAt(o, q).Some? && 0 < v < U32 - 1 && 0 < Ph(o, q) < U32 - 1 && Rename(o, q, v).Ok?
    ensures TargetKept(o3, Rename(o, q, v).v, f)
  {
    hide PutAt, SetPhandle, ValueAt, Skel, CellIn, RewriteLocal, Lists, Sound, Listing, Rewritten, SameKind, Agreeing,
      NodeAt, PathsUnlisted, IsPhandle, RefsHold, Replacing, Spread;
    var k := NodeAt(o, q).value;
    var o1 := PutAt(o, q, SetPhandle(k, v));
    var g := Replacing(Phandle(k), v);
    RootPh(o, q, Nil);
    SetPhandleRephandles(o, q, v);
    RephandledSound(o0, o, o1, q, v);
    NotPhandles();
    assert ListsSound(o1, [f], TARGET);
    RewriteLocalAt(o1, g, [f], TARGET);
    KindKept(ValueAt(o1, [f], TARGET), Lists(o1, [f], TARGET), Phandle(k), v);
    SameKindTrans(ValueAt(o3, [f], TARGET), ValueAt(o1, [f], TARGET), ValueAt(Rename(o, q, v).v, [f], TARGET));
    PathUnlisted(o0, f);
    RewriteLocalAt(o1, g, [f], TARGET_PATH);
    NoList(o1, g, [f], TARGET_PATH);
  }

  lemma PathUnlisted(o: Forest, f: Str)
    requires PathsUnlisted(o)
    ensures Lists(o, [f], TARGET_PATH) == None
  {
  }

  lemma RenameTurn(o0: Forest, o3: Forest, o: Forest, delta: nat, q: Path, v: nat)
    requires Turn(o0, o3, o, delta) && NodeAt(o, q).Some? && Ph(o, q) != 0 && 0 < v <= delta && v < U32
    ensures Rename(o, q, v).Ok? && Turn(o0, o3, Rename(o, q, v).v, delta)
  {
    hide Sound, LocalsFit, SameLists, Alike, Rename, NodeAt, Ph, ValueAt, CellIn, TargetKept, PathsUnlisted, Lists;
    RenameOk(o0, o, q, v);
    var o' := Rename(o, q, v).v;
    RenamedSkel(o0, o, q, v);
    forall p
      ensures Ph(o', p) == if p == q then v else Ph(o, p)
    {
      RenamedPh(o0, o, q, v, p, []);
    }
    forall p, x | IsPhandle(x) && ValueAt(o', p, x).Some?
      ensures CellIn(ValueAt(o', p, x)) == Some(Ph(o', p))
    {
      RenamedPh(o0, o, q, v, p, x);
    }
    forall f
      ensures TargetKept(o3, o', f)
    {
      RenamedTarget(o0, o3, o, q, v, f);
    }
  }

  lemma TurnSkel(o0: Forest, o3: Forest, o: Forest, delta: nat)
    requires Turn(o0, o3, o, delta)
    ensures Skel(o) == Skel(o0) && Uniq(o0) && Specials(o0) && forall f :: TargetKept(o3, o, f)
  {
  }

  // ----- The conflicts -----

  /** Once the target of a fragment is found, nothing can fail in it. */
  lemma {:induction false} PreventNodeOk(o0: Forest, o3: Forest, o: Forest, delta: nat, q: Path, bb: Forest,
                                         shape: Forest)
    requires Turn(o0, o3, o, delta) && Uniq(shape) && Bounded(bb, delta)
    requires NodeAt(o0, q).Some? && Skel(NodeAt(o0, q).value) == Skel(shape)
    ensures PreventNode(o, q, bb, shape).Ok? && Turn(o0, o3, PreventNode(o, q, bb, shape).v, delta)
    decreases shape, 1
  {
    hide Turn, Rename, PreventSubs, Skel, Ph, NodeAt, Uniq, Shapes;
    TurnSkel(o0, o3, o, delta);
    SkelNodeOf(o0, o, q, shape);
    RootPh(o, q, bb);
    assert Ph(bb, []) <= delta;
    var c := Phandle(bb) != 0 && Phandle(NodeAt(o, q).value) != 0;
    if c {
      RenameTurn(o0, o3, o, delta, q, Phandle(bb));
    }
    ShapesOf(o0, q, shape);
    PreventSubsOk(o0, o3, if c then Rename(o, q, Phandle(bb)).v else o, delta, q, bb, shape);
  }

  lemma {:induction false} PreventSubsOk(o0: Forest, o3: Forest, o: Forest, delta: nat, q: Path, bb: Forest,
                                         shape: Forest)
    requires Turn(o0, o3, o, delta) && Uniq(shape) && Bounded(bb, delta) && Shapes(o0, q, shape)
    ensures PreventSubs(o, q, bb, shape).Ok? && Turn(o0, o3, PreventSubs(o, q, bb, shape).v, delta)
    decreases shape, 0
  {
    hide Turn, PreventNode, Skel, Ph, NodeAt, HasSub, SubBody, Bounded, KidAt, Through;
    match shape
    case Nil =>
    case SubF(n, k, r) =>
      ThroughSplit(o0, q, shape);
      if HasSub(bb, n) {
        SubBounded(bb, n, delta);
        PreventNodeOk(o0, o3, o, delta, q + [n], SubBody(bb, n), k);
      }
      PreventSubsOk(o0, o3, if HasSub(bb, n) then PreventNode(o, q + [n], SubBody(bb, n), k).v else o, delta, q, bb, r);
    case NopF(r) =>
      ShapesRest(o0, q, shape);
      PreventSubsOk(o0, o3, o, delta, q, bb, r);
    case PropF(_, _, r) =>
      ShapesRest(o0, q, shape);
      PreventSubsOk(o0, o3, o, delta, q, bb, r);
  }

  lemma ShapesRest(o0: Forest, q: Path, shape: Forest)
    requires Shapes(o0, q, shape) && Uniq(shape) && (shape.NopF? || shape.PropF?)
    ensures Shapes(o0, q, shape.rest) && Uniq(shape.rest)
  {
    hide Skel, NodeAt;
    assert forall n :: KidAt(shape.rest, n) == KidAt(shape, n);
  }

  lemma KeptReadable(b: Forest, o3: Forest, o: Forest, f: Str)
    requires KidAt(o3, f).Some? && KidAt(o, f).Some? && TargetKept(o3, o, f)
    ensures Readable(b, KidAt(o, f).value) == Readable(b, KidAt(o3, f).value)
  {
    hide BeginsPath, Get32, CStr;
    KidIsNode(o3, f);
    KidIsNode(o, f);
    assert forall x :: ValueAt(o3, [f], x) == Data(KidAt(o3, f).value, x);
    assert forall x :: ValueAt(o, [f], x) == Data(KidAt(o, f).value, x);
  }

  lemma FragmentNamed(o0: Forest, f: Str, k: Forest)
    requires Specials(o0) && KidAt(o0, f).Some? && Skel(KidAt(o0, f).value) == Skel(k)
    ensures OwnName(k, OVERLAY)
  {
    hide Skel;
    SkelMeant(KidAt(o0, f).value, k, OVERLAY);
  }

  lemma FragmentThere(o0: Forest, o: Forest, f: Str, k: Forest)
    requires Skel(o) == Skel(o0) && Specials(o0) && Uniq(k)
    requires NodeAt(o0, [f]).Some? && Skel(NodeAt(o0, [f]).value) == Skel(k)
    ensures KidAt(o, f).Some?
    ensures HasSub(k, OVERLAY) ==>
              && SubName(k, OVERLAY) == OVERLAY && Uniq(SubBody(k, OVERLAY))
              && NodeAt(o0, [f, OVERLAY]).Some? && Skel(NodeAt(o0, [f, OVERLAY]).value) == Skel(SubBody(k, OVERLAY))
  {
    hide Skel, NodeAt, Specials, Meant, HasSub, SubBody, SubName, Uniq;
    KidIsNode(o0, f);
    KidIsNode(o, f);
    SkelNode(o, o0, [f]);
    FragmentNamed(o0, f, k);
    OwnSub(k, OVERLAY);
    OverlaySkel(o0, f, k);
    KidUniq(k, OVERLAY);
  }

  lemma FragmentTurn(b: Forest, o0: Forest, o3: Forest, o: Forest, delta: nat, f: Str, k: Forest, t: Path)
    requires Turn(o0, o3, o, delta) && Bounded(b, delta) && Uniq(k) && NodeAt(b, t).Some? && HasSub(k, OVERLAY)
    requires NodeAt(o0, [f]).Some? && Skel(NodeAt(o0, [f]).value) == Skel(k)
    ensures SubName(k, OVERLAY) == OVERLAY
    ensures var r := PreventNode(o, [f, OVERLAY], NodeAt(b, t).value, SubBody(k, OVERLAY));
            r.Ok? && Turn(o0, o3, r.v, delta)
  {
    hide Turn, PreventNode, Skel, NodeAt, HasSub, SubBody, SubName, Bounded, Uniq, Specials, TargetKept;
    TurnSkel(o0, o3, o, delta);
    FragmentThere(o0, o, f, k);
    BoundedAt(b, t, delta);
    PreventNodeOk(o0, o3, o, delta, [f, OVERLAY], NodeAt(b, t).value, SubBody(k, OVERLAY));
  }

  lemma PreventFragmentOk(b: Forest, o0: Forest, o3: Forest, o: Forest, delta: nat, f: Str, k: Forest)
    requires Turn(o0, o3, o, delta) && Turn(o0, o3, o3, delta) && Uniq(b) && Bounded(b, delta) && Uniq(k)
    requires NodeAt(o0, [f]).Some? && Skel(NodeAt(o0, [f]).value) == Skel(k)
    ensures PreventFragment(b, o, f, k).Ok? <==> ReadableIn(b, o3, f, k)
    ensures PreventFragment(b, o, f, k).Ok? ==> Turn(o0, o3, PreventFragment(b, o, f, k).v, delta)
  {
    hide Turn, Target, PreventNode, Skel, NodeAt, HasSub, SubBody, SubName, Bounded, Uniq, TargetKept, Readable,
      Specials;
    TurnSkel(o0, o3, o, delta);
    TurnSkel(o0, o3, o3, delta);
    FragmentThere(o0, o, f, k);
    FragmentThere(o0, o3, f, k);
    if HasSub(k, OVERLAY) {
      KeptReadable(b, o3, o, f);
      TargetRead(b, KidAt(o, f).value);
      TargetThere(b, KidAt(o, f).value);
      if Target(b, KidAt(o, f).value).Ok? {
        FragmentTurn(b, o0, o3, o, delta, f, k, Target(b, KidAt(o, f).value).v);
      }
    }
  }

  /** If the fragment f, with content k, is merged, its target can be read in o. */
  predicate ReadableIn(b: Forest, o: Forest, f: Str, k: Forest) {
    HasSub(k, OVERLAY) ==> KidAt(o, f).Some? && Readable(b, KidAt(o, f).value)
  }

  /** The fragments of frags that are merged have targets that can be read in o. */
  ghost predicate AllReadable(b: Forest, o: Forest, frags: Forest) {
    forall f | KidAt(frags, f).Some? :: ReadableIn(b, o, f, KidAt(frags, f).value)
  }

  lemma ReadableSplit(b: Forest, o: Forest, frags: Forest)
    requires Uniq(frags)
    ensures frags.Nil? ==> AllReadable(b, o, frags)
    ensures frags.NopF? || frags.PropF? ==> (AllReadable(b, o, frags) <==> AllReadable(b, o, frags.rest))
    ensures frags.SubF? ==>
              (AllReadable(b, o, frags) <==>
               ReadableIn(b, o, frags.name, frags.body) && AllReadable(b, o, frags.rest))
  {
    hide ReadableIn;
    if frags.SubF? {
      assert KidAt(frags, frags.name) == Some(frags.body);
      assert forall g | KidAt(frags.rest, g).Some? :: g != frags.name && KidAt(frags, g) == KidAt(frags.rest, g);
    } else if !frags.Nil? {
      assert forall g :: KidAt(frags.rest, g) == KidAt(frags, g);
    }
  }

  /** The conflicts can be resolved exactly if every target can be read. */
  lemma {:induction false} PreventOk(b: Forest, o0: Forest, o3: Forest, o: Forest, delta: nat, frags: Forest)
    requires Turn(o0, o3, o, delta) && Turn(o0, o3, o3, delta) && Uniq(b) && Bounded(b, delta)
    requires Uniq(frags) && Shapes(o0, [], frags)
    ensures Prevent(b, o, frags).Ok? <==> AllReadable(b, o3, frags)
    ensures Prevent(b, o, frags).Ok? ==> Turn(o0, o3, Prevent(b, o, frags).v, delta)
    decreases frags
  {
    hide Turn, PreventFragment, Skel, NodeAt, Bounded, KidAt, Through, ReadableIn, AllReadable;
    ReadableSplit(b, o3, frags);
    match frags
    case Nil =>
    case SubF(f, k, r) =>
      ThroughSplit(o0, [], frags);
      assert [] + [f] == [f];
      PreventFragmentOk(b, o0, o3, o, delta, f, k);
      if PreventFragment(b, o, f, k).Ok? {
        PreventOk(b, o0, o3, PreventFragment(b, o, f, k).v, delta, r);
      }
    case NopF(r) =>
      ShapesRest(o0, [], frags);
      PreventOk(b, o0, o3, o, delta, r);
    case PropF(_, _, r) =>
      ShapesRest(o0, [], frags);
      PreventOk(b, o0, o3, o, delta, r);
  }

  // ----- The merge -----

  /** Each fragment is for a node that there is when its turn comes. */
  ghost predicate AllMerges(c: Forest, frags: Forest) {
    forall f | KidAt(frags, f).Some? && HasSub(KidAt(frags, f).value, OVERLAY) ::
      exists t :: Goes(Before(c, frags, f), KidAt(frags, f).value, t)
  }

  lemma MergesSplit(c: Forest, frags: Forest)
    requires Uniq(frags)
    ensures frags.Nil? ==> AllMerges(c, frags)
    ensures frags.NopF? || frags.PropF? ==> (AllMerges(c, frags) <==> AllMerges(c, frags.rest))
    ensures frags.SubF? ==>
              (AllMerges(c, frags) <==>
               (HasSub(frags.body, OVERLAY) ==> Merges(c, frags.body)) && AllMerges(Step(c, frags.body), frags.rest))
  {
    hide Merges, Goes, Step, HasSub;
    match frags
    case Nil =>
    case SubF(f, k, r) =>
      MergesIff(c, k);
      assert KidAt(frags, f) == Some(k) && Before(c, frags, f) == c;
      forall g | KidAt(r, g).Some?
        ensures g != f && KidAt(frags, g) == KidAt(r, g) && Before(c, frags, g) == Before(Step(c, k), r, g)
      {
      }
    case _ =>
      assert forall g :: KidAt(frags.rest, g) == KidAt(frags, g) && Before(c, frags, g) == Before(c, frags.rest, g);
  }

  lemma {:induction false} MergeAllOk(c: Forest, frags: Forest)
    requires Uniq(frags)
    ensures MergeAll(c, frags).Ok? <==> AllMerges(c, frags)
    decreases frags
  {
    hide AllMerges, HasSub, Target, Apply, PutAt, NodeAt;
    MergesSplit(c, frags);
    match frags
    case Nil =>
    case SubF(f, k, r) => if !HasSub(k, OVERLAY) || Merges(c, k) { MergeAllOk(Step(c, k), r); }
    case NopF(r) => MergeAllOk(c, r);
    case PropF(_, _, r) => MergeAllOk(c, r);
  }

  // ----- The theorem -----

  lemma {:induction false} SmallPhandle(o: Forest, delta: nat, p: Path)
    requires PhandlesFit(o, delta)
    ensures Ph(o, p) == 0 || Ph(o, p) + delta < U32 - 1
  {
    hide ValueAt;
    PhIs(o, p);
    assert IsPhandle(PHANDLE) && IsPhandle(LINUX_PHANDLE);
    assert CanShift(ValueAt(o, p, PHANDLE), delta) && CanShift(ValueAt(o, p, LINUX_PHANDLE), delta);
  }

  lemma SettledTurn(b: Forest, o: Forest)
    requires Sound(o) && FixupsSound(o) && PathsUnlisted(o) && Resolved(b, o).Ok?
    ensures Turn(o, Resolved(b, o).v, Resolved(b, o).v, MaxPhandle(b))
    ensures Uniq(Resolved(b, o).v) && Shapes(o, [], Resolved(b, o).v)
  {
    hide Sound, FixupsSound, PathsUnlisted, PhandlesFit, LocalsFit, LabelsFit, Shift, RewriteLocal, Fixups, Ph, ValueAt,
      Alike, Agreeing, RefsHold, Skel, SameKind, Uniq;
    var o3 := Resolved(b, o).v;
    SettledOk(b, o);
    FixupsHold(b, o, MaxPhandle(b));
    SoundParts(o);
    SkelUniq(o, o3);
    ShapesSelf(o, o3);
    forall p
      ensures Ph(o3, p) < U32 - 1 && (Ph(o3, p) != 0 ==> MaxPhandle(b) < U32 - 1)
    {
      SmallPhandle(o, MaxPhandle(b), p);
    }
    forall f
      ensures TargetKept(o3, o3, f)
    {
      AnyKind(ValueAt(o3, [f], TARGET));
    }
  }

  lemma AnyKind(d: Option<Str>)
    ensures SameKind(d, d)
  {
  }

  /**
   * fdt_overlay_apply up to the update of the symbols succeeds exactly if the overlay's phandles fit above the base's,
   * the local fixups lead to cells of the overlay, every label of __fixups__ leads to a base node with a phandle and
   * its entries to cells of the overlay, the fragments' targets can be read, and each is for a node there is at its
   * turn.
   */
  lemma ApplyOk(b: Forest, o: Forest)
    requires Uniq(b) && Sound(o) && FixupsSound(o) && PathsUnlisted(o)
    ensures OverlayApply(b, o).Ok? <==>
            && PhandlesFit(o, MaxPhandle(b)) && LocalsFit(o) && LabelsFit(b, o)
            && AllReadable(b, Settled(b, o), Settled(b, o)) && AllMerges(b, Final(b, o))
  {
    hide Uniq, Sound, FixupsSound, PathsUnlisted, Resolved, Prevent, MergeAll, PhandlesFit, LocalsFit, LabelsFit,
      AllReadable, AllMerges, Turn, Shapes, Alike, Skel;
    var delta := MaxPhandle(b);
    SettledOk(b, o);
    if Resolved(b, o).Ok? {
      var o3 := Resolved(b, o).v;
      SettledTurn(b, o);
      BaseBounded(b);
      PreventOk(b, o, o3, o3, delta, o3);
      if Prevent(b, o3, o3).Ok? {
        var o' := Prevent(b, o3, o3).v;
        TurnSkel(o, o3, o', delta);
        SkelUniq(o, o');
        MergeAllOk(b, o');
      }
    }
  }
}
