/**
 * References from an overlay into the base: what a cell that __fixups__ lists holds when the overlay has been
 * prepared, and what it holds in the result.
 */
module BaseRefs {
  import opened Bytes
  import opened Tree
  import opened Encoding
  import opened Positions
  import opened Edits
  import opened Merge
  import opened Sem
  import opened Writers
  import opened FixupText
  import opened Overlay
  import opened OverlaySteps
  import opened Skeleton
  import opened Refs
  import opened Conflicts
  import opened Lookups
  import opened Merged
  import opened OverlayProof
  import opened Targets

  // ----- The node that a label of the base stands for -----

  /** The node of the base that its symbol y leads to. */
  function LabelNode(b: Forest, y: Str): Option<Path> {
    match ValueAt(b, [Meant(b, SYMBOLS)], y)
    case None => None
    case Some(d) => match Lookup(b, CStr(d)) case Ok(t) => Some(t) case Err(_) => None
  }

  lemma SymbolsAt(b: Forest, y: Str)
    ensures ValueAt(b, [Meant(b, SYMBOLS)], y) == if HasSub(b, SYMBOLS) then Data(SubBody(b, SYMBOLS), y) else None
  {
    SubIsMeant(b, SYMBOLS);
    KidIsNode(b, Meant(b, SYMBOLS));
  }

  lemma LookupThere(b: Forest, s: Str)
    ensures Lookup(b, s).Ok? ==> NodeAt(b, Lookup(b, s).v).Some?
  {
    hide PathNames, Resolve, NodeAt;
    LookupNames(b, s);
    if PathNames(b, s).Ok? {
      ResolveInto(b, PathNames(b, s).v);
    }
  }

  /** fdt_overlay_fixup_phandle finds a phandle for a label exactly if the label leads to a node with one: that one. */
  lemma SymbolIsNode(b: Forest, y: Str)
    ensures SymbolPhandle(b, y).Ok? <==> LabelNode(b, y).Some? && Ph(b, LabelNode(b, y).value) != 0
    ensures SymbolPhandle(b, y).Ok? ==> SymbolPhandle(b, y).v == Ph(b, LabelNode(b, y).value)
  {
    hide Lookup, NodeAt, CStr, Phandle, HasSub, SubBody, HasProp, PropData, ValueAt;
    SymbolsAt(b, y);
    if HasSub(b, SYMBOLS) && HasProp(SubBody(b, SYMBOLS), y) {
      LookupThere(b, CStr(PropData(SubBody(b, SYMBOLS), y)));
    }
  }

  // ----- The entries -----

  /** e is one of the entries that the overlay's fixups list under the label y. */
  ghost predicate EntryOf(o: Forest, y: Str, e: Fixup) {
    && ValueAt(o, [FIXUPS], y).Some? && FdtEntries(ValueAt(o, [FIXUPS], y).value).Some?
    && e in FdtEntries(ValueAt(o, [FIXUPS], y).value).value
  }

  /** The entry e is about bytes of the cell at offset i of property x of the node at path p. */
  predicate Touches(o: Forest, e: Fixup, p: Path, x: Str, i: nat) {
    e.prop == x && Resolve(o, Comps(e.path)) == Some(p) && e.off < i + 4 && i < e.off + 4
  }

  /** Every entry that is about bytes of that cell is about that cell, and is of the label y. */
  ghost predicate Alone(o: Forest, y: Str, p: Path, x: Str, i: nat) {
    forall y', e | EntryOf(o, y', e) && Touches(o, e, p, x, i) :: y' == y && e.off == i
  }

  // ----- One entry after the other -----

  lemma FixOneCell(o0: Forest, o: Forest, e: Fixup, v: nat, p: Path, x: Str, i: nat)
    requires Skel(o) == Skel(o0) && v < U32 && e.path != [] && e.path[0] == SLASH && FixOne(o, e, v).Ok?
    ensures Skel(FixOne(o, e, v).v) == Skel(o0)
    ensures Touches(o0, e, p, x, i) && e.off == i ==> Cell(FixOne(o, e, v).v, p, x, i) == Some(v)
    ensures !Touches(o0, e, p, x, i) ==> Cell(FixOne(o, e, v).v, p, x, i) == Cell(o, p, x, i)
  {
    hide Comps, Resolve, PutAt, PutProp, Skel, NodeAt, Overwrite, Get32, Put32;
    SkelResolve(o, o0, Comps(e.path));
    var q := Lookup(o, e.path).v;
    var k := NodeAt(o, q).value;
    var c := PropData(k, e.prop);
    var d := Overwrite(c, e.off, Put32(v));
    PutPropAt(o, q, e.prop, d, p, x);
    ValueHere(o, q, e.prop);
    SkelPutProp(k, e.prop, d);
    SkelPutAt(o, q, PutProp(k, e.prop, d));
    OverwriteCell(c, e.off, v);
    if p == q && x == e.prop && i + 4 <= |c| && !Touches(o0, e, p, x, i) {
      OverwriteElse(c, e.off, Put32(v), i);
    }
  }

  /** One of the entries is about that cell. */
  ghost predicate Hit(o: Forest, es: seq<Fixup>, p: Path, x: Str, i: nat) {
    exists e :: e in es && Touches(o, e, p, x, i)
  }

  lemma {:induction false} FixEachCell(o0: Forest, o: Forest, es: seq<Fixup>, v: nat, p: Path, x: Str, i: nat)
    requires Skel(o) == Skel(o0) && v < U32 && FixEach(o, es, v).Ok?
    requires forall e | e in es :: e.path != [] && e.path[0] == SLASH
    requires forall e | e in es && Touches(o0, e, p, x, i) :: e.off == i
    ensures Skel(FixEach(o, es, v).v) == Skel(o0)
    ensures Hit(o0, es, p, x, i) || Cell(o, p, x, i) == Some(v) ==> Cell(FixEach(o, es, v).v, p, x, i) == Some(v)
    ensures !Hit(o0, es, p, x, i) ==> Cell(FixEach(o, es, v).v, p, x, i) == Cell(o, p, x, i)
    decreases |es|
  {
    hide FixOne, Cell, Skel, Touches;
    if es != [] {
      var e := es[0];
      assert e in es && forall f | f in es[1..] :: f in es;
      assert Hit(o0, es, p, x, i) <==> Touches(o0, e, p, x, i) || Hit(o0, es[1..], p, x, i);
      FixOneCell(o0, o, e, v, p, x, i);
      FixEachCell(o0, FixOne(o, e, v).v, es[1..], v, p, x, i);
    }
  }

  /** A label in fx has an entry about that cell. */
  ghost predicate LabelHits(o: Forest, d: Str, p: Path, x: Str, i: nat) {
    FdtEntries(d).Some? && Hit(o, FdtEntries(d).value, p, x, i)
  }

  /** Every entry of a label in fx that is about bytes of the cell is about that cell, and the label's phandle is u. */
  ghost predicate OnlyHits(b: Forest, o: Forest, fx: Forest, p: Path, x: Str, i: nat, u: nat) {
    forall y | HasProp(fx, y) && FdtEntries(PropData(fx, y)).Some? ::
      forall e | e in FdtEntries(PropData(fx, y)).value && Touches(o, e, p, x, i) ::
        e.off == i && (SymbolPhandle(b, y).Ok? ==> SymbolPhandle(b, y).v == u)
  }

  ghost predicate SomeHits(o: Forest, fx: Forest, p: Path, x: Str, i: nat) {
    exists y :: HasProp(fx, y) && LabelHits(o, PropData(fx, y), p, x, i)
  }

  lemma HitsRest(b: Forest, o: Forest, fx: Forest, p: Path, x: Str, i: nat, u: nat)
    requires Uniq(fx) && (fx.PropF? || fx.NopF?) && AllAbsolute(fx) && OnlyHits(b, o, fx, p, x, i, u)
    ensures AllAbsolute(fx.rest) && OnlyHits(b, o, fx.rest, p, x, i, u)
    ensures SomeHits(o, fx, p, x, i) <==>
            (fx.PropF? && LabelHits(o, fx.data, p, x, i)) || SomeHits(o, fx.rest, p, x, i)
    ensures fx.PropF? && FdtEntries(fx.data).Some? ==>
              forall e | e in FdtEntries(fx.data).value ::
                && e.path != [] && e.path[0] == SLASH
                && (Touches(o, e, p, x, i) ==>
                      e.off == i && (SymbolPhandle(b, fx.pname).Ok? ==> SymbolPhandle(b, fx.pname).v == u))
  {
    hide FdtEntries, SymbolPhandle, Touches, LabelHits;
    assert forall z | HasProp(fx.rest, z) :: HasProp(fx, z) && PropData(fx, z) == PropData(fx.rest, z);
    if fx.PropF? {
      assert HasProp(fx, fx.pname) && PropData(fx, fx.pname) == fx.data;
      assert forall z | HasProp(fx, z) :: z == fx.pname || HasProp(fx.rest, z);
    }
  }

  lemma {:induction false} FixLabelsCell(b: Forest, o0: Forest, o: Forest, fx: Forest, p: Path, x: Str, i: nat, u: nat)
    requires Skel(o) == Skel(o0) && FixLabels(b, o, fx).Ok? && Uniq(fx) && AllAbsolute(fx)
    requires OnlyHits(b, o0, fx, p, x, i, u)
    ensures SomeHits(o0, fx, p, x, i) || Cell(o, p, x, i) == Some(u) ==>
              Cell(FixLabels(b, o, fx).v, p, x, i) == Some(u)
    decreases fx
  {
    hide FixEntries, FixEach, FdtEntries, SymbolPhandle, Skel, Cell, AllAbsolute, OnlyHits, SomeHits, Touches, Hit;
    match fx
    case PropF(y, d, r) =>
      HitsRest(b, o0, fx, p, x, i, u);
      var v := SymbolPhandle(b, y).v;
      FixEntriesEach(o, d, v);
      FixEachCell(o0, o, FdtEntries(d).value, v, p, x, i);
      HitIs(o0, FdtEntries(d).value, p, x, i);
      FixLabelsCell(b, o0, FixEntries(o, d, v).v, r, p, x, i, u);
    case NopF(r) =>
      HitsRest(b, o0, fx, p, x, i, u);
      FixLabelsCell(b, o0, o, r, p, x, i, u);
    case Nil => NoHits(o0, fx, p, x, i);
    case SubF(_, _, _) => NoHits(o0, fx, p, x, i);
  }

  lemma HitIs(o: Forest, es: seq<Fixup>, p: Path, x: Str, i: nat)
    ensures Hit(o, es, p, x, i) ==> exists e :: e in es && Touches(o, e, p, x, i)
  {
  }

  lemma NoHits(o: Forest, fx: Forest, p: Path, x: Str, i: nat)
    requires fx.Nil? || fx.SubF?
    ensures !SomeHits(o, fx, p, x, i)
  {
  }

  // ----- The prepared overlay -----

  /** The labels, when they are applied, are those of the overlay as it is passed in. */
  lemma LabelsThere(o: Forest, delta: nat, y: Str)
    requires Sound(o) && FixupsSound(o)
    requires Shift(o, delta).Ok? && RewriteLocal(Shift(o, delta).v, Adding(delta)).Ok?
    ensures var o2 := RewriteLocal(Shift(o, delta).v, Adding(delta)).v;
            && Skel(o2) == Skel(o) && Uniq(Labels(o2)) && AllAbsolute(Labels(o2))
            && Data(Labels(o2), y) == ValueAt(o, [FIXUPS], y)
            && (Labels(o2) != Nil ==> HasSub(o2, FIXUPS))
  {
    hide Shift, RewriteLocal, ValueAt, Skel, Lists, FixupsSound, HasSub, SubBody, Uniq, Canon, ListsSound,
      PhandlesSound, Ph;
    ShiftedSkel(o, delta);
    var o2 := RewriteLocal(Shift(o, delta).v, Adding(delta)).v;
    SkelHas(o2, o, FIXUPS);
    if HasSub(o, FIXUPS) {
      FixupsNodeClean(o, delta);
      CleanAbsolute(o, Labels(o2));
      KidValue(o, FIXUPS, y);
      LabelKept(o, delta, y);
    } else {
      NothingUniq();
      NoLabelValue(o, y);
    }
  }

  lemma LabelsSame(b: Forest, o: Forest, y: Str)
    requires Applies(b, o)
    ensures var o2 := RewriteLocal(Shift(o, MaxPhandle(b)).v, Adding(MaxPhandle(b))).v;
            && Skel(o2) == Skel(o) && Uniq(Labels(o2)) && AllAbsolute(Labels(o2))
            && Data(Labels(o2), y) == ValueAt(o, [FIXUPS], y)
            && (Labels(o2) != Nil ==> HasSub(o2, FIXUPS))
  {
    hide Shift, RewriteLocal, ValueAt, Skel, Sound, FixupsSound, HasSub, Prevent, MergeAll, Fixups, PhandlesApart, Uniq,
      Labels, AllAbsolute;
    SettledIsFixed(b, o);
    LabelsThere(o, MaxPhandle(b), y);
  }

  lemma NoLabelValue(o: Forest, y: Str)
    requires OwnName(o, FIXUPS) && !HasSub(o, FIXUPS)
    ensures ValueAt(o, [FIXUPS], y) == None
  {
    OwnSub(o, FIXUPS);
  }

  /**
   * The cells that the entries of a label are about are set, and the label leads to a node of the base with a phandle.
   */
  lemma {:induction false} LabelResolved(b: Forest, o: Forest, fx: Forest, y: Str)
    requires FixLabels(b, o, fx).Ok? && HasProp(fx, y)
    ensures SymbolPhandle(b, y).Ok?
    decreases fx
  {
    hide SymbolPhandle, FixEntries;
    match fx
    case PropF(z, d, r) =>
      if z != y {
        LabelResolved(b, FixEntries(o, d, SymbolPhandle(b, z).v).v, r, y);
      }
    case NopF(r) => LabelResolved(b, o, r, y);
  }

  lemma EntriesOnly(b: Forest, o: Forest, fx: Forest, y: Str, p: Path, x: Str, i: nat)
    requires Alone(o, y, p, x, i) && forall z :: Data(fx, z) == ValueAt(o, [FIXUPS], z)
    requires SymbolPhandle(b, y).Ok?
    ensures OnlyHits(b, o, fx, p, x, i, SymbolPhandle(b, y).v)
  {
    hide FdtEntries, SymbolPhandle, Touches, ValueAt;
    forall z, e | HasProp(fx, z) && FdtEntries(PropData(fx, z)).Some? && e in FdtEntries(PropData(fx, z)).value
                  && Touches(o, e, p, x, i)
      ensures e.off == i && z == y
    {
      assert Data(fx, z) == Some(PropData(fx, z));
      assert EntryOf(o, z, e);
    }
  }

  /** When the references into the base are resolved, a cell that a label's entry is about holds its node's phandle. */
  lemma SettledCell(b: Forest, o: Forest, y: Str, e: Fixup, p: Path)
    requires Applies(b, o) && EntryOf(o, y, e) && Resolve(o, Comps(e.path)) == Some(p) && Alone(o, y, p, e.prop, e.off)
    ensures LabelNode(b, y).Some? && Ph(b, LabelNode(b, y).value) != 0
    ensures Cell(Settled(b, o), p, e.prop, e.off) == Some(Ph(b, LabelNode(b, y).value))
  {
    hide Applies, Settled, Shift, RewriteLocal, FixLabels, ValueAt, AllAbsolute, OnlyHits, SomeHits, Skel, Uniq,
      HasSub, SubBody, FdtEntries, SymbolPhandle, Cell, Ph, LabelNode, Alone, Resolve, Comps;
    SettledIsFixed(b, o);
    forall z
      ensures var o2 := RewriteLocal(Shift(o, MaxPhandle(b)).v, Adding(MaxPhandle(b))).v;
              Data(Labels(o2), z) == ValueAt(o, [FIXUPS], z)
    {
      LabelsSame(b, o, z);
    }
    LabelsSame(b, o, y);
    var o2 := RewriteLocal(Shift(o, MaxPhandle(b)).v, Adding(MaxPhandle(b))).v;
    var fx := Labels(o2);
    assert Data(fx, y) == ValueAt(o, [FIXUPS], y);
    assert HasProp(fx, y) && fx != Nil && fx == SubBody(o2, FIXUPS);
    LabelResolved(b, o2, fx, y);
    SymbolIsNode(b, y);
    EntriesOnly(b, o, fx, y, p, e.prop, e.off);
    OneHit(o, fx, y, e, p);
    FixLabelsCell(b, o, o2, fx, p, e.prop, e.off, SymbolPhandle(b, y).v);
  }

  lemma OneHit(o: Forest, fx: Forest, y: Str, e: Fixup, p: Path)
    requires HasProp(fx, y) && FdtEntries(PropData(fx, y)).Some? && e in FdtEntries(PropData(fx, y)).value
    requires Resolve(o, Comps(e.path)) == Some(p)
    ensures SomeHits(o, fx, p, e.prop, e.off)
  {
    hide FdtEntries, Resolve, Comps;
    assert Touches(o, e, p, e.prop, e.off);
    assert Hit(o, FdtEntries(PropData(fx, y)).value, p, e.prop, e.off);
  }

  /** Nothing changes it before the overlay is merged. */
  lemma FinalCell(b: Forest, o: Forest, y: Str, e: Fixup, p: Path)
    requires Applies(b, o) && EntryOf(o, y, e) && Resolve(o, Comps(e.path)) == Some(p)
    ensures Cell(Final(b, o), p, e.prop, e.off) == Cell(Settled(b, o), p, e.prop, e.off)
  {
    hide Settled, Final, ValueAt, Skel, Uniq, FdtEntries, Ph, Resolve, Comps, Adopted, Ready, Lists, Apart, Sound,
      Prevent, MergeAll, Resolved, PhandlesApart, AllOwn, RefsHold, Agreeing, SameLists;
    FinalIs(b, o);
    assert FixupSound(o, y);
    assert Clean(o, e);
    assert Plain(o, Settled(b, o), Final(b, o));
  }

  // ----- The theorem -----

  /**
   * A cell that __fixups__ lists under the label y, and no other label or overlapping cell, holds in the prepared
   * overlay the phandle of the base node that the base's symbol y leads to. So it does in the result, where the
   * property has gone, unless a later node sets the property; and it refers to that node there exactly if the base's
   * phandle is kept.
   */
  lemma LabelsFollow(b: Forest, o: Forest, y: Str, e: Fixup, p: Path)
    requires Applies(b, o) && EntryOf(o, y, e) && p == Into(o, Comps(e.path)) && NodeAt(o, p).Some?
    requires Alone(o, y, p, e.prop, e.off)
    ensures LabelNode(b, y).Some? && Ph(b, LabelNode(b, y).value) != 0
    ensures Cell(Final(b, o), p, e.prop, e.off) == Some(Ph(b, LabelNode(b, y).value))
    ensures InFragment(p) && Author(b, Final(b, o), MergedPath(b, Final(b, o), p), e.prop) == Some(p) ==>
              var m, q, t := Outcome(b, o), MergedPath(b, Final(b, o), p), LabelNode(b, y).value;
              && Cell(m, q, e.prop, e.off) == Some(Ph(b, t))
              && (Cell(m, q, e.prop, e.off) == Some(Ph(m, t)) <==> SafeAt(b, o, t))
  {
    hide Applies, Settled, Final, Outcome, ValueAt, FdtEntries, Ph, LabelNode, Alone, Resolve, Comps, NodeAt, Into,
      MergedPath, Author, SafeAt;
    ResolveInto(o, Comps(e.path));
    SettledCell(b, o, y, e, p);
    FinalCell(b, o, y, e, p);
    ResultAt(b, o, MergedPath(b, Final(b, o), p), e.prop);
    KeptAt(b, o, LabelNode(b, y).value);
  }
}
