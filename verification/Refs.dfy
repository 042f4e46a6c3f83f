/**
 * Phandles and the cells that refer to them, seen through the overlay's local fixups, while the overlay is
 * prepared: each reference goes on holding the phandle of the node it referred to.
 */
module Refs {
  import opened Bytes
  import opened Tree
  import opened Positions
  import opened Edits
  import opened Merge
  import opened Sem
  import opened FixupText
  import opened Overlay
  import opened OverlaySteps
  import opened Skeleton

  function CellIn(d: Option<Str>): Option<nat> {
    if d.Some? && |d.value| == 4 then Some(Get32(d.value, 0)) else None
  }

  /** The phandle that the values of the two phandle properties give. */
  function PhandleOf(a: Option<Str>, l: Option<Str>): nat {
    match CellIn(a)
    case Some(v) => v
    case None => match CellIn(l) case Some(v) => v case None => 0
  }

  /** The phandle of the node at path p, or 0. */
  function Ph(o: Forest, p: Path): (v: nat)
    ensures v < U32
  {
    match NodeAt(o, p)
    case Some(k) => Phandle(k)
    case None => 0
  }

  lemma PhIs(o: Forest, p: Path)
    ensures Ph(o, p) == PhandleOf(ValueAt(o, p, PHANDLE), ValueAt(o, p, LINUX_PHANDLE))
  {
  }

  // ----- References -----

  /** Offset i is one of the cells of the list l. */
  predicate Listed(l: Str, i: nat)
    decreases |l|
  {
    |l| >= 4 && (Get32(l, 0) == i || Listed(l[4..], i))
  }

  /** The cell at offset i overlaps none of those listed. */
  predicate Apart(l: Str, i: nat)
    decreases |l|
  {
    |l| < 4 || ((i + 4 <= Get32(l, 0) || Get32(l, 0) + 4 <= i) && Apart(l[4..], i))
  }

  /** No two of the cells listed overlap. */
  predicate Spread(l: Str)
    decreases |l|
  {
    |l| < 4 || (Apart(l[4..], Get32(l, 0)) && Spread(l[4..]))
  }

  /** The content of the local fixups. */
  function FixupsOf(o: Forest): Forest {
    if HasSub(o, LOCAL_FIXUPS) then SubBody(o, LOCAL_FIXUPS) else Nil
  }

  /** The local fixups' list for property x of the node at path p, their names being looked up in the overlay. */
  function Lists(o: Forest, p: Path, x: Str): Option<Str> {
    ValueAt(Canon(o, FixupsOf(o)), p, x)
  }

  /** The cell at offset i of property x of the node at path p is a local reference. */
  predicate IsRef(o: Forest, p: Path, x: Str, i: nat) {
    Lists(o, p, x).Some? && Listed(Lists(o, p, x).value, i)
  }

  function CellAt(d: Option<Str>, i: nat): Option<nat> {
    if d.Some? && i + 4 <= |d.value| then Some(Get32(d.value, i)) else None
  }

  /** The value of that cell, if it is inside the property. */
  function Cell(o: Forest, p: Path, x: Str, i: nat): Option<nat> {
    CellAt(ValueAt(o, p, x), i)
  }

  lemma {:induction false} ListedApart(l: Str, i: nat, j: nat)
    requires Apart(l, j) && Listed(l, i)
    ensures i + 4 <= j || j + 4 <= i
    decreases |l|
  {
    if Get32(l, 0) != i {
      ListedApart(l[4..], i, j);
    }
  }

  lemma {:induction false} MapCellsGet(d: Str, l: Str, g: nat -> nat, i: nat)
    requires MapCells(d, l, g).Some? && Spread(l)
    ensures Listed(l, i) ==> i + 4 <= |d| && Get32(MapCells(d, l, g).value, i) == g(Get32(d, i)) % U32
    ensures Apart(l, i) && i + 4 <= |d| ==> Get32(MapCells(d, l, g).value, i) == Get32(d, i)
    decreases |l|
  {
    if |l| >= 4 {
      var j := Get32(l, 0);
      var v := g(Get32(d, j)) % U32;
      var e := Overwrite(d, j, Put32(v));
      MapCellsGet(e, l[4..], g, i);
      OverwriteCell(d, j, v);
      if Apart(l, i) && i + 4 <= |d| {
        OverwriteElse(d, j, Put32(v), i);
      }
      if Listed(l, i) {
        if i == j {
          MapCellsGet(e, l[4..], g, j);
        } else {
          ListedApart(l[4..], i, j);
          MapCellsGet(e, l[4..], g, i);
          OverwriteElse(d, j, Put32(v), i);
        }
      }
    }
  }

  /** A search for n finds a subnode called n or none. */
  predicate OwnName(b: Forest, n: Str) {
    Meant(b, n) == n
  }

  lemma OwnSub(b: Forest, n: Str)
    requires OwnName(b, n)
    ensures HasSub(b, n) <==> KidAt(b, n).Some?
    ensures HasSub(b, n) ==> SubBody(b, n) == KidAt(b, n).value && SubName(b, n) == n
    ensures KidOrNil(b, n) == if HasSub(b, n) then SubBody(b, n) else Nil
  {
    SubIsMeant(b, n);
  }

  /** The nodes that libfdt looks for in an overlay carry no unit address. */
  ghost predicate Specials(o: Forest) {
    && OwnName(o, LOCAL_FIXUPS) && OwnName(o, FIXUPS)
    && forall f | KidAt(o, f).Some? :: OwnName(KidAt(o, f).value, OVERLAY)
  }

  /**
   * What is asked of an overlay's tree, its phandles and its local fixups: no two siblings of the local fixups are
   * about one node, the cells they list are no phandles and do not overlap, and phandles are unique.
   */
  ghost predicate Sound(o: Forest) {
    && Uniq(o) && Specials(o) && Uniq(Canon(o, FixupsOf(o)))
    && (forall p, x :: ListsSound(o, p, x))
    && (forall p, x :: PhandlesSound(o, p, x))
    && (forall p, q | Ph(o, p) != 0 && Ph(o, p) == Ph(o, q) :: p == q)
  }

  /** The listed cells of a property do not overlap, and belong to no phandle and to no local fixup. */
  ghost predicate ListsSound(o: Forest, p: Path, x: Str) {
    Lists(o, p, x).Some? ==> !IsPhandle(x) && (p == [] || p[0] != LOCAL_FIXUPS) && Spread(Lists(o, p, x).value)
  }

  /** A phandle property that is one cell is not zero and is the node's phandle. */
  ghost predicate PhandlesSound(o: Forest, p: Path, x: Str) {
    IsPhandle(x) && CellIn(ValueAt(o, p, x)).Some? ==> CellIn(ValueAt(o, p, x)).value == Ph(o, p) != 0
  }

  /** Each local reference of o0 to a node of o0 holds in o that node's phandle in o. */
  ghost predicate RefsHold(o0: Forest, o: Forest) {
    forall p, x, i, n | IsRef(o0, p, x, i) && Ph(o0, n) != 0 && Cell(o0, p, x, i) == Some(Ph(o0, n)) ::
      Cell(o, p, x, i) == Some(Ph(o, n))
  }

  /** o differs from o0 in values only, and not in those of the local fixups. */
  ghost predicate SameLists(o0: Forest, o: Forest) {
    Skel(o) == Skel(o0) && forall r, x :: ValueAt(o, [LOCAL_FIXUPS] + r, x) == ValueAt(o0, [LOCAL_FIXUPS] + r, x)
  }

  /** Every phandle property is one cell and is the node's phandle. */
  ghost predicate Agreeing(o: Forest) {
    forall p, x | IsPhandle(x) && ValueAt(o, p, x).Some? :: CellIn(ValueAt(o, p, x)) == Some(Ph(o, p))
  }

  /** The lists are values of the local fixups. */
  lemma ListsFrom(o: Forest, p: Path, x: Str)
    requires Uniq(o) && OwnName(o, LOCAL_FIXUPS)
    ensures Lists(o, p, x) == match Source(o, FixupsOf(o), p) case None => None case Some(r) => ValueAt(o,
            [LOCAL_FIXUPS] + r, x)
  {
    hide Canon, Source, Uniq;
    OwnSub(o, LOCAL_FIXUPS);
    FixupsUniq(o);
    CanonValue(o, FixupsOf(o), p, x);
    var r := Source(o, FixupsOf(o), p);
    if r.Some? {
      assert ([LOCAL_FIXUPS] + r.value)[1..] == r.value;
      NilAt(r.value, x);
    }
  }

  lemma FixupsUniq(o: Forest)
    requires Uniq(o) && OwnName(o, LOCAL_FIXUPS)
    ensures Uniq(FixupsOf(o))
  {
    OwnSub(o, LOCAL_FIXUPS);
    KidUniq(o, LOCAL_FIXUPS);
  }

  lemma SkelFixups(a: Forest, b: Forest)
    requires Skel(a) == Skel(b)
    ensures Skel(FixupsOf(a)) == Skel(FixupsOf(b))
  {
    SkelHas(a, b, LOCAL_FIXUPS);
  }

  /** Where the names and the local fixups are the same, so is what they list. */
  lemma SameListed(o0: Forest, o: Forest, p: Path, x: Str)
    requires SameLists(o0, o) && Uniq(o0) && OwnName(o0, LOCAL_FIXUPS)
    ensures Lists(o, p, x) == Lists(o0, p, x)
  {
    hide Source, Uniq, Skel, Lists;
    SkelMeant(o0, o, LOCAL_FIXUPS);
    SkelUniq(o0, o);
    SkelFixups(o, o0);
    SkelSource(o, o0, FixupsOf(o), FixupsOf(o0), p);
    ListsFrom(o, p, x);
    ListsFrom(o0, p, x);
  }

  lemma SkelUniq(a: Forest, b: Forest)
    requires Skel(a) == Skel(b)
    ensures Uniq(a) == Uniq(b)
  {
    SkelNames(a, b, {});
  }

  /** Each value of the local fixups is a list. */
  lemma FixupsList(o: Forest, r: Path, x: Str)
    requires Listing(o)
    ensures ValueAt(o, [LOCAL_FIXUPS] + r, x).Some? ==> Lists(o, Into(o, r), x) == ValueAt(o, [LOCAL_FIXUPS] + r, x)
  {
    hide Canon, Into, Uniq;
    OwnSub(o, LOCAL_FIXUPS);
    assert ([LOCAL_FIXUPS] + r)[1..] == r;
    if NodeAt(FixupsOf(o), r).Some? {
      CanonInto(o, FixupsOf(o), r, x);
    }
  }

  /** No phandle is listed. */
  lemma FixupsPlain(o: Forest, r: Path, x: Str)
    requires Listing(o) && IsPhandle(x) && forall q, y :: ListsSound(o, q, y)
    ensures ValueAt(o, [LOCAL_FIXUPS] + r, x) == None
  {
    hide Lists, Uniq, ValueAt, Into;
    FixupsList(o, r, x);
    assert ListsSound(o, Into(o, r), x);
  }

  /** What is needed of an overlay for its local fixups to do what they say. */
  ghost predicate Listing(o: Forest) {
    Uniq(o) && OwnName(o, LOCAL_FIXUPS) && Uniq(Canon(o, FixupsOf(o)))
  }

  /** RewriteLocal, path by path. */
  lemma RewriteLocalAt(o: Forest, g: nat -> nat, p: Path, x: Str)
    requires RewriteLocal(o, g).Ok? && Listing(o)
    ensures ValueAt(RewriteLocal(o, g).v, p, x) == Rewritten(ValueAt(o, p, x), Lists(o, p, x), g)
    ensures Lists(o, p, x).Some? ==> ValueAt(o, p, x).Some? && ValueAt(RewriteLocal(o, g).v, p, x).Some?
    ensures Skel(RewriteLocal(o, g).v) == Skel(o)
  {
    hide Rewrite, Uniq, Skel;
    if HasSub(o, LOCAL_FIXUPS) {
      RewriteAt(o, SubBody(o, LOCAL_FIXUPS), g, p, x);
      SkelRewrite(o, SubBody(o, LOCAL_FIXUPS), g);
    } else {
      NilAt(p, x);
    }
  }

  /** The rewriting touches no list of the local fixups and no phandle. */
  lemma RewriteLocalKeeps(o: Forest, g: nat -> nat, p: Path)
    requires RewriteLocal(o, g).Ok? && Listing(o)
    requires forall q, x :: ListsSound(o, q, x)
    ensures var o' := RewriteLocal(o, g).v;
            && SameLists(o, o') && (forall x :: Lists(o', p, x) == Lists(o, p, x))
            && (forall x | IsPhandle(x) :: ValueAt(o', p, x) == ValueAt(o, p, x))
            && Ph(o', p) == Ph(o, p)
  {
    hide RewriteLocal, Lists, Uniq, Skel, ValueAt;
    var o' := RewriteLocal(o, g).v;
    RewriteLocalAt(o, g, p, []);
    forall r, x
      ensures ValueAt(o', [LOCAL_FIXUPS] + r, x) == ValueAt(o, [LOCAL_FIXUPS] + r, x)
    {
      RewriteLocalAt(o, g, [LOCAL_FIXUPS] + r, x);
      assert ListsSound(o, [LOCAL_FIXUPS] + r, x);
    }
    forall x
      ensures Lists(o', p, x) == Lists(o, p, x)
    {
      SameListed(o, o', p, x);
    }
    forall x | IsPhandle(x)
      ensures ValueAt(o', p, x) == ValueAt(o, p, x)
    {
      RewriteLocalAt(o, g, p, x);
      assert ListsSound(o, p, x);
    }
    PhIs(o, p);
    PhIs(o', p);
  }

  /** A listed cell is passed through g. */
  lemma RewriteLocalCell(o: Forest, g: nat -> nat, p: Path, x: Str, i: nat)
    requires RewriteLocal(o, g).Ok? && Listing(o)
    requires ListsSound(o, p, x) && IsRef(o, p, x, i)
    ensures Cell(o, p, x, i).Some?
    ensures Cell(RewriteLocal(o, g).v, p, x, i) == Some(g(Cell(o, p, x, i).value) % U32)
  {
    RewriteLocalAt(o, g, p, x);
    MapCellsGet(ValueAt(o, p, x).value, Lists(o, p, x).value, g, i);
  }

  // ----- Shifting -----

  lemma SoundLists(o: Forest)
    requires Sound(o)
    ensures Listing(o) && forall p, x :: ListsSound(o, p, x)
  {
  }

  lemma ShiftLists(o: Forest, delta: nat)
    requires Sound(o) && Shift(o, delta).Ok?
    ensures SameLists(o, Shift(o, delta).v)
  {
    hide Sound, Listing, ValueAt, Shift, Skel;
    SoundLists(o);
    SkelShift(o, delta);
    forall r, x
      ensures ValueAt(Shift(o, delta).v, [LOCAL_FIXUPS] + r, x) == ValueAt(o, [LOCAL_FIXUPS] + r, x)
    {
      ShiftAt(o, delta, [LOCAL_FIXUPS] + r, x);
      if IsPhandle(x) {
        FixupsPlain(o, r, x);
      }
    }
  }

  /** What has the same names and lists is as sound in its lists. */
  lemma SameListing(o0: Forest, o: Forest)
    requires Listing(o0) && SameLists(o0, o) && forall p, x :: ListsSound(o0, p, x)
    ensures Listing(o) && forall p, x :: ListsSound(o, p, x) && Lists(o, p, x) == Lists(o0, p, x)
  {
    hide Lists, ValueAt, Canon, Uniq, Skel, Spread;
    SkelMeant(o0, o, LOCAL_FIXUPS);
    SkelUniq(o0, o);
    SkelFixups(o, o0);
    CanonSkel(o, o0, FixupsOf(o));
    SkelCanon(o0, FixupsOf(o), FixupsOf(o0));
    SkelUniq(Canon(o0, FixupsOf(o)), Canon(o0, FixupsOf(o0)));
    forall p, x
      ensures ListsSound(o, p, x) && Lists(o, p, x) == Lists(o0, p, x)
    {
      SameListed(o0, o, p, x);
      assert ListsSound(o0, p, x);
    }
  }

  /** d' is the cell d, which is v, with delta added; or both are missing. */
  predicate IsShifted(d: Option<Str>, d': Option<Str>, v: nat, delta: nat) {
    if d.None? then d'.None? else
      CellIn(d) == Some(v) && v != 0 && v + delta < U32 - 1 && d' == Some(Put32(v + delta))
  }

  lemma ShiftedPhandle(a: Option<Str>, l: Option<Str>, a': Option<Str>, l': Option<Str>, delta: nat)
    requires IsShifted(a, a', PhandleOf(a, l), delta) && IsShifted(l, l', PhandleOf(a, l), delta)
    ensures PhandleOf(a', l') == (if PhandleOf(a, l) == 0 then 0 else PhandleOf(a, l) + delta) < U32 - 1
    ensures a'.Some? ==> CellIn(a') == Some(PhandleOf(a', l'))
    ensures l'.Some? ==> CellIn(l') == Some(PhandleOf(a', l'))
  {
    if a.Some? || l.Some? {
      PutGet32(PhandleOf(a, l) + delta);
    }
  }

  lemma ShiftValue(o: Forest, delta: nat, p: Path, x: Str)
    requires Shift(o, delta).Ok? && IsPhandle(x) && PhandlesSound(o, p, x)
    ensures IsShifted(ValueAt(o, p, x), ValueAt(Shift(o, delta).v, p, x), Ph(o, p), delta)
  {
    hide Shift, Ph, ValueAt;
    ShiftAt(o, delta, p, x);
  }

  /** Shifting adds delta to the phandle of every node that has one. */
  lemma ShiftPh(o: Forest, delta: nat, p: Path)
    requires Sound(o) && Shift(o, delta).Ok?
    ensures var o1 := Shift(o, delta).v;
            && Ph(o1, p) == (if Ph(o, p) == 0 then 0 else Ph(o, p) + delta) < U32 - 1
            && forall x | IsPhandle(x) && ValueAt(o1, p, x).Some? :: CellIn(ValueAt(o1, p, x)) == Some(Ph(o1, p))
  {
    hide Shift, Ph, ValueAt, CellIn, PhandleOf, IsShifted, PhandlesSound;
    var o1 := Shift(o, delta).v;
    assert PhandlesSound(o, p, PHANDLE) && PhandlesSound(o, p, LINUX_PHANDLE);
    ShiftValue(o, delta, p, PHANDLE);
    ShiftValue(o, delta, p, LINUX_PHANDLE);
    PhIs(o, p);
    PhIs(o1, p);
    ShiftedPhandle(ValueAt(o, p, PHANDLE), ValueAt(o, p, LINUX_PHANDLE), ValueAt(o1, p, PHANDLE),
      ValueAt(o1, p, LINUX_PHANDLE), delta);
  }

  lemma ShiftKeepsSound(o: Forest, delta: nat)
    requires Sound(o) && Shift(o, delta).Ok?
    ensures var o1 := Shift(o, delta).v;
            && Skel(o1) == Skel(o) && Listing(o1) && SameLists(o, o1)
            && forall p, x :: ListsSound(o1, p, x) && Lists(o1, p, x) == Lists(o, p, x)
  {
    hide Sound, Listing, ListsSound, Shift, Skel, Lists;
    SoundLists(o);
    ShiftLists(o, delta);
    SameListing(o, Shift(o, delta).v);
  }

  lemma ShiftedAt(o: Forest, delta: nat, p: Path, x: Str)
    requires Sound(o) && Shift(o, delta).Ok? && RewriteLocal(Shift(o, delta).v, Adding(delta)).Ok?
    ensures var o2 := RewriteLocal(Shift(o, delta).v, Adding(delta)).v;
            && Ph(o2, p) == (if Ph(o, p) == 0 then 0 else Ph(o, p) + delta) < U32
            && SameLists(o, o2)
            && (IsPhandle(x) && ValueAt(o2, p, x).Some? ==> CellIn(ValueAt(o2, p, x)) == Some(Ph(o2, p)))
  {
    hide Sound, Listing, ListsSound, Shift, Skel, Lists, RewriteLocal, ValueAt, Ph;
    ShiftKeepsSound(o, delta);
    ShiftPh(o, delta, p);
    RewriteLocalKeeps(Shift(o, delta).v, Adding(delta), p);
  }

  /** After the phandles have been shifted and the local references with them, every reference holds. */
  lemma ShiftedRefsHold(o: Forest, delta: nat)
    requires Sound(o) && Shift(o, delta).Ok? && RewriteLocal(Shift(o, delta).v, Adding(delta)).Ok?
    ensures var o2 := RewriteLocal(Shift(o, delta).v, Adding(delta)).v;
            && SameLists(o, o2) && RefsHold(o, o2) && Agreeing(o2)
            && forall p :: Ph(o2, p) == if Ph(o, p) == 0 then 0 else Ph(o, p) + delta
  {
    hide Shift, RewriteLocal, Ph, ValueAt, IsRef, Cell, Lists, Sound, Skel;
    var o1 := Shift(o, delta).v;
    var o2 := RewriteLocal(o1, Adding(delta)).v;
    ShiftedSkel(o, delta);
    forall p
      ensures Ph(o2, p) == if Ph(o, p) == 0 then 0 else Ph(o, p) + delta
    {
      ShiftedAt(o, delta, p, []);
    }
    ShiftedAt(o, delta, [], []);
    forall p, x
      ensures IsPhandle(x) && ValueAt(o2, p, x).Some? ==> CellIn(ValueAt(o2, p, x)) == Some(Ph(o2, p))
    {
      ShiftedAt(o, delta, p, x);
    }
    forall p, x, i, n | IsRef(o, p, x, i) && Ph(o, n) != 0 && Cell(o, p, x, i) == Some(Ph(o, n))
      ensures Cell(o2, p, x, i) == Some(Ph(o2, n))
    {
      ShiftedAt(o, delta, n, x);
      ShiftedRef(o, delta, p, x, i);
    }
  }

  lemma ShiftedSkel(o: Forest, delta: nat)
    requires Sound(o) && Shift(o, delta).Ok? && RewriteLocal(Shift(o, delta).v, Adding(delta)).Ok?
    ensures Skel(RewriteLocal(Shift(o, delta).v, Adding(delta)).v) == Skel(o)
  {
    ShiftKeepsSound(o, delta);
    RewriteLocalAt(Shift(o, delta).v, Adding(delta), [], []);
  }

  lemma ShiftedRef(o: Forest, delta: nat, p: Path, x: Str, i: nat)
    requires Sound(o) && Shift(o, delta).Ok? && RewriteLocal(Shift(o, delta).v, Adding(delta)).Ok?
    requires IsRef(o, p, x, i) && Cell(o, p, x, i).Some?
    ensures Cell(RewriteLocal(Shift(o, delta).v, Adding(delta)).v, p, x, i) ==
            Some((Cell(o, p, x, i).value + delta) % U32)
  {
    hide Shift, RewriteLocal, ValueAt, Skel, Listed, NodeAt;
    assert ListsSound(o, p, x);
    ShiftKeepsSound(o, delta);
    ShiftAt(o, delta, p, x);
    RewriteLocalCell(Shift(o, delta).v, Adding(delta), p, x, i);
  }

  // ----- References into the base -----

  /** A fixup of a cell that is no part of a phandle, of a local reference or of the local fixups. */
  ghost predicate Clean(o: Forest, e: Fixup) {
    && e.path != [] && e.path[0] == SLASH && !IsPhandle(e.prop)
    && forall p | Resolve(o, Comps(e.path)) == Some(p) ::
         (p == [] || p[0] != LOCAL_FIXUPS) && (Lists(o, p, e.prop).Some? ==> Apart(Lists(o, p, e.prop).value, e.off))
  }

  /** What holds of an overlay o that o0 has become while it is being prepared. */
  ghost predicate Holds(o0: Forest, o: Forest) {
    SameLists(o0, o) && RefsHold(o0, o) && Agreeing(o)
  }

  /** o' is o with e as the value of property y at path p. */
  ghost predicate Changed(o: Forest, o': Forest, p: Path, y: Str, e: Str) {
    Skel(o') == Skel(o) && forall q, x :: ValueAt(o', q, x) == if q == p && x == y then Some(e) else ValueAt(o, q, x)
  }

  lemma PutPropChanges(o: Forest, p: Path, y: Str, e: Str)
    requires NodeAt(o, p).Some? && HasProp(NodeAt(o, p).value, y)
    ensures Changed(o, PutAt(o, p, PutProp(NodeAt(o, p).value, y, e)), p, y, e)
  {
    hide PutAt, PutProp, ValueAt, Skel, NodeAt;
    var k := NodeAt(o, p).value;
    forall q, x
      ensures ValueAt(PutAt(o, p, PutProp(k, y, e)), q, x) == if q == p && x == y then Some(e) else ValueAt(o, q, x)
    {
      PutPropAt(o, p, y, e, q, x);
    }
    SkelPutProp(k, y, e);
    SkelPutAt(o, p, PutProp(k, y, e));
  }

  lemma ChangedPh(o: Forest, o': Forest, p: Path, y: Str, e: Str, q: Path)
    requires Changed(o, o', p, y, e) && !IsPhandle(y)
    ensures Ph(o', q) == Ph(o, q)
  {
    hide ValueAt, Ph, Skel;
    PhIs(o, q);
    PhIs(o', q);
  }

  /** Changing a value that is neither a phandle nor a list, outside all references, keeps every reference. */
  lemma ChangedHolds(o0: Forest, o: Forest, o': Forest, p: Path, y: Str, j: nat, c: Str, d: Str)
    requires Holds(o0, o) && ValueAt(o, p, y) == Some(c) && j + |d| <= |c| && |d| == 4
    requires Changed(o, o', p, y, Overwrite(c, j, d))
    requires !IsPhandle(y) && (p == [] || p[0] != LOCAL_FIXUPS)
    requires Lists(o0, p, y).Some? ==> Apart(Lists(o0, p, y).value, j)
    ensures Holds(o0, o') && forall q :: Ph(o', q) == Ph(o, q)
  {
    hide Overwrite, ValueAt, Skel, Ph, Listed, Apart, Cell, IsRef;
    forall q
      ensures Ph(o', q) == Ph(o, q)
    {
      ChangedPh(o, o', p, y, Overwrite(c, j, d), q);
    }
    forall r, x
      ensures ValueAt(o', [LOCAL_FIXUPS] + r, x) == ValueAt(o, [LOCAL_FIXUPS] + r, x)
    {
      assert ([LOCAL_FIXUPS] + r)[0] == LOCAL_FIXUPS;
    }
    forall q, x, i, n | IsRef(o0, q, x, i) && Ph(o0, n) != 0 && Cell(o0, q, x, i) == Some(Ph(o0, n))
      ensures Cell(o', q, x, i) == Some(Ph(o', n))
    {
      assert Cell(o, q, x, i) == Some(Ph(o, n));
      ChangedCell(o0, o, o', p, y, j, c, d, q, x, i);
    }
  }

  lemma ChangedCell(o0: Forest, o: Forest, o': Forest, p: Path, y: Str, j: nat, c: Str, d: Str, q: Path, x: Str, i: nat)
    requires ValueAt(o, p, y) == Some(c) && j + |d| <= |c| && |d| == 4
    requires Changed(o, o', p, y, Overwrite(c, j, d)) && IsRef(o0, q, x, i) && Cell(o, q, x, i).Some?
    requires Lists(o0, p, y).Some? ==> Apart(Lists(o0, p, y).value, j)
    ensures Cell(o', q, x, i) == Cell(o, q, x, i)
  {
    hide ValueAt, Skel, Listed, Apart;
    if q == p && x == y {
      ListedApart(Lists(o0, p, y).value, i, j);
      OverwriteElse(c, j, d, i);
    }
  }

  lemma ValueHere(o: Forest, p: Path, y: Str)
    requires NodeAt(o, p).Some? && HasProp(NodeAt(o, p).value, y)
    ensures ValueAt(o, p, y) == Some(PropData(NodeAt(o, p).value, y))
  {
  }

  lemma FixOneHolds(o0: Forest, o: Forest, e: Fixup, v: nat)
    requires Holds(o0, o) && Clean(o0, e) && v < U32 && FixOne(o, e, v).Ok?
    ensures Holds(o0, FixOne(o, e, v).v) && forall q :: Ph(FixOne(o, e, v).v, q) == Ph(o, q)
  {
    SkelResolve(o, o0, Comps(e.path));
    var p := Lookup(o, e.path).v;
    var c := PropData(NodeAt(o, p).value, e.prop);
    ValueHere(o, p, e.prop);
    PutPropChanges(o, p, e.prop, Overwrite(c, e.off, Put32(v)));
    ChangedHolds(o0, o, FixOne(o, e, v).v, p, e.prop, e.off, c, Put32(v));
  }

  lemma {:induction false} FixEachHolds(o0: Forest, o: Forest, es: seq<Fixup>, v: nat)
    requires Holds(o0, o) && (forall e | e in es :: Clean(o0, e)) && v < U32 && FixEach(o, es, v).Ok?
    ensures Holds(o0, FixEach(o, es, v).v) && forall q :: Ph(FixEach(o, es, v).v, q) == Ph(o, q)
    decreases |es|
  {
    if es != [] {
      assert es[0] in es;
      FixOneHolds(o0, o, es[0], v);
      FixEachHolds(o0, FixOne(o, es[0], v).v, es[1..], v);
    }
  }

  /** Every entry under every symbol of the fixups node with content fx is clean. */
  ghost predicate CleanLabels(o0: Forest, fx: Forest) {
    forall y | HasProp(fx, y) && FdtEntries(PropData(fx, y)).Some? ::
      forall e | e in FdtEntries(PropData(fx, y)).value :: Clean(o0, e)
  }

  lemma {:induction false} FixLabelsHold(b: Forest, o0: Forest, o: Forest, fx: Forest)
    requires Holds(o0, o) && Uniq(fx) && CleanLabels(o0, fx) && FixLabels(b, o, fx).Ok?
    ensures Holds(o0, FixLabels(b, o, fx).v) && forall q :: Ph(FixLabels(b, o, fx).v, q) == Ph(o, q)
    decreases fx
  {
    match fx
    case PropF(y, d, r) =>
      assert HasProp(fx, y) && PropData(fx, y) == d;
      var v := SymbolPhandle(b, y).v;
      FixEntriesEach(o, d, v);
      FixEachHolds(o0, o, FdtEntries(d).value, v);
      assert CleanLabels(o0, r) by {
        assert forall z | HasProp(r, z) :: HasProp(fx, z) && PropData(fx, z) == PropData(r, z);
      }
      FixLabelsHold(b, o0, FixEach(o, FdtEntries(d).value, v).v, r);
    case NopF(r) =>
      assert CleanLabels(o0, r) by {
        assert forall z | HasProp(r, z) :: HasProp(fx, z) && PropData(fx, z) == PropData(r, z);
      }
      FixLabelsHold(b, o0, o, r);
    case _ =>
  }

  /** The fixups of o are neither phandles nor local references, and ask for clean changes only. */
  ghost predicate FixupsSound(o: Forest) {
    forall y :: FixupSound(o, y)
  }

  ghost predicate FixupSound(o: Forest, y: Str) {
    ValueAt(o, [FIXUPS], y).Some? ==>
      && !IsPhandle(y) && Lists(o, [FIXUPS], y).None?
      && (FdtEntries(ValueAt(o, [FIXUPS], y).value).Some? ==>
            forall e | e in FdtEntries(ValueAt(o, [FIXUPS], y).value).value :: Clean(o, e))
  }

  /** Resolving the references into the base keeps the phandles and every local reference. */
  lemma FixupsHold(b: Forest, o0: Forest, delta: nat)
    requires Sound(o0) && FixupsSound(o0)
    requires Shift(o0, delta).Ok? && RewriteLocal(Shift(o0, delta).v, Adding(delta)).Ok?
    requires Fixups(b, RewriteLocal(Shift(o0, delta).v, Adding(delta)).v).Ok?
    ensures var o3 := Fixups(b, RewriteLocal(Shift(o0, delta).v, Adding(delta)).v).v;
            Holds(o0, o3) && forall p :: Ph(o3, p) == if Ph(o0, p) == 0 then 0 else Ph(o0, p) + delta
  {
    var o1 := Shift(o0, delta).v;
    var o2 := RewriteLocal(o1, Adding(delta)).v;
    hide Shift, RewriteLocal, FixLabels, Lists, Canon, ValueAt, Skel, Ph;
    ShiftedRefsHold(o0, delta);
    if HasSub(o2, FIXUPS) {
      FixupsNodeClean(o0, delta);
      FixLabelsHold(b, o0, o2, SubBody(o2, FIXUPS));
    }
  }

  lemma KidValue(o: Forest, n: Str, y: Str)
    requires Uniq(o) && OwnName(o, n) && HasSub(o, n)
    ensures ValueAt(o, [n], y) == Data(SubBody(o, n), y) && Uniq(SubBody(o, n))
  {
    OwnSub(o, n);
    KidUniq(o, n);
    var k := KidAt(o, n).value;
    assert [n][1..] == [];
    assert NodeAt(o, [n]) == NodeAt(k, []) == Some(k);
  }

  /** The fixups node is as it was before the shift. */
  lemma FixupsNodeClean(o0: Forest, delta: nat)
    requires Sound(o0) && FixupsSound(o0)
    requires Shift(o0, delta).Ok? && RewriteLocal(Shift(o0, delta).v, Adding(delta)).Ok?
    requires HasSub(RewriteLocal(Shift(o0, delta).v, Adding(delta)).v, FIXUPS)
    ensures var fx := SubBody(RewriteLocal(Shift(o0, delta).v, Adding(delta)).v, FIXUPS);
            Uniq(fx) && CleanLabels(o0, fx)
  {
    hide Shift, RewriteLocal, ValueAt, Skel, Clean, SubBody, HasSub, Lists, Rewritten;
    var o1 := Shift(o0, delta).v;
    var o2 := RewriteLocal(o1, Adding(delta)).v;
    ShiftedSkel(o0, delta);
    ShiftKeepsSound(o0, delta);
    SkelUniq(o0, o2);
    SkelMeant(o0, o2, FIXUPS);
    KidValue(o2, FIXUPS, []);
    var fx := SubBody(o2, FIXUPS);
    forall y | HasProp(fx, y) && FdtEntries(PropData(fx, y)).Some?
      ensures forall e | e in FdtEntries(PropData(fx, y)).value :: Clean(o0, e)
    {
      FixupsKept(o0, delta, y);
      assert FixupSound(o0, y);
    }
  }

  lemma FixupsKept(o0: Forest, delta: nat, y: Str)
    requires Sound(o0) && FixupsSound(o0)
    requires Shift(o0, delta).Ok? && RewriteLocal(Shift(o0, delta).v, Adding(delta)).Ok?
    requires HasSub(RewriteLocal(Shift(o0, delta).v, Adding(delta)).v, FIXUPS)
    requires HasProp(SubBody(RewriteLocal(Shift(o0, delta).v, Adding(delta)).v, FIXUPS), y)
    ensures ValueAt(o0, [FIXUPS], y) ==
            Some(PropData(SubBody(RewriteLocal(Shift(o0, delta).v, Adding(delta)).v, FIXUPS), y))
  {
    hide Shift, RewriteLocal, ValueAt, Skel, Clean, SubBody, HasSub, Lists, Rewritten;
    var o1 := Shift(o0, delta).v;
    var o2 := RewriteLocal(o1, Adding(delta)).v;
    ShiftedSkel(o0, delta);
    ShiftKeepsSound(o0, delta);
    SkelUniq(o0, o2);
    SkelMeant(o0, o2, FIXUPS);
    KidValue(o2, FIXUPS, y);
    assert FixupSound(o0, y);
    SkelValue(o0, o2, [FIXUPS], y);
    ShiftAt(o0, delta, [FIXUPS], y);
    RewriteLocalAt(o1, Adding(delta), [FIXUPS], y);
    NoList(o1, Adding(delta), [FIXUPS], y);
  }

  lemma NoList(o: Forest, g: nat -> nat, p: Path, y: Str)
    requires Lists(o, p, y).None?
    ensures Rewritten(ValueAt(o, p, y), Lists(o, p, y), g) == ValueAt(o, p, y)
  {
  }
}
