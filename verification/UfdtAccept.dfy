/**
 * When libufdt applies an overlay (libs/libufdt/ufdt_overlay.c), and when it fails: conditions on the two trees as
 * they are passed in; and what the cells that refer into the base hold.
 */
module UfdtAccept {
  import opened Bytes
  import opened Tree
  import opened Encoding
  import opened Positions
  import opened Edits
  import opened Merge
  import opened Sem
  import opened FixupText
  import opened Overlay
  import opened OverlaySteps
  import opened Refs
  import opened Conflicts
  import opened Ufdt
  import opened UfdtSizes
  import opened UfdtAgree

  // ----- Trees that are alike -----

  lemma {:induction false} AlikeData(f: Forest, g: Forest, x: Str)
    requires Alike(f, g)
    ensures UData(g, x).Some? == UData(f, x).Some?
    ensures UData(f, x).Some? ==> |UData(g, x).value| == |UData(f, x).value|
  {
    match f
    case Nil =>
    case NopF(r) => AlikeData(r, g.rest, x);
    case PropF(n, _, r) => if n != x { AlikeData(r, g.rest, x); }
    case SubF(_, _, r) => AlikeData(r, g.rest, x);
  }

  lemma {:induction false} AlikeKid(f: Forest, g: Forest, n: Str)
    requires Alike(f, g)
    ensures KidAt(g, n).Some? == KidAt(f, n).Some?
    ensures KidAt(f, n).Some? ==> Alike(KidAt(f, n).value, KidAt(g, n).value)
  {
    match f
    case Nil =>
    case SubF(m, _, r) => if m != n { AlikeKid(r, g.rest, n); }
    case _ => AlikeKid(f.rest, g.rest, n);
  }

  lemma {:induction false} AlikeNode(f: Forest, g: Forest, p: Path)
    requires Alike(f, g)
    ensures NodeAt(g, p).Some? == NodeAt(f, p).Some?
    ensures NodeAt(f, p).Some? ==> Alike(NodeAt(f, p).value, NodeAt(g, p).value)
    decreases |p|
  {
    if p != [] {
      AlikeKid(f, g, p[0]);
      if KidAt(f, p[0]).Some? {
        AlikeNode(KidAt(f, p[0]).value, KidAt(g, p[0]).value, p[1..]);
      }
    }
  }

  lemma AlikeValue(f: Forest, g: Forest, p: Path, x: Str)
    requires Alike(f, g)
    ensures UValueAt(g, p, x).Some? == UValueAt(f, p, x).Some?
    ensures UValueAt(f, p, x).Some? ==> |UValueAt(g, p, x).value| == |UValueAt(f, p, x).value|
  {
    AlikeNode(f, g, p);
    if NodeAt(f, p).Some? {
      AlikeData(NodeAt(f, p).value, NodeAt(g, p).value, x);
    }
  }

  // ----- Local fixups -----

  /** The cells that the list l names are inside a value of n bytes. */
  ghost predicate Inside(l: Str, n: nat) {
    forall i: nat | Listed(l, i) :: i + 4 <= n
  }

  lemma InsideStep(l: Str, n: nat)
    ensures |l| < 4 ==> Inside(l, n)
    ensures |l| >= 4 ==> (Inside(l, n) <==> Get32(l, 0) + 4 <= n && Inside(l[4..], n))
  {
    hide Get32;
    if |l| >= 4 {
      assert Listed(l, Get32(l, 0));
      assert forall i: nat :: Listed(l, i) <==> i == Get32(l, 0) || Listed(l[4..], i);
    }
  }

  /** l is a list of cells inside the value d. */
  ghost predicate ListFits(d: Option<Str>, l: Str) {
    |l| % 4 == 0 && d.Some? && Inside(l, |d.value|)
  }

  /** Each list of the fixups node fx is for a property of the node t and names cells inside it. */
  ghost predicate UPropsFit(t: Forest, fx: Forest) {
    match fx
    case Nil => true
    case PropF(n, l, r) => ListFits(UData(t, n), l) && UPropsFit(t, r)
    case _ => UPropsFit(t, fx.rest)
  }

  /** Each subnode of fx leads to a node below t for which the same holds. */
  ghost predicate USubsFit(t: Forest, fx: Forest)
    decreases fx
  {
    match fx
    case Nil => true
    case SubF(n, k, r) =>
      && NodeAt(t, Comps(n)).Some? && UPropsFit(NodeAt(t, Comps(n)).value, k) && USubsFit(NodeAt(t, Comps(n)).value, k)
      && USubsFit(t, r)
    case _ => USubsFit(t, fx.rest)
  }

  lemma {:induction false} PropsFitAlike(t: Forest, t': Forest, fx: Forest)
    requires Alike(t, t')
    ensures UPropsFit(t', fx) == UPropsFit(t, fx)
  {
    match fx
    case Nil =>
    case PropF(n, _, r) =>
      AlikeData(t, t', n);
      PropsFitAlike(t, t', r);
    case _ => PropsFitAlike(t, t', fx.rest);
  }

  lemma {:induction false} SubsFitAlike(t: Forest, t': Forest, fx: Forest)
    requires Alike(t, t')
    ensures USubsFit(t', fx) == USubsFit(t, fx)
    decreases fx
  {
    hide UPropsFit, Alike;
    match fx
    case Nil =>
    case SubF(n, k, r) =>
      AlikeNode(t, t', Comps(n));
      if NodeAt(t, Comps(n)).Some? {
        PropsFitAlike(NodeAt(t, Comps(n)).value, NodeAt(t', Comps(n)).value, k);
        SubsFitAlike(NodeAt(t, Comps(n)).value, NodeAt(t', Comps(n)).value, k);
      }
      SubsFitAlike(t, t', r);
    case _ => SubsFitAlike(t, t', fx.rest);
  }

  lemma {:induction false} FixCellsOk(d: Str, l: Str, delta: nat)
    ensures UFixCells(d, l, delta).Ok? <==> Inside(l, |d|)
    decreases |l|
  {
    hide Inside, Get32, Put32, Overwrite;
    InsideStep(l, |d|);
    if |l| >= 4 {
      var i := Get32(l, 0);
      if i + 4 <= |d| {
        FixCellsOk(Overwrite(d, i, Put32((Get32(d, i) + delta) % U32)), l[4..], delta);
      }
    }
  }

  lemma {:induction false} LocalPropsOk(t: Forest, fx: Forest, delta: nat)
    ensures ULocalProps(t, fx, delta).Ok? <==> UPropsFit(t, fx)
    decreases fx
  {
    hide UFixCells, Inside, Alike;
    match fx
    case Nil =>
    case PropF(n, l, r) =>
      if UData(t, n).Some? {
        FixCellsOk(UData(t, n).value, l, delta);
        if |l| % 4 == 0 && UFixCells(UData(t, n).value, l, delta).Ok? {
          var d := UFixCells(UData(t, n).value, l, delta).v;
          PutAlike(t, n, d);
          PropsFitAlike(t, UPut(t, n, d), r);
          LocalPropsOk(UPut(t, n, d), r, delta);
        }
      }
    case _ => LocalPropsOk(t, fx.rest, delta);
  }

  /** The local fixups are applied exactly if each leads to a node, a property and cells inside it. */
  lemma {:induction false} LocalOk(t: Forest, fx: Forest, delta: nat)
    ensures ULocal(t, fx, delta).Ok? <==> UPropsFit(t, fx) && USubsFit(t, fx)
    decreases fx, 1
  {
    hide ULocalProps, ULocalSubs, UPropsFit, USubsFit, Alike;
    LocalPropsOk(t, fx, delta);
    if ULocalProps(t, fx, delta).Ok? {
      LocalPropsAlike(t, fx, delta);
      SubsFitAlike(t, ULocalProps(t, fx, delta).v, fx);
      LocalSubsOk(ULocalProps(t, fx, delta).v, fx, delta);
    }
  }

  lemma {:induction false} LocalSubsOk(t: Forest, fx: Forest, delta: nat)
    ensures ULocalSubs(t, fx, delta).Ok? <==> USubsFit(t, fx)
    decreases fx, 0
  {
    hide ULocal, UPropsFit, Alike, Comps;
    match fx
    case Nil =>
    case SubF(n, k, r) =>
      if NodeAt(t, Comps(n)).Some? {
        var j := NodeAt(t, Comps(n)).value;
        LocalOk(j, k, delta);
        if ULocal(j, k, delta).Ok? {
          var j' := ULocal(j, k, delta).v;
          LocalAlike(j, k, delta);
          PutAtAlike(t, Comps(n), j');
          SubsFitAlike(t, PutAt(t, Comps(n), j'), r);
          LocalSubsOk(PutAt(t, Comps(n), j'), r, delta);
        }
      }
    case _ => LocalSubsOk(t, fx.rest, delta);
  }

  // ----- References into the base -----

  /** The label y of the base stands for a node: it is a symbol whose path leads to one. */
  function ULabelNode(b: Forest, y: Str): Option<Path> {
    match UValueAt(b, [SYMBOLS], y)
    case None => None
    case Some(d) => ULookup(b, CStr(d))
  }

  function UPh(b: Forest, p: Path): nat {
    match NodeAt(b, p)
    case Some(k) => UPhandle(k)
    case None => 0
  }

  lemma LabelOk(b: Forest, y: Str)
    ensures USymbolPhandle(b, y).Ok? <==> ULabelNode(b, y).Some?
    ensures USymbolPhandle(b, y).Ok? ==> USymbolPhandle(b, y).v == UPh(b, ULabelNode(b, y).value)
  {
  }

  predicate Absolute(s: Str) {
    s != [] && s[0] == SLASH
  }

  /** The cell that the entry names is inside a property of a node of the overlay. */
  predicate EntryFits(o: Forest, e: Fixup) {
    UValueAt(o, Comps(e.path), e.prop).Some? && e.off + 4 <= |UValueAt(o, Comps(e.path), e.prop).value|
  }

  ghost predicate AllAbsolutes(es: seq<Fixup>) {
    forall e | e in es :: Absolute(e.path)
  }

  ghost predicate EntriesFit(o: Forest, es: seq<Fixup>) {
    forall e | e in es :: EntryFits(o, e)
  }

  lemma EntriesAlike(o: Forest, o': Forest, es: seq<Fixup>)
    requires Alike(o, o')
    ensures EntriesFit(o', es) == EntriesFit(o, es)
  {
    hide Alike, UValueAt, Comps;
    forall e | e in es
      ensures EntryFits(o', e) == EntryFits(o, e)
    {
      AlikeValue(o, o', Comps(e.path), e.prop);
    }
  }

  lemma FixOneOk(o: Forest, e: Fixup, v: nat)
    requires v < U32 && Absolute(e.path)
    ensures UFixOne(o, e, v).Ok? <==> EntryFits(o, e)
  {
    hide Comps;
  }

  lemma {:induction false} FixEachOk(o: Forest, es: seq<Fixup>, v: nat)
    requires v < U32 && AllAbsolutes(es)
    ensures UFixEach(o, es, v).Ok? <==> EntriesFit(o, es)
    ensures UFixEach(o, es, v).Ok? ==> Alike(o, UFixEach(o, es, v).v)
    decreases |es|
  {
    hide UFixOne, EntryFits, Alike, Absolute;
    AlikeSelf(o);
    if es != [] {
      assert es[0] in es && forall e | e in es[1..] :: e in es;
      assert forall e | e in es :: e == es[0] || e in es[1..];
      FixOneOk(o, es[0], v);
      if UFixOne(o, es[0], v).Ok? {
        var o1 := UFixOne(o, es[0], v).v;
        FixOneAlike(o, es[0], v);
        FixEachOk(o1, es[1..], v);
        EntriesAlike(o, o1, es[1..]);
        if UFixEach(o1, es[1..], v).Ok? {
          AlikeTrans(o, o1, UFixEach(o1, es[1..], v).v);
        }
      }
    }
  }

  /** A value in which some entry cannot be read is refused, whatever has been stored before. */
  lemma {:induction false} UnreadRefused(o: Forest, d: Str, v: nat)
    requires v < U32 && (d == [] || d[|d| - 1] == 0) && UfdtEntries(d).None?
    ensures UFixEntries(o, d, v).Err?
    decreases |d|
  {
    hide UFixOne, UfdtEntry;
    if d != [] {
      var n := Find(d, 0);
      if n < |d| && UfdtEntry(d[..n]).Some? && UFixOne(o, UfdtEntry(d[..n]).value, v).Ok? {
        UnreadRefused(UFixOne(o, UfdtEntry(d[..n]).value, v).v, d[n + 1..], v);
      }
    }
  }

  lemma FixEntriesOk(o: Forest, d: Str, v: nat)
    requires v < U32 && (d == [] || d[|d| - 1] == 0)
    requires UfdtEntries(d).Some? ==> AllAbsolutes(UfdtEntries(d).value)
    ensures UFixEntries(o, d, v).Ok? <==> UfdtEntries(d).Some? && EntriesFit(o, UfdtEntries(d).value)
  {
    if UfdtEntries(d).Some? {
      UFixEntriesEach(o, d, v);
      FixEachOk(o, UfdtEntries(d).value, v);
    } else {
      UnreadRefused(o, d, v);
    }
  }

  /** A label y with the value d is among the properties of fx. */
  predicate HasLabel(fx: Forest, y: Str, d: Str) {
    match fx
    case Nil => false
    case PropF(n, e, r) => (n == y && e == d) || HasLabel(r, y, d)
    case _ => HasLabel(fx.rest, y, d)
  }

  /** The value d is a list of entries, each ended by a NUL, that name cells inside properties of the overlay. */
  ghost predicate ListsCells(o: Forest, d: Str) {
    d != [] && d[|d| - 1] == 0 && UfdtEntries(d).Some? && EntriesFit(o, UfdtEntries(d).value)
  }

  /** Every label in fx stands for a node of the base, and its entries name cells of the overlay. */
  ghost predicate ULabelsFit(b: Forest, o: Forest, fx: Forest) {
    forall y, d | HasLabel(fx, y, d) :: ULabelNode(b, y).Some? && ListsCells(o, d)
  }

  /** Entries name their nodes by absolute paths. */
  ghost predicate LabelsAbsolute(fx: Forest) {
    forall y, d | HasLabel(fx, y, d) && d != [] && d[|d| - 1] == 0 && UfdtEntries(d).Some? ::
      AllAbsolutes(UfdtEntries(d).value)
  }

  lemma LabelsSplit(b: Forest, o: Forest, fx: Forest)
    ensures match fx
            case Nil => ULabelsFit(b, o, fx)
            case PropF(y, d, r) =>
              && (ULabelsFit(b, o, fx) <==> ULabelNode(b, y).Some? && ListsCells(o, d) && ULabelsFit(b, o, r))
              && (LabelsAbsolute(fx) ==>
                    && LabelsAbsolute(r)
                    && (d != [] && d[|d| - 1] == 0 && UfdtEntries(d).Some? ==> AllAbsolutes(UfdtEntries(d).value)))
            case _ =>
              && (ULabelsFit(b, o, fx) <==> ULabelsFit(b, o, fx.rest))
              && (LabelsAbsolute(fx) ==> LabelsAbsolute(fx.rest))
  {
    hide ULabelNode, ListsCells, UfdtEntries, AllAbsolutes;
    match fx
    case Nil =>
    case PropF(y, d, r) =>
      assert HasLabel(fx, y, d);
      assert forall z, e | HasLabel(r, z, e) :: HasLabel(fx, z, e);
      assert forall z, e | HasLabel(fx, z, e) :: (z == y && e == d) || HasLabel(r, z, e);
    case _ =>
      assert forall z, e :: HasLabel(fx, z, e) == HasLabel(fx.rest, z, e);
  }

  lemma ListsAlike(b: Forest, o: Forest, o': Forest, fx: Forest)
    requires Alike(o, o')
    ensures ULabelsFit(b, o', fx) == ULabelsFit(b, o, fx)
  {
    hide Alike, ULabelNode, UfdtEntries, EntriesFit;
    forall d
      ensures ListsCells(o', d) == ListsCells(o, d)
    {
      if d != [] && d[|d| - 1] == 0 && UfdtEntries(d).Some? {
        EntriesAlike(o, o', UfdtEntries(d).value);
      }
    }
  }

  /** The references into the base are resolved exactly if the labels and their entries are as they should be. */
  lemma {:induction false} FixLabelsOk(b: Forest, o: Forest, fx: Forest)
    requires LabelsAbsolute(fx)
    ensures UFixLabels(b, o, fx).Ok? <==> ULabelsFit(b, o, fx)
    decreases fx
  {
    hide UFixEntries, USymbolPhandle, ULabelNode, ULabelsFit, LabelsAbsolute, Alike, UfdtEntries, EntriesFit,
      AllAbsolutes;
    LabelsSplit(b, o, fx);
    match fx
    case Nil =>
    case PropF(y, d, r) =>
      LabelOk(b, y);
      if USymbolPhandle(b, y).Ok? && d != [] && d[|d| - 1] == 0 {
        var v := USymbolPhandle(b, y).v;
        FixEntriesOk(o, d, v);
        if UFixEntries(o, d, v).Ok? {
          FixEntriesAlike(o, d, v);
          ListsAlike(b, o, UFixEntries(o, d, v).v, r);
          FixLabelsOk(b, UFixEntries(o, d, v).v, r);
        }
      }
    case _ => FixLabelsOk(b, o, fx.rest);
  }

  // ----- Up to the merge -----

  /** No property of the node, or of one below it, is called phandle. */
  predicate Unnamed(f: Forest) {
    match f
    case Nil => true
    case PropF(n, _, r) => !IsPhandle(n) && Unnamed(r)
    case SubF(_, k, r) => Unnamed(k) && Unnamed(r)
    case NopF(r) => Unnamed(r)
  }

  lemma {:induction false} UnnamedData(f: Forest, x: Str)
    requires Unnamed(f) && IsPhandle(x)
    ensures UData(f, x) == None
  {
    match f
    case Nil =>
    case _ => UnnamedData(f.rest, x);
  }

  lemma {:induction false} ShiftNone(f: Forest, delta: nat)
    requires Unnamed(f)
    ensures UShift(f, delta) == f
    decreases FSize(f), 1
  {
    hide UIncrease;
    assert IsPhandle(PHANDLE) && IsPhandle(LINUX_PHANDLE);
    UnnamedData(f, PHANDLE);
    UnnamedData(f, LINUX_PHANDLE);
    ShiftSubsNone(f, delta);
  }

  lemma {:induction false} ShiftSubsNone(f: Forest, delta: nat)
    requires Unnamed(f)
    ensures UShiftSubs(f, delta) == f
    decreases FSize(f), 0
  {
    hide UShift;
    match f
    case Nil =>
    case SubF(_, k, r) =>
      ShiftNone(k, delta);
      ShiftSubsNone(r, delta);
    case _ => ShiftSubsNone(f.rest, delta);
  }

  lemma IncreaseKid(b: Forest, x: Str, delta: nat, n: Str)
    ensures KidAt(UIncrease(b, x, delta), n) == KidAt(b, n)
  {
    if UData(b, x).Some? && |UData(b, x).value| == 4 {
      UPutHere(b, x, Put32((Get32(UData(b, x).value, 0) + delta) % U32), n, x);
    }
  }

  lemma ShiftKid(b: Forest, delta: nat, n: Str)
    ensures KidAt(UShift(b, delta), n) ==
            match KidAt(b, n) case None => None case Some(k) => Some(UShift(k, delta))
  {
    hide UIncrease;
    IncreaseKid(b, PHANDLE, delta, n);
    IncreaseKid(UIncrease(b, PHANDLE, delta), LINUX_PHANDLE, delta, n);
    ShiftSubsKid(b, delta, n);
    ShiftSubsKid(UIncrease(UIncrease(b, PHANDLE, delta), LINUX_PHANDLE, delta), delta, n);
  }

  lemma {:induction false} ShiftSubsKid(b: Forest, delta: nat, n: Str)
    ensures KidAt(UShiftSubs(b, delta), n) ==
            match KidAt(b, n) case None => None case Some(k) => Some(UShift(k, delta))
  {
    hide UShift;
    match b
    case Nil =>
    case SubF(_, _, r) => ShiftSubsKid(r, delta, n);
    case _ => ShiftSubsKid(b.rest, delta, n);
  }

  lemma IncreaseHere(b: Forest, x: Str, delta: nat, y: Str)
    ensures UData(UIncrease(b, x, delta), y) ==
            match CellIn(UData(b, x))
            case Some(v) => if y == x then Some(Put32((v + delta) % U32)) else UData(b, y)
            case None => UData(b, y)
  {
    hide Get32, Put32;
    if CellIn(UData(b, x)).Some? {
      UPutHere(b, x, Put32((Get32(UData(b, x).value, 0) + delta) % U32), [], y);
    }
  }

  lemma {:induction false} ShiftSubsData(b: Forest, delta: nat, y: Str)
    ensures UData(UShiftSubs(b, delta), y) == UData(b, y)
  {
    hide UShift;
    match b
    case Nil =>
    case PropF(n, _, r) => if n != y { ShiftSubsData(r, delta, y); }
    case _ => ShiftSubsData(b.rest, delta, y);
  }

  /**
   * What the value d of property x of a node with phandle v becomes: a phandle of one cell grows, and wraps at 32
   * bits.
   */
  function Grown(v: nat, x: Str, d: Option<Str>, delta: nat): Option<Str> {
    match CellIn(d)
    case Some(c) => if v > 0 && IsPhandle(x) then Some(Put32((c + delta) % U32)) else d
    case None => d
  }

  lemma ShiftData(b: Forest, delta: nat, x: Str)
    ensures UData(UShift(b, delta), x) == Grown(UPhandle(b), x, UData(b, x), delta)
  {
    hide UIncrease, UShiftSubs, Get32, Put32, CellIn;
    assert PHANDLE != LINUX_PHANDLE by {
      assert |PHANDLE| == 7 && |LINUX_PHANDLE| == 13;
    }
    var b1 := UIncrease(b, PHANDLE, delta);
    IncreaseHere(b, PHANDLE, delta, x);
    IncreaseHere(b, PHANDLE, delta, LINUX_PHANDLE);
    IncreaseHere(b1, LINUX_PHANDLE, delta, x);
    ShiftSubsData(UIncrease(b1, LINUX_PHANDLE, delta), delta, x);
    ShiftSubsData(b, delta, x);
  }

  /** ufdt_try_increase_phandle: the phandles of every node grow by delta, nothing else changes. */
  lemma {:induction false} UShiftAt(b: Forest, delta: nat, p: Path, x: Str)
    ensures NodeAt(UShift(b, delta), p).Some? == NodeAt(b, p).Some?
    ensures UValueAt(UShift(b, delta), p, x) == Grown(UPh(b, p), x, UValueAt(b, p, x), delta)
    decreases |p|
  {
    hide UShift, KidAt, UData;
    if p == [] {
      ShiftData(b, delta, x);
    } else {
      ShiftKid(b, delta, p[0]);
      if KidAt(b, p[0]).Some? {
        UShiftAt(KidAt(b, p[0]).value, delta, p[1..], x);
      }
    }
  }

  /** The local fixups fx are about no node of the fixups themselves, and not about the root. */
  ghost predicate NotInto(fx: Forest) {
    forall n | KidAt(fx, n).Some? :: Comps(n) != [] && Comps(n)[0] != FIXUPS
  }

  lemma {:induction false} LocalPropsKid(t: Forest, fx: Forest, delta: nat, m: Str)
    requires ULocalProps(t, fx, delta).Ok?
    ensures KidAt(ULocalProps(t, fx, delta).v, m) == KidAt(t, m)
    decreases fx
  {
    hide UFixCells;
    match fx
    case Nil =>
    case PropF(n, l, r) =>
      var d := UFixCells(UData(t, n).value, l, delta).v;
      UPutHere(t, n, d, m, n);
      LocalPropsKid(UPut(t, n, d), r, delta, m);
    case _ => LocalPropsKid(t, fx.rest, delta, m);
  }

  lemma {:induction false} LocalSubsKid(t: Forest, fx: Forest, delta: nat)
    requires ULocalSubs(t, fx, delta).Ok? && NotInto(fx)
    ensures KidAt(ULocalSubs(t, fx, delta).v, FIXUPS) == KidAt(t, FIXUPS)
    decreases fx
  {
    hide ULocal, Comps;
    match fx
    case Nil =>
    case SubF(n, k, r) =>
      assert KidAt(fx, n).Some? && forall m | KidAt(r, m).Some? :: KidAt(fx, m).Some?;
      var p := Comps(n);
      var j := NodeAt(t, p).value;
      var j' := ULocal(j, k, delta).v;
      PutKidHere(t, p[0], PutAt(KidAt(t, p[0]).value, p[1..], j'), FIXUPS, []);
      LocalSubsKid(PutAt(t, p, j'), r, delta);
    case _ =>
      assert forall m | KidAt(fx.rest, m).Some? :: KidAt(fx, m).Some?;
      LocalSubsKid(t, fx.rest, delta);
  }

  /** What is asked of the overlay's own fixups nodes, for what they say not to change while they are read. */
  ghost predicate FixupsPlainly(o: Forest) {
    && (KidAt(o, LOCAL_FIXUPS).Some? ==>
          Unnamed(KidAt(o, LOCAL_FIXUPS).value) && NotInto(KidAt(o, LOCAL_FIXUPS).value))
    && (KidAt(o, FIXUPS).Some? ==> Unnamed(KidAt(o, FIXUPS).value) && LabelsAbsolute(KidAt(o, FIXUPS).value))
  }

  /** The local fixups lead to cells of the overlay. */
  ghost predicate ULocalsFit(o: Forest) {
    match KidAt(o, LOCAL_FIXUPS)
    case None => true
    case Some(fx) => UPropsFit(o, fx) && USubsFit(o, fx)
  }

  /** The labels stand for nodes of the base, and their entries lead to cells of the overlay. */
  ghost predicate UFixupsFit(b: Forest, o: Forest) {
    match KidAt(o, FIXUPS)
    case None => true
    case Some(fx) => ULabelsFit(b, o, fx)
  }

  /** Up to the merge libufdt succeeds exactly if the fixups of both kinds lead somewhere. */
  lemma ResolvedOk(b: Forest, o: Forest)
    requires FixupsPlainly(o)
    ensures UResolved(b, o).Ok? <==> ULocalsFit(o) && UFixupsFit(b, o)
  {
    hide UShift, ULocal, UFixLabels, Alike, UPropsFit, USubsFit, ULabelsFit, Unnamed, NotInto, LabelsAbsolute, KidAt;
    var delta := UMaxPhandle(b);
    var o1 := if delta > 0 then UShift(o, delta) else o;
    AlikeSelf(o);
    ShiftAlike(o, delta);
    ShiftKid(o, delta, LOCAL_FIXUPS);
    ShiftKid(o, delta, FIXUPS);
    if KidAt(o, LOCAL_FIXUPS).Some? {
      ShiftNone(KidAt(o, LOCAL_FIXUPS).value, delta);
      var fx := KidAt(o, LOCAL_FIXUPS).value;
      PropsFitAlike(o, o1, fx);
      SubsFitAlike(o, o1, fx);
      LocalOk(o1, fx, delta);
      if ULocal(o1, fx, delta).Ok? {
        LocalAlike(o1, fx, delta);
        LocalKid(o1, fx, delta);
      }
    }
    var r2 := match KidAt(o1, LOCAL_FIXUPS) { case None => Ok(o1) case Some(fx) => ULocal(o1, fx, delta) };
    if KidAt(o, FIXUPS).Some? {
      ShiftNone(KidAt(o, FIXUPS).value, delta);
      if r2.Ok? {
        AlikeSelf(o1);
        AlikeTrans(o, o1, r2.v);
        ListsAlike(b, o, r2.v, KidAt(o, FIXUPS).value);
        FixLabelsOk(b, r2.v, KidAt(o, FIXUPS).value);
      }
    }
  }

  lemma LocalKid(t: Forest, fx: Forest, delta: nat)
    requires ULocal(t, fx, delta).Ok? && NotInto(fx)
    ensures KidAt(ULocal(t, fx, delta).v, FIXUPS) == KidAt(t, FIXUPS)
  {
    hide ULocalProps, ULocalSubs, KidAt, NotInto;
    LocalPropsKid(t, fx, delta, FIXUPS);
    LocalSubsKid(ULocalProps(t, fx, delta).v, fx, delta);
  }

  // ----- The merge -----

  /** What decides where a path leads: the paths of the nodes there are, and the values of the aliases. */
  datatype Seen = Seen(nodes: iset<Path>, aliases: imap<Str, Str>)

  ghost function SeenIn(b: Forest): Seen {
    Seen(iset p | NodeAt(b, p).Some? :: p,
         imap a | UValueAt(b, [ALIASES], a).Some? :: UValueAt(b, [ALIASES], a).value)
  }

  /** What the content ov of a fragment for the node at t says of the alias a. */
  function AliasFrom(t: Path, ov: Forest, a: Str): Option<Str> {
    if t <= [ALIASES] then UValueAt(ov, [ALIASES][|t|..], a) else None
  }

  /** What there is when ov has been merged into the node at t. */
  ghost function SeenWith(s: Seen, t: Path, ov: Forest): Seen {
    Seen(iset p | p in s.nodes || (t <= p && NodeAt(ov, p[|t|..]).Some?) :: p,
         imap a | AliasFrom(t, ov, a).Some? || a in s.aliases ::
           if AliasFrom(t, ov, a).Some? then AliasFrom(t, ov, a).value else s.aliases[a])
  }

  lemma SeenInIs(b: Forest)
    ensures forall p: Path :: p in SeenIn(b).nodes <==> NodeAt(b, p).Some?
    ensures forall a :: a in SeenIn(b).aliases <==> UValueAt(b, [ALIASES], a).Some?
    ensures forall a | a in SeenIn(b).aliases :: SeenIn(b).aliases[a] == UValueAt(b, [ALIASES], a).value
  {
    hide NodeAt, UValueAt;
  }

  lemma SeenWithIs(s: Seen, t: Path, ov: Forest)
    ensures forall p: Path :: p in SeenWith(s, t, ov).nodes <==> p in s.nodes || (t <= p && NodeAt(ov, p[|t|..]).Some?)
    ensures forall a :: a in SeenWith(s, t, ov).aliases <==> AliasFrom(t, ov, a).Some? || a in s.aliases
    ensures forall a | a in SeenWith(s, t, ov).aliases ::
              SeenWith(s, t, ov).aliases[a] ==
              if AliasFrom(t, ov, a).Some? then AliasFrom(t, ov, a).value else s.aliases[a]
  {
    hide NodeAt, AliasFrom;
  }

  /** The nodes that the path p names: an absolute path, or an alias with more names after it. */
  ghost function NamedBy(s: Seen, p: Str): Option<Path> {
    if Absolute(p) then Some(Comps(p)) else
    if p[..Word(p)] !in s.aliases || !IsText(s.aliases[p[..Word(p)]]) then None else
      Some(Comps(CStr(s.aliases[p[..Word(p)]])) + Comps(p[Word(p)..]))
  }

  /** The value is a text with no NUL but the one that ends it, and is not empty. */
  predicate IsText(d: Str) {
    |d| >= 2 && CStr(d) == d[..|d| - 1]
  }

  lemma {:induction false} CStrFront(d: Str)
    ensures CStr(d) <= d
  {
    if d != [] && d[0] != 0 {
      CStrFront(d[1..]);
    }
  }

  lemma TextIs(d: Str)
    ensures IsText(d) <==> |CStr(d)| == |d| - 1 && CStr(d) != []
  {
    CStrFront(d);
  }

  lemma LookupSeen(c: Forest, p: Str)
    ensures ULookup(c, p).Some? <==> NamedBy(SeenIn(c), p).Some? && NodeAt(c, NamedBy(SeenIn(c), p).value).Some?
    ensures ULookup(c, p).Some? ==> ULookup(c, p) == NamedBy(SeenIn(c), p)
  {
    hide Comps, CStr, NodeAt, UValueAt, SeenIn, IsText;
    SeenInIs(c);
    if UValueAt(c, [ALIASES], p[..Word(p)]).Some? {
      TextIs(UValueAt(c, [ALIASES], p[..Word(p)]).value);
    }
  }

  /**
   * The fragment with content k is for the node at t, where s is what there is: that is the node of the base with the
   * phandle that target holds, or, if there is no target, the one that target-path names.
   */
  ghost predicate UGoes(b: Forest, s: Seen, k: Forest, t: Path) {
    match UData(k, TARGET)
    case Some(d) => |d| >= 4 && Get32(d, 0) != 0 && UPhandlePath(b, Get32(d, 0)) == Some(t)
    case None => UData(k, TARGET_PATH).Some? && NamedBy(s, CStr(UData(k, TARGET_PATH).value)) == Some(t)
  }

  /**
   * Each fragment is for a node that is known when its turn comes: one of the base, or one that an earlier one adds.
   */
  ghost predicate UTargetsKnown(b: Forest, s: Seen, frags: Forest)
    decreases frags
  {
    match frags
    case Nil => true
    case SubF(_, k, r) =>
      if KidAt(k, OVERLAY).None? then UTargetsKnown(b, s, r) else
        exists t :: UGoes(b, s, k, t) && t in s.nodes && UTargetsKnown(b, SeenWith(s, t, KidAt(k, OVERLAY).value), r)
    case _ => UTargetsKnown(b, s, frags.rest)
  }

  lemma MergedSeen(c: Forest, t: Path, ov: Forest)
    requires NodeAt(c, t).Some? && UUniq(ov)
    ensures SeenIn(PutAt(c, t, UMerge(NodeAt(c, t).value, ov))) == SeenWith(SeenIn(c), t, ov)
  {
    hide UMerge, PutAt, NodeAt, UUniq, SeenIn, SeenWith, UData;
    var j := NodeAt(c, t).value;
    var m := PutAt(c, t, UMerge(j, ov));
    SeenInIs(c);
    SeenInIs(m);
    SeenWithIs(SeenIn(c), t, ov);
    forall p: Path
      ensures NodeAt(m, p).Some? <==> NodeAt(c, p).Some? || (t <= p && NodeAt(ov, p[|t|..]).Some?)
    {
      MergedAt(c, t, ov, p, []);
    }
    forall a
      ensures UValueAt(m, [ALIASES], a) == Over(AliasFrom(t, ov, a), UValueAt(c, [ALIASES], a))
    {
      MergedAt(c, t, ov, [ALIASES], a);
    }
    SameSeen(SeenIn(m), SeenWith(SeenIn(c), t, ov));
  }

  lemma SameSeen(s: Seen, s': Seen)
    requires forall p :: p in s.nodes <==> p in s'.nodes
    requires forall a :: a in s.aliases <==> a in s'.aliases
    requires forall a | a in s.aliases && a in s'.aliases :: s.aliases[a] == s'.aliases[a]
    ensures s == s'
  {
    assert s.nodes == s'.nodes;
    assert s.aliases == s'.aliases;
  }

  /** After a fragment its values are in front of those there were; nodes are added. */
  lemma MergedAt(c: Forest, t: Path, ov: Forest, p: Path, x: Str)
    requires NodeAt(c, t).Some? && UUniq(ov)
    ensures var m := PutAt(c, t, UMerge(NodeAt(c, t).value, ov));
            && (NodeAt(m, p).Some? <==> NodeAt(c, p).Some? || (t <= p && NodeAt(ov, p[|t|..]).Some?))
            && UValueAt(m, p, x) == Over(if t <= p then UValueAt(ov, p[|t|..], x) else None, UValueAt(c, p, x))
  {
    hide UMerge, PutAt, UUniq, UData, NodeAt;
    var j := NodeAt(c, t).value;
    UPutAtValue(c, t, UMerge(j, ov), p, x);
    if t <= p {
      UMergeAt(j, ov, p[|t|..], x);
      NodeBelow(c, t, p);
    }
  }

  lemma TargetIs(b: Forest, c: Forest, k: Forest)
    ensures UTarget(b, c, k).Ok? && NodeAt(c, UTarget(b, c, k).v).Some? <==>
            exists t :: UGoes(b, SeenIn(c), k, t) && NodeAt(c, t).Some?
    ensures UTarget(b, c, k).Ok? ==> UGoes(b, SeenIn(c), k, UTarget(b, c, k).v)
    ensures forall t, u | UGoes(b, SeenIn(c), k, t) && UGoes(b, SeenIn(c), k, u) :: t == u
  {
    hide NamedBy, CStr, UPhandlePath, NodeAt, ULookup, SeenIn, Get32;
    match UData(k, TARGET)
    case Some(d) =>
      if |d| >= 4 && UPhandlePath(b, Get32(d, 0)).Some? && Get32(d, 0) != 0 {
        assert UGoes(b, SeenIn(c), k, UPhandlePath(b, Get32(d, 0)).value);
      }
    case None =>
      if UData(k, TARGET_PATH).Some? {
        LookupSeen(c, CStr(UData(k, TARGET_PATH).value));
      }
  }

  lemma {:induction false} MergeOk(b: Forest, c: Forest, frags: Forest)
    requires UUniq(frags)
    ensures UMergeAll(b, c, frags).Ok? <==> UTargetsKnown(b, SeenIn(c), frags)
    decreases frags
  {
    hide UTarget, UMerge, PutAt, KidAt, UGoes, NodeAt, SeenIn, SeenWith;
    match frags
    case Nil =>
    case SubF(_, k, r) =>
      UniqParts(frags);
      if KidAt(k, OVERLAY).None? {
        MergeOk(b, c, r);
      } else {
        var ov := KidAt(k, OVERLAY).value;
        UKidUniq(k, OVERLAY);
        TargetIs(b, c, k);
        SeenInIs(c);
        if UTarget(b, c, k).Ok? && NodeAt(c, UTarget(b, c, k).v).Some? {
          var t := UTarget(b, c, k).v;
          MergedSeen(c, t, ov);
          MergeOk(b, PutAt(c, t, UMerge(NodeAt(c, t).value, ov)), r);
        }
      }
    case NopF(r) => MergeOk(b, c, r);
    case PropF(_, _, r) =>
      UniqParts(frags);
      MergeOk(b, c, r);
  }

  lemma UniqParts(frags: Forest)
    requires UUniq(frags) && !frags.Nil?
    ensures UUniq(frags.rest) && (frags.SubF? ==> UUniq(frags.body))
  {
  }

  lemma {:induction false} AlikeUniq(f: Forest, g: Forest)
    requires Alike(f, g)
    ensures UUniq(g) == UUniq(f)
  {
    match f
    case Nil =>
    case NopF(r) => AlikeUniq(r, g.rest);
    case PropF(n, _, r) =>
      AlikeUniq(r, g.rest);
      AlikeData(r, g.rest, n);
    case SubF(n, k, r) =>
      AlikeUniq(k, g.body);
      AlikeUniq(r, g.rest);
      AlikeKid(r, g.rest, n);
  }

  // ----- The whole -----

  /** The overlay as it is merged, or nothing. */
  function USettled(b: Forest, o: Forest): Forest {
    match UResolved(b, o)
    case Ok(o3) => o3
    case Err(_) => Nil
  }

  /**
   * ufdt_overlay_apply succeeds exactly if the local fixups lead to cells of the overlay, every label of __fixups__ is
   * a symbol of the base whose path leads to a node, every entry names a cell inside a property, and each fragment
   * with an __overlay__ node is for a node that is known by then.
   */
  lemma OverlayOk(b: Forest, o: Forest)
    requires UUniq(o) && FixupsPlainly(o)
    ensures UOverlayApply(b, o).Ok? <==>
            ULocalsFit(o) && UFixupsFit(b, o) && UTargetsKnown(b, SeenIn(b), USettled(b, o))
  {
    hide UResolved, UMergeAll, ULocalsFit, UFixupsFit, UTargetsKnown, FixupsPlainly, UUniq, Alike;
    ResolvedOk(b, o);
    if UResolved(b, o).Ok? {
      ResolvedAlike(b, o);
      AlikeUniq(o, USettled(b, o));
      MergeOk(b, b, USettled(b, o));
    }
  }

  /** ufdt_apply_overlay on blobs: the trees are those of the blobs without their NOPs. */
  lemma ApplyOverlayOk(b: Forest, o: Forest)
    requires UUniq(Strip(o)) && FixupsPlainly(Strip(o))
    ensures UfdtApplyOverlay(b, o).Ok? <==>
            && ULocalsFit(Strip(o)) && UFixupsFit(Strip(b), Strip(o))
            && UTargetsKnown(Strip(b), SeenIn(Strip(b)), USettled(Strip(b), Strip(o)))
  {
    hide UOverlayApply, ULocalsFit, UFixupsFit, UTargetsKnown, FixupsPlainly, UUniq, SeenIn, Emit;
    OverlayOk(Strip(b), Strip(o));
  }

  // ----- What the cells hold -----

  function UCell(o: Forest, p: Path, x: Str, i: nat): Option<nat> {
    CellAt(UValueAt(o, p, x), i)
  }

  /** The entry e is about bytes of the cell at offset i of property x of the node at path p. */
  predicate UTouches(e: Fixup, p: Path, x: Str, i: nat) {
    e.prop == x && Comps(e.path) == p && e.off < i + 4 && i < e.off + 4
  }

  /** Every entry among es that is about bytes of that cell is about that cell. */
  ghost predicate UExact(es: seq<Fixup>, p: Path, x: Str, i: nat) {
    forall e | e in es && UTouches(e, p, x, i) :: e.off == i
  }

  ghost predicate UHit(es: seq<Fixup>, p: Path, x: Str, i: nat) {
    exists e :: e in es && UTouches(e, p, x, i)
  }

  lemma UPutPropAt(o: Forest, q: Path, y: Str, d: Str, p: Path, x: Str)
    requires NodeAt(o, q).Some? && UData(NodeAt(o, q).value, y).Some?
    ensures UValueAt(PutAt(o, q, UPut(NodeAt(o, q).value, y, d)), p, x) ==
            if p == q && x == y then Some(d) else UValueAt(o, p, x)
  {
    hide PutAt, UPut, UData;
    var k := NodeAt(o, q).value;
    UPutAtValue(o, q, UPut(k, y, d), p, x);
    if q <= p {
      NodeBelow(o, q, p);
      var r := p[|q|..];
      UPutHere(k, y, d, if r == [] then [] else r[0], x);
      assert r == [] <==> p == q;
    }
  }

  lemma UFixOneCell(o: Forest, e: Fixup, v: nat, p: Path, x: Str, i: nat)
    requires v < U32 && Absolute(e.path) && UFixOne(o, e, v).Ok?
    ensures UTouches(e, p, x, i) && e.off == i ==> UCell(UFixOne(o, e, v).v, p, x, i) == Some(v)
    ensures !UTouches(e, p, x, i) ==> UCell(UFixOne(o, e, v).v, p, x, i) == UCell(o, p, x, i)
  {
    hide Comps, PutAt, Overwrite, Get32, Put32, UPut;
    var q := Comps(e.path);
    var c := UData(NodeAt(o, q).value, e.prop).value;
    UPutPropAt(o, q, e.prop, Overwrite(c, e.off, Put32(v)), p, x);
    OverwriteCell(c, e.off, v);
    if p == q && x == e.prop && i + 4 <= |c| && !UTouches(e, p, x, i) {
      OverwriteElse(c, e.off, Put32(v), i);
    }
  }

  lemma {:induction false} UFixEachCell(o: Forest, es: seq<Fixup>, v: nat, p: Path, x: Str, i: nat)
    requires v < U32 && AllAbsolutes(es) && UFixEach(o, es, v).Ok? && UExact(es, p, x, i)
    ensures UHit(es, p, x, i) || UCell(o, p, x, i) == Some(v) ==> UCell(UFixEach(o, es, v).v, p, x, i) == Some(v)
    ensures !UHit(es, p, x, i) ==> UCell(UFixEach(o, es, v).v, p, x, i) == UCell(o, p, x, i)
    decreases |es|
  {
    hide UFixOne, UCell, UTouches, Absolute;
    if es != [] {
      var e := es[0];
      assert e in es && forall f | f in es[1..] :: f in es;
      assert UHit(es, p, x, i) <==> UTouches(e, p, x, i) || UHit(es[1..], p, x, i);
      UFixOneCell(o, e, v, p, x, i);
      UFixEachCell(UFixOne(o, e, v).v, es[1..], v, p, x, i);
    }
  }

  /** Every entry of fx that is about bytes of the cell is about that cell, and its label's node has the phandle u. */
  ghost predicate UOnly(b: Forest, fx: Forest, p: Path, x: Str, i: nat, u: nat) {
    forall y, d | HasLabel(fx, y, d) && d != [] && d[|d| - 1] == 0 && UfdtEntries(d).Some? ::
      && UExact(UfdtEntries(d).value, p, x, i)
      && (UHit(UfdtEntries(d).value, p, x, i) && ULabelNode(b, y).Some? ==> UPh(b, ULabelNode(b, y).value) == u)
  }

  /** Some entry of fx is about that cell. */
  ghost predicate USome(fx: Forest, p: Path, x: Str, i: nat) {
    exists y, d :: HasLabel(fx, y, d) && d != [] && d[|d| - 1] == 0 && UfdtEntries(d).Some?
                   && UHit(UfdtEntries(d).value, p, x, i)
  }

  /** The value d can be read, and has an entry about that cell. */
  ghost predicate UValueHits(d: Str, p: Path, x: Str, i: nat) {
    d != [] && d[|d| - 1] == 0 && UfdtEntries(d).Some? && UHit(UfdtEntries(d).value, p, x, i)
  }

  lemma OnlySplit(b: Forest, fx: Forest, p: Path, x: Str, i: nat, u: nat)
    requires UOnly(b, fx, p, x, i, u)
    ensures match fx
            case Nil => !USome(fx, p, x, i)
            case PropF(y, d, r) =>
              && UOnly(b, r, p, x, i, u) && (USome(fx, p, x, i) <==> UValueHits(d, p, x, i) || USome(r, p, x, i))
              && (d != [] && d[|d| - 1] == 0 && UfdtEntries(d).Some? ==> UExact(UfdtEntries(d).value, p, x, i))
              && (UValueHits(d, p, x, i) && ULabelNode(b, y).Some? ==> UPh(b, ULabelNode(b, y).value) == u)
            case _ => UOnly(b, fx.rest, p, x, i, u) && (USome(fx, p, x, i) <==> USome(fx.rest, p, x, i))
  {
    hide UfdtEntries, UExact, UHit, ULabelNode, UPh;
    match fx
    case Nil =>
    case PropF(y, d, r) =>
      assert HasLabel(fx, y, d);
      assert forall z, e | HasLabel(r, z, e) :: HasLabel(fx, z, e);
      assert forall z, e | HasLabel(fx, z, e) :: (z == y && e == d) || HasLabel(r, z, e);
    case _ =>
      assert forall z, e :: HasLabel(fx, z, e) == HasLabel(fx.rest, z, e);
  }

  lemma {:induction false} UFixLabelsCell(b: Forest, o: Forest, fx: Forest, p: Path, x: Str, i: nat, u: nat)
    requires UFixLabels(b, o, fx).Ok? && LabelsAbsolute(fx) && UOnly(b, fx, p, x, i, u)
    ensures USome(fx, p, x, i) || UCell(o, p, x, i) == Some(u) ==> UCell(UFixLabels(b, o, fx).v, p, x, i) == Some(u)
    decreases fx
  {
    hide UFixEntries, USymbolPhandle, ULabelNode, UPh, UOnly, USome, UCell, UfdtEntries, UExact, UHit, AllAbsolutes,
      LabelsAbsolute, ULabelsFit;
    LabelsSplit(b, o, fx);
    OnlySplit(b, fx, p, x, i, u);
    match fx
    case Nil =>
    case PropF(y, d, r) =>
      LabelOk(b, y);
      var v := USymbolPhandle(b, y).v;
      if UfdtEntries(d).None? {
        UnreadRefused(o, d, v);
      }
      UFixEntriesEach(o, d, v);
      UFixEachCell(o, UfdtEntries(d).value, v, p, x, i);
      UFixLabelsCell(b, UFixEntries(o, d, v).v, r, p, x, i, u);
    case _ => UFixLabelsCell(b, o, fx.rest, p, x, i, u);
  }

  /**
   * A cell that __fixups__ lists under the label y, and that no other label or overlapping cell lists, holds in the
   * overlay that is merged the phandle of the node of the base that the base's symbol y leads to.
   */
  lemma LabelledCell(b: Forest, o: Forest, fx: Forest, y: Str, d: Str, e: Fixup)
    requires UResolved(b, o).Ok? && FixupsPlainly(o) && KidAt(o, FIXUPS) == Some(fx)
    requires HasLabel(fx, y, d) && d != [] && d[|d| - 1] == 0 && UfdtEntries(d).Some? && e in UfdtEntries(d).value
    requires forall z, c | HasLabel(fx, z, c) && UValueHits(c, Comps(e.path), e.prop, e.off) :: z == y
    requires forall z, c | HasLabel(fx, z, c) && c != [] && c[|c| - 1] == 0 && UfdtEntries(c).Some? ::
               UExact(UfdtEntries(c).value, Comps(e.path), e.prop, e.off)
    ensures ULabelNode(b, y).Some?
    ensures UCell(UResolved(b, o).v, Comps(e.path), e.prop, e.off) == Some(UPh(b, ULabelNode(b, y).value))
  {
    hide UShift, ULocal, UFixLabels, ULabelsFit, Unnamed, NotInto, LabelsAbsolute, KidAt, UfdtEntries, ULabelNode, UPh,
      UCell, UExact, Alike, UPropsFit, USubsFit;
    var p := Comps(e.path);
    ResolvedOk(b, o);
    LabelNeeded(b, o, fx, y, d);
    assert UTouches(e, p, e.prop, e.off);
    assert UHit(UfdtEntries(d).value, p, e.prop, e.off);
    assert USome(fx, p, e.prop, e.off);
    assert UOnly(b, fx, p, e.prop, e.off, UPh(b, ULabelNode(b, y).value));
    var delta := UMaxPhandle(b);
    var o1 := if delta > 0 then UShift(o, delta) else o;
    ShiftKid(o, delta, LOCAL_FIXUPS);
    ShiftKid(o, delta, FIXUPS);
    ShiftNone(fx, delta);
    if KidAt(o, LOCAL_FIXUPS).Some? {
      ShiftNone(KidAt(o, LOCAL_FIXUPS).value, delta);
      LocalKid(o1, KidAt(o, LOCAL_FIXUPS).value, delta);
    }
    var o2 := match KidAt(o1, LOCAL_FIXUPS) { case None => o1 case Some(fl) => ULocal(o1, fl, delta).v };
    UFixLabelsCell(b, o2, fx, p, e.prop, e.off, UPh(b, ULabelNode(b, y).value));
  }

  lemma LabelNeeded(b: Forest, o: Forest, fx: Forest, y: Str, d: Str)
    requires ULabelsFit(b, o, fx) && HasLabel(fx, y, d)
    ensures ULabelNode(b, y).Some?
  {
  }
}
