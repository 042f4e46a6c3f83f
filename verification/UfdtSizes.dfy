/**
 * How large an unflattened tree can become (libs/libufdt/ufdt_overlay.c): nothing done to an overlay before the merge
 * changes the length of a value, and a merge takes no more room than the two trees did.
 */
module UfdtSizes {
  import opened Bytes
  import opened Tree
  import opened Edits
  import opened Sem
  import opened FixupText
  import opened Overlay
  import opened Ufdt

  // ----- Before the merge -----

  /** The same nodes and properties in the same order, the values as long as before. */
  ghost predicate Alike(f: Forest, g: Forest) {
    match f
    case Nil => g.Nil?
    case NopF(r) => g.NopF? && Alike(r, g.rest)
    case PropF(n, d, r) => g.PropF? && g.pname == n && |g.data| == |d| && Alike(r, g.rest)
    case SubF(n, k, r) => g.SubF? && g.name == n && Alike(k, g.body) && Alike(r, g.rest)
  }

  lemma {:induction false} AlikeSize(f: Forest, g: Forest)
    requires Alike(f, g)
    ensures FSize(f) == FSize(g)
  {
    match f
    case Nil =>
    case NopF(r) => AlikeSize(r, g.rest);
    case PropF(_, _, r) => AlikeSize(r, g.rest);
    case SubF(_, k, r) =>
      AlikeSize(k, g.body);
      AlikeSize(r, g.rest);
  }

  lemma {:induction false} AlikeSelf(f: Forest)
    ensures Alike(f, f)
  {
    match f
    case Nil =>
    case SubF(_, k, r) =>
      AlikeSelf(k);
      AlikeSelf(r);
    case _ => AlikeSelf(f.rest);
  }

  lemma {:induction false} AlikeTrans(f: Forest, g: Forest, h: Forest)
    requires Alike(f, g) && Alike(g, h)
    ensures Alike(f, h)
  {
    match f
    case Nil =>
    case SubF(_, k, r) =>
      AlikeTrans(k, g.body, h.body);
      AlikeTrans(r, g.rest, h.rest);
    case _ => AlikeTrans(f.rest, g.rest, h.rest);
  }

  lemma {:induction false} PutAlike(b: Forest, x: Str, d: Str)
    requires UData(b, x).Some? && |UData(b, x).value| == |d|
    ensures Alike(b, UPut(b, x, d))
  {
    match b
    case PropF(n, _, r) =>
      if n == x {
        AlikeSelf(r);
      } else {
        PutAlike(r, x, d);
      }
    case NopF(r) => PutAlike(r, x, d);
    case SubF(_, k, r) =>
      AlikeSelf(k);
      PutAlike(r, x, d);
  }

  lemma {:induction false} PutKidAlike(b: Forest, n: Str, k: Forest)
    requires KidAt(b, n).Some? && Alike(KidAt(b, n).value, k)
    ensures Alike(b, PutKid(b, n, k))
  {
    match b
    case SubF(m, j, r) =>
      if m == n {
        AlikeSelf(r);
      } else {
        AlikeSelf(j);
        PutKidAlike(r, n, k);
      }
    case NopF(r) => PutKidAlike(r, n, k);
    case PropF(_, _, r) => PutKidAlike(r, n, k);
  }

  lemma {:induction false} PutAtAlike(b: Forest, p: Path, k: Forest)
    requires NodeAt(b, p).Some? && Alike(NodeAt(b, p).value, k)
    ensures Alike(b, PutAt(b, p, k))
    decreases |p|
  {
    if p != [] {
      var j := KidAt(b, p[0]).value;
      PutAtAlike(j, p[1..], k);
      PutKidAlike(b, p[0], PutAt(j, p[1..], k));
    }
  }

  lemma IncreaseAlike(b: Forest, x: Str, delta: nat)
    ensures Alike(b, UIncrease(b, x, delta))
  {
    AlikeSelf(b);
    match UData(b, x)
    case None =>
    case Some(d) =>
      if |d| == 4 {
        PutAlike(b, x, Put32((Get32(d, 0) + delta) % U32));
      }
  }

  lemma {:induction false} ShiftAlike(b: Forest, delta: nat)
    ensures Alike(b, UShift(b, delta))
    decreases FSize(b), 1
  {
    if UPhandle(b) > 0 {
      var b1 := UIncrease(b, PHANDLE, delta);
      var b2 := UIncrease(b1, LINUX_PHANDLE, delta);
      IncreaseAlike(b, PHANDLE, delta);
      IncreaseAlike(b1, LINUX_PHANDLE, delta);
      ShiftSubsAlike(b2, delta);
      AlikeTrans(b, b1, b2);
      AlikeTrans(b, b2, UShiftSubs(b2, delta));
    } else {
      ShiftSubsAlike(b, delta);
    }
  }

  lemma {:induction false} ShiftSubsAlike(b: Forest, delta: nat)
    ensures Alike(b, UShiftSubs(b, delta))
    decreases FSize(b), 0
  {
    match b
    case Nil =>
    case SubF(_, k, r) =>
      ShiftAlike(k, delta);
      ShiftSubsAlike(r, delta);
    case _ => ShiftSubsAlike(b.rest, delta);
  }

  lemma {:induction false} LocalAlike(t: Forest, fx: Forest, delta: nat)
    requires ULocal(t, fx, delta).Ok?
    ensures Alike(t, ULocal(t, fx, delta).v)
    decreases fx, 1
  {
    var t1 := ULocalProps(t, fx, delta).v;
    LocalPropsAlike(t, fx, delta);
    LocalSubsAlike(t1, fx, delta);
    AlikeTrans(t, t1, ULocalSubs(t1, fx, delta).v);
  }

  lemma {:induction false} LocalPropsAlike(t: Forest, fx: Forest, delta: nat)
    requires ULocalProps(t, fx, delta).Ok?
    ensures Alike(t, ULocalProps(t, fx, delta).v)
    decreases fx, 0
  {
    match fx
    case Nil => AlikeSelf(t);
    case PropF(n, l, r) =>
      var t1 := UPut(t, n, UFixCells(UData(t, n).value, l, delta).v);
      PutAlike(t, n, UFixCells(UData(t, n).value, l, delta).v);
      LocalPropsAlike(t1, r, delta);
      AlikeTrans(t, t1, ULocalProps(t1, r, delta).v);
    case _ => LocalPropsAlike(t, fx.rest, delta);
  }

  lemma {:induction false} LocalSubsAlike(t: Forest, fx: Forest, delta: nat)
    requires ULocalSubs(t, fx, delta).Ok?
    ensures Alike(t, ULocalSubs(t, fx, delta).v)
    decreases fx, 0
  {
    match fx
    case Nil => AlikeSelf(t);
    case SubF(n, k, r) =>
      var j := NodeAt(t, Comps(n)).value;
      var t1 := PutAt(t, Comps(n), ULocal(j, k, delta).v);
      LocalAlike(j, k, delta);
      PutAtAlike(t, Comps(n), ULocal(j, k, delta).v);
      LocalSubsAlike(t1, r, delta);
      AlikeTrans(t, t1, ULocalSubs(t1, r, delta).v);
    case _ => LocalSubsAlike(t, fx.rest, delta);
  }

  lemma FixOneAlike(o: Forest, e: Fixup, v: nat)
    requires v < U32 && UFixOne(o, e, v).Ok?
    ensures Alike(o, UFixOne(o, e, v).v)
  {
    hide ULookup;
    var p := ULookup(o, e.path).value;
    var k := NodeAt(o, p).value;
    var d := Overwrite(UData(k, e.prop).value, e.off, Put32(v));
    PutAlike(k, e.prop, d);
    PutAtAlike(o, p, UPut(k, e.prop, d));
  }

  lemma {:induction false} FixEntriesAlike(o: Forest, d: Str, v: nat)
    requires v < U32 && UFixEntries(o, d, v).Ok?
    ensures Alike(o, UFixEntries(o, d, v).v)
    decreases |d|
  {
    hide UFixOne, UfdtEntry;
    AlikeSelf(o);
    if d != [] {
      var n := Find(d, 0);
      var e := UfdtEntry(d[..n]).value;
      var o1 := UFixOne(o, e, v).v;
      FixOneAlike(o, e, v);
      FixEntriesAlike(o1, d[n + 1..], v);
      AlikeTrans(o, o1, UFixEntries(o1, d[n + 1..], v).v);
    }
  }

  lemma {:induction false} FixLabelsAlike(b: Forest, o: Forest, fx: Forest)
    requires UFixLabels(b, o, fx).Ok?
    ensures Alike(o, UFixLabels(b, o, fx).v)
    decreases fx
  {
    hide UFixEntries, USymbolPhandle;
    match fx
    case Nil => AlikeSelf(o);
    case PropF(y, d, r) =>
      var v := USymbolPhandle(b, y).v;
      var o1 := UFixEntries(o, d, v).v;
      FixEntriesAlike(o, d, v);
      FixLabelsAlike(b, o1, r);
      AlikeTrans(o, o1, UFixLabels(b, o1, r).v);
    case _ => FixLabelsAlike(b, o, fx.rest);
  }

  /** What is done to an overlay before the merge rewrites cells, and moves nothing. */
  lemma ResolvedAlike(b: Forest, o: Forest)
    requires UResolved(b, o).Ok?
    ensures Alike(o, UResolved(b, o).v)
  {
    hide UShift, ULocal, UFixLabels, Alike;
    var delta := UMaxPhandle(b);
    var o1 := if delta > 0 then UShift(o, delta) else o;
    AlikeSelf(o);
    ShiftAlike(o, delta);
    var o2 := match KidAt(o1, LOCAL_FIXUPS) { case None => o1 case Some(fx) => ULocal(o1, fx, delta).v };
    AlikeSelf(o1);
    if KidAt(o1, LOCAL_FIXUPS).Some? {
      LocalAlike(o1, KidAt(o1, LOCAL_FIXUPS).value, delta);
    }
    AlikeTrans(o, o1, o2);
    AlikeSelf(o2);
    if KidAt(o2, FIXUPS).Some? {
      FixLabelsAlike(b, o2, KidAt(o2, FIXUPS).value);
      AlikeTrans(o, o2, UFixLabels(b, o2, KidAt(o2, FIXUPS).value).v);
    }
  }

  // ----- The merge -----

  lemma {:induction false} AppendSize(f: Forest, g: Forest)
    ensures FSize(Append(f, g)) == FSize(f) + FSize(g)
  {
    hide TokSize;
    if !f.Nil? {
      AppendSize(f.rest, g);
    }
  }

  lemma {:induction false} PutSizeIs(b: Forest, x: Str, d: Str)
    requires UData(b, x).Some?
    ensures FSize(UPut(b, x, d)) + TokSize(Prop(x, UData(b, x).value)) == FSize(b) + TokSize(Prop(x, d))
  {
    hide TokSize;
    match b
    case PropF(n, _, r) => if n != x { PutSizeIs(r, x, d); }
    case NopF(r) => PutSizeIs(r, x, d);
    case SubF(_, _, r) => PutSizeIs(r, x, d);
  }

  lemma {:induction false} PutKidSize(b: Forest, n: Str, k: Forest)
    requires KidAt(b, n).Some?
    ensures FSize(PutKid(b, n, k)) + FSize(KidAt(b, n).value) == FSize(b) + FSize(k)
            && FSize(KidAt(b, n).value) <= FSize(b)
  {
    hide TokSize;
    match b
    case SubF(m, _, r) => if m != n { PutKidSize(r, n, k); }
    case NopF(r) => PutKidSize(r, n, k);
    case PropF(_, _, r) => PutKidSize(r, n, k);
  }

  lemma {:induction false} PutAtSize(b: Forest, p: Path, k: Forest)
    requires NodeAt(b, p).Some?
    ensures FSize(PutAt(b, p, k)) + FSize(NodeAt(b, p).value) == FSize(b) + FSize(k)
    decreases |p|
  {
    hide FSize;
    if p != [] {
      var j := KidAt(b, p[0]).value;
      PutAtSize(j, p[1..], k);
      PutKidSize(b, p[0], PutAt(j, p[1..], k));
    }
  }

  /** The merged list takes no more room than the two lists. */
  lemma {:induction false} MergeSize(a: Forest, b: Forest)
    ensures FSize(UMerge(a, b)) <= FSize(a) + FSize(b)
    decreases b
  {
    hide TokSize, UPut, UData, KidAt, PutKid, Append;
    match b
    case Nil =>
    case PropF(n, d, r) =>
      MergeSize(USetProp(a, n, d), r);
      SetSize(a, n, d);
    case SubF(n, k, r) =>
      if KidAt(a, n).Some? {
        var j := KidAt(a, n).value;
        MergeSize(j, k);
        PutKidSize(a, n, UMerge(j, k));
        MergeSize(PutKid(a, n, UMerge(j, k)), r);
      } else {
        AppendSize(a, SubF(n, k, Nil));
        MergeSize(Append(a, SubF(n, k, Nil)), r);
      }
    case NopF(r) => MergeSize(a, r);
  }

  lemma SetSize(a: Forest, n: Str, d: Str)
    ensures FSize(USetProp(a, n, d)) <= FSize(a) + TokSize(Prop(n, d))
  {
    if UData(a, n).Some? {
      PutSizeIs(a, n, d);
    } else {
      AppendSize(a, PropF(n, d, Nil));
    }
  }

  lemma {:induction false} MergeAllSize(b: Forest, c: Forest, frags: Forest)
    requires UMergeAll(b, c, frags).Ok?
    ensures FSize(UMergeAll(b, c, frags).v) <= FSize(c) + FSize(frags)
    decreases frags
  {
    hide UMerge, UTarget, PutAt, NodeAt, KidAt, TokSize;
    match frags
    case Nil =>
    case SubF(n, k, r) =>
      if KidAt(k, OVERLAY).None? {
        MergeAllSize(b, c, r);
      } else {
        var t := UTarget(b, c, k).v;
        var v := KidAt(k, OVERLAY).value;
        MergeSize(NodeAt(c, t).value, v);
        PutAtSize(c, t, UMerge(NodeAt(c, t).value, v));
        PutKidSize(k, OVERLAY, v);
        MergeAllSize(b, PutAt(c, t, UMerge(NodeAt(c, t).value, v)), r);
      }
    case _ => MergeAllSize(b, c, frags.rest);
  }

  lemma {:induction false} StripSize(f: Forest)
    ensures FSize(Strip(f)) <= FSize(f)
  {
    hide TokSize;
    match f
    case Nil =>
    case SubF(_, k, r) =>
      StripSize(k);
      StripSize(r);
    case _ => StripSize(f.rest);
  }

  lemma {:induction false} EmitSize(f: Forest)
    ensures FSize(PropsOf(f)) + FSize(EmitSubs(f)) <= FSize(f)
    ensures FSize(Emit(f)) <= FSize(f)
  {
    hide TokSize;
    AppendSize(PropsOf(f), EmitSubs(f));
    match f
    case Nil =>
    case SubF(_, k, r) =>
      EmitSize(k);
      EmitSize(r);
    case _ => EmitSize(f.rest);
  }

  /** The tree that ufdt_apply_overlay writes takes no more room than the base and the overlay. */
  lemma ApplySize(b: Forest, o: Forest)
    requires UfdtApplyOverlay(b, o).Ok?
    ensures FSize(UfdtApplyOverlay(b, o).v) <= FSize(b) + FSize(o)
    ensures var u := UOverlayApply(Strip(b), Strip(o)).v; FSize(PropsOf(u)) + FSize(EmitSubs(u)) <= FSize(b) + FSize(o)
  {
    hide UResolved, UMergeAll, Strip, Emit, PropsOf, EmitSubs;
    var o3 := UResolved(Strip(b), Strip(o)).v;
    StripSize(b);
    StripSize(o);
    ResolvedAlike(Strip(b), Strip(o));
    AlikeSize(Strip(o), o3);
    MergeAllSize(Strip(b), Strip(b), o3);
    EmitSize(UMergeAll(Strip(b), Strip(b), o3).v);
  }
}
